/**
  `fetch_page` and `analyze_music_url` of app/pkg/analysis.py.

  The browser is abstract: how navigation ended, how the two text lookups
  ended, and the responses the page delivered before the wait for a match
  timed out. A session takes a page from the pool, lets the callback of
  `Matching` settle its slot, scrapes the song and artist names, and releases
  the page in its `finally`, whatever happened before.
 */
module Fetching {
  import opened Wrappers
  import opened PoolSpec
  import opened PagePools
  import opened Matching

  /** How `page.goto(url, wait_until="load")` ended. */
  datatype Navigation = Loaded | NavigationFailed

  /** How one `page.text_content(selector, timeout=5000)` ended: the text, which may be absent, or an exception. */
  datatype TextLookup = Text(value: Option<string>) | LookupFailed

  /**
    What one session sees of the browser. `observed` are the responses the
    page delivered, in order, before the deadline of the wait for a match.
   */
  datatype Browser = Browser(
    navigation: Navigation,
    song: TextLookup,
    artist: TextLookup,
    observed: seq<Response>)

  /** The dictionary `fetch_page` returns on success. */
  datatype Record = Record(songName: Option<string>, artistName: Option<string>, mp3Url: string)

  /**
    The scrape block: the song lookup runs first, and its failure skips the
    artist lookup, since both sit in one `try`. A name is set only from a
    lookup that succeeded.
   */
  function Scrape(song: TextLookup, artist: TextLookup): (r: (Option<string>, Option<string>))
    ensures r.0.Some? ==> song == Text(r.0)
    ensures r.1.Some? ==> song.Text? && artist == Text(r.1)
    ensures song.Text? ==> r.0 == song.value
    ensures song.LookupFailed? ==> r == (None, None)
    ensures song.Text? && artist.Text? ==> r.1 == artist.value
  {
    match song
    case LookupFailed => (None, None)
    case Text(name) =>
      match artist
      case LookupFailed => (name, None)
      case Text(artistName) => (name, artistName)
  }

  /**
    Lookups run in order inside one `try` whose handler only logs: each
    lookup before the first failure sets its name, and the failure leaves it
    and every later name unset.
   */
  function TryLookups(lookups: seq<TextLookup>): (names: seq<Option<string>>)
    decreases |lookups|
    ensures |names| == |lookups|
    ensures forall i :: 0 <= i < |lookups| && (forall j :: 0 <= j <= i ==> lookups[j].Text?) ==> names[i] == lookups[i].value
    ensures forall i, j :: 0 <= j <= i < |lookups| && lookups[j].LookupFailed? ==> names[i] == None
  {
    if lookups == [] then []
    else match lookups[0]
      case LookupFailed => seq(|lookups|, _ => None)
      case Text(name) =>
        var rest := TryLookups(lookups[1..]);
        assert forall i :: 1 <= i < |lookups| ==> lookups[1..][i - 1] == lookups[i];
        [name] + rest
  }

  /** The scrape block is the two lookups run as one `try`. */
  lemma ScrapeIsTryBlock(song: TextLookup, artist: TextLookup)
    ensures Scrape(song, artist) == (TryLookups([song, artist])[0], TryLookups([song, artist])[1])
  {
    var names := TryLookups([song, artist]);
    assert [song, artist][0] == song && [song, artist][1] == artist;
  }

  /**
    What `fetch_page` returns: a record exactly when navigation succeeded and
    a response matched in time, carrying the URL of the first match; `None`
    on a navigation error or a timeout.
   */
  function FetchOutcome(b: Browser, filter: Option<Filter>): (r: Option<Record>)
    ensures r.Some? <==> b.navigation == Loaded && exists i :: 0 <= i < |b.observed| && Accepts(filter, b.observed[i])
    ensures r.Some? ==> exists i :: IsFirstMatch(b.observed, filter, i) && r.value.mp3Url == b.observed[i].url
    ensures r.Some? ==> (r.value.songName, r.value.artistName) == Scrape(b.song, b.artist)
    ensures filter.None? ==> r.None?
  {
    var matched := FirstMatch(b.observed, filter);
    if b.navigation == NavigationFailed || matched == None then None
    else
      assert b.navigation == Loaded;
      assert exists i :: 0 <= i < |b.observed| && Accepts(filter, b.observed[i]);
      var names := Scrape(b.song, b.artist);
      Some(Record(names.0, names.1, matched.value))
  }

  /** A session either could not get a page (the caller waits) or ran to its end. */
  datatype Fetch = Suspended | Done(result: Option<Record>)

  /**
    One `fetch_page` session on `pool`. When the pool has no page to give,
    nothing happens. Otherwise the session returns `FetchOutcome`, and the
    page it checked out (`used`) is checked back in exactly once, so the busy
    set is as before; the pool itself may have grown by the page created.
   */
  method FetchPage(pool: PagePool, b: Browser, filter: Option<Filter>) returns (r: Fetch, ghost used: PageId)
    requires pool.Valid()
    modifies pool
    ensures pool.Valid()
    ensures r.Suspended? <==> AcquireStep(old(pool.State())).0.Blocked?
    ensures r.Suspended? ==> pool.State() == old(pool.State()) && pool.history == old(pool.history)
    ensures r.Done? ==> r.result == FetchOutcome(b, filter)
    ensures r.Done? ==> pool.history == old(pool.history) + [CheckedOut(used), CheckedIn(used)]
    ensures r.Done? ==> pool.busy == old(pool.busy) && pool.pool == AcquireStep(old(pool.State())).1.pool
    ensures r.Done? ==> AcquireStep(old(pool.State())).0 == Got(used)
    ensures r.Done? ==> pool.State() == ReleaseStep(AcquireStep(old(pool.State())).1, used)
  {
    var acquired := pool.GetPage();
    if acquired.Blocked? {
      return Suspended, 0;
    }
    var page := acquired.page;
    used := page;
    var result: Option<Record>;
    if b.navigation == NavigationFailed {
      // goto raised: the session skips scraping and waiting and returns None
      result := None;
    } else {
      var names := Scrape(b.song, b.artist);
      // on_response has run on every response delivered before the deadline
      var slot := Deliver(None, b.observed, filter);
      DeliverFindsFirstMatch(b.observed, filter);
      if slot == None {
        // asyncio.TimeoutError
        result := None;
      } else {
        result := Some(Record(names.0, names.1, slot.value));
      }
    }
    pool.Release(page);  // finally
    r := Done(result);
  }

  /** How `analyze_music_url` ends: with a value, or with an `AttributeError`. */
  datatype AnalyzeExit = Returned(value: Option<Record>) | RaisedAttributeError

  /**
    The check after `fetch_page` as written: it calls `data.get("mp3_url")`
    without testing `data`, so a session that returned `None` raises.
   */
  function CheckMp3UrlAsWritten(data: Option<Record>): (r: AnalyzeExit)
    ensures r == RaisedAttributeError <==> data.None?
    ensures data.Some? && data.value.mp3Url != "" ==> r == Returned(data)
    ensures data.Some? && data.value.mp3Url == "" ==> r == Returned(None)
  {
    match data
    case None => RaisedAttributeError
    case Some(d) => if d.mp3Url == "" then Returned(None) else Returned(data)
  }

  /** Every session of `analyze_music_url` that finds no MP3 response ends in an exception. */
  lemma AsWrittenRaisesWithoutMatch(b: Browser)
    requires b.navigation == NavigationFailed || forall i :: 0 <= i < |b.observed| ==> !Contains(b.observed[i].url, ".mp3")
    ensures CheckMp3UrlAsWritten(FetchOutcome(b, Some(Mp3Filter))) == RaisedAttributeError
  {
    if b.navigation == Loaded {
      forall i | 0 <= i < |b.observed| ensures !Accepts(Some(Mp3Filter), b.observed[i]) {
      }
    }
  }

  /** Illustration: the concrete input of the first finding, a page that fails to load. */
  lemma AsWrittenRaisesOnFailedNavigation()
    ensures CheckMp3UrlAsWritten(FetchOutcome(Browser(NavigationFailed, LookupFailed, LookupFailed, []), Some(Mp3Filter)))
            == RaisedAttributeError
  {
  }

  /** The check as intended: no record, or a record without an MP3 URL, gives `None`. */
  function CheckMp3Url(data: Option<Record>): (r: Option<Record>)
    ensures r.Some? ==> r == data && r.value.mp3Url != ""
    ensures data.Some? && data.value.mp3Url != "" ==> r == data
  {
    match data
    case None => None
    case Some(d) => if d.mp3Url == "" then None else data
  }

  /** With the MP3 filter, the URL check never drops a record the session produced. */
  lemma CheckKeepsMp3Records(b: Browser)
    ensures CheckMp3Url(FetchOutcome(b, Some(Mp3Filter))) == FetchOutcome(b, Some(Mp3Filter))
  {
    var data := FetchOutcome(b, Some(Mp3Filter));
    if data.Some? {
      var i :| IsFirstMatch(b.observed, Some(Mp3Filter), i) && data.value.mp3Url == b.observed[i].url;
      assert Mp3Filter(b.observed[i]) == Accept;
    }
  }

  /**
    `analyze_music_url` with the intended check: a fresh pool of one page, one
    session with the MP3 filter, then `close_all`. A record comes back
    exactly when the page loaded and some delivered response has ".mp3" in
    its URL, and it carries the first such URL.
   */
  method AnalyzeMusicUrl(b: Browser) returns (r: Option<Record>)
    ensures r == FetchOutcome(b, Some(Mp3Filter))
    ensures r.Some? <==> b.navigation == Loaded && exists i :: 0 <= i < |b.observed| && Contains(b.observed[i].url, ".mp3")
    ensures r.Some? ==> Contains(r.value.mp3Url, ".mp3")
  {
    var pool := new PagePool(1);
    var fetched, _ := FetchPage(pool, b, Some(Mp3Filter));
    assert fetched.Done?;
    CheckKeepsMp3Records(b);
    r := CheckMp3Url(fetched.result);
    pool.CloseAll();
    if r.Some? {
      ghost var i :| IsFirstMatch(b.observed, Some(Mp3Filter), i) && r.value.mp3Url == b.observed[i].url;
    }
  }
}
