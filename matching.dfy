/**
  First-match response selection of `fetch_page` (app/pkg/analysis.py).

  The page calls `on_response` for every network response, in delivery
  order; the callback settles a single-shot slot with the URL of the first
  response the filter accepts and ignores every response once the slot is
  settled. Here the delivered responses are a sequence, the slot an
  `Option<string>`, and the filter a total function whose verdict may also be
  `Raise` for a filter that throws (the callback logs it and moves on).
 */
module Matching {
  import opened Wrappers

  /** A network response; only its URL takes part in matching. */
  datatype Response = Response(status: int, url: string)

  /** What a call of the filter does: accept, reject, or raise an exception. */
  datatype Verdict = Accept | Reject | Raise

  type Filter = Response -> Verdict

  /**
    The callback's test: a filter is present and accepts the response. No
    filter, a rejection and an exception raised by the filter all leave the
    response unmatched.
   */
  function Accepts(filter: Option<Filter>, resp: Response): (b: bool)
    ensures filter.None? ==> !b
    ensures filter.Some? && filter.value(resp) in {Reject, Raise} ==> !b
    ensures filter.Some? && filter.value(resp) == Accept ==> b
  {
    filter.Some? && filter.value(resp) == Accept
  }

  /** One call of `on_response` on the slot. */
  function OnResponse(slot: Option<string>, resp: Response, filter: Option<Filter>): (r: Option<string>)
    ensures slot.Some? ==> r == slot
    ensures slot.None? ==> (r.Some? <==> Accepts(filter, resp))
    ensures r.Some? && slot.None? ==> r.value == resp.url
  {
    if slot.Some? then slot
    else if Accepts(filter, resp) then Some(resp.url)
    else None
  }

  /** The slot after `on_response` has run on each response of `rs`, in order. */
  function Deliver(slot: Option<string>, rs: seq<Response>, filter: Option<Filter>): (r: Option<string>)
    decreases |rs|
    ensures slot.Some? ==> r == slot
  {
    if rs == [] then slot
    else Deliver(OnResponse(slot, rs[0], filter), rs[1..], filter)
  }

  /** The index of the first response the filter accepts. */
  function FirstMatchIndex(rs: seq<Response>, filter: Option<Filter>): (r: Option<nat>)
    decreases |rs|
    ensures r.Some? ==> r.value < |rs| && Accepts(filter, rs[r.value])
    ensures r.Some? ==> forall j :: 0 <= j < r.value ==> !Accepts(filter, rs[j])
    ensures r.None? ==> forall j :: 0 <= j < |rs| ==> !Accepts(filter, rs[j])
  {
    if rs == [] then None
    else if Accepts(filter, rs[0]) then Some(0)
    else match FirstMatchIndex(rs[1..], filter)
      case None => None
      case Some(k) => Some(k + 1)
  }

  /** `rs[i]` is accepted and no earlier response is. */
  ghost predicate IsFirstMatch(rs: seq<Response>, filter: Option<Filter>, i: int) {
    0 <= i < |rs| && Accepts(filter, rs[i]) && forall j :: 0 <= j < i ==> !Accepts(filter, rs[j])
  }

  /** The URL of the first response the filter accepts, if any. */
  function FirstMatch(rs: seq<Response>, filter: Option<Filter>): (r: Option<string>)
    ensures r.Some? <==> exists i :: 0 <= i < |rs| && Accepts(filter, rs[i])
    ensures r.Some? ==> exists i :: IsFirstMatch(rs, filter, i) && r.value == rs[i].url
    ensures filter.None? ==> r.None?
  {
    match FirstMatchIndex(rs, filter)
    case None => None
    case Some(i) => Some(rs[i].url)
  }

  /**
    Delivering every response to an unsettled slot settles it exactly with
    the URL of the first accepted response, or leaves it unsettled.
   */
  lemma {:induction false} DeliverFindsFirstMatch(rs: seq<Response>, filter: Option<Filter>)
    ensures Deliver(None, rs, filter) == FirstMatch(rs, filter)
    decreases |rs|
  {
    if rs != [] {
      if Accepts(filter, rs[0]) {
        assert FirstMatchIndex(rs, filter) == Some(0);
      } else {
        DeliverFindsFirstMatch(rs[1..], filter);
        match FirstMatchIndex(rs[1..], filter)
        case None =>
        case Some(k) =>
          assert rs[1..][k] == rs[k + 1];
      }
    }
  }

  /** Delivering `rs + later` is delivering `rs`, then `later`. */
  lemma {:induction false} DeliverAppend(slot: Option<string>, rs: seq<Response>, later: seq<Response>, filter: Option<Filter>)
    ensures Deliver(slot, rs + later, filter) == Deliver(Deliver(slot, rs, filter), later, filter)
    decreases |rs|
  {
    if rs == [] {
      assert rs + later == later;
    } else {
      assert (rs + later)[0] == rs[0] && (rs + later)[1..] == rs[1..] + later;
      DeliverAppend(OnResponse(slot, rs[0], filter), rs[1..], later, filter);
    }
  }

  /** Once some response has matched, later responses never change the result. */
  lemma LaterResponsesIgnored(rs: seq<Response>, later: seq<Response>, filter: Option<Filter>)
    requires FirstMatch(rs, filter).Some?
    ensures FirstMatch(rs + later, filter) == FirstMatch(rs, filter)
  {
    DeliverFindsFirstMatch(rs, filter);
    DeliverFindsFirstMatch(rs + later, filter);
    DeliverAppend(None, rs, later, filter);
  }

  /**
    Illustration of the `except` around the filter: a filter that raises on a
    response gives the same first match as one that rejects it.
   */
  lemma RaiseIsNoMatch(rs: seq<Response>, f: Filter)
    ensures FirstMatch(rs, Some(f)) == FirstMatch(rs, Some(r => if f(r) == Raise then Reject else f(r)))
  {
    var g: Filter := r => if f(r) == Raise then Reject else f(r);
    forall r ensures Accepts(Some(f), r) == Accepts(Some(g), r) {
    }
    SameVerdictsSameMatch(rs, Some(f), Some(g));
  }

  lemma {:induction false} SameVerdictsSameMatch(rs: seq<Response>, f: Option<Filter>, g: Option<Filter>)
    requires forall r :: Accepts(f, r) == Accepts(g, r)
    ensures FirstMatchIndex(rs, f) == FirstMatchIndex(rs, g)
    decreases |rs|
  {
    if rs != [] {
      SameVerdictsSameMatch(rs[1..], f, g);
    }
  }

  /** `t` occurs in `s` starting at index `i`. */
  ghost predicate OccursAt(s: string, t: string, i: int) {
    0 <= i && i + |t| <= |s| && s[i..i + |t|] == t
  }

  /** Python's substring test `t in s`. */
  function Contains(s: string, t: string): (b: bool)
    decreases |s|
    ensures b ==> |t| <= |s|
    ensures |t| <= |s| && s[..|t|] == t ==> b
    ensures |t| < |s| && Contains(s[1..], t) ==> b
  {
    if |s| < |t| then false
    else s[..|t|] == t || Contains(s[1..], t)
  }

  /** `Contains` holds exactly when `t` occurs somewhere in `s`. */
  lemma {:induction false} ContainsIffOccurs(s: string, t: string)
    ensures Contains(s, t) <==> exists i :: OccursAt(s, t, i)
    decreases |s|
  {
    if |s| >= |t| {
      if s[..|t|] == t {
        assert OccursAt(s, t, 0);
      } else {
        ContainsIffOccurs(s[1..], t);
        if Contains(s[1..], t) {
          var i :| OccursAt(s[1..], t, i);
          assert s[1..][i..i + |t|] == s[i + 1..i + 1 + |t|];
          assert OccursAt(s, t, i + 1);
        }
        if i :| OccursAt(s, t, i) {
          assert i > 0;
          assert s[1..][i - 1..i - 1 + |t|] == s[i..i + |t|];
          assert OccursAt(s[1..], t, i - 1);
        }
      }
    }
  }

  /** The filter of `analyze_music_url`: accept a response whose URL contains ".mp3". */
  function Mp3Filter(resp: Response): (v: Verdict)
    ensures v != Raise
    ensures v == Accept ==> |resp.url| >= 4
    ensures v == Reject ==> forall i :: !OccursAt(resp.url, ".mp3", i)
  {
    ContainsIffOccurs(resp.url, ".mp3");
    if Contains(resp.url, ".mp3") then Accept else Reject
  }

  /** The MP3 filter accepts a response exactly when ".mp3" occurs in its URL; it never raises. */
  lemma Mp3FilterAccepts(resp: Response)
    ensures Accepts(Some(Mp3Filter), resp) <==> exists i :: OccursAt(resp.url, ".mp3", i)
    ensures Mp3Filter(resp) != Raise
  {
    ContainsIffOccurs(resp.url, ".mp3");
  }
}
