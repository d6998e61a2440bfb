# Browser page pool and MP3 extraction, modelled in Dafny

This project models the browser-driven extraction core of a small music
backend (app/pkg/analysis.py):

- `PagePool`: a bounded pool of browser pages. `get_page` reuses the first
  pooled page that is not busy, creates a page while the pool is below
  `max_pages`, and otherwise waits on an asyncio condition. `release` frees
  a busy page and notifies a waiter. `close_all` closes every page and
  empties the pool.
- `fetch_page`: one extraction session. It takes a page from the pool and
  registers `on_response`, a callback that settles a single-shot future with
  the URL of the first response the filter accepts. It then navigates,
  scrapes the song and artist names, and waits for the future under a
  timeout. It returns a record, or `None` on a timeout or any other error,
  and it always releases the page.
- `analyze_music_url`: creates a pool of one page and runs one session
  whose filter accepts URLs containing ".mp3". It checks the returned
  record's `mp3_url`, then closes the pool.

The Dafny files:

- `wrappers.dfy`: an `Option` type.
- `pool_spec.dfy` (module `PoolSpec`): the pool as a state machine on values. It defines:
  - `AcquireStep`, `ReleaseStep` and `CloseAllStep`;
  - the invariant `Inv`;
  - trace semantics `Step`/`Run` over sequences of `Get`, `Put(page)` and `Shutdown` operations;
  - the lemmas about runs.
- `page_pool.dfy` (module `PagePools`): the class `PagePool`. Its fields are updated in place, and each method is proved to perform the `PoolSpec` transition. A ghost history records every check-out, check-in and teardown.
- `matching.dfy` (module `Matching`): the `on_response` slot, folded over the delivered responses. It is proved equal to a reference "first accepted response" function. The file also holds Python's substring test and the MP3 filter.
- `fetching.dfy` (module `Fetching`): the session `FetchPage`, which runs on a `PagePool`, its pure meaning `FetchOutcome`, and `AnalyzeMusicUrl`.
- `waiting.dfy` (module `Waiting`): the wait-and-retry branch of `get_page`, with the condition's lock made explicit.

A page handle is an abstract natural number. Creating a page draws a fresh
id from a counter. `page.close()` adds the page to a `closed` set.

The browser is abstract. It is described by:
- how navigation ended;
- how each text lookup ended;
- the responses the page delivered before the wait's deadline.

A timeout therefore means that no delivered response was accepted.

Facts about the code that shape the model:
- app/pkg/analysis.py has no authentication gate and no cookie loader; a session goes straight from acquiring a page to navigating.
- Failures come back as `None`, not as typed failures. A navigation error, a timeout and any other exception all give `None`.
- Two sessions sharing a pool of capacity one do not both complete: the second one deadlocks when it is woken (see Findings).

## Model

| member | source | states |
|---|---|---|
| PoolSpec.FirstFree | app/pkg/analysis.py:36-39 | the index of the first pooled page at or after `from` that is not busy, with every page before it busy; `None` exactly when all of them are busy |
| PoolSpec.AcquireStep | app/pkg/analysis.py:34-49 | get_page keeps the invariant; when some page is free it hands out the first free page and keeps the pool; it creates a page only when every page is busy and the pool is below its cap, appending a fresh id; it blocks exactly when all pages are busy and the pool is at its cap, changing nothing; a handed-out page was neither busy nor closed and becomes busy |
| PoolSpec.FreePageReused | app/pkg/analysis.py:36-39 | corollary of `AcquireStep`, stated for any free page rather than the first: whenever some pooled page is free, the acquisition reuses a pooled page at or before it and the pool does not grow |
| PoolSpec.AcquireReuses | app/pkg/analysis.py:36-39 | reusing the first free page changes only the busy set, by adding that page |
| PoolSpec.AcquireCreates | app/pkg/analysis.py:42-46 | with every page busy and room below the cap, the new page gets the next id, is appended to the pool and marked busy |
| PoolSpec.ReleaseStep | app/pkg/analysis.py:59-62 | release removes the page from the busy set and changes nothing else; releasing a page that is not busy is a no-op; the invariant is kept |
| PoolSpec.CloseAllStep | app/pkg/analysis.py:68-72 | close_all closes every pooled page and leaves the pool and the busy set empty; the invariant is kept |
| PoolSpec.RetryAfterRelease | app/pkg/analysis.py:48-50 | a caller blocked on a full pool that retries after a page is released receives exactly that page, and the pool is as it was before it blocked |
| PoolSpec.Step | app/pkg/analysis.py:24-72 | every pool operation keeps the invariant and the cap |
| PoolSpec.Run | app/pkg/analysis.py:13-72 | along any sequence of operations the invariant holds and the pool never holds more than `max_pages` pages |
| PoolSpec.NeverHandedOutTwice | app/pkg/analysis.py:36-46 | a page that is checked out is not handed out again, whatever operations follow, unless it is released |
| PoolSpec.StepKeepsOutstanding | app/pkg/analysis.py:36-46 | one operation other than releasing `p` does not hand out `p`, and `p` stays checked out or torn down |
| PoolSpec.StepKeepsDistinct | app/pkg/analysis.py:42-46 | no operation makes a page occur twice in the pool |
| PoolSpec.RunKeepsDistinct | app/pkg/analysis.py:42-46 | along any run the pool never holds the same page twice |
| PoolSpec.GetsFromFilled | app/pkg/analysis.py:42-46 | from a pool of `k` busy pages, `m` acquisitions that fit under the cap hand out the next `m` ids in order |
| PoolSpec.CapHandsOutThenBlocks | app/pkg/analysis.py:42-49 | a pool capped at `n` hands `n` distinct pages to `n` acquisitions, and the next acquisition waits |
| PagePools.PagePool.constructor | app/pkg/analysis.py:11-21 | a new pool is empty, has the given cap (by default `MAX_PAGES`, 5) and satisfies the invariant |
| PagePools.PagePool.GetPage | app/pkg/analysis.py:34-49 | the loop and the creation branch perform exactly `AcquireStep` on the fields; the history records the check-out |
| PagePools.PagePool.Release | app/pkg/analysis.py:52-62 | the fields undergo exactly `ReleaseStep`; the history records a check-in only when the page was busy |
| PagePools.PagePool.CloseAll | app/pkg/analysis.py:64-72 | the loop closes every pooled page; the fields undergo exactly `CloseAllStep` |
| Matching.Accepts | app/pkg/analysis.py:103 | `filter_func and filter_func(resp)`: no filter, a rejection or an exception from the filter never matches; an accepting filter always does |
| Matching.OnResponse | app/pkg/analysis.py:97-107 | a settled slot is never changed; an unsettled slot is settled exactly when a filter is given and accepts, and then with the response's URL |
| Matching.Deliver | app/pkg/analysis.py:97-107 | once settled, the slot keeps its value through any further responses |
| Matching.FirstMatchIndex | app/pkg/analysis.py:99-105 | the index of an accepted response with no accepted response before it; `None` exactly when none is accepted |
| Matching.FirstMatch | app/pkg/analysis.py:99-105 | a URL exactly when some response is accepted, namely that of the first accepted one; nothing without a filter |
| Matching.DeliverFindsFirstMatch | app/pkg/analysis.py:97-107 | running the callback on every delivered response settles the slot with exactly the first match |
| Matching.DeliverAppend | app/pkg/analysis.py:97-107 | delivering two batches in turn is delivering their concatenation |
| Matching.LaterResponsesIgnored | app/pkg/analysis.py:99-100 | once a response has matched, later responses never change the result |
| Matching.RaiseIsNoMatch | app/pkg/analysis.py:102-107 | illustration of the `except` around the filter: a filter that raises on a response gives the same first match as one that rejects it |
| Matching.Contains | app/pkg/analysis.py:163 | Python's `in` on strings: a match needs the pattern to fit; a prefix occurrence or an occurrence in the tail is a match (characterised fully by `ContainsIffOccurs`) |
| Matching.ContainsIffOccurs | app/pkg/analysis.py:163 | the substring test holds exactly when the pattern occurs at some index |
| Matching.Mp3Filter | app/pkg/analysis.py:162-163 | `filter_func` never raises; an accepted URL has at least 4 characters; a rejected URL has no occurrence of ".mp3" anywhere |
| Matching.Mp3FilterAccepts | app/pkg/analysis.py:162-163 | the MP3 filter accepts exactly the URLs in which ".mp3" occurs and never raises |
| Fetching.Scrape | app/pkg/analysis.py:117-125 | the names come only from lookups that succeeded; a failed song lookup also leaves the artist name unset |
| Fetching.TryLookups | app/pkg/analysis.py:119-125 | lookups in one logging `try`: every lookup before the first failure sets its name; the failed one and every later one stay unset |
| Fetching.ScrapeIsTryBlock | app/pkg/analysis.py:117-125 | the scrape equals the two lookups run as one `try` block, its independent reference |
| Fetching.FetchOutcome | app/pkg/analysis.py:109-139 | a record exactly when navigation succeeded and some delivered response was accepted; it carries the first match's URL and the scraped names; no filter gives no record |
| Fetching.FetchPage | app/pkg/analysis.py:94-142 | a session on the pool returns `FetchOutcome`; the page `used` is the one `get_page` handed out, it is checked out and checked back in exactly once, and the pool ends in exactly the state of that acquisition followed by the release of `used` (busy set restored); when no page can be had, nothing changes |
| Fetching.CheckMp3UrlAsWritten | app/pkg/analysis.py:169-181 | the check as written raises exactly when the session returned no record; a record with a non-empty URL is returned unchanged, one with an empty URL gives `None` |
| Fetching.AsWrittenRaisesWithoutMatch | app/pkg/analysis.py:167-171 | every session that fails to load or sees no MP3 response ends in an AttributeError |
| Fetching.AsWrittenRaisesOnFailedNavigation | app/pkg/analysis.py:167-171 | illustration, the concrete input of the first finding: a page that fails to load ends in the AttributeError |
| Fetching.CheckMp3Url | app/pkg/analysis.py:169-171 | the intended check keeps exactly the records with a non-empty MP3 URL and gives `None` otherwise |
| Fetching.CheckKeepsMp3Records | app/pkg/analysis.py:162-171 | with the MP3 filter the check never drops a record the session produced |
| Fetching.AnalyzeMusicUrl | app/pkg/analysis.py:144-184 | with the intended `mp3_url` check (the corrected half of the first finding; as written a missing record raises instead): a record comes back exactly when the page loaded and some delivered URL contains ".mp3", its URL contains ".mp3", and it equals the session's outcome |
| Waiting.Enter | app/pkg/analysis.py:34 | a task enters the condition's lock exactly when it is free, and then holds it |
| Waiting.Attempt | app/pkg/analysis.py:36-49 | one pass of the acquisition logic: it waits exactly when `AcquireStep` blocks, and otherwise hands out exactly the page and state `AcquireStep` gives |
| Waiting.CallGetPage | app/pkg/analysis.py:34-50 | a call of get_page deadlocks exactly when its own task holds the lock; with the lock free it runs the acquisition logic |
| Waiting.RetryAsWritten | app/pkg/analysis.py:49-50 | the retry as written, `get_page` called again with the lock held by the woken task, always deadlocks |
| Waiting.RetryCorrected | app/pkg/analysis.py:48-50 | names the corrected half of the second finding (it is `Attempt`): the intended retry never deadlocks: it waits again exactly when `AcquireStep` blocks, and otherwise hands out the page and state `AcquireStep` gives |
| Waiting.AsWrittenRetryDeadlocks | app/pkg/analysis.py:49-50 | as written, every woken task deadlocks, even when a page is free, and every other task then parks on the lock |
| Waiting.DeadlockExample | app/pkg/analysis.py:48-50 | pool of one busy page: the second caller waits; after the release, the as-written retry deadlocks and the intended retry gets the page |
| Waiting.CorrectedRetryGetsReleasedPage | app/pkg/analysis.py:48-50 | as intended, a caller woken by the release of a page receives that page |

## Left out

- The asyncio condition variable is not modelled as a waiter queue, and neither is the fairness of `notify`. `GetPage` returns `Blocked` where `get_page` would wait, and `FetchPage` then returns `Suspended`. A waiter resuming after a release is modelled as calling the acquisition again (`RetryAfterRelease`, and `Waiting` for the lock).
- Interleavings of concurrent sessions are not modelled. Operations on the pool are atomic steps of `Run`.
- The browser is not modelled: Playwright navigation, `text_content`, `new_page` and `close` calls are abstract inputs or abstract effects.
- Time is not modelled. The 30/10-second timeout of `asyncio.wait_for` is represented only by which responses arrived before the deadline. A 5-second lookup timeout is one way a lookup ends in `LookupFailed`.
- Exceptions from `get_page` itself (e.g. a failing `new_page`) are not modelled.
- Exceptions from `page.close()` and `browser.close()` are not modelled.
- Response status codes are carried but play no part, as in the code.
- The `on_response` handler is never unregistered, so handlers of earlier sessions stay attached to a reused page. A handler whose session ended by timeout or success finds its future done and returns at once. After a navigation error the future stays pending, so that stale handler keeps running the filter on later sessions' responses and may settle the orphaned future. The later session's own result is unaffected. The model gives each session a fresh slot and does not model stale handlers.
- Logging, `main()`, the HTTP routes, the ORM models and the configuration are not part of this model.

## Findings

| source | as written | input that shows it | evidently intended | confidence | as-written member | corrected member |
|---|---|---|---|---|---|---|
| app/pkg/analysis.py:169 | `data.get("mp3_url")` is called on the session's result without testing it, and `fetch_page` returns `None` on a navigation error or timeout | a page that fails to load, or one that delivers no URL containing ".mp3" within 10 seconds: `data` is `None` and the call raises AttributeError | no record gives `None` ("no MP3 URL found") | high, not executed | Fetching.AsWrittenRaisesWithoutMatch | Fetching.CheckKeepsMp3Records |
| app/pkg/analysis.py:49-50 | after `condition.wait()` the task holds the condition's lock again, and the recursive `get_page` enters `async with self.condition` on that non-reentrant lock | a pool with `max_pages=1` shared by two sessions: the second waits; when the first releases, the woken second task deadlocks, and every later caller parks behind it | after waking, retry the acquisition inside the section already held and receive the released page | high, not executed | Waiting.AsWrittenRetryDeadlocks | Waiting.CorrectedRetryGetsReleasedPage |
