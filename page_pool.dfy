/**
  The `PagePool` class of app/pkg/analysis.py: a bounded pool of browser
  pages, updated in place. Each method is proved to perform the matching
  transition of `PoolSpec`, so the invariant `Valid()` (busy pages are
  pooled, the pool stays within its cap, pooled pages are open)
  holds between calls.

  The asyncio condition variable is not modelled: when `get_page` would wait,
  `GetPage` returns `Blocked` and leaves the pool as it was; a caller retries
  by calling `GetPage` again after a `Release`.
 */
module PagePools {
  import opened PoolSpec

  /** What a caller did with the pool, as recorded in its history. */
  datatype Event = CheckedOut(page: PageId) | CheckedIn(page: PageId) | TornDown

  class PagePool {
    const maxPages: int
    var pool: seq<PageId>
    var busy: set<PageId>
    /** The pages whose browser tab has been closed. */
    var closed: set<PageId>
    /** The counter that supplies a fresh id to each created page. */
    var nextId: PageId
    /** Every effective check-out, check-in and teardown, in order. */
    ghost var history: seq<Event>

    function State(): PoolState
      reads this
    {
      PoolState(maxPages, pool, busy, closed, nextId)
    }

    ghost predicate Valid()
      reads this
    {
      Inv(State())
    }

    constructor (maxPages: int := MAX_PAGES)
      ensures Valid() && State() == Empty(maxPages) && history == []
    {
      this.maxPages := maxPages;
      pool, busy, closed, nextId := [], {}, {}, 0;
      history := [];
    }

    /**
      Hands out the first pooled page that is not busy, else creates one if
      the pool is below its cap, else reports that the caller must wait.
     */
    method GetPage() returns (r: Acquired)
      requires Valid()
      modifies this
      ensures Valid()
      ensures (r, State()) == AcquireStep(old(State()))
      ensures history == old(history) + if r.Got? then [CheckedOut(r.page)] else []
    {
      ghost var s := State();
      for i := 0 to |pool|
        invariant forall j :: 0 <= j < i ==> pool[j] in busy
      {
        if pool[i] !in busy {
          var page := pool[i];
          AcquireReuses(s, i);
          busy := busy + {page};
          history := history + [CheckedOut(page)];
          return Got(page);
        }
      }
      assert AllBusy(s);
      if |pool| < maxPages {
        AcquireCreates(s);
        var page := nextId;  // context.new_page()
        nextId := nextId + 1;
        pool := pool + [page];
        busy := busy + {page};
        history := history + [CheckedOut(page)];
        return Got(page);
      }
      return Blocked;
    }

    /** Returns a busy page to the pool; a page that is not busy is ignored. */
    method Release(page: PageId)
      requires Valid()
      modifies this
      ensures Valid()
      ensures State() == ReleaseStep(old(State()), page)
      ensures history == old(history) + if page in old(busy) then [CheckedIn(page)] else []
    {
      if page in busy {
        busy := busy - {page};
        history := history + [CheckedIn(page)];
      }
    }

    /** Closes every pooled page, then empties the pool and the busy set. */
    method CloseAll()
      requires Valid()
      modifies this
      ensures Valid()
      ensures State() == CloseAllStep(old(State()))
      ensures history == old(history) + [TornDown]
    {
      for i := 0 to |pool|
        invariant pool == old(pool) && busy == old(busy) && nextId == old(nextId)
        invariant history == old(history)
        invariant closed == old(closed) + Elems(pool[..i])
      {
        assert pool[..i + 1] == pool[..i] + [pool[i]];
        closed := closed + {pool[i]};  // page.close()
      }
      assert pool[..|pool|] == pool;
      pool, busy := [], {};
      history := history + [TornDown];
    }
  }
}
