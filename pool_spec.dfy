/**
  The page pool of app/pkg/analysis.py as a state machine on values.

  A page handle is an abstract id; the pool creates a page by drawing a fresh
  id from a counter. Each transition here is the meaning of one method of the
  `PagePool` class, which is proved to implement it (see page_pool.dfy).
 */
module PoolSpec {
  import opened Wrappers

  /** An abstract browser page handle. */
  type PageId = nat

  /** The default cap of a pool. */
  const MAX_PAGES: int := 5

  /**
    `pool` lists the created pages in creation order, `busy` holds the pages
    checked out, `closed` the pages whose browser tab was closed, and
    `nextId` is the id the next created page receives.
   */
  datatype PoolState = PoolState(
    maxPages: int,
    pool: seq<PageId>,
    busy: set<PageId>,
    closed: set<PageId>,
    nextId: PageId)

  /** The outcome of one acquisition: a page, or the caller has to wait. */
  datatype Acquired = Got(page: PageId) | Blocked

  function Empty(maxPages: int): PoolState {
    PoolState(maxPages, [], {}, {}, 0)
  }

  function Elems(pages: seq<PageId>): set<PageId> {
    set p | p in pages
  }

  /** No page occurs twice. */
  ghost predicate Distinct(pages: seq<PageId>) {
    forall i, j :: 0 <= i < j < |pages| ==> pages[i] != pages[j]
  }

  /**
    What every reachable state satisfies: pooled pages are open and carry ids
    already drawn; busy pages are pooled; the pool stays within its
    cap (a cap below one never lets a page be created).
   */
  ghost predicate Inv(s: PoolState) {
    && (forall i :: 0 <= i < |s.pool| ==> s.pool[i] < s.nextId && s.pool[i] !in s.closed)
    && (forall p :: p in s.busy ==> p in s.pool)
    && (forall p :: p in s.closed ==> p < s.nextId)
    && (s.pool == [] || |s.pool| <= s.maxPages)
  }

  /** Every pooled page is checked out. */
  ghost predicate AllBusy(s: PoolState) {
    forall p :: p in s.pool ==> p in s.busy
  }

  /** The index of the first page at or after `from` that is not busy. */
  function FirstFree(pool: seq<PageId>, busy: set<PageId>, from: nat): (r: Option<nat>)
    requires from <= |pool|
    decreases |pool| - from
    ensures r.Some? ==> from <= r.value < |pool| && pool[r.value] !in busy
    ensures r.Some? ==> forall j :: from <= j < r.value ==> pool[j] in busy
    ensures r.None? ==> forall j :: from <= j < |pool| ==> pool[j] in busy
  {
    if from == |pool| then None
    else if pool[from] !in busy then Some(from)
    else FirstFree(pool, busy, from + 1)
  }

  /** `s.pool[i]` is the first pooled page that is not busy. */
  ghost predicate IsFirstFree(s: PoolState, i: int) {
    0 <= i < |s.pool| && s.pool[i] !in s.busy && forall j :: 0 <= j < i ==> s.pool[j] in s.busy
  }

  /**
    `get_page`: the first pooled page that is not busy; otherwise a new page
    when the pool is below its cap; otherwise `Blocked`, the caller waits.
   */
  function AcquireStep(s: PoolState): (r: (Acquired, PoolState))
    requires Inv(s)
    ensures Inv(r.1)
    ensures r.1.maxPages == s.maxPages && r.1.closed == s.closed
    ensures r.0.Got? ==> r.0.page !in s.busy && r.0.page !in s.closed
    ensures r.0.Got? ==> r.0.page in r.1.pool && r.1.busy == s.busy + {r.0.page}
    // reuse: the first free page is handed out, and the pool is kept
    ensures forall i :: IsFirstFree(s, i) ==>
              r.0 == Got(s.pool[i]) && r.1.pool == s.pool && r.1.nextId == s.nextId
    // creation: only when every page is busy and there is room; a fresh id is appended
    ensures r.0.Got? && r.0.page !in s.pool ==>
              && AllBusy(s) && |s.pool| < s.maxPages
              && r.0.page == s.nextId && r.1.nextId == s.nextId + 1
              && r.1.pool == s.pool + [r.0.page]
    ensures r.0.Blocked? <==> AllBusy(s) && |s.pool| >= s.maxPages
    ensures r.0.Blocked? ==> r.1 == s
  {
    match FirstFree(s.pool, s.busy, 0)
    case Some(i) =>
      (Got(s.pool[i]), s.(busy := s.busy + {s.pool[i]}))
    case None =>
      if |s.pool| < s.maxPages then
        var p := s.nextId;
        (Got(p), s.(pool := s.pool + [p], busy := s.busy + {p}, nextId := p + 1))
      else
        (Blocked, s)
  }

  /**
    Corollary of `AcquireStep`'s reuse clause, stated for any free page
    rather than the first one: whenever some pooled page is free, a pooled
    page at or before it is reused, and the pool does not grow.
   */
  lemma FreePageReused(s: PoolState, i: int)
    requires Inv(s) && 0 <= i < |s.pool| && s.pool[i] !in s.busy
    ensures AcquireStep(s).0.Got? && AcquireStep(s).0.page in s.pool[..i + 1]
    ensures AcquireStep(s).1.pool == s.pool
  {
    var f := FirstFree(s.pool, s.busy, 0);
    assert f.Some? && f.value <= i;
    assert IsFirstFree(s, f.value);
    assert s.pool[f.value] == s.pool[..i + 1][f.value];
  }

  /** The exact effect of reusing the first free page. */
  lemma AcquireReuses(s: PoolState, i: int)
    requires Inv(s) && IsFirstFree(s, i)
    ensures AcquireStep(s) == (Got(s.pool[i]), s.(busy := s.busy + {s.pool[i]}))
  {
    var f := FirstFree(s.pool, s.busy, 0);
    assert f == Some(i);
  }

  /** The exact effect of creating a page. */
  lemma AcquireCreates(s: PoolState)
    requires Inv(s) && AllBusy(s) && |s.pool| < s.maxPages
    ensures AcquireStep(s) == (Got(s.nextId), s.(pool := s.pool + [s.nextId],
                                                  busy := s.busy + {s.nextId},
                                                  nextId := s.nextId + 1))
  {
    assert FirstFree(s.pool, s.busy, 0).None?;
  }

  /** `release`: frees a busy page; a page that is not busy is ignored. */
  function ReleaseStep(s: PoolState, p: PageId): (r: PoolState)
    ensures Inv(s) ==> Inv(r)
    ensures r.pool == s.pool && r.closed == s.closed && r.nextId == s.nextId
    ensures r.busy == s.busy - {p} && r.maxPages == s.maxPages
    ensures p !in s.busy ==> r == s
  {
    if p in s.busy then s.(busy := s.busy - {p}) else s
  }

  /** `close_all`: closes every pooled page and empties the pool. */
  function CloseAllStep(s: PoolState): (r: PoolState)
    ensures Inv(s) ==> Inv(r)
    ensures r.pool == [] && r.busy == {}
    ensures r.closed == s.closed + Elems(s.pool)
    ensures r.nextId == s.nextId && r.maxPages == s.maxPages
  {
    s.(pool := [], busy := {}, closed := s.closed + Elems(s.pool))
  }

  /**
    A caller blocked on a full pool retries after some page is released: the
    retry hands out exactly the released page, and the pool is as before the
    acquisition that blocked.
   */
  lemma {:induction false} RetryAfterRelease(s: PoolState, p: PageId)
    requires Inv(s) && AcquireStep(s).0.Blocked?
    requires p in s.busy
    ensures AcquireStep(ReleaseStep(s, p)) == (Got(p), s)
  {
    assert AllBusy(s);
    var t := s.(busy := s.busy - {p});
    assert ReleaseStep(s, p) == t;
    assert p in t.pool;
    var i :| 0 <= i < |t.pool| && t.pool[i] == p;
    var f := FirstFree(t.pool, t.busy, 0);
    assert f.Some?;
    assert t.pool[f.value] in s.pool;
    assert t.pool[f.value] == p;
    assert t.busy + {p} == s.busy;
  }

  /** One client operation on the pool. */
  datatype Op = Get | Put(page: PageId) | Shutdown

  /** The pages handed out by one operation, and the state after it. */
  function Step(s: PoolState, op: Op): (r: (seq<PageId>, PoolState))
    requires Inv(s)
    ensures Inv(r.1) && r.1.maxPages == s.maxPages
  {
    match op
    case Get =>
      var (a, t) := AcquireStep(s);
      (if a.Got? then [a.page] else [], t)
    case Put(p) => ([], ReleaseStep(s, p))
    case Shutdown => ([], CloseAllStep(s))
  }

  /**
    A sequence of operations: the pages handed out, in order, and the final
    state. The invariant holds throughout, so the pool never exceeds its cap.
   */
  function Run(s: PoolState, ops: seq<Op>): (r: (seq<PageId>, PoolState))
    requires Inv(s)
    decreases |ops|
    ensures Inv(r.1) && r.1.maxPages == s.maxPages
    ensures |r.1.pool| <= if s.maxPages < 0 then 0 else s.maxPages
  {
    if ops == [] then ([], s)
    else
      var (h, t) := Step(s, ops[0]);
      var (hs, u) := Run(t, ops[1..]);
      (h + hs, u)
  }

  /** `p` is checked out, or was checked out and then torn down with the pool. */
  ghost predicate Outstanding(s: PoolState, p: PageId) {
    p in s.busy || (p !in s.pool && p < s.nextId)
  }

  /**
    A checked-out page is never handed out again unless it is released in
    between, whatever else happens to the pool.
   */
  lemma {:induction false} NeverHandedOutTwice(s: PoolState, ops: seq<Op>, p: PageId)
    requires Inv(s) && Outstanding(s, p)
    requires forall i :: 0 <= i < |ops| ==> ops[i] != Put(p)
    ensures p !in Run(s, ops).0
    decreases |ops|
  {
    if ops != [] {
      var st := Step(s, ops[0]);
      StepKeepsOutstanding(s, ops[0], p);
      forall i | 0 <= i < |ops[1..]|
        ensures ops[1..][i] != Put(p)
      {
        assert ops[1..][i] == ops[i + 1];
      }
      NeverHandedOutTwice(st.1, ops[1..], p);
      RunCons(s, ops);
    }
  }

  /** One operation other than releasing `p` does not hand `p` out and keeps it outstanding. */
  lemma StepKeepsOutstanding(s: PoolState, op: Op, p: PageId)
    requires Inv(s) && Outstanding(s, p) && op != Put(p)
    ensures p !in Step(s, op).0 && Outstanding(Step(s, op).1, p)
  {
    match op {
      case Get =>
        var (a, _) := AcquireStep(s);
        if a.Got? {
          if a.page in s.pool {
            assert a.page != p;
          } else {
            assert a.page == s.nextId;
          }
        }
      case Put(q) =>
      case Shutdown =>
    }
  }

  /** No operation makes a page occur twice in the pool: a created page carries an id never pooled before. */
  lemma StepKeepsDistinct(s: PoolState, op: Op)
    requires Inv(s) && Distinct(s.pool)
    ensures Distinct(Step(s, op).1.pool)
  {
    if op == Get && AcquireStep(s).0.Got? && AcquireStep(s).0.page !in s.pool {
      var pool := AcquireStep(s).1.pool;
      forall i, j | 0 <= i < j < |pool| ensures pool[i] != pool[j] {
        if j == |s.pool| {
          assert pool[i] == s.pool[i] < s.nextId == pool[j];
        }
      }
    }
  }

  /** Along any run, the pool never holds the same page twice. */
  lemma {:induction false} RunKeepsDistinct(s: PoolState, ops: seq<Op>)
    requires Inv(s) && Distinct(s.pool)
    ensures Distinct(Run(s, ops).1.pool)
    decreases |ops|
  {
    if ops != [] {
      StepKeepsDistinct(s, ops[0]);
      RunKeepsDistinct(Step(s, ops[0]).1, ops[1..]);
      RunCons(s, ops);
    }
  }

  /** `k` acquisitions in a row, with no release. */
  function Gets(k: nat): (ops: seq<Op>)
    ensures |ops| == k && forall i :: 0 <= i < k ==> ops[i] == Get
  {
    seq(k, _ => Get)
  }

  /** The ids `from`, `from + 1`, ..., `from + k - 1`, in order. */
  function Ids(from: nat, k: nat): (ids: seq<PageId>)
    ensures |ids| == k && forall i :: 0 <= i < k ==> ids[i] == from + i
  {
    seq(k, i => from + i)
  }

  /** A pool capped at `n` right after `k` acquisitions that created pages 0 to `k - 1`. */
  function Filled(n: int, k: nat): PoolState {
    PoolState(n, Ids(0, k), Elems(Ids(0, k)), {}, k)
  }

  lemma IdsSnoc(from: nat, k: nat)
    ensures Ids(from, k) + [from + k] == Ids(from, k + 1)
    ensures Elems(Ids(from, k)) + {from + k} == Elems(Ids(from, k + 1))
  {
    var xs, ys := Ids(from, k) + [from + k], Ids(from, k + 1);
    forall i | 0 <= i < k + 1 ensures xs[i] == ys[i] {
    }
    assert xs == ys;
  }

  lemma IdsCons(from: nat, m: nat)
    requires m > 0
    ensures [from] + Ids(from + 1, m - 1) == Ids(from, m)
  {
    var xs, ys := [from] + Ids(from + 1, m - 1), Ids(from, m);
    forall i | 0 <= i < m ensures xs[i] == ys[i] {
      if i > 0 {
        assert xs[i] == Ids(from + 1, m - 1)[i - 1];
      }
    }
    assert xs == ys;
  }

  lemma FilledInv(n: int, k: nat)
    requires k <= n
    ensures Inv(Filled(n, k)) && AllBusy(Filled(n, k))
  {
  }

  /** Below the cap, the next acquisition on a filled pool creates page `k`. */
  lemma FilledGrows(n: int, k: nat)
    requires k < n
    ensures Inv(Filled(n, k)) && AllBusy(Filled(n, k))
    ensures AcquireStep(Filled(n, k)) == (Got(k), Filled(n, k + 1))
  {
    var s := Filled(n, k);
    IdsSnoc(0, k);
    FilledInv(n, k);
    var f := FirstFree(s.pool, s.busy, 0);
    assert f.None?;
  }

  /** A run of one operation followed by others. */
  lemma RunCons(s: PoolState, ops: seq<Op>)
    requires Inv(s) && ops != []
    ensures Run(s, ops).0 == Step(s, ops[0]).0 + Run(Step(s, ops[0]).1, ops[1..]).0
    ensures Run(s, ops).1 == Run(Step(s, ops[0]).1, ops[1..]).1
  {
  }

  /** No acquisition from a filled pool: nothing is handed out. */
  lemma GetsFromFilledNone(n: int, k: nat)
    requires k <= n
    ensures Inv(Filled(n, k))
    ensures Run(Filled(n, k), Gets(0)) == (Ids(k, 0), Filled(n, k))
  {
    FilledInv(n, k);
    var ops := Gets(0);
    assert ops == [] && Ids(k, 0) == [];
  }

  /** `m` acquisitions from a filled pool: the first creates page `k`, the rest continue from there. */
  lemma GetsFromFilledMore(n: int, k: nat, m: nat, j: nat)
    requires 0 < m && j == k + m && j <= n
    requires Inv(Filled(n, k + 1))
    requires Run(Filled(n, k + 1), Gets(m - 1)) == (Ids(k + 1, m - 1), Filled(n, j))
    ensures Inv(Filled(n, k))
    ensures Run(Filled(n, k), Gets(m)) == (Ids(k, m), Filled(n, j))
  {
    var s := Filled(n, k);
    FilledInv(n, k);
    var ops, rest := Gets(m), Run(Filled(n, k + 1), Gets(m - 1));
    assert Run(s, ops) == ([k] + rest.0, rest.1) by {
      assert ops[0] == Get && ops[1..] == Gets(m - 1);
      FilledGrows(n, k);
      assert Step(s, Get) == ([k], Filled(n, k + 1));
      RunCons(s, ops);
    }
    IdsCons(k, m);
  }

  /** From a filled pool, `m` acquisitions that fit under the cap hand out the next `m` ids in order. */
  lemma {:induction false} GetsFromFilled(n: int, k: nat, m: nat, j: nat)
    requires j == k + m && j <= n
    ensures Inv(Filled(n, k))
    ensures Run(Filled(n, k), Gets(m)) == (Ids(k, m), Filled(n, j))
    decreases m
  {
    if m == 0 {
      GetsFromFilledNone(n, k);
    } else {
      GetsFromFilled(n, k + 1, m - 1, j);
      GetsFromFilledMore(n, k, m, j);
    }
  }

  /**
    A pool capped at `n` pages hands out `n` distinct pages to `n` concurrent
    acquisitions; the next acquisition waits.
   */
  lemma CapHandsOutThenBlocks(n: nat)
    ensures |Run(Empty(n), Gets(n)).0| == n && Distinct(Run(Empty(n), Gets(n)).0)
    ensures AcquireStep(Run(Empty(n), Gets(n)).1).0 == Blocked
  {
    assert Empty(n) == Filled(n, 0);
    GetsFromFilled(n, 0, n, n);
    var ids := Ids(0, n);
    assert Distinct(ids);
    var s := Filled(n, n);
    assert AllBusy(s);
  }
}
