/**
  The wait-and-retry branch of `get_page` (app/pkg/analysis.py) with the
  lock under the pool's condition variable made explicit.

  An asyncio lock is held by at most one task and is not re-entrant. `get_page`
  runs inside `async with self.condition`; when it has to wait, the condition's
  `wait()` gives the lock up and takes it back for the task before returning.
  The code then calls `get_page` recursively, whose first step enters
  `async with self.condition` again, on a lock its own task already holds.
 */
module Waiting {
  import opened PoolSpec

  datatype Lock = Unlocked | HeldBy(task: nat)

  /** Entering `async with` on the lock: the task enters, or parks until the holder leaves. */
  datatype Entry = Entered(lock: Lock) | Parked

  function Enter(lock: Lock, task: nat): (r: Entry)
    ensures r.Entered? <==> lock == Unlocked
    ensures r.Entered? ==> r.lock == HeldBy(task)
  {
    if lock == Unlocked then Entered(HeldBy(task)) else Parked
  }

  /** How a call of `get_page`, or its resumption, goes on. */
  datatype Resumed = Handed(page: PageId, after: PoolState) | WaitsAgain | WaitsForLock | Deadlocked

  /** One pass of the acquisition logic inside the critical section. */
  function Attempt(s: PoolState): (r: Resumed)
    requires Inv(s)
    ensures r.Handed? || r.WaitsAgain?
    ensures r.WaitsAgain? <==> AcquireStep(s).0.Blocked?
    ensures r.Handed? ==> AcquireStep(s) == (Got(r.page), r.after)
  {
    match AcquireStep(s)
    case (Got(p), t) => Handed(p, t)
    case (Blocked, _) => WaitsAgain
  }

  /**
    A call of `get_page` by `task` while the lock is in state `lock`: it
    enters and runs the acquisition logic, or parks; parking on a lock the
    task holds itself never ends.
   */
  function CallGetPage(s: PoolState, lock: Lock, task: nat): (r: Resumed)
    requires Inv(s)
    ensures r.Deadlocked? <==> lock == HeldBy(task)
    ensures lock == Unlocked ==> r == Attempt(s)
  {
    match Enter(lock, task)
    case Entered(_) => Attempt(s)
    case Parked => if lock == HeldBy(task) then Deadlocked else WaitsForLock
  }

  /**
    The retry as written: `wait()` returns with the lock held by the woken
    task, which then calls `get_page` again.
   */
  function RetryAsWritten(s: PoolState, task: nat): (r: Resumed)
    requires Inv(s)
    ensures r == Deadlocked
  {
    CallGetPage(s, HeldBy(task), task)
  }

  /**
    The retry as intended: run the acquisition logic again in the section
    already held. It is `Attempt` itself; this name only marks the corrected
    half of the finding.
   */
  function RetryCorrected(s: PoolState): (r: Resumed)
    requires Inv(s)
    ensures r.Handed? || r.WaitsAgain?
    ensures r.WaitsAgain? <==> AcquireStep(s).0.Blocked?
    ensures r.Handed? ==> AcquireStep(s) == (Got(r.page), r.after)
  {
    Attempt(s)
  }

  /**
    The as-written half of the finding, for any pool state: the woken task
    deadlocks even when a page is free for it, and since it never leaves the
    section, every other caller parks on the lock behind it.
   */
  lemma AsWrittenRetryDeadlocks(s: PoolState, task: nat)
    requires Inv(s)
    ensures RetryAsWritten(s, task) == Deadlocked
    ensures forall other: nat :: Enter(HeldBy(task), other) == Parked
  {
  }

  /**
    A pool of one page that is checked out: a second caller waits; the page is
    released; as written the woken caller deadlocks, as intended it receives
    the released page.
   */
  lemma DeadlockExample()
    ensures var s := PoolState(1, [0], {0}, {}, 1);
      && Inv(s) && AcquireStep(s).0.Blocked?
      && RetryAsWritten(ReleaseStep(s, 0), 1) == Deadlocked
      && RetryCorrected(ReleaseStep(s, 0)) == Handed(0, s)
  {
    var s := PoolState(1, [0], {0}, {}, 1);
    RetryAfterRelease(s, 0);
  }

  /** As intended, a caller woken by the release of `p` receives `p`, and the pool is as before. */
  lemma CorrectedRetryGetsReleasedPage(s: PoolState, p: PageId)
    requires Inv(s) && AcquireStep(s).0.Blocked? && p in s.busy
    ensures RetryCorrected(ReleaseStep(s, p)) == Handed(p, s)
  {
    RetryAfterRelease(s, p);
  }
}
