/**
 The io chain does its work: it never deadlocks, never runs more iterations at
 once than the ring has room for, never overwrites a slot that is still to be
 read, and every run ends with all iterations done.
 */
module IoChainProgress {
  import opened Basics
  import opened IoChain

  // ----------------------------------------------------- how many at a time

  ghost function Interval(from: int, n: nat): (s: set<int>)
    ensures forall i :: i in s <==> from <= i < from + n
    ensures |s| == n
    decreases n
  {
    if n == 0 then {} else Interval(from, n - 1) + {from + n - 1}
  }

  /** Iterations between the return of ioc_get_in and the end of ioc_set_next_out. */
  ghost function InFlight(c: State): set<int> {
    set t | 0 <= t < |c.threads| && PastGetIn(c.threads[t].phase) :: c.threads[t].iter as int
  }

  lemma AtMostRingSizeMinusOne(w: Workload, c: State)
    requires Inv(w, c)
    ensures |InFlight(c)| <= IOC_SIZE - 1
  {
    var from := if Entering(c) then c.next - IOC_SIZE else c.next - (IOC_SIZE - 1);
    if Entering(c) {
      assert IsActive(c, c.nextLock);
    }
    forall t | 0 <= t < |c.threads| && PastGetIn(c.threads[t].phase)
      ensures from <= c.threads[t].iter < from + IOC_SIZE - 1
    {
      assert IsActive(c, t);
    }
    SubsetSize(InFlight(c), Interval(from, IOC_SIZE - 1));
  }

  // -------------------------------------------------------- slots are safe

  /**
   A thread that has still to hand over its second in slot, and has left the part that next_lock protects, runs the
   newest iteration, or the one before it while the newest waits for its first in slot.
   */
  ghost predicate Handing(c: State) {
    forall t :: IsActive(c, t) && HoldsIn1(c.threads[t].phase) && !HoldsNext(c.threads[t].phase) ==> HandsOver(c, t)
  }

  ghost predicate HandsOver(c: State, t: nat)
    requires t < |c.threads|
  {
    || c.threads[t].iter == c.next - 1
    || (c.threads[t].iter == c.next - 2 && 0 <= c.nextLock < |c.threads| && c.threads[c.nextLock].phase.Numbered?)
  }

  /** What a step does to who holds next_lock and the second in slot. */
  lemma HandingEffect(w: Workload, c: State, t: nat, a: Action)
    requires Shape(c) && t < |c.threads| && Enabled(c, t, a)
    ensures var d := Apply(w, c, t, a); var p, q := c.threads[t].phase, d.threads[t].phase;
      && d.nextLock == (if a == LockNext then t else if a == UnlockNext then FREE else c.nextLock)
      && (HoldsIn1(q) && !HoldsNext(q) ==> a == UnlockNext || (HoldsIn1(p) && !HoldsNext(p)))
      && (a == UnlockNext ==> p.HasAll?) && (a == LockIn ==> p.Numbered?) && (a == LockNext ==> c.nextLock == FREE)
      && (a == BumpNext ==> p.HasRead? && q.Numbered?) && (q.Numbered? ==> a == BumpNext)
      && (p.Numbered? ==> a == LockIn)
  {
    hide Slot;
  }

  /** The newest iteration gets its first in slot only when the one before has handed it over. */
  lemma HandedOver(c: State, t: nat, u: nat)
    requires Shape(c) && InLocks(c) && Owners(c) && t < |c.threads| && Enabled(c, t, LockIn)
    requires u < |c.threads| && HoldsIn1(c.threads[u].phase)
    ensures c.threads[u].iter + 1 != c.threads[t].iter
  {
    hide Slot;
    assert HoldsInSlot(c.threads[u], Slot(c.threads[u].iter + 1));
  }

  lemma HandingKept(w: Workload, c: State, t: nat, a: Action)
    requires Locks(c) && Owners(c) && Counted(c) && Distinct(c) && Handing(c)
    requires t < |c.threads| && Enabled(c, t, a)
    ensures Handing(Apply(w, c, t, a))
  {
    hide Apply, Enabled, InLocks, OutLocks, Distinct;
    Effect(w, c, t, a);
    HandingEffect(w, c, t, a);
    var d := Apply(w, c, t, a);
    forall u | IsActive(d, u) && HoldsIn1(d.threads[u].phase) && !HoldsNext(d.threads[u].phase)
      ensures HandsOver(d, u)
    {
      if u != t {
        assert IsActive(c, u) && HandsOver(c, u);
        if a == LockIn {
          HandedOver(c, t, u);
        }
      }
    }
  }

  lemma {:induction false} RunHands(w: Workload, run: seq<State>, i: nat)
    requires IsRun(w, run) && i < |run|
    ensures Handing(run[i])
    decreases i
  {
    hide Inv, Apply, Enabled, HandsOver;
    if i > 0 {
      RunHands(w, run, i - 1);
      RunInv(w, run, i - 1);
      NextHands(w, run[i - 1], run[i]);
    }
  }

  lemma NextHands(w: Workload, c: State, d: State)
    requires Inv(w, c) && Handing(c) && Next(w, c, d)
    ensures Handing(d)
  {
    hide Apply, Enabled, Handing;
    var t: nat, a: Action :| t < |c.threads| && Enabled(c, t, a) && d == Apply(w, c, t, a);
    HandingKept(w, c, t, a);
  }

  /**
   In every run, when a thread writes an in slot, the only iteration that has still to read an in slot is the one
   that the write is meant for, and that one is still waiting for the lock of the slot.
   */
  lemma InSlotWriteIsSafe(w: Workload, run: seq<State>, i: nat, t: nat, u: nat)
    requires IsRun(w, run) && i < |run| && t < |run[i].threads| && Enabled(run[i], t, WriteNextIn)
    requires IsActive(run[i], u) && !PastGetIn(run[i].threads[u].phase)
    ensures run[i].threads[u].phase.Numbered? && run[i].threads[u].iter == run[i].threads[t].iter + 1
  {
    hide IsRun, InLocks, OutLocks, Window, InSlots, InGiven, OutSlots, OutGiven, Logged;
    RunInv(w, run, i);
    RunHands(w, run, i);
    var c := run[i];
    assert IsActive(c, t) && HandsOver(c, t);
    if c.threads[u].phase.Released? {
      assert HandsOver(c, u);
    }
  }

  /** The same for out slots, except for the one iteration that the write is meant for. */
  lemma OutSlotWriteIsSafe(w: Workload, c: State, t: nat, u: nat)
    requires Inv(w, c) && t < |c.threads| && Enabled(c, t, WriteNextOut)
    requires IsActive(c, u) && NeedsOut(c.threads[u].phase) && c.threads[u].iter != c.threads[t].iter + 1
    ensures Slot(c.threads[u].iter) != Slot(c.threads[t].iter + 1)
  {
    OutWriteIsPrivate(c, t, c.threads[u].iter);
  }

  // ---------------------------------------------------------- no deadlock

  predicate Done(c: State) {
    forall t :: 0 <= t < |c.threads| ==> c.threads[t].phase.Idle? && c.threads[t].quota == 0
  }

  /** The action a thread is about to do. */
  function Pending(p: Phase): Action {
    match p
    case Idle => LockNext
    case HasNext => ReadNext
    case HasRead => BumpNext
    case Numbered => LockIn
    case HasIn => LockNextIn
    case HasBoth => LockNextOut
    case HasAll => UnlockNext
    case Released => ReadIn
    case Working(InPending, _) => WriteNextIn
    case Working(InWritten, _) => UnlockNextIn
    case Working(InDone, OutPending) => LockOut
    case Working(InDone, OutLocked) => ReadOut
    case Working(InDone, OutRead) => UnlockOut
    case Working(InDone, OutDone) => WriteNextOut
    case OutWritten => UnlockNextOut
    case OutReleased => UnlockIn
  }

  ghost predicate Oldest(c: State, t: nat) {
    IsActive(c, t) && forall u :: IsActive(c, u) ==> c.threads[t].iter <= c.threads[u].iter
  }

  lemma OldestInRange(c: State, t: nat)
    requires Oldest(c, t)
    ensures t < |c.threads| && Active(c.threads[t].phase)
  {
  }

  lemma OldestExists(c: State, t: nat) returns (o: nat)
    requires IsActive(c, t)
    ensures Oldest(c, o)
    decreases c.threads[t].iter
  {
    if u: nat :| IsActive(c, u) && c.threads[u].iter < c.threads[t].iter {
      o := OldestExists(c, u);
    } else {
      o := t;
    }
  }

  lemma InOwner(w: Workload, c: State, s: nat)
    requires Inv(w, c) && s < IOC_SIZE
    ensures Shape(c)
    ensures var u := c.inLock[s]; u == FREE || (IsActive(c, u) && HoldsInSlot(c.threads[u], s))
  {
    hide Inv, Slot, NextLock, OutLocks;
    HasLocks(w, c);
  }

  lemma OutOwner(w: Workload, c: State, s: nat)
    requires Inv(w, c) && s < IOC_SIZE
    ensures Shape(c)
    ensures var u := c.outLock[s]; u == FREE || (IsActive(c, u) && HoldsOutSlot(c.threads[u], s))
  {
    hide Inv, Slot, NextLock, InLocks;
    HasLocks(w, c);
  }

  lemma HasLocks(w: Workload, c: State)
    requires Inv(w, c)
    ensures Locks(c) && Owners(c)
  {
    hide Locks, Owners, Counted, Distinct, Window, InSlots, InGiven, OutSlots, OutGiven, Logged;
  }

  /** With the newest number and no older iteration around, every lock but its own is free. */
  lemma AloneInLockFree(w: Workload, c: State, t: nat, s: nat)
    requires Inv(w, c) && Oldest(c, t) && HoldsNext(c.threads[t].phase)
    requires s < IOC_SIZE && !HoldsInSlot(c.threads[t], s)
    ensures c.inLock[s] == FREE
  {
    InOwner(w, c, s);
    hide Slot;
  }

  lemma AloneOutLockFree(w: Workload, c: State, t: nat, s: nat)
    requires Inv(w, c) && Oldest(c, t) && HoldsNext(c.threads[t].phase)
    requires s < IOC_SIZE && !HoldsOutSlot(c.threads[t], s)
    ensures c.outLock[s] == FREE
  {
    OutOwner(w, c, s);
    hide Slot;
  }

  lemma NewestIsEntering(w: Workload, c: State, t: nat, u: nat)
    requires Inv(w, c) && IsActive(c, t) && c.threads[t].phase.Working? && IsActive(c, u)
    ensures c.next - IOC_SIZE <= c.threads[t].iter && c.threads[u].iter < c.next
    ensures u != t ==> c.threads[u].iter != c.threads[t].iter
    ensures c.threads[u].iter + 1 == c.threads[t].iter + IOC_SIZE ==> !HoldsOut1(c.threads[u].phase)
  {
    WorkingWindow(c, t);
    if Entering(c) {
      assert IsActive(c, c.nextLock);
    }
  }

  lemma NewerHoldsOther(w: Workload, c: State, t: nat, u: nat)
    requires Inv(w, c) && Oldest(c, t) && c.threads[t].phase == Working(InDone, OutPending)
    requires IsActive(c, u)
    ensures !HoldsOutSlot(c.threads[u], Slot(c.threads[t].iter))
  {
    hide Inv, Slot;
    var n, m := c.threads[t].iter, c.threads[u].iter;
    NewestIsEntering(w, c, t, u);
    if m == n {
      SlotsDiffer(n, n + 1);
    } else {
      SlotsDiffer(n, m);
      if m + 1 < n + IOC_SIZE {
        SlotsDiffer(n, m + 1);
      }
    }
  }

  lemma OldestOutReady(w: Workload, c: State, t: nat)
    requires Inv(w, c) && Oldest(c, t) && c.threads[t].phase == Working(InDone, OutPending)
    ensures Shape(c) && c.outLock[Slot(c.threads[t].iter)] == FREE
  {
    HasShape(w, c);
    assert IsActive(c, t);
    hide Inv, Slot, Oldest, HoldsOutSlot, IsActive;
    OldestIsThread(c, t);
    var s := Slot(c.threads[t].iter);
    OutOwner(w, c, s);
    if c.outLock[s] != FREE {
      OldestIsThread(c, c.outLock[s]);
      NewerHoldsOther(w, c, t, c.outLock[s]);
    }
  }

  lemma OldestIsThread(c: State, t: int)
    requires IsActive(c, t)
    ensures 0 <= t < |c.threads|
  {
  }

  lemma HasShape(w: Workload, c: State)
    requires Inv(w, c)
    ensures Shape(c)
  {
  }

  predicate WantsLock(p: Phase) {
    p.Idle? || p.Numbered? || p.HasIn? || p.HasBoth? || p == Working(InDone, OutPending)
  }

  /** Only taking a lock can be refused. */
  lemma OtherStepsEnabled(c: State, t: nat)
    requires Shape(c) && t < |c.threads| && !WantsLock(c.threads[t].phase)
    requires c.threads[t].phase.HasRead? ==> c.threads[t].quota > 0
    ensures Enabled(c, t, Pending(c.threads[t].phase))
  {
  }

  lemma InStepEnabled(w: Workload, c: State, t: nat)
    requires Inv(w, c) && Oldest(c, t) && (c.threads[t].phase.Numbered? || c.threads[t].phase.HasIn?)
    ensures Shape(c) && Enabled(c, t, Pending(c.threads[t].phase))
  {
    hide Slot, Inv, Oldest;
    HasShape(w, c);
    OldestInRange(c, t);
    var n := c.threads[t].iter;
    SlotsDiffer(n, n + 1);
    if c.threads[t].phase.Numbered? {
      AloneInLockFree(w, c, t, Slot(n));
    } else {
      AloneInLockFree(w, c, t, Slot(n + 1));
    }
  }

  lemma OutStepEnabled(w: Workload, c: State, t: nat)
    requires Inv(w, c) && Oldest(c, t)
    requires c.threads[t].phase.HasBoth? || c.threads[t].phase == Working(InDone, OutPending)
    ensures Shape(c) && Enabled(c, t, Pending(c.threads[t].phase))
  {
    hide Slot, Inv, Oldest;
    HasShape(w, c);
    OldestInRange(c, t);
    if c.threads[t].phase.HasBoth? {
      AloneOutLockFree(w, c, t, Slot(c.threads[t].iter + 1));
    } else {
      OldestOutReady(w, c, t);
    }
  }

  /** The oldest running iteration always gets through: its next action is enabled. */
  lemma OldestEnabled(w: Workload, c: State, t: nat)
    requires Inv(w, c) && Oldest(c, t)
    ensures Shape(c) && Enabled(c, t, Pending(c.threads[t].phase))
  {
    HasShape(w, c);
    hide Inv, Enabled, Pending;
    var p := c.threads[t].phase;
    if p.Numbered? || p.HasIn? {
      InStepEnabled(w, c, t);
    } else if WantsLock(p) {
      OutStepEnabled(w, c, t);
    } else {
      OtherStepsEnabled(c, t);
    }
  }

  /** No deadlock: while work is left, some thread has an enabled step. */
  lemma Progress(w: Workload, c: State) returns (t: nat, a: Action)
    requires Inv(w, c) && !Done(c)
    ensures Shape(c) && t < |c.threads| && Enabled(c, t, a)
  {
    HasShape(w, c);
    if u: nat :| IsActive(c, u) {
      t := OldestExists(c, u);
      a := Pending(c.threads[t].phase);
      OldestEnabled(w, c, t);
    } else {
      t, a := ProgressOfNumbering(w, c);
    }
  }

  /** With no iteration running, the holder of next_lock, or else anyone with work left, can go on. */
  lemma ProgressOfNumbering(w: Workload, c: State) returns (t: nat, a: Action)
    requires Inv(w, c) && !Done(c) && forall u: nat :: !IsActive(c, u)
    ensures Shape(c) && t < |c.threads| && Enabled(c, t, a)
  {
    HasShape(w, c);
    hide Inv;
    if c.nextLock != FREE {
      t := NextOwner(w, c);
      a := Pending(c.threads[t].phase);
      assert !IsActive(c, t);
      OtherStepsEnabled(c, t);
    } else {
      t :| t < |c.threads| && !(c.threads[t].phase.Idle? && c.threads[t].quota == 0);
      a := LockNext;
      assert !IsActive(c, t);
      NobodyEnters(w, c, t);
    }
  }

  lemma NextOwner(w: Workload, c: State) returns (t: nat)
    requires Inv(w, c) && c.nextLock != FREE
    ensures t == c.nextLock < |c.threads| && HoldsNext(c.threads[t].phase)
    ensures !Active(c.threads[t].phase) ==> c.threads[t].quota > 0
  {
    t := c.nextLock;
  }

  lemma NobodyEnters(w: Workload, c: State, t: nat)
    requires Inv(w, c) && c.nextLock == FREE && t < |c.threads| && !Active(c.threads[t].phase)
    ensures c.threads[t].phase.Idle?
  {
  }

  // ------------------------------------------------------------ termination

  /** Steps that a thread still has to do in its present iteration, and a little more when it begins the next. */
  function Rank(p: Phase): (r: nat)
    ensures r <= 15
  {
    match p
    case Idle => 2
    case HasNext => 1
    case HasRead => 0
    case Numbered => 15
    case HasIn => 14
    case HasBoth => 13
    case HasAll => 12
    case Released => 11
    case Working(i, o) =>
      5 + (match i case InPending => 2 case InWritten => 1 case InDone => 0)
        + (match o case OutPending => 3 case OutLocked => 2 case OutRead => 1 case OutDone => 0)
    case OutWritten => 4
    case OutReleased => 3
  }

  function Weight(th: Thread): nat {
    16 * th.quota + Rank(th.phase)
  }

  function Measure(ths: seq<Thread>): nat {
    if ths == [] then 0 else Measure(ths[..|ths| - 1]) + Weight(ths[|ths| - 1])
  }

  function Quotas(ths: seq<Thread>): nat {
    if ths == [] then 0 else Quotas(ths[..|ths| - 1]) + ths[|ths| - 1].quota
  }

  lemma {:induction false} SumsAfterMove(ths: seq<Thread>, t: nat, th: Thread)
    requires t < |ths|
    ensures Measure(ths[t := th]) == Measure(ths) - Weight(ths[t]) + Weight(th)
    ensures Quotas(ths[t := th]) == Quotas(ths) - ths[t].quota + th.quota
    decreases |ths|
  {
    var m := |ths| - 1;
    if t == m {
      assert ths[t := th][..m] == ths[..m];
    } else {
      assert ths[t := th][..m] == ths[..m][t := th];
      SumsAfterMove(ths[..m], t, th);
    }
  }

  lemma OwnWeightDrops(w: Workload, c: State, t: nat, a: Action)
    requires Shape(c) && t < |c.threads| && Enabled(c, t, a)
    ensures var d := Apply(w, c, t, a);
      && d.threads == c.threads[t := d.threads[t]]
      && Weight(d.threads[t]) < Weight(c.threads[t])
      && d.next + d.threads[t].quota == c.next + c.threads[t].quota
  {
    hide Slot;
  }

  /** Every step brings the end nearer, and no iteration is lost or invented. */
  lemma StepDecreases(w: Workload, c: State, t: nat, a: Action)
    requires Shape(c) && t < |c.threads| && Enabled(c, t, a)
    ensures Measure(Apply(w, c, t, a).threads) < Measure(c.threads)
    ensures Apply(w, c, t, a).next + Quotas(Apply(w, c, t, a).threads) == c.next + Quotas(c.threads)
  {
    hide Apply, Enabled, Measure, Quotas, Weight;
    OwnWeightDrops(w, c, t, a);
    SumsAfterMove(c.threads, t, Apply(w, c, t, a).threads[t]);
  }

  lemma NextDecreases(w: Workload, c: State, d: State)
    requires Shape(c) && Next(w, c, d)
    ensures Measure(d.threads) < Measure(c.threads)
    ensures d.next + Quotas(d.threads) == c.next + Quotas(c.threads)
  {
    hide Apply, Enabled, Measure, Quotas;
    var t: nat, a: Action :| t < |c.threads| && Enabled(c, t, a) && d == Apply(w, c, t, a);
    StepDecreases(w, c, t, a);
  }

  lemma {:induction false} RunDecreases(w: Workload, run: seq<State>, i: nat)
    requires IsRun(w, run) && i < |run|
    ensures i + Measure(run[i].threads) <= Measure(run[0].threads)
    ensures run[i].next + Quotas(run[i].threads) == Quotas(run[0].threads)
    decreases i
  {
    hide Measure, Quotas;
    if i > 0 {
      RunDecreases(w, run, i - 1);
      NextDecreases(w, run[i - 1], run[i]);
    }
  }

  lemma {:induction false} NoQuotas(ths: seq<Thread>)
    requires forall t :: 0 <= t < |ths| ==> ths[t].quota == 0
    ensures Quotas(ths) == 0
  {
    if ths != [] {
      NoQuotas(ths[..|ths| - 1]);
    }
  }

  /**
   Every run is finite, and a run that cannot go on has done everything: all
   iterations of all threads have run once, each between the pointers of the
   sequential fold, and the slots after the last one hold the final pointers.
   */
  lemma RunsComplete(w: Workload, run: seq<State>)
    requires IsRun(w, run)
    ensures |run| <= Measure(run[0].threads) + 1
    ensures var c, n := run[|run| - 1], Quotas(run[0].threads);
      (forall t: nat, a: Action :: t < |c.threads| ==> !Enabled(c, t, a))
      ==> && Done(c) && c.next == n
          && c.log == (map k: nat | k < n :: (In(w, k), Out(w, k)))
          && c.inPtr[Slot(n)] == In(w, n) && c.outPtr[Slot(n)] == Out(w, n)
  {
    hide Measure, Quotas, Slot;
    var c, n := run[|run| - 1], Quotas(run[0].threads);
    RunDecreases(w, run, |run| - 1);
    RunInv(w, run, |run| - 1);
    if forall t: nat, a: Action :: t < |c.threads| ==> !Enabled(c, t, a) {
      AllDone(w, c);
      NoQuotas(c.threads);
      Finished(w, c);
    }
  }

  lemma AllDone(w: Workload, c: State)
    requires Inv(w, c) && forall t: nat, a: Action :: t < |c.threads| ==> Shape(c) && !Enabled(c, t, a)
    ensures Done(c)
  {
    if !Done(c) {
      var t, a := Progress(w, c);
    }
  }

  lemma Finished(w: Workload, c: State)
    requires Inv(w, c) && Done(c)
    ensures c.log == map k: nat | k < c.next :: (In(w, k), Out(w, k))
    ensures c.inPtr[Slot(c.next)] == In(w, c.next) && c.outPtr[Slot(c.next)] == Out(w, c.next)
  {
    hide Slot;
    assert forall t :: !IsActive(c, t);
    assert InPassed(c, c.next - 1) && OutPassed(c, c.next - 1);
    assert forall k: nat :: k < c.next ==> !RunsNow(c, k);
  }
}
