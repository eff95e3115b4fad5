/**
 The io chain (ioc_chain with OpenMP locks): a ring of 33 pointer slots through
 which any number of threads hand block positions to each other while they work
 on different blocks.  One step is one lock, unlock, read or write of one thread.
 */
module IoChain {

  const IOC_SIZE := 33
  const FREE := -1

  function Slot(n: nat): (s: nat)
    ensures s < IOC_SIZE
  {
    n % IOC_SIZE
  }

  type Ptr = int

  /** Where a chain starts and how far block n moves each pointer; block n sees only its own pointers. */
  datatype Workload = Workload(in0: Ptr, out0: Ptr, stepIn: (nat, Ptr) -> Ptr, stepOut: (nat, Ptr, Ptr) -> Ptr)

  /** The sequential fold: positions of block n when blocks run one after the other. */
  function In(w: Workload, n: nat): Ptr {
    if n == 0 then w.in0 else (w.stepIn)(n - 1, In(w, n - 1))
  }

  function Out(w: Workload, n: nat): Ptr {
    if n == 0 then w.out0 else (w.stepOut)(n - 1, In(w, n - 1), Out(w, n - 1))
  }

  // ---------------------------------------------------------------- states

  /** Progress of ioc_set_next_in and of ioc_get_out inside one iteration; a worker may do them in either order. */
  datatype InSide = InPending | InWritten | InDone
  datatype OutSide = OutPending | OutLocked | OutRead | OutDone

  datatype Phase =
    | Idle                       // between iterations
    | HasNext                    // next_lock taken
    | HasRead                    // this_iter read from next
    | Numbered                   // next incremented
    | HasIn                      // lock of in slot n taken
    | HasBoth                    // lock of in slot n + 1 taken
    | HasAll                     // lock of out slot n + 1 taken
    | Released                   // next_lock released
    | Working(inSide: InSide, outSide: OutSide)   // in pointer read, ioc_get_in returned
    | OutWritten                 // out slot n + 1 written
    | OutReleased                // lock of out slot n + 1 released

  /** A thread, its current iteration, what it has read, and how many iterations it has still to begin. */
  datatype Thread = Thread(phase: Phase, iter: nat, inPtr: Ptr, outPtr: Ptr, quota: nat)

  datatype State = State(
    next: nat, nextLock: int,
    inLock: seq<int>, inPtr: seq<Ptr>,
    outLock: seq<int>, outPtr: seq<Ptr>,
    threads: seq<Thread>,
    log: map<nat, (Ptr, Ptr)>)       // pointers that each finished iteration was given

  predicate HoldsNext(p: Phase) {
    p.HasNext? || p.HasRead? || p.Numbered? || p.HasIn? || p.HasBoth? || p.HasAll?
  }

  predicate Active(p: Phase) {
    !p.Idle? && !p.HasNext? && !p.HasRead?
  }

  predicate HoldsIn0(p: Phase) {
    Active(p) && !p.Numbered?
  }

  predicate HoldsIn1(p: Phase) {
    p.HasBoth? || p.HasAll? || p.Released? || (p.Working? && !p.inSide.InDone?)
  }

  predicate HoldsOut1(p: Phase) {
    p.HasAll? || p.Released? || p.Working? || p.OutWritten?
  }

  predicate HoldsOut0(p: Phase) {
    p.Working? && (p.outSide.OutLocked? || p.outSide.OutRead?)
  }

  /** ioc_get_in has returned and the iteration is not over. */
  predicate PastGetIn(p: Phase) {
    p.Working? || p.OutWritten? || p.OutReleased?
  }

  predicate WroteIn(p: Phase) {
    (p.Working? && !p.inSide.InPending?) || p.OutWritten? || p.OutReleased?
  }

  predicate WroteOut(p: Phase) {
    p.OutWritten? || p.OutReleased?
  }

  /** ioc_get_out has not read its slot yet. */
  predicate NeedsOut(p: Phase) {
    Active(p) && !WroteOut(p) && !(p.Working? && (p.outSide.OutRead? || p.outSide.OutDone?))
  }

  predicate HoldsInSlot(th: Thread, s: nat) {
    (HoldsIn0(th.phase) && Slot(th.iter) == s) || (HoldsIn1(th.phase) && Slot(th.iter + 1) == s)
  }

  predicate HoldsOutSlot(th: Thread, s: nat) {
    (HoldsOut0(th.phase) && Slot(th.iter) == s) || (HoldsOut1(th.phase) && Slot(th.iter + 1) == s)
  }

  // ---------------------------------------------------------------- steps

  datatype Action =
    | LockNext | ReadNext | BumpNext | LockIn | LockNextIn | LockNextOut | UnlockNext | ReadIn   // ioc_get_in
    | WriteNextIn | UnlockNextIn                                                                // ioc_set_next_in
    | LockOut | ReadOut | UnlockOut                                                             // ioc_get_out
    | WriteNextOut | UnlockNextOut | UnlockIn                                                   // ioc_set_next_out

  predicate Shape(c: State) {
    |c.inLock| == |c.inPtr| == |c.outLock| == |c.outPtr| == IOC_SIZE
  }

  /** Thread t may do a now: it is at that point of its code, and a lock it wants is free. */
  predicate Enabled(c: State, t: nat, a: Action)
    requires Shape(c) && t < |c.threads|
  {
    var th := c.threads[t];
    var p := th.phase;
    match a
    case LockNext => p.Idle? && th.quota > 0 && c.nextLock == FREE
    case ReadNext => p.HasNext?
    case BumpNext => p.HasRead? && th.quota > 0
    case LockIn => p.Numbered? && c.inLock[Slot(th.iter)] == FREE
    case LockNextIn => p.HasIn? && c.inLock[Slot(th.iter + 1)] == FREE
    case LockNextOut => p.HasBoth? && c.outLock[Slot(th.iter + 1)] == FREE
    case UnlockNext => p.HasAll?
    case ReadIn => p.Released?
    case WriteNextIn => p.Working? && p.inSide.InPending?
    case UnlockNextIn => p.Working? && p.inSide.InWritten?
    case LockOut => p.Working? && p.outSide.OutPending? && c.outLock[Slot(th.iter)] == FREE
    case ReadOut => p.Working? && p.outSide.OutLocked?
    case UnlockOut => p.Working? && p.outSide.OutRead?
    case WriteNextOut => p == Working(InDone, OutDone)
    case UnlockNextOut => p.OutWritten?
    case UnlockIn => p.OutReleased?
  }

  /** The state after thread t does a. */
  function Apply(w: Workload, c: State, t: nat, a: Action): State
    requires Shape(c) && t < |c.threads| && Enabled(c, t, a)
  {
    var th := c.threads[t];
    var n := th.iter;
    var s0, s1 := Slot(n), Slot(n + 1);
    match a
    case LockNext => Move(c, t, th.(phase := HasNext)).(nextLock := t)
    case ReadNext => Move(c, t, th.(phase := HasRead, iter := c.next))
    case BumpNext => Move(c, t, th.(phase := Numbered, quota := th.quota - 1)).(next := c.next + 1)
    case LockIn => Move(c, t, th.(phase := HasIn)).(inLock := c.inLock[s0 := t])
    case LockNextIn => Move(c, t, th.(phase := HasBoth)).(inLock := c.inLock[s1 := t])
    case LockNextOut => Move(c, t, th.(phase := HasAll)).(outLock := c.outLock[s1 := t])
    case UnlockNext => Move(c, t, th.(phase := Released)).(nextLock := FREE)
    case ReadIn => Move(c, t, th.(phase := Working(InPending, OutPending), inPtr := c.inPtr[s0]))
    case WriteNextIn =>
      Move(c, t, th.(phase := th.phase.(inSide := InWritten))).(inPtr := c.inPtr[s1 := (w.stepIn)(n, th.inPtr)])
    case UnlockNextIn => Move(c, t, th.(phase := th.phase.(inSide := InDone))).(inLock := c.inLock[s1 := FREE])
    case LockOut => Move(c, t, th.(phase := th.phase.(outSide := OutLocked))).(outLock := c.outLock[s0 := t])
    case ReadOut => Move(c, t, th.(phase := th.phase.(outSide := OutRead), outPtr := c.outPtr[s0]))
    case UnlockOut => Move(c, t, th.(phase := th.phase.(outSide := OutDone))).(outLock := c.outLock[s0 := FREE])
    case WriteNextOut =>
      Move(c, t, th.(phase := OutWritten)).(outPtr := c.outPtr[s1 := (w.stepOut)(n, th.inPtr, th.outPtr)])
    case UnlockNextOut => Move(c, t, th.(phase := OutReleased)).(outLock := c.outLock[s1 := FREE])
    case UnlockIn =>
      Move(c, t, th.(phase := Idle)).(inLock := c.inLock[s0 := FREE], log := c.log[n := (th.inPtr, th.outPtr)])
  }

  function Move(c: State, t: nat, th: Thread): State
    requires t < |c.threads|
  {
    c.(threads := c.threads[t := th])
  }

  /** ioc_init: no lock is held, only slot 0 has been written. */
  predicate Init(w: Workload, c: State) {
    && Shape(c)
    && c.next == 0 && c.nextLock == FREE
    && (forall s :: 0 <= s < IOC_SIZE ==> c.inLock[s] == FREE && c.outLock[s] == FREE)
    && c.inPtr[0] == w.in0 && c.outPtr[0] == w.out0
    && (forall t :: 0 <= t < |c.threads| ==> c.threads[t].phase.Idle?)
    && c.log == map[]
  }

  // ------------------------------------------------------------ invariant

  /** Locks are held exactly by the threads whose code says so. */
  ghost predicate NextLock(c: State) {
    forall t :: 0 <= t < |c.threads| ==> (c.nextLock == t <==> HoldsNext(c.threads[t].phase))
  }

  ghost predicate InLocks(c: State)
    requires Shape(c)
  {
    forall s, t :: 0 <= s < IOC_SIZE && 0 <= t < |c.threads| ==> (c.inLock[s] == t <==> HoldsInSlot(c.threads[t], s))
  }

  ghost predicate OutLocks(c: State)
    requires Shape(c)
  {
    forall s, t :: 0 <= s < IOC_SIZE && 0 <= t < |c.threads| ==> (c.outLock[s] == t <==> HoldsOutSlot(c.threads[t], s))
  }

  ghost predicate Locks(c: State) {
    Shape(c) && NextLock(c) && InLocks(c) && OutLocks(c)
  }

  /** Only owners exist. */
  ghost predicate Owners(c: State) {
    && Shape(c)
    && FREE <= c.nextLock < |c.threads|
    && (forall s :: 0 <= s < IOC_SIZE ==> FREE <= c.inLock[s] < |c.threads|)
    && (forall s :: 0 <= s < IOC_SIZE ==> FREE <= c.outLock[s] < |c.threads|)
  }

  predicate IsActive(c: State, t: int) {
    0 <= t < |c.threads| && Active(c.threads[t].phase)
  }

  /** The thread that holds next_lock numbers the iterations in order. */
  ghost predicate Counted(c: State) {
    && (forall t :: IsActive(c, t) ==> c.threads[t].iter < c.next)
    && (forall t :: IsActive(c, t) && HoldsNext(c.threads[t].phase) ==> c.threads[t].iter == c.next - 1)
    && (forall t :: 0 <= t < |c.threads| && c.threads[t].phase.HasRead? ==> c.threads[t].iter == c.next)
    && (forall t :: 0 <= t < |c.threads| && HoldsNext(c.threads[t].phase) ==>
          Active(c.threads[t].phase) || c.threads[t].quota > 0)
  }

  /** No iteration is run twice at a time. */
  ghost predicate Distinct(c: State) {
    forall t, u :: IsActive(c, t) && IsActive(c, u) && t != u ==> c.threads[t].iter != c.threads[u].iter
  }

  /** Some thread has a number but not yet the lock of its second in slot. */
  ghost predicate Entering(c: State) {
    0 <= c.nextLock < |c.threads| && (c.threads[c.nextLock].phase.Numbered? || c.threads[c.nextLock].phase.HasIn?)
  }

  /** Active iterations fit the ring. */
  ghost predicate Window(c: State) {
    forall t :: IsActive(c, t) ==> InWindow(c, c.threads[t].iter)
  }

  ghost predicate InWindow(c: State, n: nat) {
    c.next <= n + IOC_SIZE - 1 || (c.next == n + IOC_SIZE && Entering(c))
  }

  /** No active thread with iteration n still has to write the next in slot (or out slot). */
  ghost predicate InPassed(c: State, n: int) {
    forall t :: IsActive(c, t) && c.threads[t].iter == n ==> WroteIn(c.threads[t].phase)
  }

  ghost predicate OutPassed(c: State, n: int) {
    forall t :: IsActive(c, t) && c.threads[t].iter == n ==> WroteOut(c.threads[t].phase)
  }

  /** A held in slot has the sequential position, and so do the newest slots once they are written. */
  ghost predicate InSlots(w: Workload, c: State)
    requires Shape(c)
  {
    && (forall t :: 0 <= t < |c.threads| && HoldsIn0(c.threads[t].phase) ==> InSlotOk(w, c, c.threads[t].iter))
    && (InPassed(c, c.next - 1) ==> InSlotOk(w, c, c.next))
    && (c.next > 0 && InPassed(c, c.next - 2) ==> InSlotOk(w, c, c.next - 1))
  }

  ghost predicate InSlotOk(w: Workload, c: State, n: nat)
    requires Shape(c)
  {
    c.inPtr[Slot(n)] == In(w, n)
  }

  /** What ioc_get_in returned. */
  ghost predicate InGiven(w: Workload, c: State) {
    forall t :: 0 <= t < |c.threads| && PastGetIn(c.threads[t].phase) ==> c.threads[t].inPtr == In(w, c.threads[t].iter)
  }

  ghost predicate OutSlotOk(w: Workload, c: State, n: nat)
    requires Shape(c)
  {
    c.outPtr[Slot(n)] == Out(w, n)
  }

  ghost predicate OutSlotFor(w: Workload, c: State, th: Thread)
    requires Shape(c)
  {
    NeedsOut(th.phase) && OutPassed(c, th.iter - 1) ==> OutSlotOk(w, c, th.iter)
  }

  ghost predicate OutSlots(w: Workload, c: State)
    requires Shape(c)
  {
    && (forall t :: IsActive(c, t) ==> OutSlotFor(w, c, c.threads[t]))
    && (OutPassed(c, c.next - 1) ==> OutSlotOk(w, c, c.next))
  }

  /** What ioc_get_out returned. */
  ghost predicate OutGiven(w: Workload, c: State) {
    forall t :: IsActive(c, t) && !NeedsOut(c.threads[t].phase) ==> c.threads[t].outPtr == Out(w, c.threads[t].iter)
  }

  ghost predicate RunsNow(c: State, n: nat) {
    exists t :: IsActive(c, t) && c.threads[t].iter == n
  }

  /** Finished iterations, and only they, are in the log, with the pointers of the sequential fold. */
  ghost predicate Logged(w: Workload, c: State) {
    && (forall n :: n in c.log ==> n < c.next && c.log[n] == (In(w, n), Out(w, n)))
    && (forall n :: 0 <= n < c.next ==> (n in c.log <==> !RunsNow(c, n)))
  }

  ghost predicate Inv(w: Workload, c: State) {
    && Locks(c) && Owners(c) && Counted(c) && Distinct(c) && Window(c)
    && InSlots(w, c) && InGiven(w, c) && OutSlots(w, c) && OutGiven(w, c) && Logged(w, c)
  }

  // ------------------------------------------------- the invariant is kept

  lemma SlotsDiffer(a: nat, b: nat)
    requires a < b < a + IOC_SIZE
    ensures Slot(a) != Slot(b)
  {
  }

  lemma InitInv(w: Workload, c: State)
    requires Init(w, c)
    ensures Inv(w, c)
  {
  }

  lemma NextLockKept(w: Workload, c: State, t: nat, a: Action)
    requires Shape(c) && NextLock(c) && t < |c.threads| && Enabled(c, t, a)
    ensures NextLock(Apply(w, c, t, a))
  {
    hide Slot;
  }

  lemma OwnersKept(w: Workload, c: State, t: nat, a: Action)
    requires Owners(c) && t < |c.threads| && Enabled(c, t, a)
    ensures Owners(Apply(w, c, t, a))
  {
    hide Slot;
  }

  /** Everything a step leaves alone, and what it does to the stepping thread's place in the run. */
  lemma Effect(w: Workload, c: State, t: nat, a: Action)
    requires Shape(c) && t < |c.threads| && Enabled(c, t, a)
    ensures var d := Apply(w, c, t, a); var p, q := c.threads[t], d.threads[t];
      && Shape(d) && d.threads == c.threads[t := q]
      && d.next == (if a == BumpNext then c.next + 1 else c.next)
      && q.iter == (if a == ReadNext then c.next else p.iter)
      && d.log == (if a == UnlockIn then c.log[p.iter := (p.inPtr, p.outPtr)] else c.log)
      && (Active(q.phase) <==> a == BumpNext || (Active(p.phase) && a != UnlockIn))
      && (a == BumpNext ==> p.phase.HasRead?)
      && (a == UnlockIn ==> p.phase.OutReleased?)
      && (a == ReadNext ==> p.phase.HasNext?)
  {
    hide Slot;
  }

  /** A step changes locks only between free and held by the stepping thread. */
  ghost predicate OwnChange(before: seq<int>, after: seq<int>, t: nat) {
    && |before| == |after|
    && forall s :: 0 <= s < |before| ==>
        after[s] == before[s] || (before[s] in {FREE, t as int} && after[s] in {FREE, t as int})
  }

  ghost predicate OwnIn(c: State, t: nat)
    requires Shape(c) && t < |c.threads|
  {
    forall s :: 0 <= s < IOC_SIZE ==> (c.inLock[s] == t <==> HoldsInSlot(c.threads[t], s))
  }

  ghost predicate OwnOut(c: State, t: nat)
    requires Shape(c) && t < |c.threads|
  {
    forall s :: 0 <= s < IOC_SIZE ==> (c.outLock[s] == t <==> HoldsOutSlot(c.threads[t], s))
  }

  lemma OwnInKept(w: Workload, c: State, t: nat, a: Action)
    requires Shape(c) && t < |c.threads| && OwnIn(c, t) && Enabled(c, t, a)
    ensures Shape(Apply(w, c, t, a)) && OwnIn(Apply(w, c, t, a), t)
  {
    hide Slot;
    SlotsDiffer(c.threads[t].iter, c.threads[t].iter + 1);
  }

  lemma OwnOutKept(w: Workload, c: State, t: nat, a: Action)
    requires Shape(c) && t < |c.threads| && OwnOut(c, t) && Enabled(c, t, a)
    ensures Shape(Apply(w, c, t, a)) && OwnOut(Apply(w, c, t, a), t)
  {
    hide Slot;
    SlotsDiffer(c.threads[t].iter, c.threads[t].iter + 1);
  }

  lemma InLockChange(w: Workload, c: State, t: nat, a: Action)
    requires Shape(c) && t < |c.threads| && OwnIn(c, t) && Enabled(c, t, a)
    ensures OwnChange(c.inLock, Apply(w, c, t, a).inLock, t)
  {
    hide Slot;
  }

  lemma InLocksKept(w: Workload, c: State, t: nat, a: Action)
    requires Shape(c) && InLocks(c) && t < |c.threads| && Enabled(c, t, a)
    ensures Shape(Apply(w, c, t, a)) && InLocks(Apply(w, c, t, a))
  {
    hide Apply, Enabled, HoldsInSlot;
    Effect(w, c, t, a);
    OwnInKept(w, c, t, a);
    InLockChange(w, c, t, a);
  }

  lemma OutLockChange(w: Workload, c: State, t: nat, a: Action)
    requires Shape(c) && t < |c.threads| && OwnOut(c, t) && Enabled(c, t, a)
    ensures OwnChange(c.outLock, Apply(w, c, t, a).outLock, t)
  {
    hide Slot;
  }

  lemma OutLocksKept(w: Workload, c: State, t: nat, a: Action)
    requires Shape(c) && OutLocks(c) && t < |c.threads| && Enabled(c, t, a)
    ensures Shape(Apply(w, c, t, a)) && OutLocks(Apply(w, c, t, a))
  {
    hide Apply, Enabled, HoldsOutSlot;
    Effect(w, c, t, a);
    OwnOutKept(w, c, t, a);
    OutLockChange(w, c, t, a);
  }

  lemma CountedKept(w: Workload, c: State, t: nat, a: Action)
    requires Shape(c) && NextLock(c) && Counted(c) && t < |c.threads| && Enabled(c, t, a)
    ensures Counted(Apply(w, c, t, a))
  {
    hide Slot;
  }

  lemma DistinctKept(w: Workload, c: State, t: nat, a: Action)
    requires Shape(c) && Counted(c) && Distinct(c) && t < |c.threads| && Enabled(c, t, a)
    ensures Distinct(Apply(w, c, t, a))
  {
    hide Slot;
  }

  /** The lock of the second in slot is free only when the iteration 32 before has ended. */
  lemma WindowMovesOn(c: State, t: nat)
    requires Locks(c) && Counted(c) && Distinct(c) && Window(c) && t < |c.threads|
    requires Enabled(c, t, LockNextIn)
    ensures forall u :: IsActive(c, u) ==> c.next <= c.threads[u].iter + IOC_SIZE - 1
  {
    hide Slot;
    var n := c.threads[t].iter;
    forall u | IsActive(c, u) ensures c.next <= c.threads[u].iter + IOC_SIZE - 1 {
      OwnsFirstIn(c, u);
      SlotsWrap(c.threads[u].iter, n + 1);
    }
  }

  lemma SlotsWrap(a: nat, b: nat)
    ensures b == a + IOC_SIZE ==> Slot(a) == Slot(b)
  {
  }

  /** A thread that is past numbering owns the lock of its in slot. */
  lemma OwnsFirstIn(c: State, u: nat)
    requires Shape(c) && InLocks(c) && IsActive(c, u)
    ensures c.threads[u].phase.Numbered? || c.inLock[Slot(c.threads[u].iter)] == u
  {
    assert c.threads[u].phase.Numbered? || HoldsInSlot(c.threads[u], Slot(c.threads[u].iter));
  }

  /** Until it has written the next in slot, a thread owns the lock of that slot. */
  lemma OwnsNextIn(c: State, u: nat)
    requires Shape(c) && InLocks(c) && IsActive(c, u) && !HoldsNext(c.threads[u].phase)
    ensures WroteIn(c.threads[u].phase) || c.inLock[Slot(c.threads[u].iter + 1)] == u
  {
    assert WroteIn(c.threads[u].phase) || HoldsInSlot(c.threads[u], Slot(c.threads[u].iter + 1));
  }

  lemma WindowKept(w: Workload, c: State, t: nat, a: Action)
    requires Locks(c) && Counted(c) && Distinct(c) && Window(c) && t < |c.threads| && Enabled(c, t, a)
    ensures Window(Apply(w, c, t, a))
  {
    hide Slot, InLocks, OutLocks;
    if a == LockNextIn {
      WindowMovesOn(c, t);
    }
  }

  lemma InPassedBefore(w: Workload, c: State, t: nat, a: Action, k: int)
    requires Shape(c) && t < |c.threads| && Enabled(c, t, a)
    requires a == WriteNextIn ==> k != c.threads[t].iter
    requires InPassed(Apply(w, c, t, a), k)
    ensures InPassed(c, k)
  {
    hide Slot;
    var d := Apply(w, c, t, a);
    forall u | IsActive(c, u) && c.threads[u].iter == k ensures WroteIn(c.threads[u].phase) {
      assert IsActive(d, u) || a == UnlockIn;
    }
  }

  lemma OutPassedBefore(w: Workload, c: State, t: nat, a: Action, k: int)
    requires Shape(c) && t < |c.threads| && Enabled(c, t, a)
    requires a == WriteNextOut ==> k != c.threads[t].iter
    requires OutPassed(Apply(w, c, t, a), k)
    ensures OutPassed(c, k)
  {
    hide Slot;
    var d := Apply(w, c, t, a);
    forall u | IsActive(c, u) && c.threads[u].iter == k ensures WroteOut(c.threads[u].phase) {
      assert IsActive(d, u) || a == UnlockIn;
    }
  }

  /** The first in slot can be locked only after the previous iteration has written it. */
  lemma LockedInIsWritten(c: State, t: nat)
    requires Locks(c) && Counted(c) && Distinct(c) && t < |c.threads| && Enabled(c, t, LockIn)
    ensures InPassed(c, c.next - 2)
  {
    forall u | IsActive(c, u) && c.threads[u].iter == c.next - 2 ensures WroteIn(c.threads[u].phase) {
      OwnsNextIn(c, u);
    }
  }

  /** Writing the next in slot touches no slot that another iteration holds, nor the newest ones. */
  lemma InWriteIsPrivate(c: State, t: nat, u: nat)
    requires Shape(c) && InLocks(c) && t < |c.threads| && u < |c.threads|
    requires Enabled(c, t, WriteNextIn) && HoldsIn0(c.threads[u].phase)
    ensures Slot(c.threads[u].iter) != Slot(c.threads[t].iter + 1)
  {
    hide Slot;
    SlotsDiffer(c.threads[t].iter, c.threads[t].iter + 1);
    var s := Slot(c.threads[t].iter + 1);
    var held := Slot(c.threads[u].iter);
    assert c.inLock[held] == u by { assert HoldsInSlot(c.threads[u], held); }
    assert c.inLock[s] == t by { assert HoldsInSlot(c.threads[t], s); }
  }

  lemma WorkingWindow(c: State, t: nat)
    requires NextLock(c) && Counted(c) && Distinct(c) && Window(c) && t < |c.threads|
    requires c.threads[t].phase.Working?
    ensures c.next - IOC_SIZE <= c.threads[t].iter < c.next
    ensures c.threads[t].iter == c.next - 1 ==>
      forall u :: IsActive(c, u) ==> c.next <= c.threads[u].iter + IOC_SIZE - 1
  {
    assert IsActive(c, t);
    if Entering(c) {
      assert IsActive(c, c.nextLock);
    }
  }

  lemma InHeldKept(w: Workload, c: State, t: nat, a: Action, u: nat)
    requires Locks(c) && Counted(c) && Distinct(c) && Window(c) && InSlots(w, c) && InGiven(w, c)
    requires t < |c.threads| && Enabled(c, t, a) && u < |c.threads|
    requires HoldsIn0(Apply(w, c, t, a).threads[u].phase)
    ensures InSlotOk(w, Apply(w, c, t, a), Apply(w, c, t, a).threads[u].iter)
  {
    hide Slot, InPassed, InLocks, OutLocks;
    if a == LockIn {
      LockedInIsWritten(c, t);
    } else if a == WriteNextIn {
      InWriteKept(w, c, t);
    }
  }

  lemma InNewestKept(w: Workload, c: State, t: nat, a: Action, k: nat)
    requires Locks(c) && Counted(c) && Distinct(c) && Window(c) && InSlots(w, c) && InGiven(w, c)
    requires t < |c.threads| && Enabled(c, t, a)
    requires var d := Apply(w, c, t, a); d.next - 1 <= k <= d.next && InPassed(d, k - 1)
    ensures InSlotOk(w, Apply(w, c, t, a), k)
  {
    hide Slot, InPassed, InLocks, OutLocks;
    var d := Apply(w, c, t, a);
    if a == WriteNextIn {
      InWriteKept(w, c, t);
      if k != c.threads[t].iter + 1 {
        InPassedBefore(w, c, t, a, k - 1);
      }
    } else {
      InPassedBefore(w, c, t, a, k - 1);
      if a == BumpNext {
        JustNumbered(d, t);
      }
    }
  }

  lemma InSlotsKept(w: Workload, c: State, t: nat, a: Action)
    requires Locks(c) && Counted(c) && Distinct(c) && Window(c) && InSlots(w, c) && InGiven(w, c)
    requires t < |c.threads| && Enabled(c, t, a)
    ensures Shape(Apply(w, c, t, a)) && InSlots(w, Apply(w, c, t, a))
  {
    hide Apply, Enabled, Slot, InPassed, InLocks, OutLocks, InSlotOk;
    Effect(w, c, t, a);
    var d := Apply(w, c, t, a);
    forall u | 0 <= u < |d.threads| && HoldsIn0(d.threads[u].phase) ensures InSlotOk(w, d, d.threads[u].iter) {
      InHeldKept(w, c, t, a, u);
    }
    if InPassed(d, d.next - 1) {
      InNewestKept(w, c, t, a, d.next);
    }
    if d.next > 0 && InPassed(d, d.next - 2) {
      InNewestKept(w, c, t, a, d.next - 1);
    }
  }

  lemma JustNumbered(c: State, t: nat)
    requires t < |c.threads| && c.threads[t].phase.Numbered? && c.threads[t].iter == c.next - 1
    ensures !InPassed(c, c.next - 1) && !OutPassed(c, c.next - 1)
  {
    assert IsActive(c, t);
  }

  lemma InWriteKept(w: Workload, c: State, t: nat)
    requires Locks(c) && Counted(c) && Distinct(c) && Window(c) && InSlots(w, c) && InGiven(w, c)
    requires t < |c.threads| && Enabled(c, t, WriteNextIn)
    ensures var d := Apply(w, c, t, WriteNextIn);
      && InSlotOk(w, d, c.threads[t].iter + 1)
      && (forall u :: 0 <= u < |d.threads| && HoldsIn0(d.threads[u].phase) ==> InSlotOk(w, d, d.threads[u].iter))
      && (forall k: nat :: c.next - 1 <= k <= c.next && InSlotOk(w, c, k) ==> InSlotOk(w, d, k))
  {
    hide Slot, InPassed, InLocks, OutLocks;
    var d := Apply(w, c, t, WriteNextIn);
    var n := c.threads[t].iter;
    WorkingWindow(c, t);
    forall u | 0 <= u < |d.threads| && HoldsIn0(d.threads[u].phase) ensures InSlotOk(w, d, d.threads[u].iter) {
      InWriteIsPrivate(c, t, u);
    }
    forall k: nat | c.next - 1 <= k <= c.next && InSlotOk(w, c, k) ensures InSlotOk(w, d, k) {
      if n + 1 < k {
        SlotsDiffer(n + 1, k);
      } else if k < n + 1 {
        SlotsDiffer(k, n + 1);
      }
    }
  }

  lemma InGivenKept(w: Workload, c: State, t: nat, a: Action)
    requires Shape(c) && InSlots(w, c) && InGiven(w, c) && t < |c.threads| && Enabled(c, t, a)
    ensures InGiven(w, Apply(w, c, t, a))
  {
    hide Slot, InPassed;
  }

  // The same for the out slots.

  lemma HoldsNextOut(c: State, u: nat)
    requires Shape(c) && OutLocks(c) && IsActive(c, u) && !HoldsNext(c.threads[u].phase)
    ensures !WroteOut(c.threads[u].phase) ==> c.outLock[Slot(c.threads[u].iter + 1)] == u
  {
    assert !WroteOut(c.threads[u].phase) ==> HoldsOutSlot(c.threads[u], Slot(c.threads[u].iter + 1));
  }

  /** Out slot n can be locked by iteration n only after the previous iteration has written it. */
  lemma LockedOutIsWritten(c: State, t: nat)
    requires Locks(c) && Counted(c) && Distinct(c) && t < |c.threads|
    requires c.threads[t].phase.Working? && HoldsOut0(c.threads[t].phase)
    ensures OutPassed(c, c.threads[t].iter - 1)
  {
    var n: int := c.threads[t].iter;
    assert IsActive(c, t);
    assert c.outLock[Slot(n)] == t by { assert HoldsOutSlot(c.threads[t], Slot(n)); }
    forall u | IsActive(c, u) && c.threads[u].iter == n - 1 ensures WroteOut(c.threads[u].phase) {
      assert !HoldsNext(c.threads[u].phase);
      HoldsNextOut(c, u);
    }
  }

  /** The slot that iteration n writes for n + 1 is not one that an older or newer iteration still reads. */
  lemma OutWriteIsPrivate(c: State, t: nat, k: nat)
    requires Locks(c) && Counted(c) && Distinct(c) && Window(c) && t < |c.threads|
    requires Enabled(c, t, WriteNextOut)
    requires k != c.threads[t].iter + 1
    requires k == c.next || exists u :: IsActive(c, u) && c.threads[u].iter == k
    ensures Slot(k) != Slot(c.threads[t].iter + 1)
  {
    var n := c.threads[t].iter;
    WorkingWindow(c, t);
    if k < n + 1 {
      SlotsDiffer(k, n + 1);
    } else {
      SlotsDiffer(n + 1, k);
    }
  }

  lemma OutWriteKept(w: Workload, c: State, t: nat, u: nat)
    requires Locks(c) && Counted(c) && Distinct(c) && Window(c) && OutSlots(w, c)
    requires InGiven(w, c) && OutGiven(w, c)
    requires t < |c.threads| && Enabled(c, t, WriteNextOut) && IsActive(c, u)
    ensures OutSlotFor(w, Apply(w, c, t, WriteNextOut), Apply(w, c, t, WriteNextOut).threads[u])
  {
    hide Slot, OutPassed, InLocks, OutLocks;
    var d := Apply(w, c, t, WriteNextOut);
    var n: int, k: int := c.threads[t].iter, c.threads[u].iter;
    assert IsActive(c, t);
    if NeedsOut(d.threads[u].phase) && OutPassed(d, k - 1) && k != n + 1 {
      OutPassedBefore(w, c, t, WriteNextOut, k - 1);
      OutWriteIsPrivate(c, t, k);
    }
  }

  lemma OutSlotForKept(w: Workload, c: State, t: nat, a: Action, u: nat)
    requires Locks(c) && Counted(c) && Distinct(c) && Window(c) && OutSlots(w, c)
    requires InGiven(w, c) && OutGiven(w, c)
    requires t < |c.threads| && Enabled(c, t, a) && IsActive(Apply(w, c, t, a), u)
    ensures OutSlotFor(w, Apply(w, c, t, a), Apply(w, c, t, a).threads[u])
  {
    hide Slot, OutPassed, InLocks, OutLocks;
    var d := Apply(w, c, t, a);
    if a == WriteNextOut {
      OutWriteKept(w, c, t, u);
    } else if OutPassed(d, d.threads[u].iter - 1) {
      OutPassedBefore(w, c, t, a, d.threads[u].iter - 1);
      assert IsActive(c, u) || (a == BumpNext && u == t);
    }
  }

  lemma OutSlotsKept(w: Workload, c: State, t: nat, a: Action)
    requires Locks(c) && Counted(c) && Distinct(c) && Window(c) && OutSlots(w, c)
    requires InGiven(w, c) && OutGiven(w, c)
    requires t < |c.threads| && Enabled(c, t, a)
    ensures Shape(Apply(w, c, t, a)) && OutSlots(w, Apply(w, c, t, a))
  {
    hide Slot, OutPassed, InLocks, OutLocks, OutSlotFor;
    var d := Apply(w, c, t, a);
    var n := c.threads[t].iter;
    forall u | IsActive(d, u) ensures OutSlotFor(w, d, d.threads[u]) {
      OutSlotForKept(w, c, t, a, u);
    }
    if OutPassed(d, d.next - 1) {
      if a == BumpNext {
        JustNumbered(d, t);
      } else if a == WriteNextOut && n + 1 == c.next {
        assert IsActive(c, t);
      } else {
        OutPassedBefore(w, c, t, a, d.next - 1);
        if a == WriteNextOut {
          OutWriteIsPrivate(c, t, c.next);
        }
      }
    }
  }

  lemma OutReadIsRight(w: Workload, c: State, t: nat)
    requires Locks(c) && Counted(c) && Distinct(c) && OutSlots(w, c)
    requires t < |c.threads| && Enabled(c, t, ReadOut)
    ensures c.outPtr[Slot(c.threads[t].iter)] == Out(w, c.threads[t].iter)
  {
    assert IsActive(c, t);
    LockedOutIsWritten(c, t);
    assert OutSlotFor(w, c, c.threads[t]);
  }

  lemma OutGivenKept(w: Workload, c: State, t: nat, a: Action)
    requires Shape(c) && Locks(c) && Counted(c) && Distinct(c) && OutSlots(w, c) && OutGiven(w, c)
    requires t < |c.threads| && Enabled(c, t, a)
    ensures OutGiven(w, Apply(w, c, t, a))
  {
    hide Locks, OutSlots, Slot, OutPassed, InLocks, OutLocks;
    if a == ReadOut {
      OutReadIsRight(w, c, t);
    }
    var d := Apply(w, c, t, a);
    assert forall u :: IsActive(d, u) && u != t ==> IsActive(c, u);
    assert IsActive(d, t) && !NeedsOut(d.threads[t].phase) ==> IsActive(c, t);
  }

  lemma LoggedKept(w: Workload, c: State, t: nat, a: Action)
    requires Shape(c) && Counted(c) && Distinct(c) && InGiven(w, c) && OutGiven(w, c) && Logged(w, c)
    requires t < |c.threads| && Enabled(c, t, a)
    ensures Logged(w, Apply(w, c, t, a))
  {
    hide Apply, Enabled, Slot;
    Effect(w, c, t, a);
    var d := Apply(w, c, t, a);
    assert a == UnlockIn ==> IsActive(c, t);
    forall n | 0 <= n < d.next ensures n in d.log <==> !RunsNow(d, n) {
      RunsNowAfter(w, c, t, a, n);
    }
  }

  lemma RunsNowAfter(w: Workload, c: State, t: nat, a: Action, n: nat)
    requires Shape(c) && Counted(c) && Distinct(c) && t < |c.threads| && Enabled(c, t, a)
    ensures RunsNow(Apply(w, c, t, a), n) <==>
      (a == BumpNext && n == c.next) || (RunsNow(c, n) && !(a == UnlockIn && c.threads[t].iter == n))
  {
    hide Apply, Enabled, Slot;
    Effect(w, c, t, a);
    var d := Apply(w, c, t, a);
    assert forall u :: u != t ==> (IsActive(d, u) <==> IsActive(c, u));
    assert IsActive(d, t) <==> (a == BumpNext || (IsActive(c, t) && a != UnlockIn));
  }

  /** Every step keeps the whole invariant. */
  lemma StepKeepsInv(w: Workload, c: State, t: nat, a: Action)
    requires Inv(w, c) && t < |c.threads| && Enabled(c, t, a)
    ensures Inv(w, Apply(w, c, t, a))
  {
    NextLockKept(w, c, t, a);
    OwnersKept(w, c, t, a);
    InLocksKept(w, c, t, a);
    OutLocksKept(w, c, t, a);
    CountedKept(w, c, t, a);
    DistinctKept(w, c, t, a);
    WindowKept(w, c, t, a);
    InSlotsKept(w, c, t, a);
    InGivenKept(w, c, t, a);
    OutSlotsKept(w, c, t, a);
    OutGivenKept(w, c, t, a);
    LoggedKept(w, c, t, a);
  }

  // ------------------------------------------------------------------ runs

  /** One step of some thread. */
  ghost predicate Next(w: Workload, c: State, d: State)
    requires Shape(c)
  {
    exists t: nat, a: Action :: t < |c.threads| && Enabled(c, t, a) && d == Apply(w, c, t, a)
  }

  ghost predicate IsRun(w: Workload, run: seq<State>) {
    && run != [] && Init(w, run[0])
    && (forall i :: 0 <= i < |run| ==> Shape(run[i]))
    && (forall i :: 0 < i < |run| ==> Next(w, run[i - 1], run[i]))
  }

  lemma {:induction false} RunInv(w: Workload, run: seq<State>, i: nat)
    requires IsRun(w, run) && i < |run|
    ensures Inv(w, run[i])
    decreases i
  {
    hide Init, Inv, Apply, Enabled;
    if i == 0 {
      InitInv(w, run[0]);
    } else {
      RunInv(w, run, i - 1);
      assert Next(w, run[i - 1], run[i]);
      NextKeepsInv(w, run[i - 1], run[i]);
    }
  }

  lemma NextKeepsInv(w: Workload, c: State, d: State)
    requires Inv(w, c) && Next(w, c, d)
    ensures Inv(w, d)
  {
    var t: nat, a: Action :| t < |c.threads| && Enabled(c, t, a) && d == Apply(w, c, t, a);
    StepKeepsInv(w, c, t, a);
  }

  /**
   In every interleaving, what ioc_get_in and ioc_get_out gave to an iteration,
   running or finished, is what the sequential fold gives it.
   */
  lemma PointersAreSequential(w: Workload, run: seq<State>, i: nat)
    requires IsRun(w, run) && i < |run|
    ensures InGiven(w, run[i]) && OutGiven(w, run[i])
    ensures forall n :: n in run[i].log ==> run[i].log[n] == (In(w, n), Out(w, n))
  {
    RunInv(w, run, i);
  }
}
