/**
 The blocked driver with several threads: whatever the interleaving of the threads and of the bytes that they store,
 the output buffer, the pointers and the summed count are those of the serial loop.
 */
module ParallelBlocks {
  import opened Basics
  import opened Bytes
  import opened BlockCodec
  import opened BlockedDriver
  import opened IoChain
  import opened IoChainProgress

  /**
   A block function on a fixed input buffer: block k, found at input position p, takes `eat` bytes of the input,
   stores the bytes `make`, and returns `count`.
   */
  datatype Job = Job(eat: (nat, Ptr) -> nat, make: (nat, Ptr) -> seq<byte>, count: (nat, Ptr) -> int)

  /** The chain of a buffer. */
  function Chain(job: Job): Workload {
    Workload(0, 0, (k: nat, p: Ptr) => p + job.eat(k, p), (k: nat, p: Ptr, o: Ptr) => o + |job.make(k, p)|)
  }

  /** What the block function does in the serial loop, where every block stands behind the blocks before it. */
  ghost predicate Serial(job: Job, worker: Worker, ins: seq<seq<byte>>, outs: seq<seq<byte>>) {
    |ins| == |outs| && forall k :: 0 <= k < |ins| ==> SerialAt(job, worker, ins, outs, k)
  }

  ghost predicate SerialAt(job: Job, worker: Worker, ins: seq<seq<byte>>, outs: seq<seq<byte>>, k: nat)
    requires k < |ins| == |outs|
  {
    var p := |Flatten(ins[..k])|;
    job.eat(k, p) == |ins[k]| && job.make(k, p) == outs[k] && job.count(k, p) == Reported(worker, ins[k], outs[k])
  }

  /** The sequential fold gives block n the sums of the sizes before it. */
  lemma {:induction false} FoldIsFlattened(job: Job, worker: Worker, ins: seq<seq<byte>>, outs: seq<seq<byte>>, n: nat)
    requires Serial(job, worker, ins, outs) && n <= |ins|
    ensures In(Chain(job), n) == |Flatten(ins[..n])|
    ensures Out(Chain(job), n) == |Flatten(outs[..n])|
  {
    hide Flatten, Reported;
    if n == 0 {
      assert ins[..0] == [] && outs[..0] == [];
      FlattenEmpty();
    } else {
      FoldIsFlattened(job, worker, ins, outs, n - 1);
      assert SerialAt(job, worker, ins, outs, n - 1);
      FlattenNext(ins, n - 1);
      FlattenNext(outs, n - 1);
    }
  }

  lemma FlattenEmpty()
    ensures Flatten([]) == []
  {
  }

  /**
   In every interleaving of any number of threads, a block that has been processed stood exactly where the
   blocks before it end, in the input and in the output.
   */
  lemma BlocksStandInOrder(job: Job, worker: Worker, ins: seq<seq<byte>>, outs: seq<seq<byte>>, run: seq<State>,
                           i: nat, n: nat)
    requires Serial(job, worker, ins, outs) && IsRun(Chain(job), run) && i < |run|
    requires n in run[i].log && n <= |ins|
    ensures run[i].log[n] == (|Flatten(ins[..n])|, |Flatten(outs[..n])|)
  {
    hide In, Out, IsRun, Flatten, Serial;
    PointersAreSequential(Chain(job), run, i);
    FoldIsFlattened(job, worker, ins, outs, n);
  }

  // ------------------------------------------------------------ threads that store bytes

  /** The chain, the output buffer, the bytes stored so far, the reduction of the counts, and the shared error. */
  datatype Machine = Machine(chain: State, out: seq<byte>, stored: set<(nat, nat)>, counted: set<nat>, total: int,
                             err: int)

  /** Byte i of block n can be stored: the block has been given its pointers, and has closed its iteration. */
  ghost predicate CanStore(job: Job, m: Machine, n: nat, i: nat) {
    && n in m.chain.log && (n, i) !in m.stored && i < |job.make(n, m.chain.log[n].0)|
    && 0 <= m.chain.log[n].1 + i < |m.out|
  }

  function Store(job: Job, m: Machine, n: nat, i: nat): Machine
    requires CanStore(job, m, n, i)
  {
    var (p, o) := m.chain.log[n];
    m.(out := m.out[o + i := job.make(n, p)[i]], stored := m.stored + {(n, i)})
  }

  /** The count of a block can be added. */
  ghost predicate CanCount(m: Machine, n: nat) {
    n in m.chain.log && n !in m.counted
  }

  /** A negative count is also kept as the error; the last one stays. */
  function Count(job: Job, m: Machine, n: nat): Machine
    requires CanCount(m, n)
  {
    var count := job.count(n, m.chain.log[n].0);
    m.(total := m.total + count, counted := m.counted + {n}, err := if count < 0 then count else m.err)
  }

  ghost predicate ChainStep(job: Job, m: Machine, m': Machine) {
    Shape(m.chain) && Shape(m'.chain) && Next(Chain(job), m.chain, m'.chain) && m' == m.(chain := m'.chain)
  }

  ghost predicate StoreStep(job: Job, m: Machine, m': Machine) {
    exists n: nat, i: nat :: CanStore(job, m, n, i) && m' == Store(job, m, n, i)
  }

  ghost predicate CountStep(job: Job, m: Machine, m': Machine) {
    exists n: nat :: CanCount(m, n) && m' == Count(job, m, n)
  }

  /** One step of some thread: at its chain, in the output buffer, or in the reduction. */
  ghost predicate Step(job: Job, m: Machine, m': Machine) {
    ChainStep(job, m, m') || StoreStep(job, m, m') || CountStep(job, m, m')
  }

  ghost predicate Begins(job: Job, m: Machine) {
    Init(Chain(job), m.chain) && m.stored == {} && m.counted == {} && m.total == 0 && m.err == 0
  }

  ghost predicate IsMachineRun(job: Job, run: seq<Machine>) {
    run != [] && Begins(job, run[0]) && forall i :: 0 < i < |run| ==> Step(job, run[i - 1], run[i])
  }

  /** No thread can do anything more at its chain. */
  ghost predicate Stuck(c: State) {
    Shape(c) && forall t: nat, a: Action :: t < |c.threads| ==> !Enabled(c, t, a)
  }

  /** No thread can do anything more. */
  ghost predicate AllStuck(job: Job, m: Machine) {
    && Stuck(m.chain)
    && (forall n: nat, i: nat :: !CanStore(job, m, n, i)) && (forall n: nat :: !CanCount(m, n))
  }

  /** What the chain does in a run of the machine is a run of the chain. */
  lemma {:induction false} ChainOf(job: Job, run: seq<Machine>, i: nat) returns (states: seq<State>)
    requires IsMachineRun(job, run) && i < |run|
    ensures IsRun(Chain(job), states) && states[0] == run[0].chain && states[|states| - 1] == run[i].chain
  {
    hide Init, Next, Shape;
    if i == 0 {
      BeginShape(job, run[0]);
      states := [run[0].chain];
    } else {
      states := ChainOf(job, run, i - 1);
      assert Step(job, run[i - 1], run[i]);
      if ChainStep(job, run[i - 1], run[i]) {
        states := states + [run[i].chain];
      }
    }
  }

  lemma BeginShape(job: Job, m: Machine)
    requires Begins(job, m)
    ensures Shape(m.chain)
  {
  }

  /**
   The log of a run over the blocks holds no other iteration than theirs, each with the pointers of the serial loop.
   */
  ghost predicate LogFits(ins: seq<seq<byte>>, outs: seq<seq<byte>>, c: State) {
    |ins| == |outs| && forall n :: n in c.log ==> n < |ins| && c.log[n] == (|Flatten(ins[..n])|, |Flatten(outs[..n])|)
  }

  lemma LogFitsRun(job: Job, worker: Worker, ins: seq<seq<byte>>, outs: seq<seq<byte>>, run: seq<Machine>, i: nat)
    requires Serial(job, worker, ins, outs) && IsMachineRun(job, run) && Quotas(run[0].chain.threads) == |ins|
    requires i < |run|
    ensures LogFits(ins, outs, run[i].chain)
  {
    hide In, Out, IsMachineRun, IsRun, Flatten, Serial, Quotas, Measure;
    var states := ChainOf(job, run, i);
    LogFitsChain(job, worker, ins, outs, states);
  }

  lemma LogFitsChain(job: Job, worker: Worker, ins: seq<seq<byte>>, outs: seq<seq<byte>>, states: seq<State>)
    requires Serial(job, worker, ins, outs) && IsRun(Chain(job), states) && Quotas(states[0].threads) == |ins|
    ensures LogFits(ins, outs, states[|states| - 1])
  {
    hide In, Out, Flatten, Serial, Quotas, Measure, Locks, Owners, Counted, Distinct, Window;
    hide InSlots, InGiven, OutSlots, OutGiven, Next, Init;
    var last := |states| - 1;
    SerialLengths(job, worker, ins, outs);
    RunDecreases(Chain(job), states, last);
    RunInv(Chain(job), states, last);
    forall n | n in states[last].log
      ensures n < |ins| && states[last].log[n] == (|Flatten(ins[..n])|, |Flatten(outs[..n])|)
    {
      FoldIsFlattened(job, worker, ins, outs, n);
    }
  }

  lemma SerialLengths(job: Job, worker: Worker, ins: seq<seq<byte>>, outs: seq<seq<byte>>)
    requires Serial(job, worker, ins, outs)
    ensures |ins| == |outs|
  {
    hide SerialAt;
  }

  // ------------------------------------------------------------ where a byte goes

  /** The place of byte i of block n in the serial output. */
  lemma ByteOfBlock(outs: seq<seq<byte>>, n: nat, i: nat)
    requires n < |outs| && i < |outs[n]|
    ensures |Flatten(outs[..n])| + i < |Flatten(outs)| && Flatten(outs)[|Flatten(outs[..n])| + i] == outs[n][i]
  {
    hide Flatten;
    var before := Flatten(outs[..n]);
    FlattenPrefix(outs, n + 1);
    FlattenNext(outs, n);
    Within(before, outs[n], Flatten(outs));
    assert Flatten(outs)[|before|..|before| + |outs[n]|][i] == outs[n][i];
  }

  /** Every place of the serial output belongs to a block. */
  lemma {:induction false} BlockOfByte(outs: seq<seq<byte>>, p: nat) returns (n: nat, i: nat)
    requires p < |Flatten(outs)|
    ensures n < |outs| && i < |outs[n]| && p == |Flatten(outs[..n])| + i
    decreases |outs|
  {
    var k := |outs| - 1;
    var front := Flatten(outs[..k]);
    if p < |front| {
      n, i := BlockOfByte(outs[..k], p);
      assert outs[..k][..n] == outs[..n];
    } else {
      n, i := k, p - |front|;
    }
  }

  // ------------------------------------------------------------ the counts, in any order

  /** The counts of the blocks in `counted` below k. */
  ghost function Tally(worker: Worker, ins: seq<seq<byte>>, outs: seq<seq<byte>>, counted: set<nat>, k: nat): int
    requires k <= |ins| == |outs|
  {
    if k == 0 then 0
    else
      var added := if k - 1 in counted then Reported(worker, ins[k - 1], outs[k - 1]) else 0;
      Tally(worker, ins, outs, counted, k - 1) + added
  }

  lemma {:induction false} TallyGrows(worker: Worker, ins: seq<seq<byte>>, outs: seq<seq<byte>>, counted: set<nat>,
                                      k: nat, n: nat)
    requires k <= |ins| == |outs| && n < |ins| && n !in counted
    ensures Tally(worker, ins, outs, counted + {n}, k) ==
      Tally(worker, ins, outs, counted, k) + if n < k then Reported(worker, ins[n], outs[n]) else 0
  {
    hide Reported;
    if k > 0 {
      TallyGrows(worker, ins, outs, counted, k - 1, n);
    }
  }

  lemma {:induction false} TallyOfNone(worker: Worker, ins: seq<seq<byte>>, outs: seq<seq<byte>>, k: nat)
    requires k <= |ins| == |outs|
    ensures Tally(worker, ins, outs, {}, k) == 0
  {
    if k > 0 {
      TallyOfNone(worker, ins, outs, k - 1);
    }
  }

  /** All counts together are what the serial loop adds up. */
  lemma {:induction false} TallyIsReported(worker: Worker, ins: seq<seq<byte>>, outs: seq<seq<byte>>,
                                           counted: set<nat>, k: nat)
    requires k <= |ins| == |outs| && forall n :: 0 <= n < k ==> n in counted
    ensures Tally(worker, ins, outs, counted, k) == ReportedSoFar(worker, ins, outs[..k])
  {
    hide Reported, ReportedSoFar;
    if k == 0 {
      assert outs[..0] == [];
      NothingReported(worker, ins);
    } else {
      TallyIsReported(worker, ins, outs, counted, k - 1);
      ReportedNext(worker, ins, outs[..k], k - 1);
      assert outs[..k][..k - 1] == outs[..k - 1];
    }
  }

  // ------------------------------------------------------------ the invariant of the buffer

  /** Stored bytes are those of the serial output, at their places; all other places are as they were. */
  ghost predicate BufferFits(outs: seq<seq<byte>>, before: seq<byte>, m: Machine) {
    && |m.out| == |before| && |Flatten(outs)| <= |before|
    && (forall n, i :: (n, i) in m.stored ==> StoredRight(outs, m.out, n, i))
    && (forall p :: 0 <= p < |before| ==>
          m.out[p] == before[p] || (p < |Flatten(outs)| && m.out[p] == Flatten(outs)[p]))
  }

  ghost predicate StoredRight(outs: seq<seq<byte>>, out: seq<byte>, n: nat, i: nat) {
    && n < |outs| && i < |outs[n]|
    && var p := |Flatten(outs[..n])| + i;
       p < |Flatten(outs)| && p < |out| && out[p] == Flatten(outs)[p]
  }

  ghost predicate SumFits(worker: Worker, ins: seq<seq<byte>>, outs: seq<seq<byte>>, m: Machine)
    requires |ins| == |outs|
  {
    && (forall n :: n in m.counted ==> n < |ins|)
    && m.total == Tally(worker, ins, outs, m.counted, |ins|) && m.err == 0
  }

  ghost predicate MachineInv(worker: Worker, ins: seq<seq<byte>>, outs: seq<seq<byte>>, before: seq<byte>, m: Machine) {
    |ins| == |outs| && BufferFits(outs, before, m) && SumFits(worker, ins, outs, m)
  }

  lemma StoreKeeps(job: Job, worker: Worker, ins: seq<seq<byte>>, outs: seq<seq<byte>>, before: seq<byte>, m: Machine,
                   n: nat, i: nat)
    requires Serial(job, worker, ins, outs) && LogFits(ins, outs, m.chain) && BufferFits(outs, before, m)
    requires CanStore(job, m, n, i)
    ensures BufferFits(outs, before, Store(job, m, n, i))
  {
    hide Flatten, Reported;
    assert SerialAt(job, worker, ins, outs, n);
    ByteOfBlock(outs, n, i);
    var p := |Flatten(outs[..n])| + i;
    var m' := Store(job, m, n, i);
    assert m'.out == m.out[p := Flatten(outs)[p]];
    forall n', i' | (n', i') in m'.stored ensures StoredRight(outs, m'.out, n', i') {
      if (n', i') != (n, i) {
        assert StoredRight(outs, m.out, n', i');
      }
    }
  }

  lemma CountKeeps(job: Job, worker: Worker, ins: seq<seq<byte>>, outs: seq<seq<byte>>, m: Machine, n: nat)
    requires Serial(job, worker, ins, outs) && LogFits(ins, outs, m.chain) && SumFits(worker, ins, outs, m)
    requires CanCount(m, n)
    ensures SumFits(worker, ins, outs, Count(job, m, n))
  {
    hide Flatten, Reported, Tally;
    assert SerialAt(job, worker, ins, outs, n);
    TallyGrows(worker, ins, outs, m.counted, |ins|, n);
  }

  lemma StepKeeps(job: Job, worker: Worker, ins: seq<seq<byte>>, outs: seq<seq<byte>>, before: seq<byte>, m: Machine,
                  m': Machine)
    requires Serial(job, worker, ins, outs) && LogFits(ins, outs, m.chain)
    requires MachineInv(worker, ins, outs, before, m) && Step(job, m, m')
    ensures MachineInv(worker, ins, outs, before, m')
  {
    hide Flatten, Reported, Tally, Serial, LogFits, Next, StoredRight, CanStore;
    if ChainStep(job, m, m') {
    } else if StoreStep(job, m, m') {
      var n: nat, i: nat :| CanStore(job, m, n, i) && m' == Store(job, m, n, i);
      StoreKeeps(job, worker, ins, outs, before, m, n, i);
    } else {
      var n: nat :| CanCount(m, n) && m' == Count(job, m, n);
      CountKeeps(job, worker, ins, outs, m, n);
    }
  }

  lemma {:induction false} MachineRunInv(job: Job, worker: Worker, ins: seq<seq<byte>>, outs: seq<seq<byte>>,
                                         run: seq<Machine>, i: nat)
    requires Serial(job, worker, ins, outs) && IsMachineRun(job, run) && Quotas(run[0].chain.threads) == |ins|
    requires |Flatten(outs)| <= |run[0].out| && i < |run|
    ensures MachineInv(worker, ins, outs, run[0].out, run[i])
    decreases i
  {
    hide Flatten, Serial, Quotas, Step, Init;
    SerialLengths(job, worker, ins, outs);
    if i == 0 {
      TallyOfNone(worker, ins, outs, |ins|);
    } else {
      MachineRunInv(job, worker, ins, outs, run, i - 1);
      LogFitsRun(job, worker, ins, outs, run, i - 1);
      StepKeeps(job, worker, ins, outs, run[0].out, run[i - 1], run[i]);
    }
  }

  // ------------------------------------------------------------ every run ends

  lemma RowsApart(a: set<(nat, nat)>, b: set<(nat, nat)>, k: nat)
    requires forall n: nat, i: nat :: (n, i) in a ==> n < k
    requires forall n: nat, i: nat :: (n, i) in b ==> n == k
    ensures |a + b| == |a| + |b|
  {
    forall c | c in a ensures c !in b {
      assert (c.0, c.1) in a;
      assert c == (c.0, c.1);
    }
    assert a !! b;
  }

  /** The bytes of all blocks, by block and place. */
  ghost function Cells(outs: seq<seq<byte>>): (r: set<(nat, nat)>)
    ensures forall n: nat, i: nat :: (n, i) in r <==> n < |outs| && i < |outs[n]|
    ensures |r| == |Flatten(outs)|
  {
    if outs == [] then {}
    else
      var k := |outs| - 1;
      var a, b := Cells(outs[..k]), RowCells(k, |outs[k]|);
      RowsApart(a, b, k);
      a + b
  }

  ghost function RowCells(k: nat, size: nat): (r: set<(nat, nat)>)
    ensures forall n: nat, i: nat :: (n, i) in r <==> n == k && i < size
    ensures |r| == size
  {
    if size == 0 then {} else RowCells(k, size - 1) + {(k, size - 1 as nat)}
  }

  ghost function Below(k: nat): (r: set<nat>)
    ensures forall n: nat :: n in r <==> n < k
    ensures |r| == k
  {
    if k == 0 then {} else Below(k - 1) + {k - 1 as nat}
  }

  /** Every step is one of the chain, one more byte stored, or one more count added. */
  lemma {:induction false} StepsCounted(job: Job, run: seq<Machine>, i: nat)
    requires IsMachineRun(job, run) && i < |run|
    ensures i + Measure(run[i].chain.threads) <=
      Measure(run[0].chain.threads) + |run[i].stored| + |run[i].counted|
    decreases i
  {
    hide Measure, Begins, Next, Shape;
    if i == 0 {
    } else {
      StepsCounted(job, run, i - 1);
      OneStepCounted(job, run[i - 1], run[i]);
    }
  }

  lemma OneStepCounted(job: Job, m: Machine, m': Machine)
    requires Step(job, m, m')
    ensures Measure(m'.chain.threads) + |m.stored| + |m.counted| <
      Measure(m.chain.threads) + |m'.stored| + |m'.counted|
  {
    hide Measure, Next;
    if ChainStep(job, m, m') {
      NextDecreases(Chain(job), m.chain, m'.chain);
    }
  }

  /** No run is longer than the work there is. */
  lemma RunsEnd(job: Job, worker: Worker, ins: seq<seq<byte>>, outs: seq<seq<byte>>, run: seq<Machine>)
    requires Serial(job, worker, ins, outs) && IsMachineRun(job, run) && Quotas(run[0].chain.threads) == |ins|
    requires |Flatten(outs)| <= |run[0].out|
    ensures |run| <= Measure(run[0].chain.threads) + |Flatten(outs)| + |ins| + 1
  {
    hide Serial, IsMachineRun, Measure, Flatten, Quotas;
    var last := LastOf(job, run);
    StepsCounted(job, run, last);
    MachineRunInv(job, worker, ins, outs, run, last);
    AtMostAll(worker, ins, outs, run[0].out, run[last]);
  }

  lemma LastOf(job: Job, run: seq<Machine>) returns (last: nat)
    requires IsMachineRun(job, run)
    ensures last + 1 == |run|
  {
    last := |run| - 1;
  }

  lemma AtMostAll(worker: Worker, ins: seq<seq<byte>>, outs: seq<seq<byte>>, before: seq<byte>, m: Machine)
    requires MachineInv(worker, ins, outs, before, m)
    ensures |m.stored| <= |Flatten(outs)| && |m.counted| <= |ins|
  {
    hide Flatten, Tally;
    forall c | c in m.stored ensures c in Cells(outs) {
      assert StoredRight(outs, m.out, c.0, c.1);
    }
    SubsetSize(m.stored, Cells(outs));
    SubsetSize(m.counted, Below(|ins|));
  }

  lemma NotStuck(job: Job, m: Machine) returns (m': Machine)
    requires Shape(m.chain) && !AllStuck(job, m)
    ensures Step(job, m, m')
  {
    hide Apply, Enabled, Store, Count;
    if !Stuck(m.chain) {
      var t: nat, a: Action :| t < |m.chain.threads| && Enabled(m.chain, t, a);
      ApplyShape(Chain(job), m.chain, t, a);
      m' := m.(chain := Apply(Chain(job), m.chain, t, a));
      assert ChainStep(job, m, m');
    } else if n: nat, i: nat :| CanStore(job, m, n, i) {
      m' := Store(job, m, n, i);
      assert StoreStep(job, m, m');
    } else {
      var n: nat :| CanCount(m, n);
      m' := Count(job, m, n);
      assert CountStep(job, m, m');
    }
  }

  lemma ApplyShape(w: Workload, c: State, t: nat, a: Action)
    requires Shape(c) && t < |c.threads| && Enabled(c, t, a)
    ensures Shape(Apply(w, c, t, a))
  {
    hide Apply, Enabled;
    Effect(w, c, t, a);
  }

  lemma ShapeKept(job: Job, run: seq<Machine>, i: nat)
    requires IsMachineRun(job, run) && i < |run|
    ensures Shape(run[i].chain)
  {
    hide IsMachineRun;
    var states := ChainOf(job, run, i);
  }

  /** Every run can go on to an end, so that what is said of finished runs is said of some. */
  lemma Finishes(job: Job, worker: Worker, ins: seq<seq<byte>>, outs: seq<seq<byte>>, run: seq<Machine>)
      returns (full: seq<Machine>)
    requires Serial(job, worker, ins, outs) && IsMachineRun(job, run) && Quotas(run[0].chain.threads) == |ins|
    requires |Flatten(outs)| <= |run[0].out|
    ensures IsMachineRun(job, full) && run <= full && AllStuck(job, full[|full| - 1])
    decreases Measure(run[0].chain.threads) + |Flatten(outs)| + |ins| + 1 - |run|
  {
    hide Serial, Measure, Flatten, Quotas, AllStuck, Step, Begins;
    RunsEnd(job, worker, ins, outs, run);
    if AllStuck(job, run[|run| - 1]) {
      full := run;
    } else {
      ShapeKept(job, run, |run| - 1);
      var m := NotStuck(job, run[|run| - 1]);
      RunsEnd(job, worker, ins, outs, run + [m]);
      full := Finishes(job, worker, ins, outs, run + [m]);
    }
  }

  // ------------------------------------------------------------ errors

  /** The error is that of some block that has failed, if there is one. */
  ghost predicate ErrorFits(job: Job, m: Machine) {
    && (forall n :: n in m.counted ==> n in m.chain.log && (Failed(job, n) ==> m.err < 0))
    && (m.err == 0 || exists n :: n in m.counted && Failed(job, n) && m.err == job.count(n, In(Chain(job), n)))
  }

  ghost predicate Failed(job: Job, n: nat) {
    job.count(n, In(Chain(job), n)) < 0
  }

  lemma {:induction false} ErrorReported(job: Job, run: seq<Machine>, i: nat)
    requires IsMachineRun(job, run) && i < |run|
    ensures ErrorFits(job, run[i])
    decreases i
  {
    hide In, Begins, Step;
    if i == 0 {
      assert Begins(job, run[0]) && run[0].counted == {} && run[0].err == 0 by { BeginsEmpty(job, run[0]); }
    } else {
      ErrorReported(job, run, i - 1);
      var states := ChainOf(job, run, i - 1);
      PointersAreSequential(Chain(job), states, |states| - 1);
      ErrorKept(job, run[i - 1], run[i]);
    }
  }

  lemma BeginsEmpty(job: Job, m: Machine)
    requires Begins(job, m)
    ensures m.counted == {} && m.err == 0
  {
  }

  lemma LogGrows(w: Workload, c: State, d: State)
    requires Shape(c) && Next(w, c, d)
    ensures c.log.Keys <= d.log.Keys
  {
    hide Apply, Enabled;
    var t: nat, a: Action :| t < |c.threads| && Enabled(c, t, a) && d == Apply(w, c, t, a);
    Effect(w, c, t, a);
  }

  lemma ErrorKept(job: Job, m: Machine, m': Machine)
    requires ErrorFits(job, m) && Step(job, m, m')
    requires forall n :: n in m.chain.log ==> m.chain.log[n].0 == In(Chain(job), n)
    ensures ErrorFits(job, m')
  {
    hide In, Next, CanStore, Chain;
    if ChainStep(job, m, m') {
      LogGrows(Chain(job), m.chain, m'.chain);
    } else if CountStep(job, m, m') {
      var n: nat :| CanCount(m, n) && m' == Count(job, m, n);
      assert n in m'.counted;
    }
  }

  // ------------------------------------------------------------ the end of a run

  /**
   A run over all blocks that cannot go on has given every block its place, and leaves the pointers behind the last one.
   */
  lemma AllBlocksPlaced(job: Job, worker: Worker, ins: seq<seq<byte>>, outs: seq<seq<byte>>, run: seq<State>)
    requires Serial(job, worker, ins, outs) && IsRun(Chain(job), run) && Quotas(run[0].threads) == |ins|
    requires Stuck(run[|run| - 1])
    ensures var c := run[|run| - 1];
      && (forall n: nat :: n < |ins| ==> n in c.log && c.log[n] == (|Flatten(ins[..n])|, |Flatten(outs[..n])|))
      && c.inPtr[Slot(|ins|)] == |Flatten(ins)| && c.outPtr[Slot(|ins|)] == |Flatten(outs)|
  {
    hide In, Out, Flatten, Measure, Quotas, Slot, Enabled, Serial;
    var c := run[|run| - 1];
    SerialLengths(job, worker, ins, outs);
    RunsComplete(Chain(job), run);
    forall n: nat | n < |ins| ensures n in c.log && c.log[n] == (|Flatten(ins[..n])|, |Flatten(outs[..n])|) {
      FoldIsFlattened(job, worker, ins, outs, n);
    }
    FoldIsFlattened(job, worker, ins, outs, |ins|);
    assert ins[..|ins|] == ins && outs[..|ins|] == outs;
  }

  /** With all blocks placed and nothing left to store, the serial output is in the buffer. */
  lemma AllStored(job: Job, worker: Worker, ins: seq<seq<byte>>, outs: seq<seq<byte>>, before: seq<byte>, m: Machine)
    requires Serial(job, worker, ins, outs) && LogFits(ins, outs, m.chain) && BufferFits(outs, before, m)
    requires forall n: nat :: n < |ins| ==> n in m.chain.log
    requires forall n: nat, i: nat :: !CanStore(job, m, n, i)
    ensures m.out == Flatten(outs) + before[|Flatten(outs)|..]
  {
    hide Flatten, Reported;
    forall p | 0 <= p < |Flatten(outs)| ensures m.out[p] == Flatten(outs)[p] {
      var n, i := BlockOfByte(outs, p);
      assert SerialAt(job, worker, ins, outs, n);
      assert !CanStore(job, m, n, i);
      assert StoredRight(outs, m.out, n, i);
    }
  }

  /**
   Any run of any number of threads that cannot go on: the output buffer is the serial output with the rest of the
   buffer as it was, the sum of the counts is that of the serial loop, and the chain stands behind the last block.
   */
  lemma ParallelIsSerial(job: Job, worker: Worker, ins: seq<seq<byte>>, outs: seq<seq<byte>>, run: seq<Machine>)
    requires Serial(job, worker, ins, outs) && IsMachineRun(job, run) && Quotas(run[0].chain.threads) == |ins|
    requires |Flatten(outs)| <= |run[0].out| && AllStuck(job, run[|run| - 1])
    ensures var m := run[|run| - 1];
      && m.out == Flatten(outs) + run[0].out[|Flatten(outs)|..]
      && m.total == ReportedSoFar(worker, ins, outs) && m.err == 0
      && Shape(m.chain)
      && m.chain.inPtr[Slot(|ins|)] == |Flatten(ins)| && m.chain.outPtr[Slot(|ins|)] == |Flatten(outs)|
  {
    hide Flatten, Serial, Quotas, Step, Begins, IsRun, Slot, Tally, ReportedSoFar, CanStore, Enabled, StoredRight;
    var last := |run| - 1;
    var m := run[last];
    SerialLengths(job, worker, ins, outs);
    MachineRunInv(job, worker, ins, outs, run, last);
    LogFitsRun(job, worker, ins, outs, run, last);
    var states := ChainOf(job, run, last);
    AllBlocksPlaced(job, worker, ins, outs, states);
    AllStored(job, worker, ins, outs, run[0].out, m);
    forall n: nat | n < |ins| ensures n in m.counted {
      assert !CanCount(m, n);
    }
    TallyIsReported(worker, ins, outs, m.counted, |ins|);
    assert outs[..|ins|] == outs;
  }
}
