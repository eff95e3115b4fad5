/** The whole driver around a parallel loop: what it stores is what the serial driver stores, and can be restored. */
module ParallelDriver {
  import opened Bytes
  import opened ChainSerial
  import opened BlockCodec
  import opened BlockedDriver
  import opened BitshuffleLz4
  import opened ParallelBlocks
  import opened ByteTranspose
  import IoChain
  import IoChainProgress

  /** The block function turns the blocks before q, and writes no more than the driver has room for. */
  ghost predicate Works(worker: Worker, plan: seq<nat>, es: nat, ins: seq<seq<byte>>, outs: seq<seq<byte>>, q: nat) {
    && AllTurned(worker, plan, es, ins, outs, q)
    && forall k :: 0 <= k < q ==> |outs[k]| <= MostOut(worker, plan[k], es)
  }

  /** A run of the parallel loop over the first q blocks that has come to its end, with the output buffer `before`. */
  ghost predicate LoopDone(job: Job, worker: Worker, plan: seq<nat>, es: nat, ins: seq<seq<byte>>, outs: seq<seq<byte>>,
                           q: nat, run: seq<Machine>, before: seq<byte>)
  {
    && Works(worker, plan, es, ins, outs, q) && Serial(job, worker, ins[..q], outs)
    && IsMachineRun(job, run) && IoChainProgress.Quotas(run[0].chain.threads) == q
    && run[0].out == before && AllStuck(job, run[|run| - 1])
  }

  lemma {:induction false} WorksFit(worker: Worker, plan: seq<nat>, es: nat, ins: seq<seq<byte>>, outs: seq<seq<byte>>,
                                    q: nat, k: nat)
    requires Works(worker, plan, es, ins, outs, q) && k <= q
    ensures |Flatten(outs[..k])| <= Capacity(worker, plan[..k], es)
  {
    hide Turns, MostOut, Flatten, Capacity;
    if k == 0 {
      assert outs[..0] == [];
      FlattenEmpty();
    } else {
      WorksFit(worker, plan, es, ins, outs, q, k - 1);
      FlattenNext(outs, k - 1);
      CapacityNext(worker, plan, es, k - 1);
    }
  }

  lemma WorksLengths(worker: Worker, plan: seq<nat>, es: nat, ins: seq<seq<byte>>, outs: seq<seq<byte>>, q: nat)
    requires Works(worker, plan, es, ins, outs, q)
    ensures q <= |plan| == |ins| && |outs| == q && outs[..q] == outs && AllTurned(worker, plan, es, ins, outs, q)
  {
    hide Turns, MostOut;
  }

  /** Where the parallel loop leaves buffer, count, error and chain. */
  lemma LoopLeaves(job: Job, worker: Worker, plan: seq<nat>, es: nat, ins: seq<seq<byte>>, outs: seq<seq<byte>>, q: nat,
                   run: seq<Machine>, before: seq<byte>)
    requires LoopDone(job, worker, plan, es, ins, outs, q, run, before) && Capacity(worker, plan, es) <= |before|
    ensures q <= |plan| == |ins| && |outs| == q && AllTurned(worker, plan, es, ins, outs, q) && run != []
    ensures |Flatten(outs)| <= Capacity(worker, plan[..q], es) && |Flatten(outs)| <= |before|
    ensures var m := run[|run| - 1];
      && m.out == Flatten(outs) + before[|Flatten(outs)|..]
      && m.total == ReportedSoFar(worker, ins, outs) && m.err == 0
      && IoChain.Shape(m.chain)
      && m.chain.inPtr[IoChain.Slot(q)] == |Flatten(ins[..q])| && m.chain.outPtr[IoChain.Slot(q)] == |Flatten(outs)|
  {
    hide Flatten, Capacity, Works, AllTurned, Serial, IoChainProgress.Quotas, AllStuck, Begins, Step, IoChain.Slot;
    hide ReportedSoFar;
    WorksLengths(worker, plan, es, ins, outs, q);
    WorksFit(worker, plan, es, ins, outs, q, q);
    CapacityPrefix(worker, plan, es, q);
    ParallelIsSerial(job, worker, ins[..q], outs, run);
    SameReport(worker, ins, outs, q);
  }

  lemma SameReport(worker: Worker, ins: seq<seq<byte>>, outs: seq<seq<byte>>, q: nat)
    requires |outs| == q <= |ins|
    ensures ReportedSoFar(worker, ins[..q], outs) == ReportedSoFar(worker, ins, outs)
  {
    assert ins[..q][..q] == ins[..q];
  }

  lemma LoopReached(worker: Worker, plan: seq<nat>, es: nat, ins: seq<seq<byte>>, outs: seq<seq<byte>>, q: nat,
                    chain: IocChain, before: seq<byte>, done: seq<byte>)
    requires |outs| == q && AllTurned(worker, plan, es, ins, outs, q)
    requires Stands(chain, |Flatten(ins[..q])|, |Flatten(outs)|)
    requires |Flatten(outs)| <= Capacity(worker, plan[..q], es) && |Flatten(outs)| <= |before|
    requires done == Flatten(outs) + before[|Flatten(outs)|..]
    ensures Reached(worker, plan, es, ins, outs, q, chain, done)
    ensures |done| == |before| && done[|Flatten(outs)|..] == before[|Flatten(outs)|..]
  {
    hide Flatten, Capacity, AllTurned, Stands;
  }

  /** The chain goes on where the parallel loop over q blocks has left it. */
  ghost predicate Continues(chain: IocChain, c: IoChain.State, q: nat)
    reads chain, chain.inPl, chain.outPl
  {
    && IoChain.Shape(c) && chain.Valid()
    && chain.In() == c.inPtr[IoChain.Slot(q)] && chain.Out() == c.outPtr[IoChain.Slot(q)]
  }

  /**
   bshuf_blocked_wrap_fun behind its parallel loop, from what any finished run of that loop leaves: the partial block
   and the leftover bytes. The result is that of the serial driver.
   */
  method FinishWrap(worker: Worker, host: Host, chain: IocChain, inp: seq<byte>, out: array<byte>, size: nat, es: nat,
                    bs: nat, cum0: int, err0: int, ghost ins: seq<seq<byte>>, ghost outs0: seq<seq<byte>>,
                    ghost job: Job, ghost run: seq<Machine>, ghost before: seq<byte>)
      returns (total: int, ghost outs: seq<seq<byte>>)
    requires bs > 0 && bs % BLOCKED_MULT == 0 && |before| == out.Length
    requires Supplied(worker, Plan(size, bs), es, ins, inp, Leftover(size, es), |before|)
    requires LoopDone(job, worker, Plan(size, bs), es, ins, outs0, Full(size, bs), run, before)
    requires var m := run[|run| - 1];
      out[..] == m.out && cum0 == m.total && err0 == m.err && Continues(chain, m.chain, Full(size, bs))
    modifies chain, chain.inPl, chain.outPl, out
    ensures Wrapped(worker, Plan(size, bs), es, ins, inp, Leftover(size, es), outs, before, out[..], total)
  {
    hide Flatten, Capacity, Reached, ReportedSoFar, Plan, Full, LastBlock, Leftover, Feeds, AllTurned, LoopDone;
    hide IoChain.Slot;
    ghost var plan := Plan(size, bs);
    LoopLeaves(job, worker, plan, es, ins, outs0, Full(size, bs), run, before);
    LoopReached(worker, plan, es, ins, outs0, Full(size, bs), chain, before, out[..]);
    PlanAt(size, bs);
    SameRemainder(size, bs);
    ghost var prev := out[..];
    var cum, err;
    cum, err, outs := PartialBlock(worker, host, chain, inp, out, LastBlock(size, bs), es, cum0, plan, ins, outs0,
                                   Full(size, bs));
    if err0 < 0 {
      err := err0;
    }
    TailKept(before, prev, out[..], |Flatten(outs0)|, |Flatten(outs)|);
    if err < 0 {
      return err, outs;
    }
    CopyLeftover(chain, inp, out, Leftover(size, es), worker, plan, es, ins, outs, before);
    total := cum + Leftover(size, es);
  }

  /** The blocks of a buffer. */
  ghost function Blocks(data: seq<byte>, size: nat, es: nat, bs: nat): seq<seq<byte>>
    requires bs > 0 && bs % BLOCKED_MULT == 0 && |data| == size * es
  {
    Whole(size, bs, es);
    Cut(data, Plan(size, bs), es)
  }

  /** bshuf_bitshuffle, bshuf_bitunshuffle and bshuf_compress_lz4 with a parallel loop leave the stored form. */
  method StoreParallel(worker: Worker, host: Host, chain: IocChain, inp: seq<byte>, out: array<byte>, size: nat,
                       es: nat, bs: nat, cum0: int, err0: int, ghost outs0: seq<seq<byte>>, ghost job: Job,
                       ghost run: seq<Machine>, ghost before: seq<byte>)
      returns (count: int)
    requires worker != DecompressLz4 && bs > 0 && bs % BLOCKED_MULT == 0 && |inp| == size * es
    requires MostStored(worker, size, es, bs) <= out.Length == |before|
    requires LoopDone(job, worker, Plan(size, bs), es, Blocks(inp, size, es, bs), outs0, Full(size, bs), run, before)
    requires var m := run[|run| - 1];
      out[..] == m.out && cum0 == m.total && err0 == m.err && Continues(chain, m.chain, Full(size, bs))
    modifies chain, chain.inPl, chain.outPl, out
    ensures 0 <= count <= MostStored(worker, size, es, bs) <= out.Length == |before|
    ensures IsStored(worker, inp, out[..count], size, es, bs) && out[count..] == before[count..]
  {
    hide Plan, Cut, Capacity, Flatten, PlanBytes, StoredAs, Wrapped, Leftover, LoopDone, Continues, Full;
    ghost var left, outs := Leftover(size, es), [];
    Whole(size, bs, es);
    ghost var ins := StoreBegins(worker, inp, Plan(size, bs), es, left, out.Length);
    count, outs := FinishWrap(worker, host, chain, inp, out, size, es, bs, cum0, err0, ins, outs0, job, run, before);
    StoreEnds(worker, inp, before, out[..], Plan(size, bs), es, left, ins, outs, count);
  }

  /** What a parallel compression has stored, with any bytes behind it, is decompressed to the data on any host. */
  method RoundTripParallel(host: Host, reader: Host, chain: IocChain, data: seq<byte>, out: array<byte>, size: nat,
                           es: nat, bs: nat, cum0: int, err0: int, behind: seq<byte>, ghost outs0: seq<seq<byte>>,
                           ghost job: Job, ghost run: seq<Machine>, ghost before: seq<byte>)
      returns (written: int, restored: seq<byte>, used: int)
    requires bs > 0 && bs % BLOCKED_MULT == 0 && |data| == size * es && Restorable(CompressLz4, size, es, bs)
    requires MostStored(CompressLz4, size, es, bs) <= out.Length == |before|
    requires var plan, ins := Plan(size, bs), Blocks(data, size, es, bs);
      LoopDone(job, CompressLz4, plan, es, ins, outs0, Full(size, bs), run, before)
    requires var m := run[|run| - 1];
      out[..] == m.out && cum0 == m.total && err0 == m.err && Continues(chain, m.chain, Full(size, bs))
    modifies chain, chain.inPl, chain.outPl, out
    ensures restored == data && written == used
  {
    hide Plan, IsStored, LoopDone, Continues, Full, Blocks, MostStored, Restorable;
    written := StoreParallel(CompressLz4, host, chain, data, out, size, es, bs, cum0, err0, outs0, job, run, before);
    var compressed := out[..written];
    var back := new byte[size * es];
    used := Restore(CompressLz4, reader, compressed + behind, back, size, es, bs, data, compressed);
    restored := back[..size * es];
  }
}
