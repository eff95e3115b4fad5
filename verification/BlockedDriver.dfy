/** The blocked driver: a whole buffer as full blocks, a last partial block, and raw leftover elements. */
module BlockedDriver {
  import opened Basics
  import opened Bytes
  import opened ChainSerial
  import opened BlockCodec
  import opened ByteTranspose

  const TARGET_BLOCK_SIZE := 8192
  const MIN_RECOMMENDED := 128
  const BAD_BLOCK_SIZE := -81

  /** bshuf_default_block_size. */
  function DefaultBlockSize(es: nat): (r: nat)
    requires es > 0
    ensures r > 0
  {
    var fit := TARGET_BLOCK_SIZE / es / BLOCKED_MULT * BLOCKED_MULT;
    if fit > MIN_RECOMMENDED then fit else MIN_RECOMMENDED
  }

  /** The default is a legal block size: the largest that keeps a block within the target, but at least the minimum. */
  lemma DefaultIsLargest(es: nat)
    requires es > 0
    ensures var r := DefaultBlockSize(es);
      && r % BLOCKED_MULT == 0 && r >= MIN_RECOMMENDED && (r > MIN_RECOMMENDED ==> r * es <= TARGET_BLOCK_SIZE)
      && forall b :: b % BLOCKED_MULT == 0 && b > r ==> b * es > TARGET_BLOCK_SIZE
  {
    var q, r := TARGET_BLOCK_SIZE / es, DefaultBlockSize(es);
    Quotient(TARGET_BLOCK_SIZE, es);
    if r > MIN_RECOMMENDED {
      MulMonotone(r, q, es);
    }
    forall b | b % BLOCKED_MULT == 0 && b > r ensures b * es > TARGET_BLOCK_SIZE {
      assert b >= q + 1;
      MulMonotone(q + 1, b, es);
    }
  }

  /** The block size in effect: zero asks for the default. */
  function Effective(blockSize: nat, es: nat): (r: nat)
    requires es > 0 || blockSize > 0
    ensures r > 0
  {
    if blockSize == 0 then DefaultBlockSize(es) else blockSize
  }

  // ------------------------------------------------------------ the plan of a buffer

  /** The number of full blocks. */
  function Full(size: nat, bs: nat): nat
    requires bs > 0
  {
    size / bs
  }

  /** The partial block: what is left after the full blocks, rounded down to eights. */
  function LastBlock(size: nat, bs: nat): nat
    requires bs > 0
  {
    size % bs - size % bs % BLOCKED_MULT
  }

  /** The element counts of the blocks, in order. */
  function Plan(size: nat, bs: nat): seq<nat>
    requires bs > 0
  {
    seq(Full(size, bs), _ => bs) + if LastBlock(size, bs) > 0 then [LastBlock(size, bs)] else []
  }

  lemma PlanAt(size: nat, bs: nat)
    requires bs > 0
    ensures forall j :: 0 <= j < Full(size, bs) ==> Plan(size, bs)[j] == bs
    ensures |Plan(size, bs)| == Full(size, bs) + if LastBlock(size, bs) > 0 then 1 else 0
    ensures LastBlock(size, bs) > 0 ==> Plan(size, bs)[Full(size, bs)] == LastBlock(size, bs)
  {
    hide Full, LastBlock;
  }

  function Elements(plan: seq<nat>): nat {
    if plan == [] then 0 else Elements(plan[..|plan| - 1]) + plan[|plan| - 1]
  }

  lemma {:induction false} ElementsOfFull(k: nat, bs: nat)
    ensures Elements(seq(k, _ => bs)) == k * bs
  {
    if k > 0 {
      var s := seq(k, _ => bs);
      assert s[..k - 1] == seq(k - 1, _ => bs);
      ElementsOfFull(k - 1, bs);
      assert k * bs == (k - 1) * bs + bs;
    }
  }

  /** The blocks hold all elements but the last size % 8. */
  lemma PlanCovers(size: nat, bs: nat)
    requires bs > 0 && bs % BLOCKED_MULT == 0
    ensures Elements(Plan(size, bs)) == size - size % BLOCKED_MULT
    ensures forall k :: 0 <= k < |Plan(size, bs)| ==> Plan(size, bs)[k] % BLOCKED_MULT == 0 && Plan(size, bs)[k] <= bs
  {
    hide Full, LastBlock, Plan, Elements;
    PlanAt(size, bs);
    ElementsOfPlan(size, bs);
    SameRemainder(size, bs);
  }

  lemma ElementsOfPlan(size: nat, bs: nat)
    requires bs > 0
    ensures Elements(Plan(size, bs)) == Full(size, bs) * bs + LastBlock(size, bs)
  {
    hide Full, LastBlock;
    var full, last := seq(Full(size, bs), _ => bs), LastBlock(size, bs);
    ElementsOfFull(Full(size, bs), bs);
    if last > 0 {
      assert (full + [last])[..|full|] == full;
    } else {
      assert full + [] == full;
    }
  }

  /** The full blocks hold whole eights, so the partial block drops the same elements as the buffer. */
  lemma SameRemainder(size: nat, bs: nat)
    requires bs > 0 && bs % BLOCKED_MULT == 0
    ensures Full(size, bs) * bs + LastBlock(size, bs) == size - size % BLOCKED_MULT
    ensures LastBlock(size, bs) % BLOCKED_MULT == 0 && LastBlock(size, bs) <= bs
  {
    Euclid(size, bs);
    Euclid(bs, BLOCKED_MULT);
    Remainders(size, size / bs, bs, bs / BLOCKED_MULT, size % bs);
  }

  lemma Euclid(n: nat, d: nat)
    requires d > 0
    ensures n == n / d * d + n % d && n % d < d
  {
  }

  lemma Remainders(size: nat, q: nat, bs: nat, m: nat, rest: nat)
    requires size == q * bs + rest && bs == BLOCKED_MULT * m && rest < bs
    ensures q * bs + (rest - rest % BLOCKED_MULT) == size - size % BLOCKED_MULT
    ensures (rest - rest % BLOCKED_MULT) % BLOCKED_MULT == 0
  {
    EightTimes(q, m);
    EightsBelow(q * bs, q * m, rest);
  }

  lemma EightTimes(q: nat, m: nat)
    ensures q * (BLOCKED_MULT * m) == BLOCKED_MULT * (q * m)
  {
  }

  lemma EightsBelow(whole: nat, k: nat, rest: nat)
    requires whole == BLOCKED_MULT * k
    ensures (whole + rest) % BLOCKED_MULT == rest % BLOCKED_MULT
  {
  }

  function Flatten(ss: seq<seq<byte>>): seq<byte> {
    if ss == [] then [] else Flatten(ss[..|ss| - 1]) + ss[|ss| - 1]
  }

  /** The most that the workers of a plan write. */
  function Capacity(worker: Worker, plan: seq<nat>, es: nat): nat {
    if plan == [] then 0 else Capacity(worker, plan[..|plan| - 1], es) + MostOut(worker, plan[|plan| - 1], es)
  }

  lemma {:induction false} CapacityPrefix(worker: Worker, plan: seq<nat>, es: nat, k: nat)
    requires k <= |plan|
    ensures Capacity(worker, plan[..k], es) <= Capacity(worker, plan, es)
    decreases |plan| - k
  {
    if k == |plan| {
      assert plan[..k] == plan;
    } else {
      CapacityPrefix(worker, plan, es, k + 1);
      CapacityNext(worker, plan, es, k);
    }
  }

  lemma CapacityNext(worker: Worker, plan: seq<nat>, es: nat, k: nat)
    requires k < |plan|
    ensures Capacity(worker, plan[..k + 1], es) == Capacity(worker, plan[..k], es) + MostOut(worker, plan[k], es)
  {
    assert plan[..k + 1][..k] == plan[..k];
  }

  lemma FlattenNext(ss: seq<seq<byte>>, k: nat)
    requires k < |ss|
    ensures Flatten(ss[..k + 1]) == Flatten(ss[..k]) + ss[k]
  {
    assert ss[..k + 1][..k] == ss[..k];
  }

  lemma {:induction false} FlattenPrefix(ss: seq<seq<byte>>, k: nat)
    requires k <= |ss|
    ensures Flatten(ss[..k]) <= Flatten(ss)
    decreases |ss| - k
  {
    if k == |ss| {
      assert ss[..k] == ss;
    } else {
      FlattenPrefix(ss, k + 1);
      FlattenNext(ss, k);
      Within(Flatten(ss[..k]), ss[k], Flatten(ss));
    }
  }

  lemma Within(a: seq<byte>, b: seq<byte>, c: seq<byte>)
    requires a + b <= c
    ensures a <= c
    ensures c[|a|..|a| + |b|] == b
  {
    assert c[..|a + b|] == a + b;
    assert c[..|a|] == (a + b)[..|a|];
    assert c[|a|..|a| + |b|] == (a + b)[|a|..];
  }

  // ------------------------------------------------------------ a run over the plan

  /** The blocks before k have been turned, one after the other. */
  ghost predicate AllTurned(worker: Worker, plan: seq<nat>, es: nat, ins: seq<seq<byte>>, outs: seq<seq<byte>>,
                            k: nat)
  {
    && k <= |plan| == |ins| && |outs| == k
    && forall j :: 0 <= j < k ==> Turns(worker, ins[j], outs[j], plan[j], es)
  }

  /** The input that a driver needs: the blocks of the plan can be read, one after the other. */
  ghost predicate Feeds(worker: Worker, plan: seq<nat>, es: nat, ins: seq<seq<byte>>, inp: seq<byte>) {
    && |ins| == |plan| && Flatten(ins) <= inp
    && forall j :: 0 <= j < |plan| ==> Readable(worker, ins[j], plan[j], es)
  }

  /** The bytes that a worker reports. */
  function Reported(worker: Worker, x: seq<byte>, y: seq<byte>): nat {
    if worker == DecompressLz4 then |x| else |y|
  }

  /** The call that decompresses, on a block that can be read. */
  method RunDecompress(host: Host, chain: IocChain, inp: seq<byte>, out: array<byte>, n: nat, es: nat, ghost i: nat,
                       ghost o: nat, ghost x: seq<byte>)
      returns (count: int, ghost y: seq<byte>)
    requires n % 8 == 0 && Stands(chain, i, o) && Readable(DecompressLz4, x, n, es)
    requires i + |x| <= |inp| && inp[i..i + |x|] == x && o + n * es <= out.Length
    modifies chain, chain.inPl, chain.outPl, out
    ensures Turns(DecompressLz4, x, y, n, es) && |y| == n * es && count == |x|
    ensures Stands(chain, i + |x|, o + |y|)
    ensures out[..] == old(out[..o]) + y + old(out[o + |y|..])
  {
    hide Turns, Readable, BlockAt, Announced;
    ghost var b := ReadableAt(inp, i, x, n, es);
    count, y := DecompressBlock(host, chain, inp, out, n, es, i, o, b);
  }

  /** One call of the block function. */
  method RunWorker(worker: Worker, host: Host, chain: IocChain, inp: seq<byte>, out: array<byte>, n: nat, es: nat,
                   ghost i: nat, ghost o: nat, ghost x: seq<byte>)
      returns (count: int, ghost y: seq<byte>)
    requires n % 8 == 0 && Stands(chain, i, o) && Readable(worker, x, n, es)
    requires i + |x| <= |inp| && inp[i..i + |x|] == x && o + MostOut(worker, n, es) <= out.Length
    modifies chain, chain.inPl, chain.outPl, out
    ensures Turns(worker, x, y, n, es) && |y| <= MostOut(worker, n, es) && count == Reported(worker, x, y)
    ensures Stands(chain, i + |x|, o + |y|)
    ensures out[..] == old(out[..o]) + y + old(out[o + |y|..])
  {
    hide Turns, Stands;
    match worker {
      case Bitshuffle => count, y := ShuffleBlock(false, host, chain, inp, out, n, es, i, o);
      case Bitunshuffle => count, y := ShuffleBlock(true, host, chain, inp, out, n, es, i, o);
      case CompressLz4 => count, y := CompressBlock(host, chain, inp, out, n, es, i, o);
      case DecompressLz4 => count, y := RunDecompress(host, chain, inp, out, n, es, i, o, x);
    }
  }

  /** The k blocks turned so far stand at the front of the output, and the chain stands behind them. */
  ghost predicate Reached(worker: Worker, plan: seq<nat>, es: nat, ins: seq<seq<byte>>, outs: seq<seq<byte>>, k: nat,
                      chain: IocChain, done: seq<byte>)
    reads chain, chain.inPl, chain.outPl
  {
    && AllTurned(worker, plan, es, ins, outs, k)
    && Stands(chain, |Flatten(ins[..k])|, |Flatten(outs)|)
    && |Flatten(outs)| <= Capacity(worker, plan[..k], es)
    && Flatten(outs) <= done
  }

  lemma Spliced(a: seq<byte>, y: seq<byte>, before: seq<byte>, now: seq<byte>)
    requires a <= before && |a| + |y| <= |before| && now == before[..|a|] + y + before[|a| + |y|..]
    ensures |now| == |before| && a + y <= now && now[|a + y|..] == before[|a + y|..]
  {
    assert before[..|a|] == a;
  }

  lemma TurnedNext(worker: Worker, plan: seq<nat>, es: nat, ins: seq<seq<byte>>, outs: seq<seq<byte>>, k: nat,
                   y: seq<byte>)
    requires AllTurned(worker, plan, es, ins, outs, k) && k < |plan| && Turns(worker, ins[k], y, plan[k], es)
    ensures AllTurned(worker, plan, es, ins, outs + [y], k + 1)
    ensures Flatten(outs + [y]) == Flatten(outs) + y
  {
    hide Turns;
    assert (outs + [y])[..k] == outs;
  }

  /** Block k of the plan. */
  method NextBlock(worker: Worker, host: Host, chain: IocChain, inp: seq<byte>, out: array<byte>, n: nat, es: nat,
                   ghost plan: seq<nat>, ghost ins: seq<seq<byte>>, ghost outs: seq<seq<byte>>, ghost k: nat)
      returns (count: int, ghost outs': seq<seq<byte>>)
    requires k < |plan| && n == plan[k] && n % 8 == 0 && Feeds(worker, plan, es, ins, inp)
    requires Capacity(worker, plan, es) <= out.Length
    requires Reached(worker, plan, es, ins, outs, k, chain, out[..])
    modifies chain, chain.inPl, chain.outPl, out
    ensures Reached(worker, plan, es, ins, outs', k + 1, chain, out[..])
    ensures |outs'| == k + 1 && outs'[..k] == outs && count == Reported(worker, ins[k], outs'[k])
    ensures |Flatten(outs)| <= |Flatten(outs')| <= out.Length
    ensures out[|Flatten(outs')|..] == old(out[..])[|Flatten(outs')|..]
  {
    hide Turns, Stands, Readable, MostOut, Flatten, Capacity;
    ghost var i, o, x := |Flatten(ins[..k])|, |Flatten(outs)|, ins[k];
    FlattenPrefix(ins, k + 1);
    FlattenNext(ins, k);
    Within(Flatten(ins[..k]), x, inp);
    CapacityPrefix(worker, plan, es, k + 1);
    CapacityNext(worker, plan, es, k);
    ghost var before := out[..];
    ghost var y;
    count, y := RunWorker(worker, host, chain, inp, out, n, es, i, o, x);
    outs' := outs + [y];
    TurnedNext(worker, plan, es, ins, outs, k, y);
    Spliced(Flatten(outs), y, before, out[..]);
  }

  lemma NothingReached(worker: Worker, plan: seq<nat>, es: nat, ins: seq<seq<byte>>, chain: IocChain, done: seq<byte>)
    requires |ins| == |plan| && Stands(chain, 0, 0)
    ensures Reached(worker, plan, es, ins, [], 0, chain, done)
  {
    hide Stands;
  }

  /** The bytes that the calls so far have reported. */
  function ReportedSoFar(worker: Worker, ins: seq<seq<byte>>, outs: seq<seq<byte>>): nat
  {
    if worker == DecompressLz4 && |outs| <= |ins| then |Flatten(ins[..|outs|])| else |Flatten(outs)|
  }

  lemma ReportedNext(worker: Worker, ins: seq<seq<byte>>, outs: seq<seq<byte>>, k: nat)
    requires k + 1 == |outs| <= |ins|
    ensures ReportedSoFar(worker, ins, outs) ==
      ReportedSoFar(worker, ins, outs[..k]) + Reported(worker, ins[k], outs[k])
  {
    FlattenNext(ins, k);
    FlattenNext(outs, k);
    assert outs[..k + 1] == outs;
  }

  /** The loop over the full blocks. */
  method FullBlocks(worker: Worker, host: Host, chain: IocChain, inp: seq<byte>, out: array<byte>, blocks: nat,
                    es: nat, bs: nat,
                    ghost plan: seq<nat>, ghost ins: seq<seq<byte>>)
      returns (cum: int, err: int, ghost outs: seq<seq<byte>>)
    requires bs % 8 == 0 && blocks <= |plan| && (forall k :: 0 <= k < blocks ==> plan[k] == bs)
    requires Feeds(worker, plan, es, ins, inp)
    requires Capacity(worker, plan, es) <= out.Length && Reached(worker, plan, es, ins, [], 0, chain, out[..])
    modifies chain, chain.inPl, chain.outPl, out
    ensures Reached(worker, plan, es, ins, outs, blocks, chain, out[..])
    ensures |outs| == blocks && cum == ReportedSoFar(worker, ins, outs) && err == 0
    ensures |Flatten(outs)| <= out.Length && out[|Flatten(outs)|..] == old(out[..])[|Flatten(outs)|..]
  {
    hide Turns, Stands, Readable, MostOut, Flatten, Capacity, Reached, ReportedSoFar, Reported;
    ghost var before := out[..];
    cum, err, outs := 0, 0, [];
    NothingReported(worker, ins);
    var ii := 0;
    while ii < blocks
      invariant ii <= blocks && |outs| == ii && Reached(worker, plan, es, ins, outs, ii, chain, out[..])
      invariant cum == ReportedSoFar(worker, ins, outs) && err == 0
      invariant |Flatten(outs)| <= out.Length && out[|Flatten(outs)|..] == before[|Flatten(outs)|..]
    {
      ghost var outs0, prev := outs, out[..];
      var count;
      count, outs := NextBlock(worker, host, chain, inp, out, bs, es, plan, ins, outs0, ii);
      if count < 0 {
        err := count;
      }
      cum := cum + count;
      ReportedNext(worker, ins, outs, ii);
      TailKept(before, prev, out[..], |Flatten(outs0)|, |Flatten(outs)|);
      ii := ii + 1;
    }
  }

  lemma TailKept(a: seq<byte>, b: seq<byte>, c: seq<byte>, m: nat, n: nat)
    requires m <= n <= |a| == |b| == |c| && b[m..] == a[m..] && c[n..] == b[n..]
    ensures c[n..] == a[n..]
  {
    assert b[n..] == b[m..][n - m..] && a[n..] == a[m..][n - m..];
  }

  lemma NothingReported(worker: Worker, ins: seq<seq<byte>>)
    ensures ReportedSoFar(worker, ins, []) == 0 && Flatten([]) == []
  {
  }

  /** The bytes of the elements that fill no block of eight. */
  function Leftover(size: nat, es: nat): nat {
    size % BLOCKED_MULT * es
  }

  /** The driver finds the blocks of the plan and `left` more bytes, and has room for its worst output. */
  ghost predicate Supplied(worker: Worker, plan: seq<nat>, es: nat, ins: seq<seq<byte>>, inp: seq<byte>, left: nat,
                           room: nat)
  {
    && Feeds(worker, plan, es, ins, inp) && |Flatten(ins)| + left <= |inp|
    && Capacity(worker, plan, es) + left <= room
  }

  /**
   The output is the blocks, turned in order, then the leftover bytes as they are; nothing behind them has changed.
   */
  ghost predicate Wrapped(worker: Worker, plan: seq<nat>, es: nat, ins: seq<seq<byte>>, inp: seq<byte>, left: nat,
                          outs: seq<seq<byte>>, before: seq<byte>, now: seq<byte>, total: int)
    requires |Flatten(ins)| + left <= |inp| && Capacity(worker, plan, es) + left <= |before|
  {
    && AllTurned(worker, plan, es, ins, outs, |plan|)
    && |Flatten(outs)| <= Capacity(worker, plan, es)
    && now == Flatten(outs) + inp[|Flatten(ins)|..|Flatten(ins)| + left] + before[|Flatten(outs)| + left..]
    && total == ReportedSoFar(worker, ins, outs) + left
  }

  /** The call for the partial block, if there is one. */
  method PartialBlock(worker: Worker, host: Host, chain: IocChain, inp: seq<byte>, out: array<byte>, last: nat,
                      es: nat, cum0: int, ghost plan: seq<nat>, ghost ins: seq<seq<byte>>,
                      ghost outs0: seq<seq<byte>>, ghost blocks: nat)
      returns (cum: int, err: int, ghost outs: seq<seq<byte>>)
    requires last % 8 == 0 && |plan| == blocks + (if last > 0 then 1 else 0) && (last > 0 ==> plan[blocks] == last)
    requires Feeds(worker, plan, es, ins, inp) && Capacity(worker, plan, es) <= out.Length
    requires Reached(worker, plan, es, ins, outs0, blocks, chain, out[..]) && |outs0| == blocks
    requires cum0 == ReportedSoFar(worker, ins, outs0) && |Flatten(outs0)| <= out.Length
    modifies chain, chain.inPl, chain.outPl, out
    ensures Reached(worker, plan, es, ins, outs, |plan|, chain, out[..]) && |outs| == |plan|
    ensures cum == ReportedSoFar(worker, ins, outs) && err == 0
    ensures |Flatten(outs0)| <= |Flatten(outs)| <= out.Length
    ensures out[|Flatten(outs)|..] == old(out[..])[|Flatten(outs)|..]
  {
    hide Turns, Stands, Readable, MostOut, Flatten, Capacity, Reached, ReportedSoFar, Reported;
    cum, err, outs := cum0, 0, outs0;
    if last > 0 {
      var count;
      count, outs := NextBlock(worker, host, chain, inp, out, last, es, plan, ins, outs0, blocks);
      if count < 0 {
        err := count;
      }
      cum := cum + count;
      ReportedNext(worker, ins, outs, blocks);
    }
  }

  /** All blocks of the plan: the loop over the full ones, then the partial one. */
  method AllBlocks(worker: Worker, host: Host, chain: IocChain, inp: seq<byte>, out: array<byte>, size: nat, es: nat,
                   bs: nat, ghost ins: seq<seq<byte>>)
      returns (cum: int, err: int, ghost outs: seq<seq<byte>>)
    requires bs > 0 && bs % BLOCKED_MULT == 0 && Stands(chain, 0, 0)
    requires Feeds(worker, Plan(size, bs), es, ins, inp) && Capacity(worker, Plan(size, bs), es) <= out.Length
    modifies chain, chain.inPl, chain.outPl, out
    ensures Reached(worker, Plan(size, bs), es, ins, outs, |Plan(size, bs)|, chain, out[..])
    ensures |outs| == |Plan(size, bs)| && cum == ReportedSoFar(worker, ins, outs) && err == 0
    ensures |Flatten(outs)| <= out.Length && out[|Flatten(outs)|..] == old(out[..])[|Flatten(outs)|..]
  {
    hide Turns, Stands, Readable, Flatten, Capacity, Reached, ReportedSoFar, Plan, Full, LastBlock, Feeds;
    ghost var plan, before := Plan(size, bs), out[..];
    FeedsLength(worker, plan, es, ins, inp);
    NothingReached(worker, plan, es, ins, chain, out[..]);
    PlanAt(size, bs);
    SameRemainder(size, bs);
    cum, err, outs := FullBlocks(worker, host, chain, inp, out, Full(size, bs), es, bs, plan, ins);
    ghost var outs0, prev := outs, out[..];
    var again;
    cum, again, outs := PartialBlock(worker, host, chain, inp, out, LastBlock(size, bs), es, cum, plan, ins, outs0,
                                     Full(size, bs));
    if again < 0 {
      err := again;
    }
    TailKept(before, prev, out[..], |Flatten(outs0)|, |Flatten(outs)|);
  }

  lemma FeedsLength(worker: Worker, plan: seq<nat>, es: nat, ins: seq<seq<byte>>, inp: seq<byte>)
    requires Feeds(worker, plan, es, ins, inp)
    ensures |ins| == |plan|
  {
    hide Readable;
  }

  /** bshuf_blocked_wrap_fun. `ins` are the blocks of the input and `outs` the blocks of the output. */
  method Wrap(worker: Worker, host: Host, inp: seq<byte>, out: array<byte>, size: nat, es: nat, blockSize: nat,
              ghost ins: seq<seq<byte>>)
      returns (total: int, ghost outs: seq<seq<byte>>)
    requires es > 0 || blockSize > 0
    requires var bs := Effective(blockSize, es);
      bs % BLOCKED_MULT == 0 ==> Supplied(worker, Plan(size, bs), es, ins, inp, Leftover(size, es), out.Length)
    modifies out
    ensures Effective(blockSize, es) % BLOCKED_MULT != 0 ==> total == BAD_BLOCK_SIZE && out[..] == old(out[..])
    ensures var bs := Effective(blockSize, es); bs % BLOCKED_MULT == 0 ==>
      Wrapped(worker, Plan(size, bs), es, ins, inp, Leftover(size, es), outs, old(out[..]), out[..], total)
  {
    hide Flatten, Capacity, Reached, ReportedSoFar, Plan, Effective, Leftover, Feeds, AllTurned;
    var chain := new IocChain(0, 0);
    var bs := Effective(blockSize, es);
    if bs % BLOCKED_MULT != 0 {
      return BAD_BLOCK_SIZE, [];
    }
    ghost var plan, before := Plan(size, bs), out[..];
    FeedsLength(worker, plan, es, ins, inp);
    ChainStands(chain);
    var cum, err;
    cum, err, outs := AllBlocks(worker, host, chain, inp, out, size, es, bs, ins);
    if err < 0 {
      return err, outs;
    }
    CopyLeftover(chain, inp, out, Leftover(size, es), worker, plan, es, ins, outs, before);
    total := cum + Leftover(size, es);
  }

  lemma ChainStands(chain: IocChain)
    requires chain.Valid() && chain.In() == 0 && chain.Out() == 0
    ensures Stands(chain, 0, 0)
  {
  }

  lemma Placed(f: seq<byte>, left: seq<byte>, prev: seq<byte>, now: seq<byte>, before: seq<byte>)
    requires f <= prev && |f| + |left| <= |prev| == |before| && prev[|f|..] == before[|f|..]
    requires now == prev[..|f|] + left + prev[|f| + |left|..]
    ensures now == f + left + before[|f| + |left|..]
  {
    assert prev[|f| + |left|..] == prev[|f|..][|left|..] && before[|f| + |left|..] == before[|f|..][|left|..];
  }

  /** The last iteration of the chain: the leftover bytes are copied as they are. */
  method CopyLeftover(chain: IocChain, inp: seq<byte>, out: array<byte>, leftover: nat,
                      ghost worker: Worker, ghost plan: seq<nat>, ghost es: nat, ghost ins: seq<seq<byte>>,
                      ghost outs: seq<seq<byte>>, ghost before: seq<byte>)
    requires |ins| == |plan| && Reached(worker, plan, es, ins, outs, |plan|, chain, out[..])
    requires |Flatten(ins)| + leftover <= |inp| && Capacity(worker, plan, es) + leftover <= out.Length == |before|
    requires out[|Flatten(outs)|..] == before[|Flatten(outs)|..]
    modifies chain, chain.inPl, chain.outPl, out
    ensures AllTurned(worker, plan, es, ins, outs, |plan|) && |Flatten(outs)| <= Capacity(worker, plan, es)
    ensures out[..] ==
      Flatten(outs) + inp[|Flatten(ins)|..|Flatten(ins)| + leftover] + before[|Flatten(outs)| + leftover..]
  {
    hide Flatten, Capacity, AllTurned;
    assert ins[..|plan|] == ins && plan[..|plan|] == plan;
    ghost var prev, o := out[..], |Flatten(outs)|;
    var iter, ip := chain.GetIn();
    chain.SetNextIn(iter, ip + leftover);
    var op := chain.GetOut(iter);
    chain.SetNextOut(iter, op + leftover);
    CopyTo(out, op, inp[ip..ip + leftover]);
    Placed(Flatten(outs), inp[ip..ip + leftover], prev, out[..], before);
  }
}
