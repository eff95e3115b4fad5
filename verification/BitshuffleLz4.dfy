/** The public functions: compress and decompress whole buffers, and the bound on the result. */
module BitshuffleLz4 {
  import opened Basics
  import opened Bytes
  import opened Lz4Format
  import opened BlockCodec
  import opened BlockedDriver
  import opened ByteTranspose
  import ByteOrder
  import BitMatrix
  import BitTranspose

  // ------------------------------------------------------------ cutting a buffer into blocks

  /** The bytes of the blocks of a plan. */
  function PlanBytes(plan: seq<nat>, es: nat): nat {
    if plan == [] then 0 else PlanBytes(plan[..|plan| - 1], es) + plan[|plan| - 1] * es
  }

  lemma {:induction false} PlanBytesIsProduct(plan: seq<nat>, es: nat)
    ensures PlanBytes(plan, es) == Elements(plan) * es
  {
    if plan != [] {
      PlanBytesIsProduct(plan[..|plan| - 1], es);
      Distribute(Elements(plan[..|plan| - 1]), plan[|plan| - 1], es);
    }
  }

  /** A buffer as the sequence of its blocks. */
  function Cut(data: seq<byte>, plan: seq<nat>, es: nat): (r: seq<seq<byte>>)
    requires PlanBytes(plan, es) <= |data|
    ensures |r| == |plan|
  {
    if plan == [] then []
    else
      Cut(data, plan[..|plan| - 1], es) + [data[PlanBytes(plan[..|plan| - 1], es)..PlanBytes(plan, es)]]
  }

  lemma {:induction false} CutFlattens(data: seq<byte>, plan: seq<nat>, es: nat)
    requires PlanBytes(plan, es) <= |data|
    ensures Flatten(Cut(data, plan, es)) == data[..PlanBytes(plan, es)]
    ensures forall k :: 0 <= k < |plan| ==> |Cut(data, plan, es)[k]| == plan[k] * es
  {
    if plan != [] {
      var front, m, n := plan[..|plan| - 1], PlanBytes(plan[..|plan| - 1], es), PlanBytes(plan, es);
      CutFlattens(data, front, es);
      var c := Cut(data, plan, es);
      assert c[..|c| - 1] == Cut(data, front, es);
      assert data[..m] + data[m..n] == data[..n];
    }
  }

  /** Whatever the plan, the blocks of the buffer can be read by a worker that takes raw elements. */
  lemma CutFeeds(worker: Worker, data: seq<byte>, plan: seq<nat>, es: nat)
    requires PlanBytes(plan, es) <= |data| && worker != DecompressLz4
    ensures Feeds(worker, plan, es, Cut(data, plan, es), data)
  {
    hide Cut;
    CutFlattens(data, plan, es);
  }

  lemma {:induction false} PlainCapacity(worker: Worker, plan: seq<nat>, es: nat)
    requires worker != CompressLz4
    ensures Capacity(worker, plan, es) == PlanBytes(plan, es)
  {
    if plan != [] {
      PlainCapacity(worker, plan[..|plan| - 1], es);
    }
  }

  // ------------------------------------------------------------ undoing a whole run

  /** LZ4 accepts every block of the plan. */
  ghost predicate BlocksFit(worker: Worker, plan: seq<nat>, es: nat) {
    worker == CompressLz4 ==> forall k :: 0 <= k < |plan| ==> plan[k] * es <= MAX_INPUT_SIZE
  }

  lemma AllUndone(worker: Worker, plan: seq<nat>, es: nat, ins: seq<seq<byte>>, outs: seq<seq<byte>>,
                  back: seq<seq<byte>>)
    requires worker != DecompressLz4
    requires BlocksFit(worker, plan, es)
    requires AllTurned(worker, plan, es, ins, outs, |plan|) && AllTurned(Inverse(worker), plan, es, outs, back, |plan|)
    ensures back == ins
  {
    hide Turns, Inverse;
    forall k | 0 <= k < |plan| ensures back[k] == ins[k] {
      WorkerUndone(worker, ins[k], outs[k], back[k], plan[k], es);
    }
  }

  lemma OutputFeeds(worker: Worker, plan: seq<nat>, es: nat, ins: seq<seq<byte>>, outs: seq<seq<byte>>,
                    stored: seq<byte>)
    requires worker != DecompressLz4 && Flatten(outs) <= stored
    requires BlocksFit(worker, plan, es)
    requires AllTurned(worker, plan, es, ins, outs, |plan|)
    ensures Feeds(Inverse(worker), plan, es, outs, stored)
  {
    hide Turns, Inverse, Readable, Flatten;
    forall k | 0 <= k < |plan| ensures Readable(Inverse(worker), outs[k], plan[k], es) {
      OutputReadable(worker, ins[k], outs[k], plan[k], es);
    }
  }

  lemma PlanFits(size: nat, bs: nat, es: nat, limit: nat)
    requires bs > 0 && bs % BLOCKED_MULT == 0 && bs * es <= limit
    ensures forall k :: 0 <= k < |Plan(size, bs)| ==> Plan(size, bs)[k] * es <= limit
  {
    hide Plan;
    PlanCovers(size, bs);
    forall k | 0 <= k < |Plan(size, bs)| ensures Plan(size, bs)[k] * es <= limit {
      MulMonotone(Plan(size, bs)[k], bs, es);
    }
  }

  lemma Split(size: nat, es: nat)
    ensures (size - size % BLOCKED_MULT) * es + Leftover(size, es) == size * es
  {
    Distribute(size - size % BLOCKED_MULT, size % BLOCKED_MULT, es);
  }

  // ------------------------------------------------------------ the bound

  const SIZE_MAX := 0xFFFF_FFFF_FFFF_FFFF

  /** The blocks at their worst, each with its header. */
  function FullBound(blocks: nat, bs: nat, es: nat): nat {
    (Lz4Bound(bs * es) + 4) * blocks
  }

  lemma {:induction false} CapacityOfFull(k: nat, bs: nat, es: nat)
    ensures Capacity(CompressLz4, seq(k, _ => bs), es) == FullBound(k, bs, es)
  {
    if k > 0 {
      var s := seq(k, _ => bs);
      assert s[..k - 1] == seq(k - 1, _ => bs);
      CapacityOfFull(k - 1, bs, es);
      var m := Lz4Bound(bs * es) + 4;
      assert m * k == m * (k - 1) + m;
    }
  }

  lemma RoundDown(size: nat, bs: nat)
    requires bs > 0
    ensures size % bs / BLOCKED_MULT * BLOCKED_MULT == LastBlock(size, bs) && size / bs == Full(size, bs)
  {
  }

  lemma PlanCapacity(size: nat, bs: nat, es: nat)
    requires bs > 0
    ensures Capacity(CompressLz4, Plan(size, bs), es) ==
      FullBound(Full(size, bs), bs, es) + if LastBlock(size, bs) > 0 then Lz4Bound(LastBlock(size, bs) * es) + 4 else 0
  {
    hide Lz4Bound, FullBound, LastBlock, Full;
    var full, plan := seq(Full(size, bs), _ => bs), Plan(size, bs);
    CapacityOfFull(Full(size, bs), bs, es);
    if LastBlock(size, bs) > 0 {
      assert plan[..|full|] == full;
    } else {
      assert plan == full;
    }
  }

  /** What one block of n bytes can need with its header: nothing more than that if LZ4 refuses its size as an int. */
  function WorstCase(n: nat): nat {
    var m := n % 0x1_0000_0000;
    if m <= 0x7E00_0000 then m + m / 255 + 16 + 4 else 4
  }

  /** The bound in numbers. */
  lemma BoundInNumbers(size: nat, bs: nat, es: nat)
    requires bs > 0
    ensures Capacity(CompressLz4, Plan(size, bs), es) + Leftover(size, es) ==
      size / bs * WorstCase(bs * es) + size % 8 * es +
      if size % bs >= 8 then WorstCase(size % bs / 8 * 8 * es) else 0
  {
    hide Capacity, Plan, WorstCase, Lz4Bound, LastBlock, Full;
    RoundDown(size, bs);
    PlanCapacity(size, bs, es);
    WorstIsBound(bs * es);
    WorstIsBound(size % bs / 8 * 8 * es);
    assert size % bs >= 8 <==> size % bs / 8 * 8 > 0;
  }

  lemma WorstIsBound(n: nat)
    ensures WorstCase(n) == Lz4Bound(n) + 4
  {
  }

  /** bshuf_compress_lz4_bound: room for every block at its worst, and the leftover bytes. */
  method CompressLz4Bound(size: nat, es: nat, blockSize: nat) returns (bound: nat)
    requires es > 0 || blockSize > 0
    ensures Effective(blockSize, es) % BLOCKED_MULT != 0 ==> bound == SIZE_MAX - 80
    ensures Effective(blockSize, es) % BLOCKED_MULT == 0 ==>
      bound == Capacity(CompressLz4, Plan(size, Effective(blockSize, es)), es) + Leftover(size, es)
    ensures var bs := if blockSize > 0 then blockSize else DefaultBlockSize(es);
      var partial := if size % bs >= 8 then WorstCase(size % bs / 8 * 8 * es) else 0;
      bs % 8 == 0 ==> bound == size / bs * WorstCase(bs * es) + partial + size % 8 * es
  {
    hide Lz4Bound, FullBound, Capacity, Plan, LastBlock, Leftover, WorstCase, DefaultBlockSize;
    BoundInNumbers(size, Effective(blockSize, es), es);
    var bs := Effective(blockSize, es);
    if bs % BLOCKED_MULT != 0 {
      return SIZE_MAX - 80;
    }
    RoundDown(size, bs);
    bound := FullBound(size / bs, bs, es);
    var leftover := size % bs / BLOCKED_MULT * BLOCKED_MULT;
    PlanCapacity(size, bs, es);
    if leftover > 0 {
      bound := bound + (Lz4Bound(leftover * es) + 4);
    }
    bound := bound + Leftover(size, es);
  }

  // ------------------------------------------------------------ whole buffers

  /** The blocks of a plan and the leftover bytes make up the buffer. */
  lemma Whole(size: nat, bs: nat, es: nat)
    requires bs > 0 && bs % BLOCKED_MULT == 0
    ensures PlanBytes(Plan(size, bs), es) + Leftover(size, es) == size * es
  {
    hide Plan, PlanBytes;
    PlanCovers(size, bs);
    PlanBytesIsProduct(Plan(size, bs), es);
    Split(size, es);
  }

  ghost predicate StoredAs(worker: Worker, data: seq<byte>, stored: seq<byte>, plan: seq<nat>, es: nat,
                           outs: seq<seq<byte>>)
    requires PlanBytes(plan, es) <= |data|
  {
    && AllTurned(worker, plan, es, Cut(data, plan, es), outs, |plan|)
    && stored == Flatten(outs) + data[PlanBytes(plan, es)..]
  }

  /** `stored` is what the driver makes of the buffer `data`: its blocks turned in order, then the leftover elements. */
  ghost predicate IsStored(worker: Worker, data: seq<byte>, stored: seq<byte>, size: nat, es: nat, bs: nat)
    requires bs > 0 && bs % BLOCKED_MULT == 0
  {
    Whole(size, bs, es);
    |data| == size * es && exists outs :: StoredAs(worker, data, stored, Plan(size, bs), es, outs)
  }

  /** LZ4 accepts the blocks. */
  ghost predicate Restorable(worker: Worker, size: nat, es: nat, bs: nat)
    requires bs > 0
  {
    worker != DecompressLz4 && BlocksFit(worker, Plan(size, bs), es)
  }

  /** Enough room for every block at its worst. */
  function MostStored(worker: Worker, size: nat, es: nat, bs: nat): nat
    requires bs > 0
  {
    Capacity(worker, Plan(size, bs), es) + Leftover(size, es)
  }

  lemma StoreBegins(worker: Worker, data: seq<byte>, plan: seq<nat>, es: nat, left: nat, room: nat)
      returns (ins: seq<seq<byte>>)
    requires worker != DecompressLz4 && |data| == PlanBytes(plan, es) + left
    requires Capacity(worker, plan, es) + left <= room
    ensures Supplied(worker, plan, es, ins, data, left, room) && ins == Cut(data, plan, es)
  {
    hide Cut, PlanBytes, Flatten, Feeds, Capacity;
    ins := Cut(data, plan, es);
    CutFeeds(worker, data, plan, es);
    CutFlattens(data, plan, es);
  }

  lemma StoreEnds(worker: Worker, data: seq<byte>, before: seq<byte>, now: seq<byte>, plan: seq<nat>, es: nat,
                  left: nat,
                  ins: seq<seq<byte>>, outs: seq<seq<byte>>, total: int)
    requires |data| == PlanBytes(plan, es) + left && ins == Cut(data, plan, es) && worker != DecompressLz4
    requires |Flatten(ins)| + left <= |data| && Capacity(worker, plan, es) + left <= |before|
    requires Wrapped(worker, plan, es, ins, data, left, outs, before, now, total)
    ensures 0 <= total <= Capacity(worker, plan, es) + left && |now| == |before| && now[total..] == before[total..]
    ensures StoredAs(worker, data, now[..total], plan, es, outs)
  {
    hide Cut, PlanBytes, Flatten, AllTurned, Capacity;
    CutFlattens(data, plan, es);
    assert data[|Flatten(ins)|..|Flatten(ins)| + left] == data[|Flatten(ins)|..];
    assert now[..total] == Flatten(outs) + data[|Flatten(ins)|..];
  }

  /** bshuf_bitshuffle, bshuf_bitunshuffle and bshuf_compress_lz4. */
  method Store(worker: Worker, host: Host, inp: seq<byte>, out: array<byte>, size: nat, es: nat, blockSize: nat)
      returns (count: int)
    requires (es > 0 || blockSize > 0) && worker != DecompressLz4 && |inp| == size * es
    requires var bs := Effective(blockSize, es); bs % BLOCKED_MULT == 0 ==>
      MostStored(worker, size, es, bs) <= out.Length
    modifies out
    ensures Effective(blockSize, es) % BLOCKED_MULT != 0 ==> count == BAD_BLOCK_SIZE && out[..] == old(out[..])
    ensures var bs := Effective(blockSize, es); bs % BLOCKED_MULT == 0 ==>
      && 0 <= count <= MostStored(worker, size, es, bs) <= out.Length
      && IsStored(worker, inp, out[..count], size, es, bs) && out[count..] == old(out[..])[count..]
  {
    hide Plan, Cut, Capacity, Flatten, PlanBytes, Effective, StoredAs, Wrapped, BlocksFit, Leftover;
    ghost var bs, before, left := Effective(blockSize, es), out[..], Leftover(size, es);
    ghost var ins, outs := [], [];
    if bs % BLOCKED_MULT == 0 {
      Whole(size, bs, es);
      ins := StoreBegins(worker, inp, Plan(size, bs), es, left, out.Length);
    }
    count, outs := Wrap(worker, host, inp, out, size, es, blockSize, ins);
    if bs % BLOCKED_MULT == 0 {
      StoreEnds(worker, inp, before, out[..], Plan(size, bs), es, left, ins, outs, count);
    }
  }

  lemma StoredFeeds(worker: Worker, data: seq<byte>, stored: seq<byte>, inp: seq<byte>, plan: seq<nat>, es: nat,
                    outs: seq<seq<byte>>)
    requires PlanBytes(plan, es) <= |data| && StoredAs(worker, data, stored, plan, es, outs) && worker != DecompressLz4
    requires BlocksFit(worker, plan, es)
    requires stored <= inp
    ensures Feeds(Inverse(worker), plan, es, outs, inp)
    ensures |Flatten(outs)| + (|data| - PlanBytes(plan, es)) == |stored|
    ensures inp[|Flatten(outs)|..|stored|] == data[PlanBytes(plan, es)..]
  {
    hide PlanBytes, Flatten, Feeds, AllTurned, Inverse;
    assert |outs| == |plan| by { TurnedLengths(worker, plan, es, Cut(data, plan, es), outs); }
    var f := Flatten(outs);
    assert inp[..|stored|] == stored;
    assert inp[..|f|] == stored[..|f|] == f;
    OutputFeeds(worker, plan, es, Cut(data, plan, es), outs, inp);
  }

  lemma TurnedLengths(worker: Worker, plan: seq<nat>, es: nat, ins: seq<seq<byte>>, outs: seq<seq<byte>>)
    requires AllTurned(worker, plan, es, ins, outs, |plan|)
    ensures |ins| == |plan| == |outs|
  {
    hide Turns;
  }

  /** The stored blocks, for the inverse worker to read. */
  ghost predicate Restores(worker: Worker, data: seq<byte>, stored: seq<byte>, inp: seq<byte>, plan: seq<nat>,
                      es: nat, left: nat, outs: seq<seq<byte>>) {
    && |data| == PlanBytes(plan, es) + left && StoredAs(worker, data, stored, plan, es, outs)
    && Feeds(Inverse(worker), plan, es, outs, inp)
    && |Flatten(outs)| + left == |stored| <= |inp|
    && inp[|Flatten(outs)|..|stored|] == data[PlanBytes(plan, es)..]
    && Capacity(Inverse(worker), plan, es) == PlanBytes(plan, es)
  }

  lemma RestoreBegins(worker: Worker, data: seq<byte>, stored: seq<byte>, inp: seq<byte>, plan: seq<nat>, es: nat,
                      left: nat)
      returns (outs: seq<seq<byte>>)
    requires worker != DecompressLz4 && BlocksFit(worker, plan, es) && stored <= inp
    requires |data| == PlanBytes(plan, es) + left && exists outs :: StoredAs(worker, data, stored, plan, es, outs)
    ensures Restores(worker, data, stored, inp, plan, es, left, outs)
  {
    hide PlanBytes, Flatten, Feeds, StoredAs, Capacity, BlocksFit;
    outs :| StoredAs(worker, data, stored, plan, es, outs);
    StoredFeeds(worker, data, stored, inp, plan, es, outs);
    PlainCapacity(Inverse(worker), plan, es);
  }

  lemma RestoreEnds(worker: Worker, data: seq<byte>, stored: seq<byte>, plan: seq<nat>, es: nat, outs: seq<seq<byte>>,
                    back: seq<seq<byte>>)
    requires PlanBytes(plan, es) <= |data| && StoredAs(worker, data, stored, plan, es, outs) && worker != DecompressLz4
    requires BlocksFit(worker, plan, es)
    requires AllTurned(Inverse(worker), plan, es, outs, back, |plan|)
    ensures Flatten(back) == data[..PlanBytes(plan, es)]
  {
    hide PlanBytes, Flatten, AllTurned, Inverse, Cut;
    AllUndone(worker, plan, es, Cut(data, plan, es), outs, back);
    CutFlattens(data, plan, es);
  }

  lemma ReportedWhole(worker: Worker, plan: seq<nat>, es: nat, ins: seq<seq<byte>>, outs: seq<seq<byte>>)
    requires AllTurned(worker, plan, es, ins, outs, |plan|)
    ensures |outs| <= |ins|
    ensures ReportedSoFar(worker, ins, outs) == if worker == DecompressLz4 then |Flatten(ins)| else |Flatten(outs)|
  {
    hide Flatten, Turns;
    assert ins[..|outs|] == ins;
  }

  lemma RestoredCount(worker: Worker, data: seq<byte>, stored: seq<byte>, plan: seq<nat>, es: nat,
                      outs: seq<seq<byte>>, back: seq<seq<byte>>)
    requires PlanBytes(plan, es) <= |data| && StoredAs(worker, data, stored, plan, es, outs) && worker != DecompressLz4
    requires AllTurned(Inverse(worker), plan, es, outs, back, |plan|)
    requires Flatten(back) == data[..PlanBytes(plan, es)]
    ensures |back| <= |outs| && ReportedSoFar(Inverse(worker), outs, back) + (|data| - PlanBytes(plan, es)) == |stored|
  {
    hide PlanBytes, Flatten, AllTurned, Cut;
    ReportedWhole(Inverse(worker), plan, es, outs, back);
    if worker != CompressLz4 {
      PlainLength(worker, plan, es, Cut(data, plan, es), outs);
    }
  }

  lemma {:induction false} FlattenLength(ss: seq<seq<byte>>, plan: seq<nat>, es: nat)
    requires |ss| == |plan| && forall k :: 0 <= k < |plan| ==> |ss[k]| == plan[k] * es
    ensures |Flatten(ss)| == PlanBytes(plan, es)
  {
    if plan != [] {
      FlattenLength(ss[..|ss| - 1], plan[..|plan| - 1], es);
    }
  }

  /** The transposes alone keep the length of a buffer. */
  lemma PlainLength(worker: Worker, plan: seq<nat>, es: nat, ins: seq<seq<byte>>, outs: seq<seq<byte>>)
    requires AllTurned(worker, plan, es, ins, outs, |plan|) && (worker == Bitshuffle || worker == Bitunshuffle)
    ensures |Flatten(outs)| == PlanBytes(plan, es)
  {
    hide PlanBytes, Flatten, BitTranspose.IsBitTranspose;
    forall k | 0 <= k < |plan| ensures |outs[k]| == plan[k] * es {
      assert Turns(worker, ins[k], outs[k], plan[k], es);
      if worker == Bitshuffle {
        BitMatrix.TransposeLength(ins[k], outs[k], plan[k], es);
      } else {
        BitMatrix.TransposeLength(outs[k], ins[k], plan[k], es);
      }
    }
    FlattenLength(outs, plan, es);
  }

  lemma RestoreDone(worker: Worker, data: seq<byte>, stored: seq<byte>, inp: seq<byte>, plan: seq<nat>, es: nat,
                    left: nat,
                    outs: seq<seq<byte>>, back: seq<seq<byte>>, before: seq<byte>, now: seq<byte>, total: int)
    requires worker != DecompressLz4 && BlocksFit(worker, plan, es)
    requires Restores(worker, data, stored, inp, plan, es, left, outs) && PlanBytes(plan, es) + left <= |before|
    requires Wrapped(Inverse(worker), plan, es, outs, inp, left, back, before, now, total)
    ensures total == |stored| && |now| == |before| && now[..|data|] == data && now[|data|..] == before[|data|..]
  {
    hide PlanBytes, Flatten, Feeds, StoredAs, Capacity, AllTurned, ReportedSoFar, BlocksFit;
    RestoreEnds(worker, data, stored, plan, es, outs, back);
    RestoredCount(worker, data, stored, plan, es, outs, back);
    assert now[..|data|] == data[..PlanBytes(plan, es)] + data[PlanBytes(plan, es)..];
  }

  /**
   The driver with the inverse worker, on what the driver stored: the data comes back, and as many bytes are reported as
   were stored.
   */
  method Restore(worker: Worker, host: Host, inp: seq<byte>, out: array<byte>, size: nat, es: nat, blockSize: nat,
                 ghost data: seq<byte>, ghost stored: seq<byte>)
      returns (count: int)
    requires (es > 0 || blockSize > 0) && size * es <= out.Length
    requires var bs := Effective(blockSize, es); bs % BLOCKED_MULT == 0 ==>
      Restorable(worker, size, es, bs) && IsStored(worker, data, stored, size, es, bs) && stored <= inp
    modifies out
    ensures Effective(blockSize, es) % BLOCKED_MULT != 0 ==> count == BAD_BLOCK_SIZE && out[..] == old(out[..])
    ensures Effective(blockSize, es) % BLOCKED_MULT == 0 ==>
      count == |stored| && out[..size * es] == data && out[size * es..] == old(out[..])[size * es..]
  {
    hide Plan, Flatten, PlanBytes, Capacity, Effective, StoredAs, Wrapped, BlocksFit, Leftover, Feeds;
    ghost var bs, before, left := Effective(blockSize, es), out[..], Leftover(size, es);
    ghost var outs, back := [], [];
    if bs % BLOCKED_MULT == 0 {
      Whole(size, bs, es);
      outs := RestoreBegins(worker, data, stored, inp, Plan(size, bs), es, left);
    }
    count, back := Wrap(Inverse(worker), host, inp, out, size, es, blockSize, outs);
    if bs % BLOCKED_MULT == 0 {
      RestoreDone(worker, data, stored, inp, Plan(size, bs), es, left, outs, back, before, out[..], count);
    }
  }

  /**
   bshuf_compress_lz4 on one host, then bshuf_decompress_lz4 on another, with any bytes behind the compressed
   data: the buffer comes back, both calls return the same count, and the result keeps within the bound.
   */
  method RoundTrip(writer: Host, reader: Host, data: seq<byte>, size: nat, es: nat, blockSize: nat, behind: seq<byte>)
      returns (bound: nat, compressed: seq<byte>, written: int, restored: seq<byte>, used: int)
    requires (es > 0 || blockSize > 0) && |data| == size * es
    requires var bs := Effective(blockSize, es); bs % BLOCKED_MULT == 0 && Restorable(CompressLz4, size, es, bs)
    ensures restored == data && written == used == |compressed| <= bound
  {
    hide Plan, IsStored, Effective, Capacity, Leftover;
    ghost var bs := Effective(blockSize, es);
    bound := CompressLz4Bound(size, es, blockSize);
    var out, back := new byte[bound], new byte[size * es];
    written := Store(CompressLz4, writer, data, out, size, es, blockSize);
    compressed := out[..written];
    used := Restore(CompressLz4, reader, compressed + behind, back, size, es, blockSize, data, compressed);
    restored := back[..size * es];
  }

  // ------------------------------------------------------------ the stored form in numbers

  /** The n elements of the buffer from byte `at` on stand, turned, between two places of the stored bytes. */
  ghost predicate TurnedAt(worker: Worker, data: seq<byte>, at: nat, n: nat, es: nat, stored: seq<byte>, from: nat,
                           to: nat)
  {
    && at + n * es <= |data| && from <= to <= |stored|
    && Turns(worker, data[at..at + n * es], stored[from..to], n, es)
  }

  /** Where element k * bs begins. */
  function Place(k: nat, bs: nat, es: nat): nat {
    k * bs * es
  }

  lemma BlockStands(worker: Worker, data: seq<byte>, stored: seq<byte>, plan: seq<nat>, es: nat, outs: seq<seq<byte>>,
                    k: nat)
    requires PlanBytes(plan, es) <= |data| && StoredAs(worker, data, stored, plan, es, outs) && k < |plan|
    ensures TurnedAt(worker, data, PlanBytes(plan[..k], es), plan[k], es, stored, |Flatten(outs[..k])|,
                     |Flatten(outs[..k + 1])|)
  {
    hide PlanBytes, Flatten, Cut, Turns;
    CutAt(data, plan, es, k);
    BytesNext(plan, es, k);
    FlattenNext(outs, k);
    FlattenPrefix(outs, k + 1);
    var a, b, f := Flatten(outs[..k]), Flatten(outs[..k + 1]), Flatten(outs);
    assert stored[..|b|] == f[..|b|] == b;
    assert stored[|a|..|b|] == b[|a|..] == outs[k];
  }

  lemma FullBytes(size: nat, bs: nat, es: nat, k: nat)
    requires bs > 0 && k <= size / bs
    ensures k <= |Plan(size, bs)| && PlanBytes(Plan(size, bs)[..k], es) == Place(k, bs, es)
  {
    var plan := Plan(size, bs);
    assert plan[..k] == seq(k, _ => bs);
    ElementsOfFull(k, bs);
    PlanBytesIsProduct(plan[..k], es);
  }

  lemma BlockPlaced(worker: Worker, data: seq<byte>, stored: seq<byte>, size: nat, es: nat, bs: nat,
                    outs: seq<seq<byte>>, k: nat)
    requires bs > 0 && PlanBytes(Plan(size, bs), es) <= |data|
    requires StoredAs(worker, data, stored, Plan(size, bs), es, outs)
    requires k < size / bs || (k == size / bs && size % bs >= 8)
    ensures TurnedAt(worker, data, Place(k, bs, es), if k < size / bs then bs else size % bs / 8 * 8, es, stored,
                     |Flatten(outs[..k])|, |Flatten(outs[..k + 1])|)
  {
    hide PlanBytes, Flatten, TurnedAt, Full, LastBlock, Plan, Place, StoredAs;
    PlanAt(size, bs);
    RoundDown(size, bs);
    BlockStands(worker, data, stored, Plan(size, bs), es, outs, k);
    FullBytes(size, bs, es, k);
  }

  /**
   Where everything stands in the stored form: full block k of the buffer, which begins at element k * bs, is turned
   between two neighbouring ends, the first of them at zero; then the partial block of whole eights; then the last
   size % 8 elements as they are.
   */
  lemma StoredInNumbers(worker: Worker, data: seq<byte>, stored: seq<byte>, size: nat, es: nat, bs: nat)
      returns (ends: seq<nat>)
    requires bs > 0 && bs % BLOCKED_MULT == 0 && IsStored(worker, data, stored, size, es, bs)
    ensures |ends| == size / bs + (if size % bs >= 8 then 2 else 1) && ends[0] == 0
    ensures forall k: nat :: k < size / bs ==>
      TurnedAt(worker, data, Place(k, bs, es), bs, es, stored, ends[k], ends[k + 1])
    ensures size % bs >= 8 ==>
      TurnedAt(worker, data, Place(size / bs, bs, es), size % bs / 8 * 8, es, stored, ends[size / bs],
               ends[size / bs + 1])
    ensures Leftover(size, es) <= |data| && ends[|ends| - 1] <= |stored|
    ensures stored[ends[|ends| - 1]..] == data[|data| - Leftover(size, es)..]
  {
    hide PlanBytes, Flatten, TurnedAt, Full, LastBlock, Plan, Leftover, Place, StoredAs;
    Whole(size, bs, es);
    var plan := Plan(size, bs);
    var outs :| StoredAs(worker, data, stored, plan, es, outs);
    LeftoverStands(worker, data, stored, plan, size, es, bs, outs);
    PlanAt(size, bs);
    RoundDown(size, bs);
    ends := seq(|plan| + 1, k requires 0 <= k <= |plan| => |Flatten(outs[..k])|);
    NothingStored(outs);
    forall k: nat | k < size / bs
      ensures TurnedAt(worker, data, Place(k, bs, es), bs, es, stored, ends[k], ends[k + 1])
    {
      BlockPlaced(worker, data, stored, size, es, bs, outs, k);
    }
    if size % bs >= 8 {
      BlockPlaced(worker, data, stored, size, es, bs, outs, size / bs);
    }
    assert outs[..|plan|] == outs;
  }

  lemma LeftoverStands(worker: Worker, data: seq<byte>, stored: seq<byte>, plan: seq<nat>, size: nat, es: nat, bs: nat,
                       outs: seq<seq<byte>>)
    requires bs > 0 && bs % BLOCKED_MULT == 0 && plan == Plan(size, bs) && |data| == size * es
    requires PlanBytes(plan, es) <= |data| && StoredAs(worker, data, stored, plan, es, outs)
    ensures |outs| == |plan| && |Flatten(outs)| <= |stored| && Leftover(size, es) <= |data|
    ensures stored[|Flatten(outs)|..] == data[|data| - Leftover(size, es)..]
  {
    hide PlanBytes, Flatten, Cut, Turns, Plan, Leftover;
    Whole(size, bs, es);
  }

  lemma NothingStored(outs: seq<seq<byte>>)
    ensures Flatten(outs[..0]) == []
  {
  }

  // ------------------------------------------------------------ exactly when nothing is lost

  lemma CutLast(data: seq<byte>, plan: seq<nat>, es: nat)
    requires PlanBytes(plan, es) <= |data| && plan != []
    ensures PlanBytes(plan[..|plan| - 1], es) <= PlanBytes(plan, es)
    ensures Cut(data, plan, es) ==
      Cut(data, plan[..|plan| - 1], es) + [data[PlanBytes(plan[..|plan| - 1], es)..PlanBytes(plan, es)]]
  {
    hide PlanBytes;
    BytesNext(plan, es, |plan| - 1);
    assert plan[..|plan| - 1 + 1] == plan;
  }

  lemma {:induction false} CutAt(data: seq<byte>, plan: seq<nat>, es: nat, k: nat)
    requires PlanBytes(plan, es) <= |data| && k < |plan|
    ensures PlanBytes(plan[..k], es) <= PlanBytes(plan[..k + 1], es) <= PlanBytes(plan, es)
    ensures Cut(data, plan, es)[k] == data[PlanBytes(plan[..k], es)..PlanBytes(plan[..k + 1], es)]
  {
    hide PlanBytes, Cut;
    var n := |plan| - 1;
    CutLast(data, plan, es);
    if k == n {
      assert plan[..k + 1] == plan;
    } else {
      CutAt(data, plan[..n], es, k);
      assert plan[..n][..k] == plan[..k] && plan[..n][..k + 1] == plan[..k + 1];
    }
  }

  /** `data'` is `data` but for block k, which is `x'`. */
  ghost predicate Patched(data: seq<byte>, data': seq<byte>, plan: seq<nat>, es: nat, k: nat, x': seq<byte>) {
    && k < |plan| && |x'| == plan[k] * es > 0 && PlanBytes(plan, es) <= |data| == |data'|
    && var p := PlanBytes(plan[..k], es);
       p + |x'| <= |data| && data' == data[..p] + x' + data[p + |x'|..]
  }

  lemma PatchedBlock(data: seq<byte>, data': seq<byte>, plan: seq<nat>, es: nat, k: nat, x': seq<byte>)
    requires Patched(data, data', plan, es, k, x')
    ensures Cut(data', plan, es)[k] == x'
  {
    hide PlanBytes, Cut;
    CutAt(data', plan, es, k);
    BytesNext(plan, es, k);
  }

  lemma OtherBlock(data: seq<byte>, data': seq<byte>, plan: seq<nat>, es: nat, j: nat, k: nat, x': seq<byte>)
    requires Patched(data, data', plan, es, k, x') && j < |plan| && j != k
    ensures Cut(data', plan, es)[j] == Cut(data, plan, es)[j]
  {
    hide PlanBytes, Cut;
    CutAt(data, plan, es, j);
    CutAt(data', plan, es, j);
    BlocksApart(plan, es, j, k);
  }

  lemma SameBehind(data: seq<byte>, data': seq<byte>, plan: seq<nat>, es: nat, k: nat, x': seq<byte>)
    requires Patched(data, data', plan, es, k, x')
    ensures data'[PlanBytes(plan, es)..] == data[PlanBytes(plan, es)..]
  {
    hide PlanBytes;
    BlocksInside(plan, es, k);
  }

  lemma BlocksInside(plan: seq<nat>, es: nat, k: nat)
    requires k < |plan|
    ensures PlanBytes(plan[..k], es) + plan[k] * es <= PlanBytes(plan, es)
  {
    hide PlanBytes;
    BytesNext(plan, es, k);
    BytesPrefix(plan, es, k + 1, |plan|);
    assert plan[..|plan|] == plan;
  }

  lemma PatchedTurns(data: seq<byte>, data': seq<byte>, plan: seq<nat>, es: nat, outs: seq<seq<byte>>, k: nat,
                     x': seq<byte>, j: nat)
    requires Patched(data, data', plan, es, k, x') && j < |plan| == |outs|
    requires Turns(CompressLz4, x', outs[k], plan[k], es)
    requires Turns(CompressLz4, Cut(data, plan, es)[j], outs[j], plan[j], es)
    ensures Turns(CompressLz4, Cut(data', plan, es)[j], outs[j], plan[j], es)
  {
    hide PlanBytes, Turns, Cut;
    if j == k {
      PatchedBlock(data, data', plan, es, k, x');
    } else {
      OtherBlock(data, data', plan, es, j, k, x');
    }
  }

  /** A block may be replaced by any other that turns into the same bytes. */
  lemma PatchedStored(data: seq<byte>, data': seq<byte>, stored: seq<byte>, plan: seq<nat>, es: nat,
                      outs: seq<seq<byte>>, k: nat, x': seq<byte>)
    requires Patched(data, data', plan, es, k, x') && StoredAs(CompressLz4, data, stored, plan, es, outs)
    requires Turns(CompressLz4, x', outs[k], plan[k], es)
    ensures StoredAs(CompressLz4, data', stored, plan, es, outs)
  {
    hide PlanBytes, Flatten, Turns, Cut;
    forall j | 0 <= j < |plan| ensures Turns(CompressLz4, Cut(data', plan, es)[j], outs[j], plan[j], es) {
      assert Turns(CompressLz4, Cut(data, plan, es)[j], outs[j], plan[j], es);
      PatchedTurns(data, data', plan, es, outs, k, x', j);
    }
    SameBehind(data, data', plan, es, k, x');
  }

  /** A block that LZ4 does not take whole: some other buffer is stored as the same bytes. */
  lemma LostBlock(data: seq<byte>, stored: seq<byte>, plan: seq<nat>, es: nat, outs: seq<seq<byte>>, k: nat)
      returns (data': seq<byte>)
    requires k < |plan| && plan[k] * es > MAX_INPUT_SIZE && PlanBytes(plan, es) <= |data|
    requires StoredAs(CompressLz4, data, stored, plan, es, outs)
    ensures |data'| == |data| && data' != data && StoredAs(CompressLz4, data', stored, plan, es, outs)
  {
    hide PlanBytes, Flatten, Turns, Cut;
    var x := Cut(data, plan, es)[k];
    var x' := OversizeIsLost(x, outs[k], plan[k], es);
    BlocksInside(plan, es, k);
    var p := PlanBytes(plan[..k], es);
    data' := data[..p] + x' + data[p + |x'|..];
    PatchedBlock(data, data', plan, es, k, x');
    PatchedStored(data, data', stored, plan, es, outs, k, x');
  }

  /** Blocks before k end before it, and blocks after k begin behind it. */
  lemma BlocksApart(plan: seq<nat>, es: nat, j: nat, k: nat)
    requires j < |plan| && k < |plan| && j != k && plan[k] * es > 0
    ensures j < k ==> PlanBytes(plan[..j + 1], es) <= PlanBytes(plan[..k], es)
    ensures j > k ==> PlanBytes(plan[..k], es) + plan[k] * es <= PlanBytes(plan[..j], es)
  {
    hide PlanBytes;
    if j < k {
      BytesPrefix(plan, es, j + 1, k);
    } else {
      BytesPrefix(plan, es, k + 1, j);
      BytesNext(plan, es, k);
    }
  }

  lemma BytesNext(plan: seq<nat>, es: nat, k: nat)
    requires k < |plan|
    ensures PlanBytes(plan[..k + 1], es) == PlanBytes(plan[..k], es) + plan[k] * es
  {
    assert plan[..k + 1][..k] == plan[..k];
  }

  lemma {:induction false} BytesPrefix(plan: seq<nat>, es: nat, j: nat, k: nat)
    requires j <= k <= |plan|
    ensures PlanBytes(plan[..j], es) <= PlanBytes(plan[..k], es)
    decreases k - j
  {
    hide PlanBytes;
    if j < k {
      BytesPrefix(plan, es, j + 1, k);
      BytesNext(plan, es, j);
    }
  }

  /** A stored block says itself how long it is. */
  lemma FrameDelimits(b: Block, c: Block, s: seq<byte>)
    requires WellFormed(b) && |Encode(b)| <= INT_MAX && WellFormed(c) && |Encode(c)| <= INT_MAX
    requires Frame(b) <= s && Frame(c) <= s
    ensures Frame(b) == Frame(c)
  {
    hide Legal, Encode, ByteOrder.Be, ByteOrder.FromBe;
    assert s[0..|Frame(b)|] == Frame(b) && s[0..|Frame(c)|] == Frame(c);
    FrameAt(s, 0, Frame(b), b);
    FrameAt(s, 0, Frame(c), c);
  }

  lemma SameBlock(x: seq<byte>, y: seq<byte>, n: nat, es: nat, s: seq<byte>)
    requires Readable(DecompressLz4, x, n, es) && Readable(DecompressLz4, y, n, es) && x <= s && y <= s
    ensures x == y
  {
    hide Legal, Encode, Frame, Size;
    var b :| IsBlock(x, n, es, b);
    var c :| IsBlock(y, n, es, c);
    FrameDelimits(b, c, s);
  }

  lemma {:induction false} SameBlocks(plan: seq<nat>, es: nat, outs: seq<seq<byte>>, outs': seq<seq<byte>>,
                      stored: seq<byte>, k: nat)
    requires Feeds(DecompressLz4, plan, es, outs, stored) && Feeds(DecompressLz4, plan, es, outs', stored)
    requires k <= |plan|
    ensures outs[..k] == outs'[..k]
  {
    hide Readable, Flatten;
    if k > 0 {
      SameBlocks(plan, es, outs, outs', stored, k - 1);
      var p := |Flatten(outs[..k - 1])|;
      NextInside(outs, stored, k - 1);
      NextInside(outs', stored, k - 1);
      SameBlock(outs[k - 1], outs'[k - 1], plan[k - 1], es, stored[p..]);
    }
  }

  lemma NextInside(ss: seq<seq<byte>>, s: seq<byte>, k: nat)
    requires Flatten(ss) <= s && k < |ss|
    ensures |Flatten(ss[..k])| <= |s| && ss[k] <= s[|Flatten(ss[..k])|..]
  {
    hide Flatten;
    FlattenPrefix(ss, k + 1);
    FlattenNext(ss, k);
    var f := Flatten(ss[..k]);
    Within(f, ss[k], s);
  }

  lemma SameInputs(plan: seq<nat>, es: nat, ins: seq<seq<byte>>, ins': seq<seq<byte>>, outs: seq<seq<byte>>)
    requires BlocksFit(CompressLz4, plan, es)
    requires AllTurned(CompressLz4, plan, es, ins, outs, |plan|) && AllTurned(CompressLz4, plan, es, ins', outs, |plan|)
    ensures ins == ins'
  {
    hide Turns;
    forall k | 0 <= k < |plan| ensures ins[k] == ins'[k] {
      WorkerInjective(CompressLz4, ins[k], ins'[k], outs[k], plan[k], es);
    }
  }

  /** What the compressor stores determines the buffer, if LZ4 accepts every block. */
  lemma StoredDetermines(data: seq<byte>, data': seq<byte>, stored: seq<byte>, plan: seq<nat>, es: nat,
                      outs: seq<seq<byte>>, outs': seq<seq<byte>>)
    requires BlocksFit(CompressLz4, plan, es) && PlanBytes(plan, es) <= |data| == |data'|
    requires StoredAs(CompressLz4, data, stored, plan, es, outs)
    requires StoredAs(CompressLz4, data', stored, plan, es, outs')
    ensures data' == data
  {
    hide PlanBytes, Flatten, AllTurned, Feeds, BlocksFit, Cut;
    var m := PlanBytes(plan, es);
    StoredFeeds(CompressLz4, data, stored, stored, plan, es, outs);
    StoredFeeds(CompressLz4, data', stored, stored, plan, es, outs');
    TurnedLengths(CompressLz4, plan, es, Cut(data, plan, es), outs);
    TurnedLengths(CompressLz4, plan, es, Cut(data', plan, es), outs');
    SameBlocks(plan, es, outs, outs', stored, |plan|);
    assert outs[..|plan|] == outs && outs'[..|plan|] == outs';
    SameInputs(plan, es, Cut(data, plan, es), Cut(data', plan, es), outs);
    CutFlattens(data, plan, es);
    CutFlattens(data', plan, es);
    assert data == data[..m] + data[m..] && data' == data'[..m] + data'[m..];
  }

  /**
   bshuf_decompress_lz4 can restore the buffer exactly when LZ4 accepts every block of the plan; otherwise some
   other buffer is stored as the very same bytes.
   */
  lemma RestorableExactly(data: seq<byte>, stored: seq<byte>, size: nat, es: nat, bs: nat)
    requires bs > 0 && bs % BLOCKED_MULT == 0 && IsStored(CompressLz4, data, stored, size, es, bs)
    ensures Restorable(CompressLz4, size, es, bs) <==>
      forall data' :: IsStored(CompressLz4, data', stored, size, es, bs) ==> data' == data
  {
    hide Plan, StoredAs, PlanBytes;
    var plan := Plan(size, bs);
    Whole(size, bs, es);
    var outs :| StoredAs(CompressLz4, data, stored, plan, es, outs);
    if Restorable(CompressLz4, size, es, bs) {
      forall data' | IsStored(CompressLz4, data', stored, size, es, bs) ensures data' == data {
        var outs' :| StoredAs(CompressLz4, data', stored, plan, es, outs');
        StoredDetermines(data, data', stored, plan, es, outs, outs');
      }
    } else {
      var k :| 0 <= k < |plan| && plan[k] * es > MAX_INPUT_SIZE;
      var data' := LostBlock(data, stored, plan, es, outs, k);
      assert IsStored(CompressLz4, data', stored, size, es, bs);
    }
  }

  // ------------------------------------------------------------ a buffer that cannot be restored

  const OVERSIZE := 0x7E00_0008

  /** One block of bytes just above the LZ4 limit. */
  lemma OversizePlan()
    ensures Plan(OVERSIZE, OVERSIZE) == [OVERSIZE] && !Restorable(CompressLz4, OVERSIZE, 1, OVERSIZE)
  {
    assert Plan(OVERSIZE, OVERSIZE)[0] * 1 > MAX_INPUT_SIZE;
  }

  /** Whatever is in a buffer of that size, bshuf_compress_lz4 stores another buffer as the same bytes. */
  method StoreOversize(host: Host, data: seq<byte>) returns (stored: seq<byte>, ghost other: seq<byte>)
    requires |data| == OVERSIZE
    ensures other != data
    ensures IsStored(CompressLz4, data, stored, OVERSIZE, 1, OVERSIZE)
    ensures IsStored(CompressLz4, other, stored, OVERSIZE, 1, OVERSIZE)
  {
    hide Plan, IsStored, Restorable, Capacity, Leftover;
    var bound := CompressLz4Bound(OVERSIZE, 1, OVERSIZE);
    var out := new byte[bound];
    var count := Store(CompressLz4, host, data, out, OVERSIZE, 1, OVERSIZE);
    stored := out[..count];
    OversizePlan();
    RestorableExactly(data, stored, OVERSIZE, 1, OVERSIZE);
    other :| IsStored(CompressLz4, other, stored, OVERSIZE, 1, OVERSIZE) && other != data;
  }
}
