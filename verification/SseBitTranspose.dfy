/** The SSE2 bit transposes by movemask and shift, and the eight-row interleave. */
module SseBitTranspose {
  import opened Basics
  import opened Bytes
  import opened Matrix
  import opened EightByEight
  import opened ByteTranspose
  import opened BitTranspose
  import opened Simd
  import opened SseByteTranspose

  // ------------------------------------------------------------ movemask

  /** After kk shifts the mask of the register loaded at p gathers bit 7 - kk of its sixteen bytes. */
  lemma MaskGathers(s: seq<byte>, p: nat, x: Xmm, kk: nat)
    requires p + 16 <= |s| && kk < 8 && Shifted(Load(s, p), x, kk)
    ensures Gathered(MaskLow(x), s, p, 7 - kk)
    ensures Gathered(MaskHigh(x), s, p + 8, 7 - kk)
  {
    hide Bit, Lane, MaskLow, MaskHigh, Load;
    forall c | 0 <= c < 8 ensures Bit(MaskLow(x), c) == Bit(s[p + c], 7 - kk) {
      MaskBits(x, c);
      LoadedLane(s, p, c);
      assert Bit(Lane(x, c), 7) == Bit(Lane(Load(s, p), c), 7 - kk);
    }
    forall c | 0 <= c < 8 ensures Bit(MaskHigh(x), c) == Bit(s[p + 8 + c], 7 - kk) {
      MaskBits(x, c);
      LoadedLane(s, p, c + 8);
      assert Bit(Lane(x, c + 8), 7) == Bit(Lane(Load(s, p), c + 8), 7 - kk);
    }
  }

  lemma NotYetShifted(x: Xmm)
    ensures Shifted(x, x, 0)
  {
    hide Bit, Lane;
  }

  /** One register: columns q and q + 1 of the eight bit rows, the highest row first. */
  method SpreadSixteen(inp: seq<byte>, out: array<byte>, nbr: nat, q: nat)
    requires |inp| == nbr * 8 && out.Length == 8 * nbr && q + 1 < nbr
    modifies out
    ensures ColumnGathered(inp, out[..], nbr, q) && ColumnGathered(inp, out[..], nbr, q + 1)
    ensures forall k, c :: 0 <= k < 8 && 0 <= c < nbr && c != q && c != q + 1 ==>
      Cell(out[..], 8, nbr, k, c) == old(Cell(out[..], 8, nbr, k, c))
  {
    hide Cell, Gathered, Shifted, Load, MaskLow, MaskHigh, ShiftLeftOne;
    var xmm := Load(inp, 8 * q);
    NotYetShifted(xmm);
    var q1 := q + 1;
    var kk := 0;
    while kk < 8
      invariant kk <= 8 && Shifted(Load(inp, 8 * q), xmm, kk)
      invariant forall k :: 8 - kk <= k < 8 ==> Gathered(Cell(out[..], 8, nbr, k, q), inp, 8 * q, k)
      invariant forall k :: 8 - kk <= k < 8 ==> Gathered(Cell(out[..], 8, nbr, k, q1), inp, 8 * q + 8, k)
      invariant forall k, c :: 0 <= k < 8 && 0 <= c < nbr && c != q && c != q + 1 ==>
        Cell(out[..], 8, nbr, k, c) == old(Cell(out[..], 8, nbr, k, c))
    {
      MaskGathers(inp, 8 * q, xmm, kk);
      var low, high := MaskLow(xmm), MaskHigh(xmm);
      ShiftOnce(Load(inp, 8 * q), xmm, kk);
      xmm := ShiftLeftOne(xmm);
      SetCell(out, 8, nbr, 7 - kk, q, low);
      SetCell(out, 8, nbr, 7 - kk, q1, high);
      kk := kk + 1;
    }
  }

  method SpreadRound(inp: seq<byte>, out: array<byte>, nbr: nat, q: nat)
    requires |inp| == nbr * 8 && out.Length == 8 * nbr && q + 1 < nbr && Spread(inp, out[..], out[..], nbr, 0, q)
    modifies out
    ensures Spread(inp, out[..], out[..], nbr, 0, q + 2)
  {
    hide ColumnGathered, Cell;
    ghost var was := out[..];
    SpreadSixteen(inp, out, nbr, q);
    forall c | 0 <= c < q ensures ColumnGathered(inp, out[..], nbr, c) {
      SameColumn(inp, was, out[..], nbr, c);
    }
  }

  lemma NothingSpread(inp: seq<byte>, out: seq<byte>, nbr: nat)
    requires |inp| == nbr * 8 && |out| == 8 * nbr
    ensures Spread(inp, out, out, nbr, 0, 0)
  {
  }

  lemma SpreadJoins(inp: seq<byte>, before: seq<byte>, now: seq<byte>, nbr: nat, from: nat)
    requires |inp| == nbr * 8 && |before| == |now| == 8 * nbr && from <= nbr
    requires Spread(inp, before, before, nbr, 0, from) && Spread(inp, before, now, nbr, from, nbr)
    ensures IsBitByteTranspose(inp, now, nbr)
  {
    hide ColumnGathered, Cell;
    forall q | 0 <= q < from ensures ColumnGathered(inp, now, nbr, q) {
      assert ColumnGathered(inp, before, nbr, q);
      SameColumn(inp, before, now, nbr, q);
    }
  }

  /** bshuf_trans_bit_byte_SSE. */
  method TransBitByteSse(inp: seq<byte>, out: array<byte>, size: nat, es: nat) returns (count: int)
    requires |inp| == size * es == out.Length
    modifies out
    ensures size * es % 8 != 0 ==> count == NOT_MULT_EIGHT && out[..] == old(out[..])
    ensures size * es % 8 == 0 ==> count == size * es && IsBitByteTranspose(inp, out[..], size * es / 8)
  {
    hide Spread, IsBitByteTranspose;
    var nbyte := es * size;
    if nbyte % 8 != 0 {
      return NOT_MULT_EIGHT;
    }
    var nbr := nbyte / 8;
    var ii := 0;
    ghost var rounds := 0;
    NothingSpread(inp, out[..], nbr);
    while ii + 15 < nbyte
      invariant ii <= nbyte && ii == 16 * rounds && Spread(inp, out[..], out[..], nbr, 0, 2 * rounds)
    {
      Halves(nbyte, rounds);
      SpreadRound(inp, out, nbr, ii / 8);
      ii, rounds := ii + 16, rounds + 1;
    }
    ghost var before := out[..];
    WholeRounds(nbyte, 16, rounds);
    Halves(nbyte, rounds);
    count := TransBitByteRemainder(inp, out, size, es, nbyte - nbyte % 16);
    SpreadJoins(inp, before, out[..], nbr, 2 * rounds);
  }

  lemma Halves(nbyte: nat, rounds: nat)
    ensures 16 * rounds / 8 == 2 * rounds
    ensures 16 * rounds <= nbyte ==> 2 * rounds <= nbyte / 8
    ensures 16 * rounds + 15 < nbyte ==> 2 * rounds + 1 < nbyte / 8
  {
  }

  /** bshuf_trans_bit_elem_SSE. */
  method TransBitElemSse(inp: seq<byte>, out: array<byte>, size: nat, es: nat) returns (count: int)
    requires |inp| == size * es == out.Length
    modifies out
    ensures size % 8 != 0 ==> count == NOT_MULT_EIGHT && out[..] == old(out[..])
    ensures size % 8 == 0 ==> count == size * es && IsBitTranspose(inp, out[..], size, es)
  {
    if size % 8 != 0 {
      return NOT_MULT_EIGHT;
    }
    hide IsTranspose, IsBitByteTranspose, IsElemTranspose, IsBitTranspose;
    Lengths(size, es);
    var tmp := new byte[size * es];
    count := TransByteElemSse(inp, out, size, es);
    ghost var t1 := out[..];
    count := TransBitByteSse(out[..], tmp, size, es);
    ghost var t2 := tmp[..];
    count := TransBitrowEight(tmp[..], out, size, es);
    StagesTransposeBits(inp, t1, t2, out[..], size, es);
  }

  // ------------------------------------------------------------ eight rows interleaved

  /** Bytes i and i + 1 of eight rows, as the two halves of one register. */
  function Interleaved(a: Xmm, b: Xmm, c: Xmm, d: Xmm, e: Xmm, f: Xmm, g: Xmm, h: Xmm, i: nat): Xmm
    requires i < 15
  {
    Xmm(Lane(a, i), Lane(b, i), Lane(c, i), Lane(d, i), Lane(e, i), Lane(f, i), Lane(g, i), Lane(h, i),
        Lane(a, i + 1), Lane(b, i + 1), Lane(c, i + 1), Lane(d, i + 1),
        Lane(e, i + 1), Lane(f, i + 1), Lane(g, i + 1), Lane(h, i + 1))
  }

  /** The unpack network of the interleave. */
  method InterleaveEight(a: Xmm, b: Xmm, c: Xmm, d: Xmm, e: Xmm, f: Xmm, g: Xmm, h: Xmm)
      returns (a1: Xmm, b1: Xmm, c1: Xmm, d1: Xmm, e1: Xmm, f1: Xmm, g1: Xmm, h1: Xmm)
    ensures a1 == Interleaved(a, b, c, d, e, f, g, h, 0) && b1 == Interleaved(a, b, c, d, e, f, g, h, 2)
    ensures c1 == Interleaved(a, b, c, d, e, f, g, h, 4) && d1 == Interleaved(a, b, c, d, e, f, g, h, 6)
    ensures e1 == Interleaved(a, b, c, d, e, f, g, h, 8) && f1 == Interleaved(a, b, c, d, e, f, g, h, 10)
    ensures g1 == Interleaved(a, b, c, d, e, f, g, h, 12) && h1 == Interleaved(a, b, c, d, e, f, g, h, 14)
  {
    a1 := UnpackLo8(a, b);
    b1 := UnpackLo8(c, d);
    c1 := UnpackLo8(e, f);
    d1 := UnpackLo8(g, h);
    e1 := UnpackHi8(a, b);
    f1 := UnpackHi8(c, d);
    g1 := UnpackHi8(e, f);
    h1 := UnpackHi8(g, h);

    var a0 := UnpackLo16(a1, b1);
    var b0 := UnpackLo16(c1, d1);
    var c0 := UnpackHi16(a1, b1);
    var d0 := UnpackHi16(c1, d1);

    var e0 := UnpackLo16(e1, f1);
    var f0 := UnpackLo16(g1, h1);
    var g0 := UnpackHi16(e1, f1);
    var h0 := UnpackHi16(g1, h1);

    a1 := UnpackLo32(a0, b0);
    b1 := UnpackHi32(a0, b0);

    c1 := UnpackLo32(c0, d0);
    d1 := UnpackHi32(c0, d0);

    e1 := UnpackLo32(e0, f0);
    f1 := UnpackHi32(e0, f0);

    g1 := UnpackLo32(g0, h0);
    h1 := UnpackHi32(g0, h0);
  }

  /** The lanes from `half` on are the bytes at column i of the eight rows from 8 * j on. */
  ghost predicate IsHalf(inp: seq<byte>, es: nat, nb: nat, j: nat, i: nat, x: Xmm, half: nat)
    requires |inp| == es * 8 * nb && j < es && i < nb && half <= 8
  {
    forall r :: 8 * j <= r < 8 * j + 8 ==> Lane(x, half + (r - 8 * j)) == Cell(inp, es * 8, nb, r, i)
  }

  lemma RowFits(rows: nat, nb: nat, r: nat, c: nat)
    requires r < rows && c + 16 <= nb
    ensures At(r, c, nb) + 16 <= rows * nb
  {
    hide At;
    AtBound(r, c + 15, rows, nb);
    AtShift(r, c, 15, nb);
  }

  function LoadRow(inp: seq<byte>, rows: nat, nb: nat, r: nat, c: nat): Xmm
    requires |inp| == rows * nb && r < rows && c + 16 <= nb
  {
    RowFits(rows, nb, r, c);
    Load(inp, At(r, c, nb))
  }

  lemma RowLane(inp: seq<byte>, rows: nat, nb: nat, r: nat, c: nat, i: nat)
    requires |inp| == rows * nb && r < rows && c + 16 <= nb && i < 16
    ensures Lane(LoadRow(inp, rows, nb, r, c), i) == Cell(inp, rows, nb, r, c + i)
  {
    hide At, Lane, Load;
    RowFits(rows, nb, r, c);
    LoadedLane(inp, At(r, c, nb), i);
    AtShift(r, c, i, nb);
    AtBound(r, c + i, rows, nb);
  }

  lemma InterleavedHalves(inp: seq<byte>, es: nat, nb: nat, j: nat, c: nat, a: seq<Xmm>, i: nat)
    requires |inp| == es * 8 * nb && j < es && c + 16 <= nb && i < 15 && |a| == 8
    requires forall k :: 0 <= k < 8 ==> a[k] == LoadRow(inp, es * 8, nb, 8 * j + k, c)
    ensures IsHalf(inp, es, nb, j, c + i, Interleaved(a[0], a[1], a[2], a[3], a[4], a[5], a[6], a[7], i), 0)
    ensures IsHalf(inp, es, nb, j, c + i + 1, Interleaved(a[0], a[1], a[2], a[3], a[4], a[5], a[6], a[7], i), 8)
  {
    hide LoadRow, Cell, Lane, Interleaved;
    var x, low, high := Interleaved(a[0], a[1], a[2], a[3], a[4], a[5], a[6], a[7], i), c + i, c + i + 1;
    forall r | 8 * j <= r < 8 * j + 8
      ensures Lane(x, r - 8 * j) == Cell(inp, es * 8, nb, r, low)
      ensures Lane(x, 8 + (r - 8 * j)) == Cell(inp, es * 8, nb, r, high)
    {
      InterleavedLane(a, i, r - 8 * j);
      RowLane(inp, es * 8, nb, r, c, i);
      RowLane(inp, es * 8, nb, r, c, i + 1);
    }
  }

  lemma InterleavedLane(a: seq<Xmm>, i: nat, k: nat)
    requires |a| == 8 && i < 15 && k < 8
    ensures Lane(Interleaved(a[0], a[1], a[2], a[3], a[4], a[5], a[6], a[7], i), k) == Lane(a[k], i)
    ensures Lane(Interleaved(a[0], a[1], a[2], a[3], a[4], a[5], a[6], a[7], i), 8 + k) == Lane(a[k], i + 1)
  {
    match k case 0 => case 1 => case 2 => case 3 => case 4 => case 5 => case 6 => case 7 =>
  }

  /**
   Rows before 8 * j are in place; of the next eight the bytes before c, and of the sixteen bytes from c on so many even
   and odd ones.
   */
  ghost predicate PairsMoved(inp: seq<byte>, out: seq<byte>, es: nat, nb: nat, j: nat, c: nat, even: nat, odd: nat)
    requires |inp| == es * 8 * nb && |out| == nb * (es * 8)
  {
    forall r, i :: 0 <= r < es * 8 && 0 <= i < nb ==>
      && (r < 8 * j
          || (r < 8 * j + 8 && (i < c || (i < c + 16 && (i - c) / 2 < if (i - c) % 2 == 0 then even else odd)))) ==>
      Cell(out, nb, es * 8, i, r) == Cell(inp, es * 8, nb, r, i)
  }

  /** _mm_storel_pi (half 0) and _mm_storeh_pi (half 8): eight bytes of row i. */
  method StoreHalf(out: array<byte>, rows: nat, cols: nat, i: nat, c: nat, x: Xmm, half: nat)
    requires out.Length == rows * cols && i < rows && c + 8 <= cols && half <= 8
    modifies out
    ensures forall r', c' :: 0 <= r' < rows && 0 <= c' < cols ==>
      Cell(out[..], rows, cols, r', c') ==
        if r' == i && c <= c' < c + 8 then Lane(x, half + (c' - c)) else old(Cell(out[..], rows, cols, r', c'))
  {
    hide Cell, Lane;
    var k := 0;
    while k < 8
      invariant k <= 8
      invariant forall r', c' :: 0 <= r' < rows && 0 <= c' < cols ==>
        Cell(out[..], rows, cols, r', c') ==
          if r' == i && c <= c' < c + k then Lane(x, half + (c' - c)) else old(Cell(out[..], rows, cols, r', c'))
    {
      SetCell(out, rows, cols, i, c + k, Lane(x, half + k));
      k := k + 1;
    }
  }

  method StoreLow(inp: seq<byte>, out: array<byte>, es: nat, nb: nat, j: nat, c: nat, m: nat, x: Xmm)
    requires |inp| == es * 8 * nb && out.Length == nb * (es * 8) && j < es && c + 16 <= nb && m < 8
    requires IsHalf(inp, es, nb, j, c + 2 * m, x, 0) && PairsMoved(inp, out[..], es, nb, j, c, m, 0)
    modifies out
    ensures PairsMoved(inp, out[..], es, nb, j, c, m + 1, 0)
  {
    hide Cell, Lane;
    StoreHalf(out, nb, es * 8, c + 2 * m, 8 * j, x, 0);
  }

  method StoreHigh(inp: seq<byte>, out: array<byte>, es: nat, nb: nat, j: nat, c: nat, m: nat, x: Xmm)
    requires |inp| == es * 8 * nb && out.Length == nb * (es * 8) && j < es && c + 16 <= nb && m < 8
    requires IsHalf(inp, es, nb, j, c + 2 * m + 1, x, 8) && PairsMoved(inp, out[..], es, nb, j, c, 8, m)
    modifies out
    ensures PairsMoved(inp, out[..], es, nb, j, c, 8, m + 1)
  {
    hide Cell, Lane;
    StoreHalf(out, nb, es * 8, c + 2 * m + 1, 8 * j, x, 8);
  }

  lemma PairsBegin(inp: seq<byte>, out: seq<byte>, es: nat, nb: nat, j: nat, c: nat)
    requires |inp| == es * 8 * nb && |out| == nb * (es * 8) && RowsMoved(inp, out, es, nb, j, c, 0)
    ensures PairsMoved(inp, out, es, nb, j, c, 0, 0)
  {
    hide Cell;
  }

  lemma PairsEnd(inp: seq<byte>, out: seq<byte>, es: nat, nb: nat, j: nat, c: nat)
    requires |inp| == es * 8 * nb && |out| == nb * (es * 8) && PairsMoved(inp, out, es, nb, j, c, 8, 8)
    ensures RowsMoved(inp, out, es, nb, j, c + 16, 0)
  {
    hide Cell;
  }

  /** Sixteen bytes of eight rows: eight loads, the network, sixteen half stores. */
  method InterleaveRound(inp: seq<byte>, out: array<byte>, es: nat, nb: nat, j: nat, c: nat)
    requires |inp| == es * 8 * nb && out.Length == nb * (es * 8) && j < es && c + 16 <= nb
    requires RowsMoved(inp, out[..], es, nb, j, c, 0)
    modifies out
    ensures RowsMoved(inp, out[..], es, nb, j, c + 16, 0)
  {
    hide LoadRow, Interleaved, IsHalf, PairsMoved, RowsMoved;
    var rows := es * 8;
    var a0 := LoadRow(inp, rows, nb, 8 * j, c);
    var b0 := LoadRow(inp, rows, nb, 8 * j + 1, c);
    var c0 := LoadRow(inp, rows, nb, 8 * j + 2, c);
    var d0 := LoadRow(inp, rows, nb, 8 * j + 3, c);
    var e0 := LoadRow(inp, rows, nb, 8 * j + 4, c);
    var f0 := LoadRow(inp, rows, nb, 8 * j + 5, c);
    var g0 := LoadRow(inp, rows, nb, 8 * j + 6, c);
    var h0 := LoadRow(inp, rows, nb, 8 * j + 7, c);
    ghost var regs := [a0, b0, c0, d0, e0, f0, g0, h0];
    PairsBegin(inp, out[..], es, nb, j, c);
    var a1, b1, c1, d1, e1, f1, g1, h1 := InterleaveEight(a0, b0, c0, d0, e0, f0, g0, h0);
    InterleavedHalves(inp, es, nb, j, c, regs, 0);
    InterleavedHalves(inp, es, nb, j, c, regs, 2);
    InterleavedHalves(inp, es, nb, j, c, regs, 4);
    InterleavedHalves(inp, es, nb, j, c, regs, 6);
    InterleavedHalves(inp, es, nb, j, c, regs, 8);
    InterleavedHalves(inp, es, nb, j, c, regs, 10);
    InterleavedHalves(inp, es, nb, j, c, regs, 12);
    InterleavedHalves(inp, es, nb, j, c, regs, 14);
    StoreLow(inp, out, es, nb, j, c, 0, a1);
    StoreLow(inp, out, es, nb, j, c, 1, b1);
    StoreLow(inp, out, es, nb, j, c, 2, c1);
    StoreLow(inp, out, es, nb, j, c, 3, d1);
    StoreLow(inp, out, es, nb, j, c, 4, e1);
    StoreLow(inp, out, es, nb, j, c, 5, f1);
    StoreLow(inp, out, es, nb, j, c, 6, g1);
    StoreLow(inp, out, es, nb, j, c, 7, h1);
    StoreHigh(inp, out, es, nb, j, c, 0, a1);
    StoreHigh(inp, out, es, nb, j, c, 1, b1);
    StoreHigh(inp, out, es, nb, j, c, 2, c1);
    StoreHigh(inp, out, es, nb, j, c, 3, d1);
    StoreHigh(inp, out, es, nb, j, c, 4, e1);
    StoreHigh(inp, out, es, nb, j, c, 5, f1);
    StoreHigh(inp, out, es, nb, j, c, 6, g1);
    StoreHigh(inp, out, es, nb, j, c, 7, h1);
    PairsEnd(inp, out[..], es, nb, j, c);
  }

  /** The eight single-byte stores of the columns left over. */
  method MoveColumn(inp: seq<byte>, out: array<byte>, es: nat, nb: nat, j: nat, c: nat)
    requires |inp| == es * 8 * nb && out.Length == nb * (es * 8) && j < es && c < nb
    requires RowsMoved(inp, out[..], es, nb, j, c, 0)
    modifies out
    ensures RowsMoved(inp, out[..], es, nb, j, c + 1, 0)
  {
    hide Cell;
    var k := 0;
    while k < 8
      invariant k <= 8 && RowsMoved(inp, out[..], es, nb, j, c, k)
    {
      SetCell(out, nb, es * 8, c, 8 * j + k, Cell(inp, es * 8, nb, 8 * j + k, c));
      k := k + 1;
    }
  }

  lemma RowsDone(inp: seq<byte>, out: seq<byte>, es: nat, nb: nat, j: nat)
    requires |inp| == es * 8 * nb && |out| == nb * (es * 8) && RowsMoved(inp, out, es, nb, j, nb, 0)
    ensures RowsMoved(inp, out, es, nb, j + 1, 0, 0)
  {
    hide Cell;
  }

  lemma RowsFinish(inp: seq<byte>, out: seq<byte>, es: nat, nb: nat)
    requires |inp| == es * 8 * nb && |out| == nb * (es * 8) && RowsMoved(inp, out, es, nb, es, 0, 0)
    ensures IsTranspose(inp, out, es * 8, nb)
  {
    hide Cell;
  }

  lemma RowsStart(inp: seq<byte>, out: seq<byte>, es: nat, nb: nat)
    requires |inp| == es * 8 * nb && |out| == nb * (es * 8)
    ensures RowsMoved(inp, out, es, nb, 0, 0, 0)
  {
    hide Cell;
  }

  /** Eight rows: sixteen bytes of each at a time, then the columns left over. */
  method MoveEightRows(inp: seq<byte>, out: array<byte>, es: nat, nb: nat, j: nat)
    requires |inp| == es * 8 * nb && out.Length == nb * (es * 8) && j < es
    requires RowsMoved(inp, out[..], es, nb, j, 0, 0)
    modifies out
    ensures RowsMoved(inp, out[..], es, nb, j + 1, 0, 0)
  {
    hide RowsMoved;
    var jj := 0;
    ghost var rounds := 0;
    while jj + 15 < nb
      invariant jj == 16 * rounds && jj <= nb && RowsMoved(inp, out[..], es, nb, j, jj, 0)
    {
      InterleaveRound(inp, out, es, nb, j, jj);
      jj, rounds := jj + 16, rounds + 1;
    }
    WholeRounds(nb, 16, rounds);
    jj := nb - nb % 16;
    while jj < nb
      invariant jj <= nb && RowsMoved(inp, out[..], es, nb, j, jj, 0)
    {
      MoveColumn(inp, out, es, nb, j, jj);
      jj := jj + 1;
    }
    RowsDone(inp, out[..], es, nb, j);
  }

  lemma RowGroup(ii: nat, j: nat)
    requires ii == 8 * j
    ensures ii / 8 == j
  {
  }

  /** bshuf_trans_byte_bitrow_SSE. */
  method TransByteBitrowSse(inp: seq<byte>, out: array<byte>, size: nat, es: nat) returns (count: int)
    requires |inp| == size * es == out.Length
    modifies out
    ensures size % 8 != 0 ==> count == NOT_MULT_EIGHT && out[..] == old(out[..])
    ensures size % 8 == 0 ==> count == size * es && IsTranspose(inp, out[..], es * 8, size / 8)
  {
    if size % 8 != 0 {
      return NOT_MULT_EIGHT;
    }
    hide RowsMoved, IsTranspose;
    var nrows := 8 * es;
    var nb := size / 8;
    Lengths(size, es);
    RowsStart(inp, out[..], es, nb);
    var ii := 0;
    ghost var j := 0;
    while ii + 7 < nrows
      invariant ii == 8 * j && j <= es && RowsMoved(inp, out[..], es, nb, j, 0, 0)
    {
      RowGroup(ii, j);
      MoveEightRows(inp, out, es, nb, ii / 8);
      ii, j := ii + 8, j + 1;
    }
    RowsFinish(inp, out[..], es, nb);
    return size * es;
  }

  // ------------------------------------------------------------ bits back into elements

  /** One register: two neighbouring words of a group, spread over its eight elements. */
  method SpreadTwoWords(inp: seq<byte>, out: array<byte>, size: nat, es: nat, b: nat, j: nat)
    requires size % 8 == 0 && |inp| == size * es == out.Length && b < size / 8 && j + 1 < es
    requires es % 2 == 0 && j % 2 == 0
    modifies out
    ensures WordSpread(inp, out[..], size, es, b, j) && WordSpread(inp, out[..], size, es, b, j + 1)
    ensures forall r, c :: 0 <= r < size && 0 <= c < es && (r / 8 != b || (c != j && c != j + 1)) ==>
      Cell(out[..], size, es, r, c) == old(Cell(out[..], size, es, r, c))
  {
    hide Cell, Gathered, Shifted, Load, MaskLow, MaskHigh, ShiftLeftOne, At;
    var p, j1 := At(b, 8 * j, es * 8), j + 1;
    TwoWords(size, es, b, j);
    var xmm := Load(inp, p);
    NotYetShifted(xmm);
    var kk := 0;
    while kk < 8
      invariant kk <= 8 && Shifted(Load(inp, p), xmm, kk)
      invariant forall r :: 8 * b + 8 - kk <= r < 8 * b + 8 ==>
        Gathered(Cell(out[..], size, es, r, j), inp, p, r - 8 * b)
      invariant forall r :: 8 * b + 8 - kk <= r < 8 * b + 8 ==>
        Gathered(Cell(out[..], size, es, r, j1), inp, p + 8, r - 8 * b)
      invariant forall r, c :: 0 <= r < size && 0 <= c < es && (r / 8 != b || (c != j && c != j1)) ==>
        Cell(out[..], size, es, r, c) == old(Cell(out[..], size, es, r, c))
    {
      MaskGathers(inp, p, xmm, kk);
      var low, high := MaskLow(xmm), MaskHigh(xmm);
      ShiftOnce(Load(inp, p), xmm, kk);
      xmm := ShiftLeftOne(xmm);
      StorePair(out, size, es, 8 * b + (7 - kk), j, low, high);
      kk := kk + 1;
    }
  }

  lemma TwoWords(size: nat, es: nat, b: nat, j: nat)
    requires size % 8 == 0 && b < size / 8 && j + 1 < es
    ensures At(b, 8 * (j + 1), es * 8) == At(b, 8 * j, es * 8) + 8
    ensures At(b, 8 * j, es * 8) + 16 <= size * es
  {
    hide At;
    AtShift(b, 8 * j, 8, es * 8);
    WordFits(size, es, b, j + 1);
  }

  /** The 16-bit store: it is aligned, so the two bytes land at columns j and j + 1 of row r. */
  method StorePair(out: array<byte>, size: nat, es: nat, r: nat, j: nat, low: byte, high: byte)
    requires out.Length == size * es && r < size && j + 1 < es && es % 2 == 0 && j % 2 == 0
    modifies out
    ensures forall r', c' :: 0 <= r' < size && 0 <= c' < es ==>
      Cell(out[..], size, es, r', c') ==
        if r' == r && c' == j then low
        else if r' == r && c' == j + 1 then high
        else old(Cell(out[..], size, es, r', c'))
  {
    ghost var before := out[..];
    var ind := At(r, j, es);
    EvenPlace(r, j, es);
    PairFits(size, es, r, j);
    out[2 * (ind / 2)] := low;
    out[2 * (ind / 2) + 1] := high;
    PairStored(before, out[..], size, es, r, j);
  }

  lemma EvenPlace(r: nat, j: nat, es: nat)
    requires es % 2 == 0 && j % 2 == 0
    ensures 2 * (At(r, j, es) / 2) == At(r, j, es)
  {
    assert r * es == 2 * (r * (es / 2));
  }

  lemma PairFits(size: nat, es: nat, r: nat, j: nat)
    requires r < size && j + 1 < es
    ensures At(r, j, es) + 1 == At(r, j + 1, es) < size * es
  {
    hide At;
    AtShift(r, j, 1, es);
    AtBound(r, j + 1, size, es);
  }

  lemma PairStored(before: seq<byte>, now: seq<byte>, size: nat, es: nat, r: nat, j: nat)
    requires |before| == |now| == size * es && r < size && j + 1 < es
    requires forall p :: 0 <= p < size * es && p != At(r, j, es) && p != At(r, j, es) + 1 ==> now[p] == before[p]
    ensures At(r, j, es) + 1 < size * es
    ensures forall r', c' :: 0 <= r' < size && 0 <= c' < es ==>
      Cell(now, size, es, r', c') == if r' == r && c' == j then now[At(r, j, es)]
        else if r' == r && c' == j + 1 then now[At(r, j, es) + 1] else Cell(before, size, es, r', c')
  {
    hide At;
    PairFits(size, es, r, j);
    forall r', c' | 0 <= r' < size && 0 <= c' < es
      ensures Cell(now, size, es, r', c') == if r' == r && c' == j then now[At(r, j, es)]
        else if r' == r && c' == j + 1 then now[At(r, j, es) + 1] else Cell(before, size, es, r', c')
    {
      AtBound(r', c', size, es);
      if r' != r || (c' != j && c' != j + 1) {
        AtInjective(r, j, r', c', es);
        AtInjective(r, j + 1, r', c', es);
      }
    }
  }

  /** The words of the groups before bb, and of group bb those before jj, are spread. */
  ghost predicate GroupsSpread(inp: seq<byte>, out: seq<byte>, size: nat, es: nat, bb: nat, jj: nat)
    requires size % 8 == 0 && |inp| == size * es == |out|
  {
    forall b, j :: 0 <= b < size / 8 && 0 <= j < es && (b < bb || (b == bb && j < jj)) ==>
      WordSpread(inp, out, size, es, b, j)
  }

  method SpreadNextTwo(inp: seq<byte>, out: array<byte>, size: nat, es: nat, b: nat, j: nat)
    requires size % 8 == 0 && |inp| == size * es == out.Length && b < size / 8 && j + 1 < es
    requires es % 2 == 0 && j % 2 == 0 && GroupsSpread(inp, out[..], size, es, b, j)
    modifies out
    ensures GroupsSpread(inp, out[..], size, es, b, j + 2)
  {
    hide WordSpread, Cell;
    ghost var was := out[..];
    SpreadTwoWords(inp, out, size, es, b, j);
    forall b', j' | 0 <= b' < size / 8 && 0 <= j' < es && (b' < b || (b' == b && j' < j + 2))
      ensures WordSpread(inp, out[..], size, es, b', j')
    {
      if b' != b || (j' != j && j' != j + 1) {
        assert WordSpread(inp, was, size, es, b', j');
        SameWord(inp, was, out[..], size, es, b', j');
      }
    }
  }

  lemma NoGroups(inp: seq<byte>, out: seq<byte>, size: nat, es: nat)
    requires size % 8 == 0 && |inp| == size * es == |out|
    ensures GroupsSpread(inp, out, size, es, 0, 0)
  {
  }

  lemma GroupDone(inp: seq<byte>, out: seq<byte>, size: nat, es: nat, b: nat)
    requires size % 8 == 0 && |inp| == size * es == |out| && GroupsSpread(inp, out, size, es, b, es)
    ensures GroupsSpread(inp, out, size, es, b + 1, 0)
  {
    hide WordSpread;
  }

  /** One group of eight elements, two words at a time. */
  method SpreadGroup(inp: seq<byte>, out: array<byte>, size: nat, es: nat, b: nat)
    requires size % 8 == 0 && |inp| == size * es == out.Length && b < size / 8 && es % 2 == 0
    requires GroupsSpread(inp, out[..], size, es, b, 0)
    modifies out
    ensures GroupsSpread(inp, out[..], size, es, b + 1, 0)
  {
    hide GroupsSpread;
    var jj := 0;
    ghost var j := 0;
    while jj + 15 < 8 * es
      invariant jj == 8 * j && j <= es && j % 2 == 0 && GroupsSpread(inp, out[..], size, es, b, j)
    {
      RowGroup(jj, j);
      SpreadNextTwo(inp, out, size, es, b, jj / 8);
      jj, j := jj + 16, j + 2;
    }
    GroupDone(inp, out[..], size, es, b);
  }

  lemma GroupsDone(inp: seq<byte>, out: seq<byte>, size: nat, es: nat)
    requires size % 8 == 0 && |inp| == size * es == |out| && (es == 0 || GroupsSpread(inp, out, size, es, size / 8, 0))
    ensures WordsSpread(inp, out, size, es, es, 0)
  {
    hide WordSpread;
  }

  /** bshuf_shuffle_bit_eightelem_SSE. */
  method ShuffleBitEightelemSse(inp: seq<byte>, out: array<byte>, size: nat, es: nat) returns (count: int)
    requires |inp| == size * es == out.Length
    modifies out
    ensures size % 8 != 0 ==> count == NOT_MULT_EIGHT && out[..] == old(out[..])
    ensures size % 8 == 0 ==> count == size * es && WordsSpread(inp, out[..], size, es, es, 0)
  {
    if size % 8 != 0 {
      return NOT_MULT_EIGHT;
    }
    hide WordsSpread, GroupsSpread;
    var nbyte := es * size;
    if es % 2 != 0 {
      var done := ShuffleBitEightelemScal(inp, out, size, es);
    } else {
      var ii := 0;
      ghost var b := 0;
      NoGroups(inp, out[..], size, es);
      // The bound is unsigned: for es == 0 it is never met.
      while 0 <= ii + 8 * es - 1 < nbyte
        invariant ii == b * (8 * es) && (b <= size / 8 || es == 0)
        invariant GroupsSpread(inp, out[..], size, es, b, 0)
        decreases nbyte - ii
      {
        NextGroup(size, es, b);
        DivExact(b, 8 * es);
        SpreadGroup(inp, out, size, es, ii / (8 * es));
        assert (b + 1) * (8 * es) == b * (8 * es) + 8 * es;
        ii := ii + 8 * es;
        b := b + 1;
      }
      if es > 0 {
        NextGroup(size, es, b);
      }
      GroupsDone(inp, out[..], size, es);
    }
    return size * es;
  }

  /** bshuf_untrans_bit_elem_SSE. */
  method UntransBitElemSse(inp: seq<byte>, out: array<byte>, size: nat, es: nat) returns (count: int)
    requires |inp| == size * es == out.Length
    modifies out
    ensures size % 8 != 0 ==> count == NOT_MULT_EIGHT && out[..] == old(out[..])
    ensures size % 8 == 0 ==> count == size * es && IsBitTranspose(out[..], inp, size, es)
  {
    if size % 8 != 0 {
      return NOT_MULT_EIGHT;
    }
    hide IsTranspose, IsBitTranspose, WordsSpread;
    var tmp := new byte[size * es];
    count := TransByteBitrowSse(inp, tmp, size, es);
    ghost var mid := tmp[..];
    count := ShuffleBitEightelemSse(tmp[..], out, size, es);
    StagesRestoreBits(inp, mid, out[..], size, es);
  }
}
