/** The scalar bit transposes: whole elements to bit rows, and back. */
module BitTranspose {
  import opened Basics
  import opened Bytes
  import opened Words
  import opened Matrix
  import opened EightByEight
  import opened ByteTranspose

  // ------------------------------------------------------------ what is computed

  /**
   Byte b of bit row (j, k) of `out` holds, as bit c, bit k of byte j of the
   element 8 * b + c of `inp`.
   */
  ghost predicate BitMoved(inp: seq<byte>, out: seq<byte>, size: nat, es: nat, j: nat, k: nat, b: nat, c: nat)
    requires |inp| == size * es && |out| == es * 8 * (size / 8)
    requires j < es && k < 8 && b < size / 8 && c < 8
  {
    Bit(Cube(out, es, 8, size / 8, j, k, b), c) == Bit(Cell(inp, size, es, 8 * b + c, j), k)
  }

  /** `out` is the transpose of the size x (8 * es) bit matrix `inp`. */
  ghost predicate IsBitTranspose(inp: seq<byte>, out: seq<byte>, size: nat, es: nat) {
    && size % 8 == 0 && |inp| == size * es && |out| == es * 8 * (size / 8)
    && forall j, k, b, c :: 0 <= j < es && 0 <= k < 8 && 0 <= b < size / 8 && 0 <= c < 8 ==>
         BitMoved(inp, out, size, es, j, k, b, c)
  }

  /** The ways the code counts the bytes of a buffer of whole eights agree. */
  lemma Lengths(size: nat, es: nat)
    requires size % 8 == 0
    ensures size * es == es * size == es * 8 * (size / 8) == 8 * es * (size / 8)
    ensures size * es == size / 8 * es * 8 == size / 8 * (es * 8)
    ensures size * es % 8 == 0 && size * es / 8 == es * (size / 8)
    ensures size * es == 8 * (size * es / 8) == size * es / 8 * 8
  {
    var n := size / 8;
    assert size == 8 * n;
    assert 8 * n * es == 8 * (es * n);
    assert n * es * 8 == 8 * (n * es) && n * es == es * n;
    assert n * (es * 8) == n * es * 8;
    assert es * 8 * n == 8 * (es * n);
  }

  // ------------------------------------------------------------ one word

  /** Bit c of `v` is bit k of the byte at p + c. */
  ghost predicate Gathered(v: byte, s: seq<byte>, p: nat, k: nat)
    requires p + 8 <= |s| && k < 8
  {
    forall c :: 0 <= c < 8 ==> Bit(v, c) == Bit(s[p + c], k)
  }

  /** The bytes of `x` from the lowest on are the gathered bits kk, kk + 1, ... */
  ghost predicate Pending(x: bv64, kk: nat, s: seq<byte>, p: nat)
    requires p + 8 <= |s| && kk <= 8
  {
    forall r :: 0 <= r < 8 - kk ==> Gathered(Value(ByteAt(x, r)), s, p, kk + r)
  }

  lemma ByteOfWord(s: seq<byte>, p: nat, k: nat)
    requires p + 8 <= |s| && k < 8
    ensures ByteAt(Word(s, p), k) == Bits(s[p + k])
  {
    hide Load64, ByteAt;
    LoadedByte(Eight(s, p), k);
  }

  lemma SwapGathers(s: seq<byte>, p: nat, y: bv64)
    requires p + 8 <= |s| && IsSwap(Word(s, p), y)
    ensures Pending(y, 0, s, p)
  {
    hide ByteAt, Word, BitOf;
    forall r | 0 <= r < 8 ensures Gathered(Value(ByteAt(y, r)), s, p, r) {
      forall c | 0 <= c < 8 ensures Bit(Value(ByteAt(y, r)), c) == Bit(s[p + c], r) {
        ByteOfWord(s, p, c);
        BitsOfValue(ByteAt(y, r));
      }
    }
  }

  lemma NextPending(x: bv64, kk: nat, s: seq<byte>, p: nat)
    requires p + 8 <= |s| && kk < 8 && Pending(x, kk, s, p)
    ensures Gathered(Value(ByteAt(x, 0)), s, p, kk)
    ensures Pending(x >> 8, kk + 1, s, p)
  {
    hide ByteAt, Gathered;
    var y := x >> 8;
    forall r | 0 <= r < 7 - kk ensures Gathered(Value(ByteAt(y, r)), s, p, kk + 1 + r) {
      NextByte(x, r);
      assert Gathered(Value(ByteAt(x, r + 1)), s, p, kk + (r + 1));
    }
  }

  /** An 8-byte load followed by the 8 x 8 bit transpose. */
  method LoadSwapped(s: seq<byte>, p: nat) returns (x: bv64)
    requires p + 8 <= |s|
    ensures Pending(x, 0, s, p)
  {
    hide IsSwap, Word, Pending;
    x := TransBit8x8(Word(s, p));
    SwapGathers(s, p, x);
  }

  // ------------------------------------------------------------ bits within bytes

  /** Column q of the eight bit rows of `out` is gathered from the eight bytes at 8 * q. */
  ghost predicate ColumnGathered(inp: seq<byte>, out: seq<byte>, nbr: nat, q: nat)
    requires |inp| == nbr * 8 && |out| == 8 * nbr && q < nbr
  {
    forall k :: 0 <= k < 8 ==> Gathered(Cell(out, 8, nbr, k, q), inp, 8 * q, k)
  }

  /** The store loop of one word. */
  method SpreadWord(inp: seq<byte>, out: array<byte>, nbr: nat, ii: nat)
    requires |inp| == nbr * 8 && out.Length == 8 * nbr && ii < nbr
    modifies out
    ensures ColumnGathered(inp, out[..], nbr, ii)
    ensures forall k, q :: 0 <= k < 8 && 0 <= q < nbr && q != ii ==>
      Cell(out[..], 8, nbr, k, q) == old(Cell(out[..], 8, nbr, k, q))
  {
    hide Cell, ByteAt, Gathered, Pending;
    var x := LoadSwapped(inp, 8 * ii);
    var kk := 0;
    while kk < 8
      invariant kk <= 8 && Pending(x, kk, inp, 8 * ii)
      invariant forall k :: 0 <= k < kk ==> Gathered(Cell(out[..], 8, nbr, k, ii), inp, 8 * ii, k)
      invariant forall k, q :: 0 <= k < 8 && 0 <= q < nbr && q != ii ==>
        Cell(out[..], 8, nbr, k, q) == old(Cell(out[..], 8, nbr, k, q))
    {
      NextPending(x, kk, inp, 8 * ii);
      SetCell(out, 8, nbr, kk, ii, Value(ByteAt(x, 0)));
      x := x >> 8;
      kk := kk + 1;
    }
  }

  /** Columns from..to hold gathered bits, the columns before `from` are as before. */
  ghost predicate Spread(inp: seq<byte>, before: seq<byte>, now: seq<byte>, nbr: nat, from: nat, to: nat)
    requires |inp| == nbr * 8 && |before| == |now| == 8 * nbr
  {
    && (forall q :: from <= q < to && q < nbr ==> ColumnGathered(inp, now, nbr, q))
    && (forall k, q :: 0 <= k < 8 && 0 <= q < nbr && q < from ==> Cell(now, 8, nbr, k, q) == Cell(before, 8, nbr, k, q))
  }

  lemma SameColumn(inp: seq<byte>, s: seq<byte>, t: seq<byte>, nbr: nat, q: nat)
    requires |inp| == nbr * 8 && |s| == |t| == 8 * nbr && q < nbr
    requires forall k :: 0 <= k < 8 ==> Cell(s, 8, nbr, k, q) == Cell(t, 8, nbr, k, q)
    requires ColumnGathered(inp, s, nbr, q)
    ensures ColumnGathered(inp, t, nbr, q)
  {
    hide Gathered, Cell;
  }

  /** bshuf_trans_bit_byte_remainder: gathers from byte `start` on and leaves earlier columns alone. */
  method TransBitByteRemainder(inp: seq<byte>, out: array<byte>, size: nat, es: nat, start: nat) returns (count: int)
    requires |inp| == size * es == out.Length
    modifies out
    ensures size * es % 8 != 0 || start % 8 != 0 ==> count == NOT_MULT_EIGHT && out[..] == old(out[..])
    ensures size * es % 8 == 0 && start % 8 == 0 ==>
      && count == size * es
      && Spread(inp, old(out[..]), out[..], size * es / 8, start / 8, size * es / 8)
  {
    hide Cell, ColumnGathered;
    var nbyte := es * size;
    var nbr := nbyte / 8;
    if nbyte % 8 != 0 {
      return NOT_MULT_EIGHT;
    }
    if start % 8 != 0 {
      return NOT_MULT_EIGHT;
    }
    ghost var before := out[..];
    var ii := start / 8;
    while ii < nbr
      invariant start / 8 <= ii && Spread(inp, before, out[..], nbr, start / 8, ii)
    {
      ghost var was := out[..];
      SpreadWord(inp, out, nbr, ii);
      forall q | start / 8 <= q < ii ensures ColumnGathered(inp, out[..], nbr, q) {
        SameColumn(inp, was, out[..], nbr, q);
      }
      ii := ii + 1;
    }
    return size * es;
  }

  /** bshuf_trans_bit_byte_scal. */
  method TransBitByteScal(inp: seq<byte>, out: array<byte>, size: nat, es: nat) returns (count: int)
    requires |inp| == size * es == out.Length
    modifies out
    ensures size * es % 8 != 0 ==> count == NOT_MULT_EIGHT && out[..] == old(out[..])
    ensures size * es % 8 == 0 ==> count == size * es && IsBitByteTranspose(inp, out[..], size * es / 8)
  {
    count := TransBitByteRemainder(inp, out, size, es, 0);
  }

  /** All eight bit rows of `out` are gathered. */
  ghost predicate IsBitByteTranspose(inp: seq<byte>, out: seq<byte>, nbr: nat) {
    && |inp| == nbr * 8 && |out| == 8 * nbr
    && forall q :: 0 <= q < nbr ==> ColumnGathered(inp, out, nbr, q)
  }

  // ------------------------------------------------------------ the three stages

  lemma BitThroughStages(inp: seq<byte>, t1: seq<byte>, t2: seq<byte>, out: seq<byte>, size: nat, es: nat, j: nat,
                      k: nat, b: nat, c: nat)
    requires size % 8 == 0 && IsTranspose(inp, t1, size, es) && IsBitByteTranspose(t1, t2, size * es / 8)
    requires IsElemTranspose(t2, out, 8, es, size / 8) && j < es && k < 8 && b < size / 8 && c < 8
    ensures BitMoved(inp, out, size, es, j, k, b, c)
  {
    hide Cell, Bit, At, Cube;
    var nb := size / 8;
    var nbr := size * es / 8;
    Lengths(size, es);
    assert Cube(out, es, 8, nb, j, k, b) == Cube(t2, 8, es, nb, k, j, b);
    CubeIsCell(t2, 8, es, nb, k, j, b);
    var q := At(j, b, nb);
    assert ColumnGathered(t1, t2, nbr, q);
    assert Gathered(Cell(t2, 8, nbr, k, q), t1, 8 * q, k);
    FlatColumn(t1, size, es, j, b, c);
    assert Cell(t1, es, size, j, 8 * b + c) == Cell(inp, size, es, 8 * b + c, j);
  }

  /** Byte c of the word at column (j, b) is byte j of element 8 * b + c. */
  lemma FlatColumn(t1: seq<byte>, size: nat, es: nat, j: nat, b: nat, c: nat)
    requires size % 8 == 0 && |t1| == es * size && j < es && b < size / 8 && c < 8
    ensures 8 * At(j, b, size / 8) + c < |t1|
    ensures t1[8 * At(j, b, size / 8) + c] == Cell(t1, es, size, j, 8 * b + c)
  {
    var nb := size / 8;
    AtBound(j, 8 * b + c, es, size);
    calc {
      8 * At(j, b, nb) + c;
      8 * (j * nb + b) + c;
      { assert 8 * (j * nb) == j * (8 * nb); }
      j * size + 8 * b + c;
      At(j, 8 * b + c, size);
    }
  }

  lemma StagesTransposeBits(inp: seq<byte>, t1: seq<byte>, t2: seq<byte>, out: seq<byte>, size: nat, es: nat)
    requires size % 8 == 0 && IsTranspose(inp, t1, size, es) && IsBitByteTranspose(t1, t2, size * es / 8)
    requires IsElemTranspose(t2, out, 8, es, size / 8)
    ensures IsBitTranspose(inp, out, size, es)
  {
    hide IsTranspose, IsBitByteTranspose, IsElemTranspose, BitMoved;
    assert |inp| == size * es && |out| == es * 8 * (size / 8) by {
      StageLengths(inp, t1, t2, out, size, es);
    }
    forall j, k, b, c | 0 <= j < es && 0 <= k < 8 && 0 <= b < size / 8 && 0 <= c < 8
      ensures BitMoved(inp, out, size, es, j, k, b, c)
    {
      BitThroughStages(inp, t1, t2, out, size, es, j, k, b, c);
    }
  }

  lemma StageLengths(inp: seq<byte>, t1: seq<byte>, t2: seq<byte>, out: seq<byte>, size: nat, es: nat)
    requires size % 8 == 0 && IsTranspose(inp, t1, size, es)
    requires IsElemTranspose(t2, out, 8, es, size / 8)
    ensures |inp| == size * es && |out| == es * 8 * (size / 8)
  {
    hide Cell, Cube;
  }

  /** bshuf_trans_bit_elem_scal. */
  method TransBitElemScal(inp: seq<byte>, out: array<byte>, size: nat, es: nat) returns (count: int)
    requires |inp| == size * es == out.Length
    modifies out
    ensures size % 8 != 0 ==> count == NOT_MULT_EIGHT && out[..] == old(out[..])
    ensures size % 8 == 0 ==> count == size * es && IsBitTranspose(inp, out[..], size, es)
  {
    if size % 8 != 0 {
      return NOT_MULT_EIGHT;
    }
    hide IsTranspose, IsBitByteTranspose, IsElemTranspose, IsBitTranspose;
    Lengths(size, es);
    var tmp := new byte[size * es];
    count := TransByteElemScal(inp, out, size, es);
    ghost var t1 := out[..];
    count := TransBitByteScal(out[..], tmp, size, es);
    ghost var t2 := tmp[..];
    count := TransBitrowEight(tmp[..], out, size, es);
    StagesTransposeBits(inp, t1, t2, out[..], size, es);
  }

  // ------------------------------------------------------------ and back

  /** Bit rows before 8 * jj are in place, of the next eight the bytes before ii, and of byte ii the first kk rows. */
  ghost predicate RowsMoved(inp: seq<byte>, out: seq<byte>, es: nat, nb: nat, jj: nat, ii: nat, kk: nat)
    requires |inp| == es * 8 * nb && |out| == nb * (es * 8)
  {
    forall r, i :: 0 <= r < es * 8 && 0 <= i < nb ==>
      (r < 8 * jj || (r < 8 * jj + 8 && i < ii) || (r < 8 * jj + kk && i == ii)) ==>
      Cell(out, nb, es * 8, i, r) == Cell(inp, es * 8, nb, r, i)
  }

  /** bshuf_trans_byte_bitrow_scal: the transpose of the es * 8 bit rows, as bytes. */
  method TransByteBitrowScal(inp: seq<byte>, out: array<byte>, size: nat, es: nat) returns (count: int)
    requires |inp| == size * es == out.Length
    modifies out
    ensures size % 8 != 0 ==> count == NOT_MULT_EIGHT && out[..] == old(out[..])
    ensures size % 8 == 0 ==> count == size * es && IsTranspose(inp, out[..], es * 8, size / 8)
  {
    hide Cell;
    var nb := size / 8;
    if size % 8 != 0 {
      return NOT_MULT_EIGHT;
    }
    Lengths(size, es);
    var jj := 0;
    while jj < es
      invariant jj <= es && RowsMoved(inp, out[..], es, nb, jj, 0, 0)
    {
      var ii := 0;
      while ii < nb
        invariant ii <= nb && RowsMoved(inp, out[..], es, nb, jj, ii, 0)
      {
        var kk := 0;
        while kk < 8
          invariant kk <= 8 && RowsMoved(inp, out[..], es, nb, jj, ii, kk)
        {
          SetCell(out, nb, es * 8, ii, jj * 8 + kk, Cell(inp, es * 8, nb, jj * 8 + kk, ii));
          kk := kk + 1;
        }
        ii := ii + 1;
      }
      jj := jj + 1;
    }
    return size * es;
  }

  /** Byte j of the eight elements from 8 * b on is gathered from the word (b, j) of `inp`. */
  ghost predicate WordSpread(inp: seq<byte>, out: seq<byte>, size: nat, es: nat, b: nat, j: nat)
    requires size % 8 == 0 && |inp| == size * es == |out| && b < size / 8 && j < es
  {
    WordFits(size, es, b, j);
    forall r :: 8 * b <= r < 8 * b + 8 ==> Gathered(Cell(out, size, es, r, j), inp, At(b, 8 * j, es * 8), r - 8 * b)
  }

  lemma WordFits(size: nat, es: nat, b: nat, j: nat)
    requires size % 8 == 0 && b < size / 8 && j < es
    ensures At(b, 8 * j, es * 8) + 8 <= size * es
  {
    hide At;
    Lengths(size, es);
    AtBound(b, 8 * j + 7, size / 8, es * 8);
    AtShift(b, 8 * j, 7, es * 8);
  }

  lemma AtShift(r: nat, c: nat, d: nat, cols: nat)
    ensures At(r, c + d, cols) == At(r, c, cols) + d
  {
  }

  /** The store loop of one word of an eight-element group. */
  method SpreadOverElems(inp: seq<byte>, out: array<byte>, size: nat, es: nat, b: nat, j: nat)
    requires size % 8 == 0 && |inp| == size * es == out.Length && b < size / 8 && j < es
    modifies out
    ensures WordSpread(inp, out[..], size, es, b, j)
    ensures forall r, c :: 0 <= r < size && 0 <= c < es && (r / 8 != b || c != j) ==>
      Cell(out[..], size, es, r, c) == old(Cell(out[..], size, es, r, c))
  {
    hide Cell, ByteAt, Gathered, Pending, At;
    WordFits(size, es, b, j);
    var p := At(b, 8 * j, es * 8);
    var x := LoadSwapped(inp, p);
    var kk := 0;
    while kk < 8
      invariant kk <= 8 && Pending(x, kk, inp, p)
      invariant forall r :: 8 * b <= r < 8 * b + kk ==> Gathered(Cell(out[..], size, es, r, j), inp, p, r - 8 * b)
      invariant forall r, c :: 0 <= r < size && 0 <= c < es && (r / 8 != b || c != j) ==>
        Cell(out[..], size, es, r, c) == old(Cell(out[..], size, es, r, c))
    {
      NextPending(x, kk, inp, p);
      SetCell(out, size, es, 8 * b + kk, j, Value(ByteAt(x, 0)));
      x := x >> 8;
      kk := kk + 1;
    }
  }

  lemma SameWord(inp: seq<byte>, s: seq<byte>, t: seq<byte>, size: nat, es: nat, b: nat, j: nat)
    requires size % 8 == 0 && |inp| == size * es == |s| == |t| && b < size / 8 && j < es
    requires forall r :: 8 * b <= r < 8 * b + 8 ==> Cell(s, size, es, r, j) == Cell(t, size, es, r, j)
    requires WordSpread(inp, s, size, es, b, j)
    ensures WordSpread(inp, t, size, es, b, j)
  {
    hide Gathered, Cell, At;
    WordFits(size, es, b, j);
  }

  /** All words of the columns before jj, and of column jj those before b, are spread. */
  ghost predicate WordsSpread(inp: seq<byte>, out: seq<byte>, size: nat, es: nat, jj: nat, bb: nat)
    requires size % 8 == 0 && |inp| == size * es == |out|
  {
    forall b, j :: 0 <= b < size / 8 && 0 <= j < es && (j < jj || (j == jj && b < bb)) ==>
      WordSpread(inp, out, size, es, b, j)
  }

  method SpreadNext(inp: seq<byte>, out: array<byte>, size: nat, es: nat, b: nat, j: nat)
    requires size % 8 == 0 && |inp| == size * es == out.Length && b < size / 8 && j < es
    requires WordsSpread(inp, out[..], size, es, j, b)
    modifies out
    ensures WordsSpread(inp, out[..], size, es, j, b + 1)
  {
    hide WordSpread, Cell;
    ghost var was := out[..];
    SpreadOverElems(inp, out, size, es, b, j);
    forall b', j' | 0 <= b' < size / 8 && 0 <= j' < es && (j' < j || (j' == j && b' < b + 1))
      ensures WordSpread(inp, out[..], size, es, b', j')
    {
      if b' != b || j' != j {
        assert WordSpread(inp, was, size, es, b', j');
        SameWord(inp, was, out[..], size, es, b', j');
      }
    }
  }

  /** The group that starts at byte ii is group number ii / (8 * es). */
  lemma NextGroup(size: nat, es: nat, b: nat)
    requires size % 8 == 0 && es > 0
    ensures b < size / 8 <==> b * (8 * es) + 8 * es - 1 < es * size
  {
    var n := size / 8;
    assert es * size == n * (8 * es) by {
      assert size == 8 * n;
      assert es * (8 * n) == n * (8 * es);
    }
    if b < n {
      MulMonotone(b + 1, n, 8 * es);
      assert (b + 1) * (8 * es) == b * (8 * es) + 8 * es;
    } else {
      MulMonotone(n, b, 8 * es);
    }
  }

  /** bshuf_shuffle_bit_eightelem_scal: one word per byte position of every group of eight elements. */
  method ShuffleBitEightelemScal(inp: seq<byte>, out: array<byte>, size: nat, es: nat) returns (count: int)
    requires |inp| == size * es == out.Length
    modifies out
    ensures size % 8 != 0 ==> count == NOT_MULT_EIGHT && out[..] == old(out[..])
    ensures size % 8 == 0 ==> count == size * es && WordsSpread(inp, out[..], size, es, es, 0)
  {
    if size % 8 != 0 {
      return NOT_MULT_EIGHT;
    }
    hide WordSpread;
    var nbyte := es * size;
    var jj := 0;
    while jj < 8 * es
      invariant jj % 8 == 0 && jj <= 8 * es && WordsSpread(inp, out[..], size, es, jj / 8, 0)
    {
      var ii := 0;
      ghost var b := 0;
      NextGroup(size, es, b);
      while ii + 8 * es - 1 < nbyte
        invariant ii == b * (8 * es) && b <= size / 8
        invariant b < size / 8 <==> ii + 8 * es - 1 < nbyte
        invariant WordsSpread(inp, out[..], size, es, jj / 8, b)
        decreases nbyte - ii
      {
        var group := ii / (8 * es);
        DivExact(b, 8 * es);
        SpreadNext(inp, out, size, es, group, jj / 8);
        NextGroup(size, es, b + 1);
        assert (b + 1) * (8 * es) == b * (8 * es) + 8 * es;
        ii := ii + 8 * es;
        b := b + 1;
      }
      jj := jj + 8;
    }
    return size * es;
  }

  lemma BitThroughBack(inp: seq<byte>, mid: seq<byte>, out: seq<byte>, size: nat, es: nat, j: nat, k: nat, b: nat,
                       c: nat)
    requires size % 8 == 0 && |inp| == size * es == |mid| == |out| && IsTranspose(inp, mid, es * 8, size / 8)
    requires WordsSpread(mid, out, size, es, es, 0) && j < es && k < 8 && b < size / 8 && c < 8
    ensures |inp| == es * 8 * (size / 8) && BitMoved(out, inp, size, es, j, k, b, c)
  {
    hide Cell, Bit, At;
    var nb := size / 8;
    Lengths(size, es);
    WordFits(size, es, b, j);
    assert WordSpread(mid, out, size, es, b, j);
    assert Gathered(Cell(out, size, es, 8 * b + c, j), mid, At(b, 8 * j, es * 8), c);
    FlatRow(mid, nb, es, b, j, k);
    AtBound(j, k, es, 8);
    assert At(j, k, 8) == 8 * j + k by { AtEight(j, k); }
    assert Cell(mid, nb, es * 8, b, 8 * j + k) == Cell(inp, es * 8, nb, 8 * j + k, b);
  }

  lemma AtEight(j: nat, k: nat)
    ensures At(j, k, 8) == 8 * j + k
  {
  }

  lemma FlatRow(mid: seq<byte>, nb: nat, es: nat, b: nat, j: nat, k: nat)
    requires |mid| == nb * (es * 8) && b < nb && j < es && k < 8
    ensures At(b, 8 * j, es * 8) + k < |mid|
    ensures mid[At(b, 8 * j, es * 8) + k] == Cell(mid, nb, es * 8, b, 8 * j + k)
  {
    hide At;
    AtBound(b, 8 * j + k, nb, es * 8);
    AtShift(b, 8 * j, k, es * 8);
  }

  lemma StagesRestoreBits(inp: seq<byte>, mid: seq<byte>, out: seq<byte>, size: nat, es: nat)
    requires size % 8 == 0 && |inp| == size * es == |mid| == |out| && IsTranspose(inp, mid, es * 8, size / 8)
    requires WordsSpread(mid, out, size, es, es, 0)
    ensures IsBitTranspose(out, inp, size, es)
  {
    hide IsTranspose, WordsSpread, BitMoved;
    Lengths(size, es);
    forall j, k, b, c | 0 <= j < es && 0 <= k < 8 && 0 <= b < size / 8 && 0 <= c < 8
      ensures BitMoved(out, inp, size, es, j, k, b, c)
    {
      BitThroughBack(inp, mid, out, size, es, j, k, b, c);
    }
  }

  /** bshuf_untrans_bit_elem_scal: `out` is the matrix whose transpose is `inp`. */
  method UntransBitElemScal(inp: seq<byte>, out: array<byte>, size: nat, es: nat) returns (count: int)
    requires |inp| == size * es == out.Length
    modifies out
    ensures size % 8 != 0 ==> count == NOT_MULT_EIGHT && out[..] == old(out[..])
    ensures size % 8 == 0 ==> count == size * es && IsBitTranspose(out[..], inp, size, es)
  {
    if size % 8 != 0 {
      return NOT_MULT_EIGHT;
    }
    hide IsTranspose, IsBitTranspose, WordsSpread;
    var tmp := new byte[size * es];
    count := TransByteBitrowScal(inp, tmp, size, es);
    ghost var mid := tmp[..];
    count := ShuffleBitEightelemScal(tmp[..], out, size, es);
    StagesRestoreBits(inp, mid, out[..], size, es);
  }
}
