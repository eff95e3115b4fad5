/** What the bit transposes mean: the plain transpose of a bit matrix, determined in both directions. */
module BitMatrix {
  import opened Bytes
  import opened Matrix
  import opened EightByEight
  import opened BitTranspose

  /** Bit n of a buffer, lowest bit of the first byte first. */
  function BitAt(s: seq<byte>, n: nat): bool
    requires n < 8 * |s|
  {
    Bit(s[n / 8], n % 8)
  }

  lemma InRange(size: nat, es: nat, i: nat, m: nat)
    requires i < size && m < 8 * es
    ensures m * size + i < 8 * (size * es) && i * (8 * es) + m < 8 * (size * es)
  {
    AtBound(m, i, 8 * es, size);
    AtBound(i, m, size, 8 * es);
    assert 8 * es * size == 8 * (size * es) == size * (8 * es);
  }

  /** Bit i of bit row m of `out` is bit m of element i of `inp`. */
  ghost predicate BitOfElement(inp: seq<byte>, out: seq<byte>, size: nat, es: nat, i: nat, m: nat)
    requires |inp| == |out| == size * es && i < size && m < 8 * es
  {
    InRange(size, es, i, m);
    BitAt(out, m * size + i) == BitAt(inp, i * (8 * es) + m)
  }

  ghost predicate IsPlainTranspose(inp: seq<byte>, out: seq<byte>, size: nat, es: nat) {
    && |inp| == |out| == size * es
    && forall i, m :: 0 <= i < size && 0 <= m < 8 * es ==> BitOfElement(inp, out, size, es, i, m)
  }

  lemma OutputPlace(j: nat, k: nat, b: nat, c: nat, size: nat)
    requires size % 8 == 0 && k < 8 && c < 8
    ensures (8 * j + k) * size + (8 * b + c) == 8 * At(At(j, k, 8), b, size / 8) + c
  {
    var nb := size / 8;
    assert (8 * j + k) * (8 * nb) == 8 * ((8 * j + k) * nb);
  }

  lemma InputPlace(j: nat, k: nat, b: nat, c: nat, es: nat)
    requires k < 8 && c < 8
    ensures (8 * b + c) * (8 * es) + (8 * j + k) == 8 * At(8 * b + c, j, es) + k
  {
    assert (8 * b + c) * (8 * es) == 8 * ((8 * b + c) * es);
  }

  lemma BitMovedIsBitOfElement(inp: seq<byte>, out: seq<byte>, size: nat, es: nat, j: nat, k: nat, b: nat, c: nat)
    requires size % 8 == 0 && |inp| == size * es == |out|
    requires j < es && k < 8 && b < size / 8 && c < 8
    ensures |out| == es * 8 * (size / 8)
    ensures BitMoved(inp, out, size, es, j, k, b, c) == BitOfElement(inp, out, size, es, 8 * b + c, 8 * j + k)
  {
    hide At, Bit;
    Lengths(size, es);
    InRange(size, es, 8 * b + c, 8 * j + k);
    OutputPlace(j, k, b, c, size);
    InputPlace(j, k, b, c, es);
    AtBound(8 * b + c, j, size, es);
    AtBound(j, k, es, 8);
    AtBound(At(j, k, 8), b, es * 8, size / 8);
  }

  /** The stored form is exactly the transpose of the size x (8 * es) matrix of bits. */
  lemma BitTransposeIsPlain(inp: seq<byte>, out: seq<byte>, size: nat, es: nat)
    requires size % 8 == 0
    ensures IsBitTranspose(inp, out, size, es) <==> IsPlainTranspose(inp, out, size, es)
  {
    hide BitMoved, BitOfElement;
    Lengths(size, es);
    if IsBitTranspose(inp, out, size, es) {
      forall i, m | 0 <= i < size && 0 <= m < 8 * es ensures BitOfElement(inp, out, size, es, i, m) {
        BitMovedIsBitOfElement(inp, out, size, es, m / 8, m % 8, i / 8, i % 8);
      }
    }
    if IsPlainTranspose(inp, out, size, es) {
      forall j, k, b, c | 0 <= j < es && 0 <= k < 8 && 0 <= b < size / 8 && 0 <= c < 8
        ensures BitMoved(inp, out, size, es, j, k, b, c)
      {
        BitMovedIsBitOfElement(inp, out, size, es, j, k, b, c);
      }
    }
  }

  lemma SameElementByte(a: seq<byte>, b: seq<byte>, out: seq<byte>, size: nat, es: nat, r: nat, j: nat)
    requires IsBitTranspose(a, out, size, es) && IsBitTranspose(b, out, size, es) && r < size && j < es
    ensures Cell(a, size, es, r, j) == Cell(b, size, es, r, j)
  {
    hide Cell, Cube, Bit;
    forall k | 0 <= k < 8 ensures Bit(Cell(a, size, es, r, j), k) == Bit(Cell(b, size, es, r, j), k) {
      assert BitMoved(a, out, size, es, j, k, r / 8, r % 8) && BitMoved(b, out, size, es, j, k, r / 8, r % 8);
      assert 8 * (r / 8) + r % 8 == r;
    }
    SameBits(Cell(a, size, es, r, j), Cell(b, size, es, r, j));
  }

  /** Only one buffer has a given transpose: whatever inverts the transpose restores the original. */
  lemma TransposeInjective(a: seq<byte>, b: seq<byte>, out: seq<byte>, size: nat, es: nat)
    requires IsBitTranspose(a, out, size, es) && IsBitTranspose(b, out, size, es)
    ensures a == b
  {
    hide Cell;
    forall r, j | 0 <= r < size && 0 <= j < es ensures Cell(a, size, es, r, j) == Cell(b, size, es, r, j) {
      SameElementByte(a, b, out, size, es, r, j);
    }
    SameCells(a, b, size, es);
  }

  lemma SameRowByte(inp: seq<byte>, s: seq<byte>, t: seq<byte>, size: nat, es: nat, j: nat, k: nat, b: nat)
    requires IsBitTranspose(inp, s, size, es) && IsBitTranspose(inp, t, size, es) && j < es && k < 8 && b < size / 8
    ensures Cube(s, es, 8, size / 8, j, k, b) == Cube(t, es, 8, size / 8, j, k, b)
  {
    hide Cell, Cube, Bit;
    forall c | 0 <= c < 8
      ensures Bit(Cube(s, es, 8, size / 8, j, k, b), c) == Bit(Cube(t, es, 8, size / 8, j, k, b), c)
    {
      assert BitMoved(inp, s, size, es, j, k, b, c) && BitMoved(inp, t, size, es, j, k, b, c);
    }
    SameBits(Cube(s, es, 8, size / 8, j, k, b), Cube(t, es, 8, size / 8, j, k, b));
  }

  /** A buffer has only one transpose: whatever computes the transpose computes the same bytes. */
  lemma TransposeUnique(inp: seq<byte>, s: seq<byte>, t: seq<byte>, size: nat, es: nat)
    requires IsBitTranspose(inp, s, size, es) && IsBitTranspose(inp, t, size, es)
    ensures s == t
  {
    hide Cell, Cube, IsBitTranspose;
    assert |s| == |t| == es * 8 * (size / 8) by {
      TransposeLength(inp, s, size, es);
      TransposeLength(inp, t, size, es);
    }
    forall r, b | 0 <= r < es * 8 && 0 <= b < size / 8
      ensures Cell(s, es * 8, size / 8, r, b) == Cell(t, es * 8, size / 8, r, b)
    {
      SameRowByte(inp, s, t, size, es, r / 8, r % 8, b);
      RowOfCube(s, size, es, r, b);
      RowOfCube(t, size, es, r, b);
    }
    SameCells(s, t, es * 8, size / 8);
  }

  lemma TransposeLength(inp: seq<byte>, out: seq<byte>, size: nat, es: nat)
    requires IsBitTranspose(inp, out, size, es)
    ensures |out| == es * 8 * (size / 8) == size * es == |inp|
  {
    Lengths(size, es);
  }

  lemma RowOfCube(s: seq<byte>, size: nat, es: nat, r: nat, b: nat)
    requires |s| == es * 8 * (size / 8) && r < es * 8 && b < size / 8
    ensures Cube(s, es, 8, size / 8, r / 8, r % 8, b) == Cell(s, es * 8, size / 8, r, b)
  {
    hide Cell;
  }

  // ------------------------------------------------------------ every buffer is a transpose

  /** Bit k of byte j of element r, as the transpose holds it. */
  ghost function StoredBit(out: seq<byte>, size: nat, es: nat, r: nat, j: nat, k: nat): bool
    requires size % 8 == 0 && |out| == es * 8 * (size / 8) && r < size && j < es && k < 8
  {
    Bit(Cube(out, es, 8, size / 8, j, k, r / 8), r % 8)
  }

  ghost function ElementByte(out: seq<byte>, size: nat, es: nat, r: nat, j: nat): byte
    requires size % 8 == 0 && |out| == es * 8 * (size / 8) && r < size && j < es
  {
    Value(Pack(StoredBit(out, size, es, r, j, 0), StoredBit(out, size, es, r, j, 1),
               StoredBit(out, size, es, r, j, 2), StoredBit(out, size, es, r, j, 3),
               StoredBit(out, size, es, r, j, 4), StoredBit(out, size, es, r, j, 5),
               StoredBit(out, size, es, r, j, 6), StoredBit(out, size, es, r, j, 7)))
  }

  lemma ElementByteBits(out: seq<byte>, size: nat, es: nat, r: nat, j: nat, k: nat)
    requires size % 8 == 0 && |out| == es * 8 * (size / 8) && r < size && j < es && k < 8
    ensures Bit(ElementByte(out, size, es, r, j), k) == StoredBit(out, size, es, r, j, k)
  {
    hide StoredBit, Pack, Bit;
    var c0, c1 := StoredBit(out, size, es, r, j, 0), StoredBit(out, size, es, r, j, 1);
    var c2, c3 := StoredBit(out, size, es, r, j, 2), StoredBit(out, size, es, r, j, 3);
    var c4, c5 := StoredBit(out, size, es, r, j, 4), StoredBit(out, size, es, r, j, 5);
    var c6, c7 := StoredBit(out, size, es, r, j, 6), StoredBit(out, size, es, r, j, 7);
    PackedByte(c0, c1, c2, c3, c4, c5, c6, c7);
    match k case 0 => case 1 => case 2 => case 3 => case 4 => case 5 => case 6 => case 7 =>
  }

  /** The matrix with the given entries, row by row. */
  lemma {:induction false} FromEntries(entry: (nat, nat) -> byte, rows: nat, cols: nat) returns (s: seq<byte>)
    ensures |s| == rows * cols
    ensures forall r, c :: 0 <= r < rows && 0 <= c < cols ==> Cell(s, rows, cols, r, c) == entry(r, c)
  {
    if rows == 0 {
      s := [];
    } else {
      var front := FromEntries(entry, rows - 1, cols);
      s := front + seq(cols, c requires c >= 0 => entry(rows - 1, c));
      assert rows * cols == (rows - 1) * cols + cols;
      forall r, c | 0 <= r < rows && 0 <= c < cols ensures Cell(s, rows, cols, r, c) == entry(r, c) {
        AtBound(r, c, rows, cols);
        if r < rows - 1 {
          AtBound(r, c, rows - 1, cols);
          assert Cell(front, rows - 1, cols, r, c) == entry(r, c);
        }
      }
    }
  }

  /** Every buffer of whole eights is the transpose of some buffer. */
  lemma TransposeOnto(out: seq<byte>, size: nat, es: nat) returns (inp: seq<byte>)
    requires size % 8 == 0 && |out| == size * es
    ensures IsBitTranspose(inp, out, size, es)
  {
    hide Cell, Cube, Bit, ElementByte, StoredBit;
    Lengths(size, es);
    var entry := (r: nat, j: nat) => if r < size && j < es then ElementByte(out, size, es, r, j) else 0;
    inp := FromEntries(entry, size, es);
    forall j, k, b, c | 0 <= j < es && 0 <= k < 8 && 0 <= b < size / 8 && 0 <= c < 8
      ensures BitMoved(inp, out, size, es, j, k, b, c)
    {
      assert Cell(inp, size, es, 8 * b + c, j) == ElementByte(out, size, es, 8 * b + c, j);
      ElementByteBits(out, size, es, 8 * b + c, j, k);
      StoredBitAt(out, size, es, j, k, b, c);
    }
  }

  lemma StoredBitAt(out: seq<byte>, size: nat, es: nat, j: nat, k: nat, b: nat, c: nat)
    requires size % 8 == 0 && |out| == es * 8 * (size / 8) && j < es && k < 8 && b < size / 8 && c < 8
    ensures StoredBit(out, size, es, 8 * b + c, j, k) == Bit(Cube(out, es, 8, size / 8, j, k, b), c)
  {
    hide Cube, Bit;
  }
}
