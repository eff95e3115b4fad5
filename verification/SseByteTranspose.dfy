/** The SSE2 byte transposes: repeated unpacks, and the hierarchical form for larger elements. */
module SseByteTranspose {
  import opened Basics
  import opened Bytes
  import opened Matrix
  import opened ByteTranspose
  import opened Simd

  /** The lanes of `x` are byte j of the sixteen elements from ii on. */
  ghost predicate IsColumn(inp: seq<byte>, size: nat, es: nat, ii: nat, j: nat, x: Xmm)
    requires |inp| == size * es && ii + 16 <= size && j < es
  {
    forall i :: ii <= i < ii + 16 ==> Lane(x, i - ii) == Cell(inp, size, es, i, j)
  }

  /** Columns before ii are transposed, and of the next sixteen the rows before jj. */
  ghost predicate PartDone(inp: seq<byte>, out: seq<byte>, size: nat, es: nat, ii: nat, jj: nat)
    requires |inp| == size * es && |out| == es * size
  {
    forall j, i :: 0 <= j < es && 0 <= i < size && (i < ii || (i < ii + 16 && j < jj)) ==>
      Cell(out, es, size, j, i) == Cell(inp, size, es, i, j)
  }

  lemma WholeRounds(size: nat, w: nat, rounds: nat)
    requires w == 8 || w == 16
    requires w * rounds <= size < w * rounds + w
    ensures w * rounds == size - size % w && w * rounds % 8 == 0
  {
  }

  lemma NothingDone(inp: seq<byte>, out: seq<byte>, size: nat, es: nat)
    requires |inp| == size * es && |out| == es * size
    ensures PartDone(inp, out, size, es, 0, 0)
  {
    hide Cell;
  }

  lemma NextSixteen(inp: seq<byte>, out: seq<byte>, size: nat, es: nat, ii: nat)
    requires |inp| == size * es && |out| == es * size && PartDone(inp, out, size, es, ii, es)
    ensures PartDone(inp, out, size, es, ii + 16, 0)
  {
    hide Cell;
  }

  lemma RemainderCompletes(inp: seq<byte>, before: seq<byte>, now: seq<byte>, size: nat, es: nat, ii: nat)
    requires |inp| == size * es && |before| == |now| == es * size
    requires PartDone(inp, before, size, es, ii, 0) && ColumnsFrom(inp, before, now, size, es, ii)
    ensures IsTranspose(inp, now, size, es)
  {
    hide Cell;
  }

  /** _mm_storeu_si128 to row r, from column c on. */
  method Store(out: array<byte>, rows: nat, cols: nat, r: nat, c: nat, x: Xmm)
    requires out.Length == rows * cols && r < rows && c + 16 <= cols
    modifies out
    ensures forall r', c' :: 0 <= r' < rows && 0 <= c' < cols ==>
      Cell(out[..], rows, cols, r', c') ==
        if r' == r && c <= c' < c + 16 then Lane(x, c' - c) else old(Cell(out[..], rows, cols, r', c'))
  {
    hide Cell, Lane;
    var i := 0;
    while i < 16
      invariant i <= 16
      invariant forall r', c' :: 0 <= r' < rows && 0 <= c' < cols ==>
        Cell(out[..], rows, cols, r', c') ==
          if r' == r && c <= c' < c + i then Lane(x, c' - c) else old(Cell(out[..], rows, cols, r', c'))
    {
      SetCell(out, rows, cols, r, c + i, Lane(x, i));
      i := i + 1;
    }
  }

  method StoreColumn(inp: seq<byte>, out: array<byte>, size: nat, es: nat, ii: nat, j: nat, x: Xmm)
    requires |inp| == size * es && out.Length == es * size && ii + 16 <= size && j < es
    requires IsColumn(inp, size, es, ii, j, x) && PartDone(inp, out[..], size, es, ii, j)
    modifies out
    ensures PartDone(inp, out[..], size, es, ii, j + 1)
  {
    hide Cell, Lane;
    Store(out, es, size, j, ii, x);
  }

  /** The register part of the 16-bit kernel: sixteen elements come out byte by byte. */
  method Unpack16(inp: seq<byte>, p: nat) returns (a0: Xmm, b0: Xmm)
    requires p + 32 <= |inp|
    ensures a0 == Stride2(inp, p)
    ensures b0 == Stride2(inp, p + 1)
  {
    a0 := Load(inp, p + 0 * 16);
    b0 := Load(inp, p + 1 * 16);

    var a1 := UnpackLo8(a0, b0);
    var b1 := UnpackHi8(a0, b0);

    a0 := UnpackLo8(a1, b1);
    b0 := UnpackHi8(a1, b1);

    a1 := UnpackLo8(a0, b0);
    b1 := UnpackHi8(a0, b0);

    a0 := UnpackLo8(a1, b1);
    b0 := UnpackHi8(a1, b1);
  }

  lemma StridedColumn2(inp: seq<byte>, size: nat, ii: nat, j: nat)
    requires |inp| == size * 2 && ii + 16 <= size && j < 2
    ensures 2 * ii + j + 30 < |inp| && IsColumn(inp, size, 2, ii, j, Stride2(inp, 2 * ii + j))
  {
    hide Lane, Stride2;
    forall i | ii <= i < ii + 16 ensures Lane(Stride2(inp, 2 * ii + j), i - ii) == Cell(inp, size, 2, i, j) {
      Stride2Lane(inp, 2 * ii + j, i - ii);
    }
  }

  /** One round of the 16-bit kernel. */
  method Sixteen16(inp: seq<byte>, out: array<byte>, size: nat, ii: nat)
    requires |inp| == size * 2 == out.Length && ii + 16 <= size && PartDone(inp, out[..], size, 2, ii, 0)
    modifies out
    ensures PartDone(inp, out[..], size, 2, ii + 16, 0)
  {
    hide Cell, Stride2, IsColumn, PartDone;
    var a0, b0 := Unpack16(inp, 2 * ii);
    StridedColumn2(inp, size, ii, 0);
    StoreColumn(inp, out, size, 2, ii, 0, a0);
    StridedColumn2(inp, size, ii, 1);
    StoreColumn(inp, out, size, 2, ii, 1, b0);
    NextSixteen(inp, out[..], size, 2, ii);
  }

  /** bshuf_trans_byte_elem_SSE_16. */
  method TransByteElemSse16(inp: seq<byte>, out: array<byte>, size: nat) returns (count: int)
    requires |inp| == size * 2 == out.Length
    modifies out
    ensures count == size * 2 && IsTranspose(inp, out[..], size, 2)
  {
    hide Cell, PartDone, ColumnsFrom, IsTranspose;
    var ii := 0;
    ghost var rounds := 0;
    NothingDone(inp, out[..], size, 2);
    while ii + 15 < size
      invariant ii <= size && ii == 16 * rounds && PartDone(inp, out[..], size, 2, ii, 0)
    {
      Sixteen16(inp, out, size, ii);
      ii, rounds := ii + 16, rounds + 1;
    }
    ghost var before := out[..];
    WholeRounds(size, 16, rounds);
    count := TransByteElemRemainder(inp, out, size, 2, size - size % 16);
    RemainderCompletes(inp, before, out[..], size, 2, ii);
  }

  /** The register part of the 32-bit kernel: sixteen elements come out byte by byte. */
  method Unpack32(inp: seq<byte>, p: nat) returns (a0: Xmm, b0: Xmm, c0: Xmm, d0: Xmm)
    requires p + 64 <= |inp|
    ensures a0 == Stride4(inp, p)
    ensures b0 == Stride4(inp, p + 1)
    ensures c0 == Stride4(inp, p + 2)
    ensures d0 == Stride4(inp, p + 3)
  {
    a0 := Load(inp, p + 0 * 16);
    b0 := Load(inp, p + 1 * 16);
    c0 := Load(inp, p + 2 * 16);
    d0 := Load(inp, p + 3 * 16);

    var a1 := UnpackLo8(a0, b0);
    var b1 := UnpackHi8(a0, b0);
    var c1 := UnpackLo8(c0, d0);
    var d1 := UnpackHi8(c0, d0);

    a0 := UnpackLo8(a1, b1);
    b0 := UnpackHi8(a1, b1);
    c0 := UnpackLo8(c1, d1);
    d0 := UnpackHi8(c1, d1);

    a1 := UnpackLo8(a0, b0);
    b1 := UnpackHi8(a0, b0);
    c1 := UnpackLo8(c0, d0);
    d1 := UnpackHi8(c0, d0);

    a0 := UnpackLo64(a1, c1);
    b0 := UnpackHi64(a1, c1);
    c0 := UnpackLo64(b1, d1);
    d0 := UnpackHi64(b1, d1);
  }

  lemma StridedColumn4(inp: seq<byte>, size: nat, ii: nat, j: nat)
    requires |inp| == size * 4 && ii + 16 <= size && j < 4
    ensures 4 * ii + j + 60 < |inp| && IsColumn(inp, size, 4, ii, j, Stride4(inp, 4 * ii + j))
  {
    hide Lane, Stride4;
    forall i | ii <= i < ii + 16 ensures Lane(Stride4(inp, 4 * ii + j), i - ii) == Cell(inp, size, 4, i, j) {
      Stride4Lane(inp, 4 * ii + j, i - ii);
    }
  }

  /** One round of the 32-bit kernel. */
  method Sixteen32(inp: seq<byte>, out: array<byte>, size: nat, ii: nat)
    requires |inp| == size * 4 == out.Length && ii + 16 <= size && PartDone(inp, out[..], size, 4, ii, 0)
    modifies out
    ensures PartDone(inp, out[..], size, 4, ii + 16, 0)
  {
    hide Cell, Stride4, IsColumn, PartDone;
    var a0, b0, c0, d0 := Unpack32(inp, 4 * ii);
    StridedColumn4(inp, size, ii, 0);
    StoreColumn(inp, out, size, 4, ii, 0, a0);
    StridedColumn4(inp, size, ii, 1);
    StoreColumn(inp, out, size, 4, ii, 1, b0);
    StridedColumn4(inp, size, ii, 2);
    StoreColumn(inp, out, size, 4, ii, 2, c0);
    StridedColumn4(inp, size, ii, 3);
    StoreColumn(inp, out, size, 4, ii, 3, d0);
    NextSixteen(inp, out[..], size, 4, ii);
  }

  /** bshuf_trans_byte_elem_SSE_32. */
  method TransByteElemSse32(inp: seq<byte>, out: array<byte>, size: nat) returns (count: int)
    requires |inp| == size * 4 == out.Length
    modifies out
    ensures count == size * 4 && IsTranspose(inp, out[..], size, 4)
  {
    hide Cell, PartDone, ColumnsFrom, IsTranspose;
    var ii := 0;
    ghost var rounds := 0;
    NothingDone(inp, out[..], size, 4);
    while ii + 15 < size
      invariant ii <= size && ii == 16 * rounds && PartDone(inp, out[..], size, 4, ii, 0)
    {
      Sixteen32(inp, out, size, ii);
      ii, rounds := ii + 16, rounds + 1;
    }
    ghost var before := out[..];
    WholeRounds(size, 16, rounds);
    count := TransByteElemRemainder(inp, out, size, 4, size - size % 16);
    RemainderCompletes(inp, before, out[..], size, 4, ii);
  }

  /** The register part of the 64-bit kernel: sixteen elements come out byte by byte. */
  method Unpack64(inp: seq<byte>, p: nat)
      returns (a0: Xmm, b0: Xmm, c0: Xmm, d0: Xmm, e0: Xmm, f0: Xmm, g0: Xmm, h0: Xmm)
    requires p + 128 <= |inp|
    ensures a0 == Stride8(inp, p)
    ensures b0 == Stride8(inp, p + 1)
    ensures c0 == Stride8(inp, p + 2)
    ensures d0 == Stride8(inp, p + 3)
    ensures e0 == Stride8(inp, p + 4)
    ensures f0 == Stride8(inp, p + 5)
    ensures g0 == Stride8(inp, p + 6)
    ensures h0 == Stride8(inp, p + 7)
  {
    a0 := Load(inp, p + 0 * 16);
    b0 := Load(inp, p + 1 * 16);
    c0 := Load(inp, p + 2 * 16);
    d0 := Load(inp, p + 3 * 16);
    e0 := Load(inp, p + 4 * 16);
    f0 := Load(inp, p + 5 * 16);
    g0 := Load(inp, p + 6 * 16);
    h0 := Load(inp, p + 7 * 16);

    var a1 := UnpackLo8(a0, b0);
    var b1 := UnpackHi8(a0, b0);
    var c1 := UnpackLo8(c0, d0);
    var d1 := UnpackHi8(c0, d0);
    var e1 := UnpackLo8(e0, f0);
    var f1 := UnpackHi8(e0, f0);
    var g1 := UnpackLo8(g0, h0);
    var h1 := UnpackHi8(g0, h0);

    a0 := UnpackLo8(a1, b1);
    b0 := UnpackHi8(a1, b1);
    c0 := UnpackLo8(c1, d1);
    d0 := UnpackHi8(c1, d1);
    e0 := UnpackLo8(e1, f1);
    f0 := UnpackHi8(e1, f1);
    g0 := UnpackLo8(g1, h1);
    h0 := UnpackHi8(g1, h1);

    a1 := UnpackLo32(a0, c0);
    b1 := UnpackHi32(a0, c0);
    c1 := UnpackLo32(b0, d0);
    d1 := UnpackHi32(b0, d0);
    e1 := UnpackLo32(e0, g0);
    f1 := UnpackHi32(e0, g0);
    g1 := UnpackLo32(f0, h0);
    h1 := UnpackHi32(f0, h0);

    a0 := UnpackLo64(a1, e1);
    b0 := UnpackHi64(a1, e1);
    c0 := UnpackLo64(b1, f1);
    d0 := UnpackHi64(b1, f1);
    e0 := UnpackLo64(c1, g1);
    f0 := UnpackHi64(c1, g1);
    g0 := UnpackLo64(d1, h1);
    h0 := UnpackHi64(d1, h1);
  }

  lemma StridedColumn8(inp: seq<byte>, size: nat, ii: nat, j: nat)
    requires |inp| == size * 8 && ii + 16 <= size && j < 8
    ensures 8 * ii + j + 120 < |inp| && IsColumn(inp, size, 8, ii, j, Stride8(inp, 8 * ii + j))
  {
    hide Lane, Stride8;
    forall i | ii <= i < ii + 16 ensures Lane(Stride8(inp, 8 * ii + j), i - ii) == Cell(inp, size, 8, i, j) {
      Stride8Lane(inp, 8 * ii + j, i - ii);
    }
  }

  /** One round of the 64-bit kernel. */
  method Sixteen64(inp: seq<byte>, out: array<byte>, size: nat, ii: nat)
    requires |inp| == size * 8 == out.Length && ii + 16 <= size && PartDone(inp, out[..], size, 8, ii, 0)
    modifies out
    ensures PartDone(inp, out[..], size, 8, ii + 16, 0)
  {
    hide Cell, Stride8, IsColumn, PartDone;
    var a0, b0, c0, d0, e0, f0, g0, h0 := Unpack64(inp, 8 * ii);
    StridedColumn8(inp, size, ii, 0);
    StoreColumn(inp, out, size, 8, ii, 0, a0);
    StridedColumn8(inp, size, ii, 1);
    StoreColumn(inp, out, size, 8, ii, 1, b0);
    StridedColumn8(inp, size, ii, 2);
    StoreColumn(inp, out, size, 8, ii, 2, c0);
    StridedColumn8(inp, size, ii, 3);
    StoreColumn(inp, out, size, 8, ii, 3, d0);
    StridedColumn8(inp, size, ii, 4);
    StoreColumn(inp, out, size, 8, ii, 4, e0);
    StridedColumn8(inp, size, ii, 5);
    StoreColumn(inp, out, size, 8, ii, 5, f0);
    StridedColumn8(inp, size, ii, 6);
    StoreColumn(inp, out, size, 8, ii, 6, g0);
    StridedColumn8(inp, size, ii, 7);
    StoreColumn(inp, out, size, 8, ii, 7, h0);
    NextSixteen(inp, out[..], size, 8, ii);
  }

  /** bshuf_trans_byte_elem_SSE_64. */
  method TransByteElemSse64(inp: seq<byte>, out: array<byte>, size: nat) returns (count: int)
    requires |inp| == size * 8 == out.Length
    modifies out
    ensures count == size * 8 && IsTranspose(inp, out[..], size, 8)
  {
    hide Cell, PartDone, ColumnsFrom, IsTranspose;
    var ii := 0;
    ghost var rounds := 0;
    NothingDone(inp, out[..], size, 8);
    while ii + 15 < size
      invariant ii <= size && ii == 16 * rounds && PartDone(inp, out[..], size, 8, ii, 0)
    {
      Sixteen64(inp, out, size, ii);
      ii, rounds := ii + 16, rounds + 1;
    }
    ghost var before := out[..];
    WholeRounds(size, 16, rounds);
    count := TransByteElemRemainder(inp, out, size, 8, size - size % 16);
    RemainderCompletes(inp, before, out[..], size, 8, ii);
  }

  // ------------------------------------------------------------ every element size

  /** bshuf_copy. */
  method Copy(inp: seq<byte>, out: array<byte>, size: nat, es: nat) returns (count: int)
    requires |inp| == size * es == out.Length
    modifies out
    ensures count == size * es && out[..] == inp
  {
    var i := 0;
    while i < size * es
      invariant i <= size * es && out[..i] == inp[..i]
    {
      out[i] := inp[i];
      i := i + 1;
    }
    return size * es;
  }

  lemma CopyTransposes(inp: seq<byte>, size: nat)
    requires |inp| == size * 1
    ensures IsTranspose(inp, inp, size, 1)
  {
  }

  /** One byte through the three stages: element i, chunk j, byte b of the chunk. */
  lemma ByteThroughStages(inp: seq<byte>, t1: seq<byte>, t2: seq<byte>, out: seq<byte>, size: nat, chunks: nat,
                      w: nat, i: nat, j: nat, b: nat)
    requires IsElemTranspose(inp, t1, size, chunks, w) && IsTranspose(t1, t2, size * chunks, w)
    requires IsElemTranspose(t2, out, w, chunks, size)
    requires i < size && j < chunks && b < w
    ensures Cube(out, chunks, w, size, j, b, i) == Cube(inp, size, chunks, w, i, j, b)
  {
    hide At, Cell;
    var m := At(j, i, size);
    AtBound(j, i, chunks, size);
    assert chunks * size == size * chunks;
    assert Cube(t1, chunks, size, w, j, i, b) == Cube(inp, size, chunks, w, i, j, b);
    assert Cell(t2, w, size * chunks, b, m) == Cell(t1, size * chunks, w, m, b);
    CubeIsCell(t2, w, chunks, size, b, j, i);
    assert Cube(out, chunks, w, size, j, b, i) == Cube(t2, w, chunks, size, b, j, i);
  }

  lemma ElementByte(inp: seq<byte>, out: seq<byte>, size: nat, chunks: nat, w: nat, i: nat, e: nat)
    requires |inp| == size * chunks * w && |out| == chunks * w * size && i < size && e < chunks * w
    requires forall j, b :: 0 <= j < chunks && 0 <= b < w ==>
      Cube(out, chunks, w, size, j, b, i) == Cube(inp, size, chunks, w, i, j, b)
    ensures |inp| == size * (chunks * w)
    ensures Cell(out, chunks * w, size, e, i) == Cell(inp, size, chunks * w, i, e)
  {
    hide Cell, At;
    var j, b := AtSplit(e, chunks, w);
    assert Cube(out, chunks, w, size, j, b, i) == Cube(inp, size, chunks, w, i, j, b);
    CubeIsCell(inp, size, chunks, w, i, j, b);
  }

  /** Transposing chunks, then the bytes of the chunks, then the chunks again transposes the bytes of the elements. */
  lemma HierarchyTransposes(inp: seq<byte>, t1: seq<byte>, t2: seq<byte>, out: seq<byte>, size: nat, chunks: nat,
                            w: nat)
    requires IsElemTranspose(inp, t1, size, chunks, w) && IsTranspose(t1, t2, size * chunks, w)
    requires IsElemTranspose(t2, out, w, chunks, size)
    ensures IsTranspose(inp, out, size, chunks * w)
  {
    hide Cell, Cube, ElemsMoved;
    MulAssoc(size, chunks, w);
    assert |out| == chunks * w * size by { assert chunks * w == w * chunks; }
    forall i, e | 0 <= i < size && 0 <= e < chunks * w
      ensures Cell(out, chunks * w, size, e, i) == Cell(inp, size, chunks * w, i, e)
    {
      forall j, b | 0 <= j < chunks && 0 <= b < w
        ensures Cube(out, chunks, w, size, j, b, i) == Cube(inp, size, chunks, w, i, j, b)
      {
        ByteThroughStages(inp, t1, t2, out, size, chunks, w, i, j, b);
      }
      ElementByte(inp, out, size, chunks, w, i, e);
    }
  }

  /** The sizes of the stages, for elements of `chunks` pieces of w bytes. */
  lemma StageSizes(size: nat, es: nat, chunks: nat, w: nat)
    requires es == chunks * w
    ensures size * es == size * chunks * w == chunks * size * w == w * chunks * size == chunks * w * size
  {
    MulAssoc(size, chunks, w);
    assert size * chunks == chunks * size;
    MulAssoc(w, chunks, size);
    assert w * (chunks * size) == chunks * size * w;
    assert w * chunks == chunks * w;
  }

  /** bshuf_trans_byte_elem_SSE: the plain byte transpose for every element size. */
  method TransByteElemSse(inp: seq<byte>, out: array<byte>, size: nat, es: nat) returns (count: int)
    requires |inp| == size * es == out.Length
    modifies out
    ensures count == size * es && IsTranspose(inp, out[..], size, es)
  {
    hide IsTranspose, IsElemTranspose;
    if es == 1 {
      count := Copy(inp, out, size, es);
      CopyTransposes(inp, size);
      return;
    }
    if es == 2 {
      count := TransByteElemSse16(inp, out, size);
      return;
    }
    if es == 4 {
      count := TransByteElemSse32(inp, out, size);
      return;
    }
    if es == 8 {
      count := TransByteElemSse64(inp, out, size);
      return;
    }
    if es % 4 != 0 {
      count := TransByteElemScal(inp, out, size, es);
      return;
    }
    var tmp := new byte[size * es];
    if es % 8 == 0 {
      var chunks := es / 8;
      StageSizes(size, es, chunks, 8);
      TransElemType(inp, out, size, chunks, 8);
      ghost var t1 := out[..];
      count := TransByteElemSse64(out[..], tmp, size * chunks);
      ghost var t2 := tmp[..];
      var moved := TransElem(tmp[..], out, 8, chunks, size);
      HierarchyTransposes(inp, t1, t2, out[..], size, chunks, 8);
    } else {
      var chunks := es / 4;
      StageSizes(size, es, chunks, 4);
      TransElemType(inp, out, size, chunks, 4);
      ghost var t1 := out[..];
      count := TransByteElemSse32(out[..], tmp, size * chunks);
      ghost var t2 := tmp[..];
      var moved := TransElem(tmp[..], out, 4, chunks, size);
      HierarchyTransposes(inp, t1, t2, out[..], size, chunks, 4);
    }
  }
}
