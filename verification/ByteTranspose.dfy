/** Byte transposes of the scalar bitshuffle code, and the general transpose of larger elements. */
module ByteTranspose {
  import opened Bytes
  import opened Matrix

  const BLOCKED_MULT := 8
  const NOT_MULT_EIGHT := -80

  /** `out` is the transpose of the rows x cols matrix `inp`. */
  ghost predicate IsTranspose(inp: seq<byte>, out: seq<byte>, rows: nat, cols: nat) {
    && |inp| == rows * cols && |out| == cols * rows
    && forall r, c :: 0 <= r < rows && 0 <= c < cols ==> Cell(out, cols, rows, c, r) == Cell(inp, rows, cols, r, c)
  }

  /**
   Columns lo..hi of `now` are filled from `inp`, and of the columns hi..hi+w
   the rows before jj and, in row jj, the first kk; the rest is as before.
   */
  ghost predicate Filled(inp: seq<byte>, before: seq<byte>, now: seq<byte>, size: nat, es: nat,
                         lo: nat, hi: nat, w: nat, jj: nat, kk: nat)
    requires |inp| == size * es && |before| == |now| == es * size
  {
    forall j, i :: 0 <= j < es && 0 <= i < size ==>
      Cell(now, es, size, j, i) ==
      if lo <= i < hi || (hi <= i < hi + w && j < jj) || (hi <= i < hi + kk && j == jj)
      then Cell(inp, size, es, i, j) else Cell(before, es, size, j, i)
  }

  /** Eight columns, row by row: the unrolled inner loops. */
  method FillEight(inp: seq<byte>, out: array<byte>, size: nat, es: nat, lo: nat, ii: nat, ghost before: seq<byte>)
    requires |inp| == size * es && out.Length == es * size == |before|
    requires lo <= ii && ii + 8 <= size && Filled(inp, before, out[..], size, es, lo, ii, 8, 0, 0)
    modifies out
    ensures Filled(inp, before, out[..], size, es, lo, ii + 8, 8, 0, 0)
  {
    hide Cell;
    var jj := 0;
    while jj < es
      invariant jj <= es && Filled(inp, before, out[..], size, es, lo, ii, 8, jj, 0)
    {
      var kk := 0;
      while kk < 8
        invariant kk <= 8 && Filled(inp, before, out[..], size, es, lo, ii, 8, jj, kk)
      {
        SetCell(out, es, size, jj, ii + kk, Cell(inp, size, es, ii + kk, jj));
        kk := kk + 1;
      }
      jj := jj + 1;
    }
  }

  /** One column: the loop for the elements left over. */
  method FillOne(inp: seq<byte>, out: array<byte>, size: nat, es: nat, lo: nat, ii: nat, ghost before: seq<byte>)
    requires |inp| == size * es && out.Length == es * size == |before|
    requires lo <= ii < size && Filled(inp, before, out[..], size, es, lo, ii, 1, 0, 0)
    modifies out
    ensures Filled(inp, before, out[..], size, es, lo, ii + 1, 1, 0, 0)
  {
    hide Cell;
    var jj := 0;
    while jj < es
      invariant jj <= es && Filled(inp, before, out[..], size, es, lo, ii, 1, jj, 0)
    {
      SetCell(out, es, size, jj, ii, Cell(inp, size, es, ii, jj));
      jj := jj + 1;
    }
  }

  /** Columns from `start` on hold the transpose, earlier ones are as before. */
  ghost predicate ColumnsFrom(inp: seq<byte>, before: seq<byte>, now: seq<byte>, size: nat, es: nat, start: nat)
    requires |inp| == size * es && |before| == |now| == es * size
  {
    forall j, i :: 0 <= j < es && 0 <= i < size ==>
      Cell(now, es, size, j, i) == if i < start then Cell(before, es, size, j, i) else Cell(inp, size, es, i, j)
  }

  /** bshuf_trans_byte_elem_remainder: transposes from element `start` on and leaves earlier columns alone. */
  method TransByteElemRemainder(inp: seq<byte>, out: array<byte>, size: nat, es: nat, start: nat) returns (count: int)
    requires |inp| == size * es && out.Length == es * size
    modifies out
    ensures start % 8 != 0 ==> count == NOT_MULT_EIGHT && out[..] == old(out[..])
    ensures start % 8 == 0 ==> count == size * es && ColumnsFrom(inp, old(out[..]), out[..], size, es, start)
  {
    if start % 8 != 0 {
      return NOT_MULT_EIGHT;
    }
    hide Cell;
    ghost var before := out[..];
    if size > start {
      var ii := start;
      while ii + 7 < size
        invariant start <= ii <= size && ii % 8 == 0
        invariant Filled(inp, before, out[..], size, es, start, ii, 8, 0, 0)
        decreases size - ii
      {
        FillEight(inp, out, size, es, start, ii, before);
        ii := ii + 8;
      }
      assert ii == size - size % 8;
      ii := size - size % 8;
      while ii < size
        invariant start <= ii <= size
        invariant Filled(inp, before, out[..], size, es, start, ii, 1, 0, 0)
      {
        FillOne(inp, out, size, es, start, ii, before);
        ii := ii + 1;
      }
    }
    return size * es;
  }

  /** bshuf_trans_byte_elem_scal. */
  method TransByteElemScal(inp: seq<byte>, out: array<byte>, size: nat, es: nat) returns (count: int)
    requires |inp| == size * es && out.Length == es * size
    modifies out
    ensures count == size * es && IsTranspose(inp, out[..], size, es)
  {
    hide Cell;
    count := TransByteElemRemainder(inp, out, size, es, 0);
  }

  // ------------------------------------------------------------ larger elements

  /** `out` is the transpose of a matrix of lda x ldb elements of `width` bytes each. */
  ghost predicate IsElemTranspose(inp: seq<byte>, out: seq<byte>, lda: nat, ldb: nat, width: nat) {
    && |inp| == lda * ldb * width && |out| == ldb * lda * width
    && ElemsMoved(inp, out, lda, ldb, width, lda, 0)
  }

  /** The elements of the rows before ii, and in row ii those before jj, are in place. */
  ghost predicate ElemsMoved(inp: seq<byte>, out: seq<byte>, lda: nat, ldb: nat, width: nat, ii: nat, jj: nat)
    requires |inp| == lda * ldb * width && |out| == ldb * lda * width
  {
    forall i, j, b :: 0 <= i < lda && 0 <= j < ldb && 0 <= b < width && (i < ii || (i == ii && j < jj)) ==>
      Cube(out, ldb, lda, width, j, i, b) == Cube(inp, lda, ldb, width, i, j, b)
  }

  /** memcpy of one element: row q of `out` becomes row r of `inp`. */
  method CopyElem(inp: seq<byte>, out: array<byte>, rows: nat, width: nat, r: nat, q: nat)
    requires |inp| == rows * width == out.Length && r < rows && q < rows
    modifies out
    ensures forall r', b :: 0 <= r' < rows && 0 <= b < width ==>
      Cell(out[..], rows, width, r', b) ==
        if r' == q then Cell(inp, rows, width, r, b) else old(Cell(out[..], rows, width, r', b))
  {
    hide Cell;
    var b := 0;
    while b < width
      invariant b <= width
      invariant forall r', b' :: 0 <= r' < rows && 0 <= b' < width ==>
        Cell(out[..], rows, width, r', b') ==
          if r' == q && b' < b then Cell(inp, rows, width, r, b') else old(Cell(out[..], rows, width, r', b'))
    {
      SetCell(out, rows, width, q, b, Cell(inp, rows, width, r, b));
      b := b + 1;
    }
  }

  /** Element (i, j) is stored as element (j, i); the other elements stay. */
  method MoveElem(inp: seq<byte>, out: array<byte>, lda: nat, ldb: nat, width: nat, i: nat, j: nat)
    requires |inp| == lda * ldb * width && out.Length == ldb * lda * width && i < lda && j < ldb
    modifies out
    ensures forall i', j', b :: 0 <= i' < lda && 0 <= j' < ldb && 0 <= b < width ==>
      Cube(out[..], ldb, lda, width, j', i', b) ==
        if i' == i && j' == j then Cube(inp, lda, ldb, width, i, j, b)
        else old(Cube(out[..], ldb, lda, width, j', i', b))
  {
    hide Cell, At;
    AtBound(i, j, lda, ldb);
    AtBound(j, i, ldb, lda);
    assert lda * ldb == ldb * lda;
    CopyElem(inp, out, lda * ldb, width, At(i, j, ldb), At(j, i, lda));
    forall i', j', b | 0 <= i' < lda && 0 <= j' < ldb && 0 <= b < width
      ensures Cube(out[..], ldb, lda, width, j', i', b) ==
        if i' == i && j' == j then Cube(inp, lda, ldb, width, i, j, b)
        else old(Cube(out[..], ldb, lda, width, j', i', b))
    {
      AtBound(j', i', ldb, lda);
      if i' != i || j' != j {
        AtInjective(j, i, j', i', lda);
      }
    }
  }

  /** bshuf_trans_elem: the transpose of elements of any width. */
  method TransElem(inp: seq<byte>, out: array<byte>, lda: nat, ldb: nat, width: nat) returns (count: int)
    requires |inp| == lda * ldb * width && out.Length == ldb * lda * width
    modifies out
    ensures count == lda * ldb * width && IsElemTranspose(inp, out[..], lda, ldb, width)
  {
    hide Cube;
    var ii := 0;
    while ii < lda
      invariant ii <= lda && ElemsMoved(inp, out[..], lda, ldb, width, ii, 0)
    {
      var jj := 0;
      while jj < ldb
        invariant jj <= ldb && ElemsMoved(inp, out[..], lda, ldb, width, ii, jj)
      {
        MoveElem(inp, out, lda, ldb, width, ii, jj);
        jj := jj + 1;
      }
      ii := ii + 1;
    }
    return lda * ldb * width;
  }

  /**
   Rows before ii are in place, and of the eight rows from ii on the entries before jj, and at jj those of the first kk.
   */
  ghost predicate EightMoved(inp: seq<byte>, out: seq<byte>, lda: nat, ldb: nat, width: nat, ii: nat, jj: nat, kk: nat)
    requires |inp| == lda * ldb * width && |out| == ldb * lda * width
  {
    forall i, j, b :: 0 <= i < lda && 0 <= j < ldb && 0 <= b < width ==>
      (i < ii || (i < ii + 8 && j < jj) || (i < ii + kk && j == jj)) ==>
      Cube(out, ldb, lda, width, j, i, b) == Cube(inp, lda, ldb, width, i, j, b)
  }

  /** TRANS_ELEM_TYPE: the same transpose for a machine type of `width` bytes, eight rows at a time. */
  method TransElemType(inp: seq<byte>, out: array<byte>, lda: nat, ldb: nat, width: nat)
    requires |inp| == lda * ldb * width && out.Length == ldb * lda * width
    modifies out
    ensures IsElemTranspose(inp, out[..], lda, ldb, width)
  {
    hide Cube;
    var ii := 0;
    while ii + 7 < lda
      invariant ii <= lda && ii % 8 == 0 && ElemsMoved(inp, out[..], lda, ldb, width, ii, 0)
    {
      MoveEightRows(inp, out, lda, ldb, width, ii);
      ii := ii + 8;
    }
    assert ii == lda - lda % 8;
    ii := lda - lda % 8;
    while ii < lda
      invariant ii <= lda && ElemsMoved(inp, out[..], lda, ldb, width, ii, 0)
    {
      var jj := 0;
      while jj < ldb
        invariant jj <= ldb && ElemsMoved(inp, out[..], lda, ldb, width, ii, jj)
      {
        MoveElem(inp, out, lda, ldb, width, ii, jj);
        jj := jj + 1;
      }
      ii := ii + 1;
    }
  }

  method MoveEightRows(inp: seq<byte>, out: array<byte>, lda: nat, ldb: nat, width: nat, ii: nat)
    requires |inp| == lda * ldb * width && out.Length == ldb * lda * width && ii + 8 <= lda
    requires ElemsMoved(inp, out[..], lda, ldb, width, ii, 0)
    modifies out
    ensures ElemsMoved(inp, out[..], lda, ldb, width, ii + 8, 0)
  {
    hide Cube;
    var jj := 0;
    while jj < ldb
      invariant jj <= ldb && EightMoved(inp, out[..], lda, ldb, width, ii, jj, 0)
    {
      var kk := 0;
      while kk < 8
        invariant kk <= 8 && EightMoved(inp, out[..], lda, ldb, width, ii, jj, kk)
      {
        MoveElem(inp, out, lda, ldb, width, ii + kk, jj);
        kk := kk + 1;
      }
      jj := jj + 1;
    }
  }

  /** bshuf_trans_bitrow_eight: rows of size / 8 bytes, regrouped in eights. */
  method TransBitrowEight(inp: seq<byte>, out: array<byte>, size: nat, es: nat) returns (count: int)
    requires size % 8 == 0 ==> |inp| == 8 * es * (size / 8) && out.Length == es * 8 * (size / 8)
    modifies out
    ensures size % 8 != 0 ==> count == NOT_MULT_EIGHT && out[..] == old(out[..])
    ensures size % 8 == 0 ==> count == 8 * es * (size / 8) && IsElemTranspose(inp, out[..], 8, es, size / 8)
  {
    if size % 8 != 0 {
      return NOT_MULT_EIGHT;
    }
    count := TransElem(inp, out, 8, es, size / 8);
  }
}
