/** Row-major indexing of flat buffers. */
module Matrix {
  import opened Basics
  import opened Bytes

  /** Index of row r, column c when rows have `cols` entries. */
  function At(r: nat, c: nat, cols: nat): nat {
    r * cols + c
  }

  lemma AtBound(r: nat, c: nat, rows: nat, cols: nat)
    requires r < rows && c < cols
    ensures At(r, c, cols) < rows * cols
  {
    assert r * cols + cols == (r + 1) * cols;
    MulMonotone(r + 1, rows, cols);
  }

  lemma AtInjective(r: nat, c: nat, r': nat, c': nat, cols: nat)
    requires c < cols && c' < cols
    requires r != r' || c != c'
    ensures At(r, c, cols) != At(r', c', cols)
  {
    if r < r' {
      assert r * cols + cols == (r + 1) * cols;
      MulMonotone(r + 1, r', cols);
    } else if r' < r {
      assert r' * cols + cols == (r' + 1) * cols;
      MulMonotone(r' + 1, r, cols);
    }
  }

  /** Every index is the place of a row and a column. */
  lemma AtSplit(p: nat, rows: nat, cols: nat) returns (r: nat, c: nat)
    requires p < rows * cols
    ensures r < rows && c < cols && p == At(r, c, cols)
  {
    assert cols == 0 ==> rows * cols == 0;
    r, c := p / cols, p % cols;
    assert p == cols * r + c;
    assert r * cols == cols * r;
    if r >= rows {
      MulMonotone(rows, r, cols);
    }
  }

  /** Nested rows: (a, b, c) is the same place whichever way it is grouped. */
  lemma AtAssoc(a: nat, b: nat, c: nat, n: nat, m: nat)
    ensures At(At(a, b, n), c, m) == At(a, At(b, c, m), n * m)
  {
    assert (a * n + b) * m + c == a * n * m + b * m + c;
    assert a * n * m == a * (n * m);
  }

  /** Entry (r, c) of a buffer that holds a rows x cols matrix. */
  function Cell(s: seq<byte>, rows: nat, cols: nat, r: nat, c: nat): byte
    requires |s| == rows * cols && r < rows && c < cols
  {
    AtBound(r, c, rows, cols);
    s[At(r, c, cols)]
  }

  /** One store: that cell changes and no other. */
  method SetCell(a: array<byte>, rows: nat, cols: nat, r: nat, c: nat, v: byte)
    requires a.Length == rows * cols && r < rows && c < cols
    modifies a
    ensures forall r', c' :: 0 <= r' < rows && 0 <= c' < cols ==>
      Cell(a[..], rows, cols, r', c') == if r' == r && c' == c then v else old(Cell(a[..], rows, cols, r', c'))
  {
    AtBound(r, c, rows, cols);
    a[At(r, c, cols)] := v;
    forall r', c' | 0 <= r' < rows && 0 <= c' < cols
      ensures Cell(a[..], rows, cols, r', c') == if r' == r && c' == c then v else old(Cell(a[..], rows, cols, r', c'))
    {
      AtBound(r', c', rows, cols);
      if r' != r || c' != c {
        AtInjective(r, c, r', c', cols);
      }
    }
  }

  lemma SameCells(s: seq<byte>, t: seq<byte>, rows: nat, cols: nat)
    requires |s| == |t| == rows * cols
    requires forall r, c :: 0 <= r < rows && 0 <= c < cols ==> Cell(s, rows, cols, r, c) == Cell(t, rows, cols, r, c)
    ensures s == t
  {
    forall p | 0 <= p < |s| ensures s[p] == t[p] {
      var r, c := AtSplit(p, rows, cols);
      assert Cell(s, rows, cols, r, c) == Cell(t, rows, cols, r, c);
    }
  }

  /** Entry (a, b, c) of a buffer that holds n1 matrices of n2 rows of n3 bytes. */
  function Cube(s: seq<byte>, n1: nat, n2: nat, n3: nat, a: nat, b: nat, c: nat): byte
    requires |s| == n1 * n2 * n3 && a < n1 && b < n2 && c < n3
  {
    AtBound(a, b, n1, n2);
    Cell(s, n1 * n2, n3, At(a, b, n2), c)
  }

  /** The same entry with the two inner dimensions taken as one. */
  lemma CubeIsCell(s: seq<byte>, n1: nat, n2: nat, n3: nat, a: nat, b: nat, c: nat)
    requires |s| == n1 * n2 * n3 && a < n1 && b < n2 && c < n3
    ensures |s| == n1 * (n2 * n3) && At(b, c, n3) < n2 * n3
    ensures Cube(s, n1, n2, n3, a, b, c) == Cell(s, n1, n2 * n3, a, At(b, c, n3))
  {
    hide At;
    AtBound(a, b, n1, n2);
    AtBound(b, c, n2, n3);
    AtAssoc(a, b, c, n2, n3);
    MulAssoc(n1, n2, n3);
  }
}
