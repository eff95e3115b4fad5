/**
 The copy primitives of LZ4: copies between buffers, and the overlapping copy of
 a match inside the output, which works in 8-byte steps that overshoot.
 */
module Lz4Copy {
  import opened Bytes
  import opened Lz4Format

  /** LZ4_COPY8 from the source. */
  method Copy8(dest: array<byte>, d: nat, s: seq<byte>, from: nat)
    requires d + 8 <= dest.Length && from + 8 <= |s|
    modifies dest
    ensures dest[..d] == old(dest[..d])
    ensures dest[d..d + 8] == s[from..from + 8]
    ensures forall i :: d + 8 <= i < dest.Length ==> dest[i] == old(dest[i])
  {
    forall k | 0 <= k < 8 {
      dest[d + k] := s[from + k];
    }
  }

  lemma EightMore(t: seq<byte>, u: seq<byte>, d: nat, before: seq<byte>, s: seq<byte>, from: nat, f: nat)
    requires d + 8 <= |t| == |u| && from <= f && f + 8 <= |s|
    requires t[..d] == before + s[from..f] && u[..d] == t[..d] && u[d..d + 8] == s[f..f + 8]
    ensures u[..d + 8] == before + s[from..f + 8]
  {
    assert u[..d + 8] == u[..d] + u[d..d + 8];
    assert s[from..f + 8] == s[from..f] + s[f..f + 8];
  }

  lemma CutBack(t: seq<byte>, d: nat, e: nat, before: seq<byte>, s: seq<byte>, from: nat)
    requires |before| <= e <= d <= |t| && from + (d - |before|) <= |s|
    requires t[..d] == before + s[from..from + (d - |before|)]
    ensures t[..e] == before + s[from..from + (e - |before|)]
  {
    assert t[..e] == t[..d][..e];
  }

  /** LZ4_WILDCOPY: whole 8-byte steps until the end is reached or passed. */
  method WildCopy(dest: array<byte>, d0: nat, s: seq<byte>, from: nat, e: nat)
    requires d0 <= e && e + 8 <= dest.Length && from + (e - d0) + 8 <= |s|
    modifies dest
    ensures dest[..e] == old(dest[..d0]) + s[from..from + (e - d0)]
    ensures dest[e + 8..] == old(dest[e + 8..])
  {
    var d, f := d0, from;
    ghost var before := dest[..d0];
    assert s[from..from] == [];
    while true
      invariant d0 <= d && f == from + (d - d0) && (d == d0 || d < e)
      invariant dest[..d] == before + s[from..f]
      invariant forall i :: e + 8 <= i < dest.Length ==> dest[i] == old(dest[i])
      decreases e - d
    {
      ghost var was := dest[..];
      Copy8(dest, d, s, f);
      assert was[..d] == dest[..][..d];
      EightMore(was, dest[..], d, before, s, from, f);
      d, f := d + 8, f + 8;
      if d >= e {
        break;
      }
    }
    CutBack(dest[..], d, e, before, s, from);
  }

  /** memcpy of everything from a position on. */
  method CopyExact(dest: array<byte>, op: nat, s: seq<byte>, from: nat)
    requires from <= |s| && op + (|s| - from) <= dest.Length
    modifies dest
    ensures dest[..op + (|s| - from)] == old(dest[..op]) + s[from..]
  {
    forall k | op <= k < op + (|s| - from) {
      dest[k] := s[k - op + from];
    }
  }

  // ------------------------------------------------- copies inside one buffer

  /** Bytes p..q each repeat the byte `period` before them. */
  ghost predicate Repeats(s: seq<byte>, p: nat, q: nat, period: nat)
    requires period <= p && q <= |s|
  {
    forall i :: p <= i < q ==> s[i] == s[i - period]
  }

  /** LZ4_COPY8 inside the output; the eight bytes are read before any is written. */
  method Copy8Within(a: array<byte>, d: nat, distance: nat)
    requires distance <= d && d + 8 <= a.Length
    modifies a
    ensures a[..d] == old(a[..d])
    ensures 8 <= distance ==> Repeats(a[..d + 8], d, d + 8, distance)
  {
    forall k | d <= k < d + 8 {
      a[k] := a[k - distance];
    }
  }

  lemma RepeatsJoin(s: seq<byte>, p: nat, m: nat, q: nat, period: nat, front: seq<byte>)
    requires period <= p <= m <= q <= |s| && m <= |front| && s[..m] == front[..m]
    requires Repeats(front, p, m, period) && Repeats(s, m, q, period)
    ensures Repeats(s, p, q, period)
  {
    forall i | p <= i < m ensures s[i] == s[i - period] {
      assert s[i] == s[..m][i] == front[i];
      assert s[i - period] == s[..m][i - period] == front[i - period];
    }
  }

  /** LZ4_WILDCOPY inside the output; at a distance below 8 a step copies bytes that it is about to replace. */
  method WildCopyWithin(a: array<byte>, d0: nat, distance: nat, e: nat) returns (d: nat)
    requires distance <= d0 && d0 + 8 <= a.Length && e + 7 <= a.Length
    modifies a
    ensures d0 < d <= a.Length && e <= d
    ensures a[..d0] == old(a[..d0])
    ensures 8 <= distance ==> Repeats(a[..d], d0, d, distance)
  {
    d := d0;
    ghost var before := a[..d0];
    while true
      invariant d0 <= d && d + 8 <= a.Length
      invariant a[..d0] == before
      invariant 8 <= distance ==> Repeats(a[..d], d0, d, distance)
      decreases a.Length - d
    {
      ghost var front := a[..d];
      Copy8Within(a, d, distance);
      assert a[..d0] == a[..d][..d0] == before;
      if 8 <= distance {
        RepeatsJoin(a[..d + 8], d0, d, d + 8, distance, front);
      }
      d := d + 8;
      if d >= e {
        break;
      }
    }
  }

  /** The byte-by-byte end of a match near the end of the output. */
  method ByteCopyWithin(a: array<byte>, d0: nat, distance: nat, e: nat)
    requires distance <= d0 <= e <= a.Length
    modifies a
    ensures a[..d0] == old(a[..d0])
    ensures Repeats(a[..e], d0, e, distance)
  {
    var d := d0;
    while d < e
      invariant d0 <= d <= e
      invariant a[..d0] == old(a[..d0])
      invariant Repeats(a[..d], d0, d, distance)
    {
      a[d] := a[d - distance];
      d := d + 1;
    }
  }

  // ------------------------------------------------- the overlapping match copy

  const DEC32: seq<int> := [4, 1, 2, 1, 4, 4, 4, 4]
  const DEC64: seq<int> := [0, 0, 0, -1, 0, 1, 2, 3]

  /** Copy distance after the first eight bytes of a match whose offset is below 8. */
  function WidenedDistance(offset: nat): int
    requires offset < 8
  {
    8 + offset - DEC32[offset] + DEC64[offset]
  }

  /** The widened distance is a multiple of the offset, is at least 8, and starts inside the first period. */
  lemma WidenedIsMultiple(offset: nat) returns (k: nat)
    requires 1 <= offset < 8
    ensures k >= 1 && WidenedDistance(offset) == k * offset
    ensures 8 <= WidenedDistance(offset) <= 8 + offset
  {
    k := if offset == 1 then 8 else if offset == 2 then 4 else if offset == 3 then 3 else 2;
  }

  /** Two copies of a small period in a row: four single bytes, then four at once from the adjusted source. */
  method FirstEight(a: array<byte>, op: nat, offset: nat) returns (distance: nat)
    requires offset < 8 && offset <= op && op + 8 <= a.Length
    modifies a
    ensures distance == WidenedDistance(offset)
    ensures a[..op] == old(a[..op])
    ensures Repeats(a[..op + 8], op, op + 8, offset)
  {
    var match_ := op - offset;
    ByteCopyWithin(a, op, offset, op + 4);
    ghost var half := a[..op + 4];
    match_ := match_ + DEC32[offset];
    Copy4(a, op + 4, match_);
    FourMore(half, a[..op + 8], op, offset, match_);
    match_ := match_ - DEC64[offset];
    distance := op + 8 - match_;
  }

  /** A 4-byte load and store. */
  method Copy4(a: array<byte>, d: nat, from: nat)
    requires (from + 4 <= d || from == d) && d + 4 <= a.Length
    modifies a
    ensures a[..d] == old(a[..d])
    ensures forall i :: d <= i < d + 4 ==> a[i] == a[i - (d - from)]
  {
    forall k | d <= k < d + 4 {
      a[k] := a[k - (d - from)];
    }
  }

  lemma FourMore(half: seq<byte>, s: seq<byte>, op: nat, offset: nat, from: nat)
    requires offset < 8 && offset <= op && |half| == op + 4 && |s| == op + 8
    requires from == op - offset + DEC32[offset]
    requires s[..op + 4] == half && Repeats(half, op, op + 4, offset)
    requires forall i :: op + 4 <= i < op + 8 ==> s[i] == s[i - (op + 4 - from)]
    ensures Repeats(s, op, op + 8, offset)
  {
    assert forall i :: 0 <= i < op + 4 ==> s[i] == half[i];
    assert s[op] == s[op - offset] && s[op + 1] == s[op + 1 - offset];
    assert s[op + 2] == s[op + 2 - offset] && s[op + 3] == s[op + 3 - offset];
  }

  lemma {:induction false} StepBack(s: seq<byte>, p: nat, q: nat, period: nat, i: nat, m: nat)
    requires 1 <= period <= p <= q <= |s| && Repeats(s, p, q, period)
    requires i < q && (m >= 1 ==> p + (m - 1) * period <= i)
    ensures m * period <= i && s[i] == s[i - m * period]
    decreases m
  {
    if m > 0 {
      if m > 1 {
        assert (m - 1) * period == (m - 2) * period + period;
      }
      StepBack(s, p, q, period, i - period, m - 1);
      assert m * period == (m - 1) * period + period;
    }
  }

  /** Copying over any multiple of a period that has been established keeps the period. */
  lemma {:induction false} MultipleKeepsPeriod(s: seq<byte>, p: nat, q: nat, hi: nat, period: nat, m: nat,
                                               distance: nat)
    requires 1 <= period <= p <= q <= hi <= |s| && m >= 1 && distance == m * period
    requires Repeats(s, p, q, period)
    requires distance <= q && Repeats(s, q, hi, distance)
    requires p + distance <= q + period
    ensures Repeats(s, p, hi, period)
    decreases hi
  {
    if q < hi {
      MultipleKeepsPeriod(s, p, q, hi - 1, period, m, distance);
      LastKeepsPeriod(s, p, hi - 1, period, m, distance);
    }
  }

  lemma LastKeepsPeriod(s: seq<byte>, p: nat, i: nat, period: nat, m: nat, distance: nat)
    requires 1 <= period <= p <= i < |s| && m >= 1 && distance == m * period
    requires Repeats(s, p, i, period) && p + distance <= i + period && distance <= i && s[i] == s[i - distance]
    ensures s[i] == s[i - period]
  {
    Less(m, period);
    if m > 1 {
      Less(m - 1, period);
      StepBack(s, p, i, period, i - period, m - 1);
    }
  }

  lemma Less(m: nat, period: nat)
    requires m >= 1
    ensures m * period == (m - 1) * period + period
  {
  }

  lemma RepeatsIsCopy(s: seq<byte>, p: nat, e: nat, period: nat, out: seq<byte>)
    requires 1 <= period <= p <= e <= |s| && s[..p] == out && Repeats(s, p, |s|, period)
    ensures s[..e] == CopyMatch(out, period, e - p)
  {
    PeriodicIsCopy(out, period, e - p, s[..e]);
  }

  /**
   The first eight bytes of a match; afterwards copying goes on at a distance of at least eight. Only an offset of
   zero, which the format does not allow, leads to a distance of four.
   */
  method StartMatch(a: array<byte>, op: nat, offset: nat) returns (distance: nat, ghost k: nat)
    requires offset <= op && op + 8 <= a.Length
    modifies a
    ensures a[..op] == old(a[..op])
    ensures Repeats(a[..op + 8], op, op + 8, offset)
    ensures 1 <= offset ==> k >= 1 && distance == k * offset && 8 <= distance <= op + 8 && distance <= 8 + offset
    ensures offset == 0 ==> distance == 4
  {
    k := 0;
    if offset < 8 {
      if offset > 0 {
        k := WidenedIsMultiple(offset);
      }
      distance := FirstEight(a, op, offset);
    } else {
      Copy8Within(a, op, offset);
      distance, k := offset, 1;
    }
  }

  /** The rest: 8-byte steps that overshoot, except that the last bytes before the end are copied singly. */
  method FinishMatch(a: array<byte>, op: nat, distance: nat, cpy: nat, oend: nat) returns (end: nat)
    requires distance <= op <= oend - 4 && op <= cpy + 4
    requires cpy <= oend - LASTLITERALS && oend <= a.Length
    modifies a
    ensures op <= end <= a.Length && cpy <= end
    ensures a[..op] == old(a[..op])
    ensures 8 <= distance ==> Repeats(a[..end], op, end, distance)
  {
    hide Repeats;
    end := op;
    RepeatsNothing(a[..op], op, distance);
    if cpy > oend - 12 {
      if op < oend - COPYLENGTH {
        end := WildCopyWithin(a, op, distance, oend - COPYLENGTH);
      }
      if end < cpy {
        ghost var mid := a[..end];
        ByteCopyWithin(a, end, distance, cpy);
        assert a[..op] == a[..end][..op] == mid[..op];
        if 8 <= distance {
          RepeatsJoin(a[..cpy], op, end, cpy, distance, mid);
        }
        end := cpy;
      }
    } else {
      end := WildCopyWithin(a, op, distance, cpy);
    }
  }

  lemma RepeatsNothing(s: seq<byte>, p: nat, period: nat)
    requires period <= p <= |s|
    ensures Repeats(s, p, p, period)
  {
  }

  lemma MatchCopied(first: seq<byte>, s: seq<byte>, p: nat, cpy: nat, offset: nat, k: nat)
    requires 1 <= offset <= p && p + 8 == |first| <= |s| && p <= cpy <= |s| && k >= 1
    requires 8 <= k * offset <= p + 8 && k * offset <= 8 + offset
    requires Repeats(first, p, p + 8, offset) && s[..p + 8] == first
    requires Repeats(s, p + 8, |s|, k * offset)
    ensures s[..cpy] == CopyMatch(first[..p], offset, cpy - p)
  {
    RepeatsNothing(s, p + 8, offset);
    RepeatsJoin(s, p, p + 8, p + 8, offset, first);
    MultipleKeepsPeriod(s, p, p + 8, |s|, offset, k, k * offset);
    assert s[..p] == s[..p + 8][..p] == first[..p];
    RepeatsIsCopy(s, p, cpy, offset, first[..p]);
  }

  /**
   The fast copy of a match computes the byte-by-byte copy, for every offset and length the format allows. It gives
   up, after the first eight bytes, when the match leaves no room for the last literals.
   */
  method CopyMatchFast(a: array<byte>, op: nat, offset: nat, length: nat, oend: nat) returns (ok: bool)
    requires offset <= op && MINMATCH <= length && op <= oend - MFLIMIT && oend <= a.Length
    modifies a
    ensures ok <==> op + length <= oend - LASTLITERALS
    ensures ok && 1 <= offset ==> a[..op + length] == CopyMatch(old(a[..op]), offset, length)
  {
    hide CopyMatch, Repeats;
    ghost var out := a[..op];
    var distance, k := StartMatch(a, op, offset);
    ghost var first := a[..op + 8];
    if op + length > oend - LASTLITERALS {
      return false;
    }
    var end := FinishMatch(a, op + 8, distance, op + length, oend);
    ghost var s := a[..end];
    assert s[..op + 8] == first;
    assert first[..op] == out;
    if 1 <= offset {
      MatchCopied(first, s, op, op + length, offset, k);
    }
    assert s[..op + length] == a[..op + length];
    ok := true;
  }
}
