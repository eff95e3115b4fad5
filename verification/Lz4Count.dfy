/**
 Word-at-a-time match counting (LZ4_count, LZ4_NbCommonBytes) on a 64-bit
 little-endian machine: machine words are bit vectors loaded from the buffer.
 */
module Lz4Count {
  import opened Bytes
  import opened Words

  function Xor(v: bv64, w: bv64): bv64 {
    v ^ w
  }

  /** Number of trailing zero bits, as the hardware instruction counts them. */
  function TrailingZeros(v: bv64): nat
    requires v != 0
    decreases v
  {
    if v & 1 == 1 then 0 else 1 + TrailingZeros(v >> 1)
  }

  function NbCommonBytes(v: bv64): nat
    requires v != 0
  {
    TrailingZeros(v) / 8
  }

  lemma {:induction false} LowBitsSet(v: bv64, n: bv7)
    requires 1 <= n <= 8 && v << (64 - n) != 0
    ensures v != 0 && TrailingZeros(v) < n as nat
    decreases n
  {
    if v & 1 == 0 && n > 1 {
      assert (v >> 1) << (64 - (n - 1)) != 0;
      LowBitsSet(v >> 1, n - 1);
    }
  }

  lemma SkipZeroByte(v: bv64)
    requires v != 0 && v & 0xFF == 0
    ensures v >> 8 != 0 && TrailingZeros(v) == 8 + TrailingZeros(v >> 8)
  {
    assert TrailingZeros(v) == 1 + TrailingZeros(v >> 1);
    assert TrailingZeros(v >> 1) == 1 + TrailingZeros(v >> 1 >> 1);
    assert v >> 1 >> 1 == v >> 2;
    assert TrailingZeros(v >> 2) == 1 + TrailingZeros(v >> 2 >> 1);
    assert v >> 2 >> 1 == v >> 3;
    assert TrailingZeros(v >> 3) == 1 + TrailingZeros(v >> 3 >> 1);
    assert v >> 3 >> 1 == v >> 4;
    assert TrailingZeros(v >> 4) == 1 + TrailingZeros(v >> 4 >> 1);
    assert v >> 4 >> 1 == v >> 5;
    assert TrailingZeros(v >> 5) == 1 + TrailingZeros(v >> 5 >> 1);
    assert v >> 5 >> 1 == v >> 6;
    assert TrailingZeros(v >> 6) == 1 + TrailingZeros(v >> 6 >> 1);
    assert v >> 6 >> 1 == v >> 7;
    assert TrailingZeros(v >> 7) == 1 + TrailingZeros(v >> 7 >> 1);
    assert v >> 7 >> 1 == v >> 8;
  }

  lemma ShiftByte(v: bv64, j: nat)
    requires j < 7
    ensures ByteAt(v >> 8, j) == ByteAt(v, j + 1)
  {
  }

  lemma ShiftBytes(v: bv64)
    ensures forall j {:trigger ByteAt(v >> 8, j)} :: 0 <= j < 7 ==> ByteAt(v >> 8, j) == ByteAt(v, j + 1)
  {
    forall j {:trigger ByteAt(v >> 8, j)} | 0 <= j < 7 ensures ByteAt(v >> 8, j) == ByteAt(v, j + 1) {
      ShiftByte(v, j);
    }
  }

  /** NbCommonBytes is the index of the lowest non-zero byte. */
  lemma {:induction false} FirstNonZeroByte(v: bv64, k: nat)
    requires k < 8 && v != 0
    requires ByteAt(v, k) != 0
    requires forall j :: 0 <= j < k ==> ByteAt(v, j) == 0
    ensures NbCommonBytes(v) == k
    decreases k
  {
    if k == 0 {
      LowBitsSet(v, 8);
    } else {
      assert ByteAt(v, 0) == 0;
      SkipZeroByte(v);
      ShiftBytes(v);
      FirstNonZeroByte(v >> 8, k - 1);
    }
  }

  lemma XorOfBytes(v: bv64, w: bv64, k: nat)
    requires k < 8
    ensures ByteAt(Xor(v, w), k) == ByteAt(v, k) ^ ByteAt(w, k)
  {
    match k case 0 => case 1 => case 2 => case 3 => case 4 => case 5 => case 6 => case 7 =>
  }

  lemma XorIsZero(a: bv8, b: bv8)
    ensures a ^ b == 0 <==> a == b
  {
  }

  lemma XorBytewise(v: bv64, w: bv64, k: nat)
    requires k < 8
    ensures ByteAt(Xor(v, w), k) == 0 <==> ByteAt(v, k) == ByteAt(w, k)
  {
    hide ByteAt, Xor;
    XorOfBytes(v, w, k);
    XorIsZero(ByteAt(v, k), ByteAt(w, k));
  }

  lemma ZeroBytewise(v: bv64)
    requires forall k :: 0 <= k < 8 ==> ByteAt(v, k) == 0
    ensures v == 0
  {
    assert ByteAt(v, 0) == 0 && ByteAt(v, 1) == 0 && ByteAt(v, 2) == 0 && ByteAt(v, 3) == 0;
    assert ByteAt(v, 4) == 0 && ByteAt(v, 5) == 0 && ByteAt(v, 6) == 0 && ByteAt(v, 7) == 0;
  }

  lemma WordByte(s: seq<byte>, p: nat, q: nat, k: nat)
    requires p + STEPSIZE <= |s| && q + STEPSIZE <= |s| && k < STEPSIZE
    ensures ByteAt(Xor(Word(s, p), Word(s, q)), k) == 0 <==> s[p + k] == s[q + k]
  {
    hide ByteAt, Xor, Load64, Bits;
    XorBytewise(Word(s, p), Word(s, q), k);
    LoadedByte(Eight(s, p), k);
    LoadedByte(Eight(s, q), k);
    if Bits(s[p + k]) == Bits(s[q + k]) {
      BitsInjective(s[p + k], s[q + k]);
    }
  }

  lemma NonZeroByte(v: bv64, k: nat)
    requires k < 8 && ByteAt(v, k) != 0
    ensures v != 0
  {
  }

  /** The first n bytes at p and q agree. */
  predicate Agree(s: seq<byte>, p: nat, q: nat, n: nat)
    requires p + n <= |s| && q + n <= |s|
  {
    s[p..p + n] == s[q..q + n]
  }

  lemma AgreeMore(s: seq<byte>, p: nat, q: nat, n: nat, more: nat)
    requires p + n + more <= |s| && q + n + more <= |s|
    requires Agree(s, p, q, n) && Agree(s, p + n, q + n, more)
    ensures Agree(s, p, q, n + more)
  {
    assert s[p..p + n + more] == s[p..p + n] + s[p + n..p + n + more];
    assert s[q..q + n + more] == s[q..q + n] + s[q + n..q + n + more];
  }

  lemma AgreeNothing(s: seq<byte>, p: nat, q: nat)
    requires p <= |s| && q <= |s|
    ensures Agree(s, p, q, 0)
  {
  }

  lemma AgreeOne(s: seq<byte>, p: nat, q: nat, limit: nat)
    requires q < p <= limit <= |s|
    ensures p < limit ==> (Agree(s, p, q, 1) <==> s[p] == s[q])
  {
    if p < limit {
      assert s[p..p + 1] == [s[p]] && s[q..q + 1] == [s[q]];
    }
  }

  lemma AgreeBytewise(s: seq<byte>, p: nat, q: nat, m: nat, v: bv64)
    requires p + m <= |s| && q + m <= |s| && m <= 8
    requires forall k :: 0 <= k < m ==> ByteAt(v, k) == 0
    requires forall k {:trigger ByteAt(v, k)} :: 0 <= k < m && ByteAt(v, k) == 0 ==> s[p + k] == s[q + k]
    ensures Agree(s, p, q, m)
  {
    hide ByteAt;
    var x, y := s[p..p + m], s[q..q + m];
    forall i | 0 <= i < m ensures x[i] == y[i] {
      assert ByteAt(v, i) == 0;
    }
  }

  /** Comparing two words by XOR and zero count finds the first byte that differs. */
  lemma WordDiff(s: seq<byte>, p: nat, q: nat)
    requires p + STEPSIZE <= |s| && q + STEPSIZE <= |s|
    ensures Xor(Word(s, p), Word(s, q)) == 0 ==> Agree(s, p, q, STEPSIZE)
    ensures var v := Xor(Word(s, p), Word(s, q)); v != 0 ==>
      && NbCommonBytes(v) < STEPSIZE
      && Agree(s, p, q, NbCommonBytes(v))
      && s[p + NbCommonBytes(v)] != s[q + NbCommonBytes(v)]
  {
    hide ByteAt, Xor, Word, NbCommonBytes, Agree;
    var v := Xor(Word(s, p), Word(s, q));
    forall k | 0 <= k < STEPSIZE ensures ByteAt(v, k) == 0 <==> s[p + k] == s[q + k] {
      WordByte(s, p, q, k);
    }
    var m := FirstNonZero(v, 0);
    assert forall k :: 0 <= k < m ==> ByteAt(v, k) == 0;
    AgreeBytewise(s, p, q, m, v);
    if m == STEPSIZE {
      ZeroBytewise(v);
    } else {
      NonZeroByte(v, m);
      FirstNonZeroByte(v, m);
    }
  }

  lemma FirstNonZero(v: bv64, from: nat) returns (m: nat)
    requires from <= 8
    requires forall k :: 0 <= k < from ==> ByteAt(v, k) == 0
    ensures from <= m <= 8
    ensures forall k :: 0 <= k < m ==> ByteAt(v, k) == 0
    ensures m < 8 ==> ByteAt(v, m) != 0
    decreases 8 - from
  {
    if from < 8 && ByteAt(v, from) == 0 {
      m := FirstNonZero(v, from + 1);
    } else {
      m := from;
    }
  }

  /** `n` is the length of the longest common run at p and q that ends by limit (seen from p). */
  ghost predicate LongestMatch(s: seq<byte>, p: nat, q: nat, limit: nat, n: nat)
    requires q <= p <= limit <= |s|
  {
    && p + n <= limit
    && Agree(s, p, q, n)
    && (p + n < limit ==> s[p + n] != s[q + n])
  }

  lemma LongestJoin(s: seq<byte>, p: nat, q: nat, limit: nat, n: nat, more: nat)
    requires q <= p && p + n <= limit <= |s|
    requires Agree(s, p, q, n) && LongestMatch(s, p + n, q + n, limit, more)
    ensures LongestMatch(s, p, q, limit, n + more)
  {
    AgreeMore(s, p, q, n, more);
  }

  /** LZ4_count: whole words while they fit below the limit, then the tail. */
  method Count(s: seq<byte>, pStart: nat, refStart: nat, limit: nat) returns (n: nat)
    requires refStart < pStart <= limit <= |s|
    ensures LongestMatch(s, pStart, refStart, limit, n)
  {
    hide Word, Xor, NbCommonBytes, Agree, LongestMatch;
    var pIn, pRef := pStart, refStart;
    AgreeNothing(s, pStart, refStart);
    while pIn < limit - (STEPSIZE - 1)
      invariant pStart <= pIn <= limit && pRef == refStart + (pIn - pStart)
      invariant Agree(s, pStart, refStart, pIn - pStart)
    {
      var diff := Xor(Word(s, pIn), Word(s, pRef));
      WordDiff(s, pIn, pRef);
      if diff != 0 {
        StopsHere(s, pIn, pRef, limit, NbCommonBytes(diff));
        LongestJoin(s, pStart, refStart, limit, pIn - pStart, NbCommonBytes(diff));
        pIn := pIn + NbCommonBytes(diff);
        return pIn - pStart;
      }
      AgreeMore(s, pStart, refStart, pIn - pStart, STEPSIZE);
      pIn, pRef := pIn + STEPSIZE, pRef + STEPSIZE;
    }
    var tail := CountTail(s, pIn, pRef, limit);
    LongestJoin(s, pStart, refStart, limit, pIn - pStart, tail);
    return pIn + tail - pStart;
  }

  /** The last seven bytes or fewer: a 4-byte, a 2-byte and a 1-byte comparison. */
  method CountTail(s: seq<byte>, pStart: nat, refStart: nat, limit: nat) returns (n: nat)
    requires refStart < pStart <= limit <= |s| && limit - pStart < STEPSIZE
    ensures LongestMatch(s, pStart, refStart, limit, n)
  {
    hide Agree, LongestMatch;
    var pIn, pRef := pStart, refStart;
    AgreeNothing(s, pStart, refStart);
    if pIn < limit - 3 && Agree(s, pIn, pRef, 4) {
      pIn, pRef := pIn + 4, pRef + 4;
    }
    var n2 := CountPair(s, pIn, pRef, limit);
    LongestJoin(s, pStart, refStart, limit, pIn - pStart, n2);
    return pIn + n2 - pStart;
  }

  method CountPair(s: seq<byte>, pStart: nat, refStart: nat, limit: nat) returns (n: nat)
    requires refStart < pStart <= limit <= |s|
    requires limit - pStart < 4 || !Agree(s, pStart, refStart, 4)
    ensures LongestMatch(s, pStart, refStart, limit, n)
  {
    hide Agree, LongestMatch;
    var pIn, pRef := pStart, refStart;
    AgreeNothing(s, pStart, refStart);
    if pIn < limit - 1 && Agree(s, pIn, pRef, 2) {
      if limit - pIn >= 4 { DisagreeRest(s, pIn, pRef, 2); }
      pIn, pRef := pIn + 2, pRef + 2;
    }
    var n1 := 0;
    AgreeOne(s, pIn, pRef, limit);
    AgreeNothing(s, pIn, pRef);
    if pIn < limit && s[pRef] == s[pIn] {
      n1 := 1;
      if limit - pIn >= 2 { DisagreeRest(s, pIn, pRef, 1); }
      AgreeOne(s, pIn + 1, pRef + 1, limit);
    }
    StopsHere(s, pIn, pRef, limit, n1);
    LongestJoin(s, pStart, refStart, limit, pIn - pStart, n1);
    return pIn + n1 - pStart;
  }

  lemma StopsHere(s: seq<byte>, p: nat, q: nat, limit: nat, n: nat)
    requires q <= p && p + n <= limit <= |s|
    requires Agree(s, p, q, n) && (p + n < limit ==> s[p + n] != s[q + n])
    ensures LongestMatch(s, p, q, limit, n)
  {
  }

  lemma DisagreeRest(s: seq<byte>, p: nat, q: nat, half: nat)
    requires p + half + half <= |s| && q + half + half <= |s|
    requires Agree(s, p, q, half) && !Agree(s, p, q, half + half)
    ensures !Agree(s, p + half, q + half, half)
  {
    if Agree(s, p + half, q + half, half) {
      AgreeMore(s, p, q, half, half);
    }
  }
}
