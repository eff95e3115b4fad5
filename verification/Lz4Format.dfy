/**
 The LZ4 block format: what a block is, the bytes that encode it, and the data
 it stands for.  The compressor and the decoders are proved against this module.
 */
module Lz4Format {
  import opened Bytes

  const MINMATCH := 4
  const COPYLENGTH := 8
  const LASTLITERALS := 5
  const MFLIMIT := COPYLENGTH + MINMATCH
  const MIN_LENGTH := MFLIMIT + 1
  const MAX_DISTANCE := 65535
  const ML_MASK := 15
  const RUN_MASK := 15
  const MAX_INPUT_SIZE := 0x7E000000

  /** Literals followed by a match: copy `matchLength` bytes from `offset` bytes back. */
  datatype Sequence = Sequence(literals: seq<byte>, offset: nat, matchLength: nat)

  /** A block ends with a run of literals that has no match. */
  datatype Block = Block(sequences: seq<Sequence>, last: seq<byte>)

  // ---------------------------------------------------------------- meaning

  function Produced(ss: seq<Sequence>): nat {
    if ss == [] then 0
    else Produced(ss[..|ss| - 1]) + |ss[|ss| - 1].literals| + ss[|ss| - 1].matchLength
  }

  /** Every match is legal and starts inside what has been produced before it. */
  predicate Legal(ss: seq<Sequence>) {
    ss == [] ||
    (var s := ss[|ss| - 1];
     && Legal(ss[..|ss| - 1])
     && MINMATCH <= s.matchLength
     && 1 <= s.offset <= MAX_DISTANCE
     && s.offset <= Produced(ss[..|ss| - 1]) + |s.literals|)
  }

  /** The overlapping copy, one byte at a time: byte `i` repeats byte `i - offset`. */
  function CopyMatch(out: seq<byte>, offset: nat, len: nat): (r: seq<byte>)
    requires 1 <= offset <= |out|
    ensures |r| == |out| + len
    ensures r[..|out|] == out
    ensures forall i :: |out| <= i < |r| ==> r[i] == r[i - offset]
    decreases len
  {
    if len == 0 then out
    else
      var r := CopyMatch(out, offset, len - 1);
      r + [r[|r| - offset]]
  }

  function Output(ss: seq<Sequence>): (r: seq<byte>)
    requires Legal(ss)
    ensures |r| == Produced(ss)
  {
    if ss == [] then []
    else
      var s := ss[|ss| - 1];
      CopyMatch(Output(ss[..|ss| - 1]) + s.literals, s.offset, s.matchLength)
  }

  function Size(b: Block): nat {
    Produced(b.sequences) + |b.last|
  }

  /** A legal block that also keeps the end-of-block conditions of the format. */
  predicate WellFormed(b: Block) {
    var ss := b.sequences;
    && Legal(ss)
    && (ss != [] ==> LASTLITERALS <= |b.last| && MFLIMIT <= ss[|ss| - 1].matchLength + |b.last|)
  }

  function Meaning(b: Block): (r: seq<byte>)
    requires Legal(b.sequences)
    ensures |r| == Size(b)
  {
    Output(b.sequences) + b.last
  }

  // --------------------------------------------------------------- encoding

  function Min15(n: nat): (r: byte)
    ensures r <= 15
  {
    if n < 15 then n else 15
  }

  /** Additive run: 255 for every full 255, then the rest. */
  function Run255(n: nat): (r: seq<byte>)
    ensures |r| == n / 255 + 1
  {
    if n < 255 then [n] else [255] + Run255(n - 255)
  }

  /** The bytes that follow the token when a length does not fit its four bits. */
  function Extra(n: nat): (r: seq<byte>)
    ensures |r| == if n < 15 then 0 else (n - 15) / 255 + 1
  {
    if n < 15 then [] else Run255(n - 15)
  }

  function LiteralPart(literals: seq<byte>): seq<byte> {
    Extra(|literals|) + literals
  }

  function MatchPart(offset: nat, matchLength: nat): (r: seq<byte>)
    requires offset <= MAX_DISTANCE && MINMATCH <= matchLength
    ensures |r| == 2 + |Extra(matchLength - MINMATCH)|
  {
    [offset % 256, offset / 256] + Extra(matchLength - MINMATCH)
  }

  function Token(literals: nat, extraMatch: nat): byte {
    Min15(literals) * 16 + Min15(extraMatch)
  }

  function EncodeSequence(s: Sequence): seq<byte>
    requires s.offset <= MAX_DISTANCE && MINMATCH <= s.matchLength
  {
    [Token(|s.literals|, s.matchLength - MINMATCH)] + LiteralPart(s.literals) + MatchPart(s.offset, s.matchLength)
  }

  function EncodeSequences(ss: seq<Sequence>): seq<byte>
    requires Legal(ss)
  {
    if ss == [] then []
    else EncodeSequences(ss[..|ss| - 1]) + EncodeSequence(ss[|ss| - 1])
  }

  function EncodeLast(last: seq<byte>): seq<byte> {
    [Token(|last|, 0)] + LiteralPart(last)
  }

  function Encode(b: Block): seq<byte>
    requires Legal(b.sequences)
  {
    EncodeSequences(b.sequences) + EncodeLast(b.last)
  }

  // ------------------------------------------------------------------ lemmas

  lemma LegalAppend(ss: seq<Sequence>, s: Sequence)
    requires Legal(ss)
    requires MINMATCH <= s.matchLength && 1 <= s.offset <= MAX_DISTANCE
    requires s.offset <= Produced(ss) + |s.literals|
    ensures Legal(ss + [s])
    ensures Produced(ss + [s]) == Produced(ss) + |s.literals| + s.matchLength
    ensures Output(ss + [s]) == CopyMatch(Output(ss) + s.literals, s.offset, s.matchLength)
    ensures EncodeSequences(ss + [s]) == EncodeSequences(ss) + EncodeSequence(s)
  {
    assert (ss + [s])[..|ss|] == ss;
  }

  lemma LegalDropLast(ss: seq<Sequence>)
    requires Legal(ss) && ss != []
    ensures Output(ss[..|ss| - 1]) <= Output(ss)
    ensures EncodeSequences(ss[..|ss| - 1]) <= EncodeSequences(ss)
  {
    var before, s := Output(ss[..|ss| - 1]), ss[|ss| - 1];
    PrefixOfExtension(before, s.literals, CopyMatch(before + s.literals, s.offset, s.matchLength));
    PrefixOfSum(EncodeSequences(ss[..|ss| - 1]), EncodeSequence(s));
  }

  lemma PrefixOfSum(a: seq<byte>, x: seq<byte>)
    ensures a <= a + x
  {
  }

  lemma PrefixOfExtension(a: seq<byte>, x: seq<byte>, c: seq<byte>)
    requires |a + x| <= |c| && c[..|a + x|] == a + x
    ensures a <= c
  {
    assert c[..|a|] == (a + x)[..|a|] == a;
  }

  lemma {:induction false} LegalPrefix(ss: seq<Sequence>, k: nat)
    requires Legal(ss) && k <= |ss|
    ensures Legal(ss[..k])
    ensures Produced(ss[..k]) <= Produced(ss)
    ensures Output(ss[..k]) <= Output(ss)
    ensures EncodeSequences(ss[..k]) <= EncodeSequences(ss)
  {
    if k == |ss| {
      assert ss[..k] == ss;
    } else {
      var front := ss[..|ss| - 1];
      LegalPrefix(front, k);
      assert front[..k] == ss[..k];
      LegalDropLast(ss);
      PrefixTransitive(Output(ss[..k]), Output(front), Output(ss));
      PrefixTransitive(EncodeSequences(ss[..k]), EncodeSequences(front), EncodeSequences(ss));
    }
  }

  lemma PrefixTransitive(a: seq<byte>, b: seq<byte>, c: seq<byte>)
    requires a <= b <= c
    ensures a <= c
  {
  }

  /** An overlapping copy is the only sequence with its period, so any copy loop that gets the period right is right. */
  lemma {:induction false} PeriodicIsCopy(out: seq<byte>, offset: nat, len: nat, r: seq<byte>)
    requires 1 <= offset <= |out|
    requires |r| == |out| + len
    requires r[..|out|] == out
    requires forall i :: |out| <= i < |r| ==> r[i] == r[i - offset]
    ensures r == CopyMatch(out, offset, len)
    decreases len
  {
    if len == 0 {
      assert r == out;
    } else {
      var q := r[..|r| - 1];
      assert q[..|out|] == out;
      PeriodicIsCopy(out, offset, len - 1, q);
      assert r == q + [r[|r| - 1]];
    }
  }

  /** Worst case of one sequence in exact arithmetic: it never costs more than 256/255 of what it produces. */
  lemma SequenceCost(s: Sequence)
    requires s.offset <= MAX_DISTANCE && MINMATCH <= s.matchLength
    ensures 255 * |EncodeSequence(s)| <= 256 * (|s.literals| + s.matchLength)
  {
    var l, m := |s.literals|, s.matchLength - MINMATCH;
    assert 255 * |Extra(l)| <= l + 240;
    assert 255 * |Extra(m)| <= m + 240;
    assert m < 15 ==> |Extra(m)| == 0;
  }

  lemma {:induction false} SequencesCost(ss: seq<Sequence>)
    requires Legal(ss)
    ensures 255 * |EncodeSequences(ss)| <= 256 * Produced(ss)
  {
    if ss != [] {
      SequencesCost(ss[..|ss| - 1]);
      SequenceCost(ss[|ss| - 1]);
    }
  }

  /** LZ4_COMPRESSBOUND on its accepted range. */
  function CompressBound(n: nat): nat {
    n + n / 255 + 16
  }

  /** No legal block, whatever compressor produced it, is larger than the advertised bound. */
  lemma EncodingWithinBound(b: Block)
    requires Legal(b.sequences)
    ensures |Encode(b)| <= CompressBound(Size(b)) == Size(b) + Size(b) / 255 + 16
  {
    SequencesCost(b.sequences);
    assert 255 * |Extra(|b.last|)| <= |b.last| + 240;
    assert 255 * |Encode(b)| <= 256 * Size(b) + 495;
  }

  lemma KnownSequence(literals: seq<byte>)
    requires |literals| == 300
    ensures EncodeSequence(Sequence(literals, 300, 24)) == [0xFF, 255, 30] + literals + [44, 1, 5]
  {
    assert Run255(285) == [255] + Run255(30);
  }

  /** The bytes of one block: 300 literals, 24 bytes from 300 bytes back, and the last five literals. */
  lemma KnownBytes(literals: seq<byte>, last: seq<byte>)
    requires |literals| == 300 && |last| == 5
    ensures var b := Block([Sequence(literals, 300, 24)], last);
      && WellFormed(b) && Meaning(b) == literals + literals[..24] + last
      && Encode(b) == [0xFF, 255, 30] + literals + [44, 1, 5] + ([0x50] + last)
  {
    hide EncodeSequence, CopyMatch;
    var x := Sequence(literals, 300, 24);
    assert [] + [x] == [x] && [] + literals == literals;
    LegalAppend([], x);
    KnownSequence(literals);
    CopyOnce(literals, 24);
  }

  lemma CopyOnce(out: seq<byte>, len: nat)
    requires 0 < len <= |out|
    ensures CopyMatch(out, |out|, len) == out + out[..len]
  {
    PeriodicIsCopy(out, |out|, len, out + out[..len]);
  }
}
