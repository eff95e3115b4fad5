/**
 The LZ4 decoders: LZ4_decompress_generic as LZ4_decompress_fast and LZ4_decompress_safe instantiate it. The safe
 decoder takes any input and stays inside both buffers. It accepts exactly the encodings of blocks that keep away from
 both ends, every well-formed block that fits among them, and produces the meaning of the block unless some match has
 offset zero.
 */
module Lz4Decompress {
  import opened Bytes
  import opened Lz4Format
  import opened Lz4Copy

  /** Everything the decoder relies on at the start of sequence k. */
  lemma SequenceAt(b: Block, src: seq<byte>, k: nat)
    requires WellFormed(b) && Encode(b) <= src && k < |b.sequences|
    ensures Legal(b.sequences[..k]) && Legal(b.sequences[..k + 1])
    ensures var ss, s := b.sequences, b.sequences[k];
      var ip, op, len := |EncodeSequences(ss[..k])|, Produced(ss[..k]), |EncodeSequence(s)|;
      && MINMATCH <= s.matchLength && 1 <= s.offset <= MAX_DISTANCE
      && s.offset <= op + |s.literals|
      && ip + len + LASTLITERALS + 1 <= |Encode(b)|
      && Holds(src, ip, EncodeSequence(s))
      && |EncodeSequences(ss[..k + 1])| == ip + len
      && op + |s.literals| <= Size(b) - MFLIMIT
      && Produced(ss[..k + 1]) == op + |s.literals| + s.matchLength <= Size(b) - LASTLITERALS
      && Output(ss[..k + 1]) == CopyMatch(Output(ss[..k]) + s.literals, s.offset, s.matchLength)
  {
    hide Output, EncodeSequences, EncodeSequence, CopyMatch;
    var ss := b.sequences;
    LegalPrefix(ss, k);
    LegalPrefix(ss, k + 1);
    StepPrefix(ss, k);
    EndsBeforeLast(b, k);
    var e1, len := EncodeSequences(ss[..k + 1]), |EncodeSequence(ss[k])|;
    var ip := |e1| - len;
    PrefixTransitive(e1, EncodeSequences(ss), Encode(b));
    PrefixTransitive(e1, Encode(b), src);
    assert src[..|e1|] == e1;
    assert src[ip..ip + len] == e1[ip..];
  }

  lemma StepPrefix(ss: seq<Sequence>, k: nat)
    requires k < |ss| && Legal(ss[..k + 1])
    ensures Legal(ss[..k]) && ss[k].offset <= MAX_DISTANCE && MINMATCH <= ss[k].matchLength
    ensures 1 <= ss[k].offset <= Produced(ss[..k]) + |ss[k].literals|
    ensures Produced(ss[..k + 1]) == Produced(ss[..k]) + |ss[k].literals| + ss[k].matchLength
    ensures Output(ss[..k + 1]) == CopyMatch(Output(ss[..k]) + ss[k].literals, ss[k].offset, ss[k].matchLength)
    ensures EncodeSequences(ss[..k + 1]) == EncodeSequences(ss[..k]) + EncodeSequence(ss[k])
  {
    hide EncodeSequence, CopyMatch;
    assert ss[..k + 1][..k] == ss[..k];
  }

  lemma EndsBeforeLast(b: Block, k: nat)
    requires WellFormed(b) && k < |b.sequences|
    requires Legal(b.sequences[..k + 1])
    ensures |Encode(b)| >= |EncodeSequences(b.sequences)| + LASTLITERALS + 1
    ensures EncodeSequences(b.sequences) <= Encode(b)
    ensures Produced(b.sequences[..k + 1]) <= Size(b) - LASTLITERALS
    ensures Produced(b.sequences[..k + 1]) - b.sequences[k].matchLength <= Size(b) - MFLIMIT
  {
    hide Output, EncodeSequences, EncodeSequence;
    var ss := b.sequences;
    LegalPrefix(ss, k + 1);
    if k + 1 == |ss| {
      assert ss[..k + 1] == ss;
    } else {
      LegalPrefix(ss[..|ss| - 1], k + 1);
      assert ss[..|ss| - 1][..k + 1] == ss[..k + 1];
    }
  }

  function Read16(lo: byte, hi: byte): nat {
    var l: nat, h: nat := lo, hi;
    l + 0x100 * h
  }

  /** Places inside the encoding of a sequence. */
  function LiteralsAt(s: Sequence): nat {
    1 + |Extra(|s.literals|)|
  }

  function OffsetAt(s: Sequence): nat {
    LiteralsAt(s) + |s.literals|
  }

  lemma EncodedParts(s: Sequence)
    requires s.offset <= MAX_DISTANCE && MINMATCH <= s.matchLength
    ensures var e, l, m := EncodeSequence(s), |s.literals|, s.matchLength - MINMATCH;
      && |e| == OffsetAt(s) + 2 + |Extra(m)|
      && e[0] / 16 == Min15(l) && e[0] % 16 == Min15(m)
      && e[1..LiteralsAt(s)] == Extra(l)
      && e[LiteralsAt(s)..OffsetAt(s)] == s.literals
      && Read16(e[OffsetAt(s)], e[OffsetAt(s) + 1]) == s.offset
      && e[OffsetAt(s) + 2..|e|] == Extra(m)
  {
    hide Extra;
  }

  /** A window of the input that equals e: its parts are the parts of e. */
  ghost predicate Holds(src: seq<byte>, ip: nat, e: seq<byte>) {
    ip + |e| <= |src| && src[ip..ip + |e|] == e
  }

  lemma HoldsPart(src: seq<byte>, ip: nat, e: seq<byte>, i: nat, j: nat)
    requires Holds(src, ip, e) && i <= j <= |e|
    ensures Holds(src, ip + i, e[i..j])
  {
    var x, y := src[ip + i..ip + j], src[ip..ip + |e|][i..j];
    forall t | 0 <= t < j - i ensures x[t] == y[t] {
    }
    assert x == y;
  }

  lemma HeldUnique(src: seq<byte>, ip: nat, x: seq<byte>, y: seq<byte>)
    requires Holds(src, ip, x) && Holds(src, ip, y) && |x| == |y|
    ensures x == y
  {
  }

  lemma HeldInside(src: seq<byte>, ip: nat, e: seq<byte>)
    requires Holds(src, ip, e)
    ensures ip + |e| <= |src|
  {
  }

  lemma HoldsByte(src: seq<byte>, ip: nat, e: seq<byte>, i: nat)
    requires Holds(src, ip, e) && i < |e|
    ensures src[ip + i] == e[i]
  {
    assert src[ip..ip + |e|][i] == e[i];
  }

  // ----------------------------------------------------------- reading lengths

  /** The four bits and the bytes from ip0 to ip state the length. */
  ghost predicate States(src: seq<byte>, ip0: nat, ip: nat, nibble: nat, length: nat) {
    nibble == Min15(length) && ip == ip0 + |Extra(length)| && Holds(src, ip0, Extra(length))
  }

  lemma {:induction false} RunOf(src: seq<byte>, ip: nat, j: nat, rest: nat)
    requires ip + j < |src| && rest < 255 && src[ip + j] == rest
    requires forall i :: ip <= i < ip + j ==> src[i] == 255
    ensures Holds(src, ip, Run255(255 * j + rest)) && |Run255(255 * j + rest)| == j + 1
    decreases j
  {
    if j > 0 {
      var n := 255 * j + rest;
      RunOf(src, ip + 1, j - 1, rest);
      assert Run255(n) == [255] + Run255(n - 255);
      RunFront(src, ip, Run255(n - 255));
    }
  }

  lemma RunFront(src: seq<byte>, ip: nat, r: seq<byte>)
    requires Holds(src, ip + 1, r) && src[ip] == 255
    ensures Holds(src, ip, [255] + r)
  {
    assert src[ip..ip + 1 + |r|] == [src[ip]] + src[ip + 1..ip + 1 + |r|];
  }

  lemma StatesShort(src: seq<byte>, ip: nat, nibble: nat)
    requires nibble < 15 && ip <= |src|
    ensures States(src, ip, ip, nibble, nibble)
  {
  }

  lemma StatesLong(src: seq<byte>, ip0: nat, j: nat, rest: nat)
    requires ip0 + j < |src| && rest < 255 && src[ip0 + j] == rest
    requires forall i :: ip0 <= i < ip0 + j ==> src[i] == 255
    ensures States(src, ip0, ip0 + j + 1, 15, 15 + 255 * j + rest)
  {
    hide Run255, Holds;
    RunOf(src, ip0, j, rest);
  }

  /** What is known in advance about a length: the input states n, and what follows still fits. */
  ghost predicate Foretold(src: seq<byte>, ip: nat, iend: nat, endOnInput: bool, nibble: nat, n: nat, behind: nat) {
    nibble == Min15(n) && Holds(src, ip, Extra(n)) && (endOnInput ==> ip + |Extra(n)| + behind <= iend)
  }

  /** The rest of a run that is known in advance. */
  ghost predicate Remains(src: seq<byte>, ip0: nat, ip: nat, length: nat, n: nat, rest: nat) {
    length + rest == n && ip + |Run255(rest)| == ip0 + |Extra(n)| && Holds(src, ip, Run255(rest))
  }

  lemma RemainsNext(src: seq<byte>, ip0: nat, ip: nat, length: nat, n: nat, rest: nat)
    requires Remains(src, ip0, ip, length, n, rest)
    ensures ip < |src|
    ensures src[ip] != 255 ==> length + src[ip] == n && ip + 1 == ip0 + |Extra(n)|
    ensures src[ip] == 255 ==>
      && rest >= 255 && Remains(src, ip0, ip + 1, length + 255, n, rest - 255) && ip + 2 <= ip0 + |Extra(n)|
  {
    HoldsByte(src, ip, Run255(rest), 0);
    RunByte(src, ip, rest);
  }

  lemma RemainsFirst(src: seq<byte>, ip: nat, n: nat)
    requires Holds(src, ip, Extra(n)) && Min15(n) == 15
    ensures Remains(src, ip, ip, 15, n, n - 15)
  {
  }

  /**
   Literal lengths: near the end of the input the loop of the safe decoder stops, with more literals than are left.
   */
  method ReadLiteralLength(src: seq<byte>, ip0: nat, iend: nat, endOnInput: bool, nibble: nat, ghost known: bool,
                           ghost n: nat)
      returns (length: nat, ip: nat)
    requires nibble <= 15 && ip0 <= |src| && (endOnInput ==> iend <= |src| && (nibble == 15 ==> ip0 < |src|))
    requires known ==> Foretold(src, ip0, iend, endOnInput, nibble, n, n)
    requires endOnInput || known
    ensures ip0 <= ip <= |src|
    ensures States(src, ip0, ip, nibble, length) || (endOnInput && ip + length > iend)
    ensures known ==> length == n && ip == ip0 + |Extra(n)|
  {
    hide Run255, Extra, Holds, Remains, States;
    length, ip := nibble, ip0;
    if length != RUN_MASK {
      StatesShort(src, ip0, nibble);
      ShortLength(n);
      return;
    }
    ghost var j: nat, rest: nat := 0, if known then n - 15 else 0;
    if known {
      RemainsFirst(src, ip0, n);
      RemainsNext(src, ip0, ip0, 15, n, rest);
    }
    while true
      invariant ip == ip0 + j < |src| && length == 15 + 255 * j
      invariant forall i :: ip0 <= i < ip ==> src[i] == 255
      invariant known ==> Remains(src, ip0, ip, length, n, rest)
      decreases |src| - ip
    {
      var s := src[ip];
      if known {
        RemainsNext(src, ip0, ip, length, n, rest);
      }
      if s != 255 {
        StatesLong(src, ip0, j, s);
      }
      ip := ip + 1;
      length := length + s;
      if !((if endOnInput then ip < iend - RUN_MASK else true) && s == 255) {
        break;
      }
      j, rest := j + 1, if known then rest - 255 else 0;
      if known {
        RemainsNext(src, ip0, ip, length, n, rest);
      }
    }
  }

  lemma ShortLength(n: nat)
    ensures Min15(n) != 15 ==> n == Min15(n) && Extra(n) == []
  {
  }

  lemma RunByte(src: seq<byte>, ip: nat, rest: nat)
    requires Holds(src, ip, Run255(rest))
    ensures rest < 255 ==> src[ip] == rest && |Run255(rest)| == 1
    ensures rest >= 255 ==> src[ip] == 255 && Holds(src, ip + 1, Run255(rest - 255))
    ensures rest >= 255 ==> |Run255(rest)| == 1 + |Run255(rest - 255)|
  {
    var r := Run255(rest);
    HoldsByte(src, ip, r, 0);
    if rest >= 255 {
      HoldsPart(src, ip, r, 1, |r|);
      assert r[1..|r|] == Run255(rest - 255);
    }
  }

  /** A length is determined by its four bits and the bytes that follow. */
  lemma {:induction false} Run255Unique(src: seq<byte>, ip: nat, m: nat, n: nat)
    requires Holds(src, ip, Run255(m)) && Holds(src, ip, Run255(n))
    ensures m == n
    decreases m
  {
    RunByte(src, ip, m);
    RunByte(src, ip, n);
    if m >= 255 && n >= 255 {
      Run255Unique(src, ip + 1, m - 255, n - 255);
    }
  }

  lemma ExtraUnique(src: seq<byte>, ip: nat, m: nat, n: nat)
    requires Min15(m) == Min15(n)
    requires Holds(src, ip, Extra(m)) && Holds(src, ip, Extra(n))
    ensures m == n
  {
    if m >= 15 {
      Run255Unique(src, ip, m - 15, n - 15);
    }
  }

  /** Match lengths: the safe decoder insists on five more input bytes before every read. */
  method ReadMatchLength(src: seq<byte>, ip0: nat, iend: nat, endOnInput: bool, nibble: nat, ghost known: bool,
                         ghost n: nat)
      returns (ok: bool, length: nat, ip: nat)
    requires nibble <= 15 && ip0 <= |src| && (endOnInput ==> iend <= |src|)
    requires known ==> Foretold(src, ip0, iend, endOnInput && nibble == ML_MASK, nibble, n, LASTLITERALS - 1)
    requires endOnInput || known
    ensures ip0 <= ip <= |src|
    ensures ok ==> States(src, ip0, ip, nibble, length) && (endOnInput ==> ip == ip0 || ip + LASTLITERALS - 1 <= iend)
    ensures known ==> ok && length == n && ip == ip0 + |Extra(n)|
  {
    hide Run255, Extra, Holds, Remains, States;
    ok, length, ip := true, nibble, ip0;
    if length != ML_MASK {
      StatesShort(src, ip0, nibble);
      ShortLength(n);
      return;
    }
    ghost var j: nat, rest: nat := 0, if known then n - 15 else 0;
    if known {
      RemainsFirst(src, ip0, n);
    }
    while true
      invariant ip == ip0 + j <= |src| && length == 15 + 255 * j
      invariant forall i :: ip0 <= i < ip ==> src[i] == 255
      invariant known ==> Remains(src, ip0, ip, length, n, rest)
      decreases |src| - ip
    {
      if known {
        RemainsNext(src, ip0, ip, length, n, rest);
      }
      if endOnInput && ip > iend - LASTLITERALS {
        return false, length, ip;
      }
      var s := src[ip];
      if s != 255 {
        StatesLong(src, ip0, j, s);
      }
      ip := ip + 1;
      length := length + s;
      if s != 255 {
        break;
      }
      j, rest := j + 1, if known then rest - 255 else 0;
    }
  }

  // ------------------------------------------------------------- decoding

  /** The condition under which literals are taken to be the last ones. */
  function IsLast(cpy: nat, ipEnd: nat, iend: nat, oend: nat, endOnInput: bool): bool {
    if endOnInput then cpy > oend - MFLIMIT || ipEnd > iend - (2 + 1 + LASTLITERALS)
    else cpy > oend - COPYLENGTH
  }

  /** The last literals must end where the input ends, or where the output ends. */
  predicate EndsRight(cpy: nat, ipEnd: nat, iend: nat, oend: nat, endOnInput: bool) {
    if endOnInput then ipEnd == iend && cpy <= oend else cpy == oend
  }

  lemma WellFormedIsLegal(b: Block)
    requires WellFormed(b)
    ensures Legal(b.sequences)
  {
  }

  lemma LastParts(b: Block, src: seq<byte>)
    requires WellFormed(b) && Encode(b) <= src
    ensures var ss, l := b.sequences, |b.last|;
      var ip := |EncodeSequences(ss)|;
      && ss[..|ss|] == ss
      && |Encode(b)| == ip + 1 + |Extra(l)| + l <= |src|
      && src[ip] / 16 == Min15(l)
      && Holds(src, ip + 1, Extra(l))
      && Holds(src, ip + 1 + |Extra(l)|, b.last)
  {
    hide Extra, EncodeSequences;
    var e, ip, l := EncodeLast(b.last), |EncodeSequences(b.sequences)|, |b.last|;
    assert b.sequences[..|b.sequences|] == b.sequences;
    HoldsSuffix(EncodeSequences(b.sequences), e, src);
    HoldsByte(src, ip, e, 0);
    HoldsPart(src, ip, e, 1, 1 + |Extra(l)|);
    HoldsPart(src, ip, e, 1 + |Extra(l)|, |e|);
    assert e[1..1 + |Extra(l)|] == Extra(l);
    assert e[1 + |Extra(l)|..|e|] == b.last;
  }

  lemma HoldsSuffix(front: seq<byte>, e: seq<byte>, src: seq<byte>)
    requires front + e <= src
    ensures Holds(src, |front|, e)
  {
    var w := src[|front|..|front| + |e|];
    forall t | 0 <= t < |e| ensures w[t] == e[t] {
      assert w[t] == src[|front| + t] == (front + e)[|front| + t];
    }
    assert w == e;
  }

  method CopyLiterals(dest: array<byte>, op: nat, src: seq<byte>, ip: nat, cpy: nat, ghost literals: seq<byte>)
    requires op <= cpy && cpy + 8 <= dest.Length && ip + (cpy - op) + 8 <= |src|
    requires cpy == op + |literals| && Holds(src, ip, literals)
    modifies dest
    ensures dest[..cpy] == old(dest[..op]) + literals
  {
    WildCopy(dest, op, src, ip, cpy);
  }

  /** memcpy of the last literals: exactly `length` bytes are read and written. */
  method CopyBlock(dest: array<byte>, op: nat, src: seq<byte>, ip: nat, length: nat, ghost literals: seq<byte>)
    requires op + length <= dest.Length && ip + length <= |src|
    requires length == |literals| && Holds(src, ip, literals)
    modifies dest
    ensures dest[..op + length] == old(dest[..op]) + literals
  {
    CopyExact(dest, op, src[..ip + length], ip);
    assert src[..ip + length][ip..] == src[ip..ip + length];
  }

  /** The literals that the decoder meets in round k. */
  ghost function Literals(b: Block, k: nat): seq<byte>
    requires k <= |b.sequences|
  {
    if k < |b.sequences| then b.sequences[k].literals else b.last
  }

  // ------------------------------------------------------------- what has been parsed

  /** Like Legal, but for the offset zero, which the decoders do not refuse. */
  predicate Loose(ss: seq<Sequence>) {
    ss == [] ||
    (var s := ss[|ss| - 1];
     Loose(ss[..|ss| - 1]) && IsLoose(s, Produced(ss[..|ss| - 1])))
  }

  predicate IsLoose(s: Sequence, op: nat) {
    MINMATCH <= s.matchLength && s.offset <= MAX_DISTANCE && s.offset <= op + |s.literals|
  }

  function Wire(ss: seq<Sequence>): seq<byte>
    requires Loose(ss)
  {
    if ss == [] then [] else Wire(ss[..|ss| - 1]) + EncodeSequence(ss[|ss| - 1])
  }

  /** Legal sequences are parsed from their encoding. */
  lemma {:induction false} LegalIsLoose(ss: seq<Sequence>)
    requires Legal(ss)
    ensures Loose(ss) && Wire(ss) == EncodeSequences(ss)
  {
    hide EncodeSequence, Output;
    if ss != [] {
      LegalIsLoose(ss[..|ss| - 1]);
    }
  }

  /** Only an offset of zero makes the difference. */
  lemma {:induction false} LegalIsNonzero(ss: seq<Sequence>)
    requires Loose(ss)
    ensures Legal(ss) <==> forall k :: 0 <= k < |ss| ==> ss[k].offset != 0
  {
    hide Produced;
    if ss != [] {
      var front := ss[..|ss| - 1];
      LegalIsNonzero(front);
      assert forall k :: 0 <= k < |front| ==> front[k] == ss[k];
    }
  }

  /** The input up to ip is the encoding of the sequences, and the output is theirs if no offset is zero. */
  ghost predicate Parsed(src: seq<byte>, ss: seq<Sequence>, ip: nat, out: seq<byte>) {
    && Loose(ss) && |out| == Produced(ss)
    && ip <= |src| && src[..ip] == Wire(ss)
    && (Legal(ss) ==> out == Output(ss))
  }

  lemma ParsedNothing(src: seq<byte>)
    ensures Parsed(src, [], 0, [])
  {
  }

  /** The output after a sequence: its literals, then the overlapping copy, if there is one. */
  ghost predicate Extends(out: seq<byte>, s: Sequence, out': seq<byte>) {
    && IsLoose(s, |out|) && |out'| == |out| + |s.literals| + s.matchLength
    && (1 <= s.offset ==> out' == CopyMatch(out + s.literals, s.offset, s.matchLength))
  }

  lemma ParsedNext(src: seq<byte>, ss: seq<Sequence>, ip: nat, out: seq<byte>, s: Sequence, ip': nat, out': seq<byte>)
    requires Parsed(src, ss, ip, out) && Extends(out, s, out')
    requires Holds(src, ip, EncodeSequence(s)) && ip' == ip + |EncodeSequence(s)|
    ensures Parsed(src, ss + [s], ip', out')
  {
    hide EncodeSequence, Output, CopyMatch;
    assert (ss + [s])[..|ss|] == ss;
    assert src[..ip'] == src[..ip] + src[ip..ip'];
    if Legal(ss + [s]) {
      LegalLast(ss, s);
    }
  }

  lemma LegalLast(ss: seq<Sequence>, s: Sequence)
    requires Legal(ss + [s])
    ensures Legal(ss) && MINMATCH <= s.matchLength && 1 <= s.offset <= Produced(ss) + |s.literals|
    ensures Output(ss + [s]) == CopyMatch(Output(ss) + s.literals, s.offset, s.matchLength)
  {
    assert (ss + [s])[..|ss|] == ss;
  }

  lemma HoldsOne(src: seq<byte>, ip: nat)
    requires ip < |src|
    ensures Holds(src, ip, [src[ip]])
  {
  }

  lemma HoldsTwo(src: seq<byte>, ip: nat)
    requires ip + 2 <= |src|
    ensures Holds(src, ip, [src[ip], src[ip + 1]])
  {
  }

  lemma HoldsJoin(src: seq<byte>, ip: nat, x: seq<byte>, y: seq<byte>)
    requires Holds(src, ip, x) && Holds(src, ip + |x|, y)
    ensures Holds(src, ip, x + y)
  {
    assert src[ip..ip + |x + y|] == src[ip..ip + |x|] + src[ip + |x|..ip + |x| + |y|];
  }

  lemma TokenOf(token: byte, l: nat, m: nat)
    requires token / 16 == Min15(l) && token % 16 == Min15(m)
    ensures token == Token(l, m)
  {
  }

  lemma OffsetOf(lo: byte, hi: byte)
    ensures Read16(lo, hi) <= MAX_DISTANCE && [lo, hi] == [Read16(lo, hi) % 256, Read16(lo, hi) / 256]
  {
  }

  lemma Assembled(s: Sequence)
    requires s.offset <= MAX_DISTANCE && MINMATCH <= s.matchLength
    ensures var m := s.matchLength - MINMATCH;
      EncodeSequence(s) ==
        [Token(|s.literals|, m)] + Extra(|s.literals|) + s.literals + ([s.offset % 256, s.offset / 256] + Extra(m))
  {
    hide Extra, Token;
  }

  /** The parts of a sequence make up its encoding. */
  lemma HoldsSequence(src: seq<byte>, ip: nat, lits: nat, off: nat, end: nat, s: Sequence)
    requires s.offset <= MAX_DISTANCE && MINMATCH <= s.matchLength && ip < |src|
    requires States(src, ip + 1, lits, src[ip] / 16, |s.literals|) && Holds(src, lits, s.literals)
    requires off == lits + |s.literals| && off + 2 <= |src| && Read16(src[off], src[off + 1]) == s.offset
    requires States(src, off + 2, end, src[ip] % 16, s.matchLength - MINMATCH)
    ensures Holds(src, ip, EncodeSequence(s)) && end == ip + |EncodeSequence(s)|
  {
    hide Extra, Min15, Token, Holds, EncodeSequence, Read16;
    var l, m := |s.literals|, s.matchLength - MINMATCH;
    TokenOf(src[ip], l, m);
    OffsetOf(src[off], src[off + 1]);
    HoldsOne(src, ip);
    HoldsTwo(src, off);
    HoldsJoin(src, ip, [src[ip]], Extra(l));
    HoldsJoin(src, ip, [src[ip]] + Extra(l), s.literals);
    HoldsJoin(src, off, [src[off], src[off + 1]], Extra(m));
    HoldsJoin(src, ip, [src[ip]] + Extra(l) + s.literals, [src[off], src[off + 1]] + Extra(m));
    Assembled(s);
  }

  /** The bytes from `ip` on are the last literals; the decoders ignore the low bits of the last token. */
  ghost predicate HoldsLast(src: seq<byte>, ip: nat, end: nat, last: seq<byte>) {
    ip < |src| && exists lits :: StatesLast(src, ip, lits, end, last)
  }

  ghost predicate StatesLast(src: seq<byte>, ip: nat, lits: nat, end: nat, last: seq<byte>)
    requires ip < |src|
  {
    States(src, ip + 1, lits, src[ip] / 16, |last|) && Holds(src, lits, last) && end == lits + |last|
  }

  /** The first n bytes of the input are the encoding of a block, but for the low bits of the last token. */
  ghost predicate Reads(src: seq<byte>, n: nat, b: Block) {
    && Loose(b.sequences) && n <= |src|
    && var ip := |Wire(b.sequences)|;
       ip <= n && src[..ip] == Wire(b.sequences) && HoldsLast(src, ip, n, b.last)
  }

  lemma ReadsAll(src: seq<byte>, ss: seq<Sequence>, ip: nat, lits: nat, end: nat, out: seq<byte>, last: seq<byte>)
    requires Parsed(src, ss, ip, out) && ip < |src| && end <= |src| && StatesLast(src, ip, lits, end, last)
    ensures Reads(src, end, Block(ss, last)) && |out + last| == Size(Block(ss, last))
    ensures Legal(ss) ==> out + last == Meaning(Block(ss, last))
  {
    hide Wire, Loose, Produced, Output, Legal, Extra;
  }

  // ------------------------------------------------------------- what the decoders accept

  /** Room that the decoders insist on around a sequence: at the end of the output, and at the end n of the input. */
  predicate FitsRoom(s: Sequence, ip: nat, op: nat, n: nat, oend: nat)
    requires MINMATCH <= s.matchLength
  {
    && op + |s.literals| + MFLIMIT <= oend
    && op + |s.literals| + s.matchLength + LASTLITERALS <= oend
    && ip + OffsetAt(s) + 2 + 1 + LASTLITERALS <= n
    && var m := s.matchLength - MINMATCH;
       m >= ML_MASK ==> ip + OffsetAt(s) + 2 + |Extra(m)| + LASTLITERALS - 1 <= n
  }

  predicate AllFit(ss: seq<Sequence>, n: nat, oend: nat)
    requires Loose(ss)
  {
    ss == [] ||
    (var front, s := ss[..|ss| - 1], ss[|ss| - 1];
     AllFit(front, n, oend) && FitsRoom(s, |Wire(front)|, Produced(front), n, oend))
  }

  /** The length of a block as it is read. */
  function WireSize(b: Block): nat
    requires Loose(b.sequences)
  {
    |Wire(b.sequences)| + 1 + |Extra(|b.last|)| + |b.last|
  }

  /**
   The first n bytes of the input encode the block b, which fits oend bytes of output, and every sequence keeps away
   from both ends. For no output at all the token must be zero.
   */
  ghost predicate Acceptable(b: Block, src: seq<byte>, n: nat, oend: nat) {
    && Reads(src, n, b) && Size(b) <= oend && AllFit(b.sequences, n, oend)
    && (oend == 0 ==> src[..1] == [0])
  }

  lemma ReadsSize(src: seq<byte>, n: nat, b: Block)
    requires Reads(src, n, b)
    ensures Loose(b.sequences) && 0 < n == WireSize(b) && n <= |src|
  {
    hide Extra, Wire, Loose, Min15, Holds;
  }

  lemma {:induction false} LoosePrefix(ss: seq<Sequence>, n: nat, oend: nat, k: nat)
    requires Loose(ss) && k < |ss|
    ensures Loose(ss[..k]) && Loose(ss[..k + 1]) && IsLoose(ss[k], Produced(ss[..k]))
    ensures Wire(ss[..k + 1]) == Wire(ss[..k]) + EncodeSequence(ss[k])
    ensures Wire(ss[..k + 1]) <= Wire(ss)
    ensures AllFit(ss, n, oend) ==> FitsRoom(ss[k], |Wire(ss[..k])|, Produced(ss[..k]), n, oend)
  {
    hide EncodeSequence, FitsRoom, IsLoose;
    var front := ss[..|ss| - 1];
    if k == |ss| - 1 {
      LooseLast(ss);
      assert ss[..k + 1] == ss;
    } else {
      LoosePrefix(front, n, oend, k);
      assert front[..k] == ss[..k] && front[..k + 1] == ss[..k + 1];
      PrefixTransitive(Wire(ss[..k + 1]), Wire(front), Wire(ss));
    }
  }

  lemma LooseLast(ss: seq<Sequence>)
    requires Loose(ss) && ss != []
    ensures Loose(ss[..|ss| - 1]) && IsLoose(ss[|ss| - 1], Produced(ss[..|ss| - 1]))
  {
    hide Produced;
  }

  /** The input at the start of sequence k. */
  lemma SequenceRead(src: seq<byte>, n: nat, b: Block, k: nat)
    requires Reads(src, n, b) && k < |b.sequences|
    ensures Loose(b.sequences[..k]) && IsLoose(b.sequences[k], Produced(b.sequences[..k]))
    ensures var ip := |Wire(b.sequences[..k])|;
      && Holds(src, ip, EncodeSequence(b.sequences[k])) && ip + |EncodeSequence(b.sequences[k])| < n
  {
    hide EncodeSequence, Produced, Wire, Extra, Holds;
    var ss := b.sequences;
    ReadsSize(src, n, b);
    LoosePrefix(ss, 0, 0, k);
    PrefixTransitive(Wire(ss[..k + 1]), Wire(ss), src);
    HoldsSuffix(Wire(ss[..k]), EncodeSequence(ss[k]), src);
    PrefixLength(Wire(ss[..k + 1]), Wire(ss));
  }

  lemma PrefixLength(a: seq<byte>, b: seq<byte>)
    requires a <= b
    ensures |a| <= |b|
  {
  }

  /** The literals that are read in round k. */
  lemma LiteralsRead(src: seq<byte>, n: nat, b: Block, k: nat)
    requires Reads(src, n, b) && k <= |b.sequences|
    ensures Loose(b.sequences[..k])
    ensures var ip, l := |Wire(b.sequences[..k])|, |Literals(b, k)|; var lits := ip + 1 + |Extra(l)|;
      && ip < |src| && src[ip] / 16 == Min15(l)
      && Holds(src, ip + 1, Extra(l)) && Holds(src, lits, Literals(b, k))
      && lits + l <= n && (lits + l == n <==> k == |b.sequences|)
  {
    hide EncodeSequence, Produced, Wire, Extra, Holds, Min15;
    if k < |b.sequences| {
      SequenceRead(src, n, b, k);
      var s, ip := b.sequences[k], |Wire(b.sequences[..k])|;
      EncodedParts(s);
      HeldInside(src, ip, EncodeSequence(s));
      HoldsByte(src, ip, EncodeSequence(s), 0);
      HoldsPart(src, ip, EncodeSequence(s), 1, LiteralsAt(s));
      HoldsPart(src, ip, EncodeSequence(s), LiteralsAt(s), OffsetAt(s));
    } else {
      assert b.sequences[..k] == b.sequences;
    }
  }

  /** The match that is read in round k. */
  lemma MatchRead(src: seq<byte>, n: nat, b: Block, k: nat)
    requires Reads(src, n, b) && k < |b.sequences|
    ensures Loose(b.sequences[..k]) && IsLoose(b.sequences[k], Produced(b.sequences[..k]))
    ensures var s := b.sequences[k]; var ip, m := |Wire(b.sequences[..k])|, s.matchLength - MINMATCH;
      var off := ip + OffsetAt(s);
      && ip < |src| && off + 2 <= |src| && Read16(src[off], src[off + 1]) == s.offset
      && src[ip] % 16 == Min15(m) && Holds(src, off + 2, Extra(m))
  {
    hide EncodeSequence, Produced, Wire, Extra, Holds, Min15;
    SequenceRead(src, n, b, k);
    var s, ip := b.sequences[k], |Wire(b.sequences[..k])|;
    var e := EncodeSequence(s);
    EncodedParts(s);
    HeldInside(src, ip, e);
    HoldsByte(src, ip, e, 0);
    HoldsByte(src, ip, e, OffsetAt(s));
    HoldsByte(src, ip, e, OffsetAt(s) + 1);
    HoldsPart(src, ip, e, OffsetAt(s) + 2, |e|);
  }

  // ------------------------------------------------------------- an input encodes one block only

  /** Two blocks at the start of the input end at the same place, or keep away from the end of the same output. */
  ghost predicate EndAlike(src: seq<byte>, b: Block, m: nat, c: Block, n: nat, oend: nat) {
    && Reads(src, m, b) && Reads(src, n, c)
    && (m == n
        || (AllFit(b.sequences, m, oend) && AllFit(c.sequences, n, oend) && Size(b) == Size(c) == oend))
  }

  lemma NotLast(src: seq<byte>, n: nat, b: Block, k: nat, oend: nat)
    requires Reads(src, n, b) && AllFit(b.sequences, n, oend) && Size(b) == oend && k <= |b.sequences|
    ensures k == |b.sequences| <==> Produced(b.sequences[..k]) + |Literals(b, k)| == oend
  {
    hide Wire, Loose, Produced, Extra, AllFit;
    if k < |b.sequences| {
      LoosePrefix(b.sequences, n, oend, k);
    } else {
      assert b.sequences[..k] == b.sequences;
    }
  }

  lemma SameRead(src: seq<byte>, b: Block, m: nat, c: Block, n: nat, oend: nat, k: nat)
    requires EndAlike(src, b, m, c, n, oend) && k <= |b.sequences| && k <= |c.sequences|
    requires b.sequences[..k] == c.sequences[..k]
    ensures Literals(b, k) == Literals(c, k) && (k == |b.sequences| <==> k == |c.sequences|)
    ensures k < |b.sequences| && k < |c.sequences| ==> b.sequences[k] == c.sequences[k]
  {
    hide Reads, Wire, Loose, Extra, Holds, Min15, Read16, Produced, AllFit, Literals, Size;
    LiteralsRead(src, m, b, k);
    LiteralsRead(src, n, c, k);
    var ip := |Wire(b.sequences[..k])|;
    ExtraUnique(src, ip + 1, |Literals(b, k)|, |Literals(c, k)|);
    HeldUnique(src, ip + 1 + |Extra(|Literals(b, k)|)|, Literals(b, k), Literals(c, k));
    if m != n {
      NotLast(src, m, b, k, oend);
      NotLast(src, n, c, k, oend);
    }
    if k < |b.sequences| && k < |c.sequences| {
      SameMatch(src, b, m, c, n, k);
    }
  }

  lemma SameMatch(src: seq<byte>, b: Block, m: nat, c: Block, n: nat, k: nat)
    requires Reads(src, m, b) && Reads(src, n, c) && k < |b.sequences| && k < |c.sequences|
    requires b.sequences[..k] == c.sequences[..k] && Literals(b, k) == Literals(c, k)
    ensures b.sequences[k] == c.sequences[k]
  {
    hide Reads, Wire, Loose, Extra, Holds, Min15, Read16, Produced;
    var s, t := b.sequences[k], c.sequences[k];
    MatchRead(src, m, b, k);
    MatchRead(src, n, c, k);
    ExtraUnique(src, |Wire(b.sequences[..k])| + OffsetAt(s) + 2, s.matchLength - MINMATCH, t.matchLength - MINMATCH);
  }

  lemma {:induction false} SameReadFrom(src: seq<byte>, b: Block, m: nat, c: Block, n: nat, oend: nat, k: nat)
    requires EndAlike(src, b, m, c, n, oend) && k <= |b.sequences| && k <= |c.sequences|
    requires b.sequences[..k] == c.sequences[..k]
    ensures b == c
    decreases |b.sequences| - k
  {
    hide EndAlike;
    SameRead(src, b, m, c, n, oend, k);
    if k == |b.sequences| {
      assert b.sequences == b.sequences[..k] == c.sequences;
    } else {
      assert b.sequences[..k + 1] == b.sequences[..k] + [b.sequences[k]] == c.sequences[..k + 1];
      SameReadFrom(src, b, m, c, n, oend, k + 1);
    }
  }

  /** Every input is the encoding of at most one block, so that what is said of the block is said of the input. */
  lemma ReadsUnique(src: seq<byte>, n: nat, b: Block, c: Block)
    requires Reads(src, n, b) && Reads(src, n, c)
    ensures b == c
  {
    SameReadFrom(src, b, n, c, n, 0, 0);
  }

  /** An input that can be read is the encoding of a legal block exactly when none of its offsets is zero. */
  lemma LegalUnlessZero(src: seq<byte>, n: nat, b: Block)
    requires Reads(src, n, b)
    ensures (exists c :: Reads(src, n, c) && Legal(c.sequences)) <==>
      forall k :: 0 <= k < |b.sequences| ==> b.sequences[k].offset != 0
  {
    hide Legal, Loose, Wire;
    ReadsSize(src, n, b);
    LegalIsNonzero(b.sequences);
    forall c | Reads(src, n, c) ensures c == b {
      ReadsUnique(src, n, b, c);
    }
  }

  // ------------------------------------------------------------- every well-formed block is accepted

  lemma {:induction false} WellFormedFits(b: Block, src: seq<byte>, oend: nat, k: nat)
    requires WellFormed(b) && Encode(b) <= src && Size(b) <= oend && k <= |b.sequences|
    ensures Loose(b.sequences[..k]) && AllFit(b.sequences[..k], |Encode(b)|, oend)
  {
    hide Legal, Produced, Output, EncodeSequences, EncodeSequence, CopyMatch, WellFormed, Encode, Size;
    hide Holds, Extra, Min15, Wire;
    var ss := b.sequences;
    if k > 0 {
      WellFormedFits(b, src, oend, k - 1);
      SequenceAt(b, src, k - 1);
      EncodedParts(ss[k - 1]);
      LegalIsLoose(ss[..k - 1]);
      assert ss[..k][..k - 1] == ss[..k - 1];
    }
  }

  lemma WellFormedReads(b: Block, src: seq<byte>)
    requires WellFormed(b) && Encode(b) <= src
    ensures Loose(b.sequences) && WireSize(b) == |Encode(b)| && Reads(src, |Encode(b)|, b)
  {
    hide Legal, EncodeSequences, Wire, Loose, Encode, Extra, Min15, Holds;
    LastParts(b, src);
    LegalIsLoose(b.sequences);
    EncodeFront(b);
    PrefixTransitive(Wire(b.sequences), Encode(b), src);
    var ip := |Wire(b.sequences)|;
    assert StatesLast(src, ip, ip + 1 + |Extra(|b.last|)|, |Encode(b)|, b.last);
  }

  lemma EncodeFront(b: Block)
    requires Legal(b.sequences)
    ensures EncodeSequences(b.sequences) <= Encode(b)
  {
    hide EncodeSequences;
  }

  lemma WellFormedAcceptable(b: Block, src: seq<byte>, oend: nat)
    requires WellFormed(b) && Encode(b) <= src && Size(b) <= oend
    ensures Legal(b.sequences) && Loose(b.sequences) && WireSize(b) == |Encode(b)|
    ensures Acceptable(b, src, |Encode(b)|, oend)
  {
    hide Encode, Wire, Loose, Reads, AllFit, WellFormed, Size;
    WellFormedIsLegal(b);
    WellFormedReads(b, src);
    WellFormedFits(b, src, oend, |b.sequences|);
    assert b.sequences[..|b.sequences|] == b.sequences;
    if oend == 0 {
      LegalNothing(b);
      EmptyEncoding();
    }
  }

  lemma LegalNothing(b: Block)
    requires Legal(b.sequences) && Size(b) == 0
    ensures b == Block([], [])
  {
    LegalIsLoose(b.sequences);
    NothingProduced(b);
  }

  lemma EmptyEncoding()
    ensures Legal([]) && Encode(Block([], [])) == [0] && Size(Block([], [])) == 0
  {
    hide Run255;
    assert LiteralPart([]) == [];
  }

  lemma NothingProduced(b: Block)
    requires Loose(b.sequences) && Size(b) == 0
    ensures b == Block([], [])
  {
    hide Loose;
    if b.sequences != [] {
      LooseLast(b.sequences);
    }
  }

  // ------------------------------------------------------------- following a block known in advance

  /** The input begins with the encoding of b, and the sizes that the decoders are told are right for it. */
  ghost predicate Known(b: Block, src: seq<byte>, iend: nat, oend: nat, endOnInput: bool) {
    && Loose(b.sequences) && Acceptable(b, src, WireSize(b), oend)
    && if endOnInput then iend == WireSize(b) else oend == Size(b)
  }

  ghost predicate Following(b: Block, ss: seq<Sequence>) {
    |ss| <= |b.sequences| && ss == b.sequences[..|ss|]
  }

  lemma ParsedPlace(src: seq<byte>, ss: seq<Sequence>, ip: nat, out: seq<byte>)
    requires Parsed(src, ss, ip, out)
    ensures Loose(ss) && ip == |Wire(ss)| && |out| == Produced(ss)
  {
    hide Loose, Wire, Produced;
  }

  /** The literals of the round, as far as they are known in advance. */
  lemma KnownRound(b: Block, src: seq<byte>, ss: seq<Sequence>, ip: nat, out: seq<byte>, iend: nat, oend: nat,
                   endOnInput: bool)
    requires Known(b, src, iend, oend, endOnInput) && Following(b, ss) && Parsed(src, ss, ip, out)
    ensures ip < |src|
    ensures var n := |Literals(b, |ss|)|; var lits := ip + 1 + |Extra(n)|;
      && Foretold(src, ip + 1, iend, endOnInput, src[ip] / 16, n, n)
      && lits + n <= |src| && |out| + n <= oend
      && Holds(src, lits, Literals(b, |ss|))
      && (IsLast(|out| + n, lits + n, iend, oend, endOnInput) <==> |ss| == |b.sequences|)
      && (|ss| < |b.sequences| ==> lits + n + COPYLENGTH <= |src| && |out| + n <= oend - MFLIMIT)
      && (|ss| == |b.sequences| ==> EndsRight(|out| + n, lits + n, iend, oend, endOnInput))
  {
    hide Loose, Produced, Wire, Holds, Extra, Min15, Parsed, AllFit, HoldsLast;
    var k := |ss|;
    ParsedPlace(src, ss, ip, out);
    LiteralsRead(src, WireSize(b), b, k);
    if k < |b.sequences| {
      LoosePrefix(b.sequences, WireSize(b), oend, k);
    } else {
      assert ss == b.sequences;
    }
  }

  /** The match of the round, as far as it is known in advance. */
  lemma KnownMatch(b: Block, src: seq<byte>, ss: seq<Sequence>, ip: nat, out: seq<byte>, iend: nat, oend: nat,
                   endOnInput: bool)
    requires Known(b, src, iend, oend, endOnInput) && Following(b, ss) && Parsed(src, ss, ip, out)
    requires |ss| < |b.sequences|
    ensures var s := b.sequences[|ss|]; var off := ip + OffsetAt(s);
      && IsLoose(s, |out|) && ip < |src| && off + 2 <= |src| && Read16(src[off], src[off + 1]) == s.offset
      && src[ip] % 16 == Min15(s.matchLength - MINMATCH) && Holds(src, off + 2, Extra(s.matchLength - MINMATCH))
      && FitsRoom(s, ip, |out|, WireSize(b), oend) && WireSize(b) <= |src|
  {
    hide Loose, Produced, Wire, Holds, Extra, Min15, Parsed, HoldsLast, FitsRoom, IsLoose;
    ParsedPlace(src, ss, ip, out);
    MatchRead(src, WireSize(b), b, |ss|);
    LoosePrefix(b.sequences, WireSize(b), oend, |ss|);
  }

  // ------------------------------------------------------------- decoding

  /** Between rounds the safe decoder is at the start, or keeps away from the ends of both buffers. */
  ghost predicate Inside(ip: nat, op: nat, iend: nat, oend: nat) {
    (ip == 0 && op == 0) || (ip + LASTLITERALS - 1 <= iend && op + LASTLITERALS <= oend)
  }

  lemma LongLength(n: nat)
    ensures Min15(n) == 15 <==> |Extra(n)| > 0
    ensures Min15(n) == 15 <==> n >= ML_MASK
  {
  }

  /** The part of a round after the literals: offset, match length, and the copy. */
  method DecodeMatch(src: seq<byte>, iend: nat, dest: array<byte>, oend: nat, endOnInput: bool, token: byte, ip0: nat,
                     cpy: nat, ghost ipk: nat, ghost lits: nat, ghost out: seq<byte>, ghost literals: seq<byte>,
                     ghost b: Block, ghost known: bool, ghost ss: seq<Sequence>)
      returns (ok: bool, ip: nat, op: nat, ghost s: Sequence)
    requires ipk < |src| && token == src[ipk] && ip0 == lits + |literals|
    requires States(src, ipk + 1, lits, token / 16, |literals|) && Holds(src, lits, literals)
    requires cpy == |out| + |literals| && cpy <= oend - MFLIMIT && oend <= dest.Length && dest[..cpy] == out + literals
    requires endOnInput ==> iend <= |src| && ip0 + 2 + 1 + LASTLITERALS <= iend
    requires known ==>
      && Known(b, src, iend, oend, endOnInput) && Following(b, ss) && Parsed(src, ss, ipk, out)
      && |ss| < |b.sequences| && literals == b.sequences[|ss|].literals
    requires endOnInput || known
    modifies dest
    ensures ip0 <= ip <= |src| && op <= oend
    ensures ok ==>
      && s.literals == literals && op + LASTLITERALS <= oend && Extends(out, s, dest[..op])
      && Holds(src, ipk, EncodeSequence(s)) && ip == ipk + |EncodeSequence(s)|
      && (endOnInput ==> ip + LASTLITERALS - 1 <= iend && FitsRoom(s, ipk, |out|, iend, oend))
    ensures known ==> ok && s == b.sequences[|ss|]
  {
    hide Extra, Min15, Holds, EncodeSequence, Read16, Acceptable, CopyMatch, IsLast, Parsed, Loose, Wire, Produced;
    ghost var m := 0;
    ip, op, s := ip0, cpy, Sequence(literals, 0, 0);
    if known {
      KnownMatch(b, src, ss, ipk, out, iend, oend, endOnInput);
      m := b.sequences[|ss|].matchLength - MINMATCH;
    }
    var offset := Read16(src[ip0], src[ip0 + 1]);
    OffsetOf(src[ip0], src[ip0 + 1]);
    if endOnInput && cpy < offset {
      return false, ip, op, s;
    }
    var length: nat;
    ok, length, ip := ReadMatchLength(src, ip0 + 2, iend, endOnInput, token % 16, known, m);
    if !ok {
      return;
    }
    length := length + MINMATCH;
    ok := CopyMatchFast(dest, cpy, offset, length, oend);
    if !ok {
      return;
    }
    op := cpy + length;
    s := Sequence(literals, offset, length);
    HoldsSequence(src, ipk, lits, ip0, ip, s);
    LongLength(length - MINMATCH);
  }

  datatype Progress = More | Finished | Failed

  /** The decoder before a round. */
  ghost predicate Before(src: seq<byte>, iend: nat, oend: nat, endOnInput: bool, b: Block, ss: seq<Sequence>, ip: nat,
                         out: seq<byte>)
  {
    && Parsed(src, ss, ip, out) && |out| <= oend
    && (endOnInput ==> Inside(ip, |out|, iend, oend) && AllFit(ss, iend, oend))
    && (Known(b, src, iend, oend, endOnInput) ==> Following(b, ss))
  }

  /** What every decoder may read: the safe one also the first token, and its first length byte. */
  ghost predicate Given(src: seq<byte>, iend: nat, oend: nat, endOnInput: bool, b: Block) {
    if endOnInput then iend <= |src| && |src| > 0 && (src[0] / 16 == RUN_MASK ==> |src| > 1)
    else Known(b, src, iend, oend, endOnInput)
  }

  /** The decoder after the last literals. */
  ghost predicate After(src: seq<byte>, iend: nat, oend: nat, endOnInput: bool, b: Block, r: Block, ip: nat,
                        out: seq<byte>)
  {
    && Reads(src, ip, r) && |out| == Size(r) <= oend && (endOnInput ==> ip == iend && AllFit(r.sequences, iend, oend))
    && (Legal(r.sequences) ==> out == Meaning(r))
    && (Known(b, src, iend, oend, endOnInput) ==> r == b)
  }

  lemma KnownEnds(b: Block, src: seq<byte>, ss: seq<Sequence>, ip: nat, out: seq<byte>, iend: nat, oend: nat,
                  endOnInput: bool, length: nat)
    requires Known(b, src, iend, oend, endOnInput) && Following(b, ss) && Parsed(src, ss, ip, out)
    requires length == |Literals(b, |ss|)|
    requires IsLast(|out| + length, ip + 1 + |Extra(length)| + length, iend, oend, endOnInput)
    ensures ss == b.sequences
    ensures EndsRight(|out| + length, ip + 1 + |Extra(length)| + length, iend, oend, endOnInput)
  {
    hide Known, Extra, IsLast, EndsRight, Parsed;
    KnownRound(b, src, ss, ip, out, iend, oend, endOnInput);
    assert b.sequences[..|b.sequences|] == b.sequences;
  }

  lemma FollowingNext(b: Block, ss: seq<Sequence>)
    requires Following(b, ss) && |ss| < |b.sequences|
    ensures Following(b, ss + [b.sequences[|ss|]])
  {
  }

  lemma TokenThere(src: seq<byte>, iend: nat, oend: nat, endOnInput: bool, b: Block, ss: seq<Sequence>, ip: nat,
                   out: seq<byte>)
    requires Given(src, iend, oend, endOnInput, b) && Before(src, iend, oend, endOnInput, b, ss, ip, out)
    ensures ip < |src|
    ensures if endOnInput then iend <= |src| && (src[ip] / 16 == 15 ==> ip + 1 < |src|)
            else Known(b, src, iend, oend, endOnInput)
  {
    hide Known, Parsed;
    if !endOnInput {
      KnownRound(b, src, ss, ip, out, iend, oend, endOnInput);
    }
  }

  lemma KnownLiterals(b: Block, src: seq<byte>, k: nat, p: nat, n: nat)
    requires k <= |b.sequences| && n == |Literals(b, k)| && Holds(src, p, Literals(b, k))
    ensures p + n <= |src| && src[p..p + n] == if k < |b.sequences| then b.sequences[k].literals else b.last
  {
  }

  lemma HoldsItself(src: seq<byte>, p: nat, q: nat)
    requires p <= q <= |src|
    ensures Holds(src, p, src[p..q])
  {
  }

  /** The literals of the round are those of a block known in advance. */
  ghost predicate Foreseen(b: Block, src: seq<byte>, k: nat, ip0: nat, ip: nat, length: nat) {
    && k <= |b.sequences| && length == |Literals(b, k)|
    && ip == ip0 + 1 + |Extra(length)| && Holds(src, ip, Literals(b, k))
  }

  /** The last literals end the block, or the decoder gives up. */
  method EndBlock(src: seq<byte>, iend: nat, dest: array<byte>, oend: nat, endOnInput: bool, ip: nat, length: nat,
                  op: nat, ghost ip0: nat, ghost ss: seq<Sequence>, ghost b: Block)
      returns (progress: Progress, ghost r: Block)
    requires op <= oend <= dest.Length && ip0 < |src| && (endOnInput ==> iend <= |src|)
    requires Before(src, iend, oend, endOnInput, b, ss, ip0, dest[..op])
    requires States(src, ip0 + 1, ip, src[ip0] / 16, length) || (endOnInput && ip + length > iend)
    requires IsLast(op + length, ip + length, iend, oend, endOnInput)
    requires Known(b, src, iend, oend, endOnInput) ==> Foreseen(b, src, |ss|, ip0, ip, length)
    requires endOnInput || Known(b, src, iend, oend, endOnInput)
    modifies dest
    ensures progress.Finished? || (progress.Failed? && !Known(b, src, iend, oend, endOnInput))
    ensures progress.Finished? ==>
      && op + length <= oend && ip + length <= |src|
      && After(src, iend, oend, endOnInput, b, r, ip + length, dest[..op + length])
  {
    hide Known, Parsed, Extra, Min15, Holds, Literals, Reads, Meaning, Size, IsLast, States, Legal;
    ghost var out := dest[..op];
    progress, r := Failed, Block(ss, []);
    if Known(b, src, iend, oend, endOnInput) {
      KnownEnds(b, src, ss, ip0, out, iend, oend, endOnInput, length);
      KnownLiterals(b, src, |ss|, ip, length);
    }
    if !EndsRight(op + length, ip + length, iend, oend, endOnInput) {
      return;
    }
    ghost var last := src[ip..ip + length];
    HoldsItself(src, ip, ip + length);
    CopyBlock(dest, op, src, ip, length, last);
    ReadsAll(src, ss, ip0, ip, ip + length, out, last);
    progress, r := Finished, Block(ss, last);
  }

  lemma FitNext(src: seq<byte>, ss: seq<Sequence>, ip: nat, out: seq<byte>, s: Sequence, out': seq<byte>, n: nat,
                oend: nat)
    requires Parsed(src, ss, ip, out) && AllFit(ss, n, oend) && Extends(out, s, out')
    requires FitsRoom(s, ip, |out|, n, oend)
    ensures Loose(ss + [s]) && AllFit(ss + [s], n, oend)
  {
    hide FitsRoom;
    assert (ss + [s])[..|ss|] == ss;
  }

  /** The literals are followed by a match, or the decoder gives up. */
  method NextSequence(src: seq<byte>, iend: nat, dest: array<byte>, oend: nat, endOnInput: bool, token: byte, ip0: nat,
                      length: nat, op0: nat, ghost ipk: nat, ghost ss: seq<Sequence>, ghost b: Block)
      returns (ok: bool, ip: nat, op: nat, ghost s: Sequence)
    requires op0 <= oend <= dest.Length && ipk < |src| && token == src[ipk] && (endOnInput ==> iend <= |src|)
    requires Before(src, iend, oend, endOnInput, b, ss, ipk, dest[..op0])
    requires States(src, ipk + 1, ip0, token / 16, length) || (endOnInput && ip0 + length > iend)
    requires !IsLast(op0 + length, ip0 + length, iend, oend, endOnInput)
    requires Known(b, src, iend, oend, endOnInput) ==> Foreseen(b, src, |ss|, ipk, ip0, length)
    requires endOnInput || Known(b, src, iend, oend, endOnInput)
    modifies dest
    ensures ip0 <= ip <= |src| && op <= oend
    ensures ok ==> Before(src, iend, oend, endOnInput, b, ss + [s], ip, dest[..op])
    ensures Known(b, src, iend, oend, endOnInput) ==> ok
  {
    hide Known, Parsed, Extra, Min15, Holds, Extends, Literals, States, EncodeSequence, Produced;
    hide Loose, Wire, AllFit, FitsRoom;
    ghost var out, known := dest[..op0], Known(b, src, iend, oend, endOnInput);
    if known {
      KnownRound(b, src, ss, ipk, out, iend, oend, endOnInput);
      KnownLiterals(b, src, |ss|, ip0, length);
    }
    var cpy := op0 + length;
    ghost var literals := src[ip0..ip0 + length];
    HoldsItself(src, ip0, ip0 + length);
    CopyLiterals(dest, op0, src, ip0, cpy, literals);
    ok, ip, op, s := DecodeMatch(src, iend, dest, oend, endOnInput, token, ip0 + length, cpy, ipk, ip0, out, literals,
                                 b, known, ss);
    if ok {
      ParsedNext(src, ss, ipk, out, s, ip, dest[..op]);
      if endOnInput {
        FitNext(src, ss, ipk, out, s, dest[..op], iend, oend);
      }
    }
    if known {
      FollowingNext(b, ss);
    }
  }

  /** One round of the main loop. */
  method DecodeRound(src: seq<byte>, iend: nat, dest: array<byte>, oend: nat, endOnInput: bool, ip0: nat, op0: nat,
                     ghost ss: seq<Sequence>, ghost b: Block)
      returns (progress: Progress, ip: nat, op: nat, ghost r: Block)
    requires Given(src, iend, oend, endOnInput, b) && oend <= dest.Length
    requires op0 <= dest.Length && Before(src, iend, oend, endOnInput, b, ss, ip0, dest[..op0])
    modifies dest
    ensures op <= dest.Length && ip <= |src|
    ensures progress.More? ==> |ss| + 1 == |r.sequences| && r.sequences[..|ss|] == ss && ip > ip0
    ensures progress.More? ==> Before(src, iend, oend, endOnInput, b, r.sequences, ip, dest[..op])
    ensures progress.Finished? ==> After(src, iend, oend, endOnInput, b, r, ip, dest[..op])
    ensures Known(b, src, iend, oend, endOnInput) ==> !progress.Failed?
  {
    hide Known, Parsed, Extra, Min15, Holds, Literals, EncodeSequence, Encode, Size, Produced, IsLast;
    hide Foretold, Given, States, Inside, After, EndsRight;
    ghost var out, known := dest[..op0], Known(b, src, iend, oend, endOnInput);
    ghost var n := 0;
    TokenThere(src, iend, oend, endOnInput, b, ss, ip0, out);
    if known {
      KnownRound(b, src, ss, ip0, out, iend, oend, endOnInput);
      n := |Literals(b, |ss|)|;
    }
    var token := src[ip0];
    var length: nat;
    length, ip := ReadLiteralLength(src, ip0 + 1, iend, endOnInput, token / 16, known, n);
    op, r := op0, Block(ss, []);
    if IsLast(op0 + length, ip + length, iend, oend, endOnInput) {
      progress, r := EndBlock(src, iend, dest, oend, endOnInput, ip, length, op0, ip0, ss, b);
      if progress.Finished? {
        ip, op := ip + length, op0 + length;
      }
      return;
    }
    var ok;
    ghost var s;
    ok, ip, op, s := NextSequence(src, iend, dest, oend, endOnInput, token, ip, length, op0, ip0, ss, b);
    progress, r := if ok then More else Failed, Block(ss + [s], []);
  }

  lemma BeforeAll(src: seq<byte>, iend: nat, oend: nat, endOnInput: bool, b: Block)
    ensures Before(src, iend, oend, endOnInput, b, [], 0, [])
  {
    hide Known;
    ParsedNothing(src);
  }

  /** Nothing to produce: the block is the single byte 0. */
  lemma KnownEmpty(b: Block, src: seq<byte>, iend: nat, endOnInput: bool)
    requires Known(b, src, iend, 0, endOnInput)
    ensures b == Block([], []) && |src| > 0 && src[0] == 0 && (endOnInput ==> iend == 1) && WireSize(b) == 1
  {
    hide Loose, Size, Reads, AllFit;
    ReadsSize(src, WireSize(b), b);
    NothingProduced(b);
    EmptySize();
    assert src[..1][0] == 0;
  }

  lemma EmptySize()
    ensures Loose([]) && WireSize(Block([], [])) == 1
  {
    assert Wire([]) == [];
  }

  /** The single byte 0 is the encoding of nothing. */
  lemma ZeroIsEmpty(src: seq<byte>)
    requires |src| > 0 && src[0] == 0
    ensures Reads(src, 1, Block([], [])) && Size(Block([], [])) == 0 && Meaning(Block([], [])) == []
  {
    assert StatesLast(src, 0, 1, 1, []);
    assert Wire([]) == [];
  }

  /**
   LZ4_decompress_generic. The result is the number of input bytes used when the output size is given, and the number
   of output bytes when the input size is; a negative result is an error exit.
   */
  method DecompressGeneric(src: seq<byte>, dest: array<byte>, inputSize: nat, outputSize: nat, endOnInput: bool,
                           ghost b: Block)
      returns (result: int, ghost r: Block)
    requires Given(src, inputSize, outputSize, endOnInput, b) && outputSize <= dest.Length
    modifies dest
    ensures result >= 0 && endOnInput ==>
      && Acceptable(r, src, inputSize, outputSize) && result == Size(r) <= outputSize
      && (Legal(r.sequences) ==> dest[..result] == Meaning(r))
    ensures Known(b, src, inputSize, outputSize, endOnInput) ==>
      && r == b && result == (if endOnInput then Size(b) else WireSize(b)) && Size(b) <= outputSize
      && (Legal(b.sequences) ==> dest[..Size(b)] == Meaning(b))
  {
    hide Known, Parsed, Following, Given, Reads, Meaning, Size, Legal, Inside, AllFit;
    r := Block([], []);
    if outputSize == 0 {
      result := DecompressNothing(src, inputSize, endOnInput, b);
      return;
    }
    var progress, ip: nat, op: nat := More, 0, 0;
    BeforeAll(src, inputSize, outputSize, endOnInput, b);
    while progress.More?
      invariant op <= dest.Length && ip <= |src|
      invariant progress.More? ==> Before(src, inputSize, outputSize, endOnInput, b, r.sequences, ip, dest[..op])
      invariant progress.Finished? ==> After(src, inputSize, outputSize, endOnInput, b, r, ip, dest[..op])
      invariant Known(b, src, inputSize, outputSize, endOnInput) ==> !progress.Failed?
      decreases progress.More?, |src| - ip
    {
      progress, ip, op, r := DecodeRound(src, inputSize, dest, outputSize, endOnInput, ip, op, r.sequences, b);
    }
    if progress.Failed? {
      return -(ip as int) - 1, r;
    }
    ReadsSize(src, ip, r);
    return if endOnInput then op else ip, r;
  }

  /** The special cases for an empty output. */
  method DecompressNothing(src: seq<byte>, inputSize: nat, endOnInput: bool, ghost b: Block) returns (result: int)
    requires Given(src, inputSize, 0, endOnInput, b)
    ensures Size(Block([], [])) == 0 && Meaning(Block([], [])) == []
    ensures result >= 0 && endOnInput ==> result == 0 && Acceptable(Block([], []), src, inputSize, 0)
    ensures Known(b, src, inputSize, 0, endOnInput) ==>
      b == Block([], []) && WireSize(b) == 1 && result == if endOnInput then 0 else 1
  {
    hide Reads, Known;
    if Known(b, src, inputSize, 0, endOnInput) {
      KnownEmpty(b, src, inputSize, endOnInput);
    }
    if endOnInput {
      if inputSize == 1 && src[0] == 0 {
        ZeroIsEmpty(src);
        return 0;
      }
      return -1;
    }
    return if src[0] == 0 then 1 else -1;
  }

  /** LZ4_decompress_fast: told the size of the original. */
  method DecompressFast(src: seq<byte>, dest: array<byte>, originalSize: nat, ghost b: Block) returns (result: int)
    requires Known(b, src, 0, originalSize, false) && originalSize <= dest.Length
    modifies dest
    ensures result == WireSize(b) && (Legal(b.sequences) ==> dest[..originalSize] == Meaning(b))
  {
    hide Meaning, Legal, Acceptable, Size;
    ghost var r;
    result, r := DecompressGeneric(src, dest, 0, originalSize, false, b);
  }

  /**
   LZ4_decompress_safe: told the size of the block and the capacity of the output. It accepts exactly the inputs that
   encode a block which keeps away from both ends, and produces the meaning of that block, unless some offset is zero.
   */
  method DecompressSafe(src: seq<byte>, dest: array<byte>, compressedSize: nat, maxDecompressedSize: nat)
      returns (result: int, ghost r: Block)
    requires compressedSize <= |src| && |src| > 0 && (src[0] / 16 == RUN_MASK ==> |src| > 1)
    requires maxDecompressedSize <= dest.Length
    modifies dest
    ensures result >= 0 <==> exists b :: Acceptable(b, src, compressedSize, maxDecompressedSize)
    ensures result >= 0 ==>
      && Acceptable(r, src, compressedSize, maxDecompressedSize) && result == Size(r) <= maxDecompressedSize
      && (Legal(r.sequences) ==> dest[..result] == Meaning(r))
  {
    hide Acceptable, Meaning, Size, Legal;
    ghost var b := Block([], []);
    if c: Block :| Acceptable(c, src, compressedSize, maxDecompressedSize) {
      b := c;
      AcceptableKnown(b, src, compressedSize, maxDecompressedSize);
    }
    result, r := DecompressGeneric(src, dest, compressedSize, maxDecompressedSize, true, b);
  }

  lemma AcceptableKnown(b: Block, src: seq<byte>, n: nat, oend: nat)
    requires Acceptable(b, src, n, oend)
    ensures Known(b, src, n, oend, true)
  {
    hide Reads, AllFit, Loose;
    ReadsSize(src, n, b);
  }

  /** Twelve bytes with a match of offset zero. */
  const ZERO_OFFSET: seq<byte> := [0x00, 0, 0, 0x80, 1, 2, 3, 4, 5, 6, 7, 8]

  /** The safe decoder accepts them, although no legal block has that encoding. */
  method AcceptsZeroOffset() returns (result: int)
    ensures result == 12
    ensures !exists b :: Reads(ZERO_OFFSET, 12, b) && Legal(b.sequences)
  {
    hide Reads;
    var dest := new byte[12];
    ghost var r;
    ghost var b := Block([Sequence([], 0, 4)], ZERO_OFFSET[4..]);
    ZeroOffsetBlock();
    result, r := DecompressSafe(ZERO_OFFSET, dest, 12, 12);
    ReadsUnique(ZERO_OFFSET, 12, b, r);
    LegalUnlessZero(ZERO_OFFSET, 12, b);
    assert b.sequences[0].offset == 0;
  }

  lemma ZeroOffsetBlock()
    ensures var b := Block([Sequence([], 0, 4)], ZERO_OFFSET[4..]);
      Acceptable(b, ZERO_OFFSET, 12, 12) && Size(b) == 12 && !Legal(b.sequences)
  {
    hide Run255;
    var s := Sequence([], 0, 4);
    assert [s][..0] == [];
    assert Wire([]) == [] && Produced([]) == 0;
    assert Wire([s]) == EncodeSequence(s) == [0, 0, 0] == ZERO_OFFSET[..3];
    assert StatesLast(ZERO_OFFSET, 3, 4, 12, ZERO_OFFSET[4..]);
  }
}
