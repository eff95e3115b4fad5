/**
 The greedy LZ4 compressor (LZ4_compress_generic without dictionary or output
 limit): a lossy hash table of positions, skip acceleration, backward catch-up,
 8-byte copies that overshoot, and matches encoded back to back.
 */
module Lz4Compress {
  import opened Bytes
  import opened Lz4Format
  import opened Lz4Copy
  import opened Lz4Count
  import opened Lz4Greedy
  import opened Lz4Repeats

  /** Every remembered position lies before `limit`. */
  ghost predicate Before(table: array<nat>, limit: nat)
    reads table
  {
    forall h :: 0 <= h < table.Length ==> table[h] < limit
  }

  method PutPositionOnHash(table: array<nat>, h: nat, p: nat, tt: TableType)
    requires h < table.Length && Before(table, p + 1)
    requires p < EntryLimit(tt)
    modifies table
    ensures table[..] == old(table[..])[h := p % EntryLimit(tt)]
    ensures table[h] == p && Before(table, p + 1)
  {
    table[h] := p % EntryLimit(tt);
  }

  /** LZ4_putPosition. */
  method PutPosition(s: seq<byte>, table: array<nat>, p: nat, tt: TableType)
    requires table.Length == TableSize(tt) && p + 4 <= |s| && Before(table, p + 1) && p < EntryLimit(tt)
    modifies table
    ensures table[..] == Remember(s, tt, old(table[..]), p) && Before(table, p + 1)
  {
    hide HashPosition;
    PutPositionOnHash(table, HashPosition(s, p, tt), p, tt);
  }

  /**
   The search loop: try ever more distant positions until four bytes agree with
   the remembered position of their hash.  Gives up when the next position to
   try would pass mflimit.
   */
  method FindMatch(s: seq<byte>, table: array<nat>, tt: TableType, start: nat, startH: nat, mflimit: nat)
      returns (found: bool, ip: nat, ref: nat)
    requires mflimit + MFLIMIT == |s|
    requires |s| <= MAX_INPUT_SIZE && (tt.ByU16? ==> |s| < LIMIT_64K)
    requires 1 <= start <= mflimit + 1 && startH == HashPosition(s, start, tt)
    requires table.Length == TableSize(tt) && Before(table, start)
    modifies table
    ensures found ==>
      && Before(table, ip + 1)
      && start <= ip < mflimit
      && ref < ip <= ref + MAX_DISTANCE
      && Agree(s, ip, ref, MINMATCH)
    ensures var r := FirstMatch(s, tt, old(table[..]), start, 1, SKIP_TRIGGER);
      && found == r.Match? && table[..] == r.table && (found ==> ip == r.at && ref == r.ref)
  {
    hide Agree, HashPosition;
    var forwardIp, forwardH := start, startH;
    var step, searchMatchNb := 1, SKIP_TRIGGER;
    ghost var first := FirstMatch(s, tt, table[..], start, 1, SKIP_TRIGGER);
    while true
      invariant start <= forwardIp && (forwardIp <= mflimit || forwardIp == start)
      invariant forwardH == HashPosition(s, forwardIp, tt)
      invariant 1 <= step && SKIP_TRIGGER <= searchMatchNb
      invariant FirstMatch(s, tt, table[..], forwardIp, step, searchMatchNb) == first
      invariant Before(table, forwardIp)
      decreases mflimit + 1 - forwardIp
    {
      var h := forwardH;
      ip := forwardIp;
      forwardIp := forwardIp + step;
      step := searchMatchNb / SKIP_TRIGGER;
      searchMatchNb := searchMatchNb + 1;
      if forwardIp > mflimit {
        return false, ip, 0;
      }
      ref := table[h];
      forwardH := HashPosition(s, forwardIp, tt);
      PutPositionOnHash(table, h, ip, tt);
      if (tt.ByU16? || ip <= ref + MAX_DISTANCE) && Agree(s, ip, ref, MINMATCH) {
        return true, ip, ref;
      }
    }
  }

  /** Extend a match backwards while the preceding bytes agree. */
  method CatchUp(s: seq<byte>, ip0: nat, ref0: nat, anchor: nat, len: nat) returns (ip: nat, ref: nat)
    requires anchor <= ip0 && ref0 < ip0 && ip0 + len <= |s|
    requires Agree(s, ip0, ref0, len)
    ensures anchor <= ip <= ip0 && ref <= ref0 && ip0 - ip == ref0 - ref
    ensures Agree(s, ip, ref, len + (ip0 - ip))
    ensures ip0 - ip == Back(s, ip0, ref0, anchor)
  {
    hide Agree;
    ip, ref := ip0, ref0;
    while ip > anchor && ref > 0 && s[ip - 1] == s[ref - 1]
      invariant anchor <= ip <= ip0 && ref <= ref0 && ip0 - ip == ref0 - ref
      invariant Agree(s, ip, ref, len + (ip0 - ip))
      invariant Back(s, ip0, ref0, anchor) == ip0 - ip + Back(s, ip, ref, anchor)
    {
      AgreeBack(s, ip, ref, len + (ip0 - ip));
      ip, ref := ip - 1, ref - 1;
    }
  }

  lemma AgreeBack(s: seq<byte>, p: nat, q: nat, n: nat)
    requires 0 < q < p && p + n <= |s|
    requires Agree(s, p, q, n) && s[p - 1] == s[q - 1]
    ensures Agree(s, p - 1, q - 1, n + 1)
  {
    assert s[p - 1..p + n] == [s[p - 1]] + s[p..p + n];
    assert s[q - 1..q + n] == [s[q - 1]] + s[q..q + n];
  }

  // ---------------------------------------------------------------- emission

  method PutByte(dest: array<byte>, op: nat, v: byte)
    requires op < dest.Length
    modifies dest
    ensures dest[..op + 1] == old(dest[..op]) + [v]
  {
    dest[op] := v;
  }

  lemma RunStep(done: seq<byte>, len: nat)
    requires len >= 255
    ensures done + [255] + Run255(len - 255) == done + Run255(len)
    ensures |Run255(len)| == |Run255(len - 255)| + 1
  {
    assert Run255(len) == [255] + Run255(len - 255);
  }

  lemma RunEnds(len: nat)
    requires len < 255
    ensures Run255(len) == [len]
  {
  }

  /** The literal run loop: a byte 255 for every full 255, then the rest. */
  method EmitRun(dest: array<byte>, op0: nat, n: nat) returns (op: nat)
    requires op0 + |Run255(n)| <= dest.Length
    modifies dest
    ensures op == op0 + |Run255(n)|
    ensures dest[..op] == old(dest[..op0]) + Run255(n)
  {
    hide Run255;
    op := op0;
    var len := n;
    while len >= 255
      invariant 0 <= len && op + |Run255(len)| == op0 + |Run255(n)|
      invariant dest[..op] + Run255(len) == old(dest[..op0]) + Run255(n)
    {
      RunStep(dest[..op], len);
      PutByte(dest, op, 255);
      op, len := op + 1, len - 255;
    }
    RunEnds(len);
    PutByte(dest, op, len);
    op := op + 1;
  }

  /** The match-length loop writes two full bytes at a time, then one, then the rest. */
  method EmitMatchRun(dest: array<byte>, op0: nat, n: nat) returns (op: nat)
    requires op0 + |Run255(n)| <= dest.Length
    modifies dest
    ensures op == op0 + |Run255(n)|
    ensures dest[..op] == old(dest[..op0]) + Run255(n)
  {
    hide Run255;
    op := op0;
    var len := n;
    while len >= 510
      invariant 0 <= len && op + |Run255(len)| == op0 + |Run255(n)|
      invariant dest[..op] + Run255(len) == old(dest[..op0]) + Run255(n)
    {
      RunStep(dest[..op], len);
      PutByte(dest, op, 255);
      RunStep(dest[..op + 1], len - 255);
      PutByte(dest, op + 1, 255);
      op, len := op + 2, len - 510;
    }
    if len >= 255 {
      RunStep(dest[..op], len);
      PutByte(dest, op, 255);
      op, len := op + 1, len - 255;
    }
    RunEnds(len);
    PutByte(dest, op, len);
    op := op + 1;
  }

  /** Token with a literal length in its high bits, then the rest of that length. */
  method EmitLiteralLength(dest: array<byte>, op0: nat, litLength: nat) returns (op: nat)
    requires op0 + 1 + |Extra(litLength)| <= dest.Length
    modifies dest
    ensures op == op0 + 1 + |Extra(litLength)|
    ensures dest[..op] == old(dest[..op0]) + [Token(litLength, 0)] + Extra(litLength)
  {
    ghost var before := dest[..op0];
    op := op0 + 1;
    if litLength >= RUN_MASK {
      dest[op0] := RUN_MASK * 16;
      assert dest[..op] == before + [Token(litLength, 0)];
      op := EmitRun(dest, op, litLength - RUN_MASK);
    } else {
      dest[op0] := litLength * 16;
      assert dest[..op] == before + [Token(litLength, 0)];
    }
  }

  lemma LiteralsJoin(before: seq<byte>, token: byte, literals: seq<byte>)
    ensures before + [token] + Extra(|literals|) + literals == before + ([token] + LiteralPart(literals))
  {
    hide Extra;
    assert before + [token] + Extra(|literals|) + literals == before + ([token] + (Extra(|literals|) + literals));
  }

  method EmitLiterals(dest: array<byte>, op0: nat, s: seq<byte>, anchor: nat, litLength: nat) returns (op: nat)
    requires anchor + litLength + 8 <= |s|
    requires op0 + 1 + |Extra(litLength)| + litLength + 8 <= dest.Length
    modifies dest
    ensures op == op0 + 1 + |Extra(litLength)| + litLength
    ensures dest[..op] == old(dest[..op0]) + ([Token(litLength, 0)] + LiteralPart(s[anchor..anchor + litLength]))
  {
    hide Extra, Token;
    ghost var before, t := dest[..op0], Token(litLength, 0);
    op := EmitLiteralLength(dest, op0, litLength);
    WildCopy(dest, op, s, anchor, op + litLength);
    op := op + litLength;
    LiteralsJoin(before, t, s[anchor..anchor + litLength]);
  }

  /** The low bits go into the token that was written before; the rest follows the offset. */
  method EmitMatchLength(dest: array<byte>, op0: nat, token: nat, matchLength: nat) returns (op: nat)
    requires token < op0 && op0 + |Extra(matchLength)| <= dest.Length
    requires dest[token] % 16 == 0
    modifies dest
    ensures op == op0 + |Extra(matchLength)|
    ensures dest[..op] == old(dest[..op0])[token := old(dest[token]) + Min15(matchLength)] + Extra(matchLength)
  {
    ghost var before := dest[..op0];
    ghost var tok: byte := dest[token] + Min15(matchLength);
    op := op0;
    if matchLength >= ML_MASK {
      dest[token] := dest[token] + ML_MASK;
      assert dest[..op0] == before[token := tok];
      op := EmitMatchRun(dest, op, matchLength - ML_MASK);
    } else {
      dest[token] := dest[token] + matchLength;
      assert dest[..op0] == before[token := tok];
    }
  }

  /** LZ4_WRITE_LITTLEENDIAN_16. */
  method EmitOffset(dest: array<byte>, op0: nat, offset: nat) returns (op: nat)
    requires op0 + 2 <= dest.Length && offset <= MAX_DISTANCE
    modifies dest
    ensures op == op0 + 2
    ensures dest[..op] == old(dest[..op0]) + [offset % 256, offset / 256]
  {
    dest[op0], dest[op0 + 1] := offset % 256, offset / 256;
    op := op0 + 2;
  }

  /** The final literals are copied exactly. */
  method EmitLast(dest: array<byte>, op0: nat, s: seq<byte>, anchor: nat) returns (op: nat)
    requires anchor <= |s|
    requires op0 + |EncodeLast(s[anchor..])| <= dest.Length
    modifies dest
    ensures op == op0 + |EncodeLast(s[anchor..])|
    ensures dest[..op] == old(dest[..op0]) + EncodeLast(s[anchor..])
  {
    hide Extra, Token;
    var lastRun := |s| - anchor;
    ghost var before, t := dest[..op0], Token(lastRun, 0);
    op := EmitLiteralLength(dest, op0, lastRun);
    CopyExact(dest, op, s, anchor);
    op := op + lastRun;
    LiteralsJoin(before, t, s[anchor..]);
  }

  // ------------------------------------------------------- what is kept

  /**
   After the sequences ss, whose bytes are `out`, exactly the input before
   `anchor` is represented, and a block that ends after them can still be well formed.
   */
  ghost predicate Emitted(s: seq<byte>, ss: seq<Sequence>, anchor: nat, out: seq<byte>) {
    && anchor <= |s|
    && Legal(ss)
    && Produced(ss) == anchor
    && Output(ss) == s[..anchor]
    && out == EncodeSequences(ss)
    && (ss != [] ==> anchor <= |s| - LASTLITERALS && anchor - ss[|ss| - 1].matchLength <= |s| - MFLIMIT)
  }

  /** No match could have been longer: it ends at the last five bytes or before a byte that differs. */
  ghost predicate Maximal(s: seq<byte>, ss: seq<Sequence>) {
    ss == [] ||
    (var end := Produced(ss);
     && Maximal(s, ss[..|ss| - 1])
     && ss[|ss| - 1].offset <= end
     && end <= |s| - LASTLITERALS
     && (end < |s| - LASTLITERALS ==> s[end] != s[end - ss[|ss| - 1].offset]))
  }

  lemma SplitAgree(s: seq<byte>, p: nat, q: nat, n: nat, more: nat)
    requires q < p && p + n + more <= |s| && Agree(s, p, q, n + more)
    ensures Agree(s, p, q, n) && Agree(s, p + n, q + n, more)
  {
    var x, y := s[p..p + n + more], s[q..q + n + more];
    assert x[..n] == s[p..p + n];
    assert y[..n] == s[q..q + n];
    assert x[n..] == s[p + n..p + n + more];
    assert y[n..] == s[q + n..q + n + more];
  }

  lemma LongestAtLeast(s: seq<byte>, p: nat, q: nat, limit: nat, n: nat, m: nat)
    requires q < p && p + m <= limit <= |s|
    requires LongestMatch(s, p, q, limit, n) && Agree(s, p, q, m)
    ensures m <= n
  {
  }

  lemma EmittedNext(s: seq<byte>, ss: seq<Sequence>, anchor: nat, out: seq<byte>, ip: nat, next: Sequence)
    requires Emitted(s, ss, anchor, out) && anchor <= ip <= |s| - MFLIMIT && next.literals == s[anchor..ip]
    requires 1 <= next.offset <= MAX_DISTANCE && next.offset <= ip && MINMATCH <= next.matchLength
    requires ip + next.matchLength <= |s| - LASTLITERALS
    requires CopyMatch(s[..ip], next.offset, next.matchLength) == s[..ip + next.matchLength]
    ensures Emitted(s, ss + [next], ip + next.matchLength, out + EncodeSequence(next))
    ensures Produced(ss + [next]) == ip + next.matchLength
  {
    hide Output, EncodeSequences, EncodeSequence, CopyMatch;
    assert s[..anchor] + next.literals == s[..ip];
    LegalAppend(ss, next);
  }

  lemma NextSequence(s: seq<byte>, ss: seq<Sequence>, anchor: nat, out: seq<byte>, ip: nat, ref: nat, matchLength: nat)
      returns (next: Sequence)
    requires Emitted(s, ss, anchor, out) && Maximal(s, ss)
    requires anchor <= ip <= |s| - MFLIMIT && ref < ip <= ref + MAX_DISTANCE
    requires Agree(s, ip, ref, MINMATCH)
    requires LongestMatch(s, ip + MINMATCH, ref + MINMATCH, |s| - LASTLITERALS, matchLength)
    ensures next == Sequence(s[anchor..ip], ip - ref, MINMATCH + matchLength)
    ensures Emitted(s, ss + [next], ip + MINMATCH + matchLength, out + EncodeSequence(next))
    ensures Maximal(s, ss + [next])
  {
    hide Output, EncodeSequences, EncodeSequence, CopyMatch, Agree, Maximal, Legal;
    next := Sequence(s[anchor..ip], ip - ref, MINMATCH + matchLength);
    AgreeMore(s, ip, ref, MINMATCH, matchLength);
    MatchExtends(s, ip, ref, next.matchLength);
    EmittedNext(s, ss, anchor, out, ip, next);
    MaximalAppend(s, ss, next);
  }

  lemma MaximalAppend(s: seq<byte>, ss: seq<Sequence>, next: Sequence)
    requires Maximal(s, ss)
    requires var end := Produced(ss + [next]);
      next.offset <= end <= |s| - LASTLITERALS && (end < |s| - LASTLITERALS ==> s[end] != s[end - next.offset])
    ensures Maximal(s, ss + [next])
  {
    assert (ss + [next])[..|ss|] == ss;
  }

  /** Bytes that repeat themselves are what the overlapping copy produces. */
  lemma MatchExtends(s: seq<byte>, p: nat, q: nat, n: nat)
    requires q < p && p + n <= |s| && Agree(s, p, q, n)
    ensures CopyMatch(s[..p], p - q, n) == s[..p + n]
  {
    var r := s[..p + n];
    forall i | p <= i < p + n ensures r[i] == r[i - (p - q)] {
      assert s[p..p + n][i - p] == s[q..q + n][i - p];
    }
    PeriodicIsCopy(s[..p], p - q, n, r);
  }

  /** The bytes of ss, then a token and the literals that follow it. */
  ghost predicate LiteralsEmitted(s: seq<byte>, ss: seq<Sequence>, anchor: nat, ip: nat, out: seq<byte>)
    requires Legal(ss) && anchor <= ip <= |s|
  {
    out == EncodeSequences(ss) + ([Token(ip - anchor, 0)] + LiteralPart(s[anchor..ip]))
  }

  /** Room for a literal run, its overshoot and an offset, anywhere before the last twelve bytes. */
  lemma RoomForLiterals(s: seq<byte>, ss: seq<Sequence>, anchor: nat, out: seq<byte>, litLength: nat)
    requires Emitted(s, ss, anchor, out) && anchor + litLength + MFLIMIT <= |s|
    ensures |out| + 1 + |Extra(litLength)| + litLength + 8 <= CompressBound(|s|)
  {
    hide Legal, Produced, Output, EncodeSequences;
    SequencesCost(ss);
    assert 255 * |out| <= 256 * anchor;
    assert 255 * |Extra(litLength)| <= litLength + 240;
  }

  lemma RoomForSequences(s: seq<byte>, ss: seq<Sequence>, anchor: nat, out: seq<byte>)
    requires Emitted(s, ss, anchor, out)
    ensures |out| <= CompressBound(|s|)
    ensures |out + EncodeLast(s[anchor..])| <= CompressBound(|s|)
  {
    hide Legal, Produced, Output, EncodeSequences;
    var b := Block(ss, s[anchor..]);
    assert Size(b) == |s|;
    EncodingWithinBound(b);
  }

  lemma CompleteSequence(s: seq<byte>, ss: seq<Sequence>, anchor: nat, ip: nat, ref: nat, matchLength: nat,
                         literals: seq<byte>, done: seq<byte>)
    requires Legal(ss) && anchor <= ip <= |s| && ref < ip <= ref + MAX_DISTANCE
    requires LiteralsEmitted(s, ss, anchor, ip, literals)
    requires done == (literals + [(ip - ref) % 256, (ip - ref) / 256])
                       [|EncodeSequences(ss)| := Token(ip - anchor, matchLength)]
                     + Extra(matchLength)
    ensures done == EncodeSequences(ss) + EncodeSequence(Sequence(s[anchor..ip], ip - ref, MINMATCH + matchLength))
  {
    hide Legal, EncodeSequences, Extra, Token;
    var front, lits, off := EncodeSequences(ss), LiteralPart(s[anchor..ip]), [(ip - ref) % 256, (ip - ref) / 256];
    var t: byte := Token(ip - anchor, matchLength);
    assert (front + ([Token(ip - anchor, 0)] + lits) + off)[|front| := t] == front + ([t] + lits) + off;
    assert done == front + ([t] + lits + (off + Extra(matchLength)));
  }

  lemma TokenInPlace(s: seq<byte>, ss: seq<Sequence>, anchor: nat, ip: nat, matchLength: nat, out: seq<byte>,
                     more: seq<byte>)
    requires Legal(ss) && anchor <= ip <= |s|
    requires LiteralsEmitted(s, ss, anchor, ip, out)
    ensures |out| == |EncodeSequences(ss)| + 1 + |Extra(ip - anchor)| + (ip - anchor)
    ensures var t := (out + more)[|EncodeSequences(ss)|];
      t == Token(ip - anchor, 0) && t % 16 == 0 && Token(ip - anchor, matchLength) == t + Min15(matchLength)
  {
  }

  // ----------------------------------------------------------- the compressor

  /** From _next_match on: offset, match length, and the final form of the token. */
  method EncodeMatch(s: seq<byte>, dest: array<byte>, op0: nat, token: nat, ip0: nat, ref: nat,
                     ghost ss: seq<Sequence>, ghost anchor: nat, ghost reach: nat)
      returns (op: nat, ip: nat, ghost next: Sequence)
    requires Legal(ss) && Emitted(s, ss, anchor, EncodeSequences(ss)) && Maximal(s, ss)
    requires anchor <= ip0 <= |s| - MFLIMIT && ref < ip0 <= ref + MAX_DISTANCE
    requires ip0 + MINMATCH <= reach <= |s| - LASTLITERALS && Agree(s, ip0, ref, reach - ip0)
    requires CompressBound(|s|) <= dest.Length && op0 + 8 <= dest.Length
    requires token == |EncodeSequences(ss)| && LiteralsEmitted(s, ss, anchor, ip0, dest[..op0])
    modifies dest
    ensures op <= CompressBound(|s|) && reach <= ip
    ensures Emitted(s, ss + [next], ip, dest[..op]) && Maximal(s, ss + [next])
    ensures next == SequenceOf(s, anchor, ip0, ref) && ip == ip0 + next.matchLength
  {
    hide Agree, LongestMatch, Forward, Emitted, Maximal, Legal;
    hide EncodeSequences, EncodeSequence, LiteralsEmitted, Token, CompressBound;
    ghost var literals := dest[..op0];
    op := EmitOffset(dest, op0, ip0 - ref);
    assert dest[..op] == literals + [(ip0 - ref) % 256, (ip0 - ref) / 256];
    var matchLength := Count(s, ip0 + MINMATCH, ref + MINMATCH, |s| - LASTLITERALS);
    ip := ip0 + MINMATCH + matchLength;
    SplitAgree(s, ip0, ref, MINMATCH, reach - ip0 - MINMATCH);
    LongestAtLeast(s, ip0 + MINMATCH, ref + MINMATCH, |s| - LASTLITERALS, matchLength, reach - ip0 - MINMATCH);
    LongestIsForward(s, ip0 + MINMATCH, ref + MINMATCH, |s| - LASTLITERALS, matchLength);
    next := NextSequence(s, ss, anchor, EncodeSequences(ss), ip0, ref, matchLength);
    RoomForSequences(s, ss + [next], ip, EncodeSequences(ss) + EncodeSequence(next));
    TokenInPlace(s, ss, anchor, ip0, matchLength, literals, [(ip0 - ref) % 256, (ip0 - ref) / 256]);
    ghost var done: seq<byte> := dest[..op][token := Token(ip0 - anchor, matchLength)] + Extra(matchLength);
    CompleteSequence(s, ss, anchor, ip0, ref, matchLength, literals, done);
    op := EmitMatchLength(dest, op, token, matchLength);
  }

  lemma EmptyTail(literals: seq<byte>)
    requires literals == []
    ensures [Token(|literals|, 0)] + LiteralPart(literals) == [0]
  {
    hide Extra;
  }

  lemma EmptyToken(s: seq<byte>, ss: seq<Sequence>, anchor: nat, out: seq<byte>)
    requires Legal(ss) && anchor <= |s| && out == EncodeSequences(ss)
    ensures LiteralsEmitted(s, ss, anchor, anchor, out + [0])
  {
    hide Legal, EncodeSequences, Token, LiteralPart;
    EmptyTail(s[anchor..anchor]);
  }

  lemma EmittedIsEncoding(s: seq<byte>, ss: seq<Sequence>, anchor: nat, out: seq<byte>)
    requires Emitted(s, ss, anchor, out)
    ensures Legal(ss) && anchor <= |s| && out == EncodeSequences(ss) && Emitted(s, ss, anchor, EncodeSequences(ss))
    ensures anchor + MFLIMIT <= |s| ==> |out| + 9 <= CompressBound(|s|)
  {
    hide Legal, Produced, Output, EncodeSequences, CompressBound, Extra;
    if anchor + MFLIMIT <= |s| {
      RoomForLiterals(s, ss, anchor, out, 0);
    }
  }

  /** One match of the parse, and what may follow it. */
  lemma FollowStep(s: seq<byte>, tt: TableType, t: Table, anchor: nat, p: nat, ref: nat, ss: seq<Sequence>)
    requires |s| >= MFLIMIT && |t| == TableSize(tt) && anchor <= p <= |s| - MFLIMIT && ref < p
    ensures var first := SequenceOf(s, anchor, p, ref);
      var end, all := p + first.matchLength, Prefixed(ss, Follow(s, tt, t, anchor, p, ref));
      if end > |s| - MFLIMIT then all == Followed(ss + [first], t, end)
      else
        var before := Remember(s, tt, t, end - 2);
        var next, after := before[HashPosition(s, end, tt)], Remember(s, tt, before, end);
        all ==
          if Serves(s, end, next) then Prefixed(ss + [first], Follow(s, tt, after, end, end, next))
          else Followed(ss + [first], after, end)
  {
    hide Remember, HashPosition, Serves, Forward;
    var first := SequenceOf(s, anchor, p, ref);
    var f := Follow(s, tt, t, anchor, p, ref);
    if |f.sequences| > 1 {
      assert ss + ([first] + f.sequences[1..]) == ss + [first] + f.sequences[1..];
    }
  }

  /** Matches that follow each other without literals: the _next_match loop. */
  method EncodeMatches(s: seq<byte>, table: array<nat>, tt: TableType, dest: array<byte>, mflimit: nat,
                       op0: nat, token0: nat, ip0: nat, ref0: nat, ghost ss0: seq<Sequence>, ghost anchor0: nat,
                       ghost reach0: nat)
      returns (op: nat, ip: nat, ghost ss: seq<Sequence>)
    requires mflimit + MFLIMIT == |s| <= MAX_INPUT_SIZE && (tt.ByU16? ==> |s| < LIMIT_64K)
    requires Legal(ss0) && Emitted(s, ss0, anchor0, EncodeSequences(ss0)) && Maximal(s, ss0)
    requires anchor0 <= ip0 <= mflimit && ref0 < ip0 <= ref0 + MAX_DISTANCE
    requires ip0 + MINMATCH <= reach0 <= |s| - LASTLITERALS && Agree(s, ip0, ref0, reach0 - ip0)
    requires CompressBound(|s|) <= dest.Length && op0 + 8 <= dest.Length
    requires token0 == |EncodeSequences(ss0)| && LiteralsEmitted(s, ss0, anchor0, ip0, dest[..op0])
    requires table.Length == TableSize(tt) && Before(table, reach0 - 3)
    modifies dest, table
    ensures reach0 <= ip <= |s| && op <= dest.Length
    ensures Emitted(s, ss, ip, dest[..op]) && Maximal(s, ss)
    ensures ip <= mflimit ==> Before(table, ip + 1)
    ensures Followed(ss, table[..], ip) == Prefixed(ss0, Follow(s, tt, old(table[..]), anchor0, ip0, ref0))
  {
    hide Agree, Emitted, Maximal, Legal, EncodeSequences, LiteralsEmitted;
    hide CompressBound, HashPosition, SequenceOf, Follow, Prefixed, Remember;
    op, ip, ss := op0, ip0, ss0;
    var token: nat, ref: nat := token0, ref0;
    ghost var anchor: nat, reach: nat := anchor0, reach0;
    ghost var all := Prefixed(ss0, Follow(s, tt, table[..], anchor0, ip0, ref0));
    while true
      invariant Legal(ss) && Emitted(s, ss, anchor, EncodeSequences(ss)) && Maximal(s, ss)
      invariant reach0 <= reach && anchor <= ip <= mflimit && ref < ip <= ref + MAX_DISTANCE
      invariant ip + MINMATCH <= reach <= |s| - LASTLITERALS && Agree(s, ip, ref, reach - ip)
      invariant op + 8 <= dest.Length
      invariant token == |EncodeSequences(ss)| && LiteralsEmitted(s, ss, anchor, ip, dest[..op])
      invariant Before(table, reach - 3)
      invariant Prefixed(ss, Follow(s, tt, table[..], anchor, ip, ref)) == all
      decreases |s| - ip
    {
      ghost var next;
      FollowStep(s, tt, table[..], anchor, ip, ref, ss);
      op, ip, next := EncodeMatch(s, dest, op, token, ip, ref, ss, anchor, reach);
      ss := ss + [next];
      EmittedIsEncoding(s, ss, ip, dest[..op]);
      if ip > mflimit {
        return;
      }
      PutPosition(s, table, ip - 2, tt);
      ref := table[HashPosition(s, ip, tt)];
      PutPosition(s, table, ip, tt);
      if !(ip <= ref + MAX_DISTANCE && Agree(s, ip, ref, MINMATCH)) {
        return;
      }
      EmptyToken(s, ss, ip, dest[..op]);
      anchor, token, reach := ip, op, ip + MINMATCH;
      dest[op] := 0;
      assert dest[..op + 1] == dest[..op] + [0];
      op := op + 1;
    }
  }

  lemma NothingEmitted(s: seq<byte>)
    ensures Emitted(s, [], 0, []) && Maximal(s, [])
  {
  }

  lemma LiteralsInPlace(s: seq<byte>, ss: seq<Sequence>, anchor: nat, ip: nat, out: seq<byte>)
    requires Legal(ss) && anchor <= ip <= |s|
    requires out == EncodeSequences(ss) + ([Token(ip - anchor, 0)] + LiteralPart(s[anchor..anchor + (ip - anchor)]))
    ensures LiteralsEmitted(s, ss, anchor, ip, out)
  {
  }

  /** A match that the search found: its literals, then it and all matches directly behind it. */
  method EncodeFound(s: seq<byte>, table: array<nat>, tt: TableType, dest: array<byte>, mflimit: nat,
                     op0: nat, anchor: nat, ip0: nat, ref: nat, ghost candidate: nat, ghost ss0: seq<Sequence>)
      returns (op: nat, ip: nat, ghost ss: seq<Sequence>)
    requires mflimit + MFLIMIT == |s| <= MAX_INPUT_SIZE && (tt.ByU16? ==> |s| < LIMIT_64K)
    requires op0 <= dest.Length && Emitted(s, ss0, anchor, dest[..op0]) && Maximal(s, ss0)
    requires anchor <= ip0 <= candidate < mflimit && ref < ip0 <= ref + MAX_DISTANCE
    requires Agree(s, ip0, ref, MINMATCH + (candidate - ip0))
    requires CompressBound(|s|) <= dest.Length
    requires table.Length == TableSize(tt) && Before(table, candidate + 1)
    modifies dest, table
    ensures candidate < ip <= |s| && op <= dest.Length
    ensures Emitted(s, ss, ip, dest[..op]) && Maximal(s, ss)
    ensures ip <= mflimit ==> Before(table, ip + 1)
    ensures Followed(ss, table[..], ip) == Prefixed(ss0, Follow(s, tt, old(table[..]), anchor, ip0, ref))
  {
    hide Agree, Emitted, Maximal, Legal, EncodeSequences, LiteralsEmitted, CompressBound, Extra, LiteralPart, Follow;
    EmittedIsEncoding(s, ss0, anchor, dest[..op0]);
    RoomForLiterals(s, ss0, anchor, dest[..op0], ip0 - anchor);
    op := EmitLiterals(dest, op0, s, anchor, ip0 - anchor);
    LiteralsInPlace(s, ss0, anchor, ip0, dest[..op]);
    op, ip, ss := EncodeMatches(s, table, tt, dest, mflimit, op, op0, ip0, ref, ss0, anchor, candidate + MINMATCH);
  }

  /** LZ4_compress_generic for an input that is long enough to be searched. */
  method CompressSearching(s: seq<byte>, dest: array<byte>, table: array<nat>, tt: TableType)
      returns (op: nat, anchor: nat, ghost ss: seq<Sequence>)
    requires MIN_LENGTH <= |s| <= MAX_INPUT_SIZE && (tt.ByU16? ==> |s| < LIMIT_64K)
    requires CompressBound(|s|) <= dest.Length
    requires table.Length == TableSize(tt) && Before(table, 1)
    modifies dest, table
    ensures op <= dest.Length
    ensures Emitted(s, ss, anchor, dest[..op]) && Maximal(s, ss)
    ensures ss == ParseFrom(s, tt, Remember(s, tt, old(table[..]), 0), 0, 1)
  {
    hide Agree, Maximal, Legal, CompressBound, HashPosition, FirstMatch, Follow, Back, ParseFrom, Remember, Prefixed;
    hide Emitted, Before, LiteralsEmitted, EncodeSequences;
    var mflimit := |s| - MFLIMIT;
    op, anchor, ss := 0, 0, [];
    NothingEmitted(s);
    PutPosition(s, table, 0, tt);
    var ip := 1;
    var forwardH := HashPosition(s, ip, tt);
    ghost var all := ParseFrom(s, tt, table[..], 0, 1);
    while true
      invariant 1 <= ip <= mflimit + 1 && anchor <= ip && op <= dest.Length
      invariant forwardH == HashPosition(s, ip, tt)
      invariant Before(table, ip)
      invariant Emitted(s, ss, anchor, dest[..op]) && Maximal(s, ss)
      invariant ss + ParseFrom(s, tt, table[..], anchor, ip) == all
      decreases |s| - ip
    {
      ParseStep(s, tt, table[..], anchor, ip, ss);
      var found, candidate, ref := FindMatch(s, table, tt, ip, forwardH, mflimit);
      if !found {
        return;
      }
      ghost var before := ip;
      ip, ref := CatchUp(s, candidate, ref, anchor, MINMATCH);
      op, ip, ss := EncodeFound(s, table, tt, dest, mflimit, op, anchor, ip, ref, candidate, ss);
      anchor := ip;
      if ip > mflimit {
        return;
      }
      ip := ip + 1;
      forwardH := HashPosition(s, ip, tt);
    }
  }

  lemma FinishBlock(s: seq<byte>, ss: seq<Sequence>, anchor: nat, out: seq<byte>)
    requires Emitted(s, ss, anchor, out)
    ensures var b := Block(ss, s[anchor..]);
      && WellFormed(b) && Meaning(b) == s && out + EncodeLast(s[anchor..]) == Encode(b)
  {
    hide Output, EncodeSequences, EncodeLast;
    assert s[..anchor] + s[anchor..] == s;
  }

  // ------------------------------------------------------------ equal bytes

  ghost predicate AllEqual(s: seq<byte>) {
    forall i, j :: 0 <= i < j < |s| ==> s[i] == s[j]
  }

  lemma EqualRepeats(s: seq<byte>, tt: TableType)
    requires AllEqual(s) && |s| > MIN_LENGTH
    ensures Repeat(s, tt, [], 0, 1)
  {
    hide HashPosition;
    assert s[0..4] == s[1..5];
  }

  lemma {:induction false} MaximalPrefix(s: seq<byte>, ss: seq<Sequence>, k: nat)
    requires Maximal(s, ss) && k <= |ss|
    ensures Maximal(s, ss[..k])
  {
    if k == |ss| {
      assert ss[..k] == ss;
    } else {
      MaximalPrefix(s, ss[..|ss| - 1], k);
      assert ss[..|ss| - 1][..k] == ss[..k];
    }
  }

  lemma MoreProduced(ss: seq<Sequence>, k: nat)
    requires Legal(ss) && k < |ss|
    ensures Produced(ss[..k]) + MINMATCH <= Produced(ss)
  {
    hide Output, EncodeSequences;
    LegalPrefix(ss, k + 1);
    assert ss[..k + 1][..k] == ss[..k];
  }

  /** The first match of equal bytes begins at the second and ends before the last five. */
  lemma EqualFirst(s: seq<byte>, tt: TableType, ss: seq<Sequence>)
    requires AllEqual(s) && |s| > MIN_LENGTH && NoneMissed(s, tt, ss) && Maximal(s, ss) && Legal(ss)
    ensures ss != [] && |ss[0].literals| == 1 && Produced(ss[..1]) == 1 + ss[0].matchLength == |s| - LASTLITERALS
  {
    hide Repeat;
    EqualRepeats(s, tt);
    assert ss[..0] == [] && FindsNext(s, tt, ss, 0);
    LegalPrefix(ss, 1);
    MaximalPrefix(s, ss, 1);
    assert ss[..1][..0] == [];
  }

  /** Equal bytes are one literal, one match and the last five literals. */
  lemma EqualParse(s: seq<byte>, tt: TableType, b: Block)
    requires AllEqual(s) && |s| > MIN_LENGTH && NoneMissed(s, tt, b.sequences) && Maximal(s, b.sequences)
    requires WellFormed(b) && Size(b) == |s|
    ensures |b.sequences| == 1 && |b.last| == LASTLITERALS
    ensures |b.sequences[0].literals| == 1 && b.sequences[0].matchLength == |s| - 6
  {
    hide Maximal, NoneMissed, Produced, Legal;
    var ss := b.sequences;
    EqualFirst(s, tt, ss);
    if |ss| > 1 {
      MoreProduced(ss, 1);
    } else {
      assert ss[..1] == ss;
    }
  }

  lemma EqualSize(b: Block, n: nat)
    requires Legal(b.sequences) && |b.sequences| == 1 && |b.last| == LASTLITERALS && n > MIN_LENGTH
    requires |b.sequences[0].literals| == 1 && b.sequences[0].matchLength == n - 6
    ensures |Encode(b)| == 10 + (if n < 25 then 0 else (n - 25) / 255 + 1) <= 11 + n / 255
  {
    assert b.sequences[..0] == [];
    assert EncodeSequences(b.sequences[..0]) == [];
  }

  lemma EqualBytes(s: seq<byte>, tt: TableType, b: Block)
    requires WellFormed(b) && Meaning(b) == s && Thorough(s, tt, b.sequences) && Maximal(s, b.sequences)
    ensures AllEqual(s) && |s| > MIN_LENGTH ==>
      |Encode(b)| == 10 + (if |s| < 25 then 0 else (|s| - 25) / 255 + 1) <= 11 + |s| / 255
  {
    hide Maximal, NoneMissed, Encode, AllEqual, Legal, Produced;
    if AllEqual(s) && |s| > MIN_LENGTH {
      EqualParse(s, tt, b);
      EqualSize(b, |s|);
    }
  }

  /**
   LZ4_compress_generic.  A refused size gives 0.  Otherwise the result is the
   exact number of bytes of a well-formed block that stands for the source, and
   all of its matches are as long as the format allows at their place.
   */
  method CompressGeneric(source: seq<byte>, dest: array<byte>, inputSize: int, table: array<nat>, tt: TableType)
      returns (result: int, ghost b: Block)
    requires inputSize <= |source|
    requires 0 <= inputSize <= MAX_INPUT_SIZE ==> CompressBound(inputSize) <= dest.Length
    requires table.Length == TableSize(tt) && forall h :: 0 <= h < table.Length ==> table[h] == 0
    modifies dest, table
    ensures inputSize < 0 || inputSize > MAX_INPUT_SIZE || (tt.ByU16? && inputSize >= LIMIT_64K)
      ==> result == 0
    ensures 0 <= inputSize <= MAX_INPUT_SIZE && (tt.ByU16? ==> inputSize < LIMIT_64K)
      ==> && 0 < result <= CompressBound(inputSize) <= dest.Length
          && WellFormed(b) && Meaning(b) == source[..inputSize]
          && dest[..result] == Encode(b)
          && Maximal(source[..inputSize], b.sequences) && b.sequences == Greedy(source[..inputSize], tt)
          && Thorough(source[..inputSize], tt, b.sequences)
    ensures 14 <= inputSize <= MAX_INPUT_SIZE && (tt.ByU16? ==> inputSize < LIMIT_64K) && AllEqual(source[..inputSize])
      ==> result == 10 + (if inputSize < 25 then 0 else (inputSize - 25) / 255 + 1) <= 11 + inputSize / 255
  {
    b := Block([], []);
    if inputSize < 0 || inputSize > MAX_INPUT_SIZE {
      return 0, b;
    }
    if tt.ByU16? && inputSize >= LIMIT_64K {
      return 0, b;
    }
    hide Maximal, Legal, CompressBound, WellFormed, Meaning, Encode, Emitted, EncodeLast, ParseFrom, Remember;
    hide AllEqual, Thorough;
    assert table[..] == seq(TableSize(tt), _ => 0);
    var s := source[..inputSize];
    var op, anchor := 0, 0;
    ghost var ss := [];
    NothingEmitted(s);
    if inputSize >= MIN_LENGTH {
      op, anchor, ss := CompressSearching(s, dest, table, tt);
    }
    FinishBlock(s, ss, anchor, dest[..op]);
    RoomForSequences(s, ss, anchor, dest[..op]);
    b := Block(ss, s[anchor..]);
    op := EmitLast(dest, op, s, anchor);
    GreedyThorough(s, tt);
    EqualBytes(s, tt, b);
    return op, b;
  }

  /** LZ4_compress with any hash. */
  method CompressHashing(source: seq<byte>, dest: array<byte>, inputSize: int, hash16: nat -> Slot16,
                         hash32: nat -> Slot32)
      returns (result: int, ghost b: Block)
    requires inputSize <= |source|
    requires 0 <= inputSize <= MAX_INPUT_SIZE ==> CompressBound(inputSize) <= dest.Length
    modifies dest
    ensures inputSize < 0 || inputSize > MAX_INPUT_SIZE ==> result == 0
    ensures 0 <= inputSize <= MAX_INPUT_SIZE
      ==> && 0 < result <= CompressBound(inputSize) <= dest.Length && result < 0x8000_0000
          && WellFormed(b) && Meaning(b) == source[..inputSize]
          && dest[..result] == Encode(b)
          && Maximal(source[..inputSize], b.sequences)
          && b.sequences == Greedy(source[..inputSize], TableFor(inputSize, hash16, hash32))
          && Thorough(source[..inputSize], TableFor(inputSize, hash16, hash32), b.sequences)
    ensures 14 <= inputSize <= MAX_INPUT_SIZE && AllEqual(source[..inputSize])
      ==> result == 10 + (if inputSize < 25 then 0 else (inputSize - 25) / 255 + 1) <= 11 + inputSize / 255
  {
    hide Greedy, Maximal, Meaning, Encode, WellFormed, Thorough, AllEqual;
    var tt := TableFor(inputSize, hash16, hash32);
    var table := new nat[TableSize(tt)](_ => 0);
    result, b := CompressGeneric(source, dest, inputSize, table, tt);
  }

  /** LZ4_compress, with the multiplicative hash. */
  method Compress(source: seq<byte>, dest: array<byte>, inputSize: int) returns (result: int, ghost b: Block)
    requires inputSize <= |source|
    requires 0 <= inputSize <= MAX_INPUT_SIZE ==> CompressBound(inputSize) <= dest.Length
    modifies dest
    ensures inputSize < 0 || inputSize > MAX_INPUT_SIZE ==> result == 0
    ensures 0 <= inputSize <= MAX_INPUT_SIZE
      ==> && 0 < result <= CompressBound(inputSize) <= dest.Length && result < 0x8000_0000
          && WellFormed(b) && Meaning(b) == source[..inputSize]
          && dest[..result] == Encode(b)
          && Maximal(source[..inputSize], b.sequences)
          && b.sequences == Greedy(source[..inputSize], TableFor(inputSize, Multiplied16, Multiplied32))
          && Thorough(source[..inputSize], TableFor(inputSize, Multiplied16, Multiplied32), b.sequences)
    ensures 14 <= inputSize <= MAX_INPUT_SIZE && AllEqual(source[..inputSize])
      ==> result == 10 + (if inputSize < 25 then 0 else (inputSize - 25) / 255 + 1) <= 11 + inputSize / 255
  {
    hide Greedy, Maximal, Meaning, Encode, WellFormed, Thorough, AllEqual;
    result, b := CompressHashing(source, dest, inputSize, Multiplied16, Multiplied32);
  }
}
