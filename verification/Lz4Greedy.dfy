/**
 The parse that the compressor follows, without tables in memory or bytes in a
 buffer: which positions are tried, which match is taken, and how far it reaches.
 */
module Lz4Greedy {
  import opened Bytes
  import opened Lz4Format
  import opened Lz4Count

  const LIMIT_64K := 0x10000 + (MFLIMIT - 1)
  const SKIP_TRIGGER := 64       // 1 << SKIPSTRENGTH

  const HASH_SIZE_U16 := 8192
  const HASH_SIZE_U32 := 4096

  /** A table of 32-bit or of 16-bit positions, with a hash of its own: any function from four bytes to its slots. */
  datatype TableType = ByU32(hash32: nat -> Slot32) | ByU16(hash16: nat -> Slot16)
  type Slot32 = h: nat | h < HASH_SIZE_U32
  type Slot16 = h: nat | h < HASH_SIZE_U16

  /** The 16-bit table is used exactly while every position fits it. */
  function TableFor(inputSize: int, hash16: nat -> Slot16, hash32: nat -> Slot32): TableType {
    if inputSize < LIMIT_64K then ByU16(hash16) else ByU32(hash32)
  }

  function TableSize(tt: TableType): nat {
    if tt.ByU16? then HASH_SIZE_U16 else HASH_SIZE_U32
  }

  function Read32(s: seq<byte>, p: nat): nat
    requires p + 4 <= |s|
  {
    var b0: nat, b1: nat, b2: nat, b3: nat := s[p], s[p + 1], s[p + 2], s[p + 3];
    b0 + 0x100 * b1 + 0x1_0000 * b2 + 0x100_0000 * b3
  }

  /** Multiplicative hash in 32-bit arithmetic; the shift keeps 13 bits. */
  function Multiplied16(sequence: nat): Slot16 {
    (sequence * 2654435761) % 0x1_0000_0000 / 0x8_0000
  }

  /** The same with 12 bits. */
  function Multiplied32(sequence: nat): Slot32 {
    (sequence * 2654435761) % 0x1_0000_0000 / 0x10_0000
  }

  function HashSequence(sequence: nat, tt: TableType): (h: nat)
    ensures h < TableSize(tt)
  {
    match tt case ByU32(hash) => hash(sequence) case ByU16(hash) => hash(sequence)
  }

  function HashPosition(s: seq<byte>, p: nat, tt: TableType): (h: nat)
    requires p + 4 <= |s|
    ensures h < TableSize(tt)
  {
    HashSequence(Read32(s, p), tt)
  }

  /** Entries are 16 or 32 bits wide. */
  function EntryLimit(tt: TableType): nat {
    if tt.ByU16? then 0x1_0000 else 0x1_0000_0000
  }

  /** The remembered positions, one for every hash. */
  type Table = seq<nat>

  /** Position p is remembered under the hash of its four bytes. */
  function Remember(s: seq<byte>, tt: TableType, t: Table, p: nat): (r: Table)
    requires |t| == TableSize(tt) && p + 4 <= |s|
    ensures |r| == |t|
  {
    t[HashPosition(s, p, tt) := p % EntryLimit(tt)]
  }

  /** A remembered position can serve as a match: it is near enough and its four bytes agree. */
  ghost predicate Serves(s: seq<byte>, p: nat, ref: nat)
    requires p + 4 <= |s|
  {
    ref < p <= ref + MAX_DISTANCE && Agree(s, p, ref, MINMATCH)
  }

  // ------------------------------------------------------------ searching

  datatype Search = Nothing(table: Table) | Match(at: nat, ref: nat, table: Table)

  /** The accelerating search: the first tried position whose remembered position serves, or nothing before mflimit. */
  ghost function FirstMatch(s: seq<byte>, tt: TableType, t: Table, p: nat, step: nat, tries: nat): (r: Search)
    requires |s| >= MFLIMIT && |t| == TableSize(tt) && p <= |s| - MFLIMIT + 1 && step >= 1 && tries >= SKIP_TRIGGER
    ensures |r.table| == |t|
    ensures r.Match? ==> p <= r.at && r.at + MFLIMIT <= |s| && Serves(s, r.at, r.ref)
    decreases |s| - p
  {
    if p + step > |s| - MFLIMIT then Nothing(t)
    else
      var ref := t[HashPosition(s, p, tt)];
      var next := Remember(s, tt, t, p);
      if Serves(s, p, ref) then Match(p, ref, next)
      else FirstMatch(s, tt, next, p + step, tries / SKIP_TRIGGER, tries + 1)
  }

  /** How many bytes before two positions agree, down to the anchor and the start. */
  function Back(s: seq<byte>, p: nat, ref: nat, anchor: nat): (n: nat)
    requires ref <= p <= |s| && anchor <= p
    ensures n <= ref && n <= p - anchor
  {
    if p > anchor && ref > 0 && s[p - 1] == s[ref - 1] then 1 + Back(s, p - 1, ref - 1, anchor) else 0
  }

  /** How many bytes from two positions on agree, up to the limit. */
  function Forward(s: seq<byte>, p: nat, ref: nat, limit: nat): (n: nat)
    requires ref <= p && limit <= |s|
    ensures p <= limit ==> p + n <= limit
    decreases limit - p
  {
    if p < limit && s[p] == s[ref] then 1 + Forward(s, p + 1, ref + 1, limit) else 0
  }

  // ------------------------------------------------------------ the parse

  datatype Followed = Followed(sequences: seq<Sequence>, table: Table, end: nat)

  /** The sequence of a match at p, with the literals since the anchor. */
  function SequenceOf(s: seq<byte>, anchor: nat, p: nat, ref: nat): Sequence
    requires anchor <= p <= |s| - MFLIMIT && ref < p
  {
    Sequence(s[anchor..p], p - ref, MINMATCH + Forward(s, p + MINMATCH, ref + MINMATCH, |s| - LASTLITERALS))
  }

  /** A match and all matches that follow directly behind it. */
  ghost function Follow(s: seq<byte>, tt: TableType, t: Table, anchor: nat, p: nat, ref: nat): (r: Followed)
    requires |s| >= MFLIMIT && |t| == TableSize(tt) && anchor <= p <= |s| - MFLIMIT && ref < p
    ensures |r.table| == |t| && p < r.end <= |s|
    decreases |s| - p
  {
    var first := SequenceOf(s, anchor, p, ref);
    var end := p + first.matchLength;
    if end > |s| - MFLIMIT then Followed([first], t, end)
    else
      var before := Remember(s, tt, t, end - 2);
      var next := before[HashPosition(s, end, tt)];
      var after := Remember(s, tt, before, end);
      if Serves(s, end, next) then
        var rest := Follow(s, tt, after, end, end, next);
        Followed([first] + rest.sequences, rest.table, rest.end)
      else Followed([first], after, end)
  }

  /** All sequences from position p on, with literals since the anchor. */
  ghost function ParseFrom(s: seq<byte>, tt: TableType, t: Table, anchor: nat, p: nat): seq<Sequence>
    requires |s| >= MFLIMIT && |t| == TableSize(tt) && anchor <= p <= |s| - MFLIMIT + 1
    decreases |s| - p
  {
    match FirstMatch(s, tt, t, p, 1, SKIP_TRIGGER)
    case Nothing(_) => []
    case Match(at, ref, table) =>
      var n := Back(s, at, ref, anchor);
      var f := Follow(s, tt, table, anchor, at - n, ref - n);
      f.sequences + if p < f.end <= |s| - MFLIMIT then ParseFrom(s, tt, f.table, f.end, f.end + 1) else []
  }

  /** The greedy parse of a source. */
  ghost function Greedy(s: seq<byte>, tt: TableType): seq<Sequence> {
    if |s| < MIN_LENGTH then []
    else ParseFrom(s, tt, Remember(s, tt, seq(TableSize(tt), _ => 0), 0), 0, 1)
  }

  /** More sequences in front. */
  function Prefixed(ss: seq<Sequence>, f: Followed): Followed {
    f.(sequences := ss + f.sequences)
  }

  /** One search of the parse, and what it leads to. */
  lemma ParseStep(s: seq<byte>, tt: TableType, t: Table, anchor: nat, p: nat, ss: seq<Sequence>)
    requires |s| >= MFLIMIT && |t| == TableSize(tt) && anchor <= p <= |s| - MFLIMIT + 1
    ensures var all := ss + ParseFrom(s, tt, t, anchor, p);
      match FirstMatch(s, tt, t, p, 1, SKIP_TRIGGER)
      case Nothing(_) => all == ss
      case Match(at, ref, table) =>
        var n := Back(s, at, ref, anchor);
        var f := Prefixed(ss, Follow(s, tt, table, anchor, at - n, ref - n));
        all == f.sequences + if p < f.end <= |s| - MFLIMIT then ParseFrom(s, tt, f.table, f.end, f.end + 1) else []
  {
    hide FirstMatch, Follow, Back, Serves, Remember, HashPosition;
  }

  /** The counted length of a match is the number of bytes that agree. */
  lemma {:induction false} LongestIsForward(s: seq<byte>, p: nat, ref: nat, limit: nat, n: nat)
    requires ref <= p <= limit <= |s| && LongestMatch(s, p, ref, limit, n)
    ensures n == Forward(s, p, ref, limit)
    decreases n
  {
    if n > 0 {
      var x, y := s[p..p + n], s[ref..ref + n];
      assert x[0] == s[p] && y[0] == s[ref];
      assert x[1..] == s[p + 1..p + n] && y[1..] == s[ref + 1..ref + n];
      LongestIsForward(s, p + 1, ref + 1, limit, n - 1);
    }
  }
}
