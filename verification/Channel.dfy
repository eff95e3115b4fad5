/** Channels: a value and its timestamp as message parts, and back. */
module Channel {
  import opened Basics
  import opened Bytes
  import opened ByteOrder
  import opened BlockCodec
  import opened Framing
  import BlockedDriver

  /** What reader and writer a channel has. Floats are numbers by their bit pattern; a flag is a bool. */
  datatype Kind = Scalar | Array | Text

  datatype Compression = Plain | BitshuffleLz4 | Lz4

  datatype Config = Config(kind: Kind, flag: bool, elements: nat, width: nat, little: bool, compression: Compression)

  datatype Option<T> = None | Some(value: T)

  /** What other crates decide: which bytes are UTF-8, and the LZ4 blocks of the lz4 crate. */
  datatype Crates = Crates(utf8: seq<byte> -> bool, deflate: seq<byte> -> Option<seq<byte>>,
                           inflate: (seq<byte>, int) -> Option<seq<byte>>)

  const LZ4_LIMIT := 0x7E00_0000

  /** The lz4 crate restores what it compressed, and refuses more than LZ4 can take. */
  ghost predicate Trusted(crates: Crates) {
    forall s :: crates.deflate(s).Some? ==>
      |s| <= LZ4_LIMIT && crates.inflate(crates.deflate(s).value, |s|) == Some(s)
  }

  datatype Value = Number(n: nat) | Numbers(ns: seq<nat>) | Characters(bytes: seq<byte>)

  datatype ChannelData = ChannelData(value: Value, seconds: nat, nanos: nat)

  const INVALID_INPUT := -1
  const UNEXPECTED_EOF := -2
  const INVALID_DATA := -3
  const COMPRESSION_FAILED := -4
  const DECOMPRESSION_FAILED := -5

  /** A channel as `channel::new` makes it. */
  predicate ValidConfig(c: Config) {
    && c.width in {1, 2, 4, 8} && c.elements * c.width < UINT64
    && (c.kind == Text || c.flag ==> c.width == 1)
  }

  /** A number of the channel's type. */
  predicate FitsNumber(c: Config, n: nat) {
    n < Pow256(c.width) && (c.flag ==> n <= 1)
  }

  /** A value of the channel's type and length; a string is UTF-8 and has no NUL. */
  predicate FitsValue(crates: Crates, c: Config, v: Value) {
    match c.kind
    case Scalar => v.Number? && FitsNumber(c, v.n)
    case Array => v.Numbers? && |v.ns| == c.elements && forall i :: 0 <= i < |v.ns| ==> FitsNumber(c, v.ns[i])
    case Text => v.Characters? && |v.bytes| < UINT64 && 0 !in v.bytes && crates.utf8(v.bytes)
  }

  // ------------------------------------------------------------ numbers as bytes

  function Word(n: nat, width: nat, little: bool): (r: seq<byte>)
    ensures |r| == width
  {
    if little then Le(n, width) else Be(n, width)
  }

  function FromWord(s: seq<byte>, little: bool): nat {
    if little then FromLe(s) else FromBe(s)
  }

  lemma WordRoundTrip(n: nat, width: nat, little: bool)
    requires n < Pow256(width)
    ensures FromWord(Word(n, width, little), little) == n
  {
    if little { FromLeOfLe(n, width); } else { FromBeOfBe(n, width); }
  }

  /** The words of an array, one after the other. */
  function Words(ns: seq<nat>, width: nat, little: bool): seq<byte> {
    if ns == [] then [] else Words(ns[..|ns| - 1], width, little) + Word(ns[|ns| - 1], width, little)
  }

  lemma {:induction false} WordsLength(ns: seq<nat>, width: nat, little: bool)
    ensures |Words(ns, width, little)| == |ns| * width
  {
    if ns != [] {
      WordsLength(ns[..|ns| - 1], width, little);
      Distribute(|ns| - 1, 1, width);
    }
  }

  lemma WordsNext(ns: seq<nat>, width: nat, little: bool, i: nat)
    requires i < |ns|
    ensures Words(ns[..i + 1], width, little) == Words(ns[..i], width, little) + Word(ns[i], width, little)
  {
    assert ns[..i + 1][..i] == ns[..i];
  }

  // ------------------------------------------------------------ a cursor over a growing buffer

  /** Bytes written at the position of a cursor replace what is there, and extend the buffer at its end. */
  function CursorWrite(buf: seq<byte>, pos: nat, s: seq<byte>): seq<byte>
    requires pos <= |buf|
  {
    buf[..pos] + s + if pos + |s| <= |buf| then buf[pos + |s|..] else []
  }

  lemma WriteFollows(buf: seq<byte>, a: seq<byte>, b: seq<byte>)
    ensures CursorWrite(CursorWrite(buf, 0, a), |a|, b) == CursorWrite(buf, 0, a + b)
  {
    var one := CursorWrite(buf, 0, a);
    assert one[..|a|] == a;
    if |a| + |b| <= |buf| {
      assert one[|a| + |b|..] == buf[|a| + |b|..];
    }
  }

  /** The payload of a value. */
  function Payload(c: Config, v: Value): seq<byte> {
    match v
    case Number(n) => Word(n, c.width, c.little)
    case Numbers(ns) => Words(ns, c.width, c.little)
    case Characters(bytes) => bytes
  }

  predicate Matches(c: Config, v: Value) {
    match c.kind case Scalar => v.Number? case Array => v.Numbers? case Text => v.Characters?
  }

  function Zeros(n: nat): (r: seq<byte>)
    ensures |r| == n && forall i :: 0 <= i < n ==> r[i] == 0
  {
    seq(n, _ => 0)
  }

  /** The number of bytes that a value takes. */
  function Extent(c: Config, v: Value): nat {
    match v case Number(_) => c.width case Numbers(ns) => |ns| * c.width case Characters(bytes) => |bytes|
  }

  /** Every number of an array has its bytes at its place. */
  ghost predicate NumbersAt(s: seq<byte>, ns: seq<nat>, width: nat, little: bool) {
    forall j :: 0 <= j < |ns| ==> WordAt(s, j * width, ns[j], width, little)
  }

  /** The value stands at the front, and everything behind it is zero up to the size of the channel. */
  ghost predicate IsBuffer(c: Config, v: Value, buf: seq<byte>) {
    && |buf| == (if Extent(c, v) <= c.elements * c.width then c.elements * c.width else Extent(c, v))
    && (forall p :: Extent(c, v) <= p < |buf| ==> buf[p] == 0)
    && match v
       case Number(n) => WordAt(buf, 0, n, c.width, c.little)
       case Numbers(ns) => NumbersAt(buf, ns, c.width, c.little)
       case Characters(bytes) => bytes <= buf
  }

  lemma IndexFits(i: nat, n: nat, width: nat)
    requires i < n
    ensures i * width + width <= n * width
  {
    MulMonotone(i + 1, n, width);
    Distribute(i, 1, width);
  }

  lemma {:induction false} WordsAt(ns: seq<nat>, width: nat, little: bool, i: nat)
    requires i < |ns|
    ensures i * width + width <= |Words(ns, width, little)|
    ensures Words(ns, width, little)[i * width..i * width + width] == Word(ns[i], width, little)
  {
    hide Word;
    WordsLength(ns, width, little);
    IndexFits(i, |ns|, width);
    var front := ns[..|ns| - 1];
    WordsLength(front, width, little);
    Distribute(|ns| - 1, 1, width);
    if i < |ns| - 1 {
      WordsAt(front, width, little, i);
      var w, p := Words(front, width, little), i * width;
      assert Words(ns, width, little)[p..p + width] == w[p..p + width];
    }
  }

  lemma WrittenPart(buf: seq<byte>, s: seq<byte>, p: nat, q: nat)
    requires p <= q <= |s|
    ensures |CursorWrite(buf, 0, s)| >= |s| && CursorWrite(buf, 0, s)[p..q] == s[p..q]
  {
  }

  lemma WordIsWord(n: nat, width: nat, little: bool)
    ensures WordAt(Word(n, width, little), 0, n, width, little)
  {
    LeIsWord(n, width);
    BeIsWord(n, width);
  }

  lemma WordsAreWords(ns: seq<nat>, width: nat, little: bool)
    ensures NumbersAt(Words(ns, width, little), ns, width, little)
  {
    hide Words, Word, WordAt;
    forall j | 0 <= j < |ns| ensures WordAt(Words(ns, width, little), j * width, ns[j], width, little) {
      WordsAt(ns, width, little, j);
      WordIsWord(ns[j], width, little);
      WordInside(Words(ns, width, little), j * width, ns[j], width, little);
    }
  }

  /** What stands in a front part stands in the whole. */
  lemma WordInFront(s: seq<byte>, buf: seq<byte>, at: nat, n: nat, k: nat, little: bool)
    requires WordAt(s, at, n, k, little) && s <= buf
    ensures WordAt(buf, at, n, k, little)
  {
    forall p | at <= p < at + k ensures buf[p] == s[p] {
    }
  }

  lemma OverZeros(size: nat, s: seq<byte>)
    ensures var buf := CursorWrite(Zeros(size), 0, s);
      && |buf| == (if |s| <= size then size else |s|) && s <= buf && forall p :: |s| <= p < |buf| ==> buf[p] == 0
  {
  }

  lemma NumbersInFront(s: seq<byte>, buf: seq<byte>, ns: seq<nat>, width: nat, little: bool)
    requires NumbersAt(s, ns, width, little) && s <= buf
    ensures NumbersAt(buf, ns, width, little)
  {
    hide WordAt;
    forall j | 0 <= j < |ns| ensures WordAt(buf, j * width, ns[j], width, little) {
      WordInFront(s, buf, j * width, ns[j], width, little);
    }
  }

  lemma WrittenIsBuffer(c: Config, v: Value)
    ensures IsBuffer(c, v, CursorWrite(Zeros(c.elements * c.width), 0, Payload(c, v)))
  {
    hide Words, Word, WordAt, CursorWrite, Zeros, NumbersAt;
    var s, buf := Payload(c, v), CursorWrite(Zeros(c.elements * c.width), 0, Payload(c, v));
    OverZeros(c.elements * c.width, s);
    match v {
      case Number(n) =>
        WordIsWord(n, c.width, c.little);
        WordInFront(s, buf, 0, n, c.width, c.little);
      case Numbers(ns) =>
        WordsLength(ns, c.width, c.little);
        WordsAreWords(ns, c.width, c.little);
        NumbersInFront(s, buf, ns, c.width, c.little);
      case Characters(_) =>
    }
  }

  /** ChannelTrait::write into a zeroed buffer of the size of the channel. */
  method WriteValue(c: Config, v: Value) returns (r: Result<seq<byte>>)
    ensures !Matches(c, v) ==> r == Err(INVALID_INPUT)
    ensures Matches(c, v) ==> r == Ok(CursorWrite(Zeros(c.elements * c.width), 0, Payload(c, v)))
    ensures Matches(c, v) ==> IsBuffer(c, v, r.value)
  {
    hide Word, CursorWrite, Words, IsBuffer;
    WrittenIsBuffer(c, v);
    var buf := Zeros(c.elements * c.width);
    if !Matches(c, v) {
      return Err(INVALID_INPUT);
    }
    match v {
      case Number(n) => r := Ok(CursorWrite(buf, 0, Word(n, c.width, c.little)));
      case Characters(bytes) => r := Ok(CursorWrite(buf, 0, bytes));
      case Numbers(ns) =>
        ghost var zeros := buf;
        var pos := 0;
        NothingWritten(buf, ns, c.width, c.little);
        for i := 0 to |ns|
          invariant pos == |Words(ns[..i], c.width, c.little)| <= |buf|
          invariant buf == CursorWrite(zeros, 0, Words(ns[..i], c.width, c.little))
        {
          var w := Word(ns[i], c.width, c.little);
          WordsNext(ns, c.width, c.little, i);
          WriteFollows(zeros, Words(ns[..i], c.width, c.little), w);
          buf := CursorWrite(buf, pos, w);
          pos := pos + c.width;
          WrittenInside(zeros, Words(ns[..i + 1], c.width, c.little));
        }
        assert ns[..|ns|] == ns;
        r := Ok(buf);
    }
  }

  lemma WrittenInside(buf: seq<byte>, s: seq<byte>)
    ensures |s| <= |CursorWrite(buf, 0, s)|
  {
  }

  lemma NothingWritten(buf: seq<byte>, ns: seq<nat>, width: nat, little: bool)
    ensures ns[..0] == [] && Words(ns[..0], width, little) == [] && CursorWrite(buf, 0, []) == buf
  {
  }

  // ------------------------------------------------------------ reading

  /** The number at a position; a bool is true for every byte but zero. */
  function NumberAt(c: Config, data: seq<byte>, pos: nat): nat
    requires pos + c.width <= |data|
  {
    var n := FromWord(data[pos..pos + c.width], c.little);
    if c.flag && n != 0 then 1 else n
  }

  /** The part of `data` before its first zero byte. */
  ghost predicate IsText(data: seq<byte>, text: seq<byte>) {
    text <= data && 0 !in text && (|text| < |data| ==> data[|text|] == 0)
  }

  /** What ChannelTrait::read finds in `data`. */
  ghost predicate Reads(c: Config, data: seq<byte>, v: Value) {
    match c.kind
    case Scalar => c.width <= |data| && v == Number(NumberAt(c, data, 0))
    case Array => v.Numbers? && |v.ns| == c.elements && ReadsNumbers(c, data, v.ns)
    case Text => v.Characters? && IsText(data, v.bytes)
  }

  ghost predicate ReadsNumbers(c: Config, data: seq<byte>, ns: seq<nat>) {
    |ns| * c.width <= |data| && forall i :: 0 <= i < |ns| ==> ReadsNumber(c, data, i, ns[i])
  }

  ghost predicate ReadsNumber(c: Config, data: seq<byte>, i: nat, n: nat) {
    i * c.width + c.width <= |data| && n == NumberAt(c, data, i * c.width)
  }

  /** The bytes before the first zero byte. */
  function UpToZero(data: seq<byte>): (r: seq<byte>)
    ensures IsText(data, r)
  {
    if data == [] || data[0] == 0 then [] else [data[0]] + UpToZero(data[1..])
  }

  /** The data is long enough for the channel, and a string is UTF-8. */
  predicate CanRead(crates: Crates, c: Config, data: seq<byte>) {
    match c.kind
    case Scalar => c.width <= |data|
    case Array => c.elements * c.width <= |data|
    case Text => crates.utf8(UpToZero(data))
  }

  /** The number that the bytes at a position are; a bool is false if they are all zero. */
  ghost predicate IsNumber(c: Config, data: seq<byte>, pos: nat, n: nat) {
    if c.flag then n == if forall p :: pos <= p < pos + c.width && p < |data| ==> data[p] == 0 then 0 else 1
    else n < Pow256(c.width) && WordAt(data, pos, n, c.width, c.little)
  }

  /** The numbers that the bytes of an array are. */
  ghost predicate AreNumbers(c: Config, data: seq<byte>, ns: seq<nat>) {
    forall j :: 0 <= j < |ns| ==> IsNumber(c, data, j * c.width, ns[j])
  }

  /** The value of a channel that its bytes are. */
  ghost predicate StandsIn(c: Config, data: seq<byte>, v: Value) {
    match c.kind
    case Scalar => v.Number? && IsNumber(c, data, 0, v.n)
    case Array => v.Numbers? && |v.ns| == c.elements && AreNumbers(c, data, v.ns)
    case Text => v.Characters? && IsText(data, v.bytes)
  }

  lemma FromWordIsWord(data: seq<byte>, pos: nat, width: nat, little: bool)
    requires pos + width <= |data|
    ensures var n := FromWord(data[pos..pos + width], little);
      n < Pow256(width) && WordAt(data, pos, n, width, little)
  {
    hide Pow256, WordAt;
    var w := data[pos..pos + width];
    FromLeIsWord(w);
    FromBeIsWord(w);
    WordInside(data, pos, FromWord(w, little), width, little);
  }

  lemma ZeroQuotient(d: nat)
    requires d > 0
    ensures 0 / d % 256 == 0
  {
  }

  lemma ZeroBytes(data: seq<byte>, pos: nat, width: nat, little: bool)
    requires pos + width <= |data|
    ensures WordAt(data, pos, 0, width, little) <==>
      forall p :: pos <= p < pos + width && p < |data| ==> data[p] == 0
  {
    hide Pow256;
    forall p | pos <= p < pos + width
      ensures data[p] == 0 <==> data[p] == 0 / Pow256(if little then p - pos else pos + width - 1 - p) % 256
    {
      ZeroQuotient(Pow256(if little then p - pos else pos + width - 1 - p));
    }
  }

  /** Zero is the number of zero bytes alone. */
  lemma ZeroWord(data: seq<byte>, pos: nat, n: nat, width: nat, little: bool)
    requires pos + width <= |data| && WordAt(data, pos, n, width, little) && n < Pow256(width)
    ensures n == 0 <==> forall p :: pos <= p < pos + width && p < |data| ==> data[p] == 0
  {
    hide Pow256, WordAt;
    ZeroBytes(data, pos, width, little);
    if WordAt(data, pos, 0, width, little) {
      WordUnique(data, pos, n, 0, width, little);
    }
  }

  lemma NumberAtIs(c: Config, data: seq<byte>, pos: nat)
    requires pos + c.width <= |data|
    ensures IsNumber(c, data, pos, NumberAt(c, data, pos))
  {
    hide Pow256, WordAt, FromWord;
    FromWordIsWord(data, pos, c.width, c.little);
    ZeroWord(data, pos, FromWord(data[pos..pos + c.width], c.little), c.width, c.little);
  }

  lemma NumbersAreThere(c: Config, data: seq<byte>, ns: seq<nat>)
    requires ReadsNumbers(c, data, ns)
    ensures AreNumbers(c, data, ns)
  {
    hide IsNumber, NumberAt;
    forall j | 0 <= j < |ns| ensures IsNumber(c, data, j * c.width, ns[j]) {
      assert ReadsNumber(c, data, j, ns[j]);
      NumberAtIs(c, data, j * c.width);
    }
  }

  /** ChannelTrait::read. Only the reader of bool arrays panics instead of failing. */
  method ReadValue(crates: Crates, c: Config, data: seq<byte>) returns (r: Result<Value>)
    ensures r.Ok? <==> CanRead(crates, c, data)
    ensures r.Ok? ==> Reads(c, data, r.value)
    ensures r.Panic? <==> !CanRead(crates, c, data) && c.kind == Array && c.flag
    ensures r.Err? ==> r.code == if c.kind == Text then INVALID_DATA else UNEXPECTED_EOF
    ensures c.kind != Text ==> (r.Ok? <==> |data| >= if c.kind == Array then c.elements * c.width else c.width)
    ensures r.Ok? ==> StandsIn(c, data, r.value)
  {
    hide IsNumber, AreNumbers, NumberAt;
    match c.kind {
      case Scalar =>
        if |data| < c.width {
          return Err(UNEXPECTED_EOF);
        }
        NumberAtIs(c, data, 0);
        r := Ok(Number(NumberAt(c, data, 0)));
      case Array =>
        if |data| < c.elements * c.width {
          return if c.flag then Panic else Err(UNEXPECTED_EOF);
        }
        var ns := ReadNumbers(c, data);
        NumbersAreThere(c, data, ns);
        r := Ok(Numbers(ns));
      case Text =>
        var text := ReadText(data);
        TextUnique(data, text, UpToZero(data));
        if !crates.utf8(text) {
          return Err(INVALID_DATA);
        }
        r := Ok(Characters(text));
    }
  }

  method ReadNumbers(c: Config, data: seq<byte>) returns (ns: seq<nat>)
    requires c.elements * c.width <= |data|
    ensures |ns| == c.elements && ReadsNumbers(c, data, ns)
  {
    hide NumberAt;
    ns := [];
    var pos := 0;
    for i := 0 to c.elements
      invariant |ns| == i && pos == i * c.width
      invariant forall k :: 0 <= k < i ==> ReadsNumber(c, data, k, ns[k])
    {
      IndexFits(i, c.elements, c.width);
      ns := ns + [NumberAt(c, data, pos)];
      pos := pos + c.width;
      Distribute(i, 1, c.width);
    }
  }

  /** READER_STRING: everything up to the first NUL. */
  method ReadText(data: seq<byte>) returns (text: seq<byte>)
    ensures IsText(data, text)
  {
    var pos := 0;
    while pos < |data| && data[pos] != 0
      invariant pos <= |data| && 0 !in data[..pos]
    {
      pos := pos + 1;
    }
    text := data[..pos];
  }

  // ------------------------------------------------------------ what is written is what is read

  lemma NumberBack(c: Config, n: nat, data: seq<byte>, pos: nat)
    requires FitsNumber(c, n) && pos + c.width <= |data| && data[pos..pos + c.width] == Word(n, c.width, c.little)
    ensures NumberAt(c, data, pos) == n
  {
    WordRoundTrip(n, c.width, c.little);
  }

  /** A longer prefix than the text contains the zero that ended it. */
  lemma EndsAtZero(data: seq<byte>, text: seq<byte>, n: nat)
    requires IsText(data, text) && n <= |data|
    ensures n > |text| ==> 0 in data[..n]
  {
    if n > |text| {
      assert data[..n][|text|] == 0;
    }
  }

  lemma TextUnique(data: seq<byte>, text: seq<byte>, bytes: seq<byte>)
    requires IsText(data, text) && IsText(data, bytes)
    ensures text == bytes
  {
    EndsAtZero(data, text, |bytes|);
    EndsAtZero(data, bytes, |text|);
  }

  lemma PaddedText(size: nat, bytes: seq<byte>)
    requires 0 !in bytes
    ensures IsText(CursorWrite(Zeros(size), 0, bytes), bytes)
  {
  }

  /** Reading the buffer of a value gives the value. */
  lemma ReadBack(crates: Crates, c: Config, v: Value, w: Value, data: seq<byte>)
    requires FitsValue(crates, c, v) && data == CursorWrite(Zeros(c.elements * c.width), 0, Payload(c, v))
    requires Reads(c, data, w)
    ensures w == v
  {
    hide Words, Word, NumberAt, CursorWrite, FitsNumber, IsText;
    var zeros, s := Zeros(c.elements * c.width), Payload(c, v);
    match c.kind {
      case Scalar =>
        WrittenPart(zeros, s, 0, c.width);
        NumberBack(c, v.n, data, 0);
      case Text =>
        PaddedText(c.elements * c.width, v.bytes);
        TextUnique(data, w.bytes, v.bytes);
      case Array =>
        forall i | 0 <= i < c.elements ensures w.ns[i] == v.ns[i] {
          assert ReadsNumber(c, data, i, w.ns[i]);
          var p := i * c.width;
          WordsAt(v.ns, c.width, c.little, i);
          WrittenPart(zeros, s, p, p + c.width);
          NumberBack(c, v.ns[i], data, p);
        }
        assert w.ns == v.ns;
    }
  }

  /** The buffer of a value holds whole elements, and is long enough to be read. */
  lemma BufferShape(crates: Crates, c: Config, v: Value)
    requires ValidConfig(c) && FitsValue(crates, c, v)
    ensures Matches(c, v)
    ensures var data := CursorWrite(Zeros(c.elements * c.width), 0, Payload(c, v));
      |data| % c.width == 0 && |data| < UINT64 && CanRead(crates, c, data)
  {
    hide Word, Words, FitsNumber, IsText, UpToZero;
    var size := c.elements * c.width;
    var data := CursorWrite(Zeros(size), 0, Payload(c, v));
    if c.kind == Array {
      WordsLength(v.ns, c.width, c.little);
    }
    if c.kind == Text {
      PaddedText(size, v.bytes);
      TextUnique(data, UpToZero(data), v.bytes);
    }
    assert |data| == if |Payload(c, v)| <= size then size else |Payload(c, v)|;
    WholeMultiple(c.elements, c.width);
    WholeMultiple(1, c.width);
  }

  lemma WholeMultiple(n: nat, width: nat)
    requires width in {1, 2, 4, 8}
    ensures n * width % width == 0
  {
    if width == 1 {
      assert n * width == n;
    } else if width == 2 {
      assert n * width == 2 * n;
    } else if width == 4 {
      assert n * width == 4 * n;
    } else {
      assert n * width == 8 * n;
    }
  }

  /** The buffer of a channel that a value is written to. */
  function BufferOf(c: Config, v: Value): seq<byte> {
    CursorWrite(Zeros(c.elements * c.width), 0, Payload(c, v))
  }

  // ------------------------------------------------------------ channels that are created raw

  function Reversed(s: seq<byte>): (r: seq<byte>)
    ensures |r| == |s|
  {
    if s == [] then [] else Reversed(s[1..]) + [s[0]]
  }

  /** Every whole chunk is reversed; the bytes that fill no chunk are left out. */
  function Flipped(s: seq<byte>, width: nat): (r: seq<byte>)
    requires width > 0
    ensures |r| <= |s|
  {
    if |s| < width then [] else Reversed(s[..width]) + Flipped(s[width..], width)
  }

  lemma {:induction false} FlippedJoins(a: seq<byte>, b: seq<byte>, width: nat, k: nat)
    requires width > 0 && |b| == width && |a| == k * width
    ensures Flipped(a + b, width) == Flipped(a, width) + Reversed(b)
    decreases k
  {
    if k == 0 {
      assert a + b == b && b[..width] == b && b[width..] == [];
    } else {
      assert |a| == (k - 1) * width + width;
      FlippedJoins(a[width..], b, width, k - 1);
      assert (a + b)[..width] == a[..width] && (a + b)[width..] == a[width..] + b;
    }
  }

  lemma {:induction false} ReversedWord(n: nat, width: nat)
    ensures Reversed(Le(n, width)) == Be(n, width)
  {
    if width > 0 {
      ReversedWord(n / 256, width - 1);
      assert Le(n, width)[1..] == Le(n / 256, width - 1);
    }
  }

  lemma {:induction false} ReversedEnd(s: seq<byte>, b: byte)
    ensures Reversed(s + [b]) == [b] + Reversed(s)
  {
    if s != [] {
      ReversedEnd(s[1..], b);
      assert (s + [b])[1..] == s[1..] + [b];
    }
  }

  lemma {:induction false} ReversedBack(s: seq<byte>)
    ensures Reversed(Reversed(s)) == s
  {
    if s != [] {
      ReversedEnd(Reversed(s[1..]), s[0]);
      ReversedBack(s[1..]);
    }
  }

  /** Flipping turns the words of one byte order into those of the other. */
  lemma {:induction false} FlippedWords(ns: seq<nat>, width: nat, little: bool)
    requires width in {1, 2, 4, 8}
    ensures Flipped(Words(ns, width, little), width) == Words(ns, width, !little)
  {
    hide Reversed, Le, Be;
    if ns != [] {
      var front, n := ns[..|ns| - 1], ns[|ns| - 1];
      FlippedWords(front, width, little);
      WordsLength(front, width, little);
      FlippedJoins(Words(front, width, little), Word(n, width, little), width, |front|);
      ReversedWord(n, width);
      ReversedBack(Le(n, width));
    }
  }

  /** The bytes of a value in memory; the machine is little-endian. */
  function Native(c: Config, v: Value): seq<byte> {
    match v
    case Number(n) => Word(n, c.width, true)
    case Numbers(ns) => Words(ns, c.width, true)
    case Characters(bytes) => bytes
  }

  function RawPayload(c: Config, bytes: seq<byte>): seq<byte> {
    if c.little || c.width <= 1 then bytes else Flipped(bytes, c.width)
  }

  /** A raw channel writes a value as the bytes that a typed channel writes. */
  lemma RawWritesSame(c: Config, v: Value)
    requires ValidConfig(c) && Matches(c, v) && c.kind != Text
    ensures RawPayload(c, Native(c, v)) == Payload(c, v)
  {
    hide Words, Flipped;
    match v {
      case Number(n) =>
        OneWord(n, c.width);
        FlippedWords([n], c.width, true);
        ByteWord(n, c.width);
      case Numbers(ns) =>
        FlippedWords(ns, c.width, true);
        if c.width == 1 {
          ByteWords(ns);
        }
      case Characters(_) =>
    }
  }

  lemma OneWord(n: nat, width: nat)
    ensures Words([n], width, true) == Word(n, width, true) && Words([n], width, false) == Word(n, width, false)
  {
    assert [n][..0] == [];
    assert Words([], width, true) == [] && Words([], width, false) == [];
  }

  lemma ByteWord(n: nat, width: nat)
    ensures width == 1 ==> Le(n, width) == Be(n, width)
  {
    if width == 1 {
      assert Le(n / 256, 0) == [] && Be(n / 256, 0) == [];
    }
  }

  lemma {:induction false} ByteWords(ns: seq<nat>)
    ensures Words(ns, 1, true) == Words(ns, 1, false)
  {
    if ns != [] {
      ByteWords(ns[..|ns| - 1]);
      ByteWord(ns[|ns| - 1], 1);
    }
  }

  /** ChannelRaw::write. */
  method WriteRaw(c: Config, bytes: seq<byte>) returns (buf: seq<byte>)
    requires ValidConfig(c)
    ensures buf == CursorWrite(Zeros(c.elements * c.width), 0, RawPayload(c, bytes))
  {
    hide CursorWrite, Reversed;
    var out := bytes;
    if !c.little && c.width > 1 {
      out := [];
      var pos := 0;
      assert bytes[0..] == bytes;
      while pos + c.width <= |bytes|
        invariant pos <= |bytes| && out + Flipped(bytes[pos..], c.width) == Flipped(bytes, c.width)
        decreases |bytes| - pos
      {
        var rest := bytes[pos..];
        assert rest[..c.width] == bytes[pos..pos + c.width] && rest[c.width..] == bytes[pos + c.width..];
        out := out + Reversed(bytes[pos..pos + c.width]);
        pos := pos + c.width;
      }
      assert out + Flipped(bytes[pos..], c.width) == out;
    }
    buf := CursorWrite(Zeros(c.elements * c.width), 0, out);
  }

  /** ChannelRaw::read asks for elements * elements bytes, whatever the width; the reader flips whole chunks. */
  function RawRead(c: Config, data: seq<byte>): Result<seq<byte>> {
    var size := c.elements * c.elements;
    if |data| < size then Err(UNEXPECTED_EOF)
    else if c.little || c.width <= 1 then Ok(data[..size])
    else
      var flipped := Flipped(data[..size], c.width);
      Ok(flipped + data[|flipped|..size])
  }

  /**
   A raw channel reads back the bytes of the value that was written exactly when it has as many elements as an element
   has bytes, or none.
   */
  lemma RawReadBackExactly(crates: Crates, c: Config, v: Value)
    requires ValidConfig(c) && FitsValue(crates, c, v)
    requires c.kind == Array || (c.kind == Kind.Scalar && c.elements == 1)
    ensures RawRead(c, BufferOf(c, v)) == Ok(Native(c, v)) <==> c.elements == c.width || c.elements == 0
  {
    hide Words, Flipped, FitsNumber;
    PayloadSize(crates, c, v);
    var size := c.elements * c.elements;
    assert BufferOf(c, v) == Payload(c, v) by { Overwritten(Payload(c, v)); }
    if c.elements == c.width || c.elements == 0 {
      assert size == c.elements * c.width;
      assert Payload(c, v)[..size] == Payload(c, v);
      FlippedPayload(c, v);
      assert Native(c, v) + Payload(c, v)[size..size] == Native(c, v);
    } else {
      SquareDiffers(c.elements, c.width);
      if |Payload(c, v)| >= size {
        assert |RawRead(c, BufferOf(c, v)).value| == size;
      }
    }
  }

  lemma SquareDiffers(n: nat, width: nat)
    requires n != width && n > 0
    ensures n * n != n * width
  {
    if n < width {
      assert n * width == n * n + n * (width - n);
    } else {
      assert n * n == n * width + n * (n - width);
    }
  }

  lemma Overwritten(s: seq<byte>)
    ensures CursorWrite(Zeros(|s|), 0, s) == s
  {
  }

  lemma PayloadSize(crates: Crates, c: Config, v: Value)
    requires ValidConfig(c) && FitsValue(crates, c, v)
    requires c.kind == Array || (c.kind == Kind.Scalar && c.elements == 1)
    ensures Matches(c, v) && |Payload(c, v)| == |Native(c, v)| == c.elements * c.width
  {
    hide Words, FitsNumber;
    if c.kind == Array {
      WordsLength(v.ns, c.width, c.little);
      WordsLength(v.ns, c.width, true);
    }
  }

  lemma FlippedPayload(c: Config, v: Value)
    requires ValidConfig(c) && Matches(c, v) && c.kind != Text
    ensures (if c.little || c.width <= 1 then Payload(c, v) else Flipped(Payload(c, v), c.width)) == Native(c, v)
  {
    hide Words, Flipped;
    match v {
      case Number(n) =>
        OneWord(n, c.width);
        FlippedWords([n], c.width, false);
        ByteWord(n, c.width);
      case Numbers(ns) =>
        FlippedWords(ns, c.width, false);
        if c.width == 1 {
          ByteWords(ns);
        }
      case Characters(_) =>
    }
  }

  // ------------------------------------------------------------ the LZ4-only form

  /** A size in four bytes, and as the signed number that these bytes are read back as. */
  function FromSize(s: seq<byte>, little: bool): int {
    var n := FromWord(s, little);
    if n < 0x8000_0000 then n else n - UINT32
  }

  lemma SizeBack(n: nat, little: bool)
    requires n <= LZ4_LIMIT
    ensures FromSize(Word(n, 4, little), little) == n
  {
    Pow256Values();
    WordRoundTrip(n, 4, little);
  }

  lemma SizeWord(n: nat, little: bool, z: seq<byte>)
    ensures WordAt(Word(n, 4, little) + z, 0, n, 4, little) && (Word(n, 4, little) + z)[4..] == z
  {
    hide Word;
    WordIsWord(n, 4, little);
    WordInFront(Word(n, 4, little), Word(n, 4, little) + z, 0, n, 4, little);
  }

  /** compress_lz4. */
  function CompressLz4(crates: Crates, data: seq<byte>, little: bool): (r: Result<seq<byte>>)
    ensures r.Ok? <==> crates.deflate(data).Some?
    ensures r.Ok? ==> WordAt(r.value, 0, |data|, 4, little) && r.value[4..] == crates.deflate(data).value
  {
    SizeWord(|data|, little, if crates.deflate(data).Some? then crates.deflate(data).value else []);
    match crates.deflate(data)
    case None => Err(COMPRESSION_FAILED)
    case Some(z) => Ok(Word(|data|, 4, little) + z)
  }

  /** decompress_lz4. */
  function DecompressLz4(crates: Crates, data: seq<byte>, little: bool): Result<seq<byte>> {
    if |data| < 4 then Panic
    else
      match crates.inflate(data[4..], FromSize(data[..4], little))
      case None => Err(COMPRESSION_FAILED)
      case Some(s) => Ok(s)
  }

  /** The size that is read is the signed number of the first four bytes, in the byte order of the channel. */
  lemma SizeRead(crates: Crates, data: seq<byte>, n: nat, little: bool)
    requires WordAt(data, 0, n, 4, little) && n < UINT32
    ensures DecompressLz4(crates, data, little) ==
      match crates.inflate(data[4..], if n < 0x8000_0000 then n else n - 0x1_0000_0000)
      case None => Err(COMPRESSION_FAILED)
      case Some(s) => Ok(s)
  {
    hide Pow256;
    var m := FromWord(data[..4], little);
    assert data[0..0 + 4] == data[..4];
    FromLeIsWord(data[..4]);
    FromBeIsWord(data[..4]);
    WordInside(data, 0, m, 4, little);
    Pow256Values();
    WordUnique(data, 0, n, m, 4, little);
  }

  lemma Lz4Back(crates: Crates, data: seq<byte>, little: bool)
    requires Trusted(crates) && CompressLz4(crates, data, little).Ok?
    ensures DecompressLz4(crates, CompressLz4(crates, data, little).value, little) == Ok(data)
  {
    hide Word, FromSize;
    var head, z := Word(|data|, 4, little), crates.deflate(data).value;
    SizeBack(|data|, little);
    assert (head + z)[..4] == head && (head + z)[4..] == z;
  }

  // ------------------------------------------------------------ message parts

  /** `data` is a form of `buf` that a reader of the channel can restore. */
  ghost predicate Carries(crates: Crates, c: Config, buf: seq<byte>, data: seq<byte>) {
    match c.compression
    case Plain => data == buf
    case BitshuffleLz4 =>
      c.width in {1, 2, 4, 8} && |buf| < UINT64 && |buf| % c.width == 0 && IsFrame(buf, data, c.width)
    case Lz4 => DecompressLz4(crates, data, c.little) == Ok(buf)
  }

  /** The buffer that a channel of either kind writes. */
  method Written(crates: Crates, c: Config, v: Value, asRaw: bool) returns (buf: seq<byte>)
    requires ValidConfig(c) && FitsValue(crates, c, v)
    ensures buf == BufferOf(c, v)
  {
    hide CursorWrite, Payload, FitsNumber, RawPayload, Native, CanRead;
    BufferShape(crates, c, v);
    if asRaw && c.kind != Text {
      buf := WriteRaw(c, Native(c, v));
      RawWritesSame(c, v);
    } else {
      var w := WriteValue(c, v);
      buf := w.value;
    }
  }

  /**
   serialize_channel: the data part and the timestamp part, whether the channel was created raw or not; strings have
   no raw channels. Only the LZ4 of the other crate can refuse the buffer.
   */
  method Serialize(host: Host, crates: Crates, c: Config, d: ChannelData, asRaw: bool)
      returns (r: Result<(seq<byte>, seq<byte>)>)
    requires Trusted(crates) && ValidConfig(c) && FitsValue(crates, c, d.value)
    ensures r.Ok? ==>
      && Carries(crates, c, BufferOf(c, d.value), r.value.0)
      && r.value.1 == Le(d.seconds, 8) + Le(d.nanos, 8)
    ensures IsBuffer(c, d.value, BufferOf(c, d.value))
    ensures r.Ok? ==>
      |r.value.1| == 16 && WordAt(r.value.1, 0, d.seconds, 8, true) && WordAt(r.value.1, 8, d.nanos, 8, true)
    ensures !r.Ok? <==> c.compression == Lz4 && crates.deflate(BufferOf(c, d.value)).None?
    ensures !r.Ok? ==> r == Err(COMPRESSION_FAILED)
  {
    hide IsFrame, CursorWrite, Payload, FitsNumber, Le, DecompressLz4, Trusted, Framable, Word, CanRead;
    hide IsBuffer, WordAt;
    BufferShape(crates, c, d.value);
    WrittenIsBuffer(c, d.value);
    TwoWords(d.seconds, d.nanos);
    var buf := Written(crates, c, d.value, asRaw);
    var data := buf;
    match c.compression {
      case Plain =>
      case BitshuffleLz4 =>
        Frames(|buf|, c.width);
        var f := Framing.Compress(host, buf, c.width);
        if !f.Ok? {
          return f.Failure();
        }
        data := f.value;
      case Lz4 =>
        var f := CompressLz4(crates, buf, c.little);
        if !f.Ok? {
          return f.Failure();
        }
        Lz4Back(crates, buf, c.little);
        data := f.value;
    }
    r := Ok((data, Le(d.seconds, 8) + Le(d.nanos, 8)));
  }

  lemma TwoWords(a: nat, b: nat)
    ensures WordAt(Le(a, 8) + Le(b, 8), 0, a, 8, true) && WordAt(Le(a, 8) + Le(b, 8), 8, b, 8, true)
  {
    hide Le, WordAt;
    var s := Le(a, 8) + Le(b, 8);
    LeIsWord(a, 8);
    LeIsWord(b, 8);
    assert s[0..0 + 8] == Le(a, 8) && s[8..8 + 8] == Le(b, 8);
    WordInside(s, 0, a, 8, true);
    WordInside(s, 8, b, 8, true);
  }

  lemma Frames(n: nat, width: nat)
    requires width in {1, 2, 4, 8} && n < UINT64
    ensures Framable(n / width, width)
  {
    WholeFits(n, width);
    SmallElementsFit(n / width, width);
  }

  /** The timestamp of a channel: its own if the part has sixteen bytes, otherwise that of the message. */
  function Timestamp(time: seq<byte>, seconds: nat, nanos: nat): (nat, nat) {
    if |time| == 16 then (FromLe(time[..8]), FromLe(time[8..])) else (seconds, nanos)
  }

  /** The timestamp is the two numbers of the part, and that of the message only where the part has another length. */
  ghost predicate IsStamp(time: seq<byte>, seconds: nat, nanos: nat, stamp: (nat, nat)) {
    if |time| == 16 then
      && stamp.0 < UINT64 && stamp.1 < UINT64
      && WordAt(time, 0, stamp.0, 8, true) && WordAt(time, 8, stamp.1, 8, true)
    else stamp == (seconds, nanos)
  }

  lemma TimestampIsStamp(time: seq<byte>, seconds: nat, nanos: nat)
    ensures IsStamp(time, seconds, nanos, Timestamp(time, seconds, nanos))
  {
    hide FromLe, WordAt, Pow256;
    if |time| == 16 {
      FromLeIsWord(time[..8]);
      FromLeIsWord(time[8..]);
      Pow256Values();
      assert time[0..0 + 8] == time[..8] && time[8..8 + 8] == time[8..];
      WordInside(time, 0, FromLe(time[..8]), 8, true);
      WordInside(time, 8, FromLe(time[8..]), 8, true);
    }
  }

  lemma TimestampBack(s: nat, n: nat, seconds: nat, nanos: nat)
    requires s < UINT64 && n < UINT64
    ensures Timestamp(Le(s, 8) + Le(n, 8), seconds, nanos) == (s, n)
  {
    hide Le, FromLe;
    var time := Le(s, 8) + Le(n, 8);
    assert time[..8] == Le(s, 8) && time[8..] == Le(n, 8);
    Pow256Values();
    FromLeOfLe(s, 8);
    FromLeOfLe(n, 8);
  }

  /** A data part that is bit-shuffled is the frame of `buf`, unless its header cannot be used at all. */
  ghost predicate Sent(c: Config, data: seq<byte>, buf: seq<byte>) {
    c.compression == BitshuffleLz4 ==>
      && c.width in {1, 2, 4, 8}
      && (GoodHeader(data, c.width) ==> |buf| < UINT64 && |buf| % c.width == 0 && IsFrame(buf, data, c.width))
  }

  /** What decompression makes of a data part. */
  ghost function Unpacked(crates: Crates, c: Config, data: seq<byte>, buf: seq<byte>): Result<seq<byte>>
    requires Sent(c, data, buf)
  {
    match c.compression
    case Plain => Ok(data)
    case BitshuffleLz4 =>
      if |data| < HEADER then Panic
      else if BadBlockSize(data, c.width) then Err(BlockedDriver.BAD_BLOCK_SIZE)
      else Ok(buf)
    case Lz4 => DecompressLz4(crates, data, c.little)
  }

  lemma CarriedIsSent(crates: Crates, c: Config, buf: seq<byte>, data: seq<byte>)
    requires Carries(crates, c, buf, data)
    ensures Sent(c, data, buf) && Unpacked(crates, c, data, buf) == Ok(buf)
  {
    hide IsFrame, DecompressLz4, Framable, BadBlockSize;
    if c.compression == BitshuffleLz4 {
      Frames(|buf|, c.width);
      FramesAreGood(buf, data, c.width);
    }
  }

  /** The decompression of parse_channel_data. */
  method Unpack(host: Host, crates: Crates, c: Config, data: seq<byte>, ghost buf: seq<byte>)
      returns (r: Result<seq<byte>>)
    requires Sent(c, data, buf)
    ensures r == Unpacked(crates, c, data, buf)
  {
    hide IsFrame, DecompressLz4, Framable, BadBlockSize;
    match c.compression {
      case Plain => r := Ok(data);
      case BitshuffleLz4 =>
        if GoodHeader(data, c.width) {
          Frames(|buf|, c.width);
          WholeFits(|buf|, c.width);
          assert Framing.Whole(buf, c.width) == buf;
        }
        r := Framing.Decompress(host, data, c.width, buf);
      case Lz4 => r := DecompressLz4(crates, data, c.little);
    }
  }

  /**
   parse_channel_data: a data part that cannot be decompressed is an error, or a panic if it is too short for its
   header; a value that cannot be read is a panic.
   */
  method Parse(host: Host, crates: Crates, c: Config, data: seq<byte>, time: seq<byte>, seconds: nat, nanos: nat,
               raw: bool, ghost buf: seq<byte>)
      returns (r: Result<ChannelData>)
    requires Sent(c, data, buf)
    ensures var u := Unpacked(crates, c, data, buf);
      && (u.Panic? ==> r == Panic) && (u.Err? ==> r == Err(DECOMPRESSION_FAILED))
      && (u.Ok? ==>
            && (r.Panic? <==> !raw && !CanRead(crates, c, u.value))
            && (!r.Panic? ==> r.Ok? && (r.value.seconds, r.value.nanos) == Timestamp(time, seconds, nanos))
            && (r.Ok? ==> if raw then r.value.value == Numbers(u.value) else Reads(c, u.value, r.value.value))
            && (r.Ok? && !raw ==> StandsIn(c, u.value, r.value.value)))
    ensures r.Ok? ==> IsStamp(time, seconds, nanos, (r.value.seconds, r.value.nanos))
  {
    hide Sent, Unpacked, Reads, CanRead, Timestamp, IsStamp, StandsIn;
    TimestampIsStamp(time, seconds, nanos);
    var stamp := Timestamp(time, seconds, nanos);
    var plain := Unpack(host, crates, c, data, buf);
    if plain.Err? {
      return Err(DECOMPRESSION_FAILED);
    }
    if plain.Panic? {
      return Panic;
    }
    if raw {
      return Ok(ChannelData(Numbers(plain.value), stamp.0, stamp.1));
    }
    var v := ReadValue(crates, c, plain.value);
    if !v.Ok? {
      return Panic;
    }
    r := Ok(ChannelData(v.value, stamp.0, stamp.1));
  }

  /**
   A channel that one host sends is what another host receives, for every channel type, created raw or not, both byte
   orders, every compression; a raw reader receives the bytes that were written. Nothing is sent only where LZ4 refuses
   the buffer.
   */
  method RoundTrip(sender: Host, receiver: Host, crates: Crates, c: Config, d: ChannelData, seconds: nat, nanos: nat,
                   asRaw: bool, raw: bool)
      returns (received: Result<ChannelData>)
    requires Trusted(crates) && ValidConfig(c) && FitsValue(crates, c, d.value)
    requires d.seconds < UINT64 && d.nanos < UINT64
    ensures var buf := BufferOf(c, d.value);
      received ==
        if c.compression == Lz4 && crates.deflate(buf).None? then Err(COMPRESSION_FAILED)
        else if raw then Ok(ChannelData(Numbers(buf), d.seconds, d.nanos))
        else Ok(d)
  {
    hide Carries, Sent, Unpacked, FitsValue, Reads, CanRead, Timestamp, Le, Trusted, ValidConfig, CursorWrite, Payload;
    var parts := Serialize(sender, crates, c, d, asRaw);
    if !parts.Ok? {
      return parts.Failure();
    }
    BufferShape(crates, c, d.value);
    TimestampBack(d.seconds, d.nanos, seconds, nanos);
    CarriedIsSent(crates, c, BufferOf(c, d.value), parts.value.0);
    received := Parse(receiver, crates, c, parts.value.0, parts.value.1, seconds, nanos, raw, BufferOf(c, d.value));
    if !raw {
      ReadBack(crates, c, d.value, received.value.value, BufferOf(c, d.value));
    }
  }
}
