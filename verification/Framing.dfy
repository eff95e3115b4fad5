/** The framed form of compression.rs: a 12-byte big-endian header before the compressed blocks. */
module Framing {
  import opened Basics
  import opened Bytes
  import opened ByteOrder
  import opened BlockCodec
  import opened BlockedDriver
  import opened ByteTranspose
  import opened BitshuffleLz4
  import Lz4Format

  datatype Result<T> = Ok(value: T) | Err(code: int) | Panic {
    /** The outcome of a caller that hands a failure on. */
    function Failure<U>(): Result<U> {
      match this case Ok(_) => Panic case Err(c) => Err(c) case Panic => Panic
    }
  }

  const HEADER := 12
  const UINT64 := 0x1_0000_0000_0000_0000

  /** The block size that the writer chooses. */
  function BlockSize(es: nat): nat
    requires es > 0
  {
    var target, minimum, multiplier := 8192, 128, 8;
    var fit := target / es / multiplier * multiplier;
    if fit > minimum then fit else minimum
  }

  /** The writer chooses what the C library takes when it is asked for its default. */
  lemma BlockSizeIsDefault(es: nat)
    requires es > 0
    ensures BlockSize(es) == DefaultBlockSize(es) == Effective(BlockSize(es), es) == Effective(0, es)
    ensures BlockSize(es) % BLOCKED_MULT == 0
  {
    DefaultIsLargest(es);
  }

  /** The whole elements of a buffer. */
  function Whole(data: seq<byte>, es: nat): (r: seq<byte>)
    requires es > 0
    ensures |r| == |data| / es * es
  {
    WholeFits(|data|, es);
    data[..|data| / es * es]
  }

  lemma WholeOf(data: seq<byte>, es: nat)
    requires es > 0
    ensures |data| / es * es <= |data| && Whole(data, es) == data[..|data| / es * es]
  {
    WholeFits(|data|, es);
  }

  lemma WholeFits(n: nat, es: nat)
    requires es > 0
    ensures n / es * es <= n
    ensures n / es * es == n <==> n % es == 0
  {
    assert n == n / es * es + n % es;
  }

  /** LZ4 accepts the blocks of n elements, and the sizes fit the fields of the header. */
  ghost predicate Framable(n: nat, es: nat)
    requires es > 0
  {
    && Restorable(CompressLz4, n, es, BlockSize(es))
    && n * es < UINT64 && BlockSize(es) * es < UINT32
  }

  /** The header, then the stored form of n whole elements. */
  ghost predicate FramedAs(whole: seq<byte>, frame: seq<byte>, n: nat, es: nat, bs: nat) {
    && HEADER <= |frame|
    && frame[..8] == Be(n * es, 8) && frame[8..12] == Be(bs * es, 4)
    && bs > 0 && bs % BLOCKED_MULT == 0 && IsStored(CompressLz4, whole, frame[12..], n, es, bs)
  }

  ghost predicate IsFrame(data: seq<byte>, frame: seq<byte>, es: nat)
    requires es > 0
  {
    FramedAs(Whole(data, es), frame, |data| / es, es, BlockSize(es))
  }

  /** The 12 header bytes. */
  method Header(bytes: nat, blockBytes: nat) returns (head: seq<byte>)
    ensures |head| == HEADER && head[..8] == Be(bytes, 8) && head[8..] == Be(blockBytes, 4)
  {
    hide Be;
    var buf := new byte[HEADER];
    Write(buf, 0, bytes, 8);
    ghost var first := buf[..];
    assert first[..8] == Be(bytes, 8);
    Write(buf, 8, blockBytes, 4);
    assert buf[..8] == first[..8];
    head := buf[..];
  }

  lemma HeaderWords(frame: seq<byte>, bytes: nat, blockBytes: nat)
    requires |frame| >= HEADER && frame[..8] == Be(bytes, 8) && frame[8..12] == Be(blockBytes, 4)
    ensures WordAt(frame, 0, bytes, 8, false) && WordAt(frame, 8, blockBytes, 4, false)
  {
    hide Be, WordAt;
    BeIsWord(bytes, 8);
    BeIsWord(blockBytes, 4);
    WordInside(frame, 0, bytes, 8, false);
    WordInside(frame, 8, blockBytes, 4, false);
  }

  lemma Assembled(whole: seq<byte>, head: seq<byte>, stored: seq<byte>, n: nat, es: nat, bs: nat)
    requires |head| == HEADER && head[..8] == Be(n * es, 8) && head[8..] == Be(bs * es, 4)
    requires bs > 0 && bs % BLOCKED_MULT == 0 && IsStored(CompressLz4, whole, stored, n, es, bs)
    ensures FramedAs(whole, head + stored, n, es, bs)
  {
    hide IsStored, Be;
    var frame := head + stored;
    assert frame[..8] == head[..8] && frame[8..12] == head[8..] && frame[12..] == stored;
  }

  lemma RoomIsBound(n: nat, es: nat, bs: nat)
    requires bs > 0
    ensures MostStored(CompressLz4, n, es, bs) == Capacity(CompressLz4, Plan(n, bs), es) + Leftover(n, es)
  {
  }

  /** bshuf_trans_bit_elem of compression.rs. The casts of the header fields keep their low bytes. */
  method Compress(host: Host, input: seq<byte>, es: nat) returns (r: Result<seq<byte>>)
    requires es > 0
    ensures r.Ok? && IsFrame(input, r.value, es)
    ensures WordAt(r.value, 0, |Whole(input, es)|, 8, false)
    ensures WordAt(r.value, 8, DefaultBlockSize(es) * es, 4, false)
  {
    hide IsStored, FramedAs, Be, WordAt, DefaultBlockSize, BlockSize, Effective, Whole, Capacity, Plan, Leftover;
    hide MostStored;
    var bs := BlockSize(es);
    BlockSizeIsDefault(es);
    var n := |input| / es;
    var bound := CompressLz4Bound(n, es, bs);
    var output := new byte[bound];
    RoomIsBound(n, es, bs);
    var ret := Store(CompressLz4, host, Whole(input, es), output, n, es, bs);
    if ret < 0 {
      return Err(ret);
    }
    var head := Header(n * es, bs * es);
    Assembled(Whole(input, es), head, output[..ret], n, es, bs);
    r := Ok(head + output[..ret]);
    HeaderWords(r.value, n * es, bs * es);
  }

  /** The two numbers of the header, as the reader takes them apart. */
  lemma HeaderFields(data: seq<byte>, frame: seq<byte>, es: nat)
    requires es > 0 && Framable(|data| / es, es) && IsFrame(data, frame, es)
    ensures FromBe(frame[0..8]) == |data| / es * es && FromBe(frame[0..8]) / es == |data| / es
    ensures FromBe(frame[8..12]) == BlockSize(es) * es && FromBe(frame[8..12]) / es == BlockSize(es)
  {
    hide IsStored, Be, FromBe, Restorable, BlockSize, Whole;
    Pow256Values();
    FromBeOfBe(|data| / es * es, 8);
    FromBeOfBe(BlockSize(es) * es, 4);
    assert frame[0..8] == frame[..8];
    DivExact(|data| / es, es);
    DivExact(BlockSize(es), es);
  }

  /** How many elements have that many bytes. */
  function PerElement(n: nat, es: nat): (r: nat)
    requires es > 0
    ensures r * es <= n
  {
    WholeFits(n, es);
    n / es
  }

  /** The block size that a header leads to is no multiple of eight. */
  predicate BadBlockSize(frame: seq<byte>, es: nat)
    requires es > 0 && HEADER <= |frame|
  {
    Effective(PerElement(FromBe(frame[8..12]), es), es) % BLOCKED_MULT != 0
  }

  /** The header can be read, and asks for blocks. */
  predicate GoodHeader(frame: seq<byte>, es: nat)
    requires es > 0
  {
    HEADER <= |frame| && !BadBlockSize(frame, es)
  }

  lemma FramesAreGood(data: seq<byte>, frame: seq<byte>, es: nat)
    requires es > 0 && Framable(|data| / es, es) && IsFrame(data, frame, es)
    ensures GoodHeader(frame, es)
  {
    hide FromBe, Framable, Effective, IsStored;
    HeaderFields(data, frame, es);
    BlockSizeIsDefault(es);
  }

  /** A frame whose header can be used is that of `data`. */
  ghost predicate Trusted(data: seq<byte>, frame: seq<byte>, es: nat)
    requires es > 0
  {
    GoodHeader(frame, es) ==> Framable(|data| / es, es) && IsFrame(data, frame, es)
  }

  /**
   bshuf_untrans_bit_elem of compression.rs: a panic on a short header, an error on a bad block size, and otherwise,
   on what the writer framed, the whole elements; `data` is what was written.
   */
  method Decompress(host: Host, frame: seq<byte>, es: nat, ghost data: seq<byte>) returns (r: Result<seq<byte>>)
    requires 0 < es < UINT32
    requires Trusted(data, frame, es)
    ensures |frame| < HEADER ==> r == Panic
    ensures |frame| >= HEADER && BadBlockSize(frame, es) ==> r == Err(BAD_BLOCK_SIZE)
    ensures GoodHeader(frame, es) ==> r == Ok(Whole(data, es))
  {
    if |frame| < HEADER {
      return Panic;
    }
    var sizeOut, elements, bs := HeaderNumbers(frame, es, data);
    r := Restored(host, frame, es, sizeOut, elements, bs, data);
  }

  /** The size, the number of elements and the block size, as the reader takes them from the header. */
  method HeaderNumbers(frame: seq<byte>, es: nat, ghost data: seq<byte>)
      returns (sizeOut: nat, elements: nat, bs: nat)
    requires 0 < es && HEADER <= |frame|
    requires Trusted(data, frame, es)
    ensures elements * es <= sizeOut
    ensures BadBlockSize(frame, es) <==> Effective(bs, es) % BLOCKED_MULT != 0
    ensures GoodHeader(frame, es) ==> Announces(data, frame, es, sizeOut, elements, bs)
  {
    hide IsStored, FromBe, Effective, Whole, PerElement, Announces, Framable, IsFrame;
    if GoodHeader(frame, es) {
      FrameAnnounces(data, frame, es);
    }
    sizeOut := Read(frame, 0, 8);
    elements := PerElement(sizeOut, es);
    var blockBytes := Read(frame, 8, 4);
    bs := PerElement(blockBytes, es);
  }

  lemma FrameAnnounces(data: seq<byte>, frame: seq<byte>, es: nat)
    requires es > 0 && Framable(|data| / es, es) && IsFrame(data, frame, es)
    ensures HEADER <= |frame|
    ensures var sizeOut, blockBytes := FromBe(frame[0..8]), FromBe(frame[8..12]);
      Announces(data, frame, es, sizeOut, PerElement(sizeOut, es), PerElement(blockBytes, es))
  {
    hide IsStored, FromBe, Restorable, BlockSize, Effective, Whole;
    HeaderFields(data, frame, es);
    BlockSizeIsDefault(es);
  }

  /** The numbers are those of what was written. */
  ghost predicate Announces(data: seq<byte>, frame: seq<byte>, es: nat, sizeOut: nat, elements: nat, bs: nat)
    requires es > 0
  {
    && sizeOut == elements * es && HEADER <= |frame|
    && Restorable(CompressLz4, elements, es, Effective(bs, es))
    && Effective(bs, es) % BLOCKED_MULT == 0
    && IsStored(CompressLz4, Whole(data, es), frame[12..], elements, es, Effective(bs, es))
  }

  method Restored(host: Host, frame: seq<byte>, es: nat, sizeOut: nat, elements: nat, bs: nat, ghost data: seq<byte>)
      returns (r: Result<seq<byte>>)
    requires 0 < es && HEADER <= |frame| && elements * es <= sizeOut
    requires Effective(bs, es) % BLOCKED_MULT == 0 ==> Announces(data, frame, es, sizeOut, elements, bs)
    ensures Effective(bs, es) % BLOCKED_MULT != 0 ==> r == Err(BAD_BLOCK_SIZE)
    ensures Effective(bs, es) % BLOCKED_MULT == 0 ==> r == Ok(Whole(data, es))
  {
    hide IsStored, Restorable, Effective, Whole;
    var output := new byte[sizeOut];
    ghost var whole := if Effective(bs, es) % BLOCKED_MULT == 0 then Whole(data, es) else [];
    var ret := Restore(CompressLz4, host, frame[12..], output, elements, es, bs, whole, frame[12..]);
    if ret < 0 {
      return Err(ret);
    }
    assert elements * es == sizeOut ==> output[..elements * es] == output[..];
    r := Ok(output[..]);
  }

  lemma FramableIsSmall(n: nat, es: nat)
    requires es > 0 && Framable(n, es)
    ensures es < UINT32
  {
    hide Restorable, Plan;
    MulMonotone(1, BlockSize(es), es);
  }

  /**
   A frame that one host writes is read by another as the whole elements of the input: the input itself
   comes back exactly when its length is a multiple of the element size.
   */
  method RoundTrip(writer: Host, reader: Host, data: seq<byte>, es: nat) returns (frame: seq<byte>, restored: seq<byte>)
    requires es > 0 && Framable(|data| / es, es)
    ensures restored == data[..|data| / es * es] && (restored == data <==> |data| % es == 0)
  {
    hide Restorable, IsFrame, Framable, GoodHeader, Whole;
    WholeFits(|data|, es);
    FramableIsSmall(|data| / es, es);
    WholeOf(data, es);
    var c := Compress(writer, data, es);
    frame := c.value;
    FramesAreGood(data, frame, es);
    var d := Decompress(reader, frame, es, data);
    restored := d.value;
  }

  /** Elements of at most 64 KiB can always be framed. */
  lemma SmallElementsFit(n: nat, es: nat)
    requires 0 < es <= 0x1_0000 && n * es < UINT64
    ensures Framable(n, es)
  {
    hide Plan, BlockSize;
    var bs := BlockSize(es);
    BlockSizeIsDefault(es);
    DefaultIsLargest(es);
    if bs > MIN_RECOMMENDED {
    } else {
      MulMonotone(bs, MIN_RECOMMENDED, es);
    }
    PlanFits(n, bs, es, Lz4Format.MAX_INPUT_SIZE);
  }
}
