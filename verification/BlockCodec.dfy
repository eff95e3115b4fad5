/** One block: bit transpose, LZ4 and the 4-byte header, behind the io chain. */
module BlockCodec {
  import opened Bytes
  import opened Lz4Format
  import opened ByteTranspose
  import opened BitTranspose
  import opened BitMatrix
  import opened ByteOrder
  import opened ChainSerial
  import SseBitTranspose
  import Lz4Compress
  import Lz4Decompress
  import Lz4RoundTrip

  /** The instruction set that the transposes were compiled for. */
  datatype Host = Scalar | Sse2

  /** The block functions that the blocked driver is called with. */
  datatype Worker = Bitshuffle | Bitunshuffle | CompressLz4 | DecompressLz4

  // ------------------------------------------------------------ what a worker does

  const INT_MAX := 0x7FFF_FFFF
  const UINT32 := 0x1_0000_0000

  /** A size passed as `int`, and looked at as unsigned: the value modulo 2^32. */
  function Narrow(n: nat): (r: nat)
    ensures r <= n && (n < UINT32 ==> r == n)
    ensures r < 0x1_0000_0000 && (n - r) % 0x1_0000_0000 == 0
  {
    n % UINT32
  }

  /** LZ4_compressBound: zero for sizes that LZ4 does not accept. */
  function Lz4Bound(n: nat): nat {
    var m := Narrow(n);
    if m <= MAX_INPUT_SIZE then CompressBound(m) else 0
  }

  /** A block as stored: the length of the LZ4 block, then the block. */
  function Frame(b: Block): seq<byte>
    requires Legal(b.sequences)
  {
    Be(|Encode(b)|, 4) + Encode(b)
  }

  /**
   `frame` holds, as the LZ4 block `b`, the transpose of the n elements `plain`, cut off at the size passed to LZ4.
   */
  ghost predicate PackedAs(plain: seq<byte>, frame: seq<byte>, n: nat, es: nat, b: Block, shuffled: seq<byte>) {
    && WellFormed(b) && |Encode(b)| <= INT_MAX && frame == Frame(b)
    && IsBitTranspose(plain, shuffled, n, es) && Size(b) == Narrow(n * es) && Meaning(b) <= shuffled
  }

  ghost predicate Packed(plain: seq<byte>, frame: seq<byte>, n: nat, es: nat) {
    exists b, shuffled :: PackedAs(plain, frame, n, es, b, shuffled)
  }

  /** A worker turns the bytes `x` of a block of n elements into the bytes `y`. */
  ghost predicate Turns(worker: Worker, x: seq<byte>, y: seq<byte>, n: nat, es: nat) {
    match worker
    case Bitshuffle => IsBitTranspose(x, y, n, es)
    case Bitunshuffle => IsBitTranspose(y, x, n, es)
    case CompressLz4 =>
      if Narrow(n * es) <= MAX_INPUT_SIZE then Packed(x, y, n, es) else |x| == n * es && y == [0, 0, 0, 0]
    case DecompressLz4 => n * es <= INT_MAX && Packed(y, x, n, es)
  }

  /** The stored form of n elements, whatever they are. */
  ghost predicate IsBlock(x: seq<byte>, n: nat, es: nat, b: Block) {
    WellFormed(b) && |Encode(b)| <= INT_MAX && x == Frame(b) && Size(b) == n * es <= INT_MAX
  }

  /** What a worker needs to find at its input position. */
  ghost predicate Readable(worker: Worker, x: seq<byte>, n: nat, es: nat) {
    if worker == DecompressLz4 then exists b :: IsBlock(x, n, es, b) else |x| == n * es
  }

  /** The most a worker writes. */
  function MostOut(worker: Worker, n: nat, es: nat): nat {
    if worker == CompressLz4 then Lz4Bound(n * es) + 4 else n * es
  }

  function Inverse(worker: Worker): Worker {
    match worker
    case Bitshuffle => Bitunshuffle
    case Bitunshuffle => Bitshuffle
    case CompressLz4 => DecompressLz4
    case DecompressLz4 => CompressLz4
  }

  // ------------------------------------------------------------ a worker loses nothing

  lemma FrameDetermines(b: Block, c: Block)
    requires WellFormed(b) && WellFormed(c) && Size(b) == Size(c)
    requires Frame(b) == Frame(c)
    ensures b == c
  {
    hide Encode, Legal, Size, Be;
    assert Frame(b)[4..] == Encode(b) && Frame(c)[4..] == Encode(c);
    Lz4RoundTrip.Unambiguous(b, c, Encode(b));
  }

  lemma WholeTranspose(x: seq<byte>, y: seq<byte>, n: nat, es: nat, b: Block, shuffled: seq<byte>)
    requires PackedAs(x, y, n, es, b, shuffled) && n * es < UINT32
    ensures shuffled == Meaning(b)
  {
    hide Encode, Legal, Size, Frame, BitMoved;
    TransposeLength(x, shuffled, n, es);
  }

  lemma PackedDetermines(x: seq<byte>, x': seq<byte>, y: seq<byte>, n: nat, es: nat)
    requires Packed(x, y, n, es) && Packed(x', y, n, es) && n * es < UINT32
    ensures x == x'
  {
    hide Encode, Legal, Size, Frame, Meaning, IsBitTranspose;
    var b, shuffled :| PackedAs(x, y, n, es, b, shuffled);
    var c, shuffled' :| PackedAs(x', y, n, es, c, shuffled');
    FrameDetermines(b, c);
    WholeTranspose(x, y, n, es, b, shuffled);
    WholeTranspose(x', y, n, es, c, shuffled');
    TransposeInjective(x, x', shuffled, n, es);
  }

  /** Two inputs that a worker turns into the same output are the same input. */
  lemma WorkerInjective(worker: Worker, x: seq<byte>, x': seq<byte>, y: seq<byte>, n: nat, es: nat)
    requires Turns(worker, x, y, n, es) && Turns(worker, x', y, n, es)
    requires worker != DecompressLz4 && (worker == CompressLz4 ==> n * es <= MAX_INPUT_SIZE)
    ensures x == x'
  {
    hide IsBitTranspose, Packed;
    match worker
    case Bitshuffle => TransposeInjective(x, x', y, n, es);
    case Bitunshuffle => TransposeUnique(y, x, x', n, es);
    case CompressLz4 => PackedDetermines(x, x', y, n, es);
  }

  /** What the inverse worker makes of the output of a worker is the original input. */
  lemma WorkerUndone(worker: Worker, x: seq<byte>, y: seq<byte>, z: seq<byte>, n: nat, es: nat)
    requires worker != DecompressLz4 && (worker == CompressLz4 ==> n * es <= MAX_INPUT_SIZE)
    requires Turns(worker, x, y, n, es) && Turns(Inverse(worker), y, z, n, es)
    ensures z == x
  {
    hide IsBitTranspose, Packed;
    WorkerInjective(worker, x, z, y, n, es);
  }

  /**
   Exactly the blocks that LZ4 accepts can be restored: a larger one either turns into four zero bytes, or is cut
   off at its size modulo 2^32. Both ways, some other block turns into the same bytes.
   */
  lemma OversizeIsLost(x: seq<byte>, y: seq<byte>, n: nat, es: nat) returns (x': seq<byte>)
    requires n * es > MAX_INPUT_SIZE && Turns(CompressLz4, x, y, n, es)
    ensures |x'| == n * es == |x| && x' != x && Turns(CompressLz4, x', y, n, es)
  {
    hide IsBitTranspose, Packed;
    if Narrow(n * es) <= MAX_INPUT_SIZE {
      x' := CutOff(x, y, n, es);
    } else {
      x' := x[0 := if x[0] == 0 then 1 else 0];
    }
  }

  /** The last byte of the transpose is not stored. */
  lemma CutOff(x: seq<byte>, y: seq<byte>, n: nat, es: nat) returns (x': seq<byte>)
    requires Narrow(n * es) < n * es && Packed(x, y, n, es)
    ensures |x'| == n * es == |x| && x' != x && Packed(x', y, n, es)
  {
    hide Encode, Legal, Size, Frame, IsBitTranspose, Narrow;
    var b, shuffled :| PackedAs(x, y, n, es, b, shuffled);
    TransposeLength(x, shuffled, n, es);
    TransposedInEights(x, shuffled, n, es);
    var m := n * es - 1;
    var other := shuffled[m := if shuffled[m] == 0 then 1 else 0];
    x' := TransposeOnto(other, n, es);
    TransposeLength(x', other, n, es);
    if x' == x {
      TransposeUnique(x, shuffled, other, n, es);
    }
    PrefixKept(Meaning(b), shuffled, other, m);
    assert PackedAs(x', y, n, es, b, other);
  }

  lemma TransposedInEights(x: seq<byte>, y: seq<byte>, n: nat, es: nat)
    requires IsBitTranspose(x, y, n, es)
    ensures n % 8 == 0
  {
    hide BitMoved;
  }

  lemma PrefixKept(a: seq<byte>, s: seq<byte>, t: seq<byte>, m: nat)
    requires a <= s && |a| <= m <= |s| == |t| && s[..m] == t[..m]
    ensures a <= t
  {
    assert a == s[..|a|] == s[..m][..|a|];
  }

  /** Whatever a worker writes for a readable input, its inverse can read. */
  lemma OutputReadable(worker: Worker, x: seq<byte>, y: seq<byte>, n: nat, es: nat)
    requires worker != DecompressLz4 && (worker == CompressLz4 ==> n * es <= MAX_INPUT_SIZE)
    requires Turns(worker, x, y, n, es)
    ensures Readable(Inverse(worker), y, n, es)
  {
    hide Encode, Legal, Size, Frame, Meaning, BitMoved;
    match worker
    case Bitshuffle => TransposeLength(x, y, n, es);
    case Bitunshuffle => TransposeLength(y, x, n, es);
    case CompressLz4 =>
      var b, shuffled :| PackedAs(x, y, n, es, b, shuffled);
      assert IsBlock(y, n, es, b);
  }

  // ------------------------------------------------------------ dispatch on the instruction set

  /** bshuf_trans_bit_elem. */
  method TransBitElem(host: Host, inp: seq<byte>, out: array<byte>, n: nat, es: nat) returns (count: int)
    requires |inp| == n * es == out.Length
    modifies out
    ensures n % 8 != 0 ==> count == NOT_MULT_EIGHT && out[..] == old(out[..])
    ensures n % 8 == 0 ==> count == n * es && IsBitTranspose(inp, out[..], n, es)
  {
    match host {
      case Scalar => count := TransBitElemScal(inp, out, n, es);
      case Sse2 => count := SseBitTranspose.TransBitElemSse(inp, out, n, es);
    }
  }

  /** bshuf_untrans_bit_elem. */
  method UntransBitElem(host: Host, inp: seq<byte>, out: array<byte>, n: nat, es: nat) returns (count: int)
    requires |inp| == n * es == out.Length
    modifies out
    ensures n % 8 != 0 ==> count == NOT_MULT_EIGHT && out[..] == old(out[..])
    ensures n % 8 == 0 ==> count == n * es && IsBitTranspose(out[..], inp, n, es)
  {
    match host {
      case Scalar => count := UntransBitElemScal(inp, out, n, es);
      case Sse2 => count := SseBitTranspose.UntransBitElemSse(inp, out, n, es);
    }
  }

  /** The byte kernels of every host give the same bytes, and each undoes every other. */
  method AcrossHosts(writer: Host, reader: Host, other: Host, data: seq<byte>, n: nat, es: nat)
      returns (stored: seq<byte>, restored: seq<byte>, same: seq<byte>)
    requires |data| == n * es && n % 8 == 0
    ensures restored == data && same == stored
  {
    hide IsBitTranspose;
    var out, back, alt := new byte[n * es], new byte[n * es], new byte[n * es];
    var written := TransBitElem(writer, data, out, n, es);
    stored := out[..];
    var read := UntransBitElem(reader, stored, back, n, es);
    restored := back[..];
    var again := TransBitElem(other, data, alt, n, es);
    same := alt[..];
    TransposeInjective(data, restored, stored, n, es);
    TransposeUnique(data, stored, same, n, es);
  }

  // ------------------------------------------------------------ the block functions

  /** memcpy into the output buffer. */
  method CopyTo(out: array<byte>, at: nat, s: seq<byte>)
    requires at + |s| <= out.Length
    modifies out
    ensures out[..] == old(out[..at]) + s + old(out[at + |s|..])
  {
    var i := 0;
    while i < |s|
      invariant i <= |s|
      invariant out[..at] == old(out[..at]) && out[at..at + i] == s[..i] && out[at + i..] == old(out[at + i..])
    {
      ghost var rest := out[at + i..];
      out[at + i] := s[i];
      i := i + 1;
      assert out[at + i..] == rest[1..];
    }
    assert out[..] == out[..at] + out[at..at + i] + out[at + i..];
  }

  /** The chain stands at input position i and output position o. */
  ghost predicate Stands(chain: IocChain, i: nat, o: nat)
    reads chain, chain.inPl, chain.outPl
  {
    chain.Valid() && chain.In() == i && chain.Out() == o
  }

  /** bshuf_bitshuffle_block and bshuf_bitunshuffle_block. */
  method ShuffleBlock(undo: bool, host: Host, chain: IocChain, inp: seq<byte>, out: array<byte>, n: nat, es: nat,
                      ghost i: nat, ghost o: nat)
      returns (count: int, ghost y: seq<byte>)
    requires Stands(chain, i, o) && i + n * es <= |inp| && o + n * es <= out.Length
    modifies chain, chain.inPl, chain.outPl, out
    ensures Stands(chain, i + n * es, o + n * es)
    ensures n % 8 != 0 ==> count == NOT_MULT_EIGHT && out[..] == old(out[..])
    ensures n % 8 == 0 ==>
      && Turns(if undo then Bitunshuffle else Bitshuffle, inp[i..i + n * es], y, n, es) && |y| == n * es == count
      && out[..] == old(out[..o]) + y + old(out[o + n * es..])
  {
    hide IsBitTranspose;
    var iter, ip := chain.GetIn();
    chain.SetNextIn(iter, ip + n * es);
    var op := chain.GetOut(iter);
    chain.SetNextOut(iter, op + n * es);
    var view := new byte[n * es];
    if undo {
      count := UntransBitElem(host, inp[ip..ip + n * es], view, n, es);
    } else {
      count := TransBitElem(host, inp[ip..ip + n * es], view, n, es);
    }
    y := view[..];
    if count == NOT_MULT_EIGHT {
      return;
    }
    CopyTo(out, op, view[..]);
  }

  /** The header and the bytes of a compressed block. */
  method PutFrame(out: array<byte>, at: nat, s: seq<byte>)
    requires at + 4 + |s| <= out.Length
    modifies out
    ensures out[..] == old(out[..at]) + (Be(|s|, 4) + s) + old(out[at + 4 + |s|..])
  {
    hide Be;
    Write(out, at, |s|, 4);
    CopyTo(out, at + 4, s);
  }

  /** The value of an `int` parameter for a size. */
  function AsInt(n: nat): (r: int)
    ensures 0 <= r ==> r == Narrow(n)
    ensures r < 0 || r > MAX_INPUT_SIZE <==> Narrow(n) > MAX_INPUT_SIZE
    ensures -0x8000_0000 <= r < 0x8000_0000 && (n - r) % 0x1_0000_0000 == 0
  {
    var m := Narrow(n);
    if m <= INT_MAX then m else m - UINT32
  }

  /** The work on one block between reading its input position and its output position. */
  method Squeeze(host: Host, x: seq<byte>, n: nat, es: nat) returns (tmp: array<byte>, nbytes: int, ghost y: seq<byte>)
    requires |x| == n * es
    ensures fresh(tmp)
    ensures n % 8 != 0 ==> nbytes == NOT_MULT_EIGHT
    ensures n % 8 == 0 ==>
      && 0 <= nbytes <= tmp.Length && nbytes + 4 <= MostOut(CompressLz4, n, es)
      && y == Be(nbytes, 4) + tmp[..nbytes] && Turns(CompressLz4, x, y, n, es)
  {
    hide IsBitTranspose, WellFormed, Encode, Meaning, CompressBound, Lz4Compress.Maximal, Turns, Be, AsInt, Narrow;
    hide Lz4Compress.AllEqual;
    var shuffled := new byte[n * es];
    tmp := new byte[Lz4Bound(n * es)];
    var count := TransBitElem(host, x, shuffled, n, es);
    if count < 0 {
      return tmp, count, [];
    }
    ghost var b;
    nbytes, b := Lz4Compress.Compress(shuffled[..], tmp, AsInt(n * es));
    y := Be(nbytes, 4) + tmp[..nbytes];
    CompressedBlock(x, shuffled[..], y, n, es, b, nbytes, tmp[..]);
  }

  lemma CompressedBlock(x: seq<byte>, shuffled: seq<byte>, y: seq<byte>, n: nat, es: nat, b: Block, nbytes: nat,
                        tmp: seq<byte>)
    requires IsBitTranspose(x, shuffled, n, es) && |x| == n * es == |shuffled| && nbytes <= |tmp|
    requires y == Be(nbytes, 4) + tmp[..nbytes]
    requires Narrow(n * es) > MAX_INPUT_SIZE ==> nbytes == 0
    requires Narrow(n * es) <= MAX_INPUT_SIZE ==>
      && nbytes <= INT_MAX && WellFormed(b) && Meaning(b) == shuffled[..Narrow(n * es)] && tmp[..nbytes] == Encode(b)
    ensures Turns(CompressLz4, x, y, n, es)
  {
    hide IsBitTranspose, Legal, Encode, Meaning, Size, Narrow;
    if Narrow(n * es) > MAX_INPUT_SIZE {
      assert Be(0, 4) == [0, 0, 0, 0] by { ZeroHeader(); }
    } else {
      assert PackedAs(x, y, n, es, b, shuffled);
    }
  }

  /** bshuf_compress_lz4_block. */
  method CompressBlock(host: Host, chain: IocChain, inp: seq<byte>, out: array<byte>, n: nat, es: nat,
                       ghost i: nat, ghost o: nat)
      returns (count: int, ghost y: seq<byte>)
    requires Stands(chain, i, o) && i + n * es <= |inp| && o + MostOut(CompressLz4, n, es) <= out.Length
    modifies chain, chain.inPl, chain.outPl, out
    ensures n % 8 != 0 ==>
      && count == NOT_MULT_EIGHT && out[..] == old(out[..])
      && chain.Valid() && chain.In() == i + n * es && chain.outPl[..] == old(chain.outPl[..])
    ensures n % 8 == 0 ==>
      && Turns(CompressLz4, inp[i..i + n * es], y, n, es) && |y| == count <= MostOut(CompressLz4, n, es)
      && Stands(chain, i + n * es, o + |y|)
      && out[..] == old(out[..o]) + y + old(out[o + |y|..])
      && WordAt(y, 0, |y| - 4, 4, false)
  {
    hide Turns, Be, MostOut, WordAt;
    var iter, ip := chain.GetIn();
    chain.SetNextIn(iter, ip + n * es);
    var tmp, nbytes;
    tmp, nbytes, y := Squeeze(host, inp[ip..ip + n * es], n, es);
    if nbytes < 0 {
      return nbytes, y;
    }
    var op := chain.GetOut(iter);
    chain.SetNextOut(iter, op + nbytes + 4);
    PutFrame(out, op, tmp[..nbytes]);
    count := nbytes + 4;
    HeaderWord(y, nbytes);
  }

  lemma HeaderWord(y: seq<byte>, n: nat)
    requires |y| >= 4 && y[..4] == Be(n, 4)
    ensures WordAt(y, 0, n, 4, false)
  {
    hide Be;
    BeIsWord(n, 4);
    WordInside(y, 0, n, 4, false);
  }

  lemma ZeroHeader()
    ensures Be(0, 4) == [0, 0, 0, 0]
  {
    assert Be(0, 2) == [0, 0];
  }

  const LZ4_ERROR_BASE := 1000
  const BYTE_COUNT_MISMATCH := -91

  /** The block starts with its length, and the rest of the input starts with its encoding. */
  lemma FrameAt(inp: seq<byte>, i: nat, x: seq<byte>, b: Block)
    requires WellFormed(b) && |Encode(b)| <= INT_MAX && x == Frame(b)
    requires i + |x| <= |inp| && inp[i..i + |x|] == x
    ensures |x| == 4 + |Encode(b)| && FromBe(inp[i..i + 4]) == |Encode(b)|
    ensures Encode(b) <= inp[i + 4..]
  {
    hide Encode, Legal, Be, FromBe;
    var e := Encode(b);
    assert inp[i..i + 4] == x[..4] == Be(|e|, 4);
    Pow256Values();
    FromBeOfBe(|e|, 4);
    assert inp[i + 4..][..|e|] == inp[i..i + |x|][4..] == e;
  }

  /** LZ4 decompression and the inverse transpose of one block, on input that a compressor produced. */
  method Expand(host: Host, src: seq<byte>, n: nat, es: nat, header: int, ghost b: Block)
      returns (view: array<byte>, nbytes: int)
    requires WellFormed(b) && Encode(b) <= src && Size(b) == n * es <= INT_MAX
    ensures fresh(view) && view.Length == n * es
    ensures header != |Encode(b)| ==> nbytes == BYTE_COUNT_MISMATCH
    ensures header == |Encode(b)| && n % 8 != 0 ==> nbytes == NOT_MULT_EIGHT
    ensures header == |Encode(b)| && n % 8 == 0 ==> nbytes == header && IsBitTranspose(view[..], Meaning(b), n, es)
  {
    hide IsBitTranspose, Legal, Encode, Meaning;
    var tmp := new byte[n * es];
    view := new byte[n * es];
    Lz4Decompress.WellFormedAcceptable(b, src, n * es);
    nbytes := Lz4Decompress.DecompressFast(src, tmp, n * es, b);
    if nbytes < 0 {
      return view, nbytes - LZ4_ERROR_BASE;
    }
    if nbytes != header {
      return view, BYTE_COUNT_MISMATCH;
    }
    assert tmp[..n * es] == tmp[..];
    var count := UntransBitElem(host, tmp[..], view, n, es);
    if count < 0 {
      nbytes := count;
    }
  }

  /** The length that the header of a block announces, as the signed number that it is read into. */
  function Announced(inp: seq<byte>, i: nat): int
    requires i + 4 <= |inp|
  {
    AsInt(FromBe(inp[i..i + 4]))
  }

  /** The input at i is four header bytes and the encoding of the block b of n elements. */
  ghost predicate BlockAt(inp: seq<byte>, i: nat, n: nat, es: nat, b: Block) {
    i + 4 <= |inp| && WellFormed(b) && Encode(b) <= inp[i + 4..] && Size(b) == n * es <= INT_MAX
  }

  /**
   bshuf_decompress_lz4_block, on an LZ4 block of the right size. A header that announces another length than the
   block has is an error; the chain has then already moved by what it announces.
   */
  method DecompressBlock(host: Host, chain: IocChain, inp: seq<byte>, out: array<byte>, n: nat, es: nat,
                         ghost i: nat, ghost o: nat, ghost b: Block)
      returns (count: int, ghost y: seq<byte>)
    requires Stands(chain, i, o) && BlockAt(inp, i, n, es, b) && o + n * es <= out.Length
    modifies chain, chain.inPl, chain.outPl, out
    ensures chain.Valid() && chain.In() == i + Announced(inp, i) + 4 && chain.Out() == o + n * es
    ensures Announced(inp, i) != |Encode(b)| ==> count == BYTE_COUNT_MISMATCH && out[..] == old(out[..])
    ensures Announced(inp, i) == |Encode(b)| && n % 8 != 0 ==> count == NOT_MULT_EIGHT && out[..] == old(out[..])
    ensures Announced(inp, i) == |Encode(b)| && n % 8 == 0 ==>
      && i + count <= |inp| && count == |Encode(b)| + 4 && Turns(DecompressLz4, inp[i..i + count], y, n, es)
      && |y| == n * es && out[..] == old(out[..o]) + y + old(out[o + |y|..])
  {
    hide IsBitTranspose, Legal, Encode, Meaning, Be, FromBe, Size, Turns, AsInt;
    var iter, ip := chain.GetIn();
    var unsigned := Read(inp, ip, 4);
    var header := AsInt(unsigned);
    chain.SetNextIn(iter, ip + header + 4);
    var op := chain.GetOut(iter);
    chain.SetNextOut(iter, op + n * es);
    var view, nbytes := Expand(host, inp[ip + 4..], n, es, header, b);
    if nbytes < 0 {
      return nbytes, [];
    }
    y := view[..];
    CopyTo(out, op, view[..]);
    FrameRead(inp, i, n, es, b);
    UnpackedBlock(Frame(b), y, n, es, b);
    count := nbytes + 4;
  }

  /** If the header announces the length of the block, header and block are its stored form. */
  lemma FrameRead(inp: seq<byte>, i: nat, n: nat, es: nat, b: Block)
    requires BlockAt(inp, i, n, es, b) && Announced(inp, i) == |Encode(b)|
    ensures i + |Encode(b)| + 4 <= |inp| && inp[i..i + |Encode(b)| + 4] == Frame(b) && IsBlock(Frame(b), n, es, b)
  {
    hide Encode, Legal, Be, FromBe, Size;
    var e, head := Encode(b), inp[i..i + 4];
    BeOfFromBe(head);
    Pow256Values();
    assert FromBe(head) == |e| <= INT_MAX;
    assert inp[i + 4..i + 4 + |e|] == inp[i + 4..][..|e|] == e;
    assert inp[i..i + |e| + 4] == head + inp[i + 4..i + 4 + |e|];
  }

  lemma UnpackedBlock(x: seq<byte>, y: seq<byte>, n: nat, es: nat, b: Block)
    requires IsBlock(x, n, es, b) && IsBitTranspose(y, Meaning(b), n, es)
    ensures Turns(DecompressLz4, x, y, n, es)
  {
    hide IsBitTranspose, Legal, Encode, Meaning, Size, Frame;
    assert PackedAs(y, x, n, es, b, Meaning(b));
  }

  /** A block that can be read has a header that announces its length. */
  lemma ReadableAt(inp: seq<byte>, i: nat, x: seq<byte>, n: nat, es: nat) returns (b: Block)
    requires Readable(DecompressLz4, x, n, es) && i + |x| <= |inp| && inp[i..i + |x|] == x
    ensures BlockAt(inp, i, n, es, b) && Announced(inp, i) == |Encode(b)| && |x| == |Encode(b)| + 4
  {
    hide Encode, Legal, Be, FromBe, Size;
    b :| IsBlock(x, n, es, b);
    FrameAt(inp, i, x, b);
  }
}
