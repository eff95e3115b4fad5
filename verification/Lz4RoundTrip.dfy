/**
 What the compressor and the decoders promise together: decoding what was
 compressed gives back the source, and a compressed block has one reading only.
 */
module Lz4RoundTrip {
  import opened Bytes
  import opened Lz4Format
  import Lz4Compress
  import Lz4Greedy
  import Lz4Repeats
  import opened Lz4Decompress

  lemma EndTogether(b: Block, c: Block, src: seq<byte>, oend: nat)
    requires Legal(b.sequences) && Legal(c.sequences) && Size(b) == Size(c) == oend
    requires Acceptable(b, src, |Encode(b)|, oend) && Acceptable(c, src, |Encode(c)|, oend)
    ensures b == c
  {
    hide Encode, Reads, AllFit, Size, Legal;
    SameReadFrom(src, b, |Encode(b)|, c, |Encode(c)|, oend, 0);
  }

  /** Two well-formed blocks of the same size that both begin the input are the same block. */
  lemma Unambiguous(b: Block, c: Block, src: seq<byte>)
    requires WellFormed(b) && WellFormed(c) && Encode(b) <= src && Encode(c) <= src
    requires Size(b) == Size(c)
    ensures b == c
  {
    hide Acceptable, Size, Encode, WellFormed;
    WellFormedAcceptable(b, src, Size(b));
    WellFormedAcceptable(c, src, Size(b));
    EndTogether(b, c, src, Size(b));
  }

  /** A block of one byte has no length byte. */
  lemma OneByte(b: Block, src: seq<byte>)
    requires WellFormed(b) && Encode(b) == src
    ensures |src| > 0 && (src[0] / 16 == RUN_MASK ==> |src| > 1)
  {
    hide Encode, WellFormed, Wire, Loose, Holds, Extra, Min15;
    WellFormedReads(b, src);
    LiteralsRead(src, |src|, b, 0);
    assert b.sequences[..0] == [] && Wire([]) == [] by { EmptySize(); }
    LongLength(|Literals(b, 0)|);
  }

  /**
   LZ4_decompress_fast and LZ4_decompress_safe both undo LZ4_compress, for every
   source that is accepted and every hash function: same bytes, and the fast decoder uses exactly the
   bytes the compressor wrote.
   */
  method RoundTrip(source: seq<byte>, spare: nat, hash16: nat -> Lz4Greedy.Slot16, hash32: nat -> Lz4Greedy.Slot32)
      returns (compressed: seq<byte>, fast: seq<byte>, used: int, safe: seq<byte>, decoded: int)
    requires |source| <= MAX_INPUT_SIZE
    ensures 0 < |compressed| <= CompressBound(|source|)
    ensures fast == source && used == |compressed|
    ensures safe == source && decoded == |source|
  {
    hide WellFormed, Encode, Meaning, CompressBound, Lz4Compress.Maximal, Reads, AllFit, Size, Loose, Legal;
    hide Lz4Compress.AllEqual, Lz4Greedy.Greedy, Lz4Repeats.Thorough;
    var n := |source|;
    var dest := new byte[CompressBound(n)];
    var size, b := Lz4Compress.CompressHashing(source, dest, n, hash16, hash32);
    compressed := dest[..size];
    assert source[..n] == source;
    var out := new byte[n];
    WellFormedAcceptable(b, compressed, n);
    used := DecompressFast(compressed, out, n, b);
    fast := out[..n];
    var roomy := new byte[n + spare];
    OneByte(b, compressed);
    WellFormedAcceptable(b, compressed, n + spare);
    ghost var parsed;
    decoded, parsed := DecompressSafe(compressed, roomy, size, n + spare);
    ReadsUnique(compressed, size, b, parsed);
    safe := roomy[..n];
  }
}
