/** Machine words: eight bytes loaded little-endian as a 64-bit vector. */
module Words {
  import opened Bytes

  const STEPSIZE := 8

  /** Eight bytes as one little-endian word. */
  function Load64(b: seq<bv8>): bv64
    requires |b| == 8
  {
    (b[0] as bv64) | ((b[1] as bv64) << 8) | ((b[2] as bv64) << 16) | ((b[3] as bv64) << 24) |
    ((b[4] as bv64) << 32) | ((b[5] as bv64) << 40) | ((b[6] as bv64) << 48) | ((b[7] as bv64) << 56)
  }

  function Eight(s: seq<byte>, p: nat): (r: seq<bv8>)
    requires p + STEPSIZE <= |s|
    ensures |r| == 8
  {
    seq(8, i requires 0 <= i < 8 => Bits(s[p + i]))
  }

  /** An unaligned 8-byte load at position p. */
  function Word(s: seq<byte>, p: nat): bv64
    requires p + STEPSIZE <= |s|
  {
    Load64(Eight(s, p))
  }

  /** Byte k of a word, lowest first. */
  function ByteAt(v: bv64, k: nat): bv8
    requires k < 8
  {
    match k
    case 0 => ((v >> 0) & 0xFF) as bv8
    case 1 => ((v >> 8) & 0xFF) as bv8
    case 2 => ((v >> 16) & 0xFF) as bv8
    case 3 => ((v >> 24) & 0xFF) as bv8
    case 4 => ((v >> 32) & 0xFF) as bv8
    case 5 => ((v >> 40) & 0xFF) as bv8
    case 6 => ((v >> 48) & 0xFF) as bv8
    case 7 => ((v >> 56) & 0xFF) as bv8
  }

  lemma LoadedByte(b: seq<bv8>, k: nat)
    requires |b| == 8 && k < 8
    ensures ByteAt(Load64(b), k) == b[k]
  {
    match k case 0 => case 1 => case 2 => case 3 => case 4 => case 5 => case 6 => case 7 =>
  }
}
