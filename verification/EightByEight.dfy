/** Single bits, and the transpose of the 8 x 8 bits of one word. */
module EightByEight {
  import opened Bytes
  import opened Words

  /** Bit k of a byte, lowest first. */
  function BitOf(v: bv8, k: nat): bool
    requires k < 8
  {
    match k
    case 0 => v & 0x01 != 0
    case 1 => v & 0x02 != 0
    case 2 => v & 0x04 != 0
    case 3 => v & 0x08 != 0
    case 4 => v & 0x10 != 0
    case 5 => v & 0x20 != 0
    case 6 => v & 0x40 != 0
    case 7 => v & 0x80 != 0
  }

  function Bit(b: byte, k: nat): bool
    requires k < 8
  {
    BitOf(Bits(b), k)
  }

  lemma SameBitsBv(v: bv8, w: bv8)
    requires BitOf(v, 0) == BitOf(w, 0) && BitOf(v, 1) == BitOf(w, 1)
    requires BitOf(v, 2) == BitOf(w, 2) && BitOf(v, 3) == BitOf(w, 3)
    requires BitOf(v, 4) == BitOf(w, 4) && BitOf(v, 5) == BitOf(w, 5)
    requires BitOf(v, 6) == BitOf(w, 6) && BitOf(v, 7) == BitOf(w, 7)
    ensures v == w
  {
  }

  /** A byte is its eight bits. */
  lemma SameBits(a: byte, b: byte)
    requires forall k :: 0 <= k < 8 ==> Bit(a, k) == Bit(b, k)
    ensures a == b
  {
    hide BitOf;
    assert Bit(a, 0) == Bit(b, 0) && Bit(a, 1) == Bit(b, 1) && Bit(a, 2) == Bit(b, 2) && Bit(a, 3) == Bit(b, 3);
    assert Bit(a, 4) == Bit(b, 4) && Bit(a, 5) == Bit(b, 5) && Bit(a, 6) == Bit(b, 6) && Bit(a, 7) == Bit(b, 7);
    SameBitsBv(Bits(a), Bits(b));
    BitsInjective(a, b);
  }

  /** A byte from its eight bits, lowest first. */
  function Pack(c0: bool, c1: bool, c2: bool, c3: bool, c4: bool, c5: bool, c6: bool, c7: bool): bv8 {
    (if c0 then 0x01 else 0) | (if c1 then 0x02 else 0) | (if c2 then 0x04 else 0) | (if c3 then 0x08 else 0) |
    (if c4 then 0x10 else 0) | (if c5 then 0x20 else 0) | (if c6 then 0x40 else 0) | (if c7 then 0x80 else 0)
  }

  lemma PackedBits(c0: bool, c1: bool, c2: bool, c3: bool, c4: bool, c5: bool, c6: bool, c7: bool)
    ensures var v := Pack(c0, c1, c2, c3, c4, c5, c6, c7);
      && BitOf(v, 0) == c0 && BitOf(v, 1) == c1 && BitOf(v, 2) == c2 && BitOf(v, 3) == c3
      && BitOf(v, 4) == c4 && BitOf(v, 5) == c5 && BitOf(v, 6) == c6 && BitOf(v, 7) == c7
  {
  }

  lemma PackedByte(c0: bool, c1: bool, c2: bool, c3: bool, c4: bool, c5: bool, c6: bool, c7: bool)
    ensures var v := Value(Pack(c0, c1, c2, c3, c4, c5, c6, c7));
      && Bit(v, 0) == c0 && Bit(v, 1) == c1 && Bit(v, 2) == c2 && Bit(v, 3) == c3
      && Bit(v, 4) == c4 && Bit(v, 5) == c5 && Bit(v, 6) == c6 && Bit(v, 7) == c7
  {
    hide Pack, BitOf, Bits, Value;
    PackedBits(c0, c1, c2, c3, c4, c5, c6, c7);
    BitsOfValue(Pack(c0, c1, c2, c3, c4, c5, c6, c7));
  }

  function SwapSingles(x: bv64): bv64 {
    var t := (x ^ (x >> 7)) & 0x00AA00AA00AA00AA;
    x ^ t ^ (t << 7)
  }

  function SwapPairs(x: bv64): bv64 {
    var t := (x ^ (x >> 14)) & 0x0000CCCC0000CCCC;
    x ^ t ^ (t << 14)
  }

  function SwapFours(x: bv64): bv64 {
    var t := (x ^ (x >> 28)) & 0x00000000F0F0F0F0;
    x ^ t ^ (t << 28)
  }

  function Swapped(x: bv64): bv64 {
    SwapFours(SwapPairs(SwapSingles(x)))
  }

  /** Bit c of byte r of `y` is bit r of byte c of `x`. */
  ghost predicate IsSwap(x: bv64, y: bv64) {
    forall r, c :: 0 <= r < 8 && 0 <= c < 8 ==> BitOf(ByteAt(y, r), c) == BitOf(ByteAt(x, c), r)
  }

  lemma SwappedAt(x: bv64, r: nat, c: nat)
    requires r < 8 && c < 8
    ensures BitOf(ByteAt(Swapped(x), r), c) == BitOf(ByteAt(x, c), r)
  {
    match r
    case 0 => match c { case 0 => case 1 => case 2 => case 3 => case 4 => case 5 => case 6 => case 7 => }
    case 1 => match c { case 0 => case 1 => case 2 => case 3 => case 4 => case 5 => case 6 => case 7 => }
    case 2 => match c { case 0 => case 1 => case 2 => case 3 => case 4 => case 5 => case 6 => case 7 => }
    case 3 => match c { case 0 => case 1 => case 2 => case 3 => case 4 => case 5 => case 6 => case 7 => }
    case 4 => match c { case 0 => case 1 => case 2 => case 3 => case 4 => case 5 => case 6 => case 7 => }
    case 5 => match c { case 0 => case 1 => case 2 => case 3 => case 4 => case 5 => case 6 => case 7 => }
    case 6 => match c { case 0 => case 1 => case 2 => case 3 => case 4 => case 5 => case 6 => case 7 => }
    case 7 => match c { case 0 => case 1 => case 2 => case 3 => case 4 => case 5 => case 6 => case 7 => }
  }

  lemma SwappedIsSwap(x: bv64)
    ensures IsSwap(x, Swapped(x))
  {
    hide ByteAt, BitOf, Swapped;
    forall r, c | 0 <= r < 8 && 0 <= c < 8 ensures BitOf(ByteAt(Swapped(x), r), c) == BitOf(ByteAt(x, c), r) {
      SwappedAt(x, r, c);
    }
  }

  /** TRANS_BIT_8X8. */
  method TransBit8x8(word: bv64) returns (x: bv64)
    ensures IsSwap(word, x)
  {
    hide IsSwap, SwapSingles, SwapPairs, SwapFours;
    x := word;
    x := SwapSingles(x);
    x := SwapPairs(x);
    x := SwapFours(x);
    SwappedIsSwap(word);
  }

  /** Dropping the lowest byte moves the others down. */
  lemma NextByte(x: bv64, r: nat)
    requires r < 7
    ensures ByteAt(x >> 8, r) == ByteAt(x, r + 1)
  {
    match r case 0 => case 1 => case 2 => case 3 => case 4 => case 5 => case 6 =>
  }
}
