/** The SSE2 registers and instructions of the vector kernels, on sixteen bytes. */
module Simd {
  import opened Bytes
  import opened EightByEight

  /** A 16-byte register, lowest byte first. */
  datatype Xmm = Xmm(b0: byte, b1: byte, b2: byte, b3: byte, b4: byte, b5: byte, b6: byte, b7: byte,
                     b8: byte, b9: byte, b10: byte, b11: byte, b12: byte, b13: byte, b14: byte, b15: byte)

  function Lane(x: Xmm, i: nat): byte
    requires i < 16
  {
    match i
    case 0 => x.b0
    case 1 => x.b1
    case 2 => x.b2
    case 3 => x.b3
    case 4 => x.b4
    case 5 => x.b5
    case 6 => x.b6
    case 7 => x.b7
    case 8 => x.b8
    case 9 => x.b9
    case 10 => x.b10
    case 11 => x.b11
    case 12 => x.b12
    case 13 => x.b13
    case 14 => x.b14
    case 15 => x.b15
  }

  /** _mm_loadu_si128. */
  function Load(s: seq<byte>, p: nat): Xmm
    requires p + 16 <= |s|
  {
    Xmm(s[p], s[p + 1], s[p + 2], s[p + 3], s[p + 4], s[p + 5], s[p + 6], s[p + 7],
        s[p + 8], s[p + 9], s[p + 10], s[p + 11], s[p + 12], s[p + 13], s[p + 14], s[p + 15])
  }

  lemma LoadedLane(s: seq<byte>, p: nat, i: nat)
    requires p + 16 <= |s| && i < 16
    ensures Lane(Load(s, p), i) == s[p + i]
  {
  }

  /** _mm_unpacklo_epi8. */
  function UnpackLo8(x: Xmm, y: Xmm): Xmm {
    Xmm(x.b0, y.b0, x.b1, y.b1, x.b2, y.b2, x.b3, y.b3, x.b4, y.b4, x.b5, y.b5, x.b6, y.b6, x.b7, y.b7)
  }

  /** _mm_unpackhi_epi8. */
  function UnpackHi8(x: Xmm, y: Xmm): Xmm {
    Xmm(x.b8, y.b8, x.b9, y.b9, x.b10, y.b10, x.b11, y.b11, x.b12, y.b12, x.b13, y.b13, x.b14, y.b14, x.b15, y.b15)
  }

  /** _mm_unpacklo_epi16. */
  function UnpackLo16(x: Xmm, y: Xmm): Xmm {
    Xmm(x.b0, x.b1, y.b0, y.b1, x.b2, x.b3, y.b2, y.b3, x.b4, x.b5, y.b4, y.b5, x.b6, x.b7, y.b6, y.b7)
  }

  /** _mm_unpackhi_epi16. */
  function UnpackHi16(x: Xmm, y: Xmm): Xmm {
    Xmm(x.b8, x.b9, y.b8, y.b9, x.b10, x.b11, y.b10, y.b11, x.b12, x.b13, y.b12, y.b13, x.b14, x.b15, y.b14, y.b15)
  }

  /** _mm_unpacklo_epi32. */
  function UnpackLo32(x: Xmm, y: Xmm): Xmm {
    Xmm(x.b0, x.b1, x.b2, x.b3, y.b0, y.b1, y.b2, y.b3, x.b4, x.b5, x.b6, x.b7, y.b4, y.b5, y.b6, y.b7)
  }

  /** _mm_unpackhi_epi32. */
  function UnpackHi32(x: Xmm, y: Xmm): Xmm {
    Xmm(x.b8, x.b9, x.b10, x.b11, y.b8, y.b9, y.b10, y.b11, x.b12, x.b13, x.b14, x.b15, y.b12, y.b13, y.b14, y.b15)
  }

  /** _mm_unpacklo_epi64. */
  function UnpackLo64(x: Xmm, y: Xmm): Xmm {
    Xmm(x.b0, x.b1, x.b2, x.b3, x.b4, x.b5, x.b6, x.b7, y.b0, y.b1, y.b2, y.b3, y.b4, y.b5, y.b6, y.b7)
  }

  /** _mm_unpackhi_epi64. */
  function UnpackHi64(x: Xmm, y: Xmm): Xmm {
    Xmm(x.b8, x.b9, x.b10, x.b11, x.b12, x.b13, x.b14, x.b15, y.b8, y.b9, y.b10, y.b11, y.b12, y.b13, y.b14, y.b15)
  }

  /** Every second byte from p on. */
  function Stride2(s: seq<byte>, p: nat): Xmm
    requires p + 30 < |s|
  {
    Xmm(s[p], s[p + 2], s[p + 4], s[p + 6], s[p + 8], s[p + 10], s[p + 12], s[p + 14],
        s[p + 16], s[p + 18], s[p + 20], s[p + 22], s[p + 24], s[p + 26], s[p + 28], s[p + 30])
  }

  lemma Stride2Lane(s: seq<byte>, p: nat, i: nat)
    requires p + 30 < |s| && i < 16
    ensures Lane(Stride2(s, p), i) == s[p + 2 * i]
  {
  }

  /** Every fourth byte from p on. */
  function Stride4(s: seq<byte>, p: nat): Xmm
    requires p + 60 < |s|
  {
    Xmm(s[p], s[p + 4], s[p + 8], s[p + 12], s[p + 16], s[p + 20], s[p + 24], s[p + 28],
        s[p + 32], s[p + 36], s[p + 40], s[p + 44], s[p + 48], s[p + 52], s[p + 56], s[p + 60])
  }

  lemma Stride4Lane(s: seq<byte>, p: nat, i: nat)
    requires p + 60 < |s| && i < 16
    ensures Lane(Stride4(s, p), i) == s[p + 4 * i]
  {
  }

  /** Every eighth byte from p on. */
  function Stride8(s: seq<byte>, p: nat): Xmm
    requires p + 120 < |s|
  {
    Xmm(s[p], s[p + 8], s[p + 16], s[p + 24], s[p + 32], s[p + 40], s[p + 48], s[p + 56],
        s[p + 64], s[p + 72], s[p + 80], s[p + 88], s[p + 96], s[p + 104], s[p + 112], s[p + 120])
  }

  lemma Stride8Lane(s: seq<byte>, p: nat, i: nat)
    requires p + 120 < |s| && i < 16
    ensures Lane(Stride8(s, p), i) == s[p + 8 * i]
  {
  }

  /** _mm_movemask_epi8 collects the top bit of every lane: its low byte. */
  function MaskLow(x: Xmm): byte {
    Value(Pack(Bit(x.b0, 7), Bit(x.b1, 7), Bit(x.b2, 7), Bit(x.b3, 7),
               Bit(x.b4, 7), Bit(x.b5, 7), Bit(x.b6, 7), Bit(x.b7, 7)))
  }

  /** And its high byte. */
  function MaskHigh(x: Xmm): byte {
    Value(Pack(Bit(x.b8, 7), Bit(x.b9, 7), Bit(x.b10, 7), Bit(x.b11, 7),
               Bit(x.b12, 7), Bit(x.b13, 7), Bit(x.b14, 7), Bit(x.b15, 7)))
  }

  lemma MaskBits(x: Xmm, c: nat)
    requires c < 8
    ensures Bit(MaskLow(x), c) == Bit(Lane(x, c), 7)
    ensures Bit(MaskHigh(x), c) == Bit(Lane(x, c + 8), 7)
  {
    hide Pack, Bit;
    PackedByte(Bit(x.b0, 7), Bit(x.b1, 7), Bit(x.b2, 7), Bit(x.b3, 7),
               Bit(x.b4, 7), Bit(x.b5, 7), Bit(x.b6, 7), Bit(x.b7, 7));
    PackedByte(Bit(x.b8, 7), Bit(x.b9, 7), Bit(x.b10, 7), Bit(x.b11, 7),
               Bit(x.b12, 7), Bit(x.b13, 7), Bit(x.b14, 7), Bit(x.b15, 7));
    match c case 0 => case 1 => case 2 => case 3 => case 4 => case 5 => case 6 => case 7 =>
  }

  /** The low byte of a 16-bit lane moved left by one bit. */
  function ShiftLow(lo: byte): byte {
    Value(Bits(lo) << 1)
  }

  /** The high byte takes in the bit that leaves the low one. */
  function ShiftHigh(lo: byte, hi: byte): byte {
    Value((Bits(hi) << 1) | (Bits(lo) >> 7))
  }

  /** _mm_slli_epi16 by one. */
  function ShiftLeftOne(x: Xmm): Xmm {
    Xmm(ShiftLow(x.b0), ShiftHigh(x.b0, x.b1), ShiftLow(x.b2), ShiftHigh(x.b2, x.b3),
        ShiftLow(x.b4), ShiftHigh(x.b4, x.b5), ShiftLow(x.b6), ShiftHigh(x.b6, x.b7),
        ShiftLow(x.b8), ShiftHigh(x.b8, x.b9), ShiftLow(x.b10), ShiftHigh(x.b10, x.b11),
        ShiftLow(x.b12), ShiftHigh(x.b12, x.b13), ShiftLow(x.b14), ShiftHigh(x.b14, x.b15))
  }

  lemma ShiftedBv(lo: bv8, hi: bv8, m: nat)
    requires 1 <= m < 8
    ensures BitOf(lo << 1, m) == BitOf(lo, m - 1)
    ensures BitOf((hi << 1) | (lo >> 7), m) == BitOf(hi, m - 1)
  {
    match m case 1 => case 2 => case 3 => case 4 => case 5 => case 6 => case 7 =>
  }

  lemma ShiftedByte(lo: byte, hi: byte, m: nat)
    requires 1 <= m < 8
    ensures Bit(ShiftLow(lo), m) == Bit(lo, m - 1)
    ensures Bit(ShiftHigh(lo, hi), m) == Bit(hi, m - 1)
  {
    hide BitOf;
    ShiftedBv(Bits(lo), Bits(hi), m);
    BitsOfValue(Bits(lo) << 1);
    BitsOfValue((Bits(hi) << 1) | (Bits(lo) >> 7));
  }

  lemma ShiftedLane(x: Xmm, i: nat, m: nat)
    requires i < 16 && 1 <= m < 8
    ensures Bit(Lane(ShiftLeftOne(x), i), m) == Bit(Lane(x, i), m - 1)
  {
    hide ShiftLow, ShiftHigh, Bit;
    var p := if i % 2 == 0 then i else i - 1;
    ShiftedByte(Lane(x, p), Lane(x, p + 1), m);
  }

  /** Every lane of `x` holds, at bit m, what lane i of `x0` held kk bits lower. */
  ghost predicate Shifted(x0: Xmm, x: Xmm, kk: nat) {
    forall i, m :: 0 <= i < 16 && kk <= m < 8 ==> Bit(Lane(x, i), m) == Bit(Lane(x0, i), m - kk)
  }

  lemma ShiftOnce(x0: Xmm, x: Xmm, kk: nat)
    requires Shifted(x0, x, kk)
    ensures Shifted(x0, ShiftLeftOne(x), kk + 1)
  {
    hide Bit, Lane, ShiftLeftOne;
    forall i, m | 0 <= i < 16 && kk + 1 <= m < 8
      ensures Bit(Lane(ShiftLeftOne(x), i), m) == Bit(Lane(x0, i), m - (kk + 1))
    {
      ShiftedLane(x, i, m);
      assert Bit(Lane(x, i), m - 1) == Bit(Lane(x0, i), m - 1 - kk);
    }
  }
}
