/** The byte type shared by every buffer of the model, and its view as eight bits. */
module Bytes {
  type byte = x: int | 0 <= x < 256

  function Bits(b: byte): bv8 {
    b as bv8
  }

  function Value(v: bv8): byte {
    v as int
  }

  lemma BitsOfValue(v: bv8)
    ensures Bits(Value(v)) == v
  {
  }

  lemma ValueSuccessor(v: bv8)
    requires v < 255
    ensures Value(v + 1) == Value(v) + 1
  {
  }

  lemma BelowTop(v: bv8)
    requires Value(v) < 255
    ensures v < 255
  {
  }

  lemma {:induction false} ValueOfBits(b: byte)
    ensures Value(Bits(b)) == b
    decreases b
  {
    if b > 0 {
      var v := Bits(b - 1);
      ValueOfBits(b - 1);
      BelowTop(v);
      ValueSuccessor(v);
      BitsOfValue(v + 1);
    }
  }

  lemma BitsInjective(a: byte, b: byte)
    requires Bits(a) == Bits(b)
    ensures a == b
  {
    ValueOfBits(a);
    ValueOfBits(b);
  }
}
