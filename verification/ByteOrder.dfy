/** Unsigned integers as bytes, in the order that the block headers and the frame header use, and in the other. */
module ByteOrder {
  import opened Basics
  import opened Bytes

  /** The k low bytes of n, highest first. */
  function Be(n: nat, k: nat): (r: seq<byte>)
    ensures |r| == k
  {
    if k == 0 then [] else Be(n / 256, k - 1) + [n % 256]
  }

  function FromBe(s: seq<byte>): nat {
    if s == [] then 0 else FromBe(s[..|s| - 1]) * 256 + s[|s| - 1]
  }

  function Pow256(k: nat): (r: nat)
    ensures r > 0
  {
    if k == 0 then 1 else 256 * Pow256(k - 1)
  }

  /** Reading back gives the number, for every number that fits. */
  lemma {:induction false} FromBeOfBe(n: nat, k: nat)
    requires n < Pow256(k)
    ensures FromBe(Be(n, k)) == n
  {
    if k > 0 {
      FromBeOfBe(n / 256, k - 1);
      assert Be(n, k)[..k - 1] == Be(n / 256, k - 1);
    }
  }

  /** Every byte string is the encoding of the number it reads as. */
  lemma {:induction false} BeOfFromBe(s: seq<byte>)
    ensures FromBe(s) < Pow256(|s|)
    ensures Be(FromBe(s), |s|) == s
  {
    if s != [] {
      BeOfFromBe(s[..|s| - 1]);
      assert s == s[..|s| - 1] + [s[|s| - 1]];
    }
  }

  /** The k low bytes of n, lowest first. */
  function Le(n: nat, k: nat): (r: seq<byte>)
    ensures |r| == k
  {
    if k == 0 then [] else [n % 256] + Le(n / 256, k - 1)
  }

  function FromLe(s: seq<byte>): nat {
    if s == [] then 0 else s[0] + 256 * FromLe(s[1..])
  }

  lemma {:induction false} FromLeOfLe(n: nat, k: nat)
    requires n < Pow256(k)
    ensures FromLe(Le(n, k)) == n
  {
    if k > 0 {
      FromLeOfLe(n / 256, k - 1);
      assert Le(n, k)[1..] == Le(n / 256, k - 1);
    }
  }

  lemma Pow256Values()
    ensures Pow256(4) == 0x1_0000_0000 && Pow256(8) == 0x1_0000_0000_0000_0000
  {
    assert Pow256(2) == 65536;
    assert Pow256(4) == 256 * (256 * Pow256(2));
    assert Pow256(6) == 256 * (256 * Pow256(4));
    assert Pow256(8) == 256 * (256 * Pow256(6));
  }

  lemma {:induction false} LeOfFromLe(s: seq<byte>)
    ensures FromLe(s) < Pow256(|s|)
    ensures Le(FromLe(s), |s|) == s
  {
    if s != [] {
      var n := FromLe(s[1..]);
      LeOfFromLe(s[1..]);
      assert (s[0] + 256 * n) % 256 == s[0] && (s[0] + 256 * n) / 256 == n;
      assert s == [s[0]] + s[1..];
    }
  }

  // ------------------------------------------------------------ single bytes

  /**
   The k bytes from `at` on are those of n: byte i of n is n / 256^i % 256, and stands at place i in little-endian
   order, and at place k - 1 - i in big-endian order.
   */
  ghost predicate WordAt(s: seq<byte>, at: nat, n: nat, k: nat, little: bool) {
    && at + k <= |s|
    && forall p :: at <= p < at + k ==> s[p] == n / Pow256(if little then p - at else at + k - 1 - p) % 256
  }

  lemma {:induction false} LeAt(n: nat, k: nat, i: nat)
    requires i < k
    ensures Le(n, k)[i] == n / Pow256(i) % 256
  {
    if i > 0 {
      LeAt(n / 256, k - 1, i - 1);
      DivTwice(n, 256, Pow256(i - 1));
    }
  }

  lemma {:induction false} BeAt(n: nat, k: nat, i: nat)
    requires i < k
    ensures Be(n, k)[k - 1 - i] == n / Pow256(i) % 256
  {
    if i > 0 {
      BeAt(n / 256, k - 1, i - 1);
      DivTwice(n, 256, Pow256(i - 1));
    }
  }

  lemma LeIsWord(n: nat, k: nat)
    ensures WordAt(Le(n, k), 0, n, k, true)
  {
    forall p | 0 <= p < k ensures Le(n, k)[p] == n / Pow256(p) % 256 {
      LeAt(n, k, p);
    }
  }

  lemma BeIsWord(n: nat, k: nat)
    ensures WordAt(Be(n, k), 0, n, k, false)
  {
    forall p | 0 <= p < k ensures Be(n, k)[p] == n / Pow256(k - 1 - p) % 256 {
      BeAt(n, k, k - 1 - p);
    }
  }

  lemma WordInside(s: seq<byte>, at: nat, n: nat, k: nat, little: bool)
    requires at + k <= |s|
    ensures WordAt(s, at, n, k, little) <==> WordAt(s[at..at + k], 0, n, k, little)
  {
    var w := s[at..at + k];
    forall p | at <= p < at + k ensures s[p] == w[p - at] {
    }
    forall q | 0 <= q < k ensures w[q] == s[at + q] {
    }
  }

  lemma WordIs(s: seq<byte>, at: nat, n: nat, k: nat, little: bool)
    requires WordAt(s, at, n, k, little)
    ensures s[at..at + k] == if little then Le(n, k) else Be(n, k)
  {
    hide Le, Be;
    LeIsWord(n, k);
    BeIsWord(n, k);
  }

  /** A number that fits is determined by its bytes. */
  lemma WordUnique(s: seq<byte>, at: nat, n: nat, m: nat, k: nat, little: bool)
    requires WordAt(s, at, n, k, little) && WordAt(s, at, m, k, little) && n < Pow256(k) && m < Pow256(k)
    ensures n == m
  {
    hide Le, Be, FromLe, FromBe, WordAt, Pow256;
    WordIs(s, at, n, k, little);
    WordIs(s, at, m, k, little);
    FromLeOfLe(n, k);
    FromLeOfLe(m, k);
    FromBeOfBe(n, k);
    FromBeOfBe(m, k);
  }

  /** What a byte string reads as has these bytes. */
  lemma FromLeIsWord(s: seq<byte>)
    ensures FromLe(s) < Pow256(|s|) && WordAt(s, 0, FromLe(s), |s|, true)
  {
    LeOfFromLe(s);
    LeIsWord(FromLe(s), |s|);
  }

  lemma FromBeIsWord(s: seq<byte>)
    ensures FromBe(s) < Pow256(|s|) && WordAt(s, 0, FromBe(s), |s|, false)
  {
    BeOfFromBe(s);
    BeIsWord(FromBe(s), |s|);
  }

  /** bshuf_write_uint32_BE and bshuf_write_uint64_BE, for k = 4 and k = 8: the k bytes from `at` on. */
  method Write(buf: array<byte>, at: nat, value: nat, k: nat)
    requires at + k <= buf.Length
    modifies buf
    ensures buf[..] == old(buf[..at]) + Be(value, k) + old(buf[at + k..])
    ensures WordAt(buf[..], at, value, k, false)
  {
    hide WordAt;
    var num := value;
    var ii := k - 1;
    while ii >= 0
      invariant -1 <= ii < k
      invariant Be(num, ii + 1) + buf[at + ii + 1..at + k] == Be(value, k)
      invariant buf[..at] == old(buf[..at]) && buf[at + k..] == old(buf[at + k..])
    {
      ghost var tail := buf[at + ii + 1..at + k];
      buf[at + ii] := num % 256;
      num := num / 256;
      assert buf[at + ii..at + k] == [buf[at + ii]] + tail;
      ii := ii - 1;
    }
    assert buf[..] == buf[..at] + buf[at..at + k] + buf[at + k..];
    WordInside(buf[..], at, value, k, false);
    BeIsWord(value, k);
  }

  lemma ReadNothing()
    ensures FromBe([]) == 0
  {
  }

  lemma ReadStep(s: seq<byte>, ii: nat, weight: nat, num: nat)
    requires ii < |s|
    ensures FromBe(s[..ii + 1]) * weight + num == FromBe(s[..ii]) * (weight * 256) + (num + s[ii] * weight)
  {
    var b: nat := s[ii];
    var high := FromBe(s[..ii]);
    assert s[..ii + 1][..ii] == s[..ii];
    assert (high * 256 + b) * weight == high * (weight * 256) + b * weight;
  }

  /**
   bshuf_read_uint32_BE and bshuf_read_uint64_BE. The last product of the
   weight leaves the machine word, and is not used.
   */
  method Read(buf: seq<byte>, at: nat, k: nat) returns (num: nat)
    requires at + k <= |buf|
    ensures num == FromBe(buf[at..at + k])
    ensures num < Pow256(k) && WordAt(buf, at, num, k, false)
  {
    hide FromBe, WordAt, Pow256;
    ghost var s := buf[at..at + k];
    num := 0;
    var weight: nat := 1;
    var ii := k - 1;
    assert s[..k] == s && s[..0] == [] && FromBe([]) == 0 by { ReadNothing(); }
    while ii >= 0
      invariant -1 <= ii < k
      invariant FromBe(s[..ii + 1]) * weight + num == FromBe(s)
    {
      assert s[..ii + 1][..ii] == s[..ii];
      ReadStep(s, ii, weight, num);
      num := num + buf[at + ii] * weight;
      weight := weight * 256;
      ii := ii - 1;
    }
    FromBeIsWord(s);
    WordInside(buf, at, num, k, false);
  }
}
