/** Bytes and the big-endian integers of the packet header. */
module Bytes {
  type byte = b: int | 0 <= b < 256
  type bytes = seq<byte>

  function Pow256(k: nat): (p: nat)
    ensures p > 0
  {
    if k == 0 then 1 else 256 * Pow256(k - 1)
  }

  function BigEndian(v: nat, k: nat): (s: bytes)
    requires v < Pow256(k)
    ensures |s| == k
  {
    if k == 0 then [] else BigEndian(v / 256, k - 1) + [v % 256]
  }

  function FromBigEndian(s: bytes): (v: nat)
    ensures v < Pow256(|s|)
  {
    if s == [] then 0 else 256 * FromBigEndian(s[..|s| - 1]) + s[|s| - 1]
  }

  lemma {:induction false} BigEndianRoundTrip(v: nat, k: nat)
    requires v < Pow256(k)
    ensures FromBigEndian(BigEndian(v, k)) == v
  {
    if k > 0 {
      BigEndianRoundTrip(v / 256, k - 1);
      var s := BigEndian(v, k);
      assert s[..|s| - 1] == BigEndian(v / 256, k - 1);
    }
  }

  lemma {:induction false} FromBigEndianRoundTrip(s: bytes)
    ensures BigEndian(FromBigEndian(s), |s|) == s
  {
    if s != [] {
      var front := s[..|s| - 1];
      FromBigEndianRoundTrip(front);
      var v := FromBigEndian(s);
      assert v / 256 == FromBigEndian(front) && v % 256 == s[|s| - 1];
      assert s == front + [s[|s| - 1]];
    }
  }

  lemma TimesAtLeast(k: int, d: int)
    requires k != 0 && d > 0
    ensures k * d >= d || k * d <= -d
  {
  }

  lemma QuotientUnique(a: int, d: int, q: int, r: int)
    requires d > 0 && a == q * d + r && 0 <= r < d
    ensures a / d == q
  {
    var k := q - a / d;
    assert a == (a / d) * d + a % d;
    assert k * d == a % d - r;
    if k != 0 {
      TimesAtLeast(k, d);
    }
  }

  lemma DivideTwice(v: nat, d: nat)
    requires d > 0
    ensures v / 256 / d == v / (256 * d)
  {
    var w := v / 256;
    assert w == (w / d) * d + w % d;
    QuotientUnique(v, 256 * d, w / d, 256 * (w % d) + v % 256);
  }

  /** Byte `i` is the base-256 digit of that place, the most significant first. */
  lemma {:induction false} BigEndianDigit(v: nat, k: nat, i: nat)
    requires v < Pow256(k) && i < k
    ensures BigEndian(v, k)[i] == v / Pow256(k - 1 - i) % 256
  {
    if i < k - 1 {
      BigEndianDigit(v / 256, k - 1, i);
      DivideTwice(v, Pow256(k - 2 - i));
    }
  }
}
