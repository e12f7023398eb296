/** Octets as numbers, and unsigned integers in big-endian order. */
module Octets {
  type octet = x: int | 0 <= x < 256

  /** A hash, as the number that its octets spell: comparing hashes octet by octet compares numbers. */
  type Digest = nat

  /** 256 to the power n. */
  function Pow256(n: nat): (r: nat)
    ensures r > 0
  {
    if n == 0 then 1 else 256 * Pow256(n - 1)
  }

  /** The low n octets of x, most significant first. */
  function BigEndian(n: nat, x: nat): (s: seq<octet>)
    ensures |s| == n
  {
    if n == 0 then [] else BigEndian(n - 1, x / 256) + [x % 256]
  }

  function FromBigEndian(s: seq<octet>): nat {
    if s == [] then 0 else 256 * FromBigEndian(s[..|s| - 1]) + s[|s| - 1]
  }

  lemma {:induction false} FromToBigEndian(n: nat, x: nat)
    requires x < Pow256(n)
    ensures FromBigEndian(BigEndian(n, x)) == x
  {
    if n > 0 {
      FromToBigEndian(n - 1, x / 256);
      assert BigEndian(n, x)[..n - 1] == BigEndian(n - 1, x / 256);
    }
  }

  lemma {:induction false} ToFromBigEndian(s: seq<octet>)
    ensures FromBigEndian(s) < Pow256(|s|)
    ensures BigEndian(|s|, FromBigEndian(s)) == s
  {
    if s != [] {
      ToFromBigEndian(s[..|s| - 1]);
      var high, low := FromBigEndian(s[..|s| - 1]), s[|s| - 1];
      assert (256 * high + low) / 256 == high;
      assert s == s[..|s| - 1] + [low];
    }
  }

  lemma Words()
    ensures Pow256(4) == 0x1_0000_0000
    ensures Pow256(8) == 0x1_0000_0000_0000_0000
  {
    assert Pow256(2) == 0x1_0000;
    assert Pow256(4) == 0x1_0000_0000;
    assert Pow256(6) == 0x1_0000_0000_0000;
  }
}
