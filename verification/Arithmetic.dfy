/** Machine integers, the wrap-around of 32 bits, and facts about products that the solver needs to be told. */
module Arithmetic {
  const MAX_INT32: int := 0x7fff_ffff
  const MAX_INT64: int := 0x7fff_ffff_ffff_ffff

  type int32 = x: int | -0x8000_0000 <= x <= 0x7fff_ffff
  type int64 = x: int | -0x8000_0000_0000_0000 <= x <= 0x7fff_ffff_ffff_ffff

  /** One 32-bit signed conversion, with the wrap-around of a Go integer conversion. */
  function ToInt32(x: int): (r: int32)
    ensures -0x8000_0000 <= x <= MAX_INT32 ==> r == x
  {
    var m := x % 0x1_0000_0000;
    if m > MAX_INT32 then m - 0x1_0000_0000 else m
  }

  lemma MulMono(a: nat, b: nat, c: nat, d: nat)
    requires a <= b && c <= d
    ensures 0 <= a * c <= b * d
  {
    assert a * c <= b * c <= b * d;
  }

  lemma MulLe(a: int, b: int, d: int)
    requires d >= 0 && a <= b
    ensures a * d <= b * d
  {
  }

  lemma CancelFactor(a: int, b: int, d: int)
    requires d > 0
    ensures a * d < b * d <==> a < b
  {
    if a < b {
      MulLe(a + 1, b, d);
      assert (a + 1) * d == a * d + d;
    } else {
      MulLe(b, a, d);
    }
  }

  lemma QuotientAtLeast(num: int, den: int, m: int)
    requires den > 0 && m * den <= num
    ensures m <= num / den
  {
    var q := num / den;
    assert num < q * den + den;
    assert (q + 1) * den == q * den + den;
    CancelFactor(m, q + 1, den);
  }
}
