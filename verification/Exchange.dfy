/** The rounding arithmetic of price/main.go: multiply by a fraction, round down or up, and split
    an offer into the units bought and sold.

    The source multiplies two 64-bit words into a two-word product and divides that by one word.
    Both word operations are written out here; what the results mean is stated on integers. */
module Exchange {
  import opened Arithmetic
  import opened Wrappers

  const TWO64: int := 0x1_0000_0000_0000_0000

  type uint64 = x: int | 0 <= x < TWO64

  datatype ExchangeError = DivisionByZero | Overflow

  // ----- Word arithmetic -----

  function ToUint64(x: int64): (w: uint64)
    ensures x >= 0 ==> w == x
  {
    x % TWO64
  }

  lemma WordProduct(x: uint64, y: uint64)
    ensures 0 <= x * y < TWO64 * TWO64
  {
    MulMono(x, TWO64 - 1, y, TWO64 - 1);
  }

  /** bits.Mul64: the two words of x * y. */
  function Mul64(x: uint64, y: uint64): (w: (uint64, uint64))
    ensures w.0 * TWO64 + w.1 == x * y
  {
    WordProduct(x, y);
    (x * y / TWO64, x * y % TWO64)
  }

  /** bits.Add64: sum and carry out. */
  function Add64(x: uint64, y: uint64): (s: (uint64, uint64))
    ensures s.1 * TWO64 + s.0 == x + y && s.1 <= 1
  {
    ((x + y) % TWO64, (x + y) / TWO64)
  }

  /** bits.Div64, which panics unless hi < y. */
  function Div64(hi: uint64, lo: uint64, y: uint64): (q: uint64)
    requires hi < y
    ensures q * y <= hi * TWO64 + lo < q * y + y
  {
    var p := hi * TWO64 + lo;
    var q := p / y;
    assert p == q * y + p % y;
    QuotientFits(p, y, q);
    q
  }

  lemma QuotientFits(p: int, y: int, q: int)
    requires y > 0 && 0 <= p < y * TWO64 && q * y <= p < q * y + y
    ensures 0 <= q < TWO64
  {
    CancelFactor(q, TWO64, y);
    assert q * y + y == (q + 1) * y;
    CancelFactor(0, q + 1, y);
  }

  // ----- Floor and ceiling -----

  /** q is the largest integer with q * d <= p. */
  ghost predicate IsFloor(q: int, p: int, d: int) {
    q * d <= p < q * d + d
  }

  /** q is the smallest integer with p <= q * d. */
  ghost predicate IsCeiling(q: int, p: int, d: int) {
    q * d - d < p <= q * d
  }

  lemma FloorUnique(q: int, q': int, p: int, d: int)
    requires d > 0 && IsFloor(q, p, d)
    ensures q' * d <= p ==> q' <= q
    ensures p < q' * d + d ==> q <= q'
  {
    if q' > q {
      assert q' * d >= (q + 1) * d;
    }
    if q > q' {
      assert q * d >= (q' + 1) * d;
    }
  }

  lemma CeilingUnique(q: int, q': int, p: int, d: int)
    requires d > 0 && IsCeiling(q, p, d)
    ensures p <= q' * d ==> q <= q'
    ensures q' * d - d < p ==> q' <= q
  {
    if q > q' {
      assert q * d >= (q' + 1) * d;
    }
    if q' > q {
      assert q' * d >= (q + 1) * d;
    }
  }

  /** x * n / d rounded down, in two-word arithmetic. */
  function MulFractionRoundDown(x: int64, n: int64, d: int64): (r: Result<int64, ExchangeError>)
    ensures d == 0 ==> r == Err(DivisionByZero)
    ensures d != 0 && r.Err? ==> r.error == Overflow
    ensures 0 <= x && 0 <= n && 0 < d ==> (r.Ok? <==> x * n < (MAX_INT64 + 1) * d)
    ensures 0 <= x && 0 <= n && 0 < d && r.Ok? ==> r.value >= 0 && IsFloor(r.value, x * n, d)
  {
    if d == 0 then Err(DivisionByZero) else
    var (hi, lo) := Mul64(ToUint64(x), ToUint64(n));
    var denominator := ToUint64(d);
    if denominator <= hi then
      RoundDownTooLarge(x, n, d, hi, lo);
      Err(Overflow)
    else
      var q := Div64(hi, lo, denominator);
      RoundDownQuotient(x, n, d, hi * TWO64 + lo, q);
      if q > MAX_INT64 then Err(Overflow) else Ok(q)
  }

  lemma RoundDownTooLarge(x: int64, n: int64, d: int64, hi: uint64, lo: uint64)
    requires ToUint64(d) <= hi && hi * TWO64 + lo == ToUint64(x) * ToUint64(n)
    ensures 0 <= x && 0 <= n && 0 < d ==> x * n >= (MAX_INT64 + 1) * d
  {
    hide ToUint64;
    if 0 < d {
      MulLe(d, hi, TWO64);
    }
  }

  lemma RoundDownQuotient(x: int64, n: int64, d: int64, p: int, q: uint64)
    requires d != 0 && p == ToUint64(x) * ToUint64(n) && IsFloor(q, p, ToUint64(d))
    ensures 0 <= x && 0 <= n && 0 < d ==>
      IsFloor(q, x * n, d) && (q <= MAX_INT64 <==> x * n < (MAX_INT64 + 1) * d)
  {
    hide ToUint64;
    if 0 <= x && 0 <= n && 0 < d {
      QuotientSize(q, p, d);
    }
  }

  lemma QuotientSize(q: int, p: int, d: int)
    requires d > 0 && IsFloor(q, p, d)
    ensures q <= MAX_INT64 <==> p < (MAX_INT64 + 1) * d
  {
    FloorUnique(q, MAX_INT64, p, d);
    FloorUnique(q, MAX_INT64 + 1, p, d);
  }

  /** The two words hi * 2^64 + lo plus one word; the high word wraps. */
  function AddWord(hi: uint64, lo: uint64, y: uint64): (w: (uint64, uint64))
    ensures hi + 1 < TWO64 ==> w.0 * TWO64 + w.1 == hi * TWO64 + lo + y
  {
    var (sum, carry) := Add64(lo, y);
    ((hi + carry) % TWO64, sum)
  }

  /** x * n / d rounded up, in two-word arithmetic. */
  function MulFractionRoundUp(x: int64, n: int64, d: int64): (r: Result<int64, ExchangeError>)
    ensures d == 0 ==> r == Err(DivisionByZero)
    ensures d != 0 && r.Err? ==> r.error == Overflow
    ensures 0 <= x && 0 <= n && 0 < d ==> (r.Ok? <==> x * n <= MAX_INT64 * d)
    ensures 0 <= x && 0 <= n && 0 < d && r.Ok? ==> r.value >= 0 && IsCeiling(r.value, x * n, d)
  {
    if d == 0 then Err(DivisionByZero) else
    var (hi0, lo0) := Mul64(ToUint64(x), ToUint64(n));
    var (hi, lo) := AddWord(hi0, lo0, (d - 1) % TWO64);
    var denominator := ToUint64(d);
    RoundUpWords(x, n, d, hi0, lo0, hi, lo);
    if denominator <= hi then
      RoundUpTooLarge(x, n, d, hi, lo);
      Err(Overflow)
    else
      var q := Div64(hi, lo, denominator);
      RoundUpQuotient(x, n, d, hi * TWO64 + lo, q);
      if q > MAX_INT64 then Err(Overflow) else Ok(q)
  }

  lemma RoundUpWords(x: int64, n: int64, d: int64, hi0: uint64, lo0: uint64, hi: uint64, lo: uint64)
    requires d != 0
    requires hi0 * TWO64 + lo0 == ToUint64(x) * ToUint64(n)
    requires (hi, lo) == AddWord(hi0, lo0, (d - 1) % TWO64)
    ensures 0 <= x && 0 <= n && 0 < d ==> hi * TWO64 + lo == x * n + d - 1
  {
    hide ToUint64, AddWord;
    if 0 <= x && 0 <= n && 0 < d {
      MulMono(x, MAX_INT64, n, MAX_INT64);
      HighWordSmall(hi0, lo0, x * n);
      SmallWord(d - 1);
    }
  }

  lemma SmallWord(x: int)
    requires 0 <= x < TWO64
    ensures x % TWO64 == x
  {
  }

  lemma HighWordSmall(hi: uint64, lo: uint64, p: int)
    requires hi * TWO64 + lo == p <= MAX_INT64 * MAX_INT64
    ensures hi + 1 < TWO64
  {
  }

  lemma RoundUpTooLarge(x: int64, n: int64, d: int64, hi: uint64, lo: uint64)
    requires ToUint64(d) <= hi
    ensures 0 <= x && 0 <= n && 0 < d && hi * TWO64 + lo == x * n + d - 1 ==> x * n > MAX_INT64 * d
  {
    hide ToUint64;
    if 0 < d {
      MulLe(d, hi, TWO64);
    }
  }

  lemma RoundUpQuotient(x: int64, n: int64, d: int64, p: int, q: uint64)
    requires d != 0 && IsFloor(q, p, ToUint64(d))
    ensures 0 <= x && 0 <= n && 0 < d && p == x * n + d - 1 ==>
      IsCeiling(q, x * n, d) && (q <= MAX_INT64 <==> x * n <= MAX_INT64 * d)
  {
    hide ToUint64;
    if 0 < d {
      CancelFactor(q, MAX_INT64 + 1, d);
      CancelFactor(MAX_INT64, q, d);
    }
  }

  // ----- Splitting an offer -----

  function Min(x: int64, y: int64): (r: int64)
    ensures r <= x && r <= y && (r == x || r == y)
  {
    if x <= y then x else y
  }

  /** What x units are worth at the price n/d, rounded down. */
  function Worth(x: int, n: int, d: int): int
    requires d > 0
  {
    x * n / d
  }

  lemma WorthIsFloor(x: int, n: int, d: int, v: int)
    requires d > 0
    ensures IsFloor(v, x * n, d) <==> v == Worth(x, n, d)
  {
    var q := x * n / d;
    assert IsFloor(q, x * n, d);
    if IsFloor(v, x * n, d) {
      FloorUnique(q, v, x * n, d);
    }
  }

  ghost predicate IsLeastOfSameWorth(r: int, offer: int, n: int, d: int)
    requires d > 0
  {
    && 0 <= r && Worth(r, n, d) == Worth(offer, n, d)
    && forall x :: 0 <= x && Worth(x, n, d) == Worth(offer, n, d) ==> r <= x
  }

  /** Going down to value and back up lands on the least amount of the same worth. */
  lemma RoundTrip(offer: int64, n: int64, d: int64, value: int64, r: int)
    requires 0 <= offer && 0 < n && 0 < d
    requires value >= 0 && IsFloor(value, offer * n, d) && r >= 0 && IsCeiling(r, value * d, n)
    ensures IsLeastOfSameWorth(r, offer, n, d) && r <= offer
  {
    WorthIsFloor(offer, n, d, value);
    CeilingUnique(r, offer, value * d, n);
    MulLe(r, offer, n);
    WorthIsFloor(r, n, d, value);
    forall x | 0 <= x && Worth(x, n, d) == Worth(offer, n, d)
      ensures r <= x
    {
      WorthIsFloor(x, n, d, value);
      CeilingUnique(r, x, value * d, n);
    }
  }

  /** offerSellingBound: when a unit sold is worth at most a unit bought, the offer is cut down to
      what its rounded-down worth buys back. */
  function SellingBound(offer: int64, n: int64, d: int64): (r: Result<int64, ExchangeError>)
    ensures 0 <= offer && 0 < n && 0 < d ==> r.Ok? && 0 <= r.value <= offer
    ensures 0 <= offer && 0 < d < n ==> r == Ok(offer)
    ensures 0 <= offer && 0 < n <= d ==> IsLeastOfSameWorth(r.value, offer, n, d)
    ensures r.Err? && d != 0 && n != 0 ==> r.error == Overflow
  {
    if n > d then Ok(offer) else
    match MulFractionRoundDown(offer, n, d)
    case Err(e) =>
      assert 0 <= offer && 0 < n && 0 < d ==> false by {
        if 0 <= offer && 0 < n && 0 < d { DownFits(offer, n, d); }
      }
      Err(e)
    case Ok(value) =>
      var up := MulFractionRoundUp(value, d, n);
      assert 0 <= offer && 0 < n <= d ==> up.Ok? && up.value <= offer && IsLeastOfSameWorth(up.value, offer, n, d) by {
        if 0 <= offer && 0 < n <= d {
          MulLe(offer, MAX_INT64, n);
          RoundTrip(offer, n, d, value, up.value);
        }
      }
      up
  }

  lemma DownFits(x: int64, n: int64, d: int64)
    requires 0 <= x && 0 < n <= d
    ensures x * n <= MAX_INT64 * d
  {
    MulMono(x, MAX_INT64, n, d);
  }

  /** price/main.go's ConvertToBuyingUnits: the units bought and the units sold. */
  function ConvertToBuyingUnits(offer: int64, needed: int64, n: int64, d: int64): (r: Result<(int64, int64), ExchangeError>)
    ensures 0 <= offer && 0 <= needed && 0 < n <= d ==> r.Ok?
    ensures 0 <= offer && 0 <= needed && 0 < d < n ==>
      (r.Ok? <==> Min(offer, needed) * n <= MAX_INT64 * d) && (r.Err? ==> r.error == Overflow)
    ensures 0 <= offer && 0 <= needed && 0 < n && 0 < d && r.Ok? ==>
      var (bought, sold) := r.value;
      && 0 <= bought && 0 <= sold <= offer && sold <= needed
      && sold == Min(SellingBound(offer, n, d).value, needed)
      && IsCeiling(bought, sold * n, d)
    ensures d == 0 || (n == 0 && d > 0 && offer >= 0) ==> r == Err(DivisionByZero)
  {
    match SellingBound(offer, n, d)
    case Err(e) => Err(e)
    case Ok(bound) =>
      var sold := Min(bound, needed);
      var up := MulFractionRoundUp(sold, n, d);
      assert 0 <= sold && 0 < n <= d ==> up.Ok? by {
        if 0 <= sold && 0 < n <= d { DownFits(sold, n, d); }
      }
      match up
      case Err(e) => Err(e)
      case Ok(bought) => Ok((bought, sold))
  }

  /** Cutting the offer down to its selling bound beforehand changes nothing. */
  lemma SellingBoundIdempotent(offer: int64, needed: int64, n: int64, d: int64)
    requires 0 <= offer && 0 <= needed && 0 < n && 0 < d
    ensures var bound := SellingBound(offer, n, d).value;
      && SellingBound(bound, n, d) == Ok(bound)
      && ConvertToBuyingUnits(bound, needed, n, d) == ConvertToBuyingUnits(offer, needed, n, d)
  {
    var bound := SellingBound(offer, n, d).value;
    var again := SellingBound(bound, n, d).value;
    if n <= d {
      assert Worth(bound, n, d) == Worth(offer, n, d) == Worth(again, n, d);
    }
  }
}
