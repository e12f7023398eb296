/** Continued-fraction convergents of a price P/Q with Q > 0, and what the last one that fits in 32 bits
    minimises: |d * P/Q - n| over all 32-bit fractions n/d, and |P/Q - n/d| up to its own denominator. */
module Convergents {
  import opened Arithmetic

  datatype Fraction = Fraction(n: int, d: int)

  function Abs(x: int): nat {
    if x < 0 then -x else x
  }

  /** |d * P/Q - n|, scaled by Q: how far n/d is from P/Q, measured at denominator d. */
  function Error(P: int, Q: int, n: int, d: int): nat {
    Abs(P * d - Q * n)
  }

  /** |P/Q - r/q| < |P/Q - n/d|, multiplied out by Q * q * d. */
  predicate StrictlyCloser(P: int, Q: int, r: int, q: int, n: int, d: int)
    requires Q > 0 && q > 0 && d > 0
  {
    Error(P, Q, r, q) * d < Error(P, Q, n, d) * q
  }

  ghost predicate Coprime(n: int, d: int) {
    forall c :: c > 1 && n % c == 0 ==> d % c != 0
  }

  /** Nothing representable has a smaller Error. */
  ghost predicate LeastError(P: int, Q: int, n: int, d: int) {
    forall r, q :: r <= MAX_INT32 && 1 <= q <= MAX_INT32 ==> Error(P, Q, n, d) <= Error(P, Q, r, q)
  }

  ghost predicate BestUpToDenominator(P: int, Q: int, n: int, d: int)
    requires Q > 0 && d > 0
  {
    forall r, q :: 1 <= q <= d ==> !StrictlyCloser(P, Q, r, q, n, d)
  }

  // ----- The state of the expansion -----

  /** P/Q = (num * f1 + den * f0) as a mediant, where f1 is the latest convergent, f0 the one
      before and num/den what is left to expand. */
  ghost predicate Expansion(P: int, Q: int, num: int, den: int, f0: Fraction, f1: Fraction) {
    && den > 0
    && P == num * f1.n + den * f0.n
    && Q == num * f1.d + den * f0.d
    && Unimodular(f0, f1)
  }

  ghost predicate Unimodular(f0: Fraction, f1: Fraction) {
    Det(f0, f1) == 1 || Det(f0, f1) == -1
  }

  function Det(f0: Fraction, f1: Fraction): int {
    f1.n * f0.d - f0.n * f1.d
  }

  ghost predicate Natural(f0: Fraction, f1: Fraction) {
    f0.n >= 0 && f0.d >= 0 && f1.n >= 0 && f1.d >= 0
  }

  function Next(a: int, f0: Fraction, f1: Fraction): Fraction {
    Fraction(a * f1.n + f0.n, a * f1.d + f0.d)
  }

  lemma ExpansionStep(P: int, Q: int, num: int, den: int, f0: Fraction, f1: Fraction)
    requires Expansion(P, Q, num, den, f0, f1)
    ensures var a, rem := num / den, num % den; var f2 := Next(a, f0, f1);
      && P == den * f2.n + rem * f1.n
      && Q == den * f2.d + rem * f1.d
      && Det(f1, f2) == -Det(f0, f1)
      && 0 <= rem < den
  {
    var a, rem := num / den, num % den;
    assert num == a * den + rem;
    var f2 := Next(a, f0, f1);
    Distribute(a, den, rem, f0.n, f1.n);
    Distribute(a, den, rem, f0.d, f1.d);
    assert Det(f1, f2) == -Det(f0, f1) by {
      assert f2.n * f1.d == a * f1.n * f1.d + f0.n * f1.d;
      assert f1.n * f2.d == a * f1.n * f1.d + f1.n * f0.d;
    }
  }

  lemma Distribute(a: int, den: int, rem: int, x0: int, x1: int)
    ensures (a * den + rem) * x1 + den * x0 == den * (a * x1 + x0) + rem * x1
  {
    assert (a * den + rem) * x1 == a * den * x1 + rem * x1;
    assert den * (a * x1 + x0) == den * a * x1 + den * x0;
  }

  lemma UnimodularIsCoprime(f0: Fraction, f1: Fraction)
    requires Unimodular(f0, f1)
    ensures Coprime(f1.n, f1.d)
  {
    forall c | c > 1 && f1.n % c == 0
      ensures f1.d % c != 0
    {
      if f1.d % c == 0 {
        var x, y := f1.n / c, f1.d / c;
        assert f1.n == c * x && f1.d == c * y;
        var z := x * f0.d - f0.n * y;
        assert c * z == Det(f0, f1) by {
          assert c * (x * f0.d) == f1.n * f0.d;
          assert c * (f0.n * y) == f0.n * f1.d;
        }
        NoUnitMultiple(c, z);
      }
    }
  }

  lemma NoUnitMultiple(c: int, z: int)
    requires c > 1
    ensures c * z != 1 && c * z != -1
  {
    if z >= 1 {
      assert c * z >= c;
    } else if z <= -1 {
      assert c * z <= -c;
    }
  }

  // ----- Why nothing that fits has a smaller Error than the convergent kept -----

  /** f1 is the last convergent kept and f2 the one the loop refused. */
  ghost predicate Refused(P: int, Q: int, den: int, rem: int, f1: Fraction, f2: Fraction) {
    && P == den * f2.n + rem * f1.n
    && Q == den * f2.d + rem * f1.d
    && 0 <= rem < den
    && Unimodular(f1, f2)
    && Natural(f1, f2)
    && 1 <= f1.d < f2.d
    && (f2.n > MAX_INT32 || f2.d > MAX_INT32)
  }

  /** Any fraction is an integer combination of two neighbouring convergents. */
  lemma Coordinates(f1: Fraction, f2: Fraction, r: int, q: int) returns (u: int, v: int)
    requires Unimodular(f1, f2)
    ensures r == u * f1.n + v * f2.n
    ensures q == u * f1.d + v * f2.d
  {
    var D := Det(f1, f2);
    u, v := -D * (r * f2.d - q * f2.n), -D * (f1.n * q - f1.d * r);
    assert D * D == 1;
    calc {
      u * f1.n + v * f2.n;
      -D * ((r * f2.d - q * f2.n) * f1.n + (f1.n * q - f1.d * r) * f2.n);
      { assert (r * f2.d - q * f2.n) * f1.n + (f1.n * q - f1.d * r) * f2.n == r * (f2.d * f1.n - f1.d * f2.n); }
      -D * (r * -D);
      (D * D) * r;
      r;
    }
    calc {
      u * f1.d + v * f2.d;
      -D * ((r * f2.d - q * f2.n) * f1.d + (f1.n * q - f1.d * r) * f2.d);
      { assert (r * f2.d - q * f2.n) * f1.d + (f1.n * q - f1.d * r) * f2.d == q * (f1.n * f2.d - f2.n * f1.d); }
      -D * (q * -D);
      (D * D) * q;
      q;
    }
  }

  lemma ErrorInCoordinates(P: int, Q: int, den: int, rem: int, f1: Fraction, f2: Fraction, u: int, v: int)
    requires P == den * f2.n + rem * f1.n && Q == den * f2.d + rem * f1.d
    requires Unimodular(f1, f2)
    ensures Error(P, Q, u * f1.n + v * f2.n, u * f1.d + v * f2.d) == Abs(u * den - v * rem)
  {
    var r, q, D := u * f1.n + v * f2.n, u * f1.d + v * f2.d, Det(f1, f2);
    CrossDifference(den, rem, u, v, f1.n, f1.d, f2.n, f2.d);
    assert P * q - Q * r == D * (u * den - v * rem);
  }

  lemma CrossDifference(den: int, rem: int, u: int, v: int, h1: int, k1: int, h2: int, k2: int)
    ensures (den * h2 + rem * h1) * (u * k1 + v * k2) - (den * k2 + rem * k1) * (u * h1 + v * h2)
         == (h2 * k1 - h1 * k2) * (u * den - v * rem)
  {
    Product(den, rem, u, v, h2, h1, k1, k2);
    Product(den, rem, u, v, k2, k1, h1, h2);
    var A, B := h2 * k1, h1 * k2;
    calc {
      (A - B) * (u * den - v * rem);
      A * (u * den) - A * (v * rem) - B * (u * den) + B * (v * rem);
      (den * u) * A + (rem * v) * B - (den * u) * B - (rem * v) * A;
    }
  }

  lemma Product(a: int, b: int, u: int, v: int, x: int, y: int, k1: int, k2: int)
    ensures (a * x + b * y) * (u * k1 + v * k2)
         == (a * u) * (x * k1) + (a * v) * (x * k2) + (b * u) * (y * k1) + (b * v) * (y * k2)
  {
    var X, Y, U, V := a * x, b * y, u * k1, v * k2;
    assert (X + Y) * (U + V) == X * U + X * V + Y * U + Y * V;
    Regroup(a, x, u, k1);
    Regroup(a, x, v, k2);
    Regroup(b, y, u, k1);
    Regroup(b, y, v, k2);
  }

  lemma Regroup(a: int, x: int, u: int, k: int)
    ensures (a * x) * (u * k) == (a * u) * (x * k)
  {
    calc {
      (a * x) * (u * k);
      a * (x * (u * k));
      a * (u * (x * k));
      (a * u) * (x * k);
    }
  }

  /** A fraction in the positive cone of f1 and the refused f2 that is representable, or has
      denominator at most f1's, is a multiple of f1. */
  lemma NotBeyondRefused(f1: Fraction, f2: Fraction, u: int, v: int)
    requires Natural(f1, f2) && 1 <= f1.d < f2.d
    requires f2.n > MAX_INT32 || f2.d > MAX_INT32
    requires var r, q := u * f1.n + v * f2.n, u * f1.d + v * f2.d;
      (r <= MAX_INT32 && q <= MAX_INT32) || q <= f1.d
    requires u >= 0 && v >= 0
    ensures v == 0
  {
    if v >= 1 {
      PositiveCone(f1, f2, u, v);
      assert false;
    }
  }

  lemma PositiveCone(f1: Fraction, f2: Fraction, u: int, v: int)
    requires Natural(f1, f2) && u >= 0 && v >= 1
    ensures u * f1.n + v * f2.n >= f2.n
    ensures u * f1.d + v * f2.d >= f2.d
  {
    assert v * f2.n >= f2.n && v * f2.d >= f2.d;
    assert u * f1.n >= 0 && u * f1.d >= 0;
  }

  lemma OppositeSigns(u: int, v: int, den: int, rem: int)
    requires 0 <= rem < den
    requires (u >= 1 && v <= 0) || (u <= -1 && v >= 0)
    ensures Abs(u * den - v * rem) >= den
  {
    if u >= 1 {
      assert u * den >= den && v * rem <= 0;
    } else {
      assert u * den <= -den && v * rem >= 0;
    }
  }

  lemma NegativeCone(f1: Fraction, f2: Fraction, u: int, v: int)
    requires Natural(f1, f2) && u <= 0 && v <= 0
    ensures u * f1.d + v * f2.d <= 0
  {
    assert u * f1.d <= 0 && v * f2.d <= 0;
  }

  /** The kept convergent has the least Error of every fraction that fits, or that has no larger
      a denominator. */
  lemma KeptHasLeastError(P: int, Q: int, den: int, rem: int, f1: Fraction, f2: Fraction, r: int, q: int)
    requires Refused(P, Q, den, rem, f1, f2)
    requires q >= 1 && ((r <= MAX_INT32 && q <= MAX_INT32) || q <= f1.d)
    ensures Error(P, Q, f1.n, f1.d) <= Error(P, Q, r, q)
  {
    var u, v := Coordinates(f1, f2, r, q);
    assert Error(P, Q, r, q) == Abs(u * den - v * rem) by {
      ErrorInCoordinates(P, Q, den, rem, f1, f2, u, v);
    }
    assert Error(P, Q, f1.n, f1.d) == den by {
      ErrorInCoordinates(P, Q, den, rem, f1, f2, 1, 0);
    }
    if u <= 0 && v <= 0 {
      NegativeCone(f1, f2, u, v);
      assert false;
    }
    if u >= 0 && v >= 0 {
      NotBeyondRefused(f1, f2, u, v);
    }
    OppositeSigns(u, v, den, rem);
  }

  lemma KeptIsBest(P: int, Q: int, den: int, rem: int, f1: Fraction, f2: Fraction)
    requires Q > 0 && Refused(P, Q, den, rem, f1, f2)
    ensures LeastError(P, Q, f1.n, f1.d) && BestUpToDenominator(P, Q, f1.n, f1.d)
  {
    forall r, q | (r <= MAX_INT32 && 1 <= q <= MAX_INT32) || 1 <= q <= f1.d
      ensures Error(P, Q, f1.n, f1.d) <= Error(P, Q, r, q)
    {
      KeptHasLeastError(P, Q, den, rem, f1, f2, r, q);
    }
    forall r, q | 1 <= q <= f1.d
      ensures !StrictlyCloser(P, Q, r, q, f1.n, f1.d)
    {
      MulMono(Error(P, Q, f1.n, f1.d), Error(P, Q, r, q), q, f1.d);
    }
  }

  lemma ExactIsBest(P: int, Q: int, f: Fraction)
    requires Q > 0 && f.d > 0 && P * f.d == Q * f.n
    ensures LeastError(P, Q, f.n, f.d) && BestUpToDenominator(P, Q, f.n, f.d)
  {
  }
}
