/** Which 32-bit fraction is closest to a price.

    A convergent that fits in 32 bits while the next one does not can be beaten: on the other side of
    the price lie the fractions t * f1 + f0, and the largest of them that fits may be closer.  Nothing
    else that fits is. */
module Semiconvergents {
  import opened Arithmetic
  import opened Convergents

  predicate Is32Bit(f: Fraction) {
    -0x8000_0000 <= f.n <= MAX_INT32 && 1 <= f.d <= MAX_INT32
  }

  predicate Closer(P: int, Q: int, f: Fraction, g: Fraction)
    requires Q > 0 && f.d > 0 && g.d > 0
  {
    StrictlyCloser(P, Q, f.n, f.d, g.n, g.d)
  }

  /** No 32-bit fraction is closer to P/Q. */
  ghost predicate Closest(P: int, Q: int, f: Fraction)
    requires Q > 0 && f.d > 0
  {
    forall g :: Is32Bit(g) ==> !Closer(P, Q, g, f)
  }

  /** The largest t for which t * f1 + f0 fits. */
  function Steps(f0: Fraction, f1: Fraction): (t: nat)
    requires f1.n >= 1 && f1.d >= 1 && f0.n <= MAX_INT32 && f0.d <= MAX_INT32
    ensures t * f1.n + f0.n <= MAX_INT32 && t * f1.d + f0.d <= MAX_INT32
    ensures (t + 1) * f1.n + f0.n > MAX_INT32 || (t + 1) * f1.d + f0.d > MAX_INT32
  {
    var x, y := MAX_INT32 - f0.n, MAX_INT32 - f0.d;
    var a, b := x / f1.n, y / f1.d;
    QuotientBounds(x, f1.n);
    QuotientBounds(y, f1.d);
    MulLe(if a <= b then a else b, a, f1.n);
    MulLe(if a <= b then a else b, b, f1.d);
    if a <= b then a else b
  }

  lemma QuotientBounds(x: nat, d: nat)
    requires d >= 1
    ensures x / d >= 0 && x / d * d <= x < (x / d + 1) * d
  {
    assert x == x / d * d + x % d;
    assert (x / d + 1) * d == x / d * d + d;
  }

  function Semiconvergent(f0: Fraction, f1: Fraction): Fraction
    requires f1.n >= 1 && f1.d >= 1 && f0.n <= MAX_INT32 && f0.d <= MAX_INT32
  {
    Next(Steps(f0, f1), f0, f1)
  }

  // ----- Where the fractions that fit lie -----

  /** Kept f1, refused the convergent after it. */
  ghost predicate CutAt(P: int, Q: int, num: int, den: int, f0: Fraction, f1: Fraction) {
    && Q > 0 && num >= 0
    && Expansion(P, Q, num, den, f0, f1) && Natural(f0, f1)
    && 1 <= f1.n <= MAX_INT32 && 1 <= f1.d <= MAX_INT32 && f0.n <= MAX_INT32 && f0.d <= MAX_INT32
    && var f2 := Next(num / den, f0, f1); f2.n > MAX_INT32 || f2.d > MAX_INT32
  }

  /** The fraction with coordinates u and v. */
  function Combine(f0: Fraction, f1: Fraction, u: int, v: int): Fraction {
    Fraction(u * f0.n + v * f1.n, u * f0.d + v * f1.d)
  }

  /** Beyond a multiple of f1 nothing comes back into range. */
  lemma Beyond(f0: Fraction, f1: Fraction, u: int, v: int, t: int)
    requires Natural(f0, f1) && u >= 1 && v >= t
    ensures Combine(f0, f1, u, v).n >= t * f1.n + f0.n
    ensures Combine(f0, f1, u, v).d >= t * f1.d + f0.d
  {
    BeyondOne(f0.n, f1.n, u, v, t);
    BeyondOne(f0.d, f1.d, u, v, t);
  }

  lemma BeyondOne(x0: nat, x1: nat, u: int, v: int, t: int)
    requires u >= 1 && v >= t
    ensures u * x0 + v * x1 >= t * x1 + x0
  {
    MulLe(1, u, x0);
    MulLe(t, v, x1);
  }

  /** P/Q on one side: a fraction that fits is not closer than f1. */
  lemma NotCloserThanKept(P: int, Q: int, num: int, den: int, f0: Fraction, f1: Fraction, u: int, v: int)
    requires CutAt(P, Q, num, den, f0, f1)
    requires Is32Bit(Combine(f0, f1, u, v)) && u * num <= v * den
    ensures !Closer(P, Q, Combine(f0, f1, u, v), f1)
  {
    var g := Combine(f0, f1, u, v);
    Errors(P, Q, num, den, f0, f1, u, v);
    if u >= 1 {
      QuotientReached(num, den, u, v);
      Beyond(f0, f1, u, v, num / den);
      assert false;
    }
    SideOfKept(num, den, f0.d, f1.d, u, v);
    MulLe(u, 0, Q);
    hide Closer, Combine, CutAt;
    assert (v * den - u * num) * f1.d >= den * g.d;
    CloserMeans(P, Q, g, f1);
  }

  lemma CloserMeans(P: int, Q: int, f: Fraction, g: Fraction)
    requires Q > 0 && f.d > 0 && g.d > 0
    ensures Closer(P, Q, f, g) <==> Error(P, Q, f.n, f.d) * g.d < Error(P, Q, g.n, g.d) * f.d
  {
  }

  lemma QuotientReached(num: int, den: int, u: int, v: int)
    requires num >= 0 && den > 0 && u >= 1 && u * num <= v * den
    ensures v >= num / den
  {
    MulLe(1, u, num);
    QuotientBounds(num, den);
    CancelFactor(v, num / den, den);
  }

  /** |u * num - v * den| is the error of the fraction with coordinates u and v. */
  lemma Errors(P: int, Q: int, num: int, den: int, f0: Fraction, f1: Fraction, u: int, v: int)
    requires Expansion(P, Q, num, den, f0, f1)
    ensures var g := Combine(f0, f1, u, v); Error(P, Q, g.n, g.d) == Abs(u * num - v * den)
    ensures Error(P, Q, f1.n, f1.d) == den
  {
    ErrorInCoordinates(P, Q, num, den, f0, f1, u, v);
    ErrorInCoordinates(P, Q, num, den, f0, f1, 0, 1);
  }

  lemma SideOfKept(num: int, den: int, k0: int, k1: int, u: int, v: int)
    ensures (v * den - u * num) * k1 - den * (u * k0 + v * k1) == -(u * (num * k1 + den * k0))
  {
    assert (v * den - u * num) * k1 == v * den * k1 - u * num * k1;
    assert den * (u * k0 + v * k1) == den * u * k0 + den * v * k1;
    assert u * (num * k1 + den * k0) == u * num * k1 + u * den * k0;
  }

  /** On the other side nothing that fits is closer than the semiconvergent, and without one nothing
      fits there at all. */
  lemma NotCloserThanSemiconvergent(P: int, Q: int, num: int, den: int, f0: Fraction, f1: Fraction, u: int, v: int)
    requires CutAt(P, Q, num, den, f0, f1)
    requires Is32Bit(Combine(f0, f1, u, v)) && u * num > v * den
    ensures var s := Semiconvergent(f0, f1); s.d >= 1 && !Closer(P, Q, Combine(f0, f1, u, v), s)
  {
    var g, t := Combine(f0, f1, u, v), Steps(f0, f1);
    var s := Semiconvergent(f0, f1);
    OtherSidePositive(num, den, f0, f1, u, v);
    if v > t * u {
      MulLe(1, u, t);
      Beyond(f0, f1, u, v, t + 1);
      assert false;
    }
    assert s.d >= 1 by {
      if s.d == 0 {
        ZeroSteps(f0, f1, t);
        MulLe(v, 0, f1.d);
        assert false;
      }
    }
    Errors(P, Q, num, den, f0, f1, u, v);
    StepsBelowQuotient(num, den, f0, f1);
    assert Combine(f0, f1, 1, t) == s;
    Errors(P, Q, num, den, f0, f1, 1, t);
    SideOfSemiconvergent(num, den, f0.d, f1.d, u, v, t);
    MulLe(0, t * u - v, Q);
    CloserMeans(P, Q, g, s);
    hide Closer, Combine, CutAt, Steps, Semiconvergent;
  }

  lemma OtherSidePositive(num: int, den: int, f0: Fraction, f1: Fraction, u: int, v: int)
    requires num >= 0 && den > 0 && Natural(f0, f1) && u * num > v * den
    requires u * f0.d + v * f1.d >= 1
    ensures u >= 1
  {
    if u <= 0 {
      MulLe(u, 0, num);
      MulLe(u, 0, f0.d);
      if v >= 0 {
        MulLe(0, v, den);
      } else {
        MulLe(v, 0, f1.d);
      }
      assert false;
    }
  }

  lemma ZeroSteps(f0: Fraction, f1: Fraction, t: nat)
    requires Natural(f0, f1) && f1.d >= 1 && t * f1.d + f0.d == 0
    ensures t == 0 && f0.d == 0
  {
    if t >= 1 {
      MulLe(1, t, f1.d);
      assert false;
    }
  }

  lemma StepsBelowQuotient(num: int, den: int, f0: Fraction, f1: Fraction)
    requires num >= 0 && den > 0 && Natural(f0, f1)
    requires f1.n >= 1 && f1.d >= 1 && f0.n <= MAX_INT32 && f0.d <= MAX_INT32
    requires var f2 := Next(num / den, f0, f1); f2.n > MAX_INT32 || f2.d > MAX_INT32
    ensures Steps(f0, f1) * den < num
  {
    var t, a := Steps(f0, f1), num / den;
    if t >= a {
      MulLe(a, t, f1.n);
      MulLe(a, t, f1.d);
      assert false;
    }
    QuotientBounds(num, den);
    BelowQuotient(t, a, num, den);
  }

  lemma BelowQuotient(t: int, a: int, num: int, den: int)
    requires den > 0 && t < a && a * den <= num
    ensures t * den < num
  {
    MulLe(t + 1, a, den);
    assert (t + 1) * den == t * den + den;
  }

  lemma SideOfSemiconvergent(num: int, den: int, k0: int, k1: int, u: int, v: int, t: int)
    ensures (u * num - v * den) * (t * k1 + k0) - (num - t * den) * (u * k0 + v * k1)
         == (t * u - v) * (num * k1 + den * k0)
  {
    var A, B, C := t * k1 + k0, u * k0 + v * k1, t * u - v;
    Coefficient(t, u, v, k1, k0);
    OtherCoefficient(t, u, v, k1, k0);
    Collect(num, den, u, v, t, A, B);
    assert num * (C * k1) + den * (C * k0) == C * (num * k1 + den * k0) by {
      assert num * (C * k1) == C * (num * k1) && den * (C * k0) == C * (den * k0);
    }
  }

  lemma Coefficient(t: int, u: int, v: int, k1: int, k0: int)
    ensures u * (t * k1 + k0) - (u * k0 + v * k1) == (t * u - v) * k1
  {
    assert u * (t * k1) == (t * u) * k1;
  }

  lemma OtherCoefficient(t: int, u: int, v: int, k1: int, k0: int)
    ensures t * (u * k0 + v * k1) - v * (t * k1 + k0) == (t * u - v) * k0
  {
    assert t * (u * k0) == (t * u) * k0;
    assert t * (v * k1) == v * (t * k1);
  }

  lemma Collect(num: int, den: int, u: int, v: int, t: int, A: int, B: int)
    ensures (u * num - v * den) * A - (num - t * den) * B == num * (u * A - B) + den * (t * B - v * A)
  {
    assert (u * num) * A == num * (u * A) && (v * den) * A == den * (v * A);
    assert (t * den) * B == den * (t * B);
  }

  // ----- The closest fraction -----

  lemma CloserTransitive(x: nat, y: nat, z: nat, a: nat, b: nat, c: nat)
    requires a >= 1 && b >= 1 && c >= 1
    requires x * b >= y * a && y * c >= z * b
    ensures x * c >= z * a
  {
    MulLe(y * a, x * b, c);
    MulLe(z * b, y * c, a);
    assert (y * a) * c == (y * c) * a;
    assert (x * b) * c == (x * c) * b && (z * b) * a == (z * a) * b;
    CancelFactor(x * c, z * a, b);
  }

  /** Every 32-bit fraction is at least as far from the price as the one kept or as the
      semiconvergent. */
  lemma OneOfTwoIsClosest(P: int, Q: int, num: int, den: int, f0: Fraction, f1: Fraction, g: Fraction)
    requires CutAt(P, Q, num, den, f0, f1) && Is32Bit(g)
    ensures !Closer(P, Q, g, f1) || (Semiconvergent(f0, f1).d >= 1 && !Closer(P, Q, g, Semiconvergent(f0, f1)))
  {
    var u, v := Coordinates(f0, f1, g.n, g.d);
    assert g == Combine(f0, f1, u, v);
    if u * num <= v * den {
      NotCloserThanKept(P, Q, num, den, f0, f1, u, v);
    } else {
      NotCloserThanSemiconvergent(P, Q, num, den, f0, f1, u, v);
    }
  }

  /** The kept convergent is the closest 32-bit fraction exactly if the semiconvergent is not closer. */
  lemma KeptIsClosestExactly(P: int, Q: int, num: int, den: int, f0: Fraction, f1: Fraction)
    requires CutAt(P, Q, num, den, f0, f1)
    ensures var s := Semiconvergent(f0, f1); Closest(P, Q, f1) <==> s.d == 0 || !Closer(P, Q, s, f1)
  {
    var s := Semiconvergent(f0, f1);
    SemiconvergentFits(f0, f1);
    if s.d == 0 || !Closer(P, Q, s, f1) {
      forall g | Is32Bit(g)
        ensures !Closer(P, Q, g, f1)
      {
        OneOfTwoIsClosest(P, Q, num, den, f0, f1, g);
        if s.d >= 1 {
          NotCloserTransitive(P, Q, g, s, f1);
        }
      }
    }
  }

  lemma NotCloserTransitive(P: int, Q: int, f: Fraction, g: Fraction, h: Fraction)
    requires Q > 0 && f.d > 0 && g.d > 0 && h.d > 0
    ensures !Closer(P, Q, f, g) && !Closer(P, Q, g, h) ==> !Closer(P, Q, f, h)
  {
    if !Closer(P, Q, f, g) && !Closer(P, Q, g, h) {
      CloserTransitive(Error(P, Q, f.n, f.d), Error(P, Q, g.n, g.d), Error(P, Q, h.n, h.d), f.d, g.d, h.d);
    }
  }

  lemma SemiconvergentFits(f0: Fraction, f1: Fraction)
    requires Natural(f0, f1) && f1.n >= 1 && f1.d >= 1 && f0.n <= MAX_INT32 && f0.d <= MAX_INT32
    ensures var s := Semiconvergent(f0, f1); 0 <= s.n && 0 <= s.d && (s.d >= 1 ==> Is32Bit(s))
  {
    MulMono(0, Steps(f0, f1), 0, f1.n);
    MulMono(0, Steps(f0, f1), 0, f1.d);
  }

  /** An exact result is closest. */
  lemma ExactIsClosest(P: int, Q: int, f: Fraction)
    requires Q > 0 && f.d > 0 && P * f.d == Q * f.n
    ensures Closest(P, Q, f)
  {
    forall g | Is32Bit(g)
      ensures !Closer(P, Q, g, f)
    {
      MulMono(0, Error(P, Q, g.n, g.d), 0, f.d);
    }
  }
}
