/** Parsing a price: the continued-fraction search of price/main.go.

    A price is the rational P/Q with Q > 0.  The loop expands P/Q as a continued fraction and keeps
    the last convergent whose numerator and denominator both fit in a signed 32-bit integer. */
module Price {
  import opened Arithmetic
  import opened Convergents
  import opened Semiconvergents
  import opened Wrappers
  import Decimals

  datatype PriceError = NoApproximation | BadFormat

  // ----- The loop -----

  /** The invariant of the loop for a price P/Q >= 0: before the first step nothing is kept yet;
      afterwards num/den > 1 and the latest convergent is positive in its denominator. */
  ghost predicate Searching(P: int, Q: int, num: int, den: int, f0: Fraction, f1: Fraction) {
    && Expansion(P, Q, num, den, f0, f1)
    && Natural(f0, f1)
    && f1.n <= MAX_INT32 && f1.d <= MAX_INT32
    && (f1.n == 0 ==> f0 == Fraction(1, 0))
    && ((f0, f1, num, den) == (Fraction(0, 1), Fraction(1, 0), P, Q) || (f1.d >= 1 && num > den && f0.n + f0.d >= 1))
  }

  lemma SearchStep(P: int, Q: int, num: int, den: int, f0: Fraction, f1: Fraction)
    requires P >= 0 && Q > 0
    requires Searching(P, Q, num, den, f0, f1)
    requires num % den != 0
    requires var f2 := Next(num / den, f0, f1); f2.n <= MAX_INT32 && f2.d <= MAX_INT32
    ensures Searching(P, Q, den, num % den, f1, Next(num / den, f0, f1))
  {
    hide Expansion, Natural, Next;
    StepPositive(P, Q, num, den, f0, f1);
    StepExpansion(P, Q, num, den, f0, f1);
    NextNatural(num, den, f0, f1);
    SearchingFrom(P, Q, den, num % den, f1, Next(num / den, f0, f1));
  }

  lemma SearchingFrom(P: int, Q: int, num: int, den: int, f0: Fraction, f1: Fraction)
    requires Expansion(P, Q, num, den, f0, f1) && Natural(f0, f1)
    requires f1.n <= MAX_INT32 && f1.d <= MAX_INT32 && f1.d >= 1 && num > den
    requires f0.n + f0.d >= 1 && (f1.n == 0 ==> f0 == Fraction(1, 0))
    ensures Searching(P, Q, num, den, f0, f1)
  {
    hide Expansion, Natural;
  }

  lemma StepExpansion(P: int, Q: int, num: int, den: int, f0: Fraction, f1: Fraction)
    requires Expansion(P, Q, num, den, f0, f1) && num % den != 0
    ensures Expansion(P, Q, den, num % den, f1, Next(num / den, f0, f1)) && num % den < den
  {
    ExpansionStep(P, Q, num, den, f0, f1);
    hide Next, Det;
  }

  /** After a step the latest convergent has a denominator, and a zero numerator only right after 1/0. */
  lemma StepPositive(P: int, Q: int, num: int, den: int, f0: Fraction, f1: Fraction)
    requires P >= 0 && Q > 0 && Searching(P, Q, num, den, f0, f1)
    ensures num >= 0 && den > 0 && f1.n + f1.d >= 1
    ensures var f2 := Next(num / den, f0, f1); f2.d >= 1 && (f2.n == 0 ==> f1 == Fraction(1, 0))
  {
    hide Unimodular;
    if (f0, f1) != (Fraction(0, 1), Fraction(1, 0)) {
      NextGrows(num, den, f0, f1);
      hide Next;
    }
  }

  lemma NextNatural(num: int, den: int, f0: Fraction, f1: Fraction)
    requires num >= 0 && den > 0 && Natural(f0, f1)
    ensures Natural(f1, Next(num / den, f0, f1))
  {
    assert num / den >= 0;
    MulMono(0, num / den, 0, f1.n);
    MulMono(0, num / den, 0, f1.d);
  }

  lemma NextGrows(num: int, den: int, f0: Fraction, f1: Fraction)
    requires num >= 0 && den > 0 && Natural(f0, f1)
    ensures num >= den ==> Next(num / den, f0, f1).n >= f1.n + f0.n && Next(num / den, f0, f1).d >= f1.d + f0.d
    ensures f1.d == 0 ==> Next(num / den, f0, f1).d == f0.d
  {
    if num >= den {
      assert num / den >= 1;
      MulMono(1, num / den, f1.n, f1.n);
      MulMono(1, num / den, f1.d, f1.d);
    }
  }

  /** 1/MaxInt32 <= P/Q <= MaxInt32. */
  ghost predicate Representable(P: int, Q: int) {
    P <= MAX_INT32 * Q && Q <= MAX_INT32 * P
  }

  /** What the part of the expansion already accepted says about the magnitude of P/Q. */
  ghost predicate MagnitudeKnown(P: int, Q: int, f1: Fraction) {
    && (f1.d >= 1 ==> P <= MAX_INT32 * Q)
    && (f1.n >= 1 && f1.d >= 1 ==> Q <= MAX_INT32 * P)
  }

  /** f is what the loop leaves behind: the fraction of least Error, or unusable because P/Q is too
      large or too small. */
  ghost predicate Outcome(P: int, Q: int, f: Fraction)
    requires Q > 0
  {
    if f.n == 0 || f.d == 0 then !Representable(P, Q)
    else
      && Representable(P, Q)
      && 1 <= f.n <= MAX_INT32 && 1 <= f.d <= MAX_INT32
      && Coprime(f.n, f.d)
      && LeastError(P, Q, f.n, f.d)
      && BestUpToDenominator(P, Q, f.n, f.d)
  }

  /** The only convergent 0/d is 0/1, reached from 1/0. */
  lemma ZeroConvergent(f0: Fraction, f1: Fraction)
    requires Natural(f0, f1) && Unimodular(f0, f1) && f1.n == 0
    ensures f1.d == 1 && f0.n == 1
  {
    assert f0.n * f1.d == 1;
    if f0.n >= 2 || f1.d >= 2 {
      if f0.n == 0 || f1.d == 0 {
        assert false;
      }
      MulMono(if f0.n >= 2 then 2 else 1, f0.n, if f1.d >= 2 then 2 else 1, f1.d);
      assert false;
    }
  }

  /** The only convergents with denominator 0 is 1/0, followed by a convergent a/1. */
  lemma ZeroDenominator(f0: Fraction, f1: Fraction)
    requires Natural(f0, f1) && Unimodular(f0, f1) && f0.d == 0
    ensures f0.n == 1 && f1.d == 1
  {
    ZeroConvergent(Fraction(f1.d, f1.n), Fraction(f0.d, f0.n));
  }

  lemma QuotientBound(num: int, den: int)
    requires 0 <= num <= MAX_INT32 * den && den > 0
    ensures 0 <= num / den <= MAX_INT32
    ensures num / den >= 1 ==> num >= den
  {
  }

  /** The expansion is either at its start 1/0, at 0/1 with P/Q < 1, or past both. */
  lemma EarlySteps(P: int, Q: int, num: int, den: int, f0: Fraction, f1: Fraction)
    requires P >= 0 && Q > 0 && Searching(P, Q, num, den, f0, f1)
    ensures num >= 0 && den > 0 && f1.n >= 0 && f1.d >= 0
    ensures f1.d == 0 ==> f0 == Fraction(0, 1) && f1 == Fraction(1, 0) && num == P && den == Q
    ensures f1.n == 0 ==> f0 == Fraction(1, 0) && f1 == Fraction(0, 1) && den == P && num == Q
  {
    if f1.n == 0 {
      ZeroConvergent(f0, f1);
    }
  }

  lemma MagnitudeStep(P: int, Q: int, num: int, den: int, f0: Fraction, f1: Fraction)
    requires P >= 0 && Q > 0
    requires Searching(P, Q, num, den, f0, f1) && MagnitudeKnown(P, Q, f1)
    requires num <= MAX_INT32 * den
    ensures MagnitudeKnown(P, Q, Next(num / den, f0, f1))
  {
    hide Searching;
    EarlySteps(P, Q, num, den, f0, f1);
    if f1.n == 0 || f1.d == 0 {
      QuotientBound(num, den);
    } else {
      hide Next;
    }
  }

  /** Stopping because what is left exceeds MaxInt32. */
  lemma StopOnLargeRest(P: int, Q: int, num: int, den: int, f0: Fraction, f1: Fraction)
    requires P >= 0 && Q > 0
    requires Searching(P, Q, num, den, f0, f1) && MagnitudeKnown(P, Q, f1)
    requires num > MAX_INT32 * den
    ensures Outcome(P, Q, f1)
  {
    EarlySteps(P, Q, num, den, f0, f1);
    if f1.n >= 1 && f1.d >= 1 {
      LargeRestOverflows(P, Q, num, den, f0, f1);
      StopOnOverflow(P, Q, num, den, f0, f1);
    } else {
      hide Searching;
    }
  }

  lemma LargeRestOverflows(P: int, Q: int, num: int, den: int, f0: Fraction, f1: Fraction)
    requires den > 0 && Natural(f0, f1) && Unimodular(f0, f1)
    requires f1.n >= 1 && f1.d >= 1 && num > MAX_INT32 * den
    ensures var f2 := Next(num / den, f0, f1); f2.n > MAX_INT32 || f2.d > MAX_INT32
  {
    QuotientAtLeast(num, den, MAX_INT32);
    MulMono(MAX_INT32, num / den, 1, f1.n);
    MulMono(MAX_INT32, num / den, 1, f1.d);
    assert f0.n >= 1 || f0.d >= 1;
  }

  /** The denominators grow strictly up to a refused convergent. */
  lemma RefusedDenominatorGrows(P: int, Q: int, num: int, den: int, f0: Fraction, f1: Fraction)
    requires Expansion(P, Q, num, den, f0, f1) && Natural(f0, f1)
    requires P <= MAX_INT32 * Q && f1.d >= 1 && num > den
    requires var f2 := Next(num / den, f0, f1); f2.n > MAX_INT32 || f2.d > MAX_INT32
    requires f1.d <= MAX_INT32
    ensures f1.d < Next(num / den, f0, f1).d
  {
    if f0.d >= 1 {
      NextGrows(num, den, f0, f1);
    } else {
      ZeroDenominator(f0, f1);
      assert num * f1.n + den <= MAX_INT32 * num;
      assert f1.n < MAX_INT32 by {
        if f1.n >= MAX_INT32 { MulMono(num, num, MAX_INT32, f1.n); }
      }
      hide Expansion;
      assert num / den != 1;
      assert num / den >= 1;
    }
  }

  lemma NextIsRefused(P: int, Q: int, num: int, den: int, f0: Fraction, f1: Fraction)
    requires P >= 0 && Q > 0
    requires Searching(P, Q, num, den, f0, f1) && MagnitudeKnown(P, Q, f1)
    requires f1.n >= 1 && f1.d >= 1
    requires var f2 := Next(num / den, f0, f1); f2.n > MAX_INT32 || f2.d > MAX_INT32
    ensures Refused(P, Q, den, num % den, f1, Next(num / den, f0, f1))
  {
    RefusedDenominatorGrows(P, Q, num, den, f0, f1);
    assert Expansion(P, Q, num, den, f0, f1) && Natural(f0, f1) && num >= 0;
    hide Searching;
    ExpansionStep(P, Q, num, den, f0, f1);
    NextNatural(num, den, f0, f1);
    assert Unimodular(f0, f1);
    hide Expansion, Next;
  }

  /** Stopping because the next convergent does not fit. */
  lemma StopOnOverflow(P: int, Q: int, num: int, den: int, f0: Fraction, f1: Fraction)
    requires P >= 0 && Q > 0
    requires Searching(P, Q, num, den, f0, f1) && MagnitudeKnown(P, Q, f1)
    requires f1.n >= 1 && f1.d >= 1
    requires var f2 := Next(num / den, f0, f1); f2.n > MAX_INT32 || f2.d > MAX_INT32
    ensures Outcome(P, Q, f1)
  {
    NextIsRefused(P, Q, num, den, f0, f1);
    assert Unimodular(f0, f1) && f1.n <= MAX_INT32 && f1.d <= MAX_INT32;
    hide Searching, Refused, Next, LeastError, BestUpToDenominator, Coprime;
    UnimodularIsCoprime(f0, f1);
    KeptIsBest(P, Q, den, num % den, f1, Next(num / den, f0, f1));
  }

  /** The convergents a/1 and 1/a fit whenever what is left does not exceed MaxInt32. */
  lemma OverflowIsLater(P: int, Q: int, num: int, den: int, f0: Fraction, f1: Fraction)
    requires P >= 0 && Q > 0 && Searching(P, Q, num, den, f0, f1) && num <= MAX_INT32 * den
    requires var f2 := Next(num / den, f0, f1); f2.n > MAX_INT32 || f2.d > MAX_INT32
    ensures f1.n >= 1 && f1.d >= 1
  {
    hide Searching;
    EarlySteps(P, Q, num, den, f0, f1);
    QuotientBound(num, den);
  }

  /** Stopping because the expansion is complete. */
  lemma StopOnExact(P: int, Q: int, num: int, den: int, f0: Fraction, f1: Fraction)
    requires P >= 0 && Q > 0
    requires Searching(P, Q, num, den, f0, f1) && MagnitudeKnown(P, Q, f1)
    requires num <= MAX_INT32 * den && num % den == 0
    requires var f2 := Next(num / den, f0, f1); f2.n <= MAX_INT32 && f2.d <= MAX_INT32
    ensures Outcome(P, Q, Next(num / den, f0, f1))
  {
    var f2 := Next(num / den, f0, f1);
    hide Searching, MagnitudeKnown, Outcome, Next, Unimodular, Coprime;
    ExactStep(P, Q, num, den, f0, f1);
    MagnitudeStep(P, Q, num, den, f0, f1);
    UnimodularIsCoprime(f1, f2);
    ExactOutcome(P, Q, den, f2);
  }

  lemma ExactOutcome(P: int, Q: int, den: int, f: Fraction)
    requires P >= 0 && Q > 0 && P == den * f.n && Q == den * f.d
    requires MagnitudeKnown(P, Q, f) && Coprime(f.n, f.d)
    requires 0 <= f.n <= MAX_INT32 && 0 <= f.d <= MAX_INT32
    ensures Outcome(P, Q, f)
  {
    hide Coprime, LeastError, BestUpToDenominator;
    ExactCross(P, Q, den, f);
    if f.n == 0 || f.d == 0 {
      assert P == 0;
    } else {
      ExactIsBest(P, Q, f);
    }
  }

  lemma ExactStep(P: int, Q: int, num: int, den: int, f0: Fraction, f1: Fraction)
    requires P >= 0 && Q > 0
    requires Searching(P, Q, num, den, f0, f1) && num % den == 0
    ensures var f2 := Next(num / den, f0, f1);
      && P == den * f2.n && Q == den * f2.d
      && f2.n >= 0 && f2.d >= 0 && Unimodular(f1, f2)
  {
    hide Expansion, Next, Unimodular;
    StepPositive(P, Q, num, den, f0, f1);
    NextNatural(num, den, f0, f1);
    ExactExpansion(P, Q, num, den, f0, f1);
  }

  lemma ExactExpansion(P: int, Q: int, num: int, den: int, f0: Fraction, f1: Fraction)
    requires Expansion(P, Q, num, den, f0, f1) && num % den == 0
    ensures var f2 := Next(num / den, f0, f1); P == den * f2.n && Q == den * f2.d && Unimodular(f1, f2)
  {
    ExpansionStep(P, Q, num, den, f0, f1);
    hide Expansion, Next, Det;
  }

  lemma ExactCross(P: int, Q: int, den: int, f: Fraction)
    requires P == den * f.n && Q == den * f.d
    ensures P * f.d == Q * f.n
  {
    assert (den * f.n) * f.d == (den * f.d) * f.n;
  }

  /** The loop invariant; it speaks of non-negative prices only. */
  ghost predicate Invariant(P: int, Q: int, num: int, den: int, fs: seq<Fraction>)
    requires |fs| >= 2
  {
    P >= 0 ==>
      && Searching(P, Q, num, den, fs[|fs| - 2], fs[|fs| - 1])
      && MagnitudeKnown(P, Q, fs[|fs| - 1])
  }

  lemma Start(P: int, Q: int)
    requires Q > 0
    ensures Invariant(P, Q, P, Q, [Fraction(0, 1), Fraction(1, 0)])
  {
  }

  lemma Finish(P: int, Q: int, f: Fraction)
    requires Q > 0 && Outcome(P, Q, f)
    ensures f.n == 0 || f.d == 0 ==> !Representable(P, Q)
    ensures f.n != 0 && f.d != 0 ==> Representable(P, Q)
    ensures f.n != 0 && f.d != 0 ==>
      && 1 <= f.n <= MAX_INT32 && 1 <= f.d <= MAX_INT32
      && Coprime(f.n, f.d) && LeastError(P, Q, f.n, f.d) && BestUpToDenominator(P, Q, f.n, f.d)
  {
    hide Representable, Coprime, LeastError, BestUpToDenominator;
  }

  lemma Keep(P: int, Q: int, num: int, den: int, fs: seq<Fraction>, f2: Fraction)
    requires Q > 0 && den > 0 && |fs| >= 2 && Invariant(P, Q, num, den, fs)
    requires num <= MAX_INT32 * den
    requires f2 == Next(num / den, fs[|fs| - 2], fs[|fs| - 1])
    requires f2.n <= MAX_INT32 && f2.d <= MAX_INT32
    ensures P >= 0 && num % den == 0 ==> Outcome(P, Q, f2)
    ensures num % den != 0 ==> Invariant(P, Q, den, num % den, fs + [f2])
  {
    hide Searching, MagnitudeKnown, Outcome, Representable;
    if P >= 0 {
      var f0, f1 := fs[|fs| - 2], fs[|fs| - 1];
      if num % den == 0 {
        StopOnExact(P, Q, num, den, f0, f1);
      } else {
        SearchStep(P, Q, num, den, f0, f1);
        MagnitudeStep(P, Q, num, den, f0, f1);
      }
    }
  }

  lemma Stop(P: int, Q: int, num: int, den: int, fs: seq<Fraction>)
    requires Q > 0 && den > 0 && |fs| >= 2 && Invariant(P, Q, num, den, fs)
    requires var f2 := Next(num / den, fs[|fs| - 2], fs[|fs| - 1]);
      num > MAX_INT32 * den || f2.n > MAX_INT32 || f2.d > MAX_INT32
    ensures P >= 0 ==> Outcome(P, Q, fs[|fs| - 1])
  {
    hide Searching, MagnitudeKnown, Outcome, Representable;
    if P >= 0 {
      var f0, f1 := fs[|fs| - 2], fs[|fs| - 1];
      if num > MAX_INT32 * den {
        StopOnLargeRest(P, Q, num, den, f0, f1);
      } else {
        OverflowIsLater(P, Q, num, den, f0, f1);
        StopOnOverflow(P, Q, num, den, f0, f1);
      }
    }
  }

  // ----- Where the search ends -----

  /** How the loop ends: with nothing left after f, or with f1 kept because the next one is refused. */
  datatype SearchEnd = Exact(f: Fraction) | Cut(f0: Fraction, f1: Fraction) {
    function Kept(): Fraction {
      if Exact? then f else f1
    }
  }

  function Search(num: int, den: int, f0: Fraction, f1: Fraction): SearchEnd
    requires den > 0
    decreases den
  {
    if num > MAX_INT32 * den then Cut(f0, f1) else
    var f2 := Next(num / den, f0, f1);
    if f2.n > MAX_INT32 || f2.d > MAX_INT32 then Cut(f0, f1) else
    if num % den == 0 then Exact(f2) else Search(den, num % den, f1, f2)
  }

  function SearchPrice(P: int, Q: int): SearchEnd
    requires Q > 0
  {
    Search(P, Q, Fraction(0, 1), Fraction(1, 0))
  }

  /** The search was cut off, and the largest semiconvergent that fits is closer than what was kept. */
  predicate Beaten(P: int, Q: int, stop: SearchEnd)
    requires Q > 0
  {
    stop.Cut? && stop.f0.n <= MAX_INT32 && stop.f0.d <= MAX_INT32 && stop.f1.n >= 1 && stop.f1.d >= 1
    && var s := Semiconvergent(stop.f0, stop.f1); s.d >= 1 && Closer(P, Q, s, stop.f1)
  }

  /** What is kept is the closest 32-bit fraction exactly unless it is beaten. */
  ghost predicate ClosestUnlessBeaten(P: int, Q: int, stop: SearchEnd)
    requires Q > 0
  {
    stop.Kept().n >= 1 && stop.Kept().d >= 1 ==> (Closest(P, Q, stop.Kept()) <==> !Beaten(P, Q, stop))
  }

  lemma {:induction false} SearchIsClosestUnlessBeaten(P: int, Q: int, num: int, den: int, f0: Fraction, f1: Fraction)
    requires P >= 0 && Q > 0 && den > 0
    requires Searching(P, Q, num, den, f0, f1) && f0.n <= MAX_INT32 && f0.d <= MAX_INT32
    ensures ClosestUnlessBeaten(P, Q, Search(num, den, f0, f1))
    decreases den
  {
    hide Searching, ClosestUnlessBeaten, Next;
    var f2 := Next(num / den, f0, f1);
    if num > MAX_INT32 * den || f2.n > MAX_INT32 || f2.d > MAX_INT32 {
      CutIsClosestUnlessBeaten(P, Q, num, den, f0, f1);
    } else if num % den == 0 {
      ExactIsNotBeaten(P, Q, num, den, f0, f1);
    } else {
      SearchStep(P, Q, num, den, f0, f1);
      SearchingFits(P, Q, num, den, f0, f1);
      SearchIsClosestUnlessBeaten(P, Q, den, num % den, f1, f2);
    }
  }

  lemma SearchingFits(P: int, Q: int, num: int, den: int, f0: Fraction, f1: Fraction)
    requires Searching(P, Q, num, den, f0, f1)
    ensures f1.n <= MAX_INT32 && f1.d <= MAX_INT32
  {
  }

  lemma ExactIsNotBeaten(P: int, Q: int, num: int, den: int, f0: Fraction, f1: Fraction)
    requires P >= 0 && Q > 0 && den > 0 && Searching(P, Q, num, den, f0, f1) && num % den == 0
    ensures ClosestUnlessBeaten(P, Q, Exact(Next(num / den, f0, f1)))
  {
    hide Searching, Next, Closest;
    var f := Next(num / den, f0, f1);
    ExactStep(P, Q, num, den, f0, f1);
    ExactCross(P, Q, den, f);
    if f.d >= 1 {
      ExactIsClosest(P, Q, f);
    }
  }

  lemma CutIsClosestUnlessBeaten(P: int, Q: int, num: int, den: int, f0: Fraction, f1: Fraction)
    requires P >= 0 && Q > 0
    requires Searching(P, Q, num, den, f0, f1) && f0.n <= MAX_INT32 && f0.d <= MAX_INT32
    requires var f2 := Next(num / den, f0, f1); num > MAX_INT32 * den || f2.n > MAX_INT32 || f2.d > MAX_INT32
    ensures ClosestUnlessBeaten(P, Q, Cut(f0, f1))
  {
    if f1.n >= 1 && f1.d >= 1 {
      hide Next, Closest, Closer, Semiconvergent, Expansion;
      CutHere(P, Q, num, den, f0, f1);
      KeptIsClosestExactly(P, Q, num, den, f0, f1);
    }
  }

  lemma CutHere(P: int, Q: int, num: int, den: int, f0: Fraction, f1: Fraction)
    requires P >= 0 && Q > 0
    requires Searching(P, Q, num, den, f0, f1) && f0.n <= MAX_INT32 && f0.d <= MAX_INT32
    requires var f2 := Next(num / den, f0, f1); num > MAX_INT32 * den || f2.n > MAX_INT32 || f2.d > MAX_INT32
    requires f1.n >= 1 && f1.d >= 1
    ensures CutAt(P, Q, num, den, f0, f1)
  {
    hide Next, Unimodular;
    EarlySteps(P, Q, num, den, f0, f1);
    if num > MAX_INT32 * den {
      LargeRestOverflows(P, Q, num, den, f0, f1);
    }
  }

  lemma StartClosest(P: int, Q: int)
    requires P >= 0 && Q > 0
    ensures ClosestUnlessBeaten(P, Q, SearchPrice(P, Q))
  {
    Start(P, Q);
    SearchIsClosestUnlessBeaten(P, Q, P, Q, Fraction(0, 1), Fraction(1, 0));
  }

  /** price/main.go's continuedFraction after the string has been read as P/Q.  The result has the
      least error |d * P/Q - n| of all 32-bit fractions n/d; it is closest to P/Q among them exactly
      unless a semiconvergent beats it. */
  method ContinuedFraction(P: int, Q: int) returns (r: Result<Fraction, PriceError>)
    requires Q > 0
    ensures P >= 0 ==> (r.Ok? <==> Representable(P, Q))
    ensures r.Err? ==> r.error == NoApproximation
    ensures P >= 0 && r.Ok? ==> 1 <= r.value.n <= MAX_INT32 && 1 <= r.value.d <= MAX_INT32
    ensures P >= 0 && r.Ok? ==> Coprime(r.value.n, r.value.d)
    ensures P >= 0 && r.Ok? ==> LeastError(P, Q, r.value.n, r.value.d)
    ensures P >= 0 && r.Ok? ==> BestUpToDenominator(P, Q, r.value.n, r.value.d)
    ensures P >= 0 && r.Ok? ==> r.value == SearchPrice(P, Q).Kept()
    ensures P >= 0 && r.Ok? ==> (Closest(P, Q, r.value) <==> !Beaten(P, Q, SearchPrice(P, Q)))
  {
    hide Invariant, Outcome, Representable, Coprime, LeastError, BestUpToDenominator, Closest, Beaten, ToInt32;
    var num, den := P, Q;
    var fractions := [Fraction(0, 1), Fraction(1, 0)];
    Start(P, Q);
    ghost var stop := SearchPrice(P, Q);
    while true
      invariant |fractions| >= 2 && den > 0
      invariant Invariant(P, Q, num, den, fractions)
      invariant stop == Search(num, den, fractions[|fractions| - 2], fractions[|fractions| - 1])
      decreases den
    {
      var i := |fractions|;
      if num > MAX_INT32 * den {
        Stop(P, Q, num, den, fractions);
        break;
      }
      var a := num / den;
      var h := a * fractions[i - 1].n + fractions[i - 2].n;
      var k := a * fractions[i - 1].d + fractions[i - 2].d;
      if h > MAX_INT32 || k > MAX_INT32 {
        Stop(P, Q, num, den, fractions);
        break;
      }
      Keep(P, Q, num, den, fractions, Fraction(h, k));
      fractions := fractions + [Fraction(h, k)];
      if num % den == 0 {
        break;
      }
      num, den := den, num % den;
    }
    var last := fractions[|fractions| - 1];
    assert last == stop.Kept();
    if P >= 0 {
      Finish(P, Q, last);
      StartClosest(P, Q);
    }
    if last.n == 0 || last.d == 0 {
      return Err(NoApproximation);
    }
    return Ok(Fraction(ToInt32(last.n), ToInt32(last.d)));
  }

  /** A price that some 32-bit fraction equals is returned exactly, in lowest terms. */
  lemma ExactWhenRepresentable(P: int, Q: int, p: int, q: int, f: Fraction)
    requires P >= 0 && Q > 0
    requires 1 <= p <= MAX_INT32 && 1 <= q <= MAX_INT32 && P * q == Q * p
    ensures Representable(P, Q)
    ensures LeastError(P, Q, f.n, f.d) ==> P * f.d == Q * f.n
  {
    MulMono(P, P, 1, q);
    MulMono(Q, Q, 1, p);
    MulMono(Q, Q, p, MAX_INT32);
    MulMono(P, P, q, MAX_INT32);
    assert Error(P, Q, p, q) == 0;
  }

  /** Parsing a price from text: the text is refused, or it denotes a decimal number P/Q and the result
      is as for P/Q. */
  method Parse(v: string) returns (r: Result<Fraction, PriceError>)
    ensures r == Err(BadFormat) <==> !Decimals.ValidAmountSimple(v) || Decimals.SaysNothing(v)
    ensures forall P, Q: nat :: Decimals.ValidAmountSimple(v) && Decimals.Says(v, P, Q) && P >= 0 && Q > 0 ==> IsPriceOf(P, Q, r)
    ensures Decimals.AllDigits(v) && 1 <= |v| <= 20 ==> IsPriceOf(Decimals.Value(v), 1, r)
  {
    hide Decimals.SetString, Decimals.ValidAmountSimple, Decimals.Says, Decimals.Value, Decimals.SaysNothing;
    forall P, Q: nat | Decimals.Says(v, P, Q)
      ensures Decimals.SetString(v) == Some(Decimals.Rat(P, Q))
    {
      Decimals.ReadExactly(v, P, Q);
    }
    if Decimals.AllDigits(v) && 1 <= |v| <= 20 {
      DigitsAreValid(v);
      Decimals.DigitsSay(v);
    }
    if Decimals.ValidAmountSimple(v) {
      Decimals.UnreadableExactly(v);
    }
    hide *;
    if !Decimals.ValidAmountSimple(v) {
      return Err(BadFormat);
    }
    var number := Decimals.SetString(v);
    if number.None? {
      return Err(BadFormat);
    }
    r := ContinuedFraction(number.value.num, number.value.den);
    MakePriceOf(number.value.num, number.value.den, r);
  }

  lemma DigitsAreValid(v: string)
    requires Decimals.AllDigits(v) && 1 <= |v| <= 20
    ensures Decimals.ValidAmountSimple(v)
  {
    assert Decimals.Unsigned(v) == v;
  }

  /** What the search promises for a price P/Q >= 0. */
  ghost predicate IsPriceOf(P: int, Q: int, r: Result<Fraction, PriceError>)
    requires P >= 0 && Q > 0
  {
    && (r.Ok? <==> Representable(P, Q))
    && (r.Ok? ==>
      && 1 <= r.value.n <= MAX_INT32 && 1 <= r.value.d <= MAX_INT32
      && Coprime(r.value.n, r.value.d)
      && LeastError(P, Q, r.value.n, r.value.d)
      && BestUpToDenominator(P, Q, r.value.n, r.value.d)
      && r.value == SearchPrice(P, Q).Kept()
      && (Closest(P, Q, r.value) <==> !Beaten(P, Q, SearchPrice(P, Q))))
  }

  lemma MakePriceOf(P: int, Q: int, r: Result<Fraction, PriceError>)
    requires Q > 0
    requires P >= 0 ==> (r.Ok? <==> Representable(P, Q))
    requires P >= 0 && r.Ok? ==>
      && 1 <= r.value.n <= MAX_INT32 && 1 <= r.value.d <= MAX_INT32
      && Coprime(r.value.n, r.value.d)
      && LeastError(P, Q, r.value.n, r.value.d)
      && BestUpToDenominator(P, Q, r.value.n, r.value.d)
      && r.value == SearchPrice(P, Q).Kept()
      && (Closest(P, Q, r.value) <==> !Beaten(P, Q, SearchPrice(P, Q)))
    ensures P >= 0 ==> IsPriceOf(P, Q, r)
  {
    hide Representable, Coprime, LeastError, BestUpToDenominator, Closest, Beaten, SearchPrice;
  }

  // ----- A price whose result is not the closest -----

  const BEATEN_TEXT := "0.5000000002"

  lemma BeatenTextDenotes()
    ensures Decimals.ValidAmountSimple(BEATEN_TEXT)
    ensures Decimals.Says(BEATEN_TEXT, 50_0000_0002, 100_0000_0000)
  {
    var frac := "5" + Decimals.Zeros(8) + "2";
    assert BEATEN_TEXT == Decimals.Text(false, "0", frac);
    assert Decimals.ValidAmountSimple(BEATEN_TEXT) by {
      hide Decimals.Text;
    }
    hide *;
    BeatenDigits();
    Decimals.ReadText(false, "0", frac);
  }

  lemma BeatenDigits()
    ensures var frac := "5" + Decimals.Zeros(8) + "2";
      |frac| == 10 && Decimals.AllDigits(frac) && Decimals.AllDigits("0" + frac)
      && Decimals.Value("0" + frac) == 50_0000_0002 && Decimals.Pow10(|frac|) == 100_0000_0000
  {
    var five := "5" + Decimals.Zeros(8);
    BeatenPowers();
    hide Decimals.Value, Decimals.Pow10;
    Decimals.ValueOfDigit('5');
    Decimals.ValueOfDigit('2');
    Decimals.ValueOfDigit('0');
    Decimals.ValueOfZeros(8);
    Decimals.ValueOfConcat("5", Decimals.Zeros(8));
    Decimals.ValueOfConcat(five, "2");
    Decimals.ValueOfConcat("0", five + "2");
  }

  lemma BeatenPowers()
    ensures Decimals.Pow10(1) == 10 && Decimals.Pow10(8) == 1_0000_0000 && Decimals.Pow10(10) == 100_0000_0000
  {
    assert Decimals.Pow10(4) == 1_0000;
  }

  // One turn of the search with its quotient and rest named.

  lemma SearchTurn(num: int, den: int, a: int, rest: int, f0: Fraction, f1: Fraction)
    requires 0 < rest < den && num == a * den + rest && num <= MAX_INT32 * den
    requires Next(a, f0, f1).n <= MAX_INT32 && Next(a, f0, f1).d <= MAX_INT32
    ensures Search(num, den, f0, f1) == Search(den, rest, f1, Next(a, f0, f1))
  {
    NamedQuotient(num, den, a, rest);
  }

  lemma SearchCut(num: int, den: int, a: int, rest: int, f0: Fraction, f1: Fraction)
    requires 0 <= rest < den && num == a * den + rest
    requires Next(a, f0, f1).n > MAX_INT32 || Next(a, f0, f1).d > MAX_INT32
    ensures Search(num, den, f0, f1) == Cut(f0, f1)
  {
    NamedQuotient(num, den, a, rest);
  }

  lemma NamedQuotient(num: int, den: int, a: int, rest: int)
    requires 0 <= rest < den && num == a * den + rest
    ensures num / den == a && num % den == rest
  {
    var q := num / den;
    assert num == q * den + num % den;
    CancelFactor(q, a + 1, den);
    CancelFactor(a, q + 1, den);
    assert (a + 1) * den == a * den + den && (q + 1) * den == q * den + den;
  }

  // The first convergents of a price between 1/2 and 1.

  lemma FirstConvergent()
    ensures Next(0, Fraction(0, 1), Fraction(1, 0)) == Fraction(0, 1)
  {
  }

  lemma SecondConvergent()
    ensures Next(1, Fraction(1, 0), Fraction(0, 1)) == Fraction(1, 1)
  {
  }

  lemma ThirdConvergent()
    ensures Next(1, Fraction(0, 1), Fraction(1, 1)) == Fraction(1, 2)
  {
  }

  lemma FourthConvergent(a: int)
    requires a >= MAX_INT32 / 2 + 1
    ensures Next(a, Fraction(1, 1), Fraction(1, 2)).d > MAX_INT32
  {
  }

  lemma SearchHalf(P: int, Q: int, R: int, a: int)
    requires P == 50_0000_0002 && Q == 100_0000_0000 && R == 49_9999_9998 && a == 12_4999_9999
    ensures SearchPrice(P, Q) == Cut(Fraction(1, 1), Fraction(1, 2))
  {
    hide Search, Next;
    FirstConvergent();
    SecondConvergent();
    ThirdConvergent();
    FourthConvergent(a);
    SearchTurn(P, Q, 0, P, Fraction(0, 1), Fraction(1, 0));
    SearchTurn(Q, P, 1, R, Fraction(1, 0), Fraction(0, 1));
    SearchTurn(P, R, 1, 4, Fraction(0, 1), Fraction(1, 1));
    SearchCut(R, 4, a, 2, Fraction(1, 1), Fraction(1, 2));
  }

  lemma HalfSemiconvergent(f0: Fraction, f1: Fraction)
    requires f0 == Fraction(1, 1) && f1 == Fraction(1, 2)
    ensures Semiconvergent(f0, f1) == Fraction(1073741824, MAX_INT32)
  {
    assert Steps(f0, f1) == 1073741823;
  }

  lemma SemiconvergentIsCloser(P: int, Q: int)
    requires P == 50_0000_0002 && Q == 100_0000_0000
    ensures Closer(P, Q, Fraction(1073741824, MAX_INT32), Fraction(1, 2))
  {
  }

  /** The search for P/Q = 0.5000000002 stops at 1/2, and 1073741824/2147483647 is closer. */
  lemma HalfIsBeaten(P: int, Q: int)
    requires P == 50_0000_0002 && Q == 100_0000_0000
    ensures SearchPrice(P, Q) == Cut(Fraction(1, 1), Fraction(1, 2))
    ensures Semiconvergent(Fraction(1, 1), Fraction(1, 2)) == Fraction(1073741824, MAX_INT32)
    ensures Beaten(P, Q, SearchPrice(P, Q))
  {
    hide SearchPrice, Semiconvergent, Closer, Next;
    SearchHalf(P, Q, Q - P, 12_4999_9999);
    HalfSemiconvergent(Fraction(1, 1), Fraction(1, 2));
    SemiconvergentIsCloser(P, Q);
  }

  /** Parsing the text gives 1/2, which is not the closest 32-bit fraction to what it says. */
  method ParseBeaten() returns (r: Result<Fraction, PriceError>)
    ensures r == Ok(Fraction(1, 2))
    ensures Decimals.Says(BEATEN_TEXT, 50_0000_0002, 100_0000_0000)
    ensures !Closest(50_0000_0002, 100_0000_0000, Fraction(1, 2))
  {
    BeatenTextDenotes();
    hide Beaten, Closest, SearchPrice, Coprime, LeastError, BestUpToDenominator;
    hide Decimals.Says, Decimals.SaysNothing, Decimals.ValidAmountSimple;
    r := Parse(BEATEN_TEXT);
    ghost var P, Q := 50_0000_0002, 100_0000_0000;
    assert IsPriceOf(P, Q, r);
    HalfIsBeaten(P, Q);
  }
}
