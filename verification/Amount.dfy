/** Amounts as 64-bit integers of ten-millionths and as decimal text, after amount/main.go. */
module Amount {
  import opened Arithmetic
  import opened Decimals
  import opened Wrappers

  const ONE := 1000_0000

  datatype AmountError = InvalidFormat | CannotParse | TooManyDigits | OutOfBounds

  predicate InInt64(x: int) {
    -0x8000_0000_0000_0000 <= x < 0x8000_0000_0000_0000
  }

  // ----- amount/main.go -----

  /** Printing v/ONE with seven places: exact, since ONE has seven zeros. */
  method StringFromInt64(v: int64) returns (s: string)
    ensures s == AmountText(v)
    ensures ValidAmountSimple(s) && Denotes(s, v)
  {
    TextIsValid(v);
    TextDenotes(v);
    hide Denotes, ValidAmountSimple;
    var r := Rat(v, 1);
    r := Rat(r.num, r.den * ONE);
    var n := if r.num < 0 then -r.num else r.num;
    s := Digits(n / r.den) + "." + Padded(n % r.den, 7);
    if r.num < 0 {
      s := "-" + s;
    }
  }

  /** i is the amount that v denotes: the text says P/Q, and i = P/Q * ONE, exactly. */
  ghost predicate Denotes(v: string, i: int) {
    exists P, Q :: Says(v, P, Q) && i * Q == P * ONE
  }

  method ParseInt64(v: string) returns (r: Result<int64, AmountError>)
    ensures !ValidAmountSimple(v) ==> r == Err(InvalidFormat)
    ensures ValidAmountSimple(v) && SaysNothing(v) ==> r == Err(CannotParse)
    ensures r.Ok? ==> ValidAmountSimple(v) && Denotes(v, r.value)
    ensures ValidAmountSimple(v) ==> forall i :: Denotes(v, i) ==> r == if InInt64(i) then Ok(i) else Err(OutOfBounds)
    ensures r == Err(TooManyDigits) <==> ValidAmountSimple(v) && !SaysNothing(v) && forall i :: !Denotes(v, i)
    ensures AllDigits(v) && 1 <= |v| <= 20 ==>
      r == if InInt64(Value(v) * ONE) then Ok(Value(v) * ONE) else Err(OutOfBounds)
  {
    if ValidAmountSimple(v) {
      UnreadableExactly(v);
      DenotedExactly(v);
    }
    DigitsDenote(v);
    hide SetString, ValidAmountSimple, Denotes, SaysNothing, Value;
    if !ValidAmountSimple(v) {
      return Err(InvalidFormat);
    }
    var parsed := SetString(v);
    if parsed.None? {
      return Err(CannotParse);
    }
    var rat := parsed.value;
    rat := Rat(rat.num * ONE, rat.den);
    if rat.num % rat.den != 0 {
      return Err(TooManyDigits);
    }
    var i := rat.num / rat.den;
    assert Denotes(v, i);
    if !InInt64(i) {
      return Err(OutOfBounds);
    }
    return Ok(i);
  }

  /** A text of digits alone denotes their value in whole units. */
  lemma DigitsDenote(v: string)
    ensures AllDigits(v) && 1 <= |v| <= 20 ==> ValidAmountSimple(v) && Denotes(v, Value(v) * ONE)
  {
    hide Value, Says;
    if AllDigits(v) && 1 <= |v| <= 20 {
      assert Unsigned(v) == v;
      DigitsSay(v);
    }
  }

  /** The text denotes the quotient if there is no remainder, and no integer otherwise. */
  lemma DenotedExactly(v: string)
    ensures SetString(v).None? ==> forall i :: !Denotes(v, i)
    ensures SetString(v).Some? ==> var Rat(num, den) := SetString(v).value;
      forall i :: Denotes(v, i) <==> num * ONE % den == 0 && i == num * ONE / den
  {
    hide SetString, Denotes;
    forall i
      ensures Denotes(v, i) <==> SetString(v).Some? && var Rat(num, den) := SetString(v).value;
        num * ONE % den == 0 && i == num * ONE / den
    {
      DenotesWhatIsRead(v, i);
      if SetString(v).Some? {
        var Rat(num, den) := SetString(v).value;
        ExactQuotient(num * ONE, den, i);
      }
    }
  }

  lemma DenotesWhatIsRead(v: string, i: int)
    ensures Denotes(v, i) <==> SetString(v).Some? && i * SetString(v).value.den == SetString(v).value.num * ONE
  {
    hide SetString, Says;
    if Denotes(v, i) {
      var P, Q :| Says(v, P, Q) && i * Q == P * ONE;
      ReadExactly(v, P, Q);
    }
    if SetString(v).Some? {
      ReadExactly(v, SetString(v).value.num, SetString(v).value.den);
    }
  }

  lemma ExactQuotient(n: int, d: nat, i: int)
    requires d > 0
    ensures i * d == n <==> n % d == 0 && i == n / d
  {
    assert n == n / d * d + n % d;
    if i * d == n {
      MultipleHasNoRest(i, n, d);
      SameQuotient(i, n / d, d);
    }
  }

  lemma MultipleHasNoRest(i: int, n: int, d: nat)
    requires d > 0 && n == i * d
    ensures n % d == 0
  {
    var q, m := n / d, n % d;
    CancelFactor(q - 1, i - 1, d);
    CancelFactor(i, q + 1, d);
    CancelFactor(q, i, d);
    assert (q + 1) * d == q * d + d;
  }

  lemma SameQuotient(i: int, j: int, d: nat)
    requires d > 0 && i * d == j * d
    ensures i == j
  {
    CancelFactor(i, j, d);
    CancelFactor(j, i, d);
  }

  /** The pattern ^-?[0-9]+$ */
  predicate IsIntegerText(v: string) {
    Unsigned(v) != "" && AllDigits(Unsigned(v))
  }

  /** A sign and at least one digit. */
  ghost predicate SpellsInteger(v: string, negative: bool, digits: string) {
    v == Sign(negative) + digits && digits != "" && AllDigits(digits)
  }

  lemma IntegerTextExactly(v: string)
    ensures IsIntegerText(v) ==> SpellsInteger(v, Negative(v), Unsigned(v))
    ensures forall negative, digits :: SpellsInteger(v, negative, digits) ==>
      IsIntegerText(v) && negative == Negative(v) && digits == Unsigned(v)
  {
    SignIsThere(v);
    forall negative, digits | SpellsInteger(v, negative, digits)
      ensures IsIntegerText(v) && negative == Negative(v) && digits == Unsigned(v)
    {
      SignIsRead(negative, digits);
    }
  }

  /** For the integer that the text spells the result has the point moved, and denotes it divided by ONE. */
  ghost predicate PointMoved(v: string, r: Result<string, AmountError>) {
    forall negative, digits :: SpellsInteger(v, negative, digits) ==>
      && r == Ok(Shifted(negative, digits))
      && Denotes(r.value, if negative then -(Value(digits) as int) else Value(digits))
  }

  method IntStringToAmount(v: string) returns (r: Result<string, AmountError>)
    ensures r == Err(InvalidFormat) <==> forall negative, digits :: !SpellsInteger(v, negative, digits)
    ensures PointMoved(v, r)
  {
    IntegerTextExactly(v);
    if IsIntegerText(v) {
      SignFirst(v);
      ShiftedSign(Unsigned(v));
      MovesPoint(v);
    }
    hide Value, IsIntegerText, Shifted, Denotes, SpellsInteger, PointMoved, Negative, Unsigned, AllDigits;
    if !IsIntegerText(v) {
      NothingToMove(v);
      return Err(InvalidFormat);
    }
    var negative, digits := false, v;
    if v[0] == '-' {
      negative, digits := true, v[1..];
    }
    var s := ShiftPoint(digits);
    return Ok(if negative then "-" + s else s);
  }

  lemma MovesPoint(v: string)
    requires IsIntegerText(v)
    ensures PointMoved(v, Ok(Shifted(Negative(v), Unsigned(v))))
  {
    IntegerTextExactly(v);
    ShiftedDivides(v);
    hide IsIntegerText, Shifted, Denotes, Negative, Unsigned, Value;
  }

  lemma NothingToMove(v: string)
    requires forall negative, digits :: !SpellsInteger(v, negative, digits)
    ensures PointMoved(v, Err(InvalidFormat))
  {
    hide SpellsInteger, Shifted, Denotes, Value;
  }

  lemma SignFirst(v: string)
    requires IsIntegerText(v)
    ensures v != "" && (Negative(v) <==> v[0] == '-') && Unsigned(v) == if v[0] == '-' then v[1..] else v
  {
  }

  /** The middle of IntStringToAmount, without the sign. */
  method ShiftPoint(digits: string) returns (s: string)
    ensures s == Shifted(false, digits)
  {
    ShiftedSign(digits);
    hide Shifted, Zeros;
    var l := |digits|;
    if l <= 7 {
      s := "0." + Zeros(7 - l) + digits;
    } else {
      s := digits[..l - 7] + "." + digits[l - 7..l];
      assert digits[l - 7..l] == digits[l - 7..];
    }
  }

  // ----- Specification -----

  /** v ten-millionths in decimal, with seven places. */
  function AmountText(v: int): string {
    var n: int := if v < 0 then -(v as int) else v;
    Text(v < 0, Digits(n / ONE), Padded(n % ONE, 7))
  }

  /** The digits with the point moved seven places to the left. */
  function Shifted(negative: bool, digits: string): string {
    var l := |digits|;
    if l <= 7 then Text(negative, "0", Zeros(7 - l) + digits)
    else Text(negative, digits[..l - 7], digits[l - 7..])
  }

  function IntegerText(v: int): string {
    if v < 0 then "-" + Digits(-v) else Digits(v)
  }

  lemma ShiftedSign(digits: string)
    ensures Shifted(false, digits) ==
      if |digits| <= 7 then "0." + Zeros(7 - |digits|) + digits
      else digits[..|digits| - 7] + "." + digits[|digits| - 7..]
    ensures Shifted(true, digits) == "-" + Shifted(false, digits)
  {
    if |digits| <= 7 {
      var zeros := Zeros(7 - |digits|);
      assert "0." + zeros + digits == "0" + "." + (zeros + digits);
      TextSign("0", zeros + digits);
    } else {
      TextSign(digits[..|digits| - 7], digits[|digits| - 7..]);
    }
  }

  // ----- Printing, then parsing -----

  lemma WholeAndFraction(n: nat)
    ensures Value(Digits(n / ONE) + Padded(n % ONE, 7)) == n
  {
    SevenPlaces();
    ValueOfDigits(n / ONE);
    ValueOfPadded(n % ONE, 7);
    ValueOfConcat(Digits(n / ONE), Padded(n % ONE, 7));
  }

  /** Seven digits behind the point count ten-millionths. */
  lemma SevenPlacesDenote(negative: bool, whole: string, frac: string)
    requires AllDigits(whole) && AllDigits(frac) && whole != "" && |frac| == 7
    ensures AllDigits(whole + frac) && Denotes(Text(negative, whole, frac), Signed(negative, Value(whole + frac)))
  {
    ReadText(negative, whole, frac);
    SevenPlaces();
    hide Text, Says, Value;
  }

  /** The printed amount denotes exactly v, for integers of any size. */
  lemma TextDenotes(v: int)
    ensures Denotes(AmountText(v), v)
  {
    var n := if v < 0 then -v else v;
    WholeAndFraction(n);
    SevenPlacesDenote(v < 0, Digits(n / ONE), Padded(n % ONE, 7));
    hide Denotes, Text, Value;
  }

  lemma WholePartFits(n: nat)
    requires n <= 0x8000_0000_0000_0000
    ensures |Digits(n / ONE)| <= 12
  {
    assert Pow10(5) == 10_0000;
    assert Pow10(9) == 10_0000_0000;
    assert Pow10(12) == 1_0000_0000_0000;
    DigitsPadded(n / ONE, 12);
  }

  /** Twenty characters are enough for every 64-bit amount, also for the smallest with its sign. */
  lemma TextIsValid(v: int64)
    ensures ValidAmountSimple(AmountText(v))
  {
    var n: int := if v < 0 then -(v as int) else v;
    WholePartFits(n);
    var body := Digits(n / ONE) + "." + Padded(n % ONE, 7);
    assert body[0] != '-';
    SignIsRead(v < 0, body);
    hide Digits, Padded;
  }

  /** Every 64-bit amount survives being printed and parsed. */
  method PrintThenParse(v: int64) returns (r: Result<int64, AmountError>)
    ensures r == Ok(v)
  {
    var s := StringFromInt64(v);
    r := ParseInt64(s);
  }

  // ----- Integer text -----

  lemma ShiftedDigits(negative: bool, n: nat)
    ensures Shifted(negative, Digits(n)) == Text(negative, Digits(n / ONE), Padded(n % ONE, 7))
  {
    SevenPlaces();
    hide Text;
    var q, r := n / ONE, n % ONE;
    var digits := Digits(n);
    if q == 0 {
      DigitsPadded(n, 7);
      assert Digits(0) == "0";
    } else {
      DigitsAppend(q, r, 7);
      assert n == q * Pow10(7) + r;
      assert digits[..|digits| - 7] == Digits(q) && digits[|digits| - 7..] == Padded(r, 7);
    }
  }

  /** On the decimal form of any integer, 64 bits or more, IntStringToAmount prints what
      StringFromInt64 prints for it. */
  lemma ShiftedIsAmountText(v: int)
    ensures var t := IntegerText(v);
      IsIntegerText(t) && Shifted(Negative(t), Unsigned(t)) == AmountText(v)
  {
    var n := if v < 0 then -v else v;
    var t := IntegerText(v);
    assert Digits(n)[0] != '-';
    assert Unsigned(t) == Digits(n);
    assert Negative(t) <==> v < 0;
    ShiftedDigits(v < 0, n);
    hide Shifted, Text, Digits;
  }

  /** On every accepted text, with leading zeros or of any length, the result denotes the integer
      divided by ONE, exactly. */
  lemma ShiftedDivides(v: string)
    requires IsIntegerText(v)
    ensures var n := Value(Unsigned(v)); Denotes(Shifted(Negative(v), Unsigned(v)), if Negative(v) then -(n as int) else n)
  {
    hide Shifted, Denotes, Value, Text;
    ShiftedDenotes(Negative(v), Unsigned(v));
  }

  lemma ShiftedDenotes(negative: bool, digits: string)
    requires AllDigits(digits)
    ensures Denotes(Shifted(negative, digits), Signed(negative, Value(digits)))
  {
    hide Denotes, Text, Value, Zeros;
    if |digits| <= 7 {
      var frac := Zeros(7 - |digits|) + digits;
      ShortValue(digits, 7 - |digits|);
      SevenPlacesDenote(negative, "0", frac);
    } else {
      var whole, frac := digits[..|digits| - 7], digits[|digits| - 7..];
      assert whole + frac == digits;
      SevenPlacesDenote(negative, whole, frac);
    }
  }

  lemma ShortValue(digits: string, n: nat)
    requires AllDigits(digits)
    ensures AllDigits("0" + (Zeros(n) + digits)) && Value("0" + (Zeros(n) + digits)) == Value(digits)
  {
    ValueOfDigits(0);
    assert Digits(0) == "0";
    hide Value, Zeros;
    ValueOfConcat(Zeros(n), digits);
    ValueOfZeros(n);
    ValueOfConcat("0", Zeros(n) + digits);
  }
}
