/** Decimal numbers in text: what amount/main.go and price/main.go accept and print. */
module Decimals {
  import opened Wrappers

  function Pow10(n: nat): (r: nat)
    ensures r > 0
  {
    if n == 0 then 1 else 10 * Pow10(n - 1)
  }

  lemma SevenPlaces()
    ensures Pow10(7) == 1000_0000
  {
    assert Pow10(3) == 1000;
    assert Pow10(5) == 10_0000;
  }

  // ----- Digit strings -----

  predicate IsDigit(c: char) {
    '0' <= c <= '9'
  }

  predicate AllDigits(s: string) {
    forall i :: 0 <= i < |s| ==> IsDigit(s[i])
  }

  function DigitChar(d: nat): (c: char)
    requires d < 10
    ensures IsDigit(c)
  {
    (d + '0' as int) as char
  }

  function Value(s: string): nat
    requires AllDigits(s)
  {
    if s == "" then 0 else 10 * Value(s[..|s| - 1]) + (s[|s| - 1] as int - '0' as int)
  }

  /** n in decimal, without leading zeros. */
  function Digits(n: nat): (s: string)
    ensures s != "" && AllDigits(s)
  {
    if n < 10 then [DigitChar(n)] else Digits(n / 10) + [DigitChar(n % 10)]
  }

  /** The last w digits of n. */
  function Padded(n: nat, w: nat): (s: string)
    ensures |s| == w && AllDigits(s)
  {
    if w == 0 then "" else Padded(n / 10, w - 1) + [DigitChar(n % 10)]
  }

  function Zeros(n: nat): (s: string)
    ensures |s| == n && AllDigits(s)
  {
    seq(n, _ => '0')
  }

  lemma {:induction false} ValueOfDigits(n: nat)
    ensures Value(Digits(n)) == n
  {
    if n >= 10 {
      ValueOfDigits(n / 10);
      assert Digits(n)[..|Digits(n)| - 1] == Digits(n / 10);
    } else {
      assert [DigitChar(n)][..0] == "";
    }
  }

  lemma ValueOfDigit(c: char)
    requires IsDigit(c)
    ensures AllDigits([c]) && Value([c]) == c as int - '0' as int
  {
    assert [c][..0] == "";
  }

  lemma {:induction false} ValueOfPadded(n: nat, w: nat)
    requires n < Pow10(w)
    ensures Value(Padded(n, w)) == n
  {
    if w > 0 {
      ValueOfPadded(n / 10, w - 1);
      assert Padded(n, w)[..w - 1] == Padded(n / 10, w - 1);
    }
  }

  lemma {:induction false} ValueOfConcat(a: string, b: string)
    requires AllDigits(a) && AllDigits(b)
    ensures AllDigits(a + b)
    ensures Value(a + b) == Value(a) * Pow10(|b|) + Value(b)
  {
    if b == "" {
      assert a + b == a;
    } else {
      var n := |b| - 1;
      ValueOfConcat(a, b[..n]);
      LastDigit(b);
      assert (a + b)[..|a + b| - 1] == a + b[..n];
      LastDigit(a + b);
      assert Pow10(|b|) == 10 * Pow10(n);
      hide Value, Pow10;
      Shift10(Value(a), Pow10(n));
    }
  }

  lemma LastDigit(s: string)
    requires AllDigits(s) && s != ""
    ensures Value(s) == 10 * Value(s[..|s| - 1]) + (s[|s| - 1] as int - '0' as int)
  {
  }

  lemma Shift10(x: int, p: int)
    ensures x * (10 * p) == 10 * (x * p)
  {
  }

  lemma {:induction false} ValueOfZeros(n: nat)
    ensures Value(Zeros(n)) == 0
  {
    if n > 0 {
      ValueOfZeros(n - 1);
      assert Zeros(n)[..n - 1] == Zeros(n - 1);
    }
  }

  /** The digits of q followed by w more digits. */
  lemma {:induction false} DigitsAppend(q: nat, r: nat, w: nat)
    requires q > 0 && r < Pow10(w)
    ensures Digits(q * Pow10(w) + r) == Digits(q) + Padded(r, w)
  {
    if w > 0 {
      var x := q * Pow10(w - 1);
      assert q * Pow10(w) == 10 * x;
      DigitsAppend(q, r / 10, w - 1);
      assert x >= 1;
      var n := 10 * x + r;
      assert n / 10 == x + r / 10 && n % 10 == r % 10;
      assert Digits(n) == Digits(n / 10) + [DigitChar(n % 10)];
      assert Padded(r, w) == Padded(r / 10, w - 1) + [DigitChar(r % 10)];
    } else {
      assert Digits(q) + Padded(r, w) == Digits(q);
    }
  }

  lemma {:induction false} DigitsPadded(n: nat, w: nat)
    requires n < Pow10(w) && w > 0
    ensures |Digits(n)| <= w && Padded(n, w) == Zeros(w - |Digits(n)|) + Digits(n)
  {
    if n >= 10 {
      DigitsPadded(n / 10, w - 1);
    } else {
      PaddedZero(w - 1);
    }
  }

  lemma {:induction false} PaddedZero(w: nat)
    ensures Padded(0, w) == Zeros(w)
  {
    if w > 0 {
      PaddedZero(w - 1);
    }
  }

  // ----- Reading a rational -----

  /** num/den, not necessarily in lowest terms. */
  datatype Rat = Rat(num: int, den: nat)

  /** The pattern ^-?[.0-9]{1,20}$ */
  predicate ValidAmountSimple(v: string) {
    var body := Unsigned(v);
    1 <= |body| <= 20 && forall i :: 0 <= i < |body| ==> body[i] == '.' || IsDigit(body[i])
  }

  predicate Negative(v: string) {
    v != "" && v[0] == '-'
  }

  function Unsigned(v: string): string {
    if Negative(v) then v[1..] else v
  }

  function Signed(negative: bool, n: nat): int {
    if negative then -(n as int) else n
  }

  /** The place of the first point, or the length. */
  function Point(s: string): (p: nat)
    ensures p <= |s|
    ensures p < |s| ==> s[p] == '.'
    ensures forall i :: 0 <= i < p ==> s[i] != '.'
  {
    if s == "" || s[0] == '.' then 0 else 1 + Point(s[1..])
  }

  /** Rat.SetString on strings of the pattern: digits with at most one point among them, at least one
      digit. */
  function SetString(v: string): (r: Option<Rat>)
    ensures r.Some? ==> r.value.den > 0
  {
    var body := Unsigned(v);
    var p := Point(body);
    var whole, frac := body[..p], if p < |body| then body[p + 1..] else "";
    if whole + frac == "" || !AllDigits(whole + frac) then None
    else Some(Rat(Signed(Negative(v), Value(whole + frac)), Pow10(|frac|)))
  }

  lemma {:induction false} PointAt(whole: string, rest: string)
    requires AllDigits(whole) && rest != "" && rest[0] == '.'
    ensures Point(whole + rest) == |whole|
  {
    if whole == "" {
      assert whole + rest == rest;
    } else {
      assert (whole + rest)[1..] == whole[1..] + rest;
      PointAt(whole[1..], rest);
    }
  }

  // ----- What a text says -----

  function Sign(negative: bool): string {
    if negative then "-" else ""
  }

  /** A sign, a whole part, a point and a fraction. */
  function Text(negative: bool, whole: string, frac: string): string {
    Sign(negative) + (whole + "." + frac)
  }

  /** The text is a sign, the digits of a whole part and, if there is a point, those of a fraction behind
      it; either part may be empty, but not both. */
  ghost predicate Spells(v: string, negative: bool, whole: string, frac: string) {
    && AllDigits(whole) && AllDigits(frac) && whole + frac != ""
    && (v == Text(negative, whole, frac) || (frac == "" && v == Sign(negative) + whole))
  }

  /** The text denotes P/Q: its digits taken together, over a power of ten for those behind the point. */
  ghost predicate Says(v: string, P: int, Q: nat) {
    exists negative, whole, frac :: Spells(v, negative, whole, frac) && IsNumeral(negative, whole, frac, P, Q)
  }

  ghost predicate IsNumeral(negative: bool, whole: string, frac: string, P: int, Q: nat) {
    && AllDigits(whole + frac)
    && P == (if negative then -(Value(whole + frac) as int) else Value(whole + frac))
    && Q == Pow10(|frac|)
  }

  /** No digit, or two points. */
  ghost predicate SaysNothing(v: string) {
    || (forall i :: 0 <= i < |v| ==> !IsDigit(v[i]))
    || exists i, j :: 0 <= i < j < |v| && v[i] == v[j] == '.'
  }

  lemma TextSign(whole: string, frac: string)
    ensures Text(false, whole, frac) == whole + "." + frac
    ensures Text(true, whole, frac) == "-" + Text(false, whole, frac)
  {
  }

  lemma SignIsRead(negative: bool, body: string)
    requires body == "" || body[0] != '-'
    ensures Negative(Sign(negative) + body) <==> negative
    ensures Unsigned(Sign(negative) + body) == body
  {
    assert Sign(negative) + body == if negative then "-" + body else body;
  }

  lemma NoMinus(whole: string, rest: string)
    requires AllDigits(whole) && (whole + rest == "" || whole != "" || rest[0] == '.')
    ensures whole + rest == "" || (whole + rest)[0] != '-'
  {
  }

  /** A spelled number is read as what it says. */
  lemma SpelledIsRead(v: string, negative: bool, whole: string, frac: string)
    requires Spells(v, negative, whole, frac)
    ensures AllDigits(whole + frac)
    ensures SetString(v) == Some(Rat(Signed(negative, Value(whole + frac)), Pow10(|frac|)))
  {
    DigitsTogether(whole, frac);
    var rest := SpelledBody(v, negative, whole, frac);
    hide Spells, SetString, Value, Pow10, AllDigits;
    NoMinus(whole, rest);
    SignIsRead(negative, whole + rest);
    ReadBody(v, whole, frac, rest);
  }

  lemma SpelledBody(v: string, negative: bool, whole: string, frac: string) returns (rest: string)
    requires Spells(v, negative, whole, frac)
    ensures v == Sign(negative) + (whole + rest) && AllDigits(whole) && AllDigits(frac)
    ensures rest == "." + frac || (rest == frac == "" && whole != "")
  {
    hide AllDigits, Sign;
    assert whole + "." + frac == whole + ("." + frac);
    assert whole + "" == whole;
    rest := if v == Text(negative, whole, frac) then "." + frac else "";
  }

  lemma ReadBody(v: string, whole: string, frac: string, rest: string)
    requires Unsigned(v) == whole + rest && AllDigits(whole) && AllDigits(whole + frac) && whole + frac != ""
    requires rest == "." + frac || rest == frac == ""
    ensures SetString(v) == Some(Rat(Signed(Negative(v), Value(whole + frac)), Pow10(|frac|)))
  {
    var body := whole + rest;
    if rest == "" {
      NoPoint(whole);
      assert body == whole == whole + frac;
      assert body[..|whole|] == whole;
    } else {
      PointAt(whole, rest);
      assert body[|whole| + 1..] == frac && body[..|whole|] == whole;
    }
    hide Value, Pow10, Unsigned, Negative, Point, AllDigits;
  }

  lemma {:induction false} NoPoint(s: string)
    requires AllDigits(s)
    ensures Point(s) == |s|
  {
    if s != "" {
      NoPoint(s[1..]);
    }
  }

  /** How SetString takes a text apart. */
  lemma PartsRead(v: string) returns (body: string, p: nat, whole: string, frac: string)
    ensures v == Sign(Negative(v)) + body
    ensures p <= |body| && whole == body[..p] && frac == if p < |body| then body[p + 1..] else ""
    ensures (p < |body| ==> body[p] == '.') && forall i :: 0 <= i < p ==> body[i] != '.'
    ensures SetString(v).None? <==> whole + frac == "" || !AllDigits(whole + frac)
    ensures body == Unsigned(v)
  {
    body := Unsigned(v);
    p := Point(body);
    whole, frac := body[..p], if p < |body| then body[p + 1..] else "";
    SignIsThere(v);
    hide Unsigned, Negative, Point, AllDigits, Value;
  }

  /** What is read was spelled. */
  lemma ReadIsSpelled(v: string) returns (negative: bool, whole: string, frac: string)
    requires SetString(v).Some?
    ensures Spells(v, negative, whole, frac)
  {
    negative := Negative(v);
    var body, p;
    body, p, whole, frac := PartsRead(v);
    hide *;
    DigitsOfBoth(whole, frac);
    WithPoint(body, p, whole, frac);
    SpelledBy(v, negative, whole, frac, body);
  }

  lemma WithPoint(body: string, p: nat, whole: string, frac: string)
    requires p <= |body| && whole == body[..p] && frac == if p < |body| then body[p + 1..] else ""
    requires p < |body| ==> body[p] == '.'
    ensures body == whole + "." + frac || (frac == "" && body == whole)
  {
  }

  lemma SpelledBy(v: string, negative: bool, whole: string, frac: string, body: string)
    requires AllDigits(whole) && AllDigits(frac) && whole + frac != ""
    requires v == Sign(negative) + body && (body == whole + "." + frac || (frac == "" && body == whole))
    ensures Spells(v, negative, whole, frac)
  {
    hide AllDigits, Sign;
  }

  lemma SignIsThere(v: string)
    ensures v == Sign(Negative(v)) + Unsigned(v)
  {
  }

  lemma DigitsOfBoth(a: string, b: string)
    requires AllDigits(a + b)
    ensures AllDigits(a) && AllDigits(b)
  {
    assert forall i :: 0 <= i < |a| ==> a[i] == (a + b)[i];
    assert forall i :: 0 <= i < |b| ==> b[i] == (a + b)[|a| + i];
  }

  /** SetString reads exactly what the text says. */
  lemma ReadExactly(v: string, P: int, Q: nat)
    ensures Says(v, P, Q) <==> SetString(v) == Some(Rat(P, Q))
  {
    hide SetString, Spells;
    if Says(v, P, Q) {
      var negative, whole, frac :| Spells(v, negative, whole, frac) && IsNumeral(negative, whole, frac, P, Q);
      SpelledIsRead(v, negative, whole, frac);
    }
    if SetString(v) == Some(Rat(P, Q)) {
      var negative, whole, frac := ReadIsSpelled(v);
      SpelledIsRead(v, negative, whole, frac);
      assert IsNumeral(negative, whole, frac, P, Q);
    }
  }

  /** Of the texts of the pattern exactly those that say nothing cannot be read. */
  lemma UnreadableExactly(v: string)
    requires ValidAmountSimple(v)
    ensures SetString(v).None? <==> SaysNothing(v)
  {
    var body, p, whole, frac := PartsRead(v);
    hide SetString, Unsigned, Negative, AllDigits, SaysNothing;
    PartsSayNothing(body, p, whole, frac);
    SignSaysNothing(Negative(v), body);
  }

  lemma PartsSayNothing(body: string, p: nat, whole: string, frac: string)
    requires p <= |body| && whole == body[..p] && frac == if p < |body| then body[p + 1..] else ""
    requires (p < |body| ==> body[p] == '.') && forall i :: 0 <= i < p ==> body[i] != '.'
    requires forall i :: 0 <= i < |body| ==> body[i] == '.' || IsDigit(body[i])
    ensures whole + frac == "" || !AllDigits(whole + frac) <==> SaysNothing(body)
  {
    var parts := whole + frac;
    assert forall i :: 0 <= i < p ==> parts[i] == body[i];
    assert forall i :: p <= i < |parts| ==> parts[i] == body[i + 1];
    if parts != "" && AllDigits(parts) {
      assert IsDigit(parts[0]);
      assert IsDigit(body[if p > 0 then 0 else 1]);
      forall i | 0 <= i < |body| && i != p
        ensures body[i] != '.'
      {
        assert IsDigit(parts[if i < p then i else i - 1]);
      }
    } else if parts != "" {
      var i :| 0 <= i < |parts| && !IsDigit(parts[i]);
      assert body[p] == body[i + 1] == '.';
    }
  }

  /** A minus sign in front adds neither a digit nor a point. */
  lemma SignSaysNothing(negative: bool, body: string)
    ensures SaysNothing(Sign(negative) + body) <==> SaysNothing(body)
  {
    if negative {
      MinusSaysNothing(body);
    } else {
      assert Sign(false) + body == body;
    }
  }

  lemma MinusSaysNothing(body: string)
    ensures SaysNothing("-" + body) <==> SaysNothing(body)
  {
    var v := "-" + body;
    assert !IsDigit(v[0]) && v[0] != '.';
    assert forall i :: 0 <= i < |body| ==> body[i] == v[i + 1];
    if i, j :| 0 <= i < j < |v| && v[i] == v[j] == '.' {
      assert body[i - 1] == body[j - 1] == '.';
    } else if i :| 0 <= i < |v| && IsDigit(v[i]) {
      assert IsDigit(body[i - 1]);
    }
  }

  /** Digits alone say the number they are the digits of. */
  lemma DigitsSay(s: string)
    requires AllDigits(s) && s != ""
    ensures Says(s, Value(s), 1)
  {
    hide Value;
    assert s + "" == s && Sign(false) + s == s;
    assert Pow10(0) == 1;
    assert Spells(s, false, s, "") && IsNumeral(false, s, "", Value(s), 1);
  }

  /** The pattern in generating form. */
  lemma PatternExactly(v: string)
    ensures ValidAmountSimple(v) <==> exists negative, body :: v == Sign(negative) + body && IsBody(body)
  {
    SignIsThere(v);
    assert ValidAmountSimple(v) ==> IsBody(Unsigned(v));
    if negative, body :| v == Sign(negative) + body && IsBody(body) {
      assert forall i :: 0 <= i < |body| ==> body[i] in body;
      SignIsRead(negative, body);
      hide Sign, Negative, Unsigned;
      assert ValidAmountSimple(v);
    }
  }

  ghost predicate IsBody(body: string) {
    1 <= |body| <= 20 && forall c :: c in body ==> c == '.' || '0' <= c <= '9'
  }

  lemma ReadText(negative: bool, whole: string, frac: string)
    requires AllDigits(whole) && AllDigits(frac) && whole + frac != ""
    ensures AllDigits(whole + frac)
    ensures Says(Text(negative, whole, frac), if negative then -(Value(whole + frac) as int) else Value(whole + frac), Pow10(|frac|))
  {
    DigitsTogether(whole, frac);
    hide Value, Pow10;
    assert Spells(Text(negative, whole, frac), negative, whole, frac);
    assert IsNumeral(negative, whole, frac, if negative then -(Value(whole + frac) as int) else Value(whole + frac), Pow10(|frac|));
  }

  lemma DigitsTogether(a: string, b: string)
    requires AllDigits(a) && AllDigits(b)
    ensures AllDigits(a + b)
  {
  }
}
