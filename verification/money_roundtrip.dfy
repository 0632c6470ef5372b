/** The parser on literals made of digit strings: where the digits beyond the third
    go, and how the printer's output reads back. Kept apart from `MoneyLaws` so that
    each proof here sees the parser's definition next to few other facts. */
module MoneyRoundTrip {
  import opened Wrappers
  import opened Chars
  import opened Decimal
  import opened Money
  import opened MoneyLaws

  /** Fraction digits after the third never influence the result. */
  lemma {:induction false} ParseIgnoresDigitsBeyondThird(intDigits: string, first3: string, rest: string)
    requires |intDigits| > 0 && AllDigits(intDigits)
    requires |first3| == 3 && AllDigits(first3) && AllDigits(rest)
    ensures ParseMoney(intDigits + "." + (first3 + rest)).Some?
    ensures ParseMoney(intDigits + "." + (first3 + rest)) == ParseMoney(intDigits + "." + first3)
  {
    var v := DigitsValue(intDigits) * 100 + FractionPaise(first3);
    FirstThreeDigits(intDigits, first3, rest, v);
    ParseLiteralParts(intDigits, first3 + rest, v);
    ParseLiteralParts(intDigits, first3, v);
  }

  lemma {:induction false} FirstThreeDigits(intDigits: string, first3: string, rest: string, v: int)
    requires AllDigits(intDigits) && |first3| == 3 && AllDigits(first3) && AllDigits(rest)
    requires v == DigitsValue(intDigits) * 100 + FractionPaise(first3)
    ensures |first3 + rest| > 0 && |first3| > 0 && AllDigits(first3 + rest)
    ensures DigitsValue(intDigits) * 100 + FractionPaise(first3 + rest) == v
  {
    var f := first3 + rest;
    assert forall k :: 0 <= k < |f| ==> f[k] == (if k < 3 then first3[k] else rest[k - 3]);
    assert Frac3(f) == Frac3(first3);
  }

  lemma {:induction false} FormatNonNegative(x: nat)
    ensures FormatPaise(x) == NatToString(x / 100) + "." + PadStart(NatToString(x % 100), 2, '0')
  {
  }

  /** Two fraction digits are taken as they are. */
  lemma {:induction false} TwoPlaceFraction(c: string)
    requires |c| == 2 && AllDigits(c)
    ensures FractionPaise(c) == DigitsValue(c)
  {
    var f3 := Frac3(c);
    assert f3 == c + "0";
    assert f3[..2] == c && f3[2] == '0';
  }

  /** Two-place literals parse back to the amount their digits spell. */
  lemma {:induction false} ParseTwoPlaces(r: string, c: string, x: nat)
    requires |r| > 0 && AllDigits(r) && |c| == 2 && AllDigits(c)
    requires DigitsValue(r) == x / 100 && DigitsValue(c) == x % 100
    ensures ParseMoney(r + "." + c) == Some(x)
  {
    TwoPlaceValue(r, c, x);
    ParseLiteralParts(r, c, x);
  }

  lemma {:induction false} TwoPlaceValue(r: string, c: string, x: nat)
    requires AllDigits(r) && |c| == 2 && AllDigits(c)
    requires DigitsValue(r) == x / 100 && DigitsValue(c) == x % 100
    ensures |c| > 0 && DigitsValue(r) * 100 + FractionPaise(c) == x
  {
    TwoPlaceFraction(c);
    DivMod100(x);
  }

  /** Every non-negative amount survives printing and parsing back. */
  lemma {:induction false} FormatThenParse(x: nat)
    ensures ParseMoney(FormatPaise(x)) == Some(x)
  {
    var r := NatToString(x / 100);
    var c := PadStart(NatToString(x % 100), 2, '0');
    FormatNonNegative(x);
    FormatFacts(x, r, c);
    ParseTwoPlaces(r, c, x);
  }

  /** Text whose first non-blank character is not a digit is refused: a sign, as in
      `-1.50` or `+1.50`, a leading dot, or a letter. */
  lemma {:induction false} RejectsNonDigitStart(value: string)
    requires |Trim(value)| > 0 && !IsDigit(Trim(value)[0])
    ensures ParseMoney(value) == None
  {
    ParseRejectsIff(value);
  }

  lemma {:induction false} FormatNegative(x: int)
    requires x < 0
    ensures FormatPaise(x) == "-" + FormatAbs(-x)
  {
  }

  /** A negative amount prints as something the parser refuses: the minus sign is
      not part of the amount grammar. */
  lemma {:induction false} NegativeFormatIsRejected(x: int)
    requires x < 0
    ensures ParseMoney(FormatPaise(x)) == None
  {
    var body := FormatAbs(-x);
    var t := "-" + body;
    FormatNegative(x);
    assert PlainAmount(body, -x);
    assert IsDigit(body[|body| - 1]) by {
      assert body[|body| - 1] == body[|body| - 2..][1];
    }
    assert t[|t| - 1] == body[|body| - 1];
    assert t[0] == '-';
    RejectsNonDigitStart(t);
  }
}
