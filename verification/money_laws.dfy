/** What `parseMoneyToPaise` and `formatPaise` promise about each other and about the
    decimal value they read and write. */
module MoneyLaws {
  import opened Wrappers
  import opened Chars
  import opened Decimal
  import opened BigInt
  import opened Money

  /** The literal's digits read as one integer: its exact value times `10^Scale(t)`. */
  function ScaledValue(t: string): nat
    requires IsAmountLiteral(t)
  {
    DigitsValueAppend(IntPart(t), FracPart(t));
    DigitsValue(IntPart(t) + FracPart(t))
  }

  /** How many digits the literal has after its dot. */
  function Scale(t: string): nat {
    |FracPart(t)|
  }

  /** The literal's exact value rounded half up to hundredths, in hundredths:
      `floor(100 * ScaledValue / 10^Scale + 1/2)`. */
  function HalfUpPaise(t: string): nat
    requires IsAmountLiteral(t)
  {
    NatDivIsNat(200 * ScaledValue(t) + Pow10(Scale(t)), 2 * Pow10(Scale(t)));
    (200 * ScaledValue(t) + Pow10(Scale(t))) / (2 * Pow10(Scale(t)))
  }

  lemma {:induction false} RoundArith(d2: nat, d: nat, rr: nat, p: nat)
    requires d < 10 && rr < p
    ensures d2 + (if d >= 5 then 1 else 0)
         == (200 * ((d2 * 10 + d) * p + rr) + 1000 * p) / (2000 * p)
  {
    var c := if d >= 5 then 1 else 0;
    var dp := d * p;
    var d2p := d2 * p;
    assert (d2 * 10 + d) * p == 10 * d2p + dp;
    MulMono(d, 9, p);
    if c == 0 {
      MulMono(d, 4, p);
    } else {
      MulMono(5, d, p);
    }
    var n := 200 * ((d2 * 10 + d) * p + rr) + 1000 * p;
    assert n == 2000 * d2p + 200 * dp + 200 * rr + 1000 * p;
    assert (d2 + c) * (2000 * p) == 2000 * d2p + 2000 * (c * p);
    DivUnique(n, 2000 * p, d2 + c);
  }

  /** Three leading fraction digits rounded half up on the third equal the exact
      fraction rounded half up to hundredths. */
  lemma {:induction false} RoundThreeDigits(h: string)
    requires AllDigits(h) && |h| >= 3
    ensures DigitsValue(h[..2]) + (if h[2] >= '5' then 1 else 0)
         == (200 * DigitsValue(h) + Pow10(|h|)) / (2 * Pow10(|h|))
  {
    ThreeDigitSplit(h);
    var rest := h[3..];
    DigitsValueBound(rest);
    RoundArithScaled(DigitsValue(h), DigitsValue(h[..2]), DigitValue(h[2]), DigitsValue(rest),
                     Pow10(|rest|), Pow10(|h|));
    assert (h[2] >= '5') == (DigitValue(h[2]) >= 5);
  }

  /** The value of a digit string split after its third digit. */
  lemma {:induction false} ThreeDigitSplit(h: string)
    requires AllDigits(h) && |h| >= 3
    ensures AllDigits(h[..2]) && AllDigits(h[3..])
    ensures DigitsValue(h) == (DigitsValue(h[..2]) * 10 + DigitValue(h[2])) * Pow10(|h| - 3) + DigitsValue(h[3..])
    ensures Pow10(|h|) == 1000 * Pow10(|h| - 3)
  {
    var head := h[..3];
    var rest := h[3..];
    assert h == head + rest;
    DigitsValueAppend(head, rest);
    assert head[..2] == h[..2] && head[..|head| - 1] == h[..2];
    assert DigitsValue(head) == DigitsValue(h[..2]) * 10 + DigitValue(h[2]);
    Pow10Add(3, |rest|);
    assert Pow10(3) == 1000;
  }

  lemma {:induction false} RoundArithScaled(v: nat, d2: nat, d: nat, rr: nat, p: nat, big: nat)
    requires d < 10 && rr < p
    requires v == (d2 * 10 + d) * p + rr && big == 1000 * p
    ensures d2 + (if d >= 5 then 1 else 0) == (200 * v + big) / (2 * big)
  {
    assert 2 * big == 2000 * p;
    RoundArith(d2, d, rr, p);
  }

  lemma {:induction false} RescaleArith(x: nat, y: nat, df: nat, p: nat)
    requires p >= 1 && x == df * 1000 && y == p * 1000
    ensures (200 * x + y) / (2 * y) == (200 * df + p) / (2 * p)
  {
    assert 200 * (df * 1000) + p * 1000 == (200 * df + p) * 1000;
    assert 2 * (p * 1000) == (2 * p) * 1000;
    DivScale(200 * df + p, 2 * p, 1000);
  }

  lemma {:induction false} ShiftArith(x: nat, di: nat, df: nat, p: nat)
    requires p >= 1 && x == di * p + df
    ensures (200 * x + p) / (2 * p) == 100 * di + (200 * df + p) / (2 * p)
  {
    assert 200 * (di * p + df) + p == (100 * di) * (2 * p) + (200 * df + p);
    DivShift(100 * di, 200 * df + p, 2 * p);
  }

  /** Half-up rounding of a fraction's digits, whatever their number. */
  lemma {:induction false} RoundFraction(fp: string)
    requires AllDigits(fp)
    ensures FractionPaise(fp) == (200 * DigitsValue(fp) + Pow10(|fp|)) / (2 * Pow10(|fp|))
  {
    var h := fp + "000";
    var f3 := Frac3(fp);
    assert f3 == h[..3];
    assert f3[..2] == h[..2] && f3[2] == h[2];
    RoundThreeDigits(h);
    ZerosValue("000");
    DigitsValueAppend(fp, "000");
    Pow10Add(|fp|, 3);
    assert Pow10(3) == 1000;
    RescaleArith(DigitsValue(h), Pow10(|h|), DigitsValue(fp), Pow10(|fp|));
  }

  /** The parser refuses exactly the strings that, once trimmed, are not digits with
      at most one dot between digits. */
  lemma {:induction false} ParseRejectsIff(value: string)
    ensures ParseMoney(value).None? <==> !AmountShape(Trim(value))
  {
    AmountLiteralIff(Trim(value));
  }

  /** The parser's result spelled out on the two parts of the literal. */
  lemma {:induction false} ParseParts(value: string)
    requires IsAmountLiteral(Trim(value))
    ensures ParseMoney(value) == Some(DigitsValue(IntPart(Trim(value))) * 100 + FractionPaise(FracPart(Trim(value))))
  {
  }

  /** `parseMoneyToPaise` rounds the exact value of the literal half up to whole paise:
      the result is the floor of `100 * value + 1/2`. */
  lemma {:induction false} ParseRoundsHalfUp(value: string)
    requires IsAmountLiteral(Trim(value))
    ensures ParseMoney(value) == Some(HalfUpPaise(Trim(value)))
  {
    ParseParts(value);
    HalfUpOfParts(Trim(value));
  }

  /** The two parts of a literal, rounded separately as the parser does, give the
      half-up rounding of the whole literal. */
  lemma {:induction false} HalfUpOfParts(t: string)
    requires IsAmountLiteral(t)
    ensures DigitsValue(IntPart(t)) * 100 + FractionPaise(FracPart(t)) == HalfUpPaise(t)
  {
    var ip := IntPart(t);
    var fp := FracPart(t);
    RoundFraction(fp);
    DigitsValueAppend(ip, fp);
    ShiftArith(ScaledValue(t), DigitsValue(ip), DigitsValue(fp), Pow10(|fp|));
  }

  /** Neither an empty nor a whitespace-only string is an amount. */
  lemma {:induction false} BlankIsRejected(value: string)
    requires AllWhitespace(value)
    ensures ParseMoney(value) == None
  {
    VisibleOfBlank(value);
    TrimKeepsText(value);
  }

  lemma {:induction false} DotAfterDigits(a: string, b: string)
    requires AllDigits(a)
    ensures DotIndex(a + "." + b) == |a|
    ensures IntPart(a + "." + b) == a && FracPart(a + "." + b) == b
  {
    var t := a + "." + b;
    assert t[|a|] == '.';
    assert t[..|a|] == a;
    assert t[|a| + 1..] == b;
  }

  /** A literal built from digit strings is already trimmed and is accepted. */
  lemma {:induction false} LiteralOfDigits(a: string, b: string)
    requires |a| > 0 && AllDigits(a) && |b| > 0 && AllDigits(b)
    ensures Trim(a + "." + b) == a + "." + b
    ensures IsAmountLiteral(a + "." + b)
    ensures IntPart(a + "." + b) == a && FracPart(a + "." + b) == b
  {
    var t := a + "." + b;
    DotAfterDigits(a, b);
    assert IsDigit(t[0]) by { assert t[0] == a[0]; }
    assert IsDigit(t[|t| - 1]) by { assert t[|t| - 1] == b[|b| - 1]; }
    DigitsAreTrimmed(t);
  }

  lemma {:induction false} DigitsAreTrimmed(t: string)
    requires |t| > 0 && IsDigit(t[0]) && IsDigit(t[|t| - 1])
    ensures Trim(t) == t
  {
    assert !IsWhitespace(t[0]) && !IsWhitespace(t[|t| - 1]);
  }

  /** The parser on `a.b` for digit strings `a` and `b`: the integer digits in
      hundreds plus what the fraction contributes. */
  lemma {:induction false} ParseLiteralParts(a: string, b: string, v: int)
    requires |a| > 0 && AllDigits(a) && |b| > 0 && AllDigits(b)
    requires DigitsValue(a) * 100 + FractionPaise(b) == v
    ensures ParseMoney(a + "." + b) == Some(v)
  {
    LiteralOfDigits(a, b);
    ParseTrimmedLiteral(a + "." + b, a, b, v);
  }

  // `t` stands for `a + "." + b` without its structure, which the parser's
  // definition does not need once the facts below are known.
  lemma {:induction false} ParseTrimmedLiteral(t: string, a: string, b: string, v: int)
    requires Trim(t) == t && IsAmountLiteral(t) && IntPart(t) == a && FracPart(t) == b
    requires AllDigits(a) && AllDigits(b) && DigitsValue(a) * 100 + FractionPaise(b) == v
    ensures ParseMoney(t) == Some(v)
  {
  }
}
