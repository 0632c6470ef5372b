/** Exact money in paise (hundredths of a rupee): `parseMoneyToPaise`, `formatPaise`
    and `divRound` of app.js. */
module Money {
  import opened Wrappers
  import opened Chars
  import opened Decimal
  import opened BigInt

  /** Position of the first `.` in `t`, or `|t|` when there is none. */
  function DotIndex(t: string): (i: nat)
    ensures i <= |t|
    ensures forall j :: 0 <= j < i ==> t[j] != '.'
    ensures i < |t| ==> t[i] == '.'
  {
    DotFrom(t, 0)
  }

  /** The first `.` at or after position `i`. */
  function DotFrom(t: string, i: nat): (d: nat)
    requires i <= |t|
    ensures i <= d <= |t|
    ensures forall j :: i <= j < d ==> t[j] != '.'
    ensures d < |t| ==> t[d] == '.'
    decreases |t| - i
  {
    if i == |t| || t[i] == '.' then i else DotFrom(t, i + 1)
  }

  /** `raw.split('.')[0]` and `raw.split('.')[1] || ''` for a string with at most one dot. */
  function IntPart(t: string): string {
    t[..DotIndex(t)]
  }

  function FracPart(t: string): string {
    var i := DotIndex(t);
    if i < |t| then t[i + 1..] else ""
  }

  /** `/^\d+(?:\.\d+)?$/.test(t)`: digits, then optionally a dot and more digits. */
  predicate IsAmountLiteral(t: string) {
    var i := DotIndex(t);
    && 0 < i
    && AllDigits(t[..i])
    && (i == |t| || (i + 1 < |t| && AllDigits(t[i + 1..])))
  }

  /** The accepted strings described without reference to the matcher: non-empty,
      only digits and dots, at most one dot, a digit at both ends. */
  predicate AmountShape(t: string) {
    && |t| > 0
    && IsDigit(t[0]) && IsDigit(t[|t| - 1])
    && (forall i :: 0 <= i < |t| ==> IsDigit(t[i]) || t[i] == '.')
    && (forall i, j :: 0 <= i < j < |t| && t[i] == '.' ==> t[j] != '.')
  }

  lemma {:induction false} AmountLiteralIff(t: string)
    ensures IsAmountLiteral(t) <==> AmountShape(t)
  {
    var i := DotIndex(t);
    if IsAmountLiteral(t) {
      assert forall k :: 0 <= k < i ==> t[k] == t[..i][k];
      if i < |t| {
        assert forall k :: i < k < |t| ==> t[k] == t[i + 1..][k - i - 1];
      }
    }
    if AmountShape(t) {
      if i < |t| {
        var f := t[i + 1..];
        forall k | 0 <= k < |f|
          ensures IsDigit(f[k])
        {
          assert f[k] == t[i + 1 + k];
          assert t[i] == '.';
        }
      }
    }
  }

  /** `(fracPart + '000').slice(0, 3)`. */
  function Frac3(frac: string): (r: string)
    requires AllDigits(frac)
    ensures |r| == 3 && AllDigits(r)
  {
    var padded := frac + "000";
    assert forall k :: 0 <= k < |padded| ==> IsDigit(padded[k]) by {
      assert forall k :: 0 <= k < |padded| ==> padded[k] == (if k < |frac| then frac[k] else '0');
    }
    padded[..3]
  }

  /** The paise the fraction digits contribute: the first two of `frac3`, plus one
      when its third digit is 5 or more. */
  function FractionPaise(fracPart: string): nat
    requires AllDigits(fracPart)
  {
    var frac3 := Frac3(fracPart);
    var paise2 := frac3[..2];
    var third := frac3[2];
    DigitsValue(paise2) + (if third >= '5' then 1 else 0)
  }

  /** `parseMoneyToPaise(value)` for a string argument: `None` stands for `null`.
      `intPart * 100 + paise2`, then one more when the third digit is 5 or more. */
  function ParseMoney(value: string): (r: Option<int>)
    ensures r.None? <==> !IsAmountLiteral(Trim(value))
    ensures r.Some? ==> r.value >= 0
  {
    var raw := Trim(value);
    if |raw| == 0 then None
    else if !IsAmountLiteral(raw) then None
    else
      // `parts[0] || '0'` never falls back: the literal starts with a digit.
      Some(DigitsValue(IntPart(raw)) * 100 + FractionPaise(FracPart(raw)))
  }

  /** The shape of a non-negative amount as `formatPaise` prints it. */
  predicate PlainAmount(body: string, value: nat) {
    && |body| >= 4
    && body[|body| - 3] == '.'
    && AllDigits(body[..|body| - 3]) && AllDigits(body[|body| - 2..])
    && (|body| > 4 ==> body[0] != '0')
    && DigitsValue(body[..|body| - 3]) * 100 + DigitsValue(body[|body| - 2..]) == value
  }

  /** `formatPaise(paise)`: optional `-`, the rupees without leading zeros, a dot and
      exactly two digits of paise. */
  function FormatPaise(paise: int): (r: string)
    ensures |r| >= 4
    ensures (r[0] == '-') <==> paise < 0
    ensures PlainAmount(if paise < 0 then r[1..] else r, Abs(paise))
  {
    var isNegative := paise < 0;
    var abs := if isNegative then -paise else paise;
    var body := FormatAbs(abs);
    var r := (if isNegative then "-" else "") + body;
    assert (if isNegative then r[1..] else r) == body;
    r
  }

  /** `rupees.toString() + '.' + remPaise.toString().padStart(2, '0')`; BigInt `/` and
      `%` agree with Dafny's on the non-negative `abs` (`TruncationAgreesOnNaturals`). */
  function FormatAbs(abs: nat): (body: string)
    ensures PlainAmount(body, abs)
    ensures IsDigit(body[0])
  {
    var rupees := NatToString(abs / 100);
    var cents := PadStart(NatToString(abs % 100), 2, '0');
    FormatFacts(abs, rupees, cents);
    rupees + "." + cents
  }

  lemma {:induction false} FormatFacts(abs: nat, rupees: string, cents: string)
    requires rupees == NatToString(abs / 100)
    requires cents == PadStart(NatToString(abs % 100), 2, '0')
    ensures |cents| == 2 && AllDigits(cents) && DigitsValue(cents) == abs % 100
    ensures PlainAmount(rupees + "." + cents, abs)
    ensures IsDigit((rupees + "." + cents)[0])
  {
    CentsFacts(abs % 100, cents);
    JoinFacts(rupees, cents, abs);
  }

  /** Two-digit padding keeps the value of a number below 100. */
  lemma {:induction false} CentsFacts(v: nat, cents: string)
    requires v < 100 && cents == PadStart(NatToString(v), 2, '0')
    ensures |cents| == 2 && AllDigits(cents) && DigitsValue(cents) == v
  {
    SmallNatToString(v);
    PadKeepsValue(NatToString(v), cents);
  }

  lemma {:induction false} PadKeepsValue(s: string, r: string)
    requires |s| <= 2 && AllDigits(s) && r == PadStart(s, 2, '0')
    ensures |r| == 2 && AllDigits(r) && DigitsValue(r) == DigitsValue(s)
  {
    var zeros := r[..|r| - |s|];
    assert r == zeros + s;
    LeadingZeros(zeros, s);
  }

  lemma {:induction false} JoinFacts(rupees: string, cents: string, abs: nat)
    requires |rupees| > 0 && AllDigits(rupees) && (|rupees| > 1 ==> rupees[0] != '0')
    requires |cents| == 2 && AllDigits(cents)
    requires DigitsValue(rupees) == abs / 100 && DigitsValue(cents) == abs % 100
    ensures PlainAmount(rupees + "." + cents, abs)
    ensures IsDigit((rupees + "." + cents)[0])
  {
    DivMod100(abs);
    var body := rupees + "." + cents;
    assert body[..|body| - 3] == rupees;
    assert body[|body| - 2..] == cents;
    assert body[0] == rupees[0];
  }

  lemma DivMod100(n: nat)
    ensures (n / 100) * 100 + n % 100 == n
  {
  }

  lemma {:induction false} SmallNatToString(n: nat)
    requires n < 100
    ensures |NatToString(n)| <= 2
  {
    if n >= 10 {
      assert NatToString(n) == NatToString(n / 10) + [DigitChar(n % 10)];
    }
  }

  /** `divRound(numerator, divisor)`: 0 for a zero divisor, otherwise
      `(n + d / 2) / d` in BigInt arithmetic. */
  function DivRound(numerator: int, divisor: int): int {
    if divisor == 0 then 0 else TDiv(numerator + TDiv(divisor, 2), divisor)
  }

  /** A zero divisor gives 0; on a non-negative numerator and a positive divisor,
      `divRound` rounds the exact quotient half up: it is the floor of `n / d + 1/2`. */
  lemma DivRoundHalfUp(n: int, d: int)
    ensures d == 0 ==> DivRound(n, d) == 0
    ensures n >= 0 && d > 0 ==> DivRound(n, d) == (2 * n + d) / (2 * d)
  {
    if n >= 0 && d > 0 {
      HalfUpQuotient(n, d);
    }
  }

  lemma HalfUpQuotient(n: int, d: int)
    requires n >= 0 && d > 0
    ensures DivRound(n, d) == (2 * n + d) / (2 * d)
  {
    TruncationAgreesOnNaturals(d, 2);
    TruncationAgreesOnNaturals(n + d / 2, d);
    var q, r := (n + d / 2) / d, (n + d / 2) % d;
    assert n + d / 2 == q * d + r && 0 <= r < d;
    assert d == 2 * (d / 2) + d % 2;
    MulAssoc(q, d, 2);
    DivUnique(2 * n + d, 2 * d, q);
  }
}
