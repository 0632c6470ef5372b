/** Step 1 of the balance computation (`renderBalances`): each expense is split with
    `computeEqualShares` and every participant other than the payer owes its share to
    the payer. The gross table maps (debtor, creditor) to paise. */
module Ledger {
  import opened Wrappers
  import opened Chars
  import opened Decimal
  import opened BigInt
  import opened Money
  import opened MoneyLaws
  import opened Shares

  /** The legacy `amount` field of an expense, consulted when `amountPaise` is absent
      or unreadable. For a finite number the caller supplies `Math.round(amount * 100)`. */
  datatype LegacyAmount =
    | NoAmount
    | NumberAmount(rounded: Option<int>)
    | TextAmount(text: string)

  /** An expense: who paid, who shares it, and its amount as stored. */
  datatype Expense = Expense(
    paidBy: UserId,
    participants: seq<UserId>,
    amountPaise: Option<string>,
    amount: LegacyAmount)

  /** `x.toString()` for a BigInt: an optional minus sign and the canonical digits. */
  function BigIntToString(x: int): (r: string)
    ensures |r| > 0 && IsDigit(r[|r| - 1])
    ensures (r[0] == '-') <==> x < 0
    ensures var digits := if x < 0 then r[1..] else r;
      && |digits| > 0 && AllDigits(digits)
      && (|digits| > 1 ==> digits[0] != '0')
      && DigitsValue(digits) == if x < 0 then -x else x
  {
    if x < 0 then "-" + NatToString(-x) else NatToString(x)
  }

  /** Decimal integer text: digits, optionally after one sign. */
  predicate IntegerText(t: string) {
    || (|t| > 0 && AllDigits(t))
    || (|t| > 1 && (t[0] == '-' || t[0] == '+') && AllDigits(t[1..]))
  }

  /** `BigInt(text)` for decimal text: surrounding whitespace is ignored, blank text
      is 0, otherwise an optional sign and at least one digit; anything else throws. */
  function ParseBigInt(s: string): (r: Option<int>)
    ensures |Trim(s)| == 0 ==> r == Some(0)
    ensures r.None? <==> |Trim(s)| > 0 && !IntegerText(Trim(s))
    ensures r.Some? && r.value < 0 ==> Trim(s)[0] == '-'
  {
    var t := Trim(s);
    if |t| == 0 then Some(0)
    else if (t[0] == '-' || t[0] == '+') && |t| > 1 && AllDigits(t[1..]) then
      var v: int := DigitsValue(t[1..]);
      Some(if t[0] == '-' then -v else v)
    else if AllDigits(t) then Some(DigitsValue(t))
    else None
  }

  /** A stored amount written by `toString` reads back as the same number. */
  lemma {:induction false} ParseBigIntRoundTrip(x: int)
    ensures ParseBigInt(BigIntToString(x)) == Some(x)
  {
    if x < 0 {
      ParseNegativeDigits(BigIntToString(x), NatToString(-x), -x);
    } else {
      ParsePlainDigits(BigIntToString(x), x);
    }
  }

  lemma {:induction false} ParsePlainDigits(d: string, n: nat)
    requires |d| > 0 && AllDigits(d) && DigitsValue(d) == n
    ensures ParseBigInt(d) == Some(n)
  {
    assert !IsWhitespace(d[0]) && !IsWhitespace(d[|d| - 1]);
    assert Trim(d) == d;
  }

  lemma {:induction false} ParseNegativeDigits(r: string, d: string, n: nat)
    requires |d| > 0 && AllDigits(d) && DigitsValue(d) == n
    requires r == "-" + d
    ensures ParseBigInt(r) == Some(-(n as int))
  {
    assert r[0] == '-' && r[|r| - 1] == d[|d| - 1];
    assert !IsWhitespace(r[0]) && !IsWhitespace(r[|r| - 1]);
    assert Trim(r) == r;
    assert r[1..] == d;
  }

  /** Surrounding whitespace, a plus sign and leading zeros do not change the value:
      `BigInt(" +007 ") == 7n`, and a minus sign negates it. */
  lemma {:induction false} ParseSignedDigits(lead: string, d: string, tail: string)
    requires AllWhitespace(lead) && AllWhitespace(tail)
    requires |d| > 0 && AllDigits(d)
    ensures ParseBigInt(lead + d + tail) == Some(DigitsValue(d))
    ensures ParseBigInt(lead + "+" + d + tail) == Some(DigitsValue(d))
    ensures ParseBigInt(lead + "-" + d + tail) == Some(-(DigitsValue(d) as int))
  {
    TrimOfPadded(lead, d, tail);
    ParseUnsignedText(lead + d + tail, d);
    SignedText(lead, '+', d, tail);
    SignedText(lead, '-', d, tail);
  }

  lemma {:induction false} SignedText(lead: string, c: char, d: string, tail: string)
    requires AllWhitespace(lead) && AllWhitespace(tail)
    requires |d| > 0 && AllDigits(d) && (c == '+' || c == '-')
    ensures ParseBigInt(lead + [c] + d + tail)
         == Some(if c == '-' then -(DigitsValue(d) as int) else DigitsValue(d))
  {
    var t := [c] + d;
    assert lead + [c] + d + tail == lead + t + tail;
    assert t[1..] == d && t[|t| - 1] == d[|d| - 1];
    TrimOfPadded(lead, t, tail);
    ParseSignedText(lead + t + tail, t, c, d);
  }

  lemma {:induction false} ParseUnsignedText(s: string, d: string)
    requires Trim(s) == d && |d| > 0 && AllDigits(d)
    ensures ParseBigInt(s) == Some(DigitsValue(d))
  {
  }

  lemma {:induction false} ParseSignedText(s: string, t: string, c: char, d: string)
    requires Trim(s) == t && |t| > 1 && t[0] == c && (c == '+' || c == '-')
    requires t[1..] == d && AllDigits(d)
    ensures ParseBigInt(s) == Some(if c == '-' then -(DigitsValue(d) as int) else DigitsValue(d))
  {
  }

  /** `getExpenseAmountPaise`: the stored paise when readable, else the legacy amount,
      else 0. */
  function ExpenseAmountPaise(e: Expense): (r: int)
    ensures e.amountPaise.None? && e.amount.TextAmount? ==> r >= 0
    ensures r < 0 ==> (e.amountPaise.Some? && ParseBigInt(e.amountPaise.value).Some?)
                      || e.amount.NumberAmount?
  {
    if e.amountPaise.Some? && ParseBigInt(e.amountPaise.value).Some? then
      ParseBigInt(e.amountPaise.value).value
    else
      match e.amount
      case NumberAmount(Some(c)) => c
      case TextAmount(t) => ParseMoney(t).GetOr(0)
      case _ => 0
  }

  /** An expense saved by the application (`amountPaise: x.toString()`) has amount `x`,
      whatever its legacy field says. */
  lemma {:induction false} StoredAmountWins(e: Expense, x: int)
    requires e.amountPaise == Some(BigIntToString(x))
    ensures ExpenseAmountPaise(e) == x
  {
    ParseBigIntRoundTrip(x);
  }

  /** Without a readable stored amount, a legacy text amount is worth its exact value
      rounded half up to whole paise, and nothing when it is not a plain decimal. */
  lemma {:induction false} LegacyTextAmount(e: Expense)
    requires e.amountPaise.None? || ParseBigInt(e.amountPaise.value).None?
    requires e.amount.TextAmount?
    ensures IsAmountLiteral(Trim(e.amount.text)) ==> ExpenseAmountPaise(e) == HalfUpPaise(Trim(e.amount.text))
    ensures !AmountShape(Trim(e.amount.text)) ==> ExpenseAmountPaise(e) == 0
  {
    ParseRejectsIff(e.amount.text);
    if IsAmountLiteral(Trim(e.amount.text)) {
      ParseRoundsHalfUp(e.amount.text);
    }
  }

  /** The gross debt table: `debts[debtor][creditor]`, keyed by the pair. A key is
      present once the loop has touched it, even when its value is 0. */
  type Debts = map<(UserId, UserId), int>

  /** `(debts[a] && debts[a][b]) || 0n`. */
  function Get(d: Debts, k: (UserId, UserId)): int {
    if k in d then d[k] else 0
  }

  /** One iteration of the participant loop: the payer is skipped, anyone else owes
      the payer its share. */
  function AddShare(d: Debts, paidBy: UserId, shares: map<UserId, int>, p: UserId): (r: Debts)
    ensures p == paidBy ==> r == d
    ensures p != paidBy ==> (p, paidBy) in r && Get(r, (p, paidBy)) == Get(d, (p, paidBy)) + Lookup(shares, p)
    ensures forall k :: k != (p, paidBy) ==> (k in r <==> k in d) && Get(r, k) == Get(d, k)
  {
    if p == paidBy then d else d[(p, paidBy) := Get(d, (p, paidBy)) + Lookup(shares, p)]
  }

  /** What the participant list `ps` of one expense adds to entry `k`: every listing of
      a non-payer debtor adds its share to the debt towards the payer. */
  function Owed(ps: seq<UserId>, paidBy: UserId, shares: map<UserId, int>, k: (UserId, UserId)): int {
    if k.1 == paidBy && k.0 != paidBy then Count(ps, k.0) * Lookup(shares, k.0) else 0
  }

  lemma {:induction false} OwedStep(ps: seq<UserId>, paidBy: UserId, shares: map<UserId, int>, k: (UserId, UserId))
    requires ps != []
    ensures Owed(ps, paidBy, shares, k)
         == Owed(ps[..|ps| - 1], paidBy, shares, k)
            + (if k == (ps[|ps| - 1], paidBy) && k.0 != paidBy then Lookup(shares, k.0) else 0)
  {
    var c := Count(ps[..|ps| - 1], k.0);
    var l := Lookup(shares, k.0);
    assert (c + 1) * l == c * l + l;
  }

  /** The whole participant loop of one expense. */
  function AddShares(d: Debts, paidBy: UserId, ps: seq<UserId>, shares: map<UserId, int>): (r: Debts)
    ensures forall k :: Get(r, k) == Get(d, k) + Owed(ps, paidBy, shares, k)
    ensures forall k :: k in r <==> k in d || (k.1 == paidBy && k.0 != paidBy && k.0 in ps)
    decreases |ps|
  {
    if |ps| == 0 then d
    else
      var init := ps[..|ps| - 1];
      var prev := AddShares(d, paidBy, init, shares);
      var r := AddShare(prev, paidBy, shares, ps[|ps| - 1]);
      assert forall k :: Get(r, k) == Get(d, k) + Owed(ps, paidBy, shares, k) by {
        forall k ensures Get(r, k) == Get(d, k) + Owed(ps, paidBy, shares, k) {
          OwedStep(ps, paidBy, shares, k);
        }
      }
      assert forall y :: y in ps <==> y in init || y == ps[|ps| - 1];
      r
  }

  /** The split of expense `e`. */
  function ExpenseShares(e: Expense): map<UserId, int> {
    EqualShares(ExpenseAmountPaise(e), e.participants)
  }

  /** One iteration of the expense loop. */
  function AccumulateExpense(d: Debts, e: Expense): (r: Debts)
    ensures forall k :: Get(r, k) == Get(d, k) + Owed(e.participants, e.paidBy, ExpenseShares(e), k)
    ensures forall k :: k in r <==> k in d || (k.1 == e.paidBy && k.0 != e.paidBy && k.0 in e.participants)
  {
    AddShares(d, e.paidBy, e.participants, ExpenseShares(e))
  }

  /** What `a` owes `b` because of expense `e` alone. */
  function ExpenseOwed(e: Expense, a: UserId, b: UserId): int {
    Owed(e.participants, e.paidBy, ExpenseShares(e), (a, b))
  }

  /** What `a` owes `b` summed over the expenses. */
  function GrossOwed(es: seq<Expense>, a: UserId, b: UserId): int {
    if |es| == 0 then 0 else GrossOwed(es[..|es| - 1], a, b) + ExpenseOwed(es[|es| - 1], a, b)
  }

  /** Some expense was paid by `b` and shared by `a`, a different user. */
  predicate Involved(es: seq<Expense>, a: UserId, b: UserId) {
    exists i :: 0 <= i < |es| && es[i].paidBy == b && a != b && a in es[i].participants
  }

  lemma {:induction false} InvolvedStep(es: seq<Expense>, a: UserId, b: UserId)
    requires es != []
    ensures Involved(es, a, b) <==> Involved(es[..|es| - 1], a, b)
                                    || (es[|es| - 1].paidBy == b && a != b && a in es[|es| - 1].participants)
  {
    var init := es[..|es| - 1];
    if Involved(es, a, b) {
      var i :| 0 <= i < |es| && es[i].paidBy == b && a != b && a in es[i].participants;
      if i < |es| - 1 {
        assert init[i] == es[i];
      }
    }
    if Involved(init, a, b) {
      var i :| 0 <= i < |init| && init[i].paidBy == b && a != b && a in init[i].participants;
      assert es[i] == init[i];
    }
  }

  /** Step 1 of `renderBalances`: the gross table after all expenses. */
  function Accumulate(es: seq<Expense>): (r: Debts)
    ensures forall k :: Get(r, k) == GrossOwed(es, k.0, k.1)
    ensures forall k :: k in r <==> Involved(es, k.0, k.1)
    ensures forall k :: k in r ==> k.0 != k.1
  {
    if |es| == 0 then map[]
    else
      var r := AccumulateExpense(Accumulate(es[..|es| - 1]), es[|es| - 1]);
      assert forall k :: k in r <==> Involved(es, k.0, k.1) by {
        forall k ensures k in r <==> Involved(es, k.0, k.1) {
          InvolvedStep(es, k.0, k.1);
        }
      }
      r
  }

  /** For a duplicate-free participant list, each non-payer owes the payer exactly the
      share `computeEqualShares` assigns to its position, and the payer owes nothing. */
  lemma {:induction false} OwedIsShare(e: Expense, i: int)
    requires Distinct(e.participants) && 0 <= i < |e.participants|
    ensures e.participants[i] != e.paidBy ==>
              ExpenseOwed(e, e.participants[i], e.paidBy)
              == TDiv(ExpenseAmountPaise(e), |e.participants|) + Bonus(i, TRem(ExpenseAmountPaise(e), |e.participants|))
    ensures ExpenseOwed(e, e.paidBy, e.paidBy) == 0
  {
    DistinctCount(e.participants, e.participants[i]);
    DistinctLast(e.participants, i);
  }

  /** What the payer is credited for one expense: the shares of everyone else,
      counted once per listing. */
  function Credited(ps: seq<UserId>, paidBy: UserId, shares: map<UserId, int>): int {
    if |ps| == 0 then 0
    else Credited(ps[..|ps| - 1], paidBy, shares) + (if ps[|ps| - 1] != paidBy then Lookup(shares, ps[|ps| - 1]) else 0)
  }

  lemma {:induction false} SplitCredit(ps: seq<UserId>, paidBy: UserId, m: map<UserId, int>)
    ensures SumShares(ps, m) == Credited(ps, paidBy, m) + Count(ps, paidBy) * Lookup(m, paidBy)
  {
    if ps != [] {
      var init := ps[..|ps| - 1];
      SplitCredit(init, paidBy, m);
      var c := Count(init, paidBy);
      var l := Lookup(m, paidBy);
      assert (c + 1) * l == c * l + l;
    }
  }

  /** One expense with a non-negative amount and distinct participants moves exactly
      its amount: the payer is credited the whole amount less its own share. */
  lemma {:induction false} ExpenseConserves(e: Expense)
    requires Distinct(e.participants) && 0 < |e.participants| && ExpenseAmountPaise(e) >= 0
    ensures Credited(e.participants, e.paidBy, ExpenseShares(e))
            + (if e.paidBy in e.participants then ExpenseShares(e)[e.paidBy] else 0)
         == ExpenseAmountPaise(e)
  {
    var m := ExpenseShares(e);
    SplitCredit(e.participants, e.paidBy, m);
    DistinctCount(e.participants, e.paidBy);
    Conserves(ExpenseAmountPaise(e), e.participants);
  }
}
