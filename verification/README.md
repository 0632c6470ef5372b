# Expense Tracker money and debt engine, in Dafny

This project models the arithmetic core of the Expense Tracker web application (`app.js`).
The application keeps amounts as whole paise in JavaScript BigInt. It reads amounts that users
type, prints them back, splits each expense equally among its participants, and nets the
resulting debts into one payment per pair of users. The model covers:

- **Money** (`money.dfy`, `money_laws.dfy`, `money_roundtrip.dfy`):
  - `parseMoneyToPaise` is `Money.ParseMoney`. It accepts a trimmed `digits[.digits]` literal
    and rounds half up on the third fractional digit.
  - `formatPaise` is `Money.FormatPaise`.
  - `divRound` is `Money.DivRound`.
  - The laws relating them: the parser rejects exactly the non-literals; it computes the exact
    half-up rounding of the literal's value; printing and then parsing gives back every
    non-negative amount.
- **Shares** (`shares.dfy`): `computeEqualShares` is `Shares.EqualShares`.
  - BigInt `/` and `%` truncate toward zero, so they are modelled as `BigInt.TDiv` and
    `BigInt.TRem`.
  - The shares add up to the amount exactly when the amount is non-negative or divides evenly.
    For a negative amount with a non-zero remainder the remainder is lost. The application never
    stores such an amount, because the expense form rejects anything that is not a positive
    literal.
- **Ledger** (`ledger.dfy`):
  - `getExpenseAmountPaise` is `Ledger.ExpenseAmountPaise`.
  - Step 1 of `renderBalances` is `Ledger.Accumulate`: the gross debt table keyed by
    (debtor, creditor).
- **Settlement** (`settlement.dfy`): step 2 of `renderBalances` is `Settlement.Simplify`.
  - The `processed` table is kept as the set of `-`-joined sorted id pairs, as the application does.
  - The traversal order of `Object.keys` is a parameter.
- **Validation** (`validation.dfy`): `normalizeSpaces`, `isValidUserName` and
  `isValidDescription`.
- **Users** (`users.dfy`): `getNextUserId`, with `parseInt(_, 10)` modelled as
  `Users.ParseIntPrefix`.

Supporting modules:

- `wrappers.dfy` holds `Option`.
- `chars.dfy` holds the ECMAScript whitespace set used by `\s`, `trim` and `parseInt`, plus
  `trim` itself.
- `words.dfy` defines the words of a text (its maximal runs of non-whitespace characters),
  which `normalizeSpaces` keeps.
- `decimal.dfy` holds the digit strings and their values.
- `bigint.dfy` holds the truncating division.

## Model

| member | source | states |
|---|---|---|
| Money.ParseMoney | app.js:128-133 | the parser gives no value exactly when the trimmed input is not a `digits[.digits]` literal; any value it gives is non-negative |
| MoneyLaws.ParseRejectsIff | app.js:128-133 | the input is rejected exactly when the trimmed text is not a non-empty run of digits and dots that starts and ends with a digit and holds at most one dot |
| MoneyLaws.BlankIsRejected | app.js:129-130 | empty or whitespace-only input is rejected |
| MoneyRoundTrip.RejectsNonDigitStart | app.js:132-133 | text whose first non-blank character is not a digit is rejected; this covers a sign (`-1.50`, `+1.50`), a leading dot and a letter |
| MoneyLaws.RoundFraction | app.js:139-145 | the paise taken from a fraction of any length are the fraction's exact value rounded half up to hundredths |
| MoneyLaws.ParseRoundsHalfUp | app.js:128-148 | on every accepted input the result is the exact decimal value of the literal times 100, rounded half up: floor(100·x + 1/2) |
| MoneyLaws.ParseLiteralParts | app.js:135-147 | `a.b` built from two digit strings parses to the value the integer and fraction parts give |
| MoneyRoundTrip.ParseIgnoresDigitsBeyondThird | app.js:140-142 | fraction digits after the third do not change the parsed amount |
| Money.FormatPaise | app.js:150-159 | the output starts with `-` exactly for negative amounts; after the sign it is canonical rupee digits, a dot and exactly two paise digits whose value is the absolute amount |
| MoneyRoundTrip.FormatThenParse | app.js:128-159 | parsing the printed form of a non-negative amount gives the amount back |
| MoneyRoundTrip.NegativeFormatIsRejected | app.js:128-159 | the printed form of a negative amount is not accepted by the parser |
| Money.DivRoundHalfUp | app.js:161-166 | a zero divisor gives 0; for a non-negative numerator and a positive divisor, `divRound` is the quotient rounded half up, floor(n/d + 1/2) |
| BigInt.TDiv | app.js:199 | BigInt division: the magnitude is the quotient of the magnitudes, and the sign is negative only when the operand signs differ |
| BigInt.TRem | app.js:200 | BigInt remainder: `a == b * q + r`, `|r| < |b|`, and r takes the sign of the dividend |
| Ledger.ParseBigIntRoundTrip | app.js:172 | `BigInt(x.toString())` gives back x, so a stored `amountPaise` string reads back exactly |
| Ledger.ParseBigInt | app.js:172 | blank text reads as 0; other text is rejected exactly when, once trimmed, it is not a run of digits with an optional `+` or `-` in front; a negative result needs a leading `-` |
| Ledger.ParseSignedDigits | app.js:172 | surrounding whitespace, a `+` and leading zeros do not change the value of a digit run, and a `-` negates it |
| Ledger.ExpenseAmountPaise | app.js:168-190 | an amount from the legacy text field is never negative; a negative amount comes only from a readable stored value or a legacy number |
| Ledger.StoredAmountWins | app.js:170-176 | when `amountPaise` holds `x.toString()` for an amount x, that amount is used whatever the legacy field holds |
| Ledger.LegacyTextAmount | app.js:168-187 | with no readable stored paise, a legacy text amount counts as its exact decimal value in rupees times 100, rounded half up, or as 0 when it is not a plain `digits[.digits]` literal |
| Shares.EqualShares | app.js:192-208 | there is a share for exactly the listed participants (none for an empty list); the participant at position i gets the truncated quotient plus one when i is below the truncated remainder (the last listing wins for repeated ids) |
| Shares.ShareIsBaseOrOneMore | app.js:199-205 | with distinct participants every share is the base or the base plus one, and it is one more exactly for the first `remainder` positions |
| Shares.SharesSum | app.js:192-208 | the shares add up to n times the base plus the remainder when the remainder is positive |
| Shares.ConservesIff | app.js:192-208 | the shares add up to the amount exactly when the amount is non-negative or the remainder is zero |
| Shares.Conserves | app.js:192-208 | for a non-negative amount the shares add up to the amount |
| Ledger.AddShare | app.js:624-632 | the payer's own share changes nothing; otherwise only the (participant, payer) entry changes, growing by the participant's share |
| Ledger.AddShares | app.js:624-632 | after one expense's participants, each entry has grown by the shares that participant owes the payer, and the entries present are the old ones plus those of non-payer participants |
| Ledger.Accumulate | app.js:614-633 | every entry of the gross table is the sum over expenses of what the debtor owes the creditor; an entry exists exactly when some expense paid by the creditor lists the debtor; no one owes themselves |
| Ledger.OwedIsShare | app.js:616-633 | in one expense a participant other than the payer owes the payer their equal share; the payer owes themselves nothing |
| Ledger.ExpenseConserves | app.js:616-633 | for a non-negative amount, what the other participants owe plus the payer's own share is the whole amount |
| Settlement.PairKeyInjective | app.js:641 | for ids without `-`, two pairs get the same key only when they are the same pair, in either order |
| Settlement.DashCollision | app.js:641-643 | ids containing `-` can share a key (`1-2`,`3` and `1`,`2-3`), and then the second pair is skipped and its debt is never shown |
| Settlement.Walk | app.js:637-656 | after the traversal, `processed` holds the keys of exactly the visited pairs, and every emitted payment settles its pair's net debt, with distinct keys |
| Settlement.VisitStep | app.js:640-655 | one more visited key keeps the traversal's invariant |
| Settlement.Simplify | app.js:635-656 | every payment is positive, equals the net debt between its two users, and concerns a visited pair; no pair of users gets two payments |
| Settlement.WalkComplete | app.js:639-653 | for ids without `-`, every visited pair with a positive net debt gets its payment, in the right direction |
| Settlement.SimplifyExact | app.js:635-656 | for ids without `-`, a payment is listed exactly when it is a positive net debt of a visited pair |
| Settlement.ZeroNetOmitted | app.js:648-653 | a pair whose debts cancel out gets no payment |
| Settlement.Balances | app.js:614-656 | the balance list never holds two payments between the same two users |
| Settlement.BalancesExact | app.js:614-656 | for ids without `-`, when the traversal visits exactly the keys of the gross table, the simplified balances are exactly the positive net totals between users who share an expense |
| Validation.NormalizeSpaces | app.js:107-109 | the result has no leading or trailing whitespace, only plain spaces, and no two adjacent blanks; its words (maximal runs of non-whitespace characters) are exactly the input's, in order |
| WordRuns.TrimKeepsWords | app.js:108 | trimming keeps every word of the text |
| Validation.NormalizedDescriptionIff | app.js:120-123 | a typed description, once normalized, passes the check exactly when its first non-whitespace character is an ASCII letter |
| Validation.NormalizeIdempotent | app.js:107-109 | normalizing twice is the same as normalizing once |
| Validation.ValidUserNameIff | app.js:115-118 | a name is valid exactly when it is non-empty, starts with an ASCII letter, and every character is a letter or a single space followed by a letter |
| Validation.ValidUserNameIsNormalized | app.js:107-118 | a valid user name is already normalized, so normalizing it changes nothing |
| Chars.Trim | app.js:108 | the result neither starts nor ends with whitespace; already trimmed text is left alone |
| Chars.TrimCutsOnlyEnds | app.js:108 | trimming removes a whitespace-only prefix and suffix and keeps the text between them unchanged, inner whitespace included |
| Chars.TrimKeepsText | app.js:108 | trimming removes only whitespace |
| Users.ParseIntPrefix | app.js:213 | `parseInt` gives no number exactly when, after leading whitespace, no digit follows an optional `+` or `-`; a negative result needs a `-` |
| Users.ParseSignedRun | app.js:213 | after leading whitespace, `parseInt` reads a digit run followed by a non-digit as the run's value, with a `+` in front as the same value and a `-` in front as its negation |
| Users.ParseDigitsThenRest | app.js:213 | `parseInt` reads a leading run of digits followed by a non-digit as that run's value |
| Users.MaxId | app.js:211-215 | `maxId` is at least every readable id, never below 0, and is 0 or one of the ids' values |
| Users.NextUserId | app.js:210-217 | the new id is a digit string without a leading zero that `parseInt` reads as `maxId + 1`, and it differs from every existing id |
| Users.NextUserIdIsLargest | app.js:210-217 | the new id reads as a larger number than every existing readable id |

## Left out

- The DOM, rendering, modals and event handlers: they are outside the arithmetic core.
- `localStorage` persistence: stored strings are model inputs.
- Step 3 of `renderBalances`, the display: it is outside the arithmetic core.
- The data migration (`migrateLegacyDataIfNeeded`): it is outside the arithmetic core.
- `normalizeUserKey`: it needs Unicode `toLowerCase`, which is not modelled.
- The React code under `src`: it is not part of this model.
- Ids from `Date.now()`: the clock is not modelled.
- Ledger.ExpenseAmountPaise: for a finite legacy number the caller supplies `Math.round(amount * 100)` (`NumberAmount(Some(c))`), because floating point is not modelled. `NumberAmount(None)` stands for a non-finite number.
- Ledger.ParseBigInt: models decimal text only. `BigInt` also reads `0x`, `0o` and `0b` literals, which are read as errors here. A stored `amountPaise` written by the application is always decimal.
- The inputs of `parseMoneyToPaise`, `normalizeSpaces` and `isValidUserName` are strings. `String(value || '')` coercion of other JavaScript values is not modelled.
- Users.MaxId: `parseInt` is modelled on exact integers. A digit run too long for a double (rounding, or `Infinity` skipped by `Number.isFinite`) is not modelled.
- Settlement.Simplify: the `Object.keys` order is a parameter (`order`), because the model does not fix JavaScript's key ordering.
- Settlement.SortPair: `.sort()` compares UTF-16 code units, while the model compares characters (code points). The two orders differ only between astral characters and U+E000–U+FFFF. The proofs use only that the order is total and asymmetric.
- Settlement.SimplifyExact, Settlement.WalkComplete and Settlement.BalancesExact: completeness is proved only for ids without `-`. With a `-` in an id the application's `processed` keys can collide and a debt is silently dropped, as `Settlement.DashCollision` exhibits. Ids made by the application are decimal digits, so this cannot arise from its own data.
- Shares.Conserves: proved for non-negative amounts only. `Shares.ConservesIff` states the exact condition: a negative amount with a non-zero remainder loses the remainder, because BigInt division truncates toward zero.
- Money.DivRoundHalfUp: states nothing for a negative numerator or divisor, where truncation makes `divRound` round toward zero. `divRound` is not called by the rest of the core.
- Users.NextUserId: `maxId + 1` and `String(...)` work on doubles in the application, and the model uses exact integers. From 2^53 on, `maxId + 1` can round back to `maxId`, so the new id can equal an existing one. From 10^21 on, `String` prints in exponent form (`1e+21`), which is not a digit string. Neither is modelled, and the uniqueness promise holds only below 2^53.
- Users.NextUserIdIsLargest: holds for the application only while the largest id is below 2^53. At an existing id of 2^53, `maxId + 1` rounds back to 2^53 in double arithmetic, so the new id reads as equal to that id, not larger. The model's exact integers do not show this.
- MoneyRoundTrip.ParseIgnoresDigitsBeyondThird: states that the two parses are equal rather than naming their value. The value is given by `MoneyLaws.ParseLiteralParts`.
