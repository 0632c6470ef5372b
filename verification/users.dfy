/** User ids (`getNextUserId`): ids are decimal strings, and a new user gets one more
    than the largest id `parseInt` can read. */
module Users {
  import opened Wrappers
  import opened Chars
  import opened Decimal

  datatype User = User(id: string, name: string)

  /** The longest prefix of `s` made of digits. */
  function DigitRun(s: string): (r: string)
    ensures |r| <= |s| && r == s[..|r|]
    ensures AllDigits(r)
    ensures |r| == |s| || !IsDigit(s[|r|])
    decreases |s|
  {
    if |s| > 0 && IsDigit(s[0]) then
      var rest := DigitRun(s[1..]);
      assert [s[0]] + rest == s[..|rest| + 1];
      [s[0]] + rest
    else []
  }

  /** The digits part of `parseInt`: the value of the leading run of digits, `None`
      when there is none. */
  function ParseUnsigned(body: string): (r: Option<nat>)
    ensures r.None? <==> |body| == 0 || !IsDigit(body[0])
  {
    var digits := DigitRun(body);
    if digits == [] then None else Some(DigitsValue(digits))
  }

  /** A digit comes first, or right after a leading sign. */
  predicate DigitAfterSign(t: string) {
    || (|t| > 0 && IsDigit(t[0]))
    || (|t| > 1 && (t[0] == '-' || t[0] == '+') && IsDigit(t[1]))
  }

  /** `parseInt(s, 10)`: leading whitespace skipped, an optional sign, then the longest
      run of digits; no digit at all gives `NaN`, here `None`. */
  function ParseIntPrefix(s: string): (r: Option<int>)
    ensures r.None? <==> !DigitAfterSign(TrimStart(s))
    ensures r.Some? && r.value < 0 ==> TrimStart(s)[0] == '-'
  {
    var t := TrimStart(s);
    var signed := |t| > 0 && (t[0] == '-' || t[0] == '+');
    var u := ParseUnsigned(if signed then t[1..] else t);
    if u.None? then None
    else
      var v: int := u.value;
      Some(if signed && t[0] == '-' then -v else v)
  }

  /** A run of digits followed by anything that does not start with a digit is read as
      the run's value: `parseInt("12abc") == 12`. */
  lemma {:induction false} ParseDigitsThenRest(a: string, b: string)
    requires |a| > 0 && AllDigits(a)
    requires |b| == 0 || !IsDigit(b[0])
    ensures ParseIntPrefix(a + b) == Some(DigitsValue(a))
  {
    var s := a + b;
    assert s[0] == a[0];
    TrimStartKeeps(s);
    DigitRunOfDigits(a, b);
    assert ParseUnsigned(s) == Some(DigitsValue(a));
  }

  /** `parseInt` skips leading whitespace, reads `+` as no sign and `-` as negation, and
      then stops at the first non-digit: `parseInt(" -12abc") == -12`. */
  lemma {:induction false} ParseSignedRun(lead: string, a: string, b: string)
    requires AllWhitespace(lead)
    requires |a| > 0 && AllDigits(a)
    requires |b| == 0 || !IsDigit(b[0])
    ensures ParseIntPrefix(lead + a + b) == Some(DigitsValue(a))
    ensures ParseIntPrefix(lead + "+" + a + b) == Some(DigitsValue(a))
    ensures ParseIntPrefix(lead + "-" + a + b) == Some(-(DigitsValue(a) as int))
  {
    var x := a + b;
    assert x[0] == a[0];
    assert lead + a + b == lead + x;
    TrimStartOfPadded(lead, x);
    UnsignedRunText(lead + x, a, b);
    SignedRun(lead, '+', a, b);
    SignedRun(lead, '-', a, b);
  }

  lemma {:induction false} SignedRun(lead: string, c: char, a: string, b: string)
    requires AllWhitespace(lead) && (c == '+' || c == '-')
    requires |a| > 0 && AllDigits(a)
    requires |b| == 0 || !IsDigit(b[0])
    ensures ParseIntPrefix(lead + [c] + a + b)
         == Some(if c == '-' then -(DigitsValue(a) as int) else DigitsValue(a))
  {
    var x := [c] + (a + b);
    assert lead + [c] + a + b == lead + x;
    assert x[1..] == a + b;
    TrimStartOfPadded(lead, x);
    SignedRunText(lead + x, c, a, b);
  }

  lemma {:induction false} UnsignedRunText(s: string, a: string, b: string)
    requires TrimStart(s) == a + b
    requires |a| > 0 && AllDigits(a)
    requires |b| == 0 || !IsDigit(b[0])
    ensures ParseIntPrefix(s) == Some(DigitsValue(a))
  {
    assert (a + b)[0] == a[0];
    DigitRunOfDigits(a, b);
  }

  lemma {:induction false} SignedRunText(s: string, c: char, a: string, b: string)
    requires TrimStart(s) == [c] + (a + b) && (c == '+' || c == '-')
    requires |a| > 0 && AllDigits(a)
    requires |b| == 0 || !IsDigit(b[0])
    ensures ParseIntPrefix(s) == Some(if c == '-' then -(DigitsValue(a) as int) else DigitsValue(a))
  {
    var t := TrimStart(s);
    assert t[0] == c && t[1..] == a + b;
    UnsignedRun(a, b);
  }

  lemma {:induction false} UnsignedRun(a: string, b: string)
    requires |a| > 0 && AllDigits(a)
    requires |b| == 0 || !IsDigit(b[0])
    ensures ParseUnsigned(a + b) == Some(DigitsValue(a))
  {
    DigitRunOfDigits(a, b);
  }

  lemma {:induction false} TrimStartKeeps(s: string)
    requires |s| > 0 && !IsWhitespace(s[0])
    ensures TrimStart(s) == s
  {
  }

  lemma {:induction false} DigitRunOfDigits(a: string, b: string)
    requires AllDigits(a)
    requires |b| == 0 || !IsDigit(b[0])
    ensures DigitRun(a + b) == a
  {
    var r := DigitRun(a + b);
    assert forall i :: 0 <= i < |a| ==> (a + b)[i] == a[i];
    assert forall i :: 0 <= i < |r| ==> IsDigit((a + b)[i]);
    assert |b| > 0 ==> (a + b)[|a|] == b[0];
    assert |r| == |a|;
    assert r == (a + b)[..|r|];
  }

  /** Every id `parseInt` reads as a number. */
  predicate Numeric(u: User) {
    ParseIntPrefix(u.id).Some?
  }

  /** The largest of the present values, and never below 0 (`Math.max(0, ...)`). */
  function MaxOf(vals: seq<Option<int>>): (m: nat)
    ensures forall i :: 0 <= i < |vals| && vals[i].Some? ==> vals[i].value <= m
    ensures m == 0 || exists i :: 0 <= i < |vals| && vals[i] == Some(m)
  {
    if vals == [] then 0
    else
      var init := vals[..|vals| - 1];
      var prev := MaxOf(init);
      var last := vals[|vals| - 1];
      assert forall i :: 0 <= i < |init| ==> init[i] == vals[i];
      if last.Some? && last.value > prev then last.value else prev
  }

  /** What `parseInt` makes of each id, in order. */
  function IdValues(us: seq<User>): (vs: seq<Option<int>>)
    ensures |vs| == |us|
    ensures forall i :: 0 <= i < |us| ==> vs[i] == ParseIntPrefix(us[i].id)
  {
    seq(|us|, i requires 0 <= i < |us| => ParseIntPrefix(us[i].id))
  }

  /** `maxId` after the loop: the largest readable id, and never below 0. */
  function MaxId(us: seq<User>): (m: nat)
    ensures forall i :: 0 <= i < |us| && Numeric(us[i]) ==> ParseIntPrefix(us[i].id).value <= m
    ensures m == 0 || exists i :: 0 <= i < |us| && ParseIntPrefix(us[i].id) == Some(m)
  {
    var vs := IdValues(us);
    MaxOf(vs)
  }

  /** `getNextUserId`: the string of one more than the largest readable id. */
  function NextUserId(us: seq<User>): (r: string)
    ensures |r| > 0 && AllDigits(r)
    ensures |r| > 1 ==> r[0] != '0'
    ensures ParseIntPrefix(r) == Some(MaxId(us) + 1)
    ensures forall i :: 0 <= i < |us| ==> us[i].id != r
  {
    var r := NatToString(MaxId(us) + 1);
    ParseDigitsThenRest(r, "");
    assert r + "" == r;
    r
  }

  /** The new id reads as a larger number than every existing readable id. */
  lemma {:induction false} NextUserIdIsLargest(us: seq<User>, i: int)
    requires 0 <= i < |us| && Numeric(us[i])
    ensures ParseIntPrefix(us[i].id).value < ParseIntPrefix(NextUserId(us)).value
  {
  }
}
