/** Character classes of ECMAScript regular expressions and the `trim` family. */
module Chars {

  /** The code points ECMAScript calls WhiteSpace or LineTerminator: what `\s` matches,
      what `String.prototype.trim` removes and what `parseInt` skips. */
  predicate IsWhitespace(c: char) {
    || c == '\t' || c == '\n' || c == '\U{000B}' || c == '\U{000C}' || c == '\r' || c == ' '
    || c == '\U{00A0}' || c == '\U{1680}' || ('\U{2000}' <= c <= '\U{200A}')
    || c == '\U{2028}' || c == '\U{2029}' || c == '\U{202F}' || c == '\U{205F}'
    || c == '\U{3000}' || c == '\U{FEFF}'
  }

  /** `\d` without the `u` flag: ASCII digits only. */
  predicate IsDigit(c: char) {
    '0' <= c <= '9'
  }

  /** `[A-Za-z]`. */
  predicate IsAsciiLetter(c: char) {
    ('A' <= c <= 'Z') || ('a' <= c <= 'z')
  }

  predicate AllDigits(s: string) {
    forall i :: 0 <= i < |s| ==> IsDigit(s[i])
  }

  predicate AllWhitespace(s: string) {
    forall i :: 0 <= i < |s| ==> IsWhitespace(s[i])
  }

  /** The characters of `s` that are not whitespace, in order. */
  function Visible(s: string): string {
    if |s| == 0 then []
    else if IsWhitespace(s[0]) then Visible(s[1..])
    else [s[0]] + Visible(s[1..])
  }

  lemma {:induction false} VisibleAppend(a: string, b: string)
    ensures Visible(a + b) == Visible(a) + Visible(b)
  {
    if |a| == 0 {
      assert a + b == b;
    } else {
      assert (a + b)[0] == a[0];
      assert (a + b)[1..] == a[1..] + b;
      VisibleAppend(a[1..], b);
    }
  }

  lemma {:induction false} VisibleOfBlank(s: string)
    requires AllWhitespace(s)
    ensures Visible(s) == []
  {
    if |s| > 0 {
      VisibleOfBlank(s[1..]);
    }
  }

  /** The end of the run of whitespace that starts at position `i`. */
  function BlankRunEnd(s: string, i: nat): (j: nat)
    requires i <= |s|
    ensures i <= j <= |s|
    ensures forall k :: i <= k < j ==> IsWhitespace(s[k])
    ensures j == |s| || !IsWhitespace(s[j])
    decreases |s| - i
  {
    if i < |s| && IsWhitespace(s[i]) then BlankRunEnd(s, i + 1) else i
  }

  /** The start of the run of whitespace that ends just before position `j`. */
  function BlankRunStart(s: string, j: nat): (i: nat)
    requires j <= |s|
    ensures i <= j
    ensures forall k :: i <= k < j ==> IsWhitespace(s[k])
    ensures i == 0 || !IsWhitespace(s[i - 1])
  {
    if j > 0 && IsWhitespace(s[j - 1]) then BlankRunStart(s, j - 1) else j
  }

  /** `trimStart`: drops the leading whitespace and nothing else. */
  function TrimStart(s: string): (r: string)
    ensures |r| <= |s| && r == s[|s| - |r|..]
    ensures AllWhitespace(s[..|s| - |r|])
    ensures |r| == 0 || !IsWhitespace(r[0])
  {
    var i := BlankRunEnd(s, 0);
    assert forall k :: 0 <= k < i ==> s[..i][k] == s[k];
    s[i..]
  }

  /** `trimEnd`: drops the trailing whitespace and nothing else. */
  function TrimEnd(s: string): (r: string)
    ensures |r| <= |s| && r == s[..|r|]
    ensures AllWhitespace(s[|r|..])
    ensures |r| == 0 || !IsWhitespace(r[|r| - 1])
  {
    var j := BlankRunStart(s, |s|);
    assert forall k :: j <= k < |s| ==> s[j..][k - j] == s[k];
    s[..j]
  }

  /** `String.prototype.trim`. */
  function Trim(s: string): (r: string)
    ensures |r| == 0 || (!IsWhitespace(r[0]) && !IsWhitespace(r[|r| - 1]))
    ensures (|s| == 0 || (!IsWhitespace(s[0]) && !IsWhitespace(s[|s| - 1]))) ==> r == s
  {
    TrimKeepsVisible(s);
    TrimOfTrimmed(s);
    TrimEnd(TrimStart(s))
  }

  /** `trim` cuts a whitespace-only prefix and suffix and keeps everything between
      them, inner whitespace included; neither end of the result is whitespace. */
  lemma {:induction false} TrimCutsOnlyEnds(s: string)
    ensures var r := Trim(s); |r| == 0 || (!IsWhitespace(r[0]) && !IsWhitespace(r[|r| - 1]))
    ensures exists i :: 0 <= i && i + |Trim(s)| <= |s| && Trim(s) == s[i..i + |Trim(s)|]
                        && AllWhitespace(s[..i]) && AllWhitespace(s[i + |Trim(s)|..])
  {
    var t := TrimStart(s);
    var r := TrimEnd(t);
    var i := |s| - |t|;
    assert Trim(s) == r;
    assert s[i..i + |r|] == r by {
      assert forall k :: 0 <= k < |r| ==> s[i..i + |r|][k] == t[k] == r[k];
    }
    assert s[i + |r|..] == t[|r|..];
  }

  /** Trimming whitespace padding gives back the padded text when it neither starts
      nor ends with whitespace. */
  lemma {:induction false} TrimOfPadded(lead: string, t: string, tail: string)
    requires AllWhitespace(lead) && AllWhitespace(tail)
    requires |t| > 0 && !IsWhitespace(t[0]) && !IsWhitespace(t[|t| - 1])
    ensures Trim(lead + t + tail) == t
  {
    assert lead + t + tail == lead + (t + tail);
    assert (t + tail)[0] == t[0];
    TrimStartOfPadded(lead, t + tail);
    assert (t + tail)[|t| - 1] == t[|t| - 1];
    TrimEndOfPadded(t, tail);
  }

  lemma {:induction false} TrimStartOfPadded(lead: string, x: string)
    requires AllWhitespace(lead) && |x| > 0 && !IsWhitespace(x[0])
    ensures TrimStart(lead + x) == x
  {
    var s := lead + x;
    var u := TrimStart(s);
    var k := |s| - |u|;
    assert s[|lead|] == x[0];
    assert k == |lead|;
    assert u == s[|lead|..];
    assert s[|lead|..] == x;
  }

  lemma {:induction false} TrimEndOfPadded(x: string, tail: string)
    requires AllWhitespace(tail) && |x| > 0 && !IsWhitespace(x[|x| - 1])
    ensures TrimEnd(x + tail) == x
  {
    var s := x + tail;
    var r := TrimEnd(s);
    var j := |r|;
    assert s[|x| - 1] == x[|x| - 1];
    assert j == |x|;
    assert r == s[..|x|];
    assert s[..|x|] == x;
  }

  /** Trimming removes whitespace only: the other characters stay, in order. */
  lemma {:induction false} TrimKeepsText(s: string)
    ensures Visible(Trim(s)) == Visible(s)
  {
    TrimKeepsVisible(s);
  }

  lemma {:induction false} TrimOfTrimmed(s: string)
    ensures (|s| == 0 || (!IsWhitespace(s[0]) && !IsWhitespace(s[|s| - 1]))) ==> TrimEnd(TrimStart(s)) == s
  {
    if |s| == 0 || (!IsWhitespace(s[0]) && !IsWhitespace(s[|s| - 1])) {
      assert BlankRunEnd(s, 0) == 0;
      assert s[0..] == s;
      assert BlankRunStart(s, |s|) == |s|;
      assert s[..|s|] == s;
    }
  }

  lemma {:induction false} TrimKeepsVisible(s: string)
    ensures Visible(TrimEnd(TrimStart(s))) == Visible(s)
    ensures var r := TrimEnd(TrimStart(s)); |r| == 0 || !IsWhitespace(r[0])
  {
    TrimStartKeepsVisible(s);
    TrimEndKeepsVisible(TrimStart(s));
  }

  lemma {:induction false} TrimStartKeepsVisible(s: string)
    ensures Visible(TrimStart(s)) == Visible(s)
  {
    var t := TrimStart(s);
    var lead := s[..|s| - |t|];
    assert s == lead + t;
    VisibleAppend(lead, t);
    VisibleOfBlank(lead);
  }

  /** Dropping trailing whitespace keeps the visible characters and the first one. */
  lemma {:induction false} TrimEndKeepsVisible(t: string)
    ensures Visible(TrimEnd(t)) == Visible(t)
    ensures |TrimEnd(t)| > 0 ==> TrimEnd(t)[0] == t[0]
  {
    var r := TrimEnd(t);
    var tail := t[|r|..];
    assert t == r + tail;
    VisibleAppend(r, tail);
    VisibleOfBlank(tail);
  }
}
