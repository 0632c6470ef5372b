/** The input clean-up and validation helpers of app.js: `normalizeSpaces`,
    `isValidUserName` and `isValidDescription`. */
module Validation {
  import opened Chars
  import opened WordRuns

  /** Every whitespace character is a plain space. */
  predicate OnlySpaces(s: string) {
    forall i :: 0 <= i < |s| ==> IsWhitespace(s[i]) ==> s[i] == ' '
  }

  /** No two whitespace characters are adjacent. */
  predicate NoDoubleBlank(s: string) {
    forall i {:trigger s[i]} :: 0 <= i < |s| - 1 ==> !(IsWhitespace(s[i]) && IsWhitespace(s[i + 1]))
  }

  /** The shape `normalizeSpaces` produces: single plain spaces between words and
      no whitespace at either end. */
  predicate Normalized(s: string) {
    && (|s| == 0 || (!IsWhitespace(s[0]) && !IsWhitespace(s[|s| - 1])))
    && OnlySpaces(s)
    && NoDoubleBlank(s)
  }

  /** `s.replace(/\s+/g, ' ')`: every maximal run of whitespace becomes one space. */
  function CollapseRuns(s: string): (r: string)
    ensures |s| == 0 ==> r == []
    ensures |s| > 0 ==> |r| > 0 && (IsWhitespace(r[0]) <==> IsWhitespace(s[0]))
    ensures OnlySpaces(r) && NoDoubleBlank(r)
    ensures Visible(r) == Visible(s)
    ensures Words(r) == Words(s)
    decreases |s|
  {
    if |s| == 0 then []
    else if IsWhitespace(s[0]) then
      var rest := TrimStart(s);
      var r := " " + CollapseRuns(rest);
      VisibleSkipsBlankRun(s, rest);
      BlankRunWords(s, rest, CollapseRuns(rest));
      r
    else
      var r := [s[0]] + CollapseRuns(s[1..]);
      assert Visible(r) == [s[0]] + Visible(CollapseRuns(s[1..]));
      WordsCons(s[0], CollapseRuns(s[1..]));
      WordsCons(s[0], s[1..]);
      assert s == [s[0]] + s[1..];
      r
  }

  /** A whitespace run in front of `rest`, or the single space in front of `c`, adds
      no word. */
  lemma {:induction false} BlankRunWords(s: string, rest: string, c: string)
    requires |rest| <= |s| && rest == s[|s| - |rest|..]
    requires AllWhitespace(s[..|s| - |rest|])
    ensures Words(s) == Words(rest)
    ensures Words(" " + c) == Words(c)
  {
    assert s == s[..|s| - |rest|] + rest;
    WordsOfBlankLead(s[..|s| - |rest|], rest);
    WordsOfBlankLead(" ", c);
  }

  lemma {:induction false} VisibleSkipsBlankRun(s: string, rest: string)
    requires |rest| <= |s| && rest == s[|s| - |rest|..]
    requires AllWhitespace(s[..|s| - |rest|])
    ensures Visible(s) == Visible(rest)
  {
    var lead := s[..|s| - |rest|];
    assert s == lead + rest;
    VisibleAppend(lead, rest);
    VisibleOfBlank(lead);
  }

  /** `normalizeSpaces(str)` for a string argument. */
  function NormalizeSpaces(s: string): (r: string)
    ensures Normalized(r)
    ensures Visible(r) == Visible(s)
    ensures Words(r) == Words(s)
  {
    var c := CollapseRuns(s);
    TrimOfSpacedIsNormalized(c);
    TrimKeepsText(c);
    TrimKeepsWords(c);
    Trim(c)
  }

  lemma {:induction false} TrimOfSpacedIsNormalized(c: string)
    requires OnlySpaces(c) && NoDoubleBlank(c)
    ensures Normalized(Trim(c))
  {
    var t := TrimStart(c);
    var r := TrimEnd(t);
    var a := |c| - |t|;
    assert r == c[a..a + |r|];
    SliceKeepsShape(c, a, a + |r|);
    assert Trim(c) == r;
  }

  lemma {:induction false} SliceKeepsShape(s: string, lo: nat, hi: nat)
    requires OnlySpaces(s) && NoDoubleBlank(s) && lo <= hi <= |s|
    ensures OnlySpaces(s[lo..hi]) && NoDoubleBlank(s[lo..hi])
  {
    var t := s[lo..hi];
    assert forall i :: 0 <= i < |t| ==> t[i] == s[lo + i];
  }

  lemma {:induction false} SuffixKeepsShape(s: string, k: nat)
    requires OnlySpaces(s) && NoDoubleBlank(s) && k <= |s|
    ensures OnlySpaces(s[k..]) && NoDoubleBlank(s[k..])
  {
    var t := s[k..];
    assert forall i :: 0 <= i < |t| ==> t[i] == s[k + i];
  }

  /** A string already in normal form is left unchanged by `CollapseRuns`. */
  lemma {:induction false} CollapseRunsFixes(s: string)
    requires OnlySpaces(s) && NoDoubleBlank(s)
    requires |s| == 0 || !IsWhitespace(s[0])
    ensures CollapseRuns(s) == s
    decreases |s|
  {
    if |s| > 0 {
      var t := s[1..];
      SuffixKeepsShape(s, 1);
      if |t| > 0 && IsWhitespace(t[0]) {
        CollapseRunsFixesBlank(t);
      } else {
        CollapseRunsFixes(t);
      }
      assert CollapseRuns(s) == [s[0]] + CollapseRuns(t);
      assert s == [s[0]] + t;
    }
  }

  lemma {:induction false} CollapseRunsFixesBlank(t: string)
    requires OnlySpaces(t) && NoDoubleBlank(t)
    requires |t| > 0 && IsWhitespace(t[0])
    ensures CollapseRuns(t) == t
    decreases |t|, 0
  {
    var u := t[1..];
    assert t[0] == ' ';
    SuffixKeepsShape(t, 1);
    SingleBlankTrim(t);
    CollapseRunsFixes(u);
    assert t == " " + u;
  }

  /** A lone blank in front of a word is all that `TrimStart` removes. */
  lemma {:induction false} SingleBlankTrim(t: string)
    requires |t| > 0 && IsWhitespace(t[0]) && NoDoubleBlank(t)
    ensures TrimStart(t) == t[1..]
    ensures |t[1..]| == 0 || !IsWhitespace(t[1..][0])
  {
    var u := t[1..];
    if |u| > 0 {
      assert u[0] == t[1];
      assert !(IsWhitespace(t[0]) && IsWhitespace(t[1]));
    }
    assert TrimStart(t) == TrimStart(u);
  }

  lemma {:induction false} NormalizedIsFixpoint(s: string)
    requires Normalized(s)
    ensures NormalizeSpaces(s) == s
  {
    CollapseRunsFixes(s);
  }

  /** Normalising twice is normalising once. */
  lemma {:induction false} NormalizeIdempotent(s: string)
    ensures NormalizeSpaces(NormalizeSpaces(s)) == NormalizeSpaces(s)
  {
    NormalizedIsFixpoint(NormalizeSpaces(s));
  }

  /** `/^[A-Za-z]+(?: [A-Za-z]+)*$/.test(name)`, matched left to right: a letter,
      then any sequence of letters and space-letter pairs. */
  predicate IsValidUserName(name: string) {
    |name| > 0 && IsAsciiLetter(name[0]) && MoreWords(name[1..])
  }

  predicate MoreWords(t: string)
    decreases |t|
  {
    || |t| == 0
    || (IsAsciiLetter(t[0]) && MoreWords(t[1..]))
    || (|t| >= 2 && t[0] == ' ' && IsAsciiLetter(t[1]) && MoreWords(t[2..]))
  }

  /** Every character is a letter, or a space immediately followed by a letter. */
  predicate LettersAndSingleSpaces(t: string) {
    forall i {:trigger t[i]} :: 0 <= i < |t| ==>
      IsAsciiLetter(t[i]) || (t[i] == ' ' && i + 1 < |t| && IsAsciiLetter(t[i + 1]))
  }

  lemma {:induction false} MoreWordsIff(t: string)
    ensures MoreWords(t) <==> LettersAndSingleSpaces(t)
    decreases |t|
  {
    if |t| > 0 {
      var t1 := t[1..];
      assert forall i :: 1 <= i < |t| ==> t[i] == t1[i - 1];
      MoreWordsIff(t1);
      if IsAsciiLetter(t[0]) {
        if LettersAndSingleSpaces(t1) {
          forall i | 0 <= i < |t|
            ensures IsAsciiLetter(t[i]) || (t[i] == ' ' && i + 1 < |t| && IsAsciiLetter(t[i + 1]))
          {
            if i > 0 {
              assert IsAsciiLetter(t1[i - 1]) || (t1[i - 1] == ' ' && i < |t1| && IsAsciiLetter(t1[i]));
            }
          }
        }
        if LettersAndSingleSpaces(t) {
          forall i | 0 <= i < |t1|
            ensures IsAsciiLetter(t1[i]) || (t1[i] == ' ' && i + 1 < |t1| && IsAsciiLetter(t1[i + 1]))
          {
            assert IsAsciiLetter(t[i + 1]) || (t[i + 1] == ' ' && i + 2 < |t| && IsAsciiLetter(t[i + 2]));
          }
        }
      } else if |t| >= 2 && t[0] == ' ' && IsAsciiLetter(t[1]) {
        var t2 := t[2..];
        assert forall i :: 2 <= i < |t| ==> t[i] == t2[i - 2];
        MoreWordsIff(t2);
        if LettersAndSingleSpaces(t2) {
          forall i | 0 <= i < |t|
            ensures IsAsciiLetter(t[i]) || (t[i] == ' ' && i + 1 < |t| && IsAsciiLetter(t[i + 1]))
          {
            if i > 1 {
              assert IsAsciiLetter(t2[i - 2]) || (t2[i - 2] == ' ' && i - 1 < |t2| && IsAsciiLetter(t2[i - 1]));
            }
          }
        }
        if LettersAndSingleSpaces(t) {
          forall i | 0 <= i < |t2|
            ensures IsAsciiLetter(t2[i]) || (t2[i] == ' ' && i + 1 < |t2| && IsAsciiLetter(t2[i + 1]))
          {
            assert IsAsciiLetter(t[i + 2]) || (t[i + 2] == ' ' && i + 3 < |t| && IsAsciiLetter(t[i + 3]));
          }
        }
      } else {
        assert !IsAsciiLetter(t[0]) && !(t[0] == ' ' && 1 < |t| && IsAsciiLetter(t[1]));
      }
    }
  }

  /** The regular expression accepts exactly the non-empty words of ASCII letters
      separated by single spaces. */
  lemma {:induction false} ValidUserNameIff(name: string)
    ensures IsValidUserName(name) <==>
      |name| > 0 && IsAsciiLetter(name[0]) && LettersAndSingleSpaces(name)
  {
    if |name| > 0 && IsAsciiLetter(name[0]) {
      var t := name[1..];
      MoreWordsIff(t);
      if LettersAndSingleSpaces(t) {
        forall i | 0 <= i < |name|
          ensures IsAsciiLetter(name[i]) || (name[i] == ' ' && i + 1 < |name| && IsAsciiLetter(name[i + 1]))
        {
          if i > 0 {
            assert name[i] == t[i - 1];
            assert IsAsciiLetter(t[i - 1]) || (t[i - 1] == ' ' && i < |t| && IsAsciiLetter(t[i]));
          }
        }
      }
      if LettersAndSingleSpaces(name) {
        forall i | 0 <= i < |t|
          ensures IsAsciiLetter(t[i]) || (t[i] == ' ' && i + 1 < |t| && IsAsciiLetter(t[i + 1]))
        {
          assert IsAsciiLetter(name[i + 1]) || (name[i + 1] == ' ' && i + 2 < |name| && IsAsciiLetter(name[i + 2]));
        }
      }
    }
  }

  /** A valid user name is already normalised, so `normalizeSpaces` leaves it alone. */
  lemma {:induction false} ValidUserNameIsNormalized(name: string)
    requires IsValidUserName(name)
    ensures Normalized(name)
    ensures NormalizeSpaces(name) == name
  {
    ValidUserNameIff(name);
    assert forall i :: 0 <= i < |name| ==> IsAsciiLetter(name[i]) || name[i] == ' ';
    assert IsAsciiLetter(name[|name| - 1]);
    assert forall i :: 0 <= i < |name| - 1 && name[i] == ' ' ==> IsAsciiLetter(name[i + 1]);
    NormalizedIsFixpoint(name);
  }

  /** `/^[A-Za-z]/.test(desc)`. */
  predicate IsValidDescription(desc: string) {
    |desc| > 0 && IsAsciiLetter(desc[0])
  }

  /** The expense form normalises the description before testing it, so a description
      passes exactly when its first non-whitespace character is an ASCII letter. */
  lemma {:induction false} NormalizedDescriptionIff(raw: string)
    ensures IsValidDescription(NormalizeSpaces(raw)) <==>
      |Visible(raw)| > 0 && IsAsciiLetter(Visible(raw)[0])
  {
    var d := NormalizeSpaces(raw);
    if |d| > 0 {
      assert !IsWhitespace(d[0]);
      assert Visible(d) == [d[0]] + Visible(d[1..]);
    }
  }
}
