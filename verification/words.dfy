/** The words of a string: its maximal runs of non-whitespace characters, in order.
    This is what `normalizeSpaces` promises to keep while it rewrites the blanks. */
module WordRuns {
  import opened Chars

  /** `x` begins with a character of a word. */
  predicate StartsWord(x: string) {
    |x| > 0 && !IsWhitespace(x[0])
  }

  /** The words `ws` with the character `c` put in front: `c` starts the first of them
      when `joins`, and is a word of its own otherwise. */
  function ConsWord(c: char, ws: seq<string>, joins: bool): (r: seq<string>)
    ensures |r| > 0 && |r[0]| > 0 && r[0][0] == c
  {
    if joins && |ws| > 0 then [[c] + ws[0]] + ws[1..] else [[c]] + ws
  }

  /** The maximal runs of non-whitespace characters of `s`, read from the front: a
      whitespace character separates, and any other character joins the word that
      follows it directly. */
  function Words(s: string): seq<string>
    decreases |s|
  {
    if |s| == 0 then []
    else if IsWhitespace(s[0]) then Words(s[1..])
    else ConsWord(s[0], Words(s[1..]), StartsWord(s[1..]))
  }

  /** Whitespace in front of a string adds no word. */
  lemma {:induction false} WordsOfBlankLead(lead: string, y: string)
    requires AllWhitespace(lead)
    ensures Words(lead + y) == Words(y)
    decreases |lead|
  {
    if |lead| > 0 {
      assert (lead + y)[0] == lead[0];
      assert (lead + y)[1..] == lead[1..] + y;
      WordsOfBlankLead(lead[1..], y);
    } else {
      assert lead + y == y;
    }
  }

  /** A string of whitespace has no word. */
  lemma {:induction false} WordsOfBlank(s: string)
    requires AllWhitespace(s)
    ensures Words(s) == []
    decreases |s|
  {
    if |s| > 0 {
      WordsOfBlank(s[1..]);
    }
  }

  /** Whitespace after a string adds no word. */
  lemma {:induction false} WordsOfBlankTail(y: string, tail: string)
    requires AllWhitespace(tail)
    ensures Words(y + tail) == Words(y)
    decreases |y|
  {
    if |y| == 0 {
      assert y + tail == tail;
      WordsOfBlank(tail);
    } else {
      var s := y + tail;
      assert s[0] == y[0];
      assert s[1..] == y[1..] + tail;
      WordsOfBlankTail(y[1..], tail);
      if |y[1..]| > 0 {
        assert s[1..][0] == y[1..][0];
      } else {
        assert s[1..] == tail;
      }
    }
  }

  /** A character of a word put in front of `x` joins the first word of `x` when `x`
      starts with one, and stands alone otherwise. */
  lemma {:induction false} WordsCons(c: char, x: string)
    requires !IsWhitespace(c)
    ensures Words([c] + x) == ConsWord(c, Words(x), StartsWord(x))
  {
    assert ([c] + x)[0] == c;
    assert ([c] + x)[1..] == x;
  }

  /** `trim` keeps the words. */
  lemma {:induction false} TrimKeepsWords(s: string)
    ensures Words(Trim(s)) == Words(s)
  {
    var t := TrimStart(s);
    var r := TrimEnd(t);
    assert s == s[..|s| - |t|] + t;
    WordsOfBlankLead(s[..|s| - |t|], t);
    assert t == r + t[|r|..];
    WordsOfBlankTail(r, t[|r|..]);
    assert Trim(s) == r;
  }
}
