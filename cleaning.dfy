/** utils.clean_tweet_text and utils.sanitize_filename. */
module Cleaning {
  import opened Text

  /** `re.sub(r'\s+', ' ', s)`: every maximal run of whitespace becomes one space. */
  function Collapse(s: string): (r: string)
    ensures |r| <= |s|
    decreases |s|
  {
    if s == [] then []
    else if IsSpace(s[0]) then " " + Collapse(LStrip(s))
    else
      var w := TakeWord(s);
      w + Collapse(s[|w|..])
  }

  /**
   * utils.clean_tweet_text. The three replacements follow the collapse and
   * strip, as in the source; cleaning never lengthens the text.
   */
  function CleanTweetText(text: string): (r: string)
    ensures |r| <= |text|
  {
    if text == "" then ""
    else
      var t := Strip(Collapse(text));
      ReplaceChar(ReplaceChar(ReplaceChar(t, '\n', ' '), '\r', ' '), '\t', ' ')
  }

  /** The longest prefix of `s` without whitespace. */
  function TakeWord(s: string): (w: string)
    ensures |w| <= |s| && w == s[..|w|]
  {
    if s == [] || IsSpace(s[0]) then []
    else
      var w := [s[0]] + TakeWord(s[1..]);
      assert w == s[..|w|];
      w
  }

  /** `s.split()`: the maximal runs of non-whitespace characters, in order. */
  function Words(s: string): seq<string>
    decreases |s|
  {
    if s == [] then []
    else if IsSpace(s[0]) then Words(s[1..])
    else
      var w := TakeWord(s);
      [w] + Words(s[|w|..])
  }

  /** `' '.join(ws)`. */
  function Join(ws: seq<string>): string {
    if ws == [] then ""
    else if |ws| == 1 then ws[0]
    else ws[0] + " " + Join(ws[1..])
  }

  /**
   * Every whitespace character is a single ' ' with a non-whitespace character
   * on each side: no newline, tab, double space or space at either end.
   */
  predicate SeparatedBySingleSpaces(r: string) {
    forall i :: 0 <= i < |r| && IsSpace(r[i]) ==>
      r[i] == ' ' && 0 < i < |r| - 1 && !IsSpace(r[i - 1]) && !IsSpace(r[i + 1])
  }

  /** Non-empty strings without whitespace, as `str.split()` returns them. */
  predicate ProperWords(ws: seq<string>) {
    forall i :: 0 <= i < |ws| ==> ws[i] != [] && NoSpace(ws[i])
  }

  /**
   * Reference definition: cleaning a text is `' '.join(text.split())`, the
   * words of the text in order, separated by single spaces.
   */
  lemma CleanIsJoinedWords(text: string)
    ensures CleanTweetText(text) == Join(Words(text))
  {
    if text != "" {
      var t := Join(Words(text));
      assert Strip(Collapse(text)) == t by {
        LStripCollapse(text);
        CollapseThenRStrip(LStrip(text));
        WordsSkipLeadingSpace(text);
      }
      assert '\n' !in t && '\r' !in t && '\t' !in t by {
        WordsAreProper(text);
        JoinShape(Words(text));
        OnlyBlankSpaces(t);
      }
      ReplaceAbsent(t, '\n', ' ');
      ReplaceAbsent(t, '\r', ' ');
      ReplaceAbsent(t, '\t', ' ');
    }
  }

  /**
   * The shape of the cleaned text: every whitespace character in it is a single
   * space with a non-whitespace character on each side, so there is no newline,
   * carriage return or tab, no two spaces in a row and no space at either end.
   */
  lemma CleanShape(text: string)
    ensures SeparatedBySingleSpaces(CleanTweetText(text))
  {
    CleanIsJoinedWords(text);
    WordsAreProper(text);
    JoinShape(Words(text));
  }

  /** Cleaning keeps the words: splitting the cleaned text gives the words of the input. */
  lemma CleanKeepsWords(text: string)
    ensures Words(CleanTweetText(text)) == Words(text)
  {
    CleanIsJoinedWords(text);
    WordsAreProper(text);
    WordsOfJoin(Words(text));
  }

  /** Cleaning is idempotent. */
  lemma CleanIdempotent(text: string)
    ensures CleanTweetText(CleanTweetText(text)) == CleanTweetText(text)
  {
    CleanKeepsWords(text);
    CleanIsJoinedWords(text);
    CleanIsJoinedWords(CleanTweetText(text));
  }

  /**
   * Two words between whitespace runs clean to the two words around one space;
   * the test suite's "  Hello\n\nWorld  \t" becoming "Hello World" is one instance.
   */
  lemma CleanTwoWords(s1: string, w1: string, s2: string, w2: string, s3: string)
    requires AllSpace(s1) && AllSpace(s2) && AllSpace(s3) && s2 != []
    requires w1 != [] && NoSpace(w1) && w2 != [] && NoSpace(w2)
    ensures CleanTweetText(s1 + w1 + s2 + w2 + s3) == w1 + " " + w2
  {
    CleanIsJoinedWords(s1 + w1 + s2 + w2 + s3);
    WordsOfTwo(s1, w1, s2, w2, s3);
  }

  lemma WordsOfTwo(s1: string, w1: string, s2: string, w2: string, s3: string)
    requires AllSpace(s1) && AllSpace(s2) && AllSpace(s3) && s2 != []
    requires w1 != [] && NoSpace(w1) && w2 != [] && NoSpace(w2)
    ensures Words(s1 + w1 + s2 + w2 + s3) == [w1, w2]
  {
    var t3 := w2 + s3;
    var t2 := s2 + t3;
    var t1 := w1 + t2;
    RegroupFive(s1, w1, s2, w2, s3);
    WordsSkipSpaces(s1, t1);
    assert t2[0] == s2[0];
    WordsOfWord(w1, t2);
    WordsSkipSpaces(s2, t3);
    WordOfWordThenSpaces(w2, s3);
    assert [w1] + [w2] == [w1, w2];
  }

  lemma RegroupFive(a: string, b: string, c: string, d: string, e: string)
    ensures a + b + c + d + e == a + (b + (c + (d + e)))
  {
  }

  lemma WordOfWordThenSpaces(w: string, sp: string)
    requires w != [] && NoSpace(w) && AllSpace(sp)
    ensures Words(w + sp) == [w]
  {
    if sp == [] {
      assert w + sp == w + [];
      WordsOfWord(w, []);
    } else {
      WordsOfWord(w, sp);
    }
    WordsSkipSpaces(sp, []);
    assert sp + [] == sp;
  }

  /** Every character is whitespace. */
  predicate AllSpace(s: string) {
    forall i :: 0 <= i < |s| ==> IsSpace(s[i])
  }

  /** Leading whitespace does not change the words. */
  lemma {:induction false} WordsSkipSpaces(sp: string, rest: string)
    requires AllSpace(sp)
    ensures Words(sp + rest) == Words(rest)
  {
    if sp == [] {
      assert sp + rest == rest;
    } else {
      assert (sp + rest)[1..] == sp[1..] + rest;
      WordsSkipSpaces(sp[1..], rest);
    }
  }

  lemma {:induction false} TakeWordIsWord(s: string)
    ensures NoSpace(TakeWord(s))
    ensures |TakeWord(s)| < |s| ==> IsSpace(s[|TakeWord(s)|])
  {
    if s != [] && !IsSpace(s[0]) {
      TakeWordIsWord(s[1..]);
    }
  }

  /** `str.split()` returns non-empty words without whitespace. */
  lemma {:induction false} WordsAreProper(s: string)
    ensures ProperWords(Words(s))
    decreases |s|
  {
    if s != [] {
      if IsSpace(s[0]) {
        WordsAreProper(s[1..]);
      } else {
        var w := TakeWord(s);
        TakeWordIsWord(s);
        WordsAreProper(s[|w|..]);
      }
    }
  }

  /** Round trip: splitting the join of proper words gives the words back. */
  lemma {:induction false} WordsOfJoin(ws: seq<string>)
    requires ProperWords(ws)
    ensures Words(Join(ws)) == ws
  {
    if ws == [] {
    } else if |ws| == 1 {
      WordsOfWord(ws[0], "");
      assert ws[0] + "" == ws[0];
    } else {
      var rest := Join(ws[1..]);
      WordsOfJoin(ws[1..]);
      assert Join(ws) == ws[0] + (" " + rest);
      WordsOfWord(ws[0], " " + rest);
      assert (" " + rest)[1..] == rest;
    }
  }

  /** A word followed by nothing or by whitespace is split off whole. */
  lemma {:induction false} WordsOfWord(w: string, rest: string)
    requires w != [] && NoSpace(w)
    requires rest == [] || IsSpace(rest[0])
    ensures Words(w + rest) == [w] + Words(rest)
  {
    TakeWordOfWord(w, rest);
    assert (w + rest)[|w|..] == rest;
  }

  lemma {:induction false} TakeWordOfWord(w: string, rest: string)
    requires NoSpace(w)
    requires rest == [] || IsSpace(rest[0])
    ensures TakeWord(w + rest) == w
  {
    if w != [] {
      assert (w + rest)[1..] == w[1..] + rest;
      TakeWordOfWord(w[1..], rest);
    }
  }

  /** Every whitespace character of a join of proper words is a lone separating space. */
  lemma {:induction false} JoinShape(ws: seq<string>)
    requires ProperWords(ws)
    ensures SeparatedBySingleSpaces(Join(ws))
  {
    if |ws| > 1 {
      JoinShape(ws[1..]);
      JoinNonEmpty(ws[1..]);
      var w, rest := ws[0], Join(ws[1..]);
      var r := Join(ws);
      assert r == w + " " + rest;
      forall i | 0 <= i < |r| && IsSpace(r[i])
        ensures r[i] == ' ' && 0 < i < |r| - 1 && !IsSpace(r[i - 1]) && !IsSpace(r[i + 1])
      {
        if i == |w| {
          assert r[i + 1] == rest[0];
        } else if i > |w| {
          assert r[i] == rest[i - |w| - 1];
        }
      }
    }
  }

  /** A text whose only whitespace is ' ' has no newline, carriage return or tab. */
  lemma OnlyBlankSpaces(t: string)
    requires SeparatedBySingleSpaces(t)
    ensures '\n' !in t && '\r' !in t && '\t' !in t
  {
    forall i | 0 <= i < |t|
      ensures t[i] != '\n' && t[i] != '\r' && t[i] != '\t'
    {
      if IsSpace(t[i]) {
        assert t[i] == ' ';
      }
    }
  }

  lemma JoinNonEmpty(ws: seq<string>)
    requires ProperWords(ws) && ws != []
    ensures Join(ws) != [] && !IsSpace(Join(ws)[0])
  {
  }

  lemma {:induction false} ReplaceAbsent(s: string, from: char, to: char)
    requires from !in s
    ensures ReplaceChar(s, from, to) == s
  {
    assert forall i :: 0 <= i < |s| ==> s[i] != from;
  }

  /** Collapse(s) starts with the first character of s when that is not whitespace. */
  lemma CollapseStart(s: string)
    requires s != [] && !IsSpace(s[0])
    ensures Collapse(s) != [] && Collapse(s)[0] == s[0]
  {
  }

  /** Stripping the front after collapsing is collapsing after stripping the front. */
  lemma LStripCollapse(s: string)
    ensures LStrip(Collapse(s)) == Collapse(LStrip(s))
  {
    if s != [] && IsSpace(s[0]) {
      var l := LStrip(s);
      assert Collapse(s) == " " + Collapse(l);
      assert LStrip(Collapse(s)) == LStrip(Collapse(l));
      if l != [] {
        CollapseStart(l);
      }
    } else if s != [] {
      CollapseStart(s);
    }
  }

  lemma {:induction false} WordsSkipLeadingSpace(s: string)
    ensures Words(s) == Words(LStrip(s))
    decreases |s|
  {
    if s != [] && IsSpace(s[0]) {
      WordsSkipLeadingSpace(s[1..]);
    }
  }

  /** Trailing whitespace of a concatenation comes from its right part, when that part is not all whitespace. */
  lemma {:induction false} RStripAppend(a: string, b: string)
    requires RStrip(b) != []
    ensures RStrip(a + b) == a + RStrip(b)
    decreases |b|
  {
    if IsSpace(b[|b| - 1]) {
      assert (a + b)[..|a + b| - 1] == a + b[..|b| - 1];
      RStripAppend(a, b[..|b| - 1]);
    }
  }

  /** For a text that does not start with whitespace, trimming the end of its collapse joins its words. */
  lemma {:induction false} CollapseThenRStrip(t: string)
    requires t == [] || !IsSpace(t[0])
    ensures RStrip(Collapse(t)) == Join(Words(t))
    decreases |t|
  {
    if t != [] {
      var w := TakeWord(t);
      var rest := t[|w|..];
      TakeWordIsWord(t);
      assert Collapse(t) == w + Collapse(rest);
      assert Words(t) == [w] + Words(rest);
      if rest == [] {
        assert w + [] == w;
      } else if LStrip(rest) == [] {
        WordThenTrailingSpaces(w, rest);
      } else {
        CollapseThenRStrip(LStrip(rest));
        WordThenMore(w, rest);
      }
    }
  }

  lemma WordThenTrailingSpaces(w: string, rest: string)
    requires w != [] && NoSpace(w)
    requires rest != [] && IsSpace(rest[0]) && LStrip(rest) == []
    ensures RStrip(w + Collapse(rest)) == Join([w] + Words(rest))
  {
    WordsSkipLeadingSpace(rest);
    CollapseAllSpace(rest);
    RStripWordSpace(w);
  }

  lemma CollapseAllSpace(s: string)
    requires s != [] && IsSpace(s[0]) && LStrip(s) == []
    ensures Collapse(s) == " "
  {
  }

  lemma RStripWordSpace(w: string)
    requires w != [] && NoSpace(w)
    ensures RStrip(w + " ") == w
  {
    assert (w + " ")[..|w|] == w;
  }

  lemma WordThenMore(w: string, rest: string)
    requires w != [] && NoSpace(w)
    requires rest != [] && IsSpace(rest[0]) && LStrip(rest) != []
    requires RStrip(Collapse(LStrip(rest))) == Join(Words(LStrip(rest)))
    ensures RStrip(w + Collapse(rest)) == Join([w] + Words(rest))
  {
    var r2 := LStrip(rest);
    CollapseSpaceThen(rest);
    AppendRegroup(w, " ", Collapse(r2));
    RStripAfterWord(w, r2);
    WordsStartingWithWord(r2);
    JoinCons(w, Words(r2));
    WordsSkipLeadingSpace(rest);
  }

  lemma RStripAfterWord(w: string, r2: string)
    requires r2 != [] && !IsSpace(r2[0])
    requires RStrip(Collapse(r2)) == Join(Words(r2))
    ensures RStrip((w + " ") + Collapse(r2)) == (w + " ") + Join(Words(r2))
  {
    WordsAreProper(r2);
    WordsStartingWithWord(r2);
    JoinNonEmpty(Words(r2));
    RStripAppend(w + " ", Collapse(r2));
  }

  lemma AppendRegroup(a: string, b: string, c: string)
    ensures a + (b + c) == (a + b) + c
  {
  }

  lemma WordsStartingWithWord(s: string)
    requires s != [] && !IsSpace(s[0])
    ensures Words(s) != []
  {
  }

  lemma CollapseSpaceThen(s: string)
    requires s != [] && IsSpace(s[0])
    ensures Collapse(s) == " " + Collapse(LStrip(s))
  {
  }

  lemma JoinCons(w: string, ws: seq<string>)
    requires ws != []
    ensures Join([w] + ws) == (w + " ") + Join(ws)
  {
    assert ([w] + ws)[1..] == ws;
  }

  /** The characters sanitize_filename replaces by '_'. */
  const InvalidChars: string := "<>:\"/\\|?*"

  /** The input with every character from `cs` replaced by '_'. */
  function ReplaceAll(s: string, cs: string): (r: string)
    ensures |r| == |s|
  {
    seq(|s|, i requires 0 <= i < |s| => if s[i] in cs then '_' else s[i])
  }

  /** No character of the name is one sanitize_filename replaces. */
  predicate ValidName(s: string) {
    forall i :: 0 <= i < |s| ==> s[i] !in InvalidChars
  }

  /** What sanitize_filename returns: the replaced name, cut to its first 200 characters, stripped. */
  function Sanitized(filename: string): string {
    var s := ReplaceAll(filename, InvalidChars);
    Strip(if |s| > 200 then s[..200] else s)
  }

  /** utils.sanitize_filename: replace the invalid characters one after the other, cut to 200, strip. */
  method SanitizeFilename(filename: string) returns (r: string)
    ensures r == Sanitized(filename)
    ensures ValidName(r) && |r| <= 200
  {
    var name := filename;
    for k := 0 to |InvalidChars|
      invariant name == ReplaceAll(filename, InvalidChars[..k])
    {
      ReplaceAllStep(filename, InvalidChars[..k], InvalidChars[k]);
      assert InvalidChars[..k + 1] == InvalidChars[..k] + [InvalidChars[k]];
      name := ReplaceChar(name, InvalidChars[k], '_');
    }
    assert InvalidChars[..|InvalidChars|] == InvalidChars;
    if |name| > 200 {
      name := name[..200];
    }
    r := Strip(name);
    SanitizedIsValid(filename);
  }

  /** The sanitized name has no invalid character and at most 200 characters. */
  lemma SanitizedIsValid(filename: string)
    ensures ValidName(Sanitized(filename)) && |Sanitized(filename)| <= 200
  {
    var s := ReplaceAll(filename, InvalidChars);
    ReplacedValid(filename);
    if |s| > 200 {
      SliceValid(s, 0, 200);
      StrippedValid(s[..200]);
    } else {
      StrippedValid(s);
    }
  }

  /** Replacing one more character extends the set of replaced characters. */
  lemma ReplaceAllStep(s: string, cs: string, c: char)
    ensures ReplaceChar(ReplaceAll(s, cs), c, '_') == ReplaceAll(s, cs + [c])
  {
  }

  /** After the replacements no invalid character is left, since '_' is not one of them. */
  lemma ReplacedValid(s: string)
    ensures ValidName(ReplaceAll(s, InvalidChars))
  {
  }

  /** Stripping keeps a name free of invalid characters and does not lengthen it. */
  lemma StrippedValid(name: string)
    requires ValidName(name)
    ensures |Strip(name)| <= |name| && ValidName(Strip(name))
  {
    StripIsTrimmedSlice(name);
    var a, b :| 0 <= a <= b <= |name| && Strip(name) == name[a..b];
    SliceValid(name, a, b);
  }

  lemma SliceValid(s: string, a: int, b: int)
    requires ValidName(s) && 0 <= a <= b <= |s|
    ensures ValidName(s[a..b])
  {
    forall i | 0 <= i < b - a
      ensures s[a..b][i] !in InvalidChars
    {
      assert s[a..b][i] == s[a + i];
    }
  }
}
