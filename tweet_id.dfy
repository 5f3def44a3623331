/**
 * utils.extract_tweet_id: the status number in a tweet's URL, found by three
 * regular expressions tried in order, each searched leftmost-first:
 * `twitter\.com/\w+/status/(\d+)`, `x\.com/\w+/status/(\d+)` and
 * `/status/(\d+)`. Word and digit characters are the ASCII ones.
 */
module TweetId {
  import opened Wrappers
  import opened Text

  const StatusMarker: string := "/status/"

  /** A letter, a digit or `_` (`\w`). */
  predicate IsWordChar(c: char) {
    'a' <= c <= 'z' || 'A' <= c <= 'Z' || IsDigit(c) || c == '_'
  }

  /** The length of the run of word characters at the start of `s`. */
  function SpanWord(s: string): (k: nat)
    ensures k <= |s|
    ensures forall i :: 0 <= i < k ==> IsWordChar(s[i])
    ensures k < |s| ==> !IsWordChar(s[k])
  {
    if s == [] || !IsWordChar(s[0]) then 0 else 1 + SpanWord(s[1..])
  }

  /** The digits at the start of `t`, as many as there are (`\d+` is greedy). */
  function DigitRun(t: string): string {
    t[..SpanDigits(t)]
  }

  /** `/status/` starts at `i` and a digit follows it. */
  predicate StatusDigitAt(s: string, i: int) {
    0 <= i && i + |StatusMarker| < |s| && s[i..i + |StatusMarker|] == StatusMarker
    && IsDigit(s[i + |StatusMarker|])
  }

  /** The three patterns: a host, a word, then a status; or a status alone. */
  datatype Pattern = Host(name: string) | Bare

  const Twitter: Pattern := Host("twitter.com/")
  const X: Pattern := Host("x.com/")

  /** `/status/(\d+)` at the start of `t`: the captured digits. */
  function StatusId(t: string): Option<string> {
    if |StatusMarker| < |t| && t[..|StatusMarker|] == StatusMarker && IsDigit(t[|StatusMarker|])
    then Some(DigitRun(t[|StatusMarker|..]))
    else None
  }

  /**
   * A host pattern at the start of `t`. `\w+` can only match the whole run of
   * word characters, since the `/` that must follow it is not one.
   */
  function HostId(h: string, t: string): Option<string> {
    if h <= t then
      var u := t[|h|..];
      var k := SpanWord(u);
      if k == 0 then None else StatusId(u[k..])
    else None
  }

  /** The pattern anchored at the start of `t`. */
  function MatchAt(p: Pattern, t: string): Option<string> {
    match p
    case Bare => StatusId(t)
    case Host(h) => HostId(h, t)
  }

  /** `re.search` from position `i`: the match at the leftmost position that has one. */
  function Search(p: Pattern, s: string, i: nat): Option<string>
    requires i <= |s|
    decreases |s| - i
  {
    var m := MatchAt(p, s[i..]);
    if m.Some? then m
    else if i == |s| then None
    else Search(p, s, i + 1)
  }

  /** utils.extract_tweet_id. Whatever it finds is a non-empty run of digits. */
  function ExtractTweetId(url: string): (r: Option<string>)
    ensures r.Some? ==> r.value != [] && AllDigits(r.value)
  {
    SearchFindsDigits(Twitter, url);
    SearchFindsDigits(X, url);
    SearchFindsDigits(Bare, url);
    var a := Search(Twitter, url, 0);
    if a.Some? then a
    else
      var b := Search(X, url, 0);
      if b.Some? then b else Search(Bare, url, 0)
  }

  /** `id` is the whole run of digits right after a `/status/` at `i`. */
  predicate IdAfterStatus(s: string, id: string, i: int) {
    StatusDigitAt(s, i) && id == DigitRun(s[i + |StatusMarker|..])
  }

  /** The id is a non-empty run of digits that no further digit extends. */
  lemma DigitRunShape(t: string)
    requires t != [] && IsDigit(t[0])
    ensures var r := DigitRun(t);
      r != [] && AllDigits(r) && r <= t && (|r| < |t| ==> !IsDigit(t[|r|]))
  {
  }

  /** The status pattern matches at `i` exactly when `/status/` and a digit start there, and captures the digit run. */
  lemma StatusIdAt(s: string, i: nat)
    requires i <= |s|
    ensures StatusId(s[i..]).Some? <==> StatusDigitAt(s, i)
    ensures StatusId(s[i..]).Some? ==> IdAfterStatus(s, StatusId(s[i..]).value, i)
  {
    var t := s[i..];
    if i + |StatusMarker| < |s| {
      assert t[..|StatusMarker|] == s[i..i + |StatusMarker|];
      assert t[|StatusMarker|..] == s[i + |StatusMarker|..];
    }
  }

  /** Any match, of any pattern, is the digit run after some `/status/`. */
  lemma MatchAtIsStatus(p: Pattern, s: string, i: nat)
    requires i <= |s| && MatchAt(p, s[i..]).Some?
    ensures exists j :: IdAfterStatus(s, MatchAt(p, s[i..]).value, j)
  {
    match p
    case Bare =>
      StatusIdAt(s, i);
    case Host(h) =>
      var u := s[i..][|h|..];
      var k := SpanWord(u);
      assert u[k..] == s[i + |h| + k..];
      StatusIdAt(s, i + |h| + k);
  }

  lemma {:induction false} SearchIsStatus(p: Pattern, s: string, i: nat)
    requires i <= |s| && Search(p, s, i).Some?
    ensures exists j :: IdAfterStatus(s, Search(p, s, i).value, j)
    decreases |s| - i
  {
    if MatchAt(p, s[i..]).Some? {
      MatchAtIsStatus(p, s, i);
    } else {
      SearchIsStatus(p, s, i + 1);
    }
  }

  /** The bare pattern finds nothing from `i` on exactly when no `/status/` followed by a digit starts there. */
  lemma {:induction false} SearchBareNone(s: string, i: nat)
    requires i <= |s|
    ensures Search(Bare, s, i).None? <==> forall j :: i <= j <= |s| ==> !StatusDigitAt(s, j)
    decreases |s| - i
  {
    StatusIdAt(s, i);
    if i < |s| {
      SearchBareNone(s, i + 1);
    }
  }

  /**
   * Extraction finds nothing exactly when no `/status/` in the URL is
   * followed by a digit; what it finds is then the whole run of digits after
   * some `/status/`.
   */
  lemma ExtractTweetIdSpec(url: string)
    ensures ExtractTweetId(url).None? <==> forall j :: 0 <= j <= |url| ==> !StatusDigitAt(url, j)
    ensures ExtractTweetId(url).Some? ==> exists j :: IdAfterStatus(url, ExtractTweetId(url).value, j)
  {
    SearchBareNone(url, 0);
    var a := Search(Twitter, url, 0);
    var b := Search(X, url, 0);
    if a.Some? {
      SearchIsStatus(Twitter, url, 0);
      var j :| IdAfterStatus(url, a.value, j);
      assert j <= |url|;
    } else if b.Some? {
      SearchIsStatus(X, url, 0);
      var j :| IdAfterStatus(url, b.value, j);
      assert j <= |url|;
    } else if Search(Bare, url, 0).Some? {
      SearchIsStatus(Bare, url, 0);
    }
  }

  /** What a search finds is a non-empty run of digits. */
  lemma SearchFindsDigits(p: Pattern, s: string)
    ensures Search(p, s, 0).Some? ==> Search(p, s, 0).value != [] && AllDigits(Search(p, s, 0).value)
  {
    if Search(p, s, 0).Some? {
      SearchIsStatus(p, s, 0);
      var j :| IdAfterStatus(s, Search(p, s, 0).value, j);
      DigitRunShape(s[j + |StatusMarker|..]);
    }
  }

  /** A URL beginning with a host, a user name and a status reads back the status number. */
  lemma HostUrlReadsBack(h: string, user: string, id: string, rest: string)
    requires user != [] && forall i :: 0 <= i < |user| ==> IsWordChar(user[i])
    requires id != [] && AllDigits(id)
    requires rest == [] || !IsDigit(rest[0])
    ensures Search(Host(h), h + user + StatusMarker + id + rest, 0) == Some(id)
  {
    var tail := StatusMarker + id + rest;
    var s := h + user + StatusMarker + id + rest;
    calc {
      s;
      (((h + user) + StatusMarker) + id) + rest;
      ((h + user) + (StatusMarker + id)) + rest;
      (h + user) + tail;
    }
    StatusThenDigits(id, rest);
    HostUserTail(h, user, tail, id);
  }

  lemma HostUserTail(h: string, user: string, tail: string, id: string)
    requires user != [] && forall i :: 0 <= i < |user| ==> IsWordChar(user[i])
    requires tail != [] && tail[0] == '/'
    requires StatusId(tail) == Some(id)
    ensures Search(Host(h), h + user + tail, 0) == Some(id)
  {
    var s := h + user + tail;
    var u := s[|h|..];
    assert u == user + tail;
    SpanWordOfWordThen(user, tail);
    assert u[|user|..] == tail;
    assert s[0..] == s;
  }

  /** A `/status/` followed by digits captures those digits. */
  lemma StatusThenDigits(id: string, rest: string)
    requires id != [] && AllDigits(id)
    requires rest == [] || !IsDigit(rest[0])
    ensures StatusId(StatusMarker + id + rest) == Some(id)
  {
    var t := StatusMarker + id + rest;
    assert t[..|StatusMarker|] == StatusMarker;
    assert t[|StatusMarker|..] == id + rest;
    SpanDigitsOfDigitsThen(id, rest);
    assert (id + rest)[..|id|] == id;
  }

  lemma {:induction false} SpanWordOfWordThen(w: string, rest: string)
    requires forall i :: 0 <= i < |w| ==> IsWordChar(w[i])
    requires rest == [] || !IsWordChar(rest[0])
    ensures SpanWord(w + rest) == |w|
  {
    if w != [] {
      assert (w + rest)[1..] == w[1..] + rest;
      SpanWordOfWordThen(w[1..], rest);
    } else {
      assert w + rest == rest;
    }
  }

  /** `twitter.com/<user>/status/<id>` reads back `<id>`. */
  lemma TwitterUrlReadsBack(user: string, id: string)
    requires user != [] && forall i :: 0 <= i < |user| ==> IsWordChar(user[i])
    requires id != [] && AllDigits(id)
    ensures ExtractTweetId("twitter.com/" + user + StatusMarker + id) == Some(id)
  {
    HostUrlReadsBack("twitter.com/", user, id, []);
    assert "twitter.com/" + user + StatusMarker + id + [] == "twitter.com/" + user + StatusMarker + id;
  }
}
