/** utils.contains_blocked_keywords: case-insensitive substring search for any keyword. */
module Keywords {
  import opened Text

  /** Python's `k in t` on strings: `k` occurs as a contiguous piece of `t`. */
  predicate Occurs(k: string, t: string)
    decreases |t|
  {
    k <= t || (t != [] && Occurs(k, t[1..]))
  }

  /** Some keyword, lower-cased, occurs in `t` (the `any(...)` generator). */
  predicate AnyOccurs(keywords: seq<string>, t: string) {
    keywords != [] && (Occurs(Lower(keywords[0]), t) || AnyOccurs(keywords[1..], t))
  }

  /**
   * utils.contains_blocked_keywords. The text is blocked exactly when it is
   * non-empty and some keyword, lower-cased, is a slice of the lower-cased
   * text; an empty keyword list never blocks.
   */
  predicate ContainsBlockedKeywords(text: string, keywords: seq<string>)
    ensures ContainsBlockedKeywords(text, keywords) <==>
      text != "" && exists j, i :: 0 <= j < |keywords| && OccursAt(Lower(keywords[j]), Lower(text), i)
  {
    AnyOccursAt(keywords, Lower(text));
    if text == "" || keywords == [] then false else AnyOccurs(keywords, Lower(text))
  }

  /** `k` is the slice of `t` that starts at position `i`. */
  predicate OccursAt(k: string, t: string, i: int) {
    0 <= i <= |t| - |k| && t[i..i + |k|] == k
  }

  /** Occurs is substring search: `k` is the slice of `t` at some position. */
  lemma {:induction false} OccursIff(k: string, t: string)
    ensures Occurs(k, t) <==> exists i :: OccursAt(k, t, i)
    decreases |t|
  {
    if k <= t {
      assert OccursAt(k, t, 0);
    } else if t == [] {
    } else {
      OccursIff(k, t[1..]);
      if Occurs(k, t[1..]) {
        var i :| OccursAt(k, t[1..], i);
        OccursInTail(k, t, i);
      }
      if exists i :: OccursAt(k, t, i) {
        var i :| OccursAt(k, t, i);
        if i != 0 {
          OccursPastHead(k, t, i);
        }
      }
    }
  }

  lemma OccursInTail(k: string, t: string, i: int)
    requires t != [] && OccursAt(k, t[1..], i)
    ensures OccursAt(k, t, i + 1)
  {
    assert t[1..][i..i + |k|] == t[i + 1..i + 1 + |k|];
  }

  lemma OccursPastHead(k: string, t: string, i: int)
    requires t != [] && OccursAt(k, t, i) && i != 0
    ensures OccursAt(k, t[1..], i - 1)
  {
    assert t[1..][i - 1..i - 1 + |k|] == t[i..i + |k|];
  }

  lemma {:induction false} AnyOccursIff(keywords: seq<string>, t: string)
    ensures AnyOccurs(keywords, t) <==> exists j :: 0 <= j < |keywords| && Occurs(Lower(keywords[j]), t)
  {
    if keywords != [] {
      AnyOccursIff(keywords[1..], t);
      if exists j :: 0 <= j < |keywords| && Occurs(Lower(keywords[j]), t) {
        var j :| 0 <= j < |keywords| && Occurs(Lower(keywords[j]), t);
        if j > 0 {
          assert keywords[1..][j - 1] == keywords[j];
        }
      }
    }
  }

  /** AnyOccurs as positions: some keyword, lower-cased, is the slice of `t` at some position. */
  lemma AnyOccursAt(keywords: seq<string>, t: string)
    ensures AnyOccurs(keywords, t) <==> exists j, i :: 0 <= j < |keywords| && OccursAt(Lower(keywords[j]), t, i)
  {
    AnyOccursIff(keywords, t);
    forall j | 0 <= j < |keywords|
      ensures Occurs(Lower(keywords[j]), t) <==> exists i :: OccursAt(Lower(keywords[j]), t, i)
    {
      OccursIff(Lower(keywords[j]), t);
    }
  }

  /** An empty keyword is a piece of every text, so it blocks every non-empty text. */
  lemma EmptyKeywordBlocksEverything(text: string, keywords: seq<string>)
    requires text != "" && "" in keywords
    ensures ContainsBlockedKeywords(text, keywords)
  {
    var j :| 0 <= j < |keywords| && keywords[j] == "";
    assert OccursAt(Lower(keywords[j]), Lower(text), 0);
  }

  lemma LowerIdempotent(s: string)
    ensures Lower(Lower(s)) == Lower(s)
  {
  }

  /** The match ignores case: lower-casing the text or every keyword first does not change it. */
  lemma CaseInsensitive(text: string, keywords: seq<string>)
    ensures ContainsBlockedKeywords(Lower(text), keywords) == ContainsBlockedKeywords(text, keywords)
    ensures var lowered := seq(|keywords|, j requires 0 <= j < |keywords| => Lower(keywords[j]));
      ContainsBlockedKeywords(text, lowered) == ContainsBlockedKeywords(text, keywords)
  {
    LowerIdempotent(text);
    var lowered := seq(|keywords|, j requires 0 <= j < |keywords| => Lower(keywords[j]));
    AnyOccursIff(keywords, Lower(text));
    AnyOccursIff(lowered, Lower(text));
    forall j | 0 <= j < |keywords|
      ensures Lower(lowered[j]) == Lower(keywords[j])
    {
      LowerIdempotent(keywords[j]);
    }
  }
}
