/** The `icontains` lookups the list and search views filter with: a substring
    test that ignores the case of ASCII letters. */
module TextSearch {

  /** An ASCII capital letter in lower case; every other character unchanged. */
  function FoldChar(c: char): (r: char)
    ensures 'A' <= c <= 'Z' ==> r as int == c as int + 32
    ensures !('A' <= c <= 'Z') ==> r == c
  {
    if 'A' <= c <= 'Z' then (c as int + 32) as char else c
  }

  /** `s` with every character folded. */
  function Fold(s: string): (r: string)
    ensures |r| == |s|
    ensures forall i | 0 <= i < |s| :: r[i] == FoldChar(s[i])
  {
    if s == [] then [] else [FoldChar(s[0])] + Fold(s[1..])
  }

  /** `text` starts with `query`, ignoring case. */
  predicate StartsWithFolded(text: string, query: string)
  {
    |query| <= |text| && Fold(text[..|query|]) == Fold(query)
  }

  /** `text` contains `query`, ignoring case: the lookup `text__icontains=query`.
      The empty query is found in every text, and a query is never found in a
      shorter text. */
  predicate IContains(text: string, query: string): (r: bool)
    ensures query == [] ==> r
    ensures r ==> |query| <= |text|
    decreases |text|
  {
    StartsWithFolded(text, query) || (text != [] && IContains(text[1..], query))
  }

  /** The window of `text` at position `i`, as long as `query`, matches it once
      both are folded. */
  predicate MatchAt(text: string, query: string, i: int)
  {
    0 <= i <= |text| - |query| && Fold(text[i..i + |query|]) == Fold(query)
  }

  /** The search reads as: some window of `text` as long as `query` matches it
      once both are folded. */
  lemma IContainsAt(text: string, query: string)
    ensures IContains(text, query) <==> exists i :: MatchAt(text, query, i)
  {
    if IContains(text, query) {
      MatchedWindow(text, query);
    }
    if exists i :: MatchAt(text, query, i) {
      var i :| MatchAt(text, query, i);
      WindowMatched(text, query, i);
    }
  }

  /** A match lies in some window. */
  lemma {:induction false} MatchedWindow(text: string, query: string)
    requires IContains(text, query)
    ensures exists i :: MatchAt(text, query, i)
    decreases |text|
  {
    if StartsWithFolded(text, query) {
      assert text[..|query|] == text[0..0 + |query|];
      assert MatchAt(text, query, 0);
    } else {
      MatchedWindow(text[1..], query);
      var i :| MatchAt(text[1..], query, i);
      var window := text[1..][i..i + |query|];
      assert window == text[i + 1..i + 1 + |query|];
      assert MatchAt(text, query, i + 1);
    }
  }

  /** A matching window is found by the search. */
  lemma {:induction false} WindowMatched(text: string, query: string, i: int)
    requires MatchAt(text, query, i)
    ensures IContains(text, query)
    decreases i
  {
    if i == 0 {
      assert text[..|query|] == text[i..i + |query|];
      assert StartsWithFolded(text, query);
    } else {
      assert text[1..][i - 1..i - 1 + |query|] == text[i..i + |query|];
      WindowMatched(text[1..], query, i - 1);
    }
  }

  /** A text always contains itself, and case differences do not matter: "Alice"
      is found by "aLiCe". */
  lemma IContainsItself(text: string, query: string)
    requires Fold(text) == Fold(query)
    ensures IContains(text, query)
  {
    assert text[..|query|] == text;
  }
}
