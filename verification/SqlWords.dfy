/** containsSQLWord: the whole-word search behind validateReadOnlyQuery. */
module SqlWords {
  import opened Text

  predicate IsWordChar(c: char) {
    'a' <= c <= 'z' || 'A' <= c <= 'Z' || '0' <= c <= '9' || c == '_'
  }

  /** `word` stands at `p` with no word character on either side of it. */
  predicate WholeWordAt(query: string, word: string, p: int) {
    && OccursAt(query, word, p)
    && (p == 0 || !IsWordChar(query[p - 1]))
    && (p + |word| == |query| || !IsWordChar(query[p + |word|]))
  }

  ghost predicate HasWholeWord(query: string, word: string) {
    exists p :: WholeWordAt(query, word, p)
  }

  /** Two occurrences of `word` can overlap `k` characters apart with a word boundary at the second one. */
  predicate OverlapsAtBoundary(word: string, k: nat) {
    0 < k < |word| && word[k..] == word[..|word| - k] && !IsWordChar(word[k - 1])
  }

  lemma OccursInSuffix(query: string, word: string, i: nat, p: int)
    requires i <= |query|
    ensures OccursAt(query[i..], word, p) <==> 0 <= p && OccursAt(query, word, i + p)
  {
    if 0 <= p <= |query| - i - |word| {
      assert query[i..][p..p + |word|] == query[i + p..i + p + |word|];
    }
  }

  /** The first occurrence at or after `i`, or -1. */
  function IndexFrom(query: string, word: string, i: nat): (at: int)
    requires i <= |query|
    ensures at == -1 || i <= at <= |query| - |word|
  {
    var at := Index(query[i..], word);
    if at < 0 then -1 else i + at
  }

  lemma IndexFromIsFirst(query: string, word: string, i: nat)
    requires i <= |query|
    ensures var at := IndexFrom(query, word, i);
            (at >= 0 ==> OccursAt(query, word, at)) && forall p | i <= p && OccursAt(query, word, p) :: 0 <= at <= p
  {
    hide Index, OccursAt;
    IndexIsFirst(query[i..], word);
    OccursInSuffix(query, word, i, Index(query[i..], word));
    forall p | i <= p && OccursAt(query, word, p)
      ensures 0 <= IndexFrom(query, word, i) <= p
    {
      OccursInSuffix(query, word, i, p - i);
    }
  }

  /** The search as a function: it goes on after the end of each rejected match. */
  predicate Search(query: string, word: string, i: nat)
    requires word != [] && i <= |query|
    decreases |query| - i
  {
    var at := IndexFrom(query, word, i);
    at >= 0 && (WholeWordAt(query, word, at) || Search(query, word, at + |word|))
  }

  lemma SearchStep(query: string, word: string, i: nat)
    requires word != [] && i <= |query|
    ensures var at := IndexFrom(query, word, i);
      Search(query, word, i) <==> at >= 0 && (WholeWordAt(query, word, at) || Search(query, word, at + |word|))
    ensures i == |query| ==> !Search(query, word, i)
  {
    hide Index, IndexFrom, OccursAt;
    IndexFromIsFirst(query, word, i);
  }

  lemma SearchSkips(query: string, word: string, i: nat, at: nat)
    requires word != [] && i <= |query| && at == IndexFrom(query, word, i) && !WholeWordAt(query, word, at)
    ensures Search(query, word, at + |word|) == Search(query, word, i)
  {
    hide IndexFrom, WholeWordAt;
  }

  /** The loop does not end for the empty word and a query that starts with a word character: it finds the empty
      word where it stands, rejects it, and goes on at the same place. */
  predicate LoopEnds(query: string, word: string) {
    word != [] || query == [] || !IsWordChar(query[0])
  }

  lemma EmptyWordStandsStill(query: string)
    ensures IndexFrom(query, "", 0) == 0
    ensures WholeWordAt(query, "", 0) <==> LoopEnds(query, "")
  {
    hide Index;
    assert OccursAt(query, "", 0);
    IndexFromIsFirst(query, "", 0);
  }

  method ContainsSqlWord(query: string, word: string) returns (found: bool)
    requires LoopEnds(query, word)
    ensures word != [] ==> found == Search(query, word, 0)
    ensures word == [] ==> found
  {
    hide Index, Search, OccursAt;
    ghost var answer := word == [] || Search(query, word, 0);
    var i := 0;
    while true
      invariant 0 <= i <= |query|
      invariant word == [] ==> i == 0
      invariant word != [] ==> Search(query, word, i) == answer
      decreases |query| - i
    {
      IndexFromIsFirst(query, word, i);
      if word == [] { EmptyWordStandsStill(query); } else { SearchStep(query, word, i); }
      var at := Index(query[i..], word);
      if at < 0 {
        return false;
      }
      at := at + i;
      var beforeOk := at == 0 || !IsWordChar(query[at - 1]);
      var after := at + |word|;
      var afterOk := after == |query| || !IsWordChar(query[after]);
      if beforeOk && afterOk {
        return true;
      }
      SearchSkips(query, word, i, at);
      i := after;
      if i >= |query| {
        SearchStep(query, word, i);
        return false;
      }
    }
  }

  /** A whole-word occurrence that overlaps an earlier occurrence shows how the word overlaps itself. */
  lemma OverlapShowsBoundary(query: string, word: string, at: int, p: int)
    requires OccursAt(query, word, at) && WholeWordAt(query, word, p) && at < p < at + |word|
    ensures OverlapsAtBoundary(word, p - at)
  {
    var k := p - at;
    assert query[p - 1] == query[at..at + |word|][k - 1] == word[k - 1];
    forall j | 0 <= j < |word| - k
      ensures word[k..][j] == word[..|word| - k][j]
    {
      assert word[k + j] == query[at..at + |word|][k + j] == query[p + j] == query[p..p + |word|][j];
    }
  }

  lemma {:induction false} SearchIsSound(query: string, word: string, i: nat)
    requires word != [] && i <= |query| && Search(query, word, i)
    ensures HasWholeWord(query, word)
    decreases |query| - i
  {
    hide Index, IndexFrom;
    var at := IndexFrom(query, word, i);
    IndexFromIsFirst(query, word, i);
    if !WholeWordAt(query, word, at) { SearchIsSound(query, word, at + |word|); }
  }

  lemma {:induction false} SearchIsComplete(query: string, word: string, i: nat, p: nat)
    requires word != [] && i <= |query|
    requires forall k :: !OverlapsAtBoundary(word, k)
    requires i <= p && WholeWordAt(query, word, p)
    ensures Search(query, word, i)
    decreases |query| - i
  {
    hide Index, IndexFrom;
    var at := IndexFrom(query, word, i);
    IndexFromIsFirst(query, word, i);
    if !WholeWordAt(query, word, at) {
      if at < p < at + |word| { OverlapShowsBoundary(query, word, at, p); }
      SearchIsComplete(query, word, at + |word|, p);
    }
  }

  /** A word that overlaps itself at a boundary is missed in this query. */
  function MissedQuery(word: string, k: nat): string
    requires OverlapsAtBoundary(word, k)
  {
    [if word[0] == 'a' then 'b' else 'a'] + word[..k] + word
  }

  lemma OverlapIsMissed(word: string, k: nat)
    requires OverlapsAtBoundary(word, k)
    ensures var query := MissedQuery(word, k);
            HasWholeWord(query, word) && !Search(query, word, 0)
  {
    hide Index, IndexFrom, OccursAt, MissedQuery;
    var query := MissedQuery(word, k);
    MissedOccurrences(word, k);
    assert WholeWordAt(query, word, 1 + k);
    IndexFromIsFirst(query, word, 0);
    IndexFromIsFirst(query, word, 1 + |word|);
    assert IndexFrom(query, word, 0) == 1;
    assert IndexFrom(query, word, 1 + |word|) == -1;
  }

  /** Where the word stands in that query, and how it looks there. */
  lemma MissedOccurrences(word: string, k: nat)
    requires OverlapsAtBoundary(word, k)
    ensures var query := MissedQuery(word, k);
      && |query| == 1 + k + |word| && !OccursAt(query, word, 0) && OccursAt(query, word, 1) && OccursAt(query, word, 1 + k)
      && (forall p | p > 1 + k :: !OccursAt(query, word, p))
      && !IsWordChar(query[k]) && query[k] == word[k - 1]
      && !WholeWordAt(query, word, 1)
  {
    var query := MissedQuery(word, k);
    assert word[..k] + word[k..] == word;
    forall j | 0 <= j < |word| ensures query[1 + j] == word[j] {
      if j >= k { assert query[1 + j] == word[j - k] == word[..|word| - k][j - k] == word[k..][j - k]; }
    }
    assert query[1..1 + |word|] == word;
    assert query[1 + k..1 + k + |word|] == word && query[k] == word[k - 1];
    assert !OccursAt(query, word, 0) by { assert query[0..|word|][0] == query[0]; }
  }

  /** For which words the search answers every query correctly: exactly for those that cannot overlap
      themselves at a word boundary. */
  lemma SearchIsExactForWords(word: string)
    requires word != []
    ensures (forall query :: Search(query, word, 0) <==> HasWholeWord(query, word))
       <==> (forall k :: !OverlapsAtBoundary(word, k))
  {
    if k :| OverlapsAtBoundary(word, k) {
      OverlapIsMissed(word, k);
    } else {
      forall query ensures Search(query, word, 0) <==> HasWholeWord(query, word) {
        if Search(query, word, 0) { SearchIsSound(query, word, 0); }
        if p :| WholeWordAt(query, word, p) { SearchIsComplete(query, word, 0, p); }
      }
    }
  }

  /** A digit, a capital, a small letter or the underscore, by its ASCII code. */
  predicate IsWordCode(code: int) {
    48 <= code <= 57 || 65 <= code <= 90 || 97 <= code <= 122 || code == 95
  }

  /** `word` stands alone at `p`: what is next to it, if anything, is no letter, digit or underscore. */
  predicate StandsAlone(query: string, word: string, p: nat) {
    && p + |word| <= |query| && query[p..p + |word|] == word
    && (p > 0 ==> !IsWordCode(query[p - 1] as int))
    && (p + |word| < |query| ==> !IsWordCode(query[p + |word|] as int))
  }

  lemma WholeWordStandsAlone(query: string, word: string, p: nat)
    ensures WholeWordAt(query, word, p) <==> StandsAlone(query, word, p)
  {
  }

  /** Every word the validator looks for is made of word characters, so no overlap can hide it. */
  lemma SearchIsExactForKeywords(query: string, word: string)
    requires word != [] && forall i | 0 <= i < |word| :: IsWordCode(word[i] as int)
    ensures Search(query, word, 0) <==> exists p: nat :: StandsAlone(query, word, p)
  {
    hide Index, Search, StandsAlone;
    SearchIsExactForWords(word);
    if p :| WholeWordAt(query, word, p) {
      assert p >= 0;
      WholeWordStandsAlone(query, word, p);
    }
    if p: nat :| StandsAlone(query, word, p) { WholeWordStandsAlone(query, word, p); }
  }
}
