/** Query scoring and ranking over the search index: the query is split
    into lower-case terms, every document is scored against every term, and
    the ten best-scoring documents are returned, best first, ties in index
    order. */
module SearchIndex {
  import opened Wrappers
  import opened Text
  import opened Seqs
  import opened Documents
  import opened PageExtraction
  import opened DocumentStore

  // ---------------------------------------------------------------- terms

  /** `query.toLowerCase().trim().split(/\s+/).filter(t => t.length > 0)`. */
  function Terms(q: string): seq<string> {
    NonEmpty(SplitWords(Trim(Lower(q))))
  }

  predicate ValidTerms(terms: seq<string>) {
    forall k :: 0 <= k < |terms| ==> terms[k] != []
  }

  /** Every term is a non-empty run of non-whitespace characters, and a query
      that is not blank yields at least one term. */
  lemma TermsShape(q: string)
    ensures ValidTerms(Terms(q))
    ensures forall k :: 0 <= k < |Terms(q)| ==> NoSpace(Terms(q)[k])
    ensures Trim(q) != [] ==> Terms(q) != []
  {
    var t := Trim(Lower(q));
    NonEmptySplit(t);
    TokensShape(t);
    if Trim(q) != [] {
      TrimEmptyIff(q);
      LowerKeepsSpace(q);
      TrimEmptyIff(Lower(q));
      TrimFacts(Lower(q));
      assert !AllSpace(t) by {
        assert !IsSpace(t[0]);
      }
      TokensOfAllSpace(t);
    }
  }

  // -------------------------------------------------------------- scoring

  /** 100 for a title equal to the term, else 50 for a title containing it. */
  function TitleBonus(title: string, term: string): nat {
    if title == term then 100 else if Contains(title, term) then 50 else 0
  }

  /** 25 for a title word starting with the term plus 15 for one containing
      it, summed over the first `n` words. */
  function WordsBonus(words: seq<string>, n: nat, term: string): nat
    requires n <= |words|
  {
    if n == 0 then 0
    else
      WordsBonus(words, n - 1, term)
      + (if StartsWith(words[n - 1], term) then 25 else 0)
      + (if Contains(words[n - 1], term) then 15 else 0)
  }

  /** Everything the lowered title earns for one term: the title bonus, the
      word bonuses and five per occurrence. */
  function TitleScore(title: string, term: string): nat
    requires term != []
  {
    var words := SplitWords(title);
    TitleBonus(title, term) + WordsBonus(words, |words|, term) + 5 * CountOccurrences(title, term)
  }

  /** What a document earns for one term: title, 30 for the joined keywords
      containing it, 10 for the content containing it plus one per
      occurrence in the content. */
  function TermScore(title: string, keywords: string, content: string, term: string): nat
    requires term != []
  {
    TitleScore(title, term)
    + (if Contains(keywords, term) then 30 else 0)
    + (if Contains(content, term) then 10 else 0)
    + CountOccurrences(content, term)
  }

  /** The scores of the first `n` terms, summed. */
  function TermsScore(terms: seq<string>, n: nat, title: string, keywords: string, content: string): nat
    requires n <= |terms| && ValidTerms(terms)
  {
    if n == 0 then 0
    else TermsScore(terms, n - 1, title, keywords, content) + TermScore(title, keywords, content, terms[n - 1])
  }

  function LowerAll(ws: seq<string>): (r: seq<string>)
    ensures |r| == |ws|
  {
    seq(|ws|, k requires 0 <= k < |ws| => Lower(ws[k]))
  }

  /** The three lowered fields a document is matched on: title, keywords
      joined with spaces, content. */
  function TitleOf(d: Doc): string { Lower(d.title) }
  function KeywordsOf(d: Doc): string { JoinWords(LowerAll(d.keywords)) }
  function ContentOf(d: Doc): string { Lower(d.content) }

  function Score(terms: seq<string>, d: Doc): nat
    requires ValidTerms(terms)
  {
    TermsScore(terms, |terms|, TitleOf(d), KeywordsOf(d), ContentOf(d))
  }

  /** The scoring callback: one pass over the terms, with an inner pass over
      the title's words. */
  method ScoreItem(terms: seq<string>, item: Doc) returns (score: nat)
    requires ValidTerms(terms)
    ensures score == Score(terms, item)
  {
    score := 0;
    var titleLower := Lower(item.title);
    var contentLower := Lower(item.content);
    var keywordsLower := JoinWords(LowerAll(item.keywords));
    for t := 0 to |terms|
      invariant score == TermsScore(terms, t, titleLower, keywordsLower, contentLower)
    {
      var points := ScoreTerm(titleLower, keywordsLower, contentLower, terms[t]);
      score := score + points;
    }
  }

  /** The `forEach` callback: what one term adds to a document's score. */
  method ScoreTerm(titleLower: string, keywordsLower: string, contentLower: string, term: string)
    returns (points: nat)
    requires term != []
    ensures points == TermScore(titleLower, keywordsLower, contentLower, term)
  {
    points := 0;
    if titleLower == term {
      points := points + 100;
    } else if Contains(titleLower, term) {
      points := points + 50;
    }
    assert points == TitleBonus(titleLower, term);
    if Contains(keywordsLower, term) {
      points := points + 30;
    }
    if Contains(contentLower, term) {
      points := points + 10;
    }
    ghost var matched := points;
    var titleWords := SplitWords(titleLower);
    var wordBonus := WordBonusOf(titleWords, term);
    points := points + wordBonus;
    points := points + CountOccurrences(titleLower, term) * 5;
    points := points + CountOccurrences(contentLower, term) * 1;
    assert points == matched + WordsBonus(titleWords, |titleWords|, term)
                   + 5 * CountOccurrences(titleLower, term) + CountOccurrences(contentLower, term);
  }

  /** The inner pass over the title's words. */
  method WordBonusOf(words: seq<string>, term: string) returns (bonus: nat)
    ensures bonus == WordsBonus(words, |words|, term)
  {
    bonus := 0;
    for w := 0 to |words|
      invariant bonus == WordsBonus(words, w, term)
    {
      if StartsWith(words[w], term) {
        bonus := bonus + 25;
      }
      if Contains(words[w], term) {
        bonus := bonus + 15;
      }
    }
  }

  // ---------------------------------------------------- what scores mean

  lemma {:induction false} WordsBonusPositive(words: seq<string>, n: nat, term: string)
    requires n <= |words|
    ensures WordsBonus(words, n, term) > 0 <==> exists k :: 0 <= k < n && Contains(words[k], term)
  {
    if n > 0 {
      WordsBonusPositive(words, n - 1, term);
      if StartsWith(words[n - 1], term) {
        StartsWithContains(words[n - 1], term);
      }
    }
  }

  /** The title earns points for a term exactly when it contains the term. */
  lemma TitleScorePositive(title: string, term: string)
    requires term != []
    ensures TitleScore(title, term) > 0 <==> Contains(title, term)
  {
    var words := SplitWords(title);
    WordsBonusPositive(words, |words|, term);
    CountPositiveIff(title, term);
    if title == term {
      ContainsSelf(title);
    }
    SplitWordsInside(title);
    if WordsBonus(words, |words|, term) > 0 {
      var k :| 0 <= k < |words| && Contains(words[k], term);
      ContainsTransitive(title, words[k], term);
    }
  }

  /** A term earns points exactly when the title, the joined keywords or the
      content contains it. */
  lemma TermScorePositive(title: string, keywords: string, content: string, term: string)
    requires term != []
    ensures TermScore(title, keywords, content, term) > 0
            <==> Contains(title, term) || Contains(keywords, term) || Contains(content, term)
  {
    TitleScorePositive(title, term);
    CountPositiveIff(content, term);
  }

  /** Some of the three lowered fields contains the term. */
  predicate FieldsMatch(title: string, keywords: string, content: string, term: string) {
    Contains(title, term) || Contains(keywords, term) || Contains(content, term)
  }

  predicate Matches(d: Doc, term: string) {
    FieldsMatch(TitleOf(d), KeywordsOf(d), ContentOf(d), term)
  }

  /** Some of the first `n` terms occurs in a field. */
  predicate AnyMatch(terms: seq<string>, n: nat, title: string, keywords: string, content: string)
    requires n <= |terms|
  {
    n > 0 && (AnyMatch(terms, n - 1, title, keywords, content) || FieldsMatch(title, keywords, content, terms[n - 1]))
  }

  lemma {:induction false} TermsScorePositive(terms: seq<string>, n: nat, title: string, keywords: string, content: string)
    requires n <= |terms| && ValidTerms(terms)
    ensures TermsScore(terms, n, title, keywords, content) > 0 <==> AnyMatch(terms, n, title, keywords, content)
  {
    if n > 0 {
      TermsScorePositive(terms, n - 1, title, keywords, content);
      TermScorePositive(title, keywords, content, terms[n - 1]);
    }
  }

  lemma {:induction false} AnyMatchExists(terms: seq<string>, n: nat, title: string, keywords: string, content: string)
    requires n <= |terms|
    ensures AnyMatch(terms, n, title, keywords, content)
            <==> exists k :: 0 <= k < n && FieldsMatch(title, keywords, content, terms[k])
  {
    if n > 0 {
      AnyMatchExists(terms, n - 1, title, keywords, content);
      if AnyMatch(terms, n - 1, title, keywords, content) {
        var k :| 0 <= k < n - 1 && FieldsMatch(title, keywords, content, terms[k]);
        assert 0 <= k < n;
      } else if !FieldsMatch(title, keywords, content, terms[n - 1]) {
        forall k | 0 <= k < n ensures !FieldsMatch(title, keywords, content, terms[k]) {
          if k < n - 1 {
            assert 0 <= k < n - 1;
          }
        }
      }
    }
  }

  /** A document scores above zero exactly when some term occurs in its
      lowered title, keywords or content: the `score > 0` filter keeps the
      documents that match. */
  lemma ScorePositiveIff(terms: seq<string>, d: Doc)
    requires ValidTerms(terms)
    ensures Score(terms, d) > 0 <==> exists k :: 0 <= k < |terms| && Matches(d, terms[k])
  {
    TermsScorePositive(terms, |terms|, TitleOf(d), KeywordsOf(d), ContentOf(d));
    AnyMatchExists(terms, |terms|, TitleOf(d), KeywordsOf(d), ContentOf(d));
  }

  lemma CountSelf(s: string)
    requires s != []
    ensures CountOccurrences(s, s) == 1
  {
    assert StartsWith(s, s);
    assert s[|s|..] == [];
  }

  /** A title equal to a one-word term earns the exact-match bonus, both
      word bonuses and one occurrence: 145 points. */
  lemma ExactTitleScore(term: string)
    requires term != [] && NoSpace(term)
    ensures TitleScore(term, term) == 145
  {
    SplitWordsOfWord(term);
    ContainsSelf(term);
    assert StartsWith(term, term);
    assert WordsBonus([term], 1, term) == 40;
    CountSelf(term);
  }

  // -------------------------------------------------------------- ranking

  /** A document with its score: `{ ...item, score }`. */
  datatype Scored = Scored(doc: Doc, score: nat)

  function Scoring(terms: seq<string>, ix: seq<Doc>): (r: seq<Scored>)
    requires ValidTerms(terms)
    ensures |r| == |ix|
  {
    seq(|ix|, i requires 0 <= i < |ix| => Scored(ix[i], Score(terms, ix[i])))
  }

  /** `.filter(item => item.score > 0)`. */
  function Positive(s: seq<Scored>): seq<Scored> {
    if s == [] then []
    else (if s[0].score > 0 then [s[0]] else []) + Positive(s[1..])
  }

  /** The elements of `s` with score `v`, in order. */
  function WithScore(s: seq<Scored>, v: nat): seq<Scored> {
    if s == [] then []
    else (if s[0].score == v then [s[0]] else []) + WithScore(s[1..], v)
  }

  predicate SortedDesc(s: seq<Scored>) {
    forall i, j :: 0 <= i < j < |s| ==> s[i].score >= s[j].score
  }

  /** Places `x` after every element scoring at least as much. */
  function Insert(x: Scored, s: seq<Scored>): (r: seq<Scored>)
    ensures multiset(r) == multiset(s) + multiset{x}
  {
    if s == [] then [x]
    else if s[0].score >= x.score then
      assert s == [s[0]] + s[1..];
      [s[0]] + Insert(x, s[1..])
    else [x] + s
  }

  /** `.sort((a, b) => b.score - a.score)` under the stable sort the
      language guarantees. */
  function SortByScore(s: seq<Scored>): (r: seq<Scored>)
    ensures multiset(r) == multiset(s)
    decreases |s|
  {
    if s == [] then []
    else
      assert s == s[..|s| - 1] + [s[|s| - 1]];
      Insert(s[|s| - 1], SortByScore(s[..|s| - 1]))
  }

  /** The ten best-scoring matching documents, best first. */
  function Ranked(terms: seq<string>, ix: seq<Doc>): seq<Scored>
    requires ValidTerms(terms)
  {
    Take(SortByScore(Positive(Scoring(terms, ix))), 10)
  }

  /** The ten best documents for the query, best first. */
  function Rank(q: string, ix: seq<Doc>): seq<Scored> {
    if Trim(q) == [] then []
    else
      var terms := Terms(q);
      TermsShape(q);
      if terms == [] then [] else Ranked(terms, ix)
  }

  /** `content.map(...)`: every document with its score. */
  method ScoreAll(terms: seq<string>, content: seq<Doc>) returns (scored: seq<Scored>)
    requires ValidTerms(terms)
    ensures scored == Scoring(terms, content)
  {
    scored := [];
    for i := 0 to |content|
      invariant |scored| == i
      invariant forall k :: 0 <= k < i ==> scored[k] == Scored(content[k], Score(terms, content[k]))
    {
      var score := ScoreItem(terms, content[i]);
      ghost var prev := scored;
      scored := scored + [Scored(content[i], score)];
      forall k | 0 <= k < i + 1
        ensures scored[k] == Scored(content[k], Score(terms, content[k]))
      {
        if k < i {
          assert scored[k] == prev[k];
        }
      }
    }
  }

  /** `searchContent`: `page` is what the index is built from. */
  method SearchContent(query: string, page: Option<Page>) returns (results: seq<Scored>)
    ensures results == Rank(query, BuildIndex(page))
  {
    if Trim(query) == [] {
      return [];
    }
    var content := GetAllSearchableContent(page);
    var searchTerm := Trim(Lower(query));
    var terms := NonEmpty(SplitWords(searchTerm));
    if terms == [] {
      return [];
    }
    TermsShape(query);
    var scored := ScoreAll(terms, content);
    results := Take(SortByScore(Positive(scored)), 10);
  }

  // ------------------------------------------------------ sort properties

  lemma {:induction false} WithScoreAppend(a: seq<Scored>, b: seq<Scored>, v: nat)
    ensures WithScore(a + b, v) == WithScore(a, v) + WithScore(b, v)
  {
    if a == [] {
      assert a + b == b;
    } else {
      assert (a + b)[0] == a[0];
      assert (a + b)[1..] == a[1..] + b;
      WithScoreAppend(a[1..], b, v);
      var head := if a[0].score == v then [a[0]] else [];
      assert WithScore(a + b, v) == head + WithScore(a[1..] + b, v);
    }
  }

  lemma {:induction false} WithScoreBelow(s: seq<Scored>, v: nat)
    requires forall i :: 0 <= i < |s| ==> s[i].score < v
    ensures WithScore(s, v) == []
  {
    if s != [] {
      WithScoreBelow(s[1..], v);
    }
  }

  /** Every score in `s` is at most `b`. */
  predicate AllAtMost(s: seq<Scored>, b: nat) {
    forall i :: 0 <= i < |s| ==> s[i].score <= b
  }

  lemma {:induction false} InsertAtMost(x: Scored, s: seq<Scored>, b: nat)
    requires AllAtMost(s, b) && x.score <= b
    ensures AllAtMost(Insert(x, s), b)
  {
    if s != [] && s[0].score >= x.score {
      InsertAtMost(x, s[1..], b);
      var r := Insert(x, s);
      assert r == [s[0]] + Insert(x, s[1..]);
      forall i | 0 <= i < |r| ensures r[i].score <= b {
        if i > 0 {
          assert r[i] == Insert(x, s[1..])[i - 1];
        }
      }
    } else if s != [] {
      var r := [x] + s;
      forall i | 0 <= i < |r| ensures r[i].score <= b {
        if i > 0 {
          assert r[i] == s[i - 1];
        }
      }
    }
  }

  lemma {:induction false} InsertSorted(x: Scored, s: seq<Scored>)
    requires SortedDesc(s)
    ensures SortedDesc(Insert(x, s))
  {
    if s != [] && s[0].score >= x.score {
      var rest := Insert(x, s[1..]);
      InsertSorted(x, s[1..]);
      assert AllAtMost(s[1..], s[0].score) by {
        forall i | 0 <= i < |s[1..]| ensures s[1..][i].score <= s[0].score {
          assert s[1..][i] == s[i + 1];
        }
      }
      InsertAtMost(x, s[1..], s[0].score);
      var r := [s[0]] + rest;
      forall i, j | 0 <= i < j < |r| ensures r[i].score >= r[j].score {
        assert r[j] == rest[j - 1];
        if i > 0 {
          assert r[i] == rest[i - 1];
        }
      }
    } else if s != [] {
      var r := [x] + s;
      forall i, j | 0 <= i < j < |r| ensures r[i].score >= r[j].score {
        assert r[j] == s[j - 1];
        if i > 0 {
          assert r[i] == s[i - 1];
        } else {
          assert s[0].score >= s[j - 1].score;
        }
      }
    }
  }

  lemma SortedDescTail(s: seq<Scored>)
    requires s != [] && SortedDesc(s)
    ensures SortedDesc(s[1..])
  {
    forall i, j | 0 <= i < j < |s[1..]| ensures s[1..][i].score >= s[1..][j].score {
      assert s[1..][i] == s[i + 1] && s[1..][j] == s[j + 1];
    }
  }

  /** Inserting keeps the order among equal scores and puts `x` after the
      elements of its own score. */
  lemma {:induction false} InsertWithScore(x: Scored, s: seq<Scored>, v: nat)
    requires SortedDesc(s)
    ensures WithScore(Insert(x, s), v) == WithScore(s, v) + (if x.score == v then [x] else [])
  {
    if s != [] && s[0].score >= x.score {
      SortedDescTail(s);
      InsertWithScore(x, s[1..], v);
      InsertBehindWithScore(x, s, v);
    } else if s != [] {
      InsertInFrontWithScore(x, s, v);
    }
  }

  /** `x` goes behind the head: the head's contribution comes first. */
  lemma InsertBehindWithScore(x: Scored, s: seq<Scored>, v: nat)
    requires s != [] && s[0].score >= x.score
    requires WithScore(Insert(x, s[1..]), v) == WithScore(s[1..], v) + (if x.score == v then [x] else [])
    ensures WithScore(Insert(x, s), v) == WithScore(s, v) + (if x.score == v then [x] else [])
  {
    var tail := if x.score == v then [x] else [];
    var rest := Insert(x, s[1..]);
    var head := if s[0].score == v then [s[0]] else [];
    WithScoreCons(s[0], rest, v);
    calc {
      WithScore(Insert(x, s), v);
      WithScore([s[0]] + rest, v);
      head + WithScore(rest, v);
      head + (WithScore(s[1..], v) + tail);
      { Regroup3(head, WithScore(s[1..], v), tail); }
      head + WithScore(s[1..], v) + tail;
      WithScore(s, v) + tail;
    }
  }

  /** `x` goes in front of a sorted sequence whose scores are all lower, so
      none of them has `x`'s score. */
  lemma InsertInFrontWithScore(x: Scored, s: seq<Scored>, v: nat)
    requires SortedDesc(s) && s != [] && s[0].score < x.score
    ensures WithScore(Insert(x, s), v) == WithScore(s, v) + (if x.score == v then [x] else [])
  {
    WithScoreCons(x, s, v);
    if x.score == v {
      assert forall i :: 0 <= i < |s| ==> s[i].score <= s[0].score;
      WithScoreBelow(s, v);
    }
  }

  lemma WithScoreCons(y: Scored, rest: seq<Scored>, v: nat)
    ensures WithScore([y] + rest, v) == (if y.score == v then [y] else []) + WithScore(rest, v)
  {
    assert ([y] + rest)[1..] == rest;
  }

  /** The sort orders by descending score, and among equal scores keeps the
      input order: together with the permutation this fixes the result. */
  lemma {:induction false} SortByScoreSorted(s: seq<Scored>)
    ensures SortedDesc(SortByScore(s))
    decreases |s|
  {
    if s != [] {
      SortByScoreSorted(s[..|s| - 1]);
      InsertSorted(s[|s| - 1], SortByScore(s[..|s| - 1]));
    }
  }

  /** The sort is stable: documents of equal score keep their order. */
  lemma {:induction false} SortByScoreStable(s: seq<Scored>, v: nat)
    ensures WithScore(SortByScore(s), v) == WithScore(s, v)
    decreases |s|
  {
    if s != [] {
      var init := s[..|s| - 1];
      var last := s[|s| - 1];
      var one := if last.score == v then [last] else [];
      assert WithScore([last], v) == one by {
        assert [last][1..] == [];
      }
      calc {
        WithScore(SortByScore(s), v);
        WithScore(Insert(last, SortByScore(init)), v);
        { SortByScoreSorted(init); InsertWithScore(last, SortByScore(init), v); }
        WithScore(SortByScore(init), v) + one;
        { SortByScoreStable(init, v); }
        WithScore(init, v) + one;
        { WithScoreAppend(init, [last], v); }
        WithScore(init + [last], v);
        { assert s == init + [last]; }
        WithScore(s, v);
      }
    }
  }

  lemma SortByScoreCorrect(s: seq<Scored>)
    ensures SortedDesc(SortByScore(s))
    ensures forall v: nat :: WithScore(SortByScore(s), v) == WithScore(s, v)
  {
    SortByScoreSorted(s);
    forall v: nat ensures WithScore(SortByScore(s), v) == WithScore(s, v) {
      SortByScoreStable(s, v);
    }
  }

  lemma {:induction false} PositiveFacts(s: seq<Scored>)
    ensures forall i :: 0 <= i < |Positive(s)| ==> Positive(s)[i].score > 0
    ensures multiset(Positive(s)) <= multiset(s)
    ensures forall v: nat :: v > 0 ==> WithScore(Positive(s), v) == WithScore(s, v)
  {
    if s != [] {
      PositiveFacts(s[1..]);
      var head := if s[0].score > 0 then [s[0]] else [];
      assert s == [s[0]] + s[1..];
      forall v: nat | v > 0 ensures WithScore(Positive(s), v) == WithScore(s, v) {
        WithScoreAppend(head, Positive(s[1..]), v);
      }
    }
  }

  lemma {:induction false} WithScorePrefix(s: seq<Scored>, n: nat, v: nat)
    requires n <= |s|
    ensures WithScore(s, v) == WithScore(s[..n], v) + WithScore(s[n..], v)
  {
    assert s == s[..n] + s[n..];
    WithScoreAppend(s[..n], s[n..], v);
  }

  // ------------------------------------------------------ ranking properties

  /** A blank query finds nothing; any other query has terms, so the
      second emptiness check never fires and the query ranks by its terms. */
  lemma RankByTerms(q: string, ix: seq<Doc>)
    ensures Trim(q) == [] ==> Rank(q, ix) == []
    ensures Trim(q) != [] ==> ValidTerms(Terms(q)) && Terms(q) != [] && Rank(q, ix) == Ranked(Terms(q), ix)
  {
    TermsShape(q);
  }

  lemma ScoringMember(terms: seq<string>, ix: seq<Doc>, x: Scored)
    requires ValidTerms(terms) && x in Scoring(terms, ix)
    ensures x.doc in ix && x.score == Score(terms, x.doc)
  {
    var j :| 0 <= j < |ix| && Scoring(terms, ix)[j] == x;
  }

  /** The ranked list is a best-first prefix of the sorted matches. */
  lemma RankedPrefix(terms: seq<string>, ix: seq<Doc>)
    requires ValidTerms(terms)
    ensures var r := Ranked(terms, ix);
            && |r| <= 10
            && SortedDesc(r)
            && multiset(r) <= multiset(Positive(Scoring(terms, ix)))
  {
    var r := Ranked(terms, ix);
    var p := Positive(Scoring(terms, ix));
    var sorted := SortByScore(p);
    SortByScoreCorrect(p);
    assert r == sorted[..|r|];
    assert multiset(sorted) == multiset(r) + multiset(sorted[|r|..]) by {
      assert sorted == r + sorted[|r|..];
    }
  }

  /** At most ten results, each a document of the index with its score,
      that score positive, best first, and no document returned more often
      than the index holds it. */
  lemma RankedShape(terms: seq<string>, ix: seq<Doc>)
    requires ValidTerms(terms)
    ensures var r := Ranked(terms, ix);
            && |r| <= 10
            && SortedDesc(r)
            && (forall i :: 0 <= i < |r| ==> r[i].score > 0 && r[i].doc in ix && r[i].score == Score(terms, r[i].doc))
            && multiset(r) <= multiset(Scoring(terms, ix))
  {
    var r := Ranked(terms, ix);
    var all := Scoring(terms, ix);
    var p := Positive(all);
    RankedPrefix(terms, ix);
    PositiveFacts(all);
    forall i | 0 <= i < |r| ensures r[i].score > 0 && r[i].doc in ix && r[i].score == Score(terms, r[i].doc) {
      assert r[i] in multiset(p);
      assert r[i] in multiset(all);
      ScoringMember(terms, ix, r[i]);
      var m :| 0 <= m < |p| && p[m] == r[i];
    }
  }

  /** Results of one score appear in the order the index lists them, and
      every matching document scoring above the last result (or every
      matching document, when fewer than ten match) is returned. */
  lemma RankedOrderAndCutoff(terms: seq<string>, ix: seq<Doc>, v: nat)
    requires ValidTerms(terms) && v > 0
    ensures var r := Ranked(terms, ix);
            var all := WithScore(Scoring(terms, ix), v);
            && |WithScore(r, v)| <= |all|
            && WithScore(r, v) == all[..|WithScore(r, v)|]
            && (|r| < 10 || v > r[|r| - 1].score ==> WithScore(r, v) == all)
    ensures |Ranked(terms, ix)| == Min(10, |Positive(Scoring(terms, ix))|)
  {
    var r := Ranked(terms, ix);
    var p := Positive(Scoring(terms, ix));
    var sorted := SortByScore(p);
    PositiveFacts(Scoring(terms, ix));
    SortByScoreCorrect(p);
    assert |sorted| == |p| by {
      assert |multiset(sorted)| == |multiset(p)|;
    }
    assert r == sorted[..|r|];
    WithScorePrefix(sorted, |r|, v);
    if |r| < 10 || v > r[|r| - 1].score {
      var rest := sorted[|r|..];
      if rest != [] {
        forall i | 0 <= i < |rest| ensures rest[i].score < v {
          assert rest[i] == sorted[|r| + i];
          assert sorted[|r| - 1] == r[|r| - 1];
        }
      }
      WithScoreBelow(rest, v);
    }
  }

  // ---------------------------------------------------------- suggestions

  /** A suggestion: a navigation entry without its category and content. */
  datatype Suggestion = Suggestion(id: string, title: string, kind: Kind, href: Option<string>, keywords: seq<string>)

  function Suggest(d: Doc): Suggestion {
    Suggestion(d.id, d.title, d.kind, d.href, d.keywords)
  }

  /** `getSuggestedSearches`: the first two fixed entries. */
  function Suggested(): seq<Suggestion> {
    [Suggest(StaticItems()[0]), Suggest(StaticItems()[1])]
  }

  /** The suggestions are the Home and Categories entries. */
  lemma SuggestedTitles()
    ensures |Suggested()| == 2
    ensures Suggested()[0].title == "Home" && Suggested()[0].href == Some("#home")
    ensures Suggested()[1].title == "Categories" && Suggested()[1].href == Some("#categories")
  {
    assert "#" + "home" == "#home";
    assert "#" + "categories" == "#categories";
  }

  /** Each suggestion is the projection of the document that every index
      holds at the same position. */
  lemma SuggestedInEveryIndex(page: Option<Page>)
    ensures 2 <= |BuildIndex(page)|
    ensures Suggested() == [Suggest(BuildIndex(page)[0]), Suggest(BuildIndex(page)[1])]
  {
    BuildIndexStartsWithStatic(page);
    var ix := BuildIndex(page);
    assert ix[0] == ix[..5][0] && ix[1] == ix[..5][1];
  }
}
