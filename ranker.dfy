/**
  The relevance ranker: every cached page is scored against the words of the
  question, the pages are stably sorted by descending score, pages without a
  positive score are dropped and the first five are kept.
 */
module RelevanceRanker {
  import opened Text
  import opened SiteCrawler

  /** Only words longer than this contribute to a score. */
  const MinWordLength: nat := 2
  const TitleBonus: nat := 10
  const H1Bonus: nat := 8
  const H2Bonus: nat := 5
  /** The ranker returns at most this many pages. */
  const MaxResults: nat := 5

  /** A page together with its relevance score. */
  datatype ScoredPage = ScoredPage(page: PageRecord, score: nat)

  /** The words of a question: the lower-cased question split on white space. */
  function QuestionWords(question: string): seq<string> {
    Split(Lower(question))
  }

  /** The words of a question are its own white-space separated pieces, each lower-cased. */
  lemma QuestionWordsArePieces(question: string)
    ensures QuestionWords(question) == LowerAll(Split(question))
  {
    SplitLower(question);
  }

  /** The lower-cased text a page is searched in: title, h1, h2, h3 and body text,
      joined by spaces. Paragraph and list texts are not part of it. */
  function Haystack(p: PageRecord): string {
    Lower(p.title + " " + p.h1 + " " + p.h2 + " " + p.h3 + " " + p.content)
  }

  /** What one question word adds to a page's score. */
  function WordScore(w: string, p: PageRecord): nat {
    if |w| > MinWordLength then
      CountOccurrences(Haystack(p), w)
      + (if Contains(Lower(p.title), w) then TitleBonus else 0)
      + (if Contains(Lower(p.h1), w) then H1Bonus else 0)
      + (if Contains(Lower(p.h2), w) then H2Bonus else 0)
    else 0
  }

  /** The score of a page: the sum of what each word adds, duplicates counted again. */
  function PageScore(words: seq<string>, p: PageRecord): nat {
    if words == [] then 0
    else PageScore(words[..|words| - 1], p) + WordScore(words[|words| - 1], p)
  }

  /**
    The score accumulation of the server: one pass over the words, adding the
    match count and the heading bonuses of every word longer than two characters.
   */
  method ScorePage(words: seq<string>, p: PageRecord) returns (score: nat)
    ensures score == PageScore(words, p)
  {
    score := 0;
    var pageText := Haystack(p);
    for i := 0 to |words|
      invariant score == PageScore(words[..i], p)
    {
      var word := words[i];
      assert words[..i + 1][..i] == words[..i];
      if |word| > MinWordLength {
        var matches := CountOccurrences(pageText, word);
        score := score + matches;
        if Contains(Lower(p.title), word) { score := score + TitleBonus; }
        if Contains(Lower(p.h1), word) { score := score + H1Bonus; }
        if Contains(Lower(p.h2), word) { score := score + H2Bonus; }
      }
    }
    assert words[..|words|] == words;
  }

  /** Every page with its score, in cache order. */
  function ScoreAll(words: seq<string>, pages: seq<PageRecord>): (scored: seq<ScoredPage>)
    ensures |scored| == |pages|
    ensures forall i :: 0 <= i < |pages| ==> scored[i] == ScoredPage(pages[i], PageScore(words, pages[i]))
  {
    seq(|pages|, i requires 0 <= i < |pages| => ScoredPage(pages[i], PageScore(words, pages[i])))
  }

  /** Scores never increase from left to right. */
  predicate SortedByScore(s: seq<ScoredPage>) {
    forall i, j :: 0 <= i < j < |s| ==> s[i].score >= s[j].score
  }

  /** The elements of `s` whose score is `v`, in their order in `s`. */
  function WithScore(s: seq<ScoredPage>, v: nat): (r: seq<ScoredPage>)
    ensures |r| <= |s|
  {
    if s == [] then []
    else (if s[0].score == v then [s[0]] else []) + WithScore(s[1..], v)
  }

  /** The elements of `s` with a positive score, in their order in `s`. */
  function Positive(s: seq<ScoredPage>): (r: seq<ScoredPage>)
    ensures |r| <= |s|
  {
    if s == [] then []
    else (if s[0].score > 0 then [s[0]] else []) + Positive(s[1..])
  }

  /**
    `x` placed in front of the first element whose score is not above its own:
    every element with the same score stays behind it.
   */
  function InsertByScore(x: ScoredPage, t: seq<ScoredPage>): (r: seq<ScoredPage>)
    ensures |r| == |t| + 1
    ensures multiset(r) == multiset(t) + multiset{x}
    ensures r[0] == x || (t != [] && r[0] == t[0])
  {
    if t == [] || x.score >= t[0].score then [x] + t
    else
      assert t == [t[0]] + t[1..];
      [t[0]] + InsertByScore(x, t[1..])
  }

  /** Inserting into a sorted sequence keeps it sorted. */
  lemma {:induction false} InsertKeepsSorted(x: ScoredPage, t: seq<ScoredPage>)
    requires SortedByScore(t)
    ensures SortedByScore(InsertByScore(x, t))
  {
    if t != [] && x.score < t[0].score {
      var rest := InsertByScore(x, t[1..]);
      InsertKeepsSorted(x, t[1..]);
      assert t[0].score >= rest[0].score;
      assert InsertByScore(x, t) == [t[0]] + rest;
    }
  }

  /** Insertion sort by descending score, stable like `Array.prototype.sort`. */
  function SortByScore(s: seq<ScoredPage>): (r: seq<ScoredPage>)
    ensures |r| == |s|
    ensures multiset(r) == multiset(s)
    ensures SortedByScore(r)
  {
    if s == [] then []
    else
      assert s == [s[0]] + s[1..];
      InsertKeepsSorted(s[0], SortByScore(s[1..]));
      InsertByScore(s[0], SortByScore(s[1..]))
  }

  /** How many of `n` ranked pages are kept. */
  function Kept(n: nat): nat {
    if n < MaxResults then n else MaxResults
  }

  /** Sort by descending score, keep the positive scores, keep the first five. */
  function SelectTop(scored: seq<ScoredPage>): seq<ScoredPage> {
    var ranked := Positive(SortByScore(scored));
    ranked[..Kept(|ranked|)]
  }

  /** The relevant pages for a question. */
  function RelevantContent(question: string, pages: seq<PageRecord>): seq<ScoredPage> {
    SelectTop(ScoreAll(QuestionWords(question), pages))
  }

  /** The scoring pass over the cached pages: each page paired with its score, in cache order. */
  method ScoreContent(words: seq<string>, content: seq<PageRecord>) returns (scored: seq<ScoredPage>)
    ensures scored == ScoreAll(words, content)
  {
    scored := [];
    for i := 0 to |content|
      invariant scored == ScoreAll(words, content[..i])
    {
      var score := ScorePage(words, content[i]);
      assert ScoreAll(words, content[..i + 1]) == ScoreAll(words, content[..i]) + [ScoredPage(content[i], score)];
      scored := scored + [ScoredPage(content[i], score)];
    }
    assert content[..|content|] == content;
  }

  /**
    The ranking as the server runs it: each page is scored by the accumulation
    loop, then the scored pages are sorted, filtered and cut to five.
   */
  method FindRelevantContent(question: string, content: seq<PageRecord>) returns (relevant: seq<ScoredPage>)
    ensures relevant == RelevantContent(question, content)
    ensures |relevant| <= MaxResults
    ensures forall i :: 0 <= i < |relevant| ==> relevant[i].score > 0
    ensures SortedByScore(relevant)
  {
    var questionWords := QuestionWords(question);
    var scoredContent := ScoreContent(questionWords, content);
    var ranked := Positive(SortByScore(scoredContent));
    relevant := ranked[..Kept(|ranked|)];
    RelevantContentSpec(question, content);
  }

  // ---------------------------------------------------------------------------
  // Scoring

  /** A string found in the lower-cased `b` is found in the lower-cased `a + b + c`. */
  lemma FoundInLowerInfix(a: string, b: string, c: string, w: string)
    requires Contains(Lower(b), w)
    ensures Contains(Lower(a + b + c), w)
  {
    LowerAppend(a + b, c);
    LowerAppend(a, b);
    ContainsInInfix(Lower(a), Lower(b), Lower(c), w);
  }

  /** The title, h1 and h2 are all part of the searched text. */
  lemma HeadingsInHaystack(p: PageRecord, w: string)
    ensures Contains(Lower(p.title), w) ==> Contains(Haystack(p), w)
    ensures Contains(Lower(p.h1), w) ==> Contains(Haystack(p), w)
    ensures Contains(Lower(p.h2), w) ==> Contains(Haystack(p), w)
  {
    var text := p.title + " " + p.h1 + " " + p.h2 + " " + p.h3 + " " + p.content;
    if Contains(Lower(p.title), w) {
      assert text == [] + p.title + (" " + p.h1 + " " + p.h2 + " " + p.h3 + " " + p.content);
      FoundInLowerInfix([], p.title, " " + p.h1 + " " + p.h2 + " " + p.h3 + " " + p.content, w);
    }
    if Contains(Lower(p.h1), w) {
      assert text == (p.title + " ") + p.h1 + (" " + p.h2 + " " + p.h3 + " " + p.content);
      FoundInLowerInfix(p.title + " ", p.h1, " " + p.h2 + " " + p.h3 + " " + p.content, w);
    }
    if Contains(Lower(p.h2), w) {
      assert text == (p.title + " " + p.h1 + " ") + p.h2 + (" " + p.h3 + " " + p.content);
      FoundInLowerInfix(p.title + " " + p.h1 + " ", p.h2, " " + p.h3 + " " + p.content, w);
    }
  }

  /** A word's share is positive exactly when it is long enough and occurs in the
      searched text: every bonus comes with at least one occurrence. */
  lemma WordScorePositiveIffFound(w: string, p: PageRecord)
    ensures WordScore(w, p) > 0 <==> |w| > MinWordLength && Contains(Haystack(p), w)
  {
    if |w| > MinWordLength {
      HeadingsInHaystack(p, w);
      CountPositiveIffContains(Haystack(p), w);
    }
  }

  /** A string found in `b` is found in `a + b + c`. */
  lemma ContainsInInfix(a: string, b: string, c: string, w: string)
    requires Contains(b, w)
    ensures Contains(a + b + c, w)
  {
    var i :| 0 <= i <= |b| - |w| && OccursAt(b, w, i);
    assert (a + b + c)[|a| + i..|a| + i + |w|] == b[i..i + |w|];
    assert OccursAt(a + b + c, w, |a| + i);
  }

  /** A page's score is at least the share of any one of the words. */
  lemma {:induction false} PageScoreAtLeastWord(words: seq<string>, p: PageRecord, k: nat)
    requires k < |words|
    ensures PageScore(words, p) >= WordScore(words[k], p)
  {
    if k < |words| - 1 {
      PageScoreAtLeastWord(words[..|words| - 1], p, k);
    }
  }

  /** A page scores above zero exactly when some word longer than two characters
      occurs in its searched text. */
  lemma {:induction false} PageScorePositiveIffFound(words: seq<string>, p: PageRecord)
    ensures PageScore(words, p) > 0 <==>
      exists k :: 0 <= k < |words| && |words[k]| > MinWordLength && Contains(Haystack(p), words[k])
  {
    if words != [] {
      var init := words[..|words| - 1];
      PageScorePositiveIffFound(init, p);
      WordScorePositiveIffFound(words[|words| - 1], p);
      if exists k :: 0 <= k < |words| && |words[k]| > MinWordLength && Contains(Haystack(p), words[k]) {
        var k :| 0 <= k < |words| && |words[k]| > MinWordLength && Contains(Haystack(p), words[k]);
        WordScorePositiveIffFound(words[k], p);
        PageScoreAtLeastWord(words, p, k);
      }
      if exists k :: 0 <= k < |init| && |init[k]| > MinWordLength && Contains(Haystack(p), init[k]) {
        var k :| 0 <= k < |init| && |init[k]| > MinWordLength && Contains(Haystack(p), init[k]);
        assert words[k] == init[k];
      }
    }
  }

  /** A word of the question found in a page's title earns the title bonus plus at
      least one occurrence, since the title is part of the searched text. */
  lemma TitleMatchScoresAtLeastEleven(words: seq<string>, p: PageRecord, k: nat)
    requires k < |words| && |words[k]| > MinWordLength
    requires Contains(Lower(p.title), words[k])
    ensures PageScore(words, p) >= TitleBonus + 1
  {
    HeadingsInHaystack(p, words[k]);
    CountPositiveIffContains(Haystack(p), words[k]);
    PageScoreAtLeastWord(words, p, k);
  }

  /** The words longer than two characters, in order. */
  function LongWords(words: seq<string>): seq<string> {
    if words == [] then []
    else
      var w := words[|words| - 1];
      LongWords(words[..|words| - 1]) + if |w| > MinWordLength then [w] else []
  }

  /** Words of at most two characters never change a score. */
  lemma {:induction false} ShortWordsIgnored(words: seq<string>, p: PageRecord)
    ensures PageScore(LongWords(words), p) == PageScore(words, p)
  {
    if words != [] {
      var init, w := words[..|words| - 1], words[|words| - 1];
      ShortWordsIgnored(init, p);
      var long := LongWords(init);
      assert words[..|words| - 1] == init;
      if |w| > MinWordLength {
        assert LongWords(words) == long + [w];
        assert (long + [w])[..|long|] == long;
      } else {
        assert LongWords(words) == long + [];
        assert long + [] == long;
      }
    }
  }

  /** The paragraph and list texts of a page never change its score. */
  lemma {:induction false} ParagraphsAndListsIgnored(words: seq<string>, p: PageRecord, paragraphs: string, lists: string)
    ensures PageScore(words, p.(paragraphs := paragraphs, lists := lists)) == PageScore(words, p)
  {
    if words != [] {
      ParagraphsAndListsIgnored(words[..|words| - 1], p, paragraphs, lists);
    }
  }

  // ---------------------------------------------------------------------------
  // Sorting and selection

  /** Sequences of scored pages split by score: `WithScore` distributes over concatenation. */
  lemma {:induction false} WithScoreAppend(a: seq<ScoredPage>, b: seq<ScoredPage>, v: nat)
    ensures WithScore(a + b, v) == WithScore(a, v) + WithScore(b, v)
  {
    if a != [] {
      assert (a + b)[1..] == a[1..] + b;
      WithScoreAppend(a[1..], b, v);
    } else {
      assert a + b == b;
    }
  }

  /** No element with score `v` means an empty selection. */
  lemma {:induction false} WithScoreNone(s: seq<ScoredPage>, v: nat)
    requires forall i :: 0 <= i < |s| ==> s[i].score != v
    ensures WithScore(s, v) == []
  {
    if s != [] {
      WithScoreNone(s[1..], v);
    }
  }

  /** Insertion puts `x` in front of every element with the same score. */
  lemma {:induction false} WithScoreInsert(x: ScoredPage, t: seq<ScoredPage>, v: nat)
    ensures WithScore(InsertByScore(x, t), v) ==
      (if x.score == v then [x] else []) + WithScore(t, v)
  {
    if t == [] || x.score >= t[0].score {
      assert InsertByScore(x, t) == [x] + t;
      assert ([x] + t)[1..] == t;
    } else {
      var rest := InsertByScore(x, t[1..]);
      assert InsertByScore(x, t) == [t[0]] + rest;
      assert ([t[0]] + rest)[1..] == rest;
      WithScoreInsert(x, t[1..], v);
      if x.score == v {
        assert t[0].score != v;
      }
    }
  }

  /** The sort is stable: for every score, the pages with that score keep their relative order. */
  lemma {:induction false} SortIsStable(s: seq<ScoredPage>, v: nat)
    ensures WithScore(SortByScore(s), v) == WithScore(s, v)
  {
    if s != [] {
      SortIsStable(s[1..], v);
      WithScoreInsert(s[0], SortByScore(s[1..]), v);
    }
  }

  /** Keeping the positive scores keeps everything with a given positive score. */
  lemma {:induction false} WithScorePositive(s: seq<ScoredPage>, v: nat)
    requires v > 0
    ensures WithScore(Positive(s), v) == WithScore(s, v)
  {
    if s != [] {
      WithScorePositive(s[1..], v);
      var rest := Positive(s[1..]);
      if s[0].score > 0 {
        assert Positive(s) == [s[0]] + rest;
        assert ([s[0]] + rest)[1..] == rest;
      } else {
        assert Positive(s) == rest;
        assert WithScore(s, v) == [] + WithScore(s[1..], v);
      }
    }
  }

  /** Without a positive score nothing is kept. */
  lemma {:induction false} PositiveNone(s: seq<ScoredPage>)
    requires forall i :: 0 <= i < |s| ==> s[i].score == 0
    ensures Positive(s) == []
  {
    if s != [] {
      PositiveNone(s[1..]);
    }
  }

  /** Every kept element has a positive score. */
  lemma {:induction false} PositiveArePositive(s: seq<ScoredPage>)
    ensures forall i :: 0 <= i < |Positive(s)| ==> Positive(s)[i].score > 0
  {
    if s != [] {
      PositiveArePositive(s[1..]);
    }
  }

  /** In a sorted sequence the positive scores form a prefix. */
  lemma {:induction false} PositiveOfSortedIsPrefix(s: seq<ScoredPage>)
    requires SortedByScore(s)
    ensures Positive(s) == s[..|Positive(s)|]
  {
    if s != [] {
      if s[0].score > 0 {
        var rest := Positive(s[1..]);
        assert Positive(s) == [s[0]] + rest;
        assert SortedByScore(s[1..]);
        PositiveOfSortedIsPrefix(s[1..]);
        assert [s[0]] + s[1..][..|rest|] == s[..|rest| + 1];
      } else {
        PositiveNone(s);
      }
    }
  }

  /** Sorting does not change how many pages have a positive score. */
  lemma {:induction false} SortKeepsPositiveCount(s: seq<ScoredPage>)
    ensures |Positive(SortByScore(s))| == |Positive(s)|
  {
    if s != [] {
      SortKeepsPositiveCount(s[1..]);
      InsertPositiveCount(s[0], SortByScore(s[1..]));
    }
  }

  lemma {:induction false} InsertPositiveCount(x: ScoredPage, t: seq<ScoredPage>)
    ensures |Positive(InsertByScore(x, t))| == |Positive(t)| + (if x.score > 0 then 1 else 0)
  {
    if t == [] || x.score >= t[0].score {
      assert ([x] + t)[1..] == t;
    } else {
      InsertPositiveCount(x, t[1..]);
      assert ([t[0]] + InsertByScore(x, t[1..]))[1..] == InsertByScore(x, t[1..]);
    }
  }

  /** The selection is a prefix of the sorted pages, all with positive scores. */
  lemma {:induction false} SelectTopIsSortedPrefix(scored: seq<ScoredPage>)
    ensures var r := SelectTop(scored);
      && |r| == Kept(|Positive(scored)|)
      && r == SortByScore(scored)[..|r|]
      && r + Positive(SortByScore(scored))[|r|..] == Positive(SortByScore(scored))
      && (forall i :: 0 <= i < |r| ==> r[i].score > 0)
      && SortedByScore(r)
  {
    var sorted := SortByScore(scored);
    var ranked := Positive(sorted);
    var r := SelectTop(scored);
    assert |ranked| == |Positive(scored)| by {
      SortKeepsPositiveCount(scored);
    }
    assert ranked == sorted[..|ranked|] by {
      PositiveOfSortedIsPrefix(sorted);
    }
    assert r == ranked[..Kept(|ranked|)];
    assert r == sorted[..|r|];
    assert SortedByScore(r) by {
      SortedPrefix(sorted, |r|);
    }
    assert forall i :: 0 <= i < |r| ==> r[i].score > 0 by {
      PositiveArePositive(sorted);
      assert forall i :: 0 <= i < |r| ==> r[i] == ranked[i];
    }
    assert r + ranked[|r|..] == ranked;
  }

  /** In a sorted sequence, everything scoring above the `k`th element lies in the first `k`. */
  lemma {:induction false} SortedPrefixHoldsHigherScores(s: seq<ScoredPage>, k: nat, v: nat)
    requires SortedByScore(s) && 0 < k <= |s| && v > s[k - 1].score
    ensures WithScore(s[..k], v) == WithScore(s, v)
  {
    forall i | 0 <= i < |s[k..]| ensures s[k..][i].score != v {
      assert s[k..][i] == s[k + i];
    }
    WithScoreNone(s[k..], v);
    assert s == s[..k] + s[k..];
    WithScoreAppend(s[..k], s[k..], v);
  }

  /** A prefix of a sorted sequence is sorted. */
  lemma SortedPrefix(s: seq<ScoredPage>, n: nat)
    requires SortedByScore(s) && n <= |s|
    ensures SortedByScore(s[..n])
  {
  }

  /** For every score, the selected pages with that score are a prefix of the input
      pages with that score, in input order. */
  lemma {:induction false} SelectTopKeepsOrder(scored: seq<ScoredPage>, v: nat)
    ensures WithScore(SelectTop(scored), v) <= WithScore(scored, v)
  {
    var r := SelectTop(scored);
    var sorted := SortByScore(scored);
    var ranked := Positive(sorted);
    SelectTopIsSortedPrefix(scored);
    WithScoreAppend(r, ranked[|r|..], v);
    if v > 0 {
      WithScorePositive(sorted, v);
      SortIsStable(scored, v);
    } else {
      WithScoreNone(r, v);
    }
  }

  /** When fewer than five pages are selected, all positively scored pages are. */
  lemma {:induction false} FewSelectedKeepsAll(scored: seq<ScoredPage>)
    requires |SelectTop(scored)| < MaxResults
    ensures SelectTop(scored) == Positive(SortByScore(scored))
  {
  }

  /** When five pages are selected, they are the first five sorted pages. */
  lemma {:induction false} ManySelectedIsPrefix(scored: seq<ScoredPage>)
    requires |SelectTop(scored)| == MaxResults
    ensures SelectTop(scored) == SortByScore(scored)[..MaxResults]
  {
    SelectTopIsSortedPrefix(scored);
  }

  /** Every page with a positive score is selected when fewer than five are, and
      otherwise when it scores above the last selected page. */
  lemma {:induction false} SelectTopKeepsBest(scored: seq<ScoredPage>, v: nat)
    requires var r := SelectTop(scored);
      v > 0 && (|r| < MaxResults || v > r[|r| - 1].score)
    ensures WithScore(SelectTop(scored), v) == WithScore(scored, v)
  {
    var r := SelectTop(scored);
    var sorted := SortByScore(scored);
    SortIsStable(scored, v);
    if |r| < MaxResults {
      FewSelectedKeepsAll(scored);
      WithScorePositive(sorted, v);
    } else {
      ManySelectedIsPrefix(scored);
      SortedPrefixHoldsHigherScores(sorted, MaxResults, v);
    }
  }

  /**
    What the ranker returns, for every question and every cache:
    - at most five pages, each with a positive score, by non-increasing score;
    - as many pages as there are positively scored pages, up to five;
    - for every score, the returned pages with that score are input pages with
      their own score, in cache order, and form a prefix of the input pages with
      that score (stability);
    - every input page with a positive score is returned when fewer than five are
      returned, and otherwise when it scores above the last one returned.
   */
  lemma RelevantContentSpec(question: string, pages: seq<PageRecord>)
    ensures var r := RelevantContent(question, pages);
      var scored := ScoreAll(QuestionWords(question), pages);
      && |r| <= MaxResults
      && |r| == Kept(|Positive(scored)|)
      && (forall i :: 0 <= i < |r| ==> r[i].score > 0)
      && SortedByScore(r)
      && (forall v :: WithScore(r, v) <= WithScore(scored, v))
      && (forall v :: v > 0 && (|r| < MaxResults || v > r[|r| - 1].score) ==>
            WithScore(r, v) == WithScore(scored, v))
  {
    var scored := ScoreAll(QuestionWords(question), pages);
    SelectTopIsSortedPrefix(scored);
    forall v ensures WithScore(SelectTop(scored), v) <= WithScore(scored, v) {
      SelectTopKeepsOrder(scored, v);
    }
    forall v | v > 0 && (|SelectTop(scored)| < MaxResults || v > SelectTop(scored)[|SelectTop(scored)| - 1].score)
      ensures WithScore(SelectTop(scored), v) == WithScore(scored, v)
    {
      SelectTopKeepsBest(scored, v);
    }
  }

  /** A question without a word longer than two characters finds nothing. */
  lemma NoLongWordFindsNothing(question: string, pages: seq<PageRecord>)
    requires forall k :: 0 <= k < |QuestionWords(question)| ==> |QuestionWords(question)[k]| <= MinWordLength
    ensures RelevantContent(question, pages) == []
  {
    var scored := ScoreAll(QuestionWords(question), pages);
    forall i | 0 <= i < |scored| ensures scored[i].score == 0 {
      PageScorePositiveIffFound(QuestionWords(question), pages[i]);
    }
    PositiveNone(scored);
    RelevantContentSpec(question, pages);
  }
}
