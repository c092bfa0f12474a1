/**
  The question classifier: a question is "general" (small talk, answered without
  site content) or "site-specific" (answered from the crawled pages).
 */
module QuestionClassifier {
  import opened Text

  /** The fixed list of site keywords (product, price, services, company, ...). */
  const SiteKeywords: seq<string> := [
    "محصول", "قیمت", "خدمات", "شرکت", "نوآوران", "سایت",
    "سفارش", "خرید", "پشتیبانی", "تماس", "آدرس"
  ]

  /** Questions shorter than this many characters, without a keyword, are general. */
  const GeneralLengthThreshold: nat := 15

  /** The lower-cased question mentions one of the site keywords. */
  predicate HasSiteKeyword(questionLower: string) {
    exists j :: 0 <= j < |SiteKeywords| && Contains(questionLower, SiteKeywords[j])
  }

  /** The classification the handler acts on: true means general. */
  predicate IsGeneralQuestion(question: string) {
    !HasSiteKeyword(Lower(question)) && |question| < GeneralLengthThreshold
  }

  /**
    The classifier as the server runs it: the keywords are tried in order and the
    first hit answers "site-specific"; only then does the length decide.
   */
  method CheckIfGeneralQuestion(question: string) returns (general: bool)
    ensures general == IsGeneralQuestion(question)
  {
    var questionLower := Lower(question);
    for i := 0 to |SiteKeywords|
      invariant forall j :: 0 <= j < i ==> !Contains(questionLower, SiteKeywords[j])
    {
      if Contains(questionLower, SiteKeywords[i]) {
        return false;
      }
    }
    return |question| < GeneralLengthThreshold;
  }

  /** A keyword anywhere in the lower-cased question makes it site-specific, whatever its length. */
  lemma KeywordMeansSiteSpecific(question: string, j: nat)
    requires j < |SiteKeywords| && Contains(Lower(question), SiteKeywords[j])
    ensures !IsGeneralQuestion(question)
  {
  }

  /** Without a keyword, the length alone decides: short is general, long is site-specific. */
  lemma NoKeywordLengthDecides(question: string)
    requires !HasSiteKeyword(Lower(question))
    ensures IsGeneralQuestion(question) <==> |question| < GeneralLengthThreshold
  {
  }

  /** No keyword occurs in a string shorter than three characters. */
  lemma {:induction false} NoKeywordInShortText(s: string)
    requires |s| < 3
    ensures !HasSiteKeyword(s)
  {
    forall j | 0 <= j < |SiteKeywords|
      ensures !Contains(s, SiteKeywords[j])
    {
      assert |SiteKeywords[j]| >= 3;
    }
  }

  /** The empty question is general. */
  lemma EmptyQuestionIsGeneral()
    ensures IsGeneralQuestion("")
  {
    NoKeywordInShortText(Lower(""));
  }

  /** A greeting ("salaam", four letters, no keyword) is general. */
  lemma GreetingIsGeneral()
    ensures IsGeneralQuestion("سلام")
  {
    var q := "سلام";
    assert Lower(q) == q;
    forall j, i | 0 <= j < |SiteKeywords| && 0 <= i <= |q| - |SiteKeywords[j]|
      ensures !OccursAt(q, SiteKeywords[j], i)
    {
      var k := SiteKeywords[j];
      assert q[i..i + |k|][0] != k[0] || q[i..i + |k|][1] != k[1];
    }
  }

  /** "How much does the product cost?" starts with the keyword "price" and is site-specific. */
  lemma PriceQuestionIsSiteSpecific()
    ensures !IsGeneralQuestion("قیمت محصول چنده؟")
  {
    var q := "قیمت محصول چنده؟";
    assert Lower(q) == q;
    assert OccursAt(q, SiteKeywords[1], 0);
    KeywordMeansSiteSpecific(q, 1);
  }
}
