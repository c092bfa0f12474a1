/**
  The site content cache and the decision logic of the FAQ search handler:
  general questions go straight to the answer service, site questions first
  refresh the cache when it is missing or more than an hour old, then rank the
  cached pages. Clock readings are parameters (milliseconds since the epoch).
 */
module SiteCache {
  import opened Options
  import opened SiteCrawler
  import opened QuestionClassifier
  import opened RelevanceRanker

  /** The cache is refreshed once it is older than one hour, in milliseconds. */
  const RefreshIntervalMs: int := 60 * 60 * 1000
  /** The reply lists the URLs of at most this many relevant pages. */
  const MaxSources: nat := 3

  /** The crawl time as a condition: both `null` and the time 0 read as "no crawl time". */
  predicate HasCrawlTime(lastCrawlTime: Option<int>) {
    lastCrawlTime.Some? && lastCrawlTime.value != 0
  }

  /** `shouldUpdateCache`: no crawl time, or more than an hour since the last crawl. */
  predicate ShouldUpdateCache(lastCrawlTime: Option<int>, now: int) {
    !HasCrawlTime(lastCrawlTime) || now - lastCrawlTime.value > RefreshIntervalMs
  }

  /** The handler's refresh condition: no cached pages (an empty list still counts
      as cached), or `shouldUpdateCache`. */
  predicate NeedsRefresh(pages: Option<seq<PageRecord>>, lastCrawlTime: Option<int>, now: int) {
    pages.None? || ShouldUpdateCache(lastCrawlTime, now)
  }

  /** The URLs of the first three relevant pages, reported as the reply's sources. */
  function Sources(relevant: seq<ScoredPage>): (urls: seq<string>)
    ensures |urls| == (if |relevant| < MaxSources then |relevant| else MaxSources)
    ensures forall i :: 0 <= i < |urls| ==> urls[i] == relevant[i].page.url
  {
    var n := if |relevant| < MaxSources then |relevant| else MaxSources;
    seq(n, i requires 0 <= i < n => relevant[i].page.url)
  }

  /** What the handler answers with, apart from the generated text. */
  datatype Reply =
    | General
    | SiteSpecific(relevant: seq<ScoredPage>, sources: seq<string>)

  /** The process-wide cache: the pages of the last crawl and when it finished. */
  class SiteCache {
    var siteContentCache: Option<seq<PageRecord>>
    var lastCrawlTime: Option<int>

    /** At start-up nothing is cached and there is no crawl time. */
    constructor ()
      ensures siteContentCache == None && lastCrawlTime == None
    {
      siteContentCache := None;
      lastCrawlTime := None;
    }

    /**
      The cache-update block of the handler. `now` is the clock when the
      condition is evaluated and `doneAt` the clock when the crawl has finished,
      which becomes the new crawl time. The pages are replaced as a whole.
     */
    method EnsureFresh(now: int, doneAt: int, extract: Extractor) returns (crawled: bool)
      modifies this
      ensures crawled == NeedsRefresh(old(siteContentCache), old(lastCrawlTime), now)
      ensures crawled ==> siteContentCache == Some(Crawled(HtmlFiles, extract)) && lastCrawlTime == Some(doneAt)
      ensures !crawled ==> siteContentCache == old(siteContentCache) && lastCrawlTime == old(lastCrawlTime)
      ensures siteContentCache.Some?
    {
      crawled := siteContentCache.None? || ShouldUpdateCache(lastCrawlTime, now);
      if crawled {
        var content := CrawlLocalSite(extract);
        siteContentCache := Some(content);
        lastCrawlTime := Some(doneAt);
      }
    }
  }

  /**
    The decision logic of `POST /api/faq-search`: classify; a general question
    leaves the cache alone; a site question refreshes the cache if needed and
    ranks the cached pages, reporting the URLs of the first three as sources.
   */
  method HandleFaqSearch(cache: SiteCache, question: string, now: int, doneAt: int, extract: Extractor)
      returns (reply: Reply, crawled: bool)
    modifies cache
    ensures IsGeneralQuestion(question) ==>
      && reply == General && !crawled
      && cache.siteContentCache == old(cache.siteContentCache) && cache.lastCrawlTime == old(cache.lastCrawlTime)
    ensures !IsGeneralQuestion(question) ==>
      && crawled == NeedsRefresh(old(cache.siteContentCache), old(cache.lastCrawlTime), now)
      && (crawled ==> cache.siteContentCache == Some(Crawled(HtmlFiles, extract)) && cache.lastCrawlTime == Some(doneAt))
      && (!crawled ==>
            cache.siteContentCache == old(cache.siteContentCache) && cache.lastCrawlTime == old(cache.lastCrawlTime))
      && cache.siteContentCache.Some?
      && reply == SiteSpecific(RelevantContent(question, cache.siteContentCache.value),
                               Sources(RelevantContent(question, cache.siteContentCache.value)))
  {
    var isGeneralQuestion := CheckIfGeneralQuestion(question);
    if isGeneralQuestion {
      return General, false;
    }
    crawled := cache.EnsureFresh(now, doneAt, extract);
    var relevantContent := FindRelevantContent(question, cache.siteContentCache.value);
    reply := SiteSpecific(relevantContent, Sources(relevantContent));
  }

  /**
    Two site questions, the second within an hour of the end of the crawl the
    first one made: the second does not crawl again and the cache keeps the
    pages and the crawl time of the first.
   */
  method SecondSiteQuestionWithinAnHour(cache: SiteCache, first: string, second: string,
                                        now1: int, doneAt1: int, now2: int, doneAt2: int, extract: Extractor)
      returns (crawled1: bool, crawled2: bool)
    requires !IsGeneralQuestion(first) && !IsGeneralQuestion(second)
    requires doneAt1 != 0 && now2 - doneAt1 <= RefreshIntervalMs
    modifies cache
    ensures crawled1 ==> !crawled2
    ensures crawled1 ==>
      cache.siteContentCache == Some(Crawled(HtmlFiles, extract)) && cache.lastCrawlTime == Some(doneAt1)
  {
    var reply1, reply2;
    reply1, crawled1 := HandleFaqSearch(cache, first, now1, doneAt1, extract);
    reply2, crawled2 := HandleFaqSearch(cache, second, now2, doneAt2, extract);
  }

  /** A cache filled less than an hour ago is not refreshed, even when the crawl found no page. */
  lemma FreshCacheIsKept(pages: seq<PageRecord>, crawlTime: int, now: int)
    requires crawlTime != 0 && now - crawlTime <= RefreshIntervalMs
    ensures !NeedsRefresh(Some(pages), Some(crawlTime), now)
  {
  }

  /** Without cached pages, without a crawl time or after more than an hour, the cache is refreshed. */
  lemma StaleCacheIsRefreshed(pages: Option<seq<PageRecord>>, lastCrawlTime: Option<int>, now: int)
    requires pages.None? || lastCrawlTime.None? || now - lastCrawlTime.value > RefreshIntervalMs
    ensures NeedsRefresh(pages, lastCrawlTime, now)
  {
  }
}
