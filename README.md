# Sabagh FAQ search: the content-relevance engine

This project models the decision core of the FAQ search backend
(`js/backend/server.js`), which answers visitors' questions about a company
web site. When a question arrives, the handler does four things:

1. **Classify the question.** Small talk is "general" and goes straight to the
   answer service. A question that mentions one of eleven Persian site keywords,
   or that is at least 15 characters long, is "site-specific".
2. **Refresh the site cache if needed.** This happens when nothing is cached,
   when there is no crawl time, or when the last crawl was more than an hour ago.
   A refresh crawls four local HTML files. A file that cannot be read or parsed
   is skipped.
3. **Rank the cached pages.** Each page is scored against the question's words:
   - every non-overlapping occurrence, scanning left to right, of a word longer
     than two characters in the page's title, h1, h2, h3 and body text adds one
     point;
   - a hit in the title adds 10 more points, a hit in h1 adds 8 and a hit in h2
     adds 5.
4. **Select and report.** Pages are stably sorted by descending score. Pages
   scoring zero are dropped and the first five are kept. The URLs of the first
   three are reported as sources.

The model has six modules:

| module | file | what it holds |
|---|---|---|
| `Options` | `options.dfy` | the `Option` type |
| `Text` | `text.dfy` | the JavaScript string operations the engine uses: the `\s` class, `toLowerCase`, `includes`, counting global matches of a search term, `split(/\s+/)` |
| `QuestionClassifier` | `classifier.dfy` | `checkIfGeneralQuestion`: a loop method proved against a predicate |
| `SiteCrawler` | `crawler.dfy` | `crawlLocalSite`: a loop method proved against a function, with file reading and parsing as an oracle |
| `RelevanceRanker` | `ranker.dfy` | `findRelevantContent` (the score accumulation loop, the pass over the pages, the stable sort, the filter and the cut to five) and its properties |
| `SiteCache` | `site_cache.dfy` | the process-wide cache as a class, the cache-update block, `shouldUpdateCache`, and the handler's decision logic |

Clock readings (`Date.now()`) are parameters, in milliseconds since the epoch:
- `now` is the reading when the refresh condition is evaluated;
- `doneAt` is the reading after the crawl, which becomes the new crawl time.

## Model

| member | source | states |
|---|---|---|
| Text.Lower | js/backend/server.js:83 | lower-casing keeps the length, turns every upper-case ASCII letter into its lower-case letter (code point plus 32), leaves no upper-case ASCII letter, and leaves every other character unchanged |
| Text.LowerAppend | js/backend/server.js:152-158 | lower-casing the joined page text is the same as joining the lower-cased parts |
| Text.LowerKeepsSpace | js/backend/server.js:148 | lower-casing neither creates nor removes white space, index by index |
| Text.CountOccurrences | js/backend/server.js:163 | the global match count of a search term never claims more non-overlapping matches than fit in the text |
| Text.CountPositiveIffContains | js/backend/server.js:163 | the match count is positive exactly when the text includes the word |
| Text.DropSpaces | js/backend/server.js:148 | removing leading white space leaves a suffix of the input that is empty or starts with a non-space, and everything removed is white space |
| Text.Split | js/backend/server.js:148 | `split(/\s+/)` gives at least one piece, `[""]` for the empty string, and pieces without white space; every piece between the first and the last is non-empty, and the first is non-empty when the input starts with a non-space |
| Text.DropSpacesRun | js/backend/server.js:148 | a run of white space in front of a word or of the end of the text is dropped entirely |
| Text.SplitNoSpace | js/backend/server.js:148 | text without white space splits into itself as the only piece |
| Text.SplitWordThenSpace | js/backend/server.js:148 | a word, a non-empty run of white space, then text starting with a non-space or empty: the first piece is the word and the rest are the pieces of that text, so `split(/\s+/)` cuts exactly at the white-space runs |
| Text.DropSpacesLower | js/backend/server.js:148 | dropping leading white space commutes with lower-casing |
| Text.SplitLower | js/backend/server.js:148 | splitting the lower-cased question gives the pieces of the question, each lower-cased: lower-casing does not move the word breaks |
| QuestionClassifier.CheckIfGeneralQuestion | js/backend/server.js:72-98 | the keyword loop with its early exit and the final length test return exactly `IsGeneralQuestion`: no keyword in the lower-cased question, and fewer than 15 characters |
| QuestionClassifier.KeywordMeansSiteSpecific | js/backend/server.js:86-90 | a keyword anywhere in the lower-cased question makes it site-specific, whatever its length |
| QuestionClassifier.NoKeywordLengthDecides | js/backend/server.js:93-97 | without a keyword, a question is general if and only if it is shorter than 15 characters |
| QuestionClassifier.NoKeywordInShortText | js/backend/server.js:73-76 | every keyword has at least three letters, so no text shorter than three characters contains one |
| QuestionClassifier.EmptyQuestionIsGeneral | js/backend/server.js:72-98 | the empty question is general |
| QuestionClassifier.GreetingIsGeneral | js/backend/server.js:72-98 | the greeting "سلام" is general |
| QuestionClassifier.PriceQuestionIsSiteSpecific | js/backend/server.js:72-98 | "قیمت محصول چنده؟" ("how much is the product?") contains the keyword "قیمت" and is site-specific |
| SiteCrawler.ToRecord | js/backend/server.js:124-133 | a record has the URL `"/" + file`; its title falls back to the file name when the title element is empty, so it is never empty for a non-empty file name; the heading, paragraph, list and body fields are the parsed ones |
| SiteCrawler.Succeeded | js/backend/server.js:113-141 | the files whose extraction succeeds, in order: never more than the files, and each one is one of the files and extracts |
| SiteCrawler.CrawlLocalSite | js/backend/server.js:101-144 | the crawl loop over the four files, where a failure skips the file without stopping the loop, returns exactly `Crawled(HtmlFiles, extract)` |
| SiteCrawler.CrawledIsSucceeded | js/backend/server.js:113-141 | the crawl output has exactly one record per successfully extracted file, in file order; each record is built from its file, and there are never more records than files |
| SiteCrawler.CrawledUrls | js/backend/server.js:125 | the URLs of the crawl output are the URLs of the successful files, in order |
| SiteCrawler.CrawledRecordsWellFormed | js/backend/server.js:124-126 | every crawled record has a non-empty title and the URL of one of the files |
| SiteCrawler.SucceededAppend | js/backend/server.js:113-141 | the successes of consecutive file lists are the successes of each list, concatenated |
| SiteCrawler.SucceededAllOk | js/backend/server.js:113-141 | when every file extracts, every file succeeds |
| SiteCrawler.SucceededOneFailure | js/backend/server.js:138-140 | when exactly one file fails, the successes are all the other files, in order |
| SiteCrawler.AllSucceedKeepsEveryFile | js/backend/server.js:113-141 | when every file extracts, there is one record per file, with the file URLs in order |
| SiteCrawler.OneFailureDropsOnlyThatFile | js/backend/server.js:138-140 | when exactly one file fails, the crawl has one record fewer than there are files, and its URLs are those of all the other files, in order |
| SiteCrawler.ConfiguredUrls | js/backend/server.js:106-111 | the configured files have the URLs /index.html, /products.html, /about.html and /contact.html |
| SiteCrawler.AllSucceedGivesFourPages | js/backend/server.js:106-135 | when all four files extract, the cache holds four pages, with those URLs in that order |
| SiteCrawler.OneFailureGivesThreePages | js/backend/server.js:113-140 | when exactly one of the four files fails, the cache holds three pages and not the failed file's URL |
| RelevanceRanker.QuestionWordsArePieces | js/backend/server.js:148 | the scored words are the white-space separated pieces of the question, each lower-cased |
| RelevanceRanker.ScorePage | js/backend/server.js:151-171 | the score accumulation loop over the question words equals `PageScore`, the sum of the word shares |
| RelevanceRanker.ScoreAll | js/backend/server.js:150-174 | the scored pages keep the cache's length and order, each page paired with its own score |
| RelevanceRanker.ScoreContent | js/backend/server.js:150-174 | the pass over the cached pages, scoring each one with the accumulation loop, produces exactly `ScoreAll` |
| RelevanceRanker.FoundInLowerInfix | js/backend/server.js:152-158 | a word found in a lower-cased part of the page text is found in the lower-cased whole |
| RelevanceRanker.HeadingsInHaystack | js/backend/server.js:167-169 | a word found in the lower-cased title, h1 or h2 is found in the searched page text too |
| RelevanceRanker.WordScorePositiveIffFound | js/backend/server.js:162-170 | a word adds to the score exactly when it is longer than two characters and occurs in the searched text; no bonus comes without an occurrence |
| RelevanceRanker.ContainsInInfix | js/backend/server.js:152-158 | a word found in one part of the joined page text is found in the whole |
| RelevanceRanker.PageScoreAtLeastWord | js/backend/server.js:161-171 | a page's score is at least the share of each single question word |
| RelevanceRanker.PageScorePositiveIffFound | js/backend/server.js:161-171 | a page scores above zero if and only if some question word longer than two characters occurs in its searched text |
| RelevanceRanker.TitleMatchScoresAtLeastEleven | js/backend/server.js:163-167 | a long question word in the page title gives the page at least the title bonus plus one occurrence, i.e. 11 |
| RelevanceRanker.ShortWordsIgnored | js/backend/server.js:162 | dropping the words of at most two characters does not change any score |
| RelevanceRanker.ParagraphsAndListsIgnored | js/backend/server.js:152-158 | the paragraph and list texts of a page never affect its score |
| RelevanceRanker.NoLongWordFindsNothing | js/backend/server.js:162 | a question without a word longer than two characters finds no page |
| RelevanceRanker.Positive | js/backend/server.js:178 | the filter keeps at most as many pages as it is given |
| RelevanceRanker.PositiveArePositive | js/backend/server.js:178 | every page the filter keeps has a positive score |
| RelevanceRanker.PositiveNone | js/backend/server.js:178 | when no page has a positive score, the filter keeps nothing |
| RelevanceRanker.InsertByScore | js/backend/server.js:177 | one insertion step of the sort adds exactly the inserted page (same length plus one, same multiset plus the page), and the new head is the page or the old head; where the page goes is stated by InsertKeepsSorted and WithScoreInsert |
| RelevanceRanker.InsertKeepsSorted | js/backend/server.js:177 | inserting into a list sorted by descending score keeps it sorted |
| RelevanceRanker.SortByScore | js/backend/server.js:177 | the sort by `b.score - a.score` is a permutation of its input (same length, same multiset) and is ordered by non-increasing score |
| RelevanceRanker.WithScoreAppend | js/backend/server.js:177 | the pages with a given score in a concatenation are those of each part, in order |
| RelevanceRanker.WithScoreNone | js/backend/server.js:177 | without a page of a given score, that score's subsequence is empty |
| RelevanceRanker.WithScoreInsert | js/backend/server.js:177 | the insertion step puts the inserted page in front of every page with the same score |
| RelevanceRanker.SortIsStable | js/backend/server.js:177 | the sort is stable: for every score, the pages with that score keep their relative order |
| RelevanceRanker.WithScorePositive | js/backend/server.js:178 | the filter keeps every page with a given positive score, in order |
| RelevanceRanker.PositiveOfSortedIsPrefix | js/backend/server.js:177-178 | after the sort, the pages with a positive score form a prefix |
| RelevanceRanker.SortKeepsPositiveCount | js/backend/server.js:177-178 | sorting does not change how many pages have a positive score |
| RelevanceRanker.InsertPositiveCount | js/backend/server.js:177-178 | an insertion step adds one positive page exactly when the inserted page is positive |
| RelevanceRanker.SelectTopIsSortedPrefix | js/backend/server.js:176-179 | the selection has min(5, number of positive pages) pages; it is a prefix of the sorted pages and of the positive ones, with positive scores, sorted |
| RelevanceRanker.SortedPrefixHoldsHigherScores | js/backend/server.js:177-179 | in a sorted list, every page scoring above the k-th page lies among the first k |
| RelevanceRanker.SortedPrefix | js/backend/server.js:179 | a prefix of a sorted list is sorted |
| RelevanceRanker.SelectTopKeepsOrder | js/backend/server.js:176-179 | for every score, the selected pages with that score are a prefix of the input pages with that score, in cache order |
| RelevanceRanker.FewSelectedKeepsAll | js/backend/server.js:179 | when fewer than five pages are selected, they are all the positive pages, sorted |
| RelevanceRanker.ManySelectedIsPrefix | js/backend/server.js:179 | when five pages are selected, they are the first five sorted pages |
| RelevanceRanker.SelectTopKeepsBest | js/backend/server.js:176-179 | every positively scored page is selected when fewer than five are, and otherwise every page scoring above the last selected one is |
| RelevanceRanker.RelevantContentSpec | js/backend/server.js:147-179 | the ranker returns at most five pages, all with positive scores, in non-increasing score order, min(5, number of positive pages) of them; it is stable per score and drops no positive page that outscores the last one returned |
| RelevanceRanker.FindRelevantContent | js/backend/server.js:147-179 | the ranking as run equals `RelevantContent`: at most five pages, positive scores, sorted by descending score |
| SiteCache.Sources | js/backend/server.js:59 | the reported sources are the URLs of the first min(3, n) relevant pages, in ranking order |
| SiteCache.SiteCache.constructor | js/backend/server.js:17-18 | at start-up nothing is cached and there is no crawl time |
| SiteCache.SiteCache.EnsureFresh | js/backend/server.js:43-47 | the cache is refreshed exactly when nothing is cached or `shouldUpdateCache` holds; a refresh stores the crawl output and the finishing time as a whole, and otherwise both fields are unchanged; afterwards pages are always cached |
| SiteCache.HandleFaqSearch | js/backend/server.js:21-60 | a general question leaves the cache alone and gets a general reply; a site question refreshes the cache as `EnsureFresh` says, and replies with the ranking of the cached pages and the first three URLs as sources |
| SiteCache.SecondSiteQuestionWithinAnHour | js/backend/server.js:43-47 | after a site question has crawled, a second site question within an hour of the crawl's end does not crawl again, and the cache keeps the first crawl's pages and time |
| SiteCache.FreshCacheIsKept | js/backend/server.js:293-297 | cached pages (an empty page list included) with a non-zero crawl time at most an hour old are not refreshed |
| SiteCache.StaleCacheIsRefreshed | js/backend/server.js:293-297 | with no cached pages, no crawl time, or a crawl more than an hour ago, the cache is refreshed |

## Left out

- The Express server, the HTTP request and reply, the `siteUrl` field of the request, and the 500 error path are not part of this model. The handler's decision logic is modelled, and the reply keeps only its type, relevant pages and sources.
- The answer service (`askChatGPT`) is not modelled. This covers its prompts, its request, and its canned fallback answers, so the generated answer text is not part of `Reply`.
- File reading (`fs.readFile`) and HTML parsing (`cheerio`) are the extraction oracle `Extractor`. It yields a file's raw title, heading, paragraph, list and body texts, or `None` when reading or parsing throws. Removing scripts and styles and collapsing the white space of the body text happen inside the oracle.
- The clock is the two parameters `now` and `doneAt`.
- Floating point: `shouldUpdateCache` divides the millisecond difference by 3600000 in floating point and compares the result with 1. The model compares the difference with 3600000 directly. For integer differences the two agree: a difference above 3600000 is at least 3600001, and its quotient exceeds 1 by far more than the rounding error.
- SiteCache.FreshCacheIsKept: it requires a non-zero crawl time. `!lastCrawlTime` is true for 0 as well as for `null`, and the model follows that: a crawl time of 0 counts as no crawl time and always forces a refresh.
- Text.Lower: only the ASCII letters are lower-cased, not the full Unicode case mapping of `toLowerCase`. The Persian keywords and text have no case.
- QuestionClassifier.CheckIfGeneralQuestion: the length test `question.length < 15` counts Unicode characters in the model, while JavaScript counts UTF-16 code units. The two agree for text in the Basic Multilingual Plane, Persian included, but a character outside it (an emoji, say) counts once in the model and twice in JavaScript. So "سلام 😀😀😀😀😀" has length 10 here and is general, while JavaScript gives length 15 and calls it site-specific.
- RelevanceRanker.ScorePage: the word-length test `word.length > 2` counts Unicode characters in the same way, so a word made of two characters outside the Basic Multilingual Plane is ignored here but scored in JavaScript.
- Text.CountOccurrences: the question word is handed to `new RegExp(word, 'g')` without escaping. The model counts non-overlapping occurrences of the word as a literal string, scanning left to right. That agrees with the regular expression for words without pattern metacharacters. A word such as `c++` or `(قیمت` is read as a pattern in the source: it may match differently or make the constructor throw, which ends in the 500 reply. Neither behaviour is modelled.
- The unused `generalPhrases` list of the classifier and the logging are left out.
- Concurrent requests are not modelled. Two requests that both find the cache stale may both crawl; the handler here runs one request at a time.
