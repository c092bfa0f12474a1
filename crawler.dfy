/**
  The local-site crawl: a fixed list of HTML files is read and parsed in order,
  and every file whose extraction succeeds contributes one page record.
  Reading a file and parsing its markup are outside the model: they are the
  extraction oracle `extract`, which gives the raw fields of a file or `None`
  when reading or parsing throws.
 */
module SiteCrawler {
  import opened Options

  /** The HTML files the crawl visits, in this order. */
  const HtmlFiles: seq<string> := ["index.html", "products.html", "about.html", "contact.html"]

  /** What the markup parser yields for one file: the text of the title element,
      the joined texts of the h1, h2, h3, p and li elements, and the body text. */
  datatype RawPage = RawPage(
    title: string, h1: string, h2: string, h3: string,
    paragraphs: string, lists: string, content: string)

  /** One cached page. */
  datatype PageRecord = PageRecord(
    url: string, title: string, h1: string, h2: string, h3: string,
    paragraphs: string, lists: string, content: string)

  /** The extraction oracle: the raw page of a file, or `None` when it could not be read or parsed. */
  type Extractor = string -> Option<RawPage>

  /** The site-relative URL of an HTML file. */
  function UrlOf(file: string): string {
    "/" + file
  }

  /** The URLs of a sequence of files. */
  function FileUrls(files: seq<string>): seq<string> {
    seq(|files|, i requires 0 <= i < |files| => UrlOf(files[i]))
  }

  /** The URLs of a sequence of page records. */
  function Urls(pages: seq<PageRecord>): seq<string> {
    seq(|pages|, i requires 0 <= i < |pages| => pages[i].url)
  }

  /** The record built for `file`: its site-relative URL, and the file name as the
      title when the title element is empty. */
  function ToRecord(file: string, raw: RawPage): (p: PageRecord)
    ensures p.url == UrlOf(file)
    ensures p.title == (if raw.title == "" then file else raw.title)
    ensures p.title != "" || file == ""
    ensures p.h1 == raw.h1 && p.h2 == raw.h2 && p.h3 == raw.h3 && p.content == raw.content
    ensures p.paragraphs == raw.paragraphs && p.lists == raw.lists
  {
    PageRecord(UrlOf(file), if raw.title == "" then file else raw.title,
               raw.h1, raw.h2, raw.h3, raw.paragraphs, raw.lists, raw.content)
  }

  /** The records a crawl of `files` produces: one per file that extracts, in file order. */
  function Crawled(files: seq<string>, extract: Extractor): seq<PageRecord> {
    if files == [] then []
    else
      var file := files[|files| - 1];
      Crawled(files[..|files| - 1], extract) +
        match extract(file)
        case Some(raw) => [ToRecord(file, raw)]
        case None => []
  }

  /** The files of `files` whose extraction succeeds, in order. */
  function Succeeded(files: seq<string>, extract: Extractor): (ok: seq<string>)
    ensures |ok| <= |files|
    ensures forall i :: 0 <= i < |ok| ==> ok[i] in files && extract(ok[i]).Some?
  {
    if files == [] then []
    else
      var file := files[|files| - 1];
      Succeeded(files[..|files| - 1], extract) + if extract(file).Some? then [file] else []
  }

  /**
    The crawl as the server runs it: each file is tried in turn and a failure
    skips that file without stopping the loop.
   */
  method CrawlLocalSite(extract: Extractor) returns (content: seq<PageRecord>)
    ensures content == Crawled(HtmlFiles, extract)
  {
    content := [];
    for i := 0 to |HtmlFiles|
      invariant content == Crawled(HtmlFiles[..i], extract)
    {
      var file := HtmlFiles[i];
      assert HtmlFiles[..i + 1][..i] == HtmlFiles[..i];
      match extract(file)
      case Some(raw) =>
        content := content + [ToRecord(file, raw)];
      case None =>
    }
    assert HtmlFiles[..|HtmlFiles|] == HtmlFiles;
  }

  /**
    The crawl output is exactly the successfully extracted files, in the
    configured order, each turned into its record: so it has one record per
    success and never more records than files.
   */
  lemma {:induction false} CrawledIsSucceeded(files: seq<string>, extract: Extractor)
    ensures |Crawled(files, extract)| == |Succeeded(files, extract)| <= |files|
    ensures forall i :: 0 <= i < |Crawled(files, extract)| ==>
      Crawled(files, extract)[i] ==
        ToRecord(Succeeded(files, extract)[i], extract(Succeeded(files, extract)[i]).value)
  {
    if files != [] {
      CrawledIsSucceeded(files[..|files| - 1], extract);
    }
  }

  /** The URLs in the crawl output are those of the successfully extracted files, in order. */
  lemma {:induction false} CrawledUrls(files: seq<string>, extract: Extractor)
    ensures Urls(Crawled(files, extract)) == FileUrls(Succeeded(files, extract))
  {
    CrawledIsSucceeded(files, extract);
  }

  /** Every crawled record has a non-empty title and the URL of one of the files. */
  lemma {:induction false} CrawledRecordsWellFormed(files: seq<string>, extract: Extractor)
    requires forall f :: f in files ==> f != ""
    ensures forall p :: p in Crawled(files, extract) ==>
      p.title != "" && exists f :: f in files && p.url == UrlOf(f)
  {
    CrawledIsSucceeded(files, extract);
    forall p | p in Crawled(files, extract)
      ensures p.title != "" && exists f :: f in files && p.url == UrlOf(f)
    {
      var i :| 0 <= i < |Crawled(files, extract)| && Crawled(files, extract)[i] == p;
      var file := Succeeded(files, extract)[i];
      assert file in files;
    }
  }

  /** The successes of a concatenation are the successes of each part. */
  lemma {:induction false} SucceededAppend(a: seq<string>, b: seq<string>, extract: Extractor)
    ensures Succeeded(a + b, extract) == Succeeded(a, extract) + Succeeded(b, extract)
    decreases |b|
  {
    if b != [] {
      assert (a + b)[..|a + b| - 1] == a + b[..|b| - 1];
      SucceededAppend(a, b[..|b| - 1], extract);
    } else {
      assert a + b == a;
    }
  }

  /** When every file extracts, all of them succeed. */
  lemma {:induction false} SucceededAllOk(files: seq<string>, extract: Extractor)
    requires forall f :: f in files ==> extract(f).Some?
    ensures Succeeded(files, extract) == files
  {
    if files != [] {
      SucceededAllOk(files[..|files| - 1], extract);
      assert files[..|files| - 1] + [files[|files| - 1]] == files;
    }
  }

  /** When exactly one file fails, the successes are all the other files, in order. */
  lemma {:induction false} SucceededOneFailure(files: seq<string>, extract: Extractor, k: nat)
    requires k < |files|
    requires extract(files[k]).None?
    requires forall j :: 0 <= j < |files| && j != k ==> extract(files[j]).Some?
    ensures Succeeded(files, extract) == files[..k] + files[k + 1..]
    decreases |files|
  {
    var n := |files| - 1;
    var init := files[..n];
    assert Succeeded(files, extract) ==
      Succeeded(init, extract) + if extract(files[n]).Some? then [files[n]] else [];
    if k == n {
      forall f | f in init ensures extract(f).Some? {
        var j :| 0 <= j < n && init[j] == f;
      }
      SucceededAllOk(init, extract);
      assert files[k + 1..] == [];
    } else {
      SucceededOneFailure(init, extract, k);
      assert init[..k] == files[..k];
      assert init[k + 1..] + [files[n]] == files[k + 1..];
    }
  }

  /** When every file extracts, there is one record per file, with the URLs in file order. */
  lemma {:induction false} AllSucceedKeepsEveryFile(files: seq<string>, extract: Extractor)
    requires forall f :: f in files ==> extract(f).Some?
    ensures |Crawled(files, extract)| == |files|
    ensures Urls(Crawled(files, extract)) == FileUrls(files)
  {
    CrawledIsSucceeded(files, extract);
    SucceededAllOk(files, extract);
    CrawledUrls(files, extract);
  }

  /** When exactly one file fails, the crawl yields the records of all the others, in order. */
  lemma {:induction false} OneFailureDropsOnlyThatFile(files: seq<string>, extract: Extractor, k: nat)
    requires k < |files|
    requires extract(files[k]).None?
    requires forall j :: 0 <= j < |files| && j != k ==> extract(files[j]).Some?
    ensures |Crawled(files, extract)| == |files| - 1
    ensures Urls(Crawled(files, extract)) == FileUrls(files[..k] + files[k + 1..])
  {
    CrawledIsSucceeded(files, extract);
    SucceededOneFailure(files, extract, k);
    CrawledUrls(files, extract);
  }

  /** The URLs of the configured files. */
  lemma ConfiguredUrls()
    ensures FileUrls(HtmlFiles) == ["/index.html", "/products.html", "/about.html", "/contact.html"]
  {
    assert UrlOf(HtmlFiles[0]) == "/index.html";
    assert UrlOf(HtmlFiles[1]) == "/products.html";
    assert UrlOf(HtmlFiles[2]) == "/about.html";
    assert UrlOf(HtmlFiles[3]) == "/contact.html";
  }

  /** With the configured files all extracting, the cache holds four pages in the configured order. */
  lemma AllSucceedGivesFourPages(extract: Extractor)
    requires forall f :: f in HtmlFiles ==> extract(f).Some?
    ensures |Crawled(HtmlFiles, extract)| == 4
    ensures Urls(Crawled(HtmlFiles, extract)) ==
      ["/index.html", "/products.html", "/about.html", "/contact.html"]
  {
    AllSucceedKeepsEveryFile(HtmlFiles, extract);
    ConfiguredUrls();
  }

  /** With exactly one of the four configured files failing, the cache holds the other three pages. */
  lemma OneFailureGivesThreePages(extract: Extractor, k: nat)
    requires k < |HtmlFiles|
    requires extract(HtmlFiles[k]).None?
    requires forall j :: 0 <= j < |HtmlFiles| && j != k ==> extract(HtmlFiles[j]).Some?
    ensures |Crawled(HtmlFiles, extract)| == 3
    ensures UrlOf(HtmlFiles[k]) !in Urls(Crawled(HtmlFiles, extract))
  {
    OneFailureDropsOnlyThatFile(HtmlFiles, extract, k);
    ConfiguredUrls();
    var all := FileUrls(HtmlFiles);
    var rest := HtmlFiles[..k] + HtmlFiles[k + 1..];
    forall i | 0 <= i < |rest|
      ensures FileUrls(rest)[i] != all[k]
    {
      var j := if i < k then i else i + 1;
      assert rest[i] == HtmlFiles[j];
      assert FileUrls(rest)[i] == all[j];
    }
  }
}
