/**
 * The Markdown scraper: a worklist of URLs is drained one arbitrary element
 * at a time; each URL that was not scraped before and contains the seed URL
 * as a substring is fetched through a Markdown conversion API, saved under
 * a name derived from its host and path, and, when the fetch returned
 * content, the links found in that content join the worklist.
 *
 * The HTTP API is a finite map from request URL to reply; an address the
 * map does not know answers 404. The Markdown link parser is replaced by
 * the set of links each reply carries.
 */
module MarkdownScraper {
  import opened Wrappers
  import opened Strings
  import opened Urls
  import opened ScrapeWorklist

  datatype ScraperError = UnsupportedScraper

  /** The request URL for `url` on the named conversion service. */
  function ApiUrl(scraper: string, url: string): (r: Result<string, ScraperError>)
    ensures r.Success? <==> scraper == "dhr" || scraper == "jina"
    ensures r.Success? ==> EndsWith(r.value, url) && StartsWith(r.value, "https://")
  {
    if scraper == "dhr" then Success("https://md.dhr.wtf/?url=" + url)
    else if scraper == "jina" then Success("https://r.jina.ai/" + url)
    else Failure(UnsupportedScraper)
  }

  /** Different pages on the same service are requested at different addresses. */
  lemma ApiUrlInjective(scraper: string, u1: string, u2: string)
    requires ApiUrl(scraper, u1).Success? && ApiUrl(scraper, u1) == ApiUrl(scraper, u2)
    ensures u1 == u2
  {
    var p := if scraper == "dhr" then "https://md.dhr.wtf/?url=" else "https://r.jina.ai/";
    assert ApiUrl(scraper, u1).value == p + u1 && ApiUrl(scraper, u2).value == p + u2;
    assert u1 == (p + u1)[|p|..] && u2 == (p + u2)[|p|..];
  }

  /** The two services are never asked at the same address. */
  lemma ServicesDisjoint(u1: string, u2: string)
    ensures ApiUrl("dhr", u1) != ApiUrl("jina", u2)
  {
    assert ApiUrl("dhr", u1).value[8] == 'm' && ApiUrl("jina", u2).value[8] == 'r';
  }

  /** What the API answers at `apiUrl`. */
  function Reply(api: map<string, HttpReply>, apiUrl: string): HttpReply {
    if apiUrl in api then api[apiUrl] else HttpReply(404, "", {})
  }

  /**
   * Fetches the Markdown for `url`: an error for an unknown service, else
   * the body when the status is 200 and nothing otherwise.
   */
  function FetchMarkdown(api: map<string, HttpReply>, scraper: string, url: string): (r: Result<Option<string>, ScraperError>)
    ensures r.Failure? <==> ApiUrl(scraper, url).Failure?
    ensures r.Success? ==>
      (r.value.Some? <==> Reply(api, ApiUrl(scraper, url).value).status == 200) &&
      (r.value.Some? ==> r.value.value == Reply(api, ApiUrl(scraper, url).value).text)
  {
    match ApiUrl(scraper, url)
    case Failure(e) => Failure(e)
    case Success(apiUrl) =>
      var reply := Reply(api, apiUrl);
      if reply.status == 200 then Success(Some(reply.text)) else Success(None)
  }

  /** The directory for a host: every `www.` removed, wherever it occurs, then dots turned into underscores. */
  function DomainDir(netloc: string): (dir: string)
    ensures '.' !in dir
  {
    ReplaceCharGone(ReplaceAll(netloc, "www.", ""), '.', "_");
    ReplaceAll(ReplaceAll(netloc, "www.", ""), ".", "_")
  }

  /** `www.` is removed in the middle of a host too, not just as a prefix. */
  lemma DomainDirDropsInnerWww()
    ensures DomainDir("awww.b") == "ab"
  {
    assert "awww.b"[..4][0] == 'a' && "www."[0] == 'w';
    assert "awww.b"[1..] == "www." + "b";
    ReplaceAllLeading("www.", "b", "");
    assert ReplaceAll("awww.b", "www.", "") == "ab";
    ReplaceCharAbsent("ab", '.', "_");
  }

  /** A leading `www.` is dropped and the remaining dots become underscores. */
  lemma DomainDirDropsLeadingWww()
    ensures DomainDir("www.a.b") == "a_b"
  {
    assert "www.a.b" == "www." + "a.b";
    ReplaceAllLeading("www.", "a.b", "");
    assert ReplaceAll("www.a.b", "www.", "") == "a.b";
    ReplaceCharAt("a.b", '.', '_');
    assert ReplaceAll("a.b", ".", "_") == "a_b";
  }

  /**
   * The file name for a URL path: the path with its slashes stripped from
   * both ends, `index.md` when nothing is left, otherwise the path plus
   * `.md`; inner slashes become underscores.
   */
  function FileName(urlPath: string): (name: string)
    ensures '/' !in name
    ensures EndsWith(name, ".md")
  {
    var path := Strip(urlPath, '/');
    var withExt := if path == [] || EndsWith(path, "/") then PathJoin(path, "index.md") else path + ".md";
    assert EndsWith(withExt, ".md") by {
      if !(path == [] || EndsWith(path, "/")) {
        assert withExt[|withExt| - 3..] == ".md";
      }
    }
    FlattenKeepsExtension(withExt);
    ReplaceAll(withExt, "/", "_")
  }

  /** Turning the slashes of a Markdown path into underscores leaves a flat Markdown file name. */
  lemma FlattenKeepsExtension(withExt: string)
    requires EndsWith(withExt, ".md")
    ensures '/' !in ReplaceAll(withExt, "/", "_")
    ensures EndsWith(ReplaceAll(withExt, "/", "_"), ".md")
  {
    ReplaceCharGone(withExt, '/', "_");
    ReplaceCharKeepsSuffix(withExt, '/', '_', ".md");
  }

  /** After stripping, the path cannot end with `/`: the `endswith('/')` test never succeeds. */
  lemma EndsWithSlashBranchDead(urlPath: string)
    ensures !EndsWith(Strip(urlPath, '/'), "/")
  {
  }

  /** A path that is empty once its slashes are stripped is saved as `index.md`. */
  lemma IndexFileForEmptyPath(urlPath: string)
    requires Strip(urlPath, '/') == []
    ensures FileName(urlPath) == "index.md"
  {
    var name := "index.md";
    assert PathJoin([], name) == name;
    assert FileName(urlPath) == ReplaceAll(name, "/", "_");
    ReplaceCharAbsent(name, '/', "_");
  }

  /** The site root is saved as `index.md`. */
  lemma RootFileIsIndex()
    ensures FileName("/") == "index.md"
  {
    assert Strip("/", '/') == [] by {
      assert TrimStart("/", '/') == TrimStart("/"[1..], '/');
      assert "/"[1..] == [];
    }
    IndexFileForEmptyPath("/");
  }

  /** A one-segment page is saved under the segment's own name plus `.md`. */
  lemma SegmentFile(segment: string)
    requires segment != [] && '/' !in segment
    ensures FileName("/" + segment) == segment + ".md"
  {
    TrailingSlashSameFile(segment);
    EndsWithSlashBranchDead("/" + segment);
    assert '/' !in segment + ".md";
    ReplaceCharAbsent(segment + ".md", '/', "_");
  }

  /** The `/index` page is saved as `index.md` too, so it shares the root's file. */
  lemma RootAndIndexShareFile()
    ensures FileName("/index") == FileName("/")
  {
    var segment := "index";
    assert segment + ".md" == "index.md" && "/" + segment == "/index";
    assert '/' !in segment;
    RootFileIsIndex();
    SegmentFile(segment);
  }

  /** A page path with and without its trailing slash is saved to the same file. */
  lemma TrailingSlashSameFile(segment: string)
    requires segment != [] && segment[0] != '/' && segment[|segment| - 1] != '/'
    ensures FileName("/" + segment + "/") == FileName("/" + segment)
    ensures Strip("/" + segment, '/') == segment
  {
    assert ("/" + segment + "/")[1..] == segment + "/";
    assert TrimStart("/" + segment + "/", '/') == segment + "/";
    assert (segment + "/")[..|segment|] == segment;
    assert TrimEnd(segment + "/", '/') == segment;
    assert ("/" + segment)[1..] == segment;
    assert TrimStart("/" + segment, '/') == segment;
  }

  /** Where the Markdown of `url` is saved under `baseDir`. */
  function MarkdownPath(baseDir: string, url: string): (path: string)
    ensures EndsWith(path, FileName(UrlPath(url)))
  {
    PathJoin(PathJoin(baseDir, DomainDir(Netloc(url))), FileName(UrlPath(url)))
  }

  /** Every link carried by any reply of the API. */
  ghost function AllLinks(api: map<string, HttpReply>): set<string> {
    set a, l | a in api && l in api[a].links :: l
  }

  /**
   * The seed test is a substring test, not a host test: an address on any
   * host whose query embeds the seed passes it.
   */
  lemma SubstringScopeAdmitsOtherHosts(seed: string, host: string)
    requires forall k :: 0 <= k < |host| ==> host[k] !in NetlocStops
    ensures Contains("https://" + host + ("/?u=" + seed), seed)
    ensures Netloc("https://" + host + ("/?u=" + seed)) == host
  {
    var front, query := "https://" + host, "/?u=";
    EmbeddedSeed(front + query, seed);
    ConcatAssoc(front, query, seed);
    HostOfEmbeddedSeed(seed, host);
  }

  lemma ConcatAssoc(a: string, b: string, c: string)
    ensures a + b + c == a + (b + c)
  {
  }

  lemma HostOfEmbeddedSeed(seed: string, host: string)
    requires forall k :: 0 <= k < |host| ==> host[k] !in NetlocStops
    ensures Netloc("https://" + host + ("/?u=" + seed)) == host
  {
    assert "https://" + host + ("/?u=" + seed) == "https" + "://" + host + ("/?u=" + seed);
    UrlParts("https", host, "/?u=" + seed);
  }

  lemma EmbeddedSeed(prefix: string, seed: string)
    ensures Contains(prefix + seed, seed)
  {
    assert (prefix + seed)[|prefix|..|prefix| + |seed|] == seed;
    ContainsAt(prefix + seed, seed, |prefix|);
  }

  /**
   * A scraping session: the conversion service, the output directory, the
   * set of scraped URLs shared by every call and the files written so far.
   */
  class Scraper {
    const api: map<string, HttpReply>
    const scraper: string
    const baseDir: string
    /** What the service answers for each page, fixed by `api` and `scraper` when the session starts. */
    ghost const replies: string -> HttpReply
    /** The file each page is saved to: `MarkdownPath` under `baseDir`, fixed when the session starts. */
    const pathOf: string -> string
    var scrapedUrls: set<string>
    var files: map<string, string>

    /** On a known service, `replies` is what the API answers at each page's request address. */
    ghost predicate Valid() {
      Supported() ==>
        forall u {:trigger ApiUrl(scraper, u)} :: replies(u) == Reply(api, ApiUrl(scraper, u).value)
    }

    constructor (api: map<string, HttpReply>, scraper: string, baseDir: string)
      ensures Valid()
      ensures this.api == api && this.scraper == scraper && this.baseDir == baseDir
      ensures forall u :: pathOf(u) == MarkdownPath(baseDir, u)
      ensures scrapedUrls == {} && files == map[]
    {
      this.api := api;
      this.scraper := scraper;
      this.baseDir := baseDir;
      replies := u => match ApiUrl(scraper, u) case Success(a) => Reply(api, a) case Failure(_) => HttpReply(404, "", {});
      pathOf := u => MarkdownPath(baseDir, u);
      scrapedUrls := {};
      files := map[];
    }

    predicate Supported() {
      scraper == "dhr" || scraper == "jina"
    }

    /** On a known service, the reply for `u` is the API's answer at its request address. */
    lemma ReplyOf(u: string)
      requires Valid() && Supported()
      ensures replies(u) == Reply(api, ApiUrl(scraper, u).value)
    {
    }

    /** On a known service, a fetch adds to the worklist only links some reply of the API carries. */
    lemma NextPendingWithin(pending: set<string>, u: string)
      requires Valid() && Supported()
      ensures NextPending(replies, pending, u) <= pending + AllLinks(api)
    {
      var a := ApiUrl(scraper, u).value;
      assert replies(u) == Reply(api, a);
      if a in api {
        forall l | l in api[a].links ensures l in AllLinks(api) {
        }
      }
    }

    /** What a fetch of `u` on a known service gives, in terms of the session's replies. */
    lemma FetchedReply(u: string)
      requires Valid() && Supported()
      ensures FetchMarkdown(api, scraper, u).Success?
      ensures var f := FetchMarkdown(api, scraper, u).value;
        (f.Some? && f.value != "" <==> Productive(replies, u)) && (f.Some? ==> f.value == replies(u).text)
      ensures replies(u).links == Reply(api, ApiUrl(scraper, u).value).links
    {
      ReplyOf(u);
    }

    /**
     * One fetch of the loop: `current` is fetched, its Markdown saved and
     * its links queued when it has content, and it is marked scraped and
     * appended to the fetch order. An unknown service fails and changes
     * nothing.
     */
    method ScrapePage(current: string, pending: set<string>, scraped: set<string>, written: map<string, string>,
                      ghost order: seq<string>)
      returns (err: Option<ScraperError>, pending': set<string>, scraped': set<string>, written': map<string, string>,
               ghost order': seq<string>)
      requires Valid()
      ensures err.Some? <==> !Supported()
      ensures err.Some? ==> pending' == pending && scraped' == scraped && written' == written && order' == order
      ensures err.None? ==> pending' == NextPending(replies, pending, current)
      ensures err.None? ==> scraped' == scraped + {current} && order' == order + [current]
      ensures err.None? ==> written' == NextFiles(replies, pathOf, written, current)
    {
      pending', scraped', written', order' := pending, scraped, written, order;
      var fetched := FetchMarkdown(api, scraper, current);
      if fetched.Failure? {
        return Some(fetched.error), pending', scraped', written', order';
      }
      pending', written' := SaveAndQueue(current, fetched.value, pending, written);
      scraped' := scraped + {current};
      order' := order + [current];
      err := None;
    }

    /**
     * What a successful fetch of `current` leads to: when it brought
     * content, the content is saved under the page's file name and the
     * links found in it join the worklist; `current` leaves the worklist.
     */
    method SaveAndQueue(current: string, content: Option<string>, pending: set<string>, written: map<string, string>)
      returns (pending': set<string>, written': map<string, string>)
      requires Valid() && Supported() && content == FetchMarkdown(api, scraper, current).value
      ensures pending' == NextPending(replies, pending, current)
      ensures written' == NextFiles(replies, pathOf, written, current)
    {
      FetchedReply(current);
      var path := pathOf(current);
      var links := Reply(api, ApiUrl(scraper, current).value).links;
      if content.Some? && content.value != "" {
        written' := written[path := content.value];
        pending' := pending - {current} + links;
      } else {
        assert (pending - {current}) + {} == pending - {current};
        written' := written;
        pending' := pending - {current};
      }
    }

    /**
     * Scrapes from `url` until the worklist is empty, starting from the
     * scraped set `scraped0` and the saved files `files0`. Only URLs not
     * scraped before that contain `url` are fetched, each once, in the
     * order `order`: `url` first, then each URL a link of a productive page
     * fetched before it. Every fetched URL is recorded as scraped whether
     * or not content came back; the links of a page join the worklist only
     * when its content is not empty; each file ends up holding the Markdown
     * of the last productive page saved under its name. An unknown service
     * fails at the first fetch, before anything is recorded.
     */
    method ScrapeFrom(url: string, scraped0: set<string>, files0: map<string, string>)
      returns (err: Option<ScraperError>, scraped: set<string>, written: map<string, string>, ghost order: seq<string>)
      requires Valid()
      ensures err.Some? <==> !Supported() && url !in scraped0
      ensures !Supported() ==> scraped == scraped0 && written == files0 && order == []
      ensures scraped0 <= scraped
      ensures Distinct(order) && Lists(order, scraped - scraped0)
      ensures forall k :: 0 <= k < |order| ==> Contains(order[k], url)
      ensures err.None? ==> url in scraped
      ensures err.None? && url !in scraped0 ==> |order| > 0
      ensures FetchChain(replies, url, order)
      ensures Closed(replies, url, scraped - scraped0, {}, scraped)
      ensures written == SaveAll(replies, pathOf, files0, order)
      ensures forall k, p :: SavedLast(replies, pathOf, order, k, p) ==> p in written && written[p] == replies(order[k]).text
      ensures forall p :: NeverSaved(replies, pathOf, order, p) ==>
        (p in written <==> p in files0) && (p in files0 ==> written[p] == files0[p])
    {
      scraped, written := scraped0, files0;
      var pending := {url};
      order := [];
      ghost var universe := {url} + AllLinks(api);
      ContainsPrefix(url, url);
      InvStart(replies, pathOf, url, scraped, written);
      while pending != {}
        invariant pending <= universe
        invariant Inv(replies, pathOf, url, scraped0, files0, pending, scraped, written, order)
        invariant !Supported() ==> scraped == scraped0 && written == files0 && order == [] && pending <= {url}
        decreases |universe - scraped|, |pending|
      {
        var current :| current in pending;
        if current in scraped || !Contains(current, url) {
          InvSkip(replies, pathOf, url, scraped0, files0, pending, scraped, written, order, current);
          pending := pending - {current};
          continue;
        }
        ScrapedOneMore(universe, scraped, current);
        ghost var pending0, scraped1, written1, order1 := pending, scraped, written, order;
        var failed;
        failed, pending, scraped, written, order := ScrapePage(current, pending, scraped, written, order);
        if failed.Some? {
          assert current == url;
          return failed, scraped, written, order;
        }
        InvFetch(replies, pathOf, url, scraped0, files0, pending0, scraped1, written1, order1, current);
        NextPendingWithin(pending0, current);
      }
      InvDone(replies, pathOf, url, scraped0, files0, scraped, written, order);
      if url !in scraped0 {
        assert url in scraped - scraped0;
        assert url in order;
      }
      SavedFiles(files0, order);
      err := None;
    }

    /** What `SaveAll` leaves in each file, stated for the session's replies and file names. */
    lemma SavedFiles(files0: map<string, string>, order: seq<string>)
      ensures forall k, p :: SavedLast(replies, pathOf, order, k, p) ==>
        p in SaveAll(replies, pathOf, files0, order) && SaveAll(replies, pathOf, files0, order)[p] == replies(order[k]).text
      ensures forall p :: NeverSaved(replies, pathOf, order, p) ==>
        (p in SaveAll(replies, pathOf, files0, order) <==> p in files0) &&
        (p in files0 ==> SaveAll(replies, pathOf, files0, order)[p] == files0[p])
    {
      forall k, p | SavedLast(replies, pathOf, order, k, p)
        ensures p in SaveAll(replies, pathOf, files0, order) && SaveAll(replies, pathOf, files0, order)[p] == replies(order[k]).text
      {
        SaveAllLast(replies, pathOf, files0, order, k, p);
      }
      forall p | NeverSaved(replies, pathOf, order, p)
        ensures p in SaveAll(replies, pathOf, files0, order) <==> p in files0
        ensures p in files0 ==> SaveAll(replies, pathOf, files0, order)[p] == files0[p]
      {
        SaveAllKept(replies, pathOf, files0, order, p);
      }
    }

    /** `scrape_site`: scrapes from `url`, adding to the session's scraped set and files. */
    method ScrapeSite(url: string) returns (err: Option<ScraperError>, ghost order: seq<string>)
      requires Valid()
      modifies this
      ensures err.Some? <==> !Supported() && url !in old(scrapedUrls)
      ensures !Supported() ==> scrapedUrls == old(scrapedUrls) && files == old(files) && order == []
      ensures old(scrapedUrls) <= scrapedUrls
      ensures Distinct(order) && Lists(order, scrapedUrls - old(scrapedUrls))
      ensures forall k :: 0 <= k < |order| ==> Contains(order[k], url)
      ensures err.None? ==> url in scrapedUrls
      ensures err.None? && url !in old(scrapedUrls) ==> |order| > 0
      ensures FetchChain(replies, url, order)
      ensures Closed(replies, url, scrapedUrls - old(scrapedUrls), {}, scrapedUrls)
      ensures files == SaveAll(replies, pathOf, old(files), order)
      ensures forall k, p :: SavedLast(replies, pathOf, order, k, p) ==> p in files && files[p] == replies(order[k]).text
      ensures forall p :: NeverSaved(replies, pathOf, order, p) ==>
        (p in files <==> p in old(files)) && (p in old(files) ==> files[p] == old(files)[p])
    {
      var scraped, written;
      err, scraped, written, order := ScrapeFrom(url, scrapedUrls, files);
      scrapedUrls, files := scraped, written;
    }
  }
}
