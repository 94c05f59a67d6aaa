/**
 * The depth-first site crawl: starting from a seed URL, every in-scope page
 * not yet visited is marked visited, captured by one call of
 * `get_page_details`, recorded, and its links are followed one level
 * deeper, in sorted order, until the depth limit.
 *
 * The browser is replaced by a finite map from URL to what visiting it
 * gives; a URL the map does not know behaves like a `WebDriverException`.
 */
module SiteCrawl {
  import opened Wrappers
  import opened Strings
  import opened Urls
  import opened Links
  import opened Retry
  import opened Artifacts

  /**
   * What one call of `get_page_details` gets from the browser for a page.
   * That call navigates to the page twice, once for the measurements and
   * the screenshot and once for the text; both are taken as one capture.
   */
  datatype Capture = Capture(
    loadTimeMs: nat,       // the measured load time
    width: int,            // the full content width reported by the browser
    height: int,           // the full content height reported by the browser
    anchors: seq<Anchor>,  // the page's anchor elements
    markdown: string,      // the page body converted to Markdown
    replies: ReplyScript)  // how the plain status requests for the page would end

  /** Capturing a URL either raises a `WebDriverException` or gives a capture. */
  datatype Visit = Fatal | Loaded(capture: Capture)

  /** The record kept for one crawled page. */
  datatype PageRecord = PageRecord(
    loadTimeMs: nat,
    httpStatusCode: Option<int>,
    contentSizeBytes: Option<nat>,
    screenshotPath: string,
    textFilePath: string,
    fullWidth: int,
    fullHeight: int,
    links: seq<string>)

  /** `rec` is the record the crawler builds for `url` from what loading it gave. */
  ghost predicate IsPageRecord(url: string, capture: Capture, screenshotDir: string, textDir: string, rec: PageRecord) {
    && ExtractedLinks(capture.anchors, rec.links)
    && Measured(capture, rec)
    && ArtifactPaths(url, screenshotDir, textDir, rec)
    && RetriedStatus(capture.replies, rec)
  }

  ghost predicate Measured(capture: Capture, rec: PageRecord) {
    rec.loadTimeMs == capture.loadTimeMs && rec.fullWidth == capture.width && rec.fullHeight == capture.height
  }

  ghost predicate ArtifactPaths(url: string, screenshotDir: string, textDir: string, rec: PageRecord) {
    && rec.screenshotPath == PathJoin(screenshotDir, ArtifactName(url, ".png"))
    && rec.textFilePath == PathJoin(textDir, ArtifactName(url, ".md"))
  }

  ghost predicate RetriedStatus(replies: ReplyScript, rec: PageRecord) {
    exists v :: RetriedAsSpecified(replies, v) && rec.httpStatusCode == v.status && rec.contentSizeBytes == v.sizeBytes
  }

  /**
   * Builds the record of a loaded page and the Markdown text written for it:
   * the links, the status and size from the retried request (absent when
   * it gave up), the artifact paths and the measured load time and size.
   */
  method GetPageDetails(url: string, capture: Capture, screenshotDir: string, textDir: string)
    returns (rec: PageRecord, text: string)
    ensures IsPageRecord(url, capture, screenshotDir, textDir, rec)
    ensures text == TrimToFirstHeading(capture.markdown)
  {
    var screenshotPath := PathJoin(screenshotDir, ArtifactName(url, ".png"));
    var textFilePath := PathJoin(textDir, ArtifactName(url, ".md"));
    text := TrimToFirstHeading(capture.markdown);
    var links := CollectLinks(capture.anchors);
    var v := VerifyWithRetry(capture.replies);
    rec := PageRecord(capture.loadTimeMs, v.status, v.sizeBytes, screenshotPath, textFilePath,
                      capture.width, capture.height, links);
  }

  /** `d1` keeps every depth recorded in `d0`. */
  ghost predicate Extends(d0: map<string, int>, d1: map<string, int>) {
    forall u :: u in d0 ==> u in d1 && d1[u] == d0[u]
  }

  lemma ExtendsTrans(d0: map<string, int>, d1: map<string, int>, d2: map<string, int>)
    requires Extends(d0, d1) && Extends(d1, d2)
    ensures Extends(d0, d2)
  {
  }

  /** Recording the depth of a new URL, then extending further, extends the old depths and keeps the new one. */
  lemma ExtendsAfterRecord(d0: map<string, int>, url: string, d: int, d2: map<string, int>)
    requires url !in d0 && Extends(d0[url := d], d2)
    ensures Extends(d0, d2) && url in d2 && d2[url] == d
  {
    forall u | u in d0 ensures u in d2 && d2[u] == d0[u] {
      assert d0[url := d][u] == d0[u];
    }
  }

  /** Every URL visited between `v0` and `v1` was crawled at a depth from `lo` to `hi`. */
  ghost predicate DepthsWithin(v0: set<string>, v1: set<string>, depth: map<string, int>, lo: int, hi: int) {
    forall u :: u in v1 && u !in v0 ==> u in depth && lo <= depth[u] <= hi
  }

  /** `u` is a link of a page recorded in `m`, and was crawled one level below that page. */
  ghost predicate LinkedBelow(u: string, m: map<string, PageRecord>, depth: map<string, int>) {
    u in depth && exists p :: p in m && p in depth && depth[p] + 1 == depth[u] && u in m[p].links
  }

  /** Every URL visited between `v0` and `v1`, except `root`, is a link of a page recorded in `m` one level up. */
  ghost predicate Descends(v0: set<string>, v1: set<string>, m: map<string, PageRecord>, depth: map<string, int>, root: string) {
    forall u :: u in v1 && u !in v0 && u != root ==> LinkedBelow(u, m, depth)
  }

  /**
   * Every URL visited between `v0` and `v1` is one of `links`, crawled at
   * depth `d`, or a link of a page recorded in `m` one level up.
   */
  ghost predicate FollowedFrom(v0: set<string>, v1: set<string>, m: map<string, PageRecord>, depth: map<string, int>,
                               links: seq<string>, d: int)
  {
    forall u :: u in v1 && u !in v0 ==> (u in links && u in depth && depth[u] == d) || LinkedBelow(u, m, depth)
  }

  /** Every link in `links` has been visited or is out of scope. */
  ghost predicate Settled(links: seq<string>, seen: set<string>, baseDomain: string) {
    forall l :: l in links ==> l in seen || !InScope(Netloc(l), baseDomain)
  }

  /** Every page recorded in `m` above the depth limit has all its links visited or out of scope. */
  ghost predicate AllSettled(m: map<string, PageRecord>, depth: map<string, int>, seen: set<string>,
                             baseDomain: string, maxDepth: int)
  {
    forall p :: p in m && p in depth && depth[p] < maxDepth ==> Settled(m[p].links, seen, baseDomain)
  }

  lemma SettledGrows(links: seq<string>, v1: set<string>, v2: set<string>, baseDomain: string)
    requires Settled(links, v1, baseDomain) && v1 <= v2
    ensures Settled(links, v2, baseDomain)
  {
  }

  lemma SettledAppend(links: seq<string>, k: nat, seen: set<string>, baseDomain: string)
    requires k < |links| && Settled(links[..k], seen, baseDomain)
    requires links[k] in seen || !InScope(Netloc(links[k]), baseDomain)
    ensures Settled(links[..k + 1], seen, baseDomain)
  {
    assert links[..k + 1] == links[..k] + [links[k]];
  }

  /**
   * A crawl that starts at the depth limit visits nothing but its root:
   * any other URL would be a link of a page visited at the limit, one
   * level beyond it.
   */
  lemma OnlyRootAtLimit(v0: set<string>, v1: set<string>, m: map<string, PageRecord>, depth: map<string, int>,
                        root: string, limit: int)
    requires forall p :: p in m ==> p in v1 && p !in v0
    requires DepthsWithin(v0, v1, depth, limit, limit)
    requires Descends(v0, v1, m, depth, root)
    ensures v1 <= v0 + {root}
  {
  }

  /**
   * One crawl of a link inside the loop: the pages it visits are that link
   * or links of the pages it records, so after merging its map every URL
   * visited by the loop is still one of the links or a link of a recorded
   * page, and pages recorded earlier keep their depth and stay settled.
   */
  lemma FollowStep(v0: set<string>, v1: set<string>, v2: set<string>,
                   m1: map<string, PageRecord>, c: map<string, PageRecord>,
                   d1: map<string, int>, d2: map<string, int>,
                   links: seq<string>, link: string, d: int, baseDomain: string, maxDepth: int)
    requires v0 <= v1 <= v2 && Extends(d1, d2)
    requires forall p :: p in m1 ==> p in v1 && p in d1
    requires forall p :: p in c ==> p !in v1
    requires link in links
    requires link in v2 && link !in v1 ==> link in d2 && d2[link] == d
    requires FollowedFrom(v0, v1, m1, d1, links, d)
    requires Descends(v1, v2, c, d2, link)
    requires AllSettled(m1, d1, v1, baseDomain, maxDepth) && AllSettled(c, d2, v2, baseDomain, maxDepth)
    ensures FollowedFrom(v0, v2, m1 + c, d2, links, d)
    ensures AllSettled(m1 + c, d2, v2, baseDomain, maxDepth)
  {
    var m2 := m1 + c;
    forall u | u in v2 && u !in v0
      ensures (u in links && u in d2 && d2[u] == d) || LinkedBelow(u, m2, d2)
    {
      if u in v1 {
        if !(u in links && u in d1 && d1[u] == d) {
          var p :| p in m1 && p in d1 && d1[p] + 1 == d1[u] && u in m1[p].links;
          assert m2[p] == m1[p];
        }
      } else if u != link {
        var p :| p in c && p in d2 && d2[p] + 1 == d2[u] && u in c[p].links;
        assert m2[p] == c[p];
      }
    }
    forall p | p in m2 && p in d2 && d2[p] < maxDepth
      ensures Settled(m2[p].links, v2, baseDomain)
    {
      if p in c {
        assert m2[p] == c[p];
      } else {
        assert m2[p] == m1[p];
        SettledGrows(m1[p].links, v1, v2, baseDomain);
      }
    }
  }

  /**
   * Recording a loaded page after following its links: every URL the
   * links led to is a link of the page or of a page recorded below it, at
   * depths from one level below the page down to the limit.
   */
  lemma RecordStep(v0: set<string>, v2: set<string>, url: string, rec: PageRecord,
                   c: map<string, PageRecord>, d: map<string, int>, cd: int, baseDomain: string, maxDepth: int)
    requires v0 + {url} <= v2 && url !in c
    requires url in d && d[url] == cd && cd <= maxDepth
    requires DepthsWithin(v0 + {url}, v2, d, cd + 1, maxDepth)
    requires FollowedFrom(v0 + {url}, v2, c, d, rec.links, cd + 1)
    requires AllSettled(c, d, v2, baseDomain, maxDepth)
    requires cd < maxDepth ==> Settled(rec.links, v2, baseDomain)
    ensures DepthsWithin(v0, v2, d, cd, maxDepth)
    ensures Descends(v0, v2, map[url := rec] + c, d, url)
    ensures AllSettled(map[url := rec] + c, d, v2, baseDomain, maxDepth)
  {
    var m := map[url := rec] + c;
    assert m[url] == rec;
    forall u | u in v2 && u !in v0 && u != url
      ensures LinkedBelow(u, m, d)
    {
      if u in rec.links && u in d && d[u] == cd + 1 {
        assert url in m && url in d && d[url] + 1 == d[u] && u in m[url].links;
      } else {
        var p :| p in c && p in d && d[p] + 1 == d[u] && u in c[p].links;
        assert m[p] == c[p];
      }
    }
    forall p | p in m && p in d && d[p] < maxDepth
      ensures Settled(m[p].links, v2, baseDomain)
    {
      if p != url {
        assert m[p] == c[p];
      }
    }
  }

  /** The visited set and the depth each visited URL was crawled at, as one crawl threads them. */
  datatype CrawlState = CrawlState(visited: set<string>, depth: map<string, int>)

  /** The links recorded for `url`'s page when capturing it succeeds. */
  ghost function PageLinks(web: map<string, Visit>, url: string): seq<string> {
    if url in web && web[url].Loaded? then LinksOf(web[url].capture.anchors) else []
  }

  /**
   * `crawl_site` on the visited set and depths: an over-deep, visited or
   * out-of-scope URL leaves the state as it is; otherwise the URL is
   * marked visited at the current depth and, when its capture succeeds,
   * its links are followed one level deeper in their recorded order.
   */
  ghost function CrawlRef(web: map<string, Visit>, s: CrawlState, url: string,
                          baseDomain: string, maxDepth: int, cd: int): CrawlState
    decreases if cd <= maxDepth then maxDepth - cd + 1 else 0, 1, 0
  {
    if cd > maxDepth || url in s.visited || !InScope(Netloc(url), baseDomain) then s
    else
      var s1 := CrawlState(s.visited + {url}, s.depth[url := cd]);
      if url in web && web[url].Loaded? then
        FollowRef(web, s1, PageLinks(web, url), |PageLinks(web, url)|, baseDomain, maxDepth, cd)
      else s1
  }

  /**
   * The loop over a page's links after it has handled the first `k` of
   * them, in order: a link already visited by then is skipped, any other
   * is crawled one level deeper from the state the earlier links left.
   */
  ghost function FollowRef(web: map<string, Visit>, s: CrawlState, links: seq<string>, k: nat,
                           baseDomain: string, maxDepth: int, cd: int): CrawlState
    requires k <= |links| && cd <= maxDepth
    decreases maxDepth - cd + 1, 0, k
  {
    if k == 0 then s
    else
      var prev := FollowRef(web, s, links, k - 1, baseDomain, maxDepth, cd);
      if links[k - 1] in prev.visited then prev
      else CrawlRef(web, prev, links[k - 1], baseDomain, maxDepth, cd + 1)
  }

  /** One more turn of the loop: the next link is skipped when visited, and crawled otherwise. */
  lemma FollowRefNext(web: map<string, Visit>, s: CrawlState, links: seq<string>, k: nat,
                      baseDomain: string, maxDepth: int, cd: int)
    requires k < |links| && cd <= maxDepth
    ensures var prev := FollowRef(web, s, links, k, baseDomain, maxDepth, cd);
      FollowRef(web, s, links, k + 1, baseDomain, maxDepth, cd) ==
        if links[k] in prev.visited then prev else CrawlRef(web, prev, links[k], baseDomain, maxDepth, cd + 1)
  {
  }

  /** An admitted URL whose capture succeeds is marked at the current depth and its links are followed. */
  lemma CrawlRefEnters(web: map<string, Visit>, st: CrawlState, url: string, baseDomain: string, maxDepth: int, cd: int)
    requires cd <= maxDepth && url !in st.visited && InScope(Netloc(url), baseDomain) && url in web && web[url].Loaded?
    ensures CrawlRef(web, st, url, baseDomain, maxDepth, cd) ==
      FollowRef(web, CrawlState(st.visited + {url}, st.depth[url := cd]), PageLinks(web, url),
                |PageLinks(web, url)|, baseDomain, maxDepth, cd)
  {
  }

  /** A loop over one link crawls it one level deeper unless it is visited. */
  lemma FollowRefSingle(web: map<string, Visit>, st: CrawlState, x: string, baseDomain: string, maxDepth: int, cd: int)
    requires cd <= maxDepth
    ensures FollowRef(web, st, [x], 1, baseDomain, maxDepth, cd) ==
      if x in st.visited then st else CrawlRef(web, st, x, baseDomain, maxDepth, cd + 1)
  {
    assert FollowRef(web, st, [x], 0, baseDomain, maxDepth, cd) == st;
  }

  /**
   * The order of the links decides the crawl. With a seed `s` whose links
   * are `[a, b]`, pages `a -> [b]` and `b -> [c]`, all in scope and
   * capturable, and a depth limit of 2, following the seed's links at
   * depth 0 crawls `a` first, which reaches `b` at depth 2; `b` is then not
   * crawled again at depth 1, and `c`, at depth 3, is never visited. (By
   * `CrawlRefEnters`, a crawl of `s` from nothing is this loop.)
   */
  lemma FirstBranchExample(web: map<string, Visit>, baseDomain: string, s: string, a: string, b: string, c: string)
    requires s != a && s != b && s != c && a != b && a != c && b != c
    requires InScope(Netloc(a), baseDomain) && InScope(Netloc(b), baseDomain) && InScope(Netloc(c), baseDomain)
    requires a in web && web[a].Loaded? && PageLinks(web, a) == [b]
    requires b in web && web[b].Loaded? && PageLinks(web, b) == [c]
    requires c in web && web[c].Loaded?
    ensures FollowRef(web, CrawlState({s}, map[s := 0]), [a, b], 2, baseDomain, 2, 0) ==
            CrawlState({s, a, b}, map[s := 0, a := 1, b := 2])
  {
    var s0 := CrawlState({s}, map[s := 0]);
    ExampleFromA(web, baseDomain, s, a, b, c);
    FollowRefNext(web, s0, [a, b], 0, baseDomain, 2, 0);
    FollowRefNext(web, s0, [a, b], 1, baseDomain, 2, 0);
  }

  /** In that example, crawling `a` at depth 1 visits `a` and `b` and nothing else. */
  lemma ExampleFromA(web: map<string, Visit>, baseDomain: string, s: string, a: string, b: string, c: string)
    requires s != a && s != b && s != c && a != b && a != c && b != c
    requires InScope(Netloc(a), baseDomain) && InScope(Netloc(b), baseDomain)
    requires a in web && web[a].Loaded? && PageLinks(web, a) == [b]
    requires b in web && web[b].Loaded? && PageLinks(web, b) == [c]
    ensures CrawlRef(web, CrawlState({s}, map[s := 0]), a, baseDomain, 2, 1) ==
            CrawlState({s, a, b}, map[s := 0, a := 1, b := 2])
  {
    var s1 := CrawlState({s, a}, map[s := 0, a := 1]);
    ExampleFromB(web, baseDomain, s, a, b, c);
    CrawlRefEnters(web, CrawlState({s}, map[s := 0]), a, baseDomain, 2, 1);
    assert CrawlState({s} + {a}, map[s := 0][a := 1]) == s1;
    FollowRefSingle(web, s1, b, baseDomain, 2, 1);
  }

  /** In that example, crawling `b` at depth 2, the limit, visits `b` and does not go on to `c`. */
  lemma ExampleFromB(web: map<string, Visit>, baseDomain: string, s: string, a: string, b: string, c: string)
    requires s != b && a != b && b != c
    requires InScope(Netloc(b), baseDomain)
    requires b in web && web[b].Loaded? && PageLinks(web, b) == [c]
    ensures CrawlRef(web, CrawlState({s, a}, map[s := 0, a := 1]), b, baseDomain, 2, 2) ==
            CrawlState({s, a, b}, map[s := 0, a := 1, b := 2])
  {
    var s1 := CrawlState({s, a}, map[s := 0, a := 1]);
    var s2 := CrawlState({s, a, b}, map[s := 0, a := 1, b := 2]);
    CrawlRefEnters(web, s1, b, baseDomain, 2, 2);
    assert CrawlState(s1.visited + {b}, s1.depth[b := 2]) == s2;
    FollowRefSingle(web, s2, c, baseDomain, 2, 2);
  }

  /** Every visited URL has a depth, and only visited URLs do. */
  ghost predicate Keyed(s: CrawlState) {
    s.depth.Keys == s.visited
  }

  /**
   * A crawl only adds to the visited set, never changes a depth already
   * recorded, and keeps depths for exactly the visited URLs; an admitted
   * URL gets the current depth.
   */
  lemma {:induction false} CrawlRefGrows(web: map<string, Visit>, s: CrawlState, url: string,
                                         baseDomain: string, maxDepth: int, cd: int)
    requires Keyed(s)
    ensures var r := CrawlRef(web, s, url, baseDomain, maxDepth, cd);
      s.visited <= r.visited && Extends(s.depth, r.depth) && Keyed(r)
    ensures cd <= maxDepth && url !in s.visited && InScope(Netloc(url), baseDomain) ==>
      var r := CrawlRef(web, s, url, baseDomain, maxDepth, cd);
      url in r.visited && url in r.depth && r.depth[url] == cd
    decreases if cd <= maxDepth then maxDepth - cd + 1 else 0, 1, 0
  {
    if !(cd > maxDepth || url in s.visited || !InScope(Netloc(url), baseDomain)) {
      var s1 := CrawlState(s.visited + {url}, s.depth[url := cd]);
      if url in web && web[url].Loaded? {
        FollowRefGrows(web, s1, PageLinks(web, url), |PageLinks(web, url)|, baseDomain, maxDepth, cd);
        ExtendsAfterRecord(s.depth, url, cd, CrawlRef(web, s, url, baseDomain, maxDepth, cd).depth);
      } else {
        ExtendsAfterRecord(s.depth, url, cd, s1.depth);
      }
    }
  }

  /** The loop over links only adds to the visited set and keeps every recorded depth. */
  lemma {:induction false} FollowRefGrows(web: map<string, Visit>, s: CrawlState, links: seq<string>, k: nat,
                                          baseDomain: string, maxDepth: int, cd: int)
    requires k <= |links| && cd <= maxDepth && Keyed(s)
    ensures var r := FollowRef(web, s, links, k, baseDomain, maxDepth, cd);
      s.visited <= r.visited && Extends(s.depth, r.depth) && Keyed(r)
    decreases maxDepth - cd + 1, 0, k
  {
    if k > 0 {
      FollowRefGrows(web, s, links, k - 1, baseDomain, maxDepth, cd);
      var prev := FollowRef(web, s, links, k - 1, baseDomain, maxDepth, cd);
      if links[k - 1] !in prev.visited {
        CrawlRefGrows(web, prev, links[k - 1], baseDomain, maxDepth, cd + 1);
        ExtendsTrans(s.depth, prev.depth, CrawlRef(web, prev, links[k - 1], baseDomain, maxDepth, cd + 1).depth);
      }
    }
  }

  /** Handling more links from the same start only adds to what fewer links left. */
  lemma {:induction false} FollowRefMonotone(web: map<string, Visit>, s: CrawlState, links: seq<string>, i: nat, j: nat,
                                             baseDomain: string, maxDepth: int, cd: int)
    requires i <= j <= |links| && cd <= maxDepth && Keyed(s)
    ensures var a, b := FollowRef(web, s, links, i, baseDomain, maxDepth, cd), FollowRef(web, s, links, j, baseDomain, maxDepth, cd);
      a.visited <= b.visited && Extends(a.depth, b.depth)
    decreases j - i
  {
    if i < j {
      FollowRefMonotone(web, s, links, i, j - 1, baseDomain, maxDepth, cd);
      FollowRefGrows(web, s, links, j - 1, baseDomain, maxDepth, cd);
      var prev := FollowRef(web, s, links, j - 1, baseDomain, maxDepth, cd);
      if links[j - 1] !in prev.visited {
        CrawlRefGrows(web, prev, links[j - 1], baseDomain, maxDepth, cd + 1);
        ExtendsTrans(FollowRef(web, s, links, i, baseDomain, maxDepth, cd).depth, prev.depth,
                     FollowRef(web, s, links, j, baseDomain, maxDepth, cd).depth);
      }
    }
  }

  /**
   * The first branch to reach a URL wins: after the whole loop, a link
   * that no earlier link's crawl (and not the page itself) had visited
   * when its turn came is at one level below the page if it is in scope
   * and the limit allows, and a link visited before its turn keeps the
   * depth it was first reached at.
   */
  lemma FirstBranchWins(web: map<string, Visit>, s: CrawlState, links: seq<string>, k: nat,
                        baseDomain: string, maxDepth: int, cd: int)
    requires k < |links| && cd <= maxDepth && Keyed(s)
    ensures var before, after := FollowRef(web, s, links, k, baseDomain, maxDepth, cd),
                                 FollowRef(web, s, links, |links|, baseDomain, maxDepth, cd);
      && (links[k] in before.visited ==> links[k] in before.depth && links[k] in after.depth && after.depth[links[k]] == before.depth[links[k]])
      && (links[k] !in before.visited && cd < maxDepth && InScope(Netloc(links[k]), baseDomain) ==>
            links[k] in after.depth && after.depth[links[k]] == cd + 1)
  {
    var before := FollowRef(web, s, links, k, baseDomain, maxDepth, cd);
    FollowRefGrows(web, s, links, k, baseDomain, maxDepth, cd);
    FollowRefMonotone(web, s, links, k + 1, |links|, baseDomain, maxDepth, cd);
    if links[k] in before.visited {
      FollowRefMonotone(web, s, links, k, |links|, baseDomain, maxDepth, cd);
    } else {
      CrawlRefGrows(web, before, links[k], baseDomain, maxDepth, cd + 1);
    }
  }

  /** The capture log lists the visited URLs, each once, and exactly the visited URLs have depths. */
  ghost predicate Consistent(log: seq<string>, v: set<string>, d: map<string, int>) {
    Distinct(log) && Lists(log, v) && d.Keys == v
  }

  /**
   * A crawl: the browser it drives, where artifacts go, and the set of
   * visited URLs shared by every recursive call.
   */
  class SiteCrawler {
    const web: map<string, Visit>
    const screenshotDir: string
    const textDir: string
    var visited: set<string>
    /** The URLs captured so far, in the order they were captured. */
    ghost var loadLog: seq<string>
    /** The depth at which each visited URL was crawled. */
    ghost var depth: map<string, int>

    /**
     * A URL is marked visited exactly when it is captured, and never
     * captured again; each visited URL has the depth it was crawled at.
     */
    ghost predicate Valid()
      reads this
    {
      Consistent(loadLog, visited, depth)
    }

    constructor (web: map<string, Visit>, screenshotDir: string, textDir: string)
      ensures Valid()
      ensures this.web == web && this.screenshotDir == screenshotDir && this.textDir == textDir
      ensures visited == {} && loadLog == [] && depth == map[]
    {
      this.web := web;
      this.screenshotDir := screenshotDir;
      this.textDir := textDir;
      visited := {};
      loadLog := [];
      depth := map[];
    }

    /** What visiting `url` gives. */
    function VisitOf(url: string): Visit {
      if url in web then web[url] else Fatal
    }

    /** The checks `url` must pass before it is marked visited and loaded. */
    ghost predicate Admitted(url: string, baseDomain: string, maxDepth: int, currentDepth: int, seen: set<string>) {
      currentDepth <= maxDepth && url !in seen && InScope(Netloc(url), baseDomain)
    }

    /**
     * From visited set `v0` the crawl went on to `v1` and produced `m`: the
     * visited set only grew, every newly visited URL is in scope, and `m`
     * holds exactly the newly visited URLs that loaded successfully.
     */
    ghost predicate Grew(v0: set<string>, v1: set<string>, m: map<string, PageRecord>, baseDomain: string) {
      && v0 <= v1
      && (forall u :: u in v1 && u !in v0 ==> InScope(Netloc(u), baseDomain))
      && (forall u :: u in m <==> u in v1 && u !in v0 && VisitOf(u).Loaded?)
    }

    /** Every entry of `m` is the record built from what loading its URL gave. */
    ghost predicate Faithful(m: map<string, PageRecord>) {
      forall u :: u in m ==> VisitOf(u).Loaded? && IsPageRecord(u, VisitOf(u).capture, screenshotDir, textDir, m[u])
    }

    lemma FaithfulMerge(m1: map<string, PageRecord>, m2: map<string, PageRecord>)
      requires Faithful(m1) && Faithful(m2)
      ensures Faithful(m1 + m2)
    {
      forall u | u in m1 + m2
        ensures VisitOf(u).Loaded? && IsPageRecord(u, VisitOf(u).capture, screenshotDir, textDir, (m1 + m2)[u])
      {
        if u in m2 {
          assert (m1 + m2)[u] == m2[u];
        } else {
          assert (m1 + m2)[u] == m1[u];
        }
      }
    }

    /** A map holding only the record built for `url` is faithful. */
    lemma FaithfulOne(url: string, rec: PageRecord)
      requires VisitOf(url).Loaded? && IsPageRecord(url, VisitOf(url).capture, screenshotDir, textDir, rec)
      ensures Faithful(map[url := rec])
    {
      var m := map[url := rec];
      forall u | u in m
        ensures VisitOf(u).Loaded? && IsPageRecord(u, VisitOf(u).capture, screenshotDir, textDir, m[u])
      {
        assert u == url;
        assert m[u] == rec;
      }
    }

    /** Two crawl steps one after the other make one, with the merged results. */
    lemma GrewTrans(v0: set<string>, v1: set<string>, m1: map<string, PageRecord>,
                    v2: set<string>, m2: map<string, PageRecord>, baseDomain: string)
      requires Grew(v0, v1, m1, baseDomain) && Grew(v1, v2, m2, baseDomain)
      ensures Grew(v0, v2, m1 + m2, baseDomain)
    {
    }

    /**
     * A whole crawl from an empty visited set records only in-scope pages
     * that loaded, each as built from its load, each at a depth within the
     * limit, and each but the seed a link of a recorded page one level up.
     */
    lemma RecordedPages(url: string, baseDomain: string, maxDepth: int,
                        m: map<string, PageRecord>, v1: set<string>, depth: map<string, int>)
      requires Grew({}, v1, m, baseDomain) && Faithful(m)
      requires DepthsWithin({}, v1, depth, 0, maxDepth)
      requires Descends({}, v1, m, depth, url)
      ensures forall u :: u in m ==>
        && InScope(Netloc(u), baseDomain) && u in web && web[u].Loaded?
        && IsPageRecord(u, web[u].capture, screenshotDir, textDir, m[u])
      ensures forall u :: u in m ==> u in depth && 0 <= depth[u] <= maxDepth
      ensures forall u :: u in m && u != url ==> LinkedBelow(u, m, depth)
    {
    }

    /**
     * After a whole crawl from an empty visited set, every in-scope link
     * that loads, found on a page recorded above the depth limit, is
     * recorded too.
     */
    lemma LinksFollowed(baseDomain: string, maxDepth: int,
                        m: map<string, PageRecord>, v1: set<string>, depth: map<string, int>)
      requires Grew({}, v1, m, baseDomain)
      requires AllSettled(m, depth, v1, baseDomain, maxDepth)
      requires forall u :: u in m ==> u in depth
      ensures forall p, l :: (p in m && depth[p] < maxDepth && l in m[p].links &&
                              InScope(Netloc(l), baseDomain) && l in web && web[l].Loaded?) ==> l in m
    {
      forall p, l | p in m && depth[p] < maxDepth && l in m[p].links &&
        InScope(Netloc(l), baseDomain) && l in web && web[l].Loaded?
        ensures l in m
      {
        assert Settled(m[p].links, v1, baseDomain);
        assert VisitOf(l).Loaded?;
      }
    }

    /**
     * A whole crawl from an empty visited set records exactly the URLs the
     * reference crawl visits whose capture succeeds, at its depths.
     */
    lemma MatchesReference(url: string, baseDomain: string, maxDepth: int,
                           m: map<string, PageRecord>, v1: set<string>, depth: map<string, int>)
      requires Grew({}, v1, m, baseDomain)
      requires CrawlState(v1, depth) == CrawlRef(web, CrawlState({}, map[]), url, baseDomain, maxDepth, 0)
      ensures var s := CrawlRef(web, CrawlState({}, map[]), url, baseDomain, maxDepth, 0);
        depth == s.depth && forall u :: u in m <==> u in s.visited && u in web && web[u].Loaded?
    {
    }

    /**
     * `crawl_site` called with no visited set: what the whole crawl
     * records, at which depths, and that it is the reference crawl's result.
     */
    method CrawlFromScratch(url: string, baseDomain: string, maxDepth: int)
      returns (siteMap: map<string, PageRecord>, ghost d: map<string, int>)
      requires visited == {} && depth == map[] && Valid()
      modifies this
      ensures CrawlResult(web, url, baseDomain, maxDepth, screenshotDir, textDir, siteMap, d)
    {
      siteMap := CrawlSite(url, baseDomain, maxDepth, 0);
      d := depth;
      RecordedPages(url, baseDomain, maxDepth, siteMap, visited, d);
      LinksFollowed(baseDomain, maxDepth, siteMap, visited, d);
      MatchesReference(url, baseDomain, maxDepth, siteMap, visited, d);
    }

    /** Visiting one in-scope URL whose load fails produces nothing. */
    lemma GrewFatal(v: set<string>, url: string, baseDomain: string)
      requires url !in v && InScope(Netloc(url), baseDomain) && VisitOf(url).Fatal?
      ensures Grew(v, v + {url}, map[], baseDomain)
    {
    }

    /**
     * Crawls `url` at `currentDepth`: nothing when the depth limit is
     * exceeded, the URL is already visited or its host is out of scope;
     * otherwise the URL is marked visited and loaded, and on success its
     * record is kept and each of its links not yet visited is crawled one
     * level deeper. The result holds exactly the pages this call loaded
     * successfully; every other URL it visited is a link of one of them,
     * one level down, within the depth limit; and each URL is loaded at
     * most once over the crawl.
     */
    method CrawlSite(url: string, baseDomain: string, maxDepth: int, currentDepth: int)
      returns (siteMap: map<string, PageRecord>)
      requires Valid()
      modifies this
      decreases if currentDepth <= maxDepth then maxDepth - currentDepth + 1 else 0, 4
      ensures Valid() && old(loadLog) <= loadLog && Extends(old(depth), depth)
      ensures Grew(old(visited), visited, siteMap, baseDomain)
      ensures Faithful(siteMap)
      ensures DepthsWithin(old(visited), visited, depth, currentDepth, maxDepth)
      ensures Descends(old(visited), visited, siteMap, depth, url)
      ensures AllSettled(siteMap, depth, visited, baseDomain, maxDepth)
      ensures !Admitted(url, baseDomain, maxDepth, currentDepth, old(visited)) ==>
        siteMap == map[] && visited == old(visited)
      ensures Admitted(url, baseDomain, maxDepth, currentDepth, old(visited)) ==>
        url in visited && url in depth && depth[url] == currentDepth
      ensures Admitted(url, baseDomain, maxDepth, currentDepth, old(visited)) && VisitOf(url).Fatal? ==>
        siteMap == map[] && visited == old(visited) + {url}
      ensures Admitted(url, baseDomain, maxDepth, currentDepth, old(visited)) && VisitOf(url).Loaded? ==>
        url in siteMap
      ensures currentDepth == maxDepth ==> visited <= old(visited) + {url}
      ensures CrawlState(visited, depth) ==
        CrawlRef(web, CrawlState(old(visited), old(depth)), url, baseDomain, maxDepth, currentDepth)
    {
      if currentDepth > maxDepth || url in visited || !InScope(Netloc(url), baseDomain) {
        return map[];
      }
      siteMap := Enter(url, baseDomain, maxDepth, currentDepth);
      if currentDepth == maxDepth {
        OnlyRootAtLimit(old(visited), visited, siteMap, depth, url, currentDepth);
      }
    }

    /** Marks a new URL visited, logs its capture and records the depth it is crawled at. */
    method Mark(url: string, currentDepth: int)
      requires Valid() && url !in visited
      modifies this
      ensures Valid()
      ensures visited == old(visited) + {url} && loadLog == old(loadLog) + [url]
      ensures depth == old(depth)[url := currentDepth]
    {
      LogAppend(loadLog, visited, url);
      visited := visited + {url};
      loadLog := loadLog + [url];
      depth := depth[url := currentDepth];
    }

    /**
     * The admitted case of a crawl step: marks `url` visited, loads it, and
     * on success records it and follows its links.
     */
    method Enter(url: string, baseDomain: string, maxDepth: int, currentDepth: int)
      returns (siteMap: map<string, PageRecord>)
      requires Valid() && Admitted(url, baseDomain, maxDepth, currentDepth, visited)
      modifies this
      decreases maxDepth - currentDepth + 1, 3
      ensures Valid() && old(loadLog) <= loadLog && Extends(old(depth), depth)
      ensures Grew(old(visited), visited, siteMap, baseDomain)
      ensures Faithful(siteMap)
      ensures DepthsWithin(old(visited), visited, depth, currentDepth, maxDepth)
      ensures Descends(old(visited), visited, siteMap, depth, url)
      ensures AllSettled(siteMap, depth, visited, baseDomain, maxDepth)
      ensures url in visited && url in depth && depth[url] == currentDepth
      ensures VisitOf(url).Fatal? ==> siteMap == map[] && visited == old(visited) + {url}
      ensures VisitOf(url).Loaded? ==> url in siteMap
      ensures CrawlState(visited, depth) ==
        CrawlRef(web, CrawlState(old(visited), old(depth)), url, baseDomain, maxDepth, currentDepth)
    {
      ghost var v0, d0 := visited, depth;
      Mark(url, currentDepth);
      var visit := VisitOf(url);
      if visit.Fatal? {
        GrewFatal(v0, url, baseDomain);
        ExtendsAfterRecord(d0, url, currentDepth, depth);
        return map[];
      }
      var rec, text := GetPageDetails(url, visit.capture, screenshotDir, textDir);
      LinksOfUnique(visit.capture.anchors, rec.links);
      FaithfulOne(url, rec);
      ghost var v1 := visited;
      var children := FollowLinks(url, rec.links, baseDomain, maxDepth, currentDepth);
      GrewTrans(v0, v1, map[url := rec], visited, children, baseDomain);
      FaithfulMerge(map[url := rec], children);
      ExtendsAfterRecord(d0, url, currentDepth, depth);
      RecordStep(v0, visited, url, rec, children, depth, currentDepth, baseDomain, maxDepth);
      siteMap := map[url := rec] + children;
    }

    /**
     * What the loop over a page's links has established once it has handled
     * the first `k` links, from the visited set `v0`, depths `d0` and
     * capture log `log0` it started with, reaching `v`, `d` and `log`.
     */
    ghost predicate Followed(v0: set<string>, d0: map<string, int>, log0: seq<string>, links: seq<string>, k: nat,
                             siteMap: map<string, PageRecord>, v: set<string>, d: map<string, int>, log: seq<string>,
                             baseDomain: string, maxDepth: int, currentDepth: int)
      requires k <= |links|
    {
      && Consistent(log, v, d) && log0 <= log && Extends(d0, d)
      && Grew(v0, v, siteMap, baseDomain)
      && Faithful(siteMap)
      && DepthsWithin(v0, v, d, currentDepth + 1, maxDepth)
      && FollowedFrom(v0, v, siteMap, d, links, currentDepth + 1)
      && AllSettled(siteMap, d, v, baseDomain, maxDepth)
      && (currentDepth < maxDepth ==> Settled(links[..k], v, baseDomain))
      && (currentDepth == maxDepth ==> v == v0 && siteMap == map[])
    }

    /** A link already visited when its turn comes is skipped, and the loop's facts still hold. */
    lemma FollowedSkip(v0: set<string>, d0: map<string, int>, log0: seq<string>, links: seq<string>, k: nat,
                       siteMap: map<string, PageRecord>, v: set<string>, d: map<string, int>, log: seq<string>,
                       baseDomain: string, maxDepth: int, currentDepth: int)
      requires k < |links| && links[k] in v
      requires Followed(v0, d0, log0, links, k, siteMap, v, d, log, baseDomain, maxDepth, currentDepth)
      ensures Followed(v0, d0, log0, links, k + 1, siteMap, v, d, log, baseDomain, maxDepth, currentDepth)
    {
      if currentDepth < maxDepth {
        SettledAppend(links, k, v, baseDomain);
      }
    }

    /**
     * A link not yet visited is crawled one level deeper, going from `v1`,
     * `d1` and `log1` to `v2`, `d2` and `log2` and producing `child`; with
     * `child` merged in, the loop's facts still hold.
     */
    lemma FollowedStep(v0: set<string>, d0: map<string, int>, log0: seq<string>, links: seq<string>, k: nat,
                       siteMap: map<string, PageRecord>, v1: set<string>, d1: map<string, int>, log1: seq<string>,
                       child: map<string, PageRecord>, v2: set<string>, d2: map<string, int>, log2: seq<string>,
                       baseDomain: string, maxDepth: int, currentDepth: int)
      requires k < |links| && links[k] !in v1 && currentDepth <= maxDepth
      requires Followed(v0, d0, log0, links, k, siteMap, v1, d1, log1, baseDomain, maxDepth, currentDepth)
      requires Consistent(log2, v2, d2) && log1 <= log2 && Extends(d1, d2)
      requires Grew(v1, v2, child, baseDomain) && Faithful(child)
      requires DepthsWithin(v1, v2, d2, currentDepth + 1, maxDepth)
      requires Descends(v1, v2, child, d2, links[k])
      requires AllSettled(child, d2, v2, baseDomain, maxDepth)
      requires !Admitted(links[k], baseDomain, maxDepth, currentDepth + 1, v1) ==> child == map[] && v2 == v1
      requires Admitted(links[k], baseDomain, maxDepth, currentDepth + 1, v1) ==>
        links[k] in v2 && links[k] in d2 && d2[links[k]] == currentDepth + 1
      ensures Followed(v0, d0, log0, links, k + 1, siteMap + child, v2, d2, log2, baseDomain, maxDepth, currentDepth)
    {
      var link := links[k];
      GrewTrans(v0, v1, siteMap, v2, child, baseDomain);
      ExtendsTrans(d0, d1, d2);
      FaithfulMerge(siteMap, child);
      FollowStep(v0, v1, v2, siteMap, child, d1, d2, links, link, currentDepth + 1, baseDomain, maxDepth);
      if currentDepth < maxDepth {
        SettledGrows(links[..k], v1, v2, baseDomain);
        SettledAppend(links, k, v2, baseDomain);
      } else {
        assert child == map[] && siteMap + child == map[];
      }
    }

    /**
     * The loop over a captured page's links: each link not visited by the
     * time its turn comes is crawled one level deeper, and the results are
     * merged.
     */
    method FollowLinks(url: string, links: seq<string>, baseDomain: string, maxDepth: int, currentDepth: int)
      returns (siteMap: map<string, PageRecord>)
      requires Valid() && url in visited && currentDepth <= maxDepth
      modifies this
      decreases maxDepth - currentDepth + 1, 2
      ensures Valid() && old(loadLog) <= loadLog && Extends(old(depth), depth)
      ensures Grew(old(visited), visited, siteMap, baseDomain)
      ensures Faithful(siteMap)
      ensures url !in siteMap
      ensures DepthsWithin(old(visited), visited, depth, currentDepth + 1, maxDepth)
      ensures FollowedFrom(old(visited), visited, siteMap, depth, links, currentDepth + 1)
      ensures AllSettled(siteMap, depth, visited, baseDomain, maxDepth)
      ensures currentDepth < maxDepth ==> Settled(links, visited, baseDomain)
      ensures currentDepth == maxDepth ==> visited == old(visited) && siteMap == map[]
      ensures CrawlState(visited, depth) ==
        FollowRef(web, CrawlState(old(visited), old(depth)), links, |links|, baseDomain, maxDepth, currentDepth)
    {
      siteMap := map[];
      assert links[..0] == [];
      for k := 0 to |links|
        invariant Valid()
        invariant Followed(old(visited), old(depth), old(loadLog), links, k, siteMap, visited, depth, loadLog,
                           baseDomain, maxDepth, currentDepth)
        invariant CrawlState(visited, depth) ==
          FollowRef(web, CrawlState(old(visited), old(depth)), links, k, baseDomain, maxDepth, currentDepth)
      {
        FollowRefNext(web, CrawlState(old(visited), old(depth)), links, k, baseDomain, maxDepth, currentDepth);
        siteMap := FollowLink(links, k, siteMap, baseDomain, maxDepth, currentDepth, old(visited), old(depth), old(loadLog));
      }
      assert links[..|links|] == links;
    }

    /**
     * One turn of the loop over a page's links: `links[k]` is crawled one
     * level deeper unless it is visited by now, and its map is merged in.
     */
    method FollowLink(links: seq<string>, k: nat, siteMap: map<string, PageRecord>,
                      baseDomain: string, maxDepth: int, currentDepth: int,
                      ghost v0: set<string>, ghost d0: map<string, int>, ghost log0: seq<string>)
      returns (siteMap': map<string, PageRecord>)
      requires k < |links| && currentDepth <= maxDepth && Valid()
      requires Followed(v0, d0, log0, links, k, siteMap, visited, depth, loadLog, baseDomain, maxDepth, currentDepth)
      modifies this
      decreases maxDepth - currentDepth + 1, 1
      ensures Valid()
      ensures Followed(v0, d0, log0, links, k + 1, siteMap', visited, depth, loadLog, baseDomain, maxDepth, currentDepth)
      ensures links[k] in old(visited) ==> visited == old(visited) && depth == old(depth)
      ensures links[k] !in old(visited) ==>
        CrawlState(visited, depth) == CrawlRef(web, CrawlState(old(visited), old(depth)), links[k], baseDomain, maxDepth, currentDepth + 1)
    {
      if links[k] in visited {
        FollowedSkip(v0, d0, log0, links, k, siteMap, visited, depth, loadLog, baseDomain, maxDepth, currentDepth);
        return siteMap;
      }
      siteMap' := FollowNew(links, k, siteMap, baseDomain, maxDepth, currentDepth, v0, d0, log0);
    }

    /** The turn of that loop for a link not visited yet: it is crawled one level deeper and its map merged in. */
    method FollowNew(links: seq<string>, k: nat, siteMap: map<string, PageRecord>,
                     baseDomain: string, maxDepth: int, currentDepth: int,
                     ghost v0: set<string>, ghost d0: map<string, int>, ghost log0: seq<string>)
      returns (siteMap': map<string, PageRecord>)
      requires k < |links| && links[k] !in visited && currentDepth <= maxDepth && Valid()
      requires Followed(v0, d0, log0, links, k, siteMap, visited, depth, loadLog, baseDomain, maxDepth, currentDepth)
      modifies this
      decreases maxDepth - currentDepth + 1, 0
      ensures Valid()
      ensures Followed(v0, d0, log0, links, k + 1, siteMap', visited, depth, loadLog, baseDomain, maxDepth, currentDepth)
      ensures CrawlState(visited, depth) ==
        CrawlRef(web, CrawlState(old(visited), old(depth)), links[k], baseDomain, maxDepth, currentDepth + 1)
    {
      ghost var v1, d1, log1 := visited, depth, loadLog;
      var child := CrawlSite(links[k], baseDomain, maxDepth, currentDepth + 1);
      FollowedStep(v0, d0, log0, links, k, siteMap, v1, d1, log1, child, visited, depth, loadLog,
                   baseDomain, maxDepth, currentDepth);
      siteMap' := siteMap + child;
    }
  }

  /** The directory a crawl of `baseDomain` writes its artifacts under: for a host, `scrape/` and the host with its dots as underscores. */
  function SiteDir(baseDomain: string): (dir: string)
    ensures '/' !in baseDomain ==> StartsWith(dir, "scrape/") && '.' !in dir
  {
    var name := ReplaceAll(baseDomain, ".", "_");
    ReplaceCharGone(baseDomain, '.', "_");
    assert '/' !in baseDomain ==> '/' !in name by {
      if '/' !in baseDomain {
        ReplaceAllChars(baseDomain, ".", "_", '/');
      }
    }
    PathJoin("scrape", name)
  }

  /**
   * What a whole crawl from `url` with no visited set yields, `siteMap`
   * with the depth `d` of each page: every recorded page is in scope, was
   * captured, and carries the record built from its capture; a capturable
   * seed in scope is recorded at depth 0; every page sits at a depth from 0
   * to `maxDepth` and every one but the seed is a link of a recorded page
   * one level up; every in-scope, capturable link of a page recorded below
   * the limit is recorded; and the recorded pages and their depths are
   * exactly those of the reference crawl, in link order.
   */
  ghost predicate CrawlResult(web: map<string, Visit>, url: string, baseDomain: string, maxDepth: int,
                              screenshotDir: string, textDir: string, siteMap: map<string, PageRecord>, d: map<string, int>)
  {
    && (forall u :: u in siteMap ==>
          && InScope(Netloc(u), baseDomain) && u in web && web[u].Loaded?
          && IsPageRecord(u, web[u].capture, screenshotDir, textDir, siteMap[u]))
    && (InScope(Netloc(url), baseDomain) && maxDepth >= 0 && url in web && web[url].Loaded? ==> url in siteMap)
    && (forall u :: u in siteMap ==> u in d && 0 <= d[u] <= maxDepth)
    && (url in siteMap ==> url in d && d[url] == 0)
    && (forall u :: u in siteMap && u != url ==> LinkedBelow(u, siteMap, d))
    && (forall p, l :: (p in siteMap && p in d && d[p] < maxDepth && l in siteMap[p].links &&
                        InScope(Netloc(l), baseDomain) && l in web && web[l].Loaded?) ==> l in siteMap)
    && var s := CrawlRef(web, CrawlState({}, map[]), url, baseDomain, maxDepth, 0);
       d == s.depth && forall u :: u in siteMap <==> u in s.visited && u in web && web[u].Loaded?
  }

  /**
   * Crawls a site from its seed URL: the scope is the seed's own host, the
   * screenshots and texts go under `scrape/<host with dots as underscores>/`
   * in directories named after the screen width, and the visited set starts
   * empty. `depth` gives the level at which each recorded page was crawled.
   */
  method CreateSitemap(web: map<string, Visit>, url: string, maxDepth: int := 2, screenWidth: string := "1366")
    returns (siteMap: map<string, PageRecord>, ghost depth: map<string, int>)
    ensures CrawlResult(web, url, Netloc(url), maxDepth, PathJoin(SiteDir(Netloc(url)), "screens_" + screenWidth),
                        PathJoin(SiteDir(Netloc(url)), "texts_" + screenWidth), siteMap, depth)
  {
    var baseDomain := Netloc(url);
    var baseDir := SiteDir(baseDomain);
    var crawler := new SiteCrawler(web, PathJoin(baseDir, "screens_" + screenWidth), PathJoin(baseDir, "texts_" + screenWidth));
    siteMap, depth := crawler.CrawlFromScratch(url, baseDomain, maxDepth);
  }
}
