# Site crawler, Markdown scraper and common-block stripper in Dafny

This project models the core of a small set of website-capture scripts and proves properties of that model.

- **Site crawl** (`create_site_map.py`). This is a depth-first crawl from a seed URL.
  - Only pages whose host is the base domain or one of its subdomains are crawled.
  - Each URL is marked visited before it is captured, and the crawl calls `get_page_details` on it at most once. That call navigates to the page twice: once for the measurements and the screenshot, and once for the text.
  - A captured page is recorded with:
    - its links: every `http…` anchor, without duplicates, sorted;
    - the status and size from a plain request, made at most three times (so retried at most twice) with exponential back-off;
    - the file names of its screenshot and its Markdown text.
  - The page's links are followed one level deeper, up to `max_depth`. Each recorded page other than the seed is a link of a recorded page one level up.
  - The links are followed in their recorded, sorted order, and a link is skipped when an earlier branch has visited it by the time its turn comes. So the first branch to reach a URL fixes its depth. A reference crawl, the pure functions `CrawlRef` and `FollowRef` on the visited set and the depths, states this order, and the crawler's methods are proved to leave exactly its state.
- **Markdown scraper** (`crawl2markdown.py`). This is a worklist loop.
  - It takes arbitrary URLs out of the worklist.
  - It skips a URL that was already scraped, or that does not contain the seed URL as a substring.
  - Otherwise it fetches the URL's Markdown through the `dhr` or `jina` conversion service, saves it under `<base>/<host without www., dots as _>/<path>.md`, and adds the links found in it to the worklist.
  - Sitemap resolution walks a sitemap index down to its URL-listing documents.
- **Common-block stripping** (`strip_common.py`).
  - It counts, for every run of at least `min_block_size` consecutive lines, how many files contain it.
  - A run is kept as a common block when at least 80% of the files contain it.
  - Each file is then scanned left to right. The scan skips the first common block that starts at the current line, or keeps the line.

The outside world is passed in as values:
- the browser is a map from URL to what one `get_page_details` call on it yields: a `Capture`, or a `WebDriverException`;
- the conversion API is a map from request address to reply;
- sitemap documents form a finite tree;
- Markdown files are a map from file name to lines.

State that the scripts change in place is modelled as a class with `modifies` clauses:
- the crawl's shared `visited` set (`SiteCrawl.SiteCrawler`);
- the scraper's `scraped_urls` and the files it writes (`MarkdownScraper.Scraper`);
- the sitemap collector's `collected_urls` (`SitemapIndex.SitemapCollector`).

Loops are `while`/`for` loops proved against specification functions:
- the scraper's worklist invariant is stated in `ScrapeWorklist`;
- the common-block count and the scan are proved against `StripCommon.CommonBlocks` and `StripCommon.Clean`.

Behaviour of the code that the model keeps, although it may surprise a reader:
- `save_markdown` removes `www.` wherever it occurs in the host, not only as the prefix its comment mentions (crawl2markdown.py:36-37).
- The scraper's scope test is a substring test on the whole URL, not a host test (crawl2markdown.py:59).
- `/` and `/index`, and `/s/` and `/s`, are saved to the same file, so the page fetched later overwrites the earlier one.
- The crawler gives the `http://` and `https://` forms of a page the same artifact names.

Files:
- `wrappers.dfy`: `Option` and `Result`.
- `strings.dfy`: the Python string operations the scripts use.
- `urls.dfy`: `urlparse` netloc and path, and the crawler's scope rule.
- `links.dfy`, `retry.dfy`, `artifacts.dfy`, `site_crawl.dfy`: the site crawl.
- `scrape_worklist.dfy`, `markdown_scraper.dfy`: the Markdown scraper.
- `sitemap_index.dfy`: sitemap resolution.
- `strip_common.dfy`: common-block stripping.

## Model

| member | source | states |
|---|---|---|
| Strings.Strip | crawl2markdown.py:42 | `strip('/')` leaves neither end equal to the stripped character and never lengthens the text |
| Strings.StripFrame | crawl2markdown.py:42 | the stripped text occurs in the original with nothing but the stripped character before and after it |
| Strings.PathJoin | crawl2markdown.py:38 | `os.path.join` ends with its second part and starts with its first when the second is relative |
| Strings.JoinSplit | create_site_map.py:82-84 | joining the lines split at `\n` gives back the original text |
| Strings.LexLessTotal | create_site_map.py:129 | the string order `sorted` uses is total on distinct strings (with `LexLessTransitive` and `LexLessIrreflexive`, a strict total order) |
| Urls.Netloc | create_site_map.py:147 | the network location contains no `/`, `?` or `#` |
| Urls.UrlPath | crawl2markdown.py:42 | the path holds no query or fragment and, after a non-empty network location, starts with `/` |
| Urls.UrlParts | create_site_map.py:147 | a URL built from a scheme, a host and a remainder parses back into that host and the remainder's path |
| Urls.ScopeOnDotBoundary | create_site_map.py:148 | a host ending in the base domain is in scope exactly when the part before it is empty or ends with a dot |
| Urls.LookalikeHostRejected | create_site_map.py:148 | `evilexample.com` is out of scope for `example.com` and `www.example.com` is in scope |
| Urls.ScopeTransitive | create_site_map.py:148 | a subdomain of an in-scope host is in scope |
| Artifacts.ArtifactName | create_site_map.py:102 | an artifact file name ends with its extension and contains no `/` before it |
| Artifacts.ArtifactNameOfHttpsUrl | create_site_map.py:79 | for an `https://` URL, the name is the rest of the URL with `/` turned into `_`, plus the extension |
| Artifacts.SchemesShareArtifactName | create_site_map.py:79 | the `http://` and `https://` forms of a page get the same file name, so one capture overwrites the other |
| Artifacts.FirstHeading | create_site_map.py:83 | the index found is the first line starting with `#`, or the number of lines when no line does |
| Artifacts.TrimToFirstHeading | create_site_map.py:82-84 | the trimmed Markdown is a suffix of the original text |
| Artifacts.TrimStartsAtHeading | create_site_map.py:82-84 | the trimmed text is empty exactly when no line is a heading; otherwise it starts with `#` and is the lines from the first heading on |
| Artifacts.TrimKeepsHeadedText | create_site_map.py:82-84 | a text that already starts with `#` is kept whole |
| Links.SortStrings | create_site_map.py:129 | `sorted` of a set is strictly increasing and holds exactly the set's elements, each once |
| Links.LinksOfUnique | create_site_map.py:107-129 | exactly one link list meets the extraction rule for a page's anchors: the sorted set of its present `http` hrefs, which the reference crawl follows |
| Links.SortedUnique | create_site_map.py:129 | two strictly sorted sequences with the same elements are equal, so the sorted link list is determined by the set |
| Links.CollectLinks | create_site_map.py:107-115 | the recorded links are exactly the present `href`s starting with `http`; stale and missing ones are skipped; the list is sorted without duplicates |
| Retry.VerifyWithRetry | create_site_map.py:117-138 | the loop follows the retry policy: it retries only after transient errors, makes at most 3 requests and sleeps 2^k after the k-th transient failure; the last reply decides status and size |
| Retry.RetryDeterministic | create_site_map.py:117-138 | the policy leaves no freedom: two outcomes that both follow it for the same replies are equal |
| Retry.ExhaustionDegrades | create_site_map.py:130-138 | three transient failures give no status and no size after 3 requests, with sleeps 1, 2 and 4 |
| Retry.UnexpectedStopsAtOnce | create_site_map.py:133-135 | any other error ends the loop at once, with no status or size and no sleep for it |
| SiteCrawl.GetPageDetails | create_site_map.py:89-138 | the record holds the extracted links, the measured load time and size, the artifact paths and the retried status, and the text is the trimmed Markdown |
| SiteCrawl.SiteCrawler.constructor | create_site_map.py:141-142 | a crawl starts with an empty visited set |
| SiteCrawl.SiteCrawler.CrawlSite | create_site_map.py:140-179 | an over-deep, visited or out-of-scope URL changes nothing; otherwise the URL is marked visited at the current depth; visited only grows, by in-scope URLs; the result is exactly the newly visited URLs that were captured, each with its page's record; a capture that raises `WebDriverException` marks the URL visited and records nothing; every newly visited URL sits at a depth between the current one and `max_depth`, and every one but the root is a link of a recorded page one level up; every recorded page below the limit has all its links visited or out of scope; at the limit nothing but the root is visited; the capture log lists the visited set without repeats, so no URL is captured twice; the visited set and depths it leaves are exactly those of the reference crawl `CrawlRef` from the state it started in |
| SiteCrawl.SiteCrawler.Enter | create_site_map.py:151-179 | an admitted URL is marked visited at the current depth and captured once; a failed capture adds only it to the visited set and records nothing; a successful one records it with its page's record and follows its links, with the same depth, descent and settled-links facts as `CrawlSite`; the visited set and depths it leaves are those of `CrawlRef` |
| SiteCrawl.SiteCrawler.FollowLinks | create_site_map.py:175-177 | the links of a captured page are crawled one level deeper; each URL this visits is one of the links or a link of a page it records one level up; below the depth limit every link ends up visited or out of scope; at the limit nothing is visited; the page itself is not re-recorded; the visited set and depths it leaves are those of `FollowRef` over all the links in their recorded order, from the state it started in |
| SiteCrawl.SiteCrawler.FaithfulMerge | create_site_map.py:177 | merging two site maps with `update` keeps every entry equal to the record built from its page |
| SiteCrawl.SiteCrawler.GrewTrans | create_site_map.py:175-177 | proof step of `SiteCrawler.Enter` and `SiteCrawler.FollowedStep`: two crawl steps in sequence add up to one step with the merged site map |
| SiteCrawl.OnlyRootAtLimit | create_site_map.py:143 | a crawl that starts at the depth limit, where every visit other than the root would be one level beyond it, visits nothing but its root |
| SiteCrawl.FollowStep | create_site_map.py:175-177 | proof step of `SiteCrawler.FollowedStep`: after one more link is crawled and its map merged, every URL the loop visited is one of the links at the next depth or a link of a recorded page one level up, and every recorded page below the limit stays settled |
| SiteCrawl.RecordStep | create_site_map.py:162-179 | proof step of `SiteCrawler.Enter`: recording a page ahead of the maps of its links keeps the depths within bounds and makes every newly visited URL but the page a link of a recorded page one level up |
| SiteCrawl.SiteCrawler.Mark | create_site_map.py:151 | marking a new URL visited adds exactly it to the visited set and to the end of the capture log, and sets its depth |
| SiteCrawl.SiteCrawler.RecordedPages | create_site_map.py:140-179 | a whole crawl from an empty visited set records only in-scope captured pages, each with its record, each at a depth within the limit and each but the seed linked from a recorded page one level up |
| SiteCrawl.SiteCrawler.LinksFollowed | create_site_map.py:175-177 | after a whole crawl, every in-scope capturable link of a page recorded below the limit is recorded |
| SiteCrawl.CreateSitemap | create_site_map.py:181-204 | every URL in the site map is in the seed host's scope, was captured, and carries the record built under `scrape/<host>/screens_<w>` and `texts_<w>`; a capturable seed is recorded at depth 0; every recorded page sits at a depth from 0 to `max_depth` and every one but the seed is a link of a recorded page one level up; every in-scope, capturable link of a page recorded below `max_depth` is recorded too; the recorded pages are exactly the URLs the reference crawl `CrawlRef` visits from an empty state whose capture succeeds, and the depths are its depths |
| SiteCrawl.SiteCrawler.CrawlFromScratch | create_site_map.py:140-179 | a crawl from an empty visited set records only in-scope captured pages with their records, the capturable seed at depth 0, every page within the depth limit and linked from a page one level up, every in-scope capturable link of a page below the limit, and exactly the pages and depths of `CrawlRef` |
| SiteCrawl.SiteCrawler.MatchesReference | create_site_map.py:140-179 | when the crawl's visited set and depths are those of `CrawlRef` from an empty state, the recorded pages are exactly the reference's visited URLs whose capture succeeds |
| SiteCrawl.SiteCrawler.FollowLink | create_site_map.py:175-177 | one turn of the link loop: a link visited by now changes nothing; any other leaves the visited set and depths that `CrawlRef` gives for it one level deeper; the loop's facts then hold for one more link |
| SiteCrawl.SiteCrawler.FollowNew | create_site_map.py:176-177 | a link not visited yet is crawled one level deeper, leaving the state `CrawlRef` gives, and its map is merged in |
| SiteCrawl.SiteCrawler.FollowedStep | create_site_map.py:175-177 | proof step of `SiteCrawler.FollowNew`: the loop's facts hold for one more link after that link's crawl |
| SiteCrawl.SiteCrawler.FollowedSkip | create_site_map.py:176 | proof step of `SiteCrawler.FollowLink`: skipping a visited link keeps the loop's facts for one more link |
| SiteCrawl.CrawlRefGrows | create_site_map.py:143-177 | the reference crawl only adds to the visited set, never changes a depth once recorded, keeps depths for exactly the visited URLs, and gives an admitted URL the current depth |
| SiteCrawl.FollowRefGrows | create_site_map.py:175-177 | the reference loop over links only adds to the visited set and keeps every recorded depth |
| SiteCrawl.FollowRefMonotone | create_site_map.py:175-177 | handling more of the links only adds to what fewer links left, depths included |
| SiteCrawl.FirstBranchWins | create_site_map.py:175-177 | the first branch to reach a URL wins: a link visited before its turn keeps the depth it was first reached at, and one not visited by then ends at one level below the page when it is in scope and the limit allows |
| SiteCrawl.FirstBranchExample | create_site_map.py:143-177 | with links `s -> [a, b]`, `a -> [b]`, `b -> [c]` and a limit of 2, following `s`'s links visits `a` at depth 1 and `b` at depth 2 (reached through `a`), and never `c` |
| SiteCrawl.ExampleFromA | create_site_map.py:143-177 | step of `FirstBranchExample`: crawling `a` at depth 1 visits `a` and `b` and nothing else |
| SiteCrawl.ExampleFromB | create_site_map.py:143-177 | step of `FirstBranchExample`: crawling `b` at the limit visits `b` and does not go on to `c` |
| SiteCrawl.SiteDir | create_site_map.py:193 | for a host (no `/`), the crawl's directory starts with `scrape/` and has no dot left: the host's dots become underscores |
| MarkdownScraper.ApiUrl | crawl2markdown.py:8-16 | a request address exists exactly for `dhr` and `jina`; it is an `https://` address ending with the page URL |
| MarkdownScraper.ApiUrlInjective | crawl2markdown.py:11-14 | different pages on one service are requested at different addresses |
| MarkdownScraper.ServicesDisjoint | crawl2markdown.py:11-14 | the two services are never asked at the same address |
| MarkdownScraper.FetchMarkdown | crawl2markdown.py:8-23 | an unknown service fails; otherwise the body comes back exactly when the status is 200 |
| MarkdownScraper.DomainDir | crawl2markdown.py:37 | the domain directory contains no dot |
| MarkdownScraper.DomainDirDropsInnerWww | crawl2markdown.py:36-37 | `www.` is removed inside a host too (`awww.b` gives `ab`), not only as the prefix the comment mentions |
| MarkdownScraper.DomainDirDropsLeadingWww | crawl2markdown.py:37 | `www.a.b` gives `a_b` |
| MarkdownScraper.FileName | crawl2markdown.py:41-47 | every file name is flat (no `/`) and ends with `.md` |
| MarkdownScraper.EndsWithSlashBranchDead | crawl2markdown.py:42-43 | after `strip('/')` the path never ends with `/`, so that half of the test never holds |
| MarkdownScraper.IndexFileForEmptyPath | crawl2markdown.py:43-44 | a path that strips to nothing is saved as `index.md` |
| MarkdownScraper.RootFileIsIndex | crawl2markdown.py:42-44 | the site root `/` is saved as `index.md` |
| MarkdownScraper.SegmentFile | crawl2markdown.py:42-47 | a one-segment path `/s` is saved as `s.md` |
| MarkdownScraper.RootAndIndexShareFile | crawl2markdown.py:42-47 | `/` and `/index` are saved to the same file, so the later one overwrites the earlier |
| MarkdownScraper.TrailingSlashSameFile | crawl2markdown.py:42 | `/s/` and `/s` are saved to the same file |
| MarkdownScraper.MarkdownPath | crawl2markdown.py:35-47 | the saved path ends with the file name derived from the URL's path |
| MarkdownScraper.SubstringScopeAdmitsOtherHosts | crawl2markdown.py:59-60 | the scope test admits a URL on any host whose query embeds the seed |
| MarkdownScraper.Scraper.constructor | crawl2markdown.py:124 | a session starts with no scraped URLs and no files |
| MarkdownScraper.Scraper.ScrapePage | crawl2markdown.py:62-69 | on a known service the page is fetched, marked scraped and appended to the fetch order; the worklist becomes `NextPending` (the URL removed, its links added when its content is not empty) and the files become `NextFiles` (its content saved under its file name when not empty); an unknown service fails without changing anything |
| MarkdownScraper.Scraper.SaveAndQueue | crawl2markdown.py:63-67 | content that is not empty is saved under the page's file name and its links join the worklist; the page leaves the worklist either way |
| MarkdownScraper.Scraper.FetchedReply | crawl2markdown.py:18-23 | on a known service the fetch succeeds, gives non-empty content exactly when the page is productive, and that content is the reply's body |
| MarkdownScraper.Scraper.NextPendingWithin | crawl2markdown.py:66-67 | a fetch adds to the worklist only links that some reply of the API carries, so the worklist stays inside a finite universe |
| MarkdownScraper.Scraper.ScrapeFrom | crawl2markdown.py:52-69 | scraped only grows, by exactly the URLs of the fetch order, each once and each containing the seed; the seed ends up scraped and is fetched first when it was new; each later fetch is a link of a productive page fetched before it; every link of a productive fetched page ends up scraped or without the seed; each file holds the Markdown of the last productive page saved under its name, and a file no productive page was saved to is as before; an unknown service fails before recording anything unless the seed was already scraped |
| MarkdownScraper.Scraper.ScrapeSite | crawl2markdown.py:52-69 | the `ScrapeFrom` guarantees, stated for the session's scraped set and files, which it updates in place |
| ScrapeWorklist.InvStart | crawl2markdown.py:53 | the worklist invariant holds with only the seed pending, nothing fetched and the files as they were |
| ScrapeWorklist.InvSkip | crawl2markdown.py:57-60 | skipping a URL that is already scraped or out of scope keeps the invariant |
| ScrapeWorklist.InvFetch | crawl2markdown.py:62-69 | fetching a new URL that contains the seed keeps the invariant, with the worklist advanced by `NextPending`, the files by `NextFiles` and the URL appended to the fetch order |
| ScrapeWorklist.LoggedStep | crawl2markdown.py:62-69 | proof step of `ScrapeWorklist.InvFetch`: a fetched URL that is new and contains the seed extends the fetch order, which still lists the new scraped URLs once each |
| ScrapeWorklist.ChainStep | crawl2markdown.py:55-67 | fetching a pending URL keeps the fetch order a chain of links from the seed, and every URL then pending is the seed or a link of a fetched productive page |
| ScrapeWorklist.ClosedStep | crawl2markdown.py:66-69 | after a fetch, every link of a productive fetched page is pending, scraped or out of scope |
| ScrapeWorklist.SaveAllLast | crawl2markdown.py:49-50 | a file holds the Markdown of the last productive page saved under its name |
| ScrapeWorklist.SaveAllKept | crawl2markdown.py:49-50 | a file no productive page was saved to is present and unchanged exactly when it was before |
| ScrapeWorklist.SaveAllHasEvery | crawl2markdown.py:49-50 | every productive page fetched has a file under its name |
| ScrapeWorklist.InvDone | crawl2markdown.py:55 | with an empty worklist the seed is scraped, the fetch order lists the new scraped URLs once each and forms a chain of links from the seed, every link of a productive fetched page is scraped or out of scope, and the files are the old ones with the fetched pages saved in order |
| ScrapeWorklist.ScrapedOneMore | crawl2markdown.py:55-69 | each fetch leaves fewer URLs of the finite universe unscraped, so the loop ends |
| SitemapIndex.ChildUrlsMember | crawl2markdown.py:81-83 | an index collects a URL exactly when one of its children does |
| SitemapIndex.SitemapUrls | crawl2markdown.py:72-91 | a failed fetch yields no URL, a plain document exactly its `<loc>` texts, and an index every URL each of its children yields (and, by `ChildUrlsMember`, nothing else) |
| SitemapIndex.SitemapUrlsAreLeafLocs | crawl2markdown.py:72-91 | resolution collects exactly the `<loc>` texts of the plain documents reachable from the start through index entries |
| SitemapIndex.UnavailableChildAddsNothing | crawl2markdown.py:90-91 | when the first `n` children of an index could not be fetched, they contribute no URL |
| SitemapIndex.SitemapCollector.constructor | crawl2markdown.py:95 | collection starts from an empty set |
| SitemapIndex.SitemapCollector.Resolve | crawl2markdown.py:72-91 | the collected set grows by exactly the URLs the document resolves to |
| SitemapIndex.SitemapCollector.ResolveAll | crawl2markdown.py:93-100 | the result is exactly the URLs the root sitemap's entries resolve to, with the entries treated as children of an index |
| StripCommon.CountFile | strip_common.py:26-33 | one file raises the count of each of its distinct blocks by exactly one, however often the block recurs in it |
| StripCommon.OccurrencesStep | strip_common.py:31-33 | adding a file raises a block's count by one exactly when the file contains the block |
| StripCommon.FindCommonBlocks | strip_common.py:15-39 | the result is exactly the blocks contained in at least 80% of the files |
| StripCommon.CommonBlockIsSlice | strip_common.py:28-30 | every common block is a run of at least `min_block_size` consecutive lines of some file |
| StripCommon.OccurrencesBounded | strip_common.py:27-33 | no count exceeds the number of files |
| StripCommon.CommonIffThreshold | strip_common.py:35-37 | with files, a block is common exactly when `5*count >= 4*n`; with no files nothing is common |
| StripCommon.UniversalBlockIsCommon | strip_common.py:35-37 | a block every file contains is common |
| StripCommon.FirstMatch | strip_common.py:59-65 | the block chosen is the earliest one in iteration order that matches at the index; there is none exactly when no block matches |
| StripCommon.FirstBlockAt | strip_common.py:59-65 | the inner loop stops at exactly that first matching block |
| StripCommon.ScanStep | strip_common.py:57-69 | with non-empty blocks, every pass moves the index forward and stays within the file |
| StripCommon.CleanFile | strip_common.py:53-71 | the scan of one file produces the lines `Clean` keeps |
| StripCommon.RemoveCommonBlocks | strip_common.py:41-73 | the cleaned files have exactly the original file names, each cleaned with the same block order |
| StripCommon.CleanIsSubsequence | strip_common.py:57-69 | a cleaned file is the original with some lines left out, in order, and never longer |
| StripCommon.CleanWithoutMatches | strip_common.py:66-69 | when no block matches anywhere, the file comes back unchanged |
| StripCommon.NoBlocksNoChange | strip_common.py:58-69 | with no common blocks, every file comes back unchanged |
| StripCommon.Enumerate | strip_common.py:59 | the set's iteration order lists each common block exactly once |
| StripCommon.CommonBlocksNonEmpty | strip_common.py:29 | with `min_block_size >= 1`, no common block is empty |
| StripCommon.ProcessMarkdownDirectory | strip_common.py:82-93 | the same file names come back, each file cleaned of the common blocks in one iteration order and a subsequence of the original |
| StripCommon.EmptySliceIsBlock | strip_common.py:29 | with `min_block_size == 0`, the empty slice is a block of every non-empty file |
| StripCommon.EmptyBlockStallsScan | strip_common.py:57-65 | with `min_block_size == 0`, the empty block is common for two one-line files, and a scan that tries it first never leaves index 0 |

## Left out

- Browser automation is left out: page-load waiting, cookie banners, screenshots, scrolling and DOM queries. A captured page is given as a `Capture` value.
- SiteCrawl.GetPageDetails: the two navigations of one call (create_site_map.py:91 for the measurements and screenshot, and create_site_map.py:74 inside `save_text_content` for the text) are merged into one `Capture`, so a page that changes between them is not modelled.
- SiteCrawl.SiteCrawler.CrawlSite: only `WebDriverException` is caught (create_site_map.py:155). Other exceptions propagate out of `crawl_site` and end the whole crawl: an `OSError` from the file writes at create_site_map.py:29-30 and :85-86, and a `KeyError` when the layout metrics lack `contentSize`, `width` or `height` (create_site_map.py:98-100). The model has only the two outcomes `Loaded` and `Fatal`.
- Foreign parsers are left out: `html2text`, MarkdownIt with BeautifulSoup, and the XML parsers. Their outputs are given:
  - the Markdown of a page;
  - the links of a reply;
  - the sitemap document tree.
- Timing is left out. The load time is part of the `Capture`. The back-off sleeps are returned as a list of requested durations instead of being slept.
- Retry.VerifyWithRetry: the content size is kept in bytes; the division into megabytes, a float, is not modelled.
- File and JSON I/O is left out:
  - directory creation;
  - `read_markdown_files` and `write_cleaned_files`;
  - the JSON dump.
- The scraper's writes are modelled as a map from path to contents, which the session holds. The crawler's Markdown text is returned rather than written.
- Logging, argument parsing, `main` and the `__main__` blocks are left out. This includes the loop in `main` that scrapes every sitemap URL not yet scraped (crawl2markdown.py:129-134).
- `check_links.py` is left out. It only issues requests and logs their results.
- `load_additional_pages_from_sitemap` is not modelled. It calls `crawl_site` without its `base_domain` argument, so as written it raises `TypeError` before crawling anything.
- `get_sitemap_urls` is left out: the fetch of `/sitemap.xml` and the `urljoin` that builds its address. `SitemapCollector.ResolveAll` receives the documents behind its `<loc>` entries directly; a failed fetch gives no entries.
- SitemapIndex.SitemapUrls: the document tree is finite. An index that refers back to itself, on which the source recurses without end, cannot be expressed. A `<sitemap>` entry without `<loc>`, which raises in the source, is not modelled either.
- Exceptions raised by `requests.get` itself are not modelled: connection errors in `fetch_markdown` and during sitemap fetches. Every request gets a reply.
- Urls.UrlPath: only the netloc and path of `urlparse` are modelled. The `;params` part of the last path segment stays in the path, and malformed IPv6 hosts are not rejected. `urlsplit` first strips leading C0 control and space characters and removes every tab, carriage return and newline; the model parses the URL as given.
- StripCommon.FindCommonBlocks: a negative `min_block_size` is not modelled. With it, Python's negative slice ends count from the end of the file. The block size is a `nat`.
- Strings are sequences of code points. Encodings and file-system case rules are not modelled.

## Findings

| source | as written | input that shows it | evidently intended | confidence | as-written member | corrected member |
|---|---|---|---|---|---|---|
| strip_common.py:29 | `range(i + min_block_size, len(lines) + 1)` with `min_block_size = 0` counts the empty slice as a block of every non-empty file. The empty block then becomes common, and at line 63 `i += 0` leaves the scan at the same index for ever. | `--min-block-size 0` with two files `["x"]` and `["y"]`: the only common block is `()` | the block size is at least 1, so every common block is non-empty and the scan always advances | not executed | StripCommon.EmptyBlockStallsScan | StripCommon.ProcessMarkdownDirectory |
