/**
 * What the Markdown scraper's worklist loop keeps true after every round,
 * stated for any reply function and any file-naming function. `reply(u)`
 * is what the conversion service answers for page `u`; `pathOf(u)` is the
 * file its Markdown is saved to. The loop takes an arbitrary pending URL;
 * a URL already scraped or not containing the seed is dropped; any other
 * URL is fetched and marked scraped, and when its reply is productive its
 * Markdown is saved and its links join the worklist.
 *
 * `order` is the sequence of URLs fetched so far in this call, in the
 * order they were fetched.
 */
module ScrapeWorklist {
  import opened Strings

  /** A reply of the HTTP API: status, body and the links a Markdown parser finds in the body. */
  datatype HttpReply = HttpReply(status: int, text: string, links: set<string>)

  /** Fetching `u` gives Markdown that is not empty, so it is saved and its links are followed. */
  predicate Productive(reply: string -> HttpReply, u: string) {
    reply(u).status == 200 && reply(u).text != ""
  }

  /** The worklist after `current` is taken out and, if its page had content, its links are added. */
  function NextPending(reply: string -> HttpReply, pending: set<string>, current: string): set<string> {
    (pending - {current}) + (if Productive(reply, current) then reply(current).links else {})
  }

  /** The files after `current` is saved, if its page had content. */
  function NextFiles(reply: string -> HttpReply, pathOf: string -> string,
                     files: map<string, string>, current: string): map<string, string>
  {
    if Productive(reply, current) then files[pathOf(current) := reply(current).text] else files
  }

  /** The files after the pages of `order` are saved one after the other, starting from `files`. */
  function SaveAll(reply: string -> HttpReply, pathOf: string -> string,
                   files: map<string, string>, order: seq<string>): map<string, string>
    decreases |order|
  {
    if order == [] then files
    else NextFiles(reply, pathOf, SaveAll(reply, pathOf, files, order[..|order| - 1]), order[|order| - 1])
  }

  /** `order[k]` is productive, saved to `p`, and no productive page fetched after it is saved to `p`. */
  ghost predicate SavedLast(reply: string -> HttpReply, pathOf: string -> string, order: seq<string>, k: int, p: string) {
    && 0 <= k < |order| && Productive(reply, order[k]) && pathOf(order[k]) == p
    && forall j :: k < j < |order| && Productive(reply, order[j]) ==> pathOf(order[j]) != p
  }

  /** No productive page of `order` is saved to `p`. */
  ghost predicate NeverSaved(reply: string -> HttpReply, pathOf: string -> string, order: seq<string>, p: string) {
    forall k :: 0 <= k < |order| && Productive(reply, order[k]) ==> pathOf(order[k]) != p
  }

  /** A file holds the Markdown of the last productive page saved under its name. */
  lemma {:induction false} SaveAllLast(reply: string -> HttpReply, pathOf: string -> string,
                                        files: map<string, string>, order: seq<string>, k: int, p: string)
    requires SavedLast(reply, pathOf, order, k, p)
    ensures p in SaveAll(reply, pathOf, files, order)
    ensures SaveAll(reply, pathOf, files, order)[p] == reply(order[k]).text
    decreases |order|
  {
    var n := |order| - 1;
    var init := order[..n];
    if k < n {
      assert SavedLast(reply, pathOf, init, k, p) by {
        forall j | k < j < |init| && Productive(reply, init[j]) ensures pathOf(init[j]) != p {
          assert init[j] == order[j];
        }
      }
      SaveAllLast(reply, pathOf, files, init, k, p);
      assert Productive(reply, order[n]) ==> pathOf(order[n]) != p;
    }
  }

  /** A file no productive page was saved to is as it was before. */
  lemma {:induction false} SaveAllKept(reply: string -> HttpReply, pathOf: string -> string,
                                        files: map<string, string>, order: seq<string>, p: string)
    requires NeverSaved(reply, pathOf, order, p)
    ensures p in SaveAll(reply, pathOf, files, order) <==> p in files
    ensures p in files ==> SaveAll(reply, pathOf, files, order)[p] == files[p]
    decreases |order|
  {
    if order != [] {
      var n := |order| - 1;
      var init := order[..n];
      assert NeverSaved(reply, pathOf, init, p) by {
        forall k | 0 <= k < |init| && Productive(reply, init[k]) ensures pathOf(init[k]) != p {
          assert init[k] == order[k];
        }
      }
      SaveAllKept(reply, pathOf, files, init, p);
      assert Productive(reply, order[n]) ==> pathOf(order[n]) != p;
    }
  }

  /** Every productive page fetched has a file under its name. */
  lemma {:induction false} SaveAllHasEvery(reply: string -> HttpReply, pathOf: string -> string,
                                            files: map<string, string>, order: seq<string>, k: int)
    requires 0 <= k < |order| && Productive(reply, order[k])
    ensures pathOf(order[k]) in SaveAll(reply, pathOf, files, order)
    decreases |order|
  {
    var n := |order| - 1;
    if k < n {
      assert order[..n][k] == order[k];
      SaveAllHasEvery(reply, pathOf, files, order[..n], k);
    }
  }

  /** Saving one more page is one more step of `SaveAll`. */
  lemma SaveAllAppend(reply: string -> HttpReply, pathOf: string -> string,
                      files: map<string, string>, order: seq<string>, current: string)
    ensures SaveAll(reply, pathOf, files, order + [current]) ==
            NextFiles(reply, pathOf, SaveAll(reply, pathOf, files, order), current)
  {
    assert (order + [current])[..|order|] == order;
  }

  /** `u` is a link of a productive page among the first `k` fetched. */
  ghost predicate LinkOfFetched(reply: string -> HttpReply, order: seq<string>, k: int, u: string) {
    exists j :: 0 <= j < k && j < |order| && Productive(reply, order[j]) && u in reply(order[j]).links
  }

  /** The first page fetched is the seed, and every later one is a link of a productive page fetched before it. */
  ghost predicate FetchChain(reply: string -> HttpReply, seed: string, order: seq<string>) {
    && (|order| > 0 ==> order[0] == seed)
    && forall k :: 0 < k < |order| ==> LinkOfFetched(reply, order, k, order[k])
  }

  /** Every pending URL is the seed or a link of a productive page fetched so far. */
  ghost predicate PendingReached(reply: string -> HttpReply, seed: string, order: seq<string>, pending: set<string>) {
    forall u :: u in pending ==> u == seed || LinkOfFetched(reply, order, |order|, u)
  }

  /** Every link of a productive page in `added` is pending, scraped, or does not contain the seed. */
  ghost predicate Closed(reply: string -> HttpReply, seed: string, added: set<string>,
                         pending: set<string>, seen: set<string>)
  {
    forall p, l :: p in added && Productive(reply, p) && l in reply(p).links ==>
      l in pending || l in seen || !Contains(l, seed)
  }

  /** `order` lists the URLs scraped since `s0`, each once, and each contains the seed. */
  ghost predicate Logged(seed: string, s0: set<string>, scraped: set<string>, order: seq<string>) {
    && Distinct(order) && Lists(order, scraped - s0)
    && forall k :: 0 <= k < |order| ==> Contains(order[k], seed)
  }

  /**
   * What holds of the worklist loop after any number of rounds, from the
   * scraped set `s0` and files `f0` it started with: the scraped set only
   * grew, by the URLs of `order`, each fetched once and each containing
   * the seed; the seed is pending or scraped; the fetches form a chain of
   * links from the seed and every pending URL extends it; links of the
   * pages fetched are pending, scraped or out of scope; and the files are
   * the old ones with the pages of `order` saved in turn.
   */
  ghost predicate Inv(reply: string -> HttpReply, pathOf: string -> string, seed: string,
                      s0: set<string>, f0: map<string, string>,
                      pending: set<string>, scraped: set<string>, files: map<string, string>, order: seq<string>)
  {
    && s0 <= scraped
    && Logged(seed, s0, scraped, order)
    && (seed in pending || seed in scraped)
    && Closed(reply, seed, scraped - s0, pending, scraped)
    && FetchChain(reply, seed, order)
    && PendingReached(reply, seed, order, pending)
    && files == SaveAll(reply, pathOf, f0, order)
  }

  /** Before the first round only the seed is pending and nothing has been fetched. */
  lemma InvStart(reply: string -> HttpReply, pathOf: string -> string, seed: string,
                 s0: set<string>, f0: map<string, string>)
    ensures Inv(reply, pathOf, seed, s0, f0, {seed}, s0, f0, [])
  {
    assert s0 - s0 == {};
  }

  /** Skipping a URL that is already scraped or does not contain the seed keeps the invariant. */
  lemma InvSkip(reply: string -> HttpReply, pathOf: string -> string, seed: string,
                s0: set<string>, f0: map<string, string>,
                pending: set<string>, scraped: set<string>, files: map<string, string>, order: seq<string>,
                current: string)
    requires current in pending
    requires current in scraped || !Contains(current, seed)
    requires Inv(reply, pathOf, seed, s0, f0, pending, scraped, files, order)
    ensures Inv(reply, pathOf, seed, s0, f0, pending - {current}, scraped, files, order)
  {
    assert seed in pending - {current} || seed in scraped by {
      ContainsPrefix(seed, seed);
    }
    assert Closed(reply, seed, scraped - s0, pending - {current}, scraped);
  }

  /** Fetching a URL that is new and contains the seed keeps the invariant. */
  lemma InvFetch(reply: string -> HttpReply, pathOf: string -> string, seed: string,
                 s0: set<string>, f0: map<string, string>,
                 pending: set<string>, scraped: set<string>, files: map<string, string>, order: seq<string>,
                 current: string)
    requires current in pending
    requires current !in scraped && Contains(current, seed)
    requires Inv(reply, pathOf, seed, s0, f0, pending, scraped, files, order)
    ensures Inv(reply, pathOf, seed, s0, f0, NextPending(reply, pending, current), scraped + {current},
                NextFiles(reply, pathOf, files, current), order + [current])
  {
    assert |order| > 0 ==> order[0] in scraped by {
      if |order| > 0 {
        assert order[0] in order;
      }
    }
    LoggedStep(seed, s0, scraped, order, current);
    ChainStep(reply, seed, order, pending, current, scraped);
    ClosedStep(reply, seed, s0, pending, scraped, current);
    SaveAllAppend(reply, pathOf, f0, order, current);
    assert seed in NextPending(reply, pending, current) || seed in scraped + {current};
  }

  /** Fetching a new URL that contains the seed appends it to the listing of the scraped URLs. */
  lemma LoggedStep(seed: string, s0: set<string>, scraped: set<string>, order: seq<string>, current: string)
    requires s0 <= scraped && current !in scraped && Contains(current, seed)
    requires Logged(seed, s0, scraped, order)
    ensures Logged(seed, s0, scraped + {current}, order + [current])
  {
    assert (scraped + {current}) - s0 == (scraped - s0) + {current};
    LogAppend(order, scraped - s0, current);
  }

  /** The links of the page just fetched are queued, so the links of all fetched pages stay accounted for. */
  lemma ClosedStep(reply: string -> HttpReply, seed: string, s0: set<string>,
                   pending: set<string>, scraped: set<string>, current: string)
    requires current in pending
    requires Closed(reply, seed, scraped - s0, pending, scraped)
    ensures Closed(reply, seed, (scraped + {current}) - s0, NextPending(reply, pending, current), scraped + {current})
  {
    assert (scraped + {current}) - s0 <= (scraped - s0) + {current};
  }

  /** A link of one of the first `k` pages fetched stays one when another page is fetched. */
  lemma LinkOfFetchedGrows(reply: string -> HttpReply, order: seq<string>, k: int, u: string, current: string)
    requires LinkOfFetched(reply, order, k, u)
    ensures LinkOfFetched(reply, order + [current], k, u)
  {
    var j :| 0 <= j < k && j < |order| && Productive(reply, order[j]) && u in reply(order[j]).links;
    assert (order + [current])[j] == order[j];
  }

  /** Fetching a pending URL extends the chain, and the links it brings in extend it in turn. */
  lemma ChainStep(reply: string -> HttpReply, seed: string, order: seq<string>, pending: set<string>,
                  current: string, scraped: set<string>)
    requires current in pending && current !in scraped
    requires |order| > 0 ==> order[0] in scraped
    requires FetchChain(reply, seed, order) && PendingReached(reply, seed, order, pending)
    ensures FetchChain(reply, seed, order + [current])
    ensures PendingReached(reply, seed, order + [current], NextPending(reply, pending, current))
  {
    var order' := order + [current];
    forall k | 0 < k < |order'| ensures LinkOfFetched(reply, order', k, order'[k]) {
      if k < |order| {
        assert order'[k] == order[k];
        LinkOfFetchedGrows(reply, order, k, order[k], current);
      } else {
        LinkOfFetchedGrows(reply, order, |order|, current, current);
      }
    }
    forall u | u in NextPending(reply, pending, current) && u != seed
      ensures LinkOfFetched(reply, order', |order'|, u)
    {
      if u in pending {
        LinkOfFetchedGrows(reply, order, |order|, u, current);
        var j :| 0 <= j < |order| && j < |order'| && Productive(reply, order'[j]) && u in reply(order'[j]).links;
      } else {
        assert order'[|order|] == current;
      }
    }
  }

  /** When the worklist is empty, every link of a productive page fetched is scraped or out of scope. */
  lemma InvDone(reply: string -> HttpReply, pathOf: string -> string, seed: string,
                s0: set<string>, f0: map<string, string>,
                scraped: set<string>, files: map<string, string>, order: seq<string>)
    requires Inv(reply, pathOf, seed, s0, f0, {}, scraped, files, order)
    ensures s0 <= scraped && seed in scraped
    ensures Distinct(order) && Lists(order, scraped - s0)
    ensures forall k :: 0 <= k < |order| ==> Contains(order[k], seed)
    ensures Closed(reply, seed, scraped - s0, {}, scraped)
    ensures FetchChain(reply, seed, order)
    ensures files == SaveAll(reply, pathOf, f0, order)
  {
  }

  /** Scraping one more URL of the finite universe leaves fewer URLs to scrape. */
  lemma ScrapedOneMore(universe: set<string>, scraped: set<string>, current: string)
    requires current in universe && current !in scraped
    ensures |scraped + {current}| == |scraped| + 1
    ensures |universe - (scraped + {current})| < |universe - scraped|
  {
    assert universe - (scraped + {current}) == (universe - scraped) - {current};
  }
}
