/**
 * Sitemap resolution (`fetch_all_sitemap_urls` and its inner
 * `get_sitemap_urls_recursive`). The documents behind the sitemap URLs
 * are given as a finite tree: fetching a URL either fails or yields a
 * parsed document with its `<sitemap>` children (already resolved to the
 * documents their `<loc>` points at) and its `<loc>` texts.
 */
module SitemapIndex {
  import opened Wrappers

  /** What fetching one sitemap URL gives. */
  datatype SitemapDoc =
    | Unavailable                                               // status other than 200
    | Document(sitemaps: seq<SitemapDoc>, locs: seq<string>)

  /** A document with at least one `<sitemap>` entry is a sitemap index. */
  predicate IsIndex(doc: SitemapDoc) {
    doc.Document? && |doc.sitemaps| > 0
  }

  /**
   * The URLs one resolution adds: nothing for a failed fetch, the union of
   * the children's URLs for an index (its own `<loc>` texts name the
   * children and are not collected), and every `<loc>` text otherwise.
   */
  function SitemapUrls(doc: SitemapDoc): (urls: set<string>)
    ensures doc.Unavailable? ==> urls == {}
    ensures doc.Document? && !IsIndex(doc) ==> forall u :: u in urls <==> u in doc.locs
    ensures IsIndex(doc) ==> forall k :: 0 <= k < |doc.sitemaps| ==> SitemapUrls(doc.sitemaps[k]) <= urls
    decreases doc, 1
  {
    match doc
    case Unavailable => {}
    case Document(children, locs) =>
      if |children| > 0 then
        (forall k, u | 0 <= k < |children| && u in SitemapUrls(children[k])
           ensures u in ChildUrls(doc, |children|) {
           ChildUrlsMember(doc, |children|, u);
         }
         ChildUrls(doc, |children|))
      else set l | l in locs
  }

  /** The URLs of the first `n` children of an index, resolved in order. */
  function ChildUrls(doc: SitemapDoc, n: nat): (urls: set<string>)
    requires doc.Document? && n <= |doc.sitemaps|
    decreases doc, 0, n
  {
    if n == 0 then {} else ChildUrls(doc, n - 1) + SitemapUrls(doc.sitemaps[n - 1])
  }

  /** The document reached from `doc` by following the `<sitemap>` entries numbered in `path`. */
  ghost function Follow(doc: SitemapDoc, path: seq<nat>): Option<SitemapDoc>
    decreases |path|
  {
    if path == [] then Some(doc)
    else match doc
      case Unavailable => None
      case Document(children, _) =>
        if path[0] < |children| then Follow(children[path[0]], path[1..]) else None
  }

  /** `u` is a `<loc>` of a plain (non-index) document reachable from `doc` along `path`. */
  ghost predicate LeafLoc(doc: SitemapDoc, path: seq<nat>, u: string) {
    var d := Follow(doc, path);
    d.Some? && d.value.Document? && !IsIndex(d.value) && u in d.value.locs
  }

  /** A URL is among the first `n` children's URLs exactly when one of those children yields it. */
  lemma {:induction false} ChildUrlsMember(doc: SitemapDoc, n: nat, u: string)
    requires doc.Document? && n <= |doc.sitemaps|
    ensures u in ChildUrls(doc, n) <==> exists k :: 0 <= k < n && u in SitemapUrls(doc.sitemaps[k])
    decreases doc, 0, n + 1
  {
    if n > 0 {
      ChildUrlsMember(doc, n - 1, u);
    }
  }

  /** Following entry `k` first, then `path`, is following `path` from child `k`. */
  lemma FollowChild(doc: SitemapDoc, k: nat, path: seq<nat>)
    requires doc.Document? && k < |doc.sitemaps|
    ensures Follow(doc, [k] + path) == Follow(doc.sitemaps[k], path)
  {
    assert ([k] + path)[1..] == path;
  }

  /**
   * Resolution collects exactly the `<loc>` texts of the plain documents
   * reachable from the start document through sitemap-index entries.
   */
  lemma {:induction false} SitemapUrlsAreLeafLocs(doc: SitemapDoc, u: string)
    ensures u in SitemapUrls(doc) <==> exists path :: LeafLoc(doc, path, u)
    decreases doc
  {
    match doc
    case Unavailable =>
      forall path | LeafLoc(doc, path, u)
        ensures false
      {
      }
    case Document(children, locs) =>
      if |children| == 0 {
        if u in locs {
          assert LeafLoc(doc, [], u);
        }
        forall path | LeafLoc(doc, path, u)
          ensures u in locs
        {
        }
      } else {
        ChildUrlsMember(doc, |children|, u);
        if u in SitemapUrls(doc) {
          var k :| 0 <= k < |children| && u in SitemapUrls(children[k]);
          SitemapUrlsAreLeafLocs(children[k], u);
          var path :| LeafLoc(children[k], path, u);
          FollowChild(doc, k, path);
          assert LeafLoc(doc, [k] + path, u);
        }
        forall path | LeafLoc(doc, path, u)
          ensures u in SitemapUrls(doc)
        {
          var k := path[0];
          FollowChild(doc, k, path[1..]);
          assert [k] + path[1..] == path;
          assert LeafLoc(children[k], path[1..], u);
          SitemapUrlsAreLeafLocs(children[k], u);
        }
      }
  }

  /** When the first `n` children of an index could not be fetched, they contribute no URL. */
  lemma {:induction false} UnavailableChildAddsNothing(doc: SitemapDoc, n: nat)
    requires doc.Document? && n <= |doc.sitemaps|
    requires forall k :: 0 <= k < n ==> doc.sitemaps[k] == Unavailable
    ensures ChildUrls(doc, n) == {}
  {
    if n > 0 {
      UnavailableChildAddsNothing(doc, n - 1);
    }
  }

  /** The `collected_urls` set threaded through the recursion. */
  class SitemapCollector {
    var collected: set<string>

    constructor ()
      ensures collected == {}
    {
      collected := {};
    }

    /** `get_sitemap_urls_recursive`: adds the URLs reachable from `doc`, and nothing else. */
    method Resolve(doc: SitemapDoc)
      modifies this
      ensures collected == old(collected) + SitemapUrls(doc)
      decreases doc
    {
      match doc
      case Unavailable =>
      case Document(children, locs) =>
        if |children| > 0 {
          for k := 0 to |children|
            invariant collected == old(collected) + ChildUrls(doc, k)
          {
            Resolve(children[k]);
          }
        } else {
          for k := 0 to |locs|
            invariant collected == old(collected) + set l | l in locs[..k]
          {
            assert locs[..k + 1] == locs[..k] + [locs[k]];
            collected := collected + {locs[k]};
          }
          assert locs[..|locs|] == locs;
        }
    }

    /**
     * `fetch_all_sitemap_urls`: starts from an empty set and resolves, in
     * order, the documents behind the `<loc>` entries of the site's
     * `/sitemap.xml` (none when that fetch fails), which acts as an index.
     */
    method ResolveAll(roots: seq<SitemapDoc>)
      modifies this
      ensures collected == SitemapUrls(Document(roots, []))
    {
      collected := {};
      ghost var top := Document(roots, []);
      for k := 0 to |roots|
        invariant collected == ChildUrls(top, k)
      {
        Resolve(roots[k]);
      }
    }
  }
}
