/**
 * The outbound links recorded for a page: the `href` of every anchor that
 * starts with `http`, without duplicates, in Python's `sorted` order.
 */
module Links {
  import opened Strings

  /** What reading the `href` attribute of one anchor element gives. */
  datatype Anchor =
    | Href(url: string)  // the attribute's value
    | NoHref             // the attribute is absent (Python `None`)
    | Stale              // the element went stale while being read

  /** Every element is smaller than every later one, so there are no duplicates either. */
  ghost predicate StrictlySorted(s: seq<string>) {
    forall i, j :: 0 <= i < j < |s| ==> LexLess(s[i], s[j])
  }

  /** The links of a page, as the crawler records them from the page's anchors. */
  ghost predicate ExtractedLinks(anchors: seq<Anchor>, links: seq<string>) {
    && StrictlySorted(links)
    && forall u :: u in links <==> Href(u) in anchors && StartsWith(u, "http")
  }

  lemma StrictlySortedDistinct(s: seq<string>)
    requires StrictlySorted(s)
    ensures forall i, j :: 0 <= i < j < |s| ==> s[i] != s[j]
  {
    forall i, j | 0 <= i < j < |s| ensures s[i] != s[j] {
      if s[i] == s[j] {
        LexLessIrreflexive(s[i]);
      }
    }
  }

  /** Inserts a new element into a strictly sorted sequence. */
  function InsertSorted(x: string, s: seq<string>): (r: seq<string>)
    requires StrictlySorted(s) && x !in s
    ensures StrictlySorted(r)
    ensures |r| == |s| + 1
    ensures forall e :: e in r <==> e == x || e in s
    decreases |s|
  {
    if s == [] then [x]
    else if LexLess(x, s[0]) then
      assert StrictlySorted([x] + s) by {
        forall j | 1 <= j < |s| {
          LexLessTransitive(x, s[0], s[j]);
        }
      }
      [x] + s
    else
      LexLessTotal(x, s[0]);
      var tail := InsertSorted(x, s[1..]);
      assert forall e :: e in tail ==> LexLess(s[0], e) by {
        forall e | e in tail ensures LexLess(s[0], e) {
          if e != x {
            var j :| 1 <= j < |s| && s[j] == e;
          }
        }
      }
      [s[0]] + tail
  }

  /** A set of strings in sorted order, built by inserting one element at a time. */
  ghost function SortedSet(items: set<string>): (r: seq<string>)
    ensures StrictlySorted(r)
    ensures forall e :: e in r <==> e in items
    decreases |items|
  {
    if items == {} then []
    else
      var x :| x in items;
      InsertSorted(x, SortedSet(items - {x}))
  }

  /** The `href`s of `anchors` that are present and start with `http`. */
  ghost function HttpHrefs(anchors: seq<Anchor>): set<string> {
    set a | a in anchors && a.Href? && StartsWith(a.url, "http") :: a.url
  }

  /** The links recorded for a page with `anchors`, as a function of the anchors. */
  ghost function LinksOf(anchors: seq<Anchor>): seq<string> {
    SortedSet(HttpHrefs(anchors))
  }

  /** `LinksOf` is a list `ExtractedLinks` admits, and the only one. */
  lemma LinksOfUnique(anchors: seq<Anchor>, links: seq<string>)
    ensures ExtractedLinks(anchors, LinksOf(anchors))
    ensures ExtractedLinks(anchors, links) ==> links == LinksOf(anchors)
  {
    forall u ensures u in HttpHrefs(anchors) <==> Href(u) in anchors && StartsWith(u, "http") {
      if Href(u) in anchors && StartsWith(u, "http") {
        var a := Href(u);
        assert a in anchors && a.Href? && StartsWith(a.url, "http");
      }
    }
    if ExtractedLinks(anchors, links) {
      SortedUnique(links, LinksOf(anchors));
    }
  }

  /** Python's `sorted` applied to a set of strings. */
  method SortStrings(items: set<string>) returns (r: seq<string>)
    ensures StrictlySorted(r)
    ensures forall e :: e in r <==> e in items
    ensures |r| == |items|
  {
    r := [];
    var rest := items;
    while rest != {}
      invariant rest <= items
      invariant StrictlySorted(r)
      invariant forall e :: e in r <==> e in items && e !in rest
      invariant |r| + |rest| == |items|
      decreases |rest|
    {
      var x :| x in rest;
      r := InsertSorted(x, r);
      rest := rest - {x};
    }
  }

  /** Two strictly sorted sequences with the same elements are equal: the sorted order is unique. */
  lemma {:induction false} SortedUnique(a: seq<string>, b: seq<string>)
    requires StrictlySorted(a) && StrictlySorted(b)
    requires forall e :: e in a <==> e in b
    ensures a == b
    decreases |a|
  {
    if a != [] {
      assert a[0] in b;
    }
    if b != [] {
      assert b[0] in a;
    }
    if a != [] && b != [] {
      if a[0] != b[0] {
        assert b[0] in a && a[0] in b;
        var i :| 0 <= i < |a| && a[i] == b[0];
        var j :| 0 <= j < |b| && b[j] == a[0];
        assert i > 0 && j > 0;
        LexLessTransitive(a[0], a[i], a[0]);
        LexLessIrreflexive(a[0]);
      }
      StrictlySortedDistinct(a);
      StrictlySortedDistinct(b);
      forall e ensures e in a[1..] <==> e in b[1..] {
        if e in a[1..] {
          var i :| 1 <= i < |a| && a[i] == e;
          assert e in b && e != b[0];
        }
        if e in b[1..] {
          var j :| 1 <= j < |b| && b[j] == e;
          assert e in a && e != a[0];
        }
      }
      SortedUnique(a[1..], b[1..]);
      assert a == [a[0]] + a[1..] && b == [b[0]] + b[1..];
    }
  }

  /**
   * Collects the links of a page: every anchor whose `href` is present and
   * starts with `http` (stale elements and missing attributes are skipped),
   * gathered into a set and returned sorted.
   */
  method CollectLinks(anchors: seq<Anchor>) returns (links: seq<string>)
    ensures ExtractedLinks(anchors, links)
  {
    var hrefs: set<string> := {};
    for k := 0 to |anchors|
      invariant forall u :: u in hrefs <==> Href(u) in anchors[..k] && StartsWith(u, "http")
    {
      assert anchors[..k + 1] == anchors[..k] + [anchors[k]];
      match anchors[k]
      case Href(u) =>
        if StartsWith(u, "http") {
          hrefs := hrefs + {u};
        }
      case NoHref =>
      case Stale =>
    }
    assert anchors[..|anchors|] == anchors;
    links := SortStrings(hrefs);
  }
}
