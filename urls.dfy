/**
 * The two pieces of `urllib.parse.urlparse` the scripts read — the network
 * location (`netloc`) and the `path` — and the crawler's host scope rule.
 */
module Urls {
  import opened Strings

  predicate IsAsciiAlpha(c: char) {
    'a' <= c <= 'z' || 'A' <= c <= 'Z'
  }

  /** Characters allowed in a URL scheme by `urllib.parse`. */
  predicate IsSchemeChar(c: char) {
    IsAsciiAlpha(c) || '0' <= c <= '9' || c == '+' || c == '-' || c == '.'
  }

  /** Index of the first character of `s` that is in `stops`, or `|s|` when there is none. */
  function FindFirst(s: string, stops: set<char>): (k: nat)
    ensures k <= |s|
    ensures k < |s| ==> s[k] in stops
    ensures forall i :: 0 <= i < k ==> s[i] !in stops
    decreases |s|
  {
    if s == [] || s[0] in stops then 0 else 1 + FindFirst(s[1..], stops)
  }

  lemma {:induction false} FindFirstAt(s: string, stops: set<char>, k: nat)
    requires k <= |s| && (k < |s| ==> s[k] in stops)
    requires forall i :: 0 <= i < k ==> s[i] !in stops
    ensures FindFirst(s, stops) == k
    decreases k
  {
    if k > 0 {
      FindFirstAt(s[1..], stops, k - 1);
    }
  }

  /**
   * The text after `scheme:` when the URL starts with a scheme (a letter,
   * then scheme characters, up to the first `:`), else the whole URL.
   */
  predicate HasScheme(url: string) {
    var i := FindFirst(url, {':'});
    0 < i < |url| && IsAsciiAlpha(url[0]) && forall k :: 0 <= k < i ==> IsSchemeChar(url[k])
  }

  function AfterScheme(url: string): (rest: string)
    ensures EndsWith(url, rest)
  {
    if HasScheme(url) then url[FindFirst(url, {':'}) + 1..] else url
  }

  /** The characters that end the network location. */
  const NetlocStops: set<char> := {'/', '?', '#'}

  /** `urlparse(url).netloc`: what follows `//` up to the first `/`, `?` or `#`. */
  function Netloc(url: string): (n: string)
    ensures forall k :: 0 <= k < |n| ==> n[k] !in NetlocStops
  {
    var rest := AfterScheme(url);
    if StartsWith(rest, "//") then rest[2..][..FindFirst(rest[2..], NetlocStops)] else ""
  }

  /** `urlparse(url).path`: what follows the network location, up to the query or the fragment. */
  function UrlPath(url: string): (p: string)
    ensures '?' !in p && '#' !in p
    ensures Netloc(url) != [] && p != [] ==> p[0] == '/'
  {
    var rest := AfterScheme(url);
    var tail := if StartsWith(rest, "//") then rest[2..][FindFirst(rest[2..], NetlocStops)..] else rest;
    tail[..FindFirst(tail, {'?', '#'})]
  }

  /** A valid scheme followed by `:` is split off. */
  lemma SchemeSplit(scheme: string, tail: string)
    requires |scheme| > 0 && IsAsciiAlpha(scheme[0])
    requires forall k :: 0 <= k < |scheme| ==> IsSchemeChar(scheme[k])
    ensures AfterScheme(scheme + ":" + tail) == tail
  {
    var url := scheme + ":" + tail;
    assert forall k :: 0 <= k < |scheme| ==> url[k] == scheme[k];
    FindFirstAt(url, {':'}, |scheme|);
    assert HasScheme(url);
    assert url[|scheme| + 1..] == tail;
  }

  /**
   * A URL assembled from a scheme, a host and a remainder that starts at a
   * `/`, `?` or `#` parses back into that host and the remainder's path.
   */
  lemma UrlParts(scheme: string, host: string, rest: string)
    requires |scheme| > 0 && IsAsciiAlpha(scheme[0])
    requires forall k :: 0 <= k < |scheme| ==> IsSchemeChar(scheme[k])
    requires forall k :: 0 <= k < |host| ==> host[k] !in NetlocStops
    requires rest == [] || rest[0] in NetlocStops
    ensures Netloc(scheme + "://" + host + rest) == host
    ensures UrlPath(scheme + "://" + host + rest) == rest[..FindFirst(rest, {'?', '#'})]
  {
    var url := scheme + "://" + host + rest;
    var after := "//" + host + rest;
    assert url == scheme + ":" + after;
    SchemeSplit(scheme, after);
    NetlocParts(host, rest);
  }

  /** The part after the scheme: `//`, the host, and a remainder starting at a stop character. */
  lemma NetlocParts(host: string, rest: string)
    requires forall k :: 0 <= k < |host| ==> host[k] !in NetlocStops
    requires rest == [] || rest[0] in NetlocStops
    ensures var after := "//" + host + rest;
      StartsWith(after, "//") && after[2..] == host + rest &&
      FindFirst(after[2..], NetlocStops) == |host| &&
      after[2..][..|host|] == host && after[2..][|host|..] == rest
  {
    var after := "//" + host + rest;
    assert after[..2] == "//";
    assert after[2..] == host + rest;
    FindFirstAt(host + rest, NetlocStops, |host|);
    assert (host + rest)[..|host|] == host;
    assert (host + rest)[|host|..] == rest;
  }

  /**
   * The crawler's scope rule: the host is the base domain itself or ends
   * with `"." + base`, a match on a dot boundary and not a plain suffix.
   */
  predicate InScope(netloc: string, baseDomain: string) {
    netloc == baseDomain || EndsWith(netloc, "." + baseDomain)
  }

  /** A host that ends with the base is in scope exactly when what comes before is empty or ends with a dot. */
  lemma ScopeOnDotBoundary(p: string, base: string)
    ensures InScope(p + base, base) <==> p == [] || EndsWith(p, ".")
  {
    if p != [] {
      assert p + base != base;
      var tail := (p + base)[|p| - 1..];
      assert tail == [p[|p| - 1]] + base;
      if p[|p| - 1] == '.' {
        assert tail == "." + base;
      } else {
        assert tail[0] != ("." + base)[0];
      }
    } else {
      assert p + base == base;
    }
  }

  /** A lookalike host that merely ends with the base's letters is out of scope. */
  lemma LookalikeHostRejected()
    ensures !InScope("evilexample.com", "example.com")
    ensures InScope("www.example.com", "example.com")
  {
    ScopeOnDotBoundary("evil", "example.com");
    assert "evil" + "example.com" == "evilexample.com";
    ScopeOnDotBoundary("www.", "example.com");
    assert "www." + "example.com" == "www.example.com";
  }

  /** A subdomain of a subdomain is in scope. */
  lemma ScopeTransitive(a: string, b: string, c: string)
    requires InScope(a, b) && InScope(b, c)
    ensures InScope(a, c)
  {
    if a != b && b != c {
      assert a[|a| - |c| - 1..] == a[|a| - |b|..][|b| - |c| - 1..];
    }
  }
}
