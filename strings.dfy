/**
 * The handful of Python string operations the crawler scripts rely on:
 * `startswith`, `endswith`, the substring test `in`, `replace`, `strip`,
 * `split`/`join` on one separator, POSIX `os.path.join` of two parts and
 * the ordering that `sorted` uses on strings (code point by code point).
 */
module Strings {

  /** Python's `s.startswith(p)`. */
  predicate StartsWith(s: string, p: string) {
    |p| <= |s| && s[..|p|] == p
  }

  /** Python's `s.endswith(p)`. */
  predicate EndsWith(s: string, p: string) {
    |p| <= |s| && s[|s| - |p|..] == p
  }

  /** Python's `sub in s`: `sub` occurs somewhere in `s` as a contiguous run. */
  predicate Contains(s: string, sub: string)
    decreases |s|
  {
    StartsWith(s, sub) || (|s| > 0 && Contains(s[1..], sub))
  }

  /** `Contains` is exactly "some window of `s` equals `sub`". */
  lemma {:induction false} ContainsAt(s: string, sub: string, i: nat)
    requires i + |sub| <= |s| && s[i..i + |sub|] == sub
    ensures Contains(s, sub)
    decreases i
  {
    if i > 0 {
      assert s[1..][i - 1..i - 1 + |sub|] == s[i..i + |sub|];
      ContainsAt(s[1..], sub, i - 1);
    }
  }

  /** Every string contains itself, and anything it starts with. */
  lemma ContainsPrefix(s: string, p: string)
    requires StartsWith(s, p)
    ensures Contains(s, p)
  {
  }

  /**
   * Python's `s.replace(pat, rep)` for a non-empty pattern: occurrences are
   * found left to right and do not overlap.
   */
  function ReplaceAll(s: string, pat: string, rep: string): string
    requires |pat| > 0
    decreases |s|
  {
    if |s| < |pat| then s
    else if s[..|pat|] == pat then rep + ReplaceAll(s[|pat|..], pat, rep)
    else [s[0]] + ReplaceAll(s[1..], pat, rep)
  }

  /** A string without the pattern comes back unchanged. */
  lemma {:induction false} ReplaceAllAbsent(s: string, pat: string, rep: string)
    requires |pat| > 0 && !Contains(s, pat)
    ensures ReplaceAll(s, pat, rep) == s
    decreases |s|
  {
    if |s| >= |pat| {
      ReplaceAllAbsent(s[1..], pat, rep);
      assert [s[0]] + s[1..] == s;
    }
  }

  /** A leading occurrence is replaced and the scan resumes right after it. */
  lemma ReplaceAllLeading(pat: string, s: string, rep: string)
    requires |pat| > 0
    ensures ReplaceAll(pat + s, pat, rep) == rep + ReplaceAll(s, pat, rep)
  {
    assert (pat + s)[..|pat|] == pat;
    assert (pat + s)[|pat|..] == s;
  }

  /**
   * Replacing one character by one character maps the string position by
   * position: the length is kept and only that character changes.
   */
  lemma {:induction false} ReplaceCharAt(s: string, c: char, d: char)
    ensures |ReplaceAll(s, [c], [d])| == |s|
    ensures forall k :: 0 <= k < |s| ==>
      ReplaceAll(s, [c], [d])[k] == (if s[k] == c then d else s[k])
    decreases |s|
  {
    if |s| > 0 {
      ReplaceCharAt(s[1..], c, d);
      assert s[..1] == [s[0]];
    }
  }

  /** After replacing a character by a text that lacks it, the character is gone. */
  lemma {:induction false} ReplaceCharGone(s: string, c: char, rep: string)
    requires c !in rep
    ensures c !in ReplaceAll(s, [c], rep)
    decreases |s|
  {
    if |s| > 0 {
      ReplaceCharGone(s[1..], c, rep);
      assert s[..1] == [s[0]];
    }
  }

  /** A string without the character comes back unchanged. */
  lemma {:induction false} ReplaceCharAbsent(s: string, c: char, rep: string)
    requires c !in s
    ensures ReplaceAll(s, [c], rep) == s
    decreases |s|
  {
    if |s| > 0 {
      assert s[0] in s && s[..1][0] == s[0];
      ReplaceCharAbsent(s[1..], c, rep);
      assert [s[0]] + s[1..] == s;
    }
  }

  /** Replacing one character by another keeps a suffix that lacks the character. */
  lemma ReplaceCharKeepsSuffix(s: string, c: char, d: char, x: string)
    requires EndsWith(s, x) && c !in x
    ensures EndsWith(ReplaceAll(s, [c], [d]), x)
  {
    ReplaceCharAt(s, c, d);
    var r := ReplaceAll(s, [c], [d]);
    forall k | 0 <= k < |x| ensures r[|r| - |x| + k] == x[k] {
      assert s[|s| - |x| + k] == x[k];
    }
  }

  /** Replacing never creates a character that neither the input nor the replacement has. */
  lemma {:induction false} ReplaceAllChars(s: string, pat: string, rep: string, x: char)
    requires |pat| > 0 && x !in s && x !in rep
    ensures x !in ReplaceAll(s, pat, rep)
    decreases |s|
  {
    if |s| >= |pat| {
      if s[..|pat|] == pat {
        ReplaceAllChars(s[|pat|..], pat, rep, x);
      } else {
        ReplaceAllChars(s[1..], pat, rep, x);
      }
    }
  }

  /** Python's `s.lstrip(c)` for one character. */
  function TrimStart(s: string, c: char): (r: string)
    ensures r == [] || r[0] != c
    ensures EndsWith(s, r)
    ensures forall k :: 0 <= k < |s| - |r| ==> s[k] == c
    decreases |s|
  {
    if s != [] && s[0] == c then TrimStart(s[1..], c) else s
  }

  /** Python's `s.rstrip(c)` for one character. */
  function TrimEnd(s: string, c: char): (r: string)
    ensures r == [] || r[|r| - 1] != c
    ensures StartsWith(s, r)
    ensures forall k :: |r| <= k < |s| ==> s[k] == c
    decreases |s|
  {
    if s != [] && s[|s| - 1] == c then TrimEnd(s[..|s| - 1], c) else s
  }

  /** Python's `s.strip(c)` for one character: neither end of the result is `c`. */
  function Strip(s: string, c: char): (r: string)
    ensures r == [] || (r[0] != c && r[|r| - 1] != c)
    ensures |r| <= |s|
  {
    TrimEnd(TrimStart(s, c), c)
  }

  /** `s` is its strip with nothing but `c` before and after it. */
  lemma StripFrame(s: string, c: char)
    ensures var r, a := Strip(s, c), |s| - |TrimStart(s, c)|;
      && 0 <= a && a + |r| <= |s| && s[a..a + |r|] == r
      && (forall k :: 0 <= k < a ==> s[k] == c)
      && (forall k :: a + |r| <= k < |s| ==> s[k] == c)
  {
    var t := TrimStart(s, c);
    var r := TrimEnd(t, c);
    var a := |s| - |t|;
    assert s[a..] == t;
    assert t[..|r|] == r;
    assert s[a..a + |r|] == t[..|r|];
    forall k | a + |r| <= k < |s| ensures s[k] == c {
      assert s[k] == t[k - a];
    }
  }

  /** A string that neither starts nor ends with `c` is its own strip. */
  lemma StripUnchanged(s: string, c: char)
    requires s == [] || (s[0] != c && s[|s| - 1] != c)
    ensures Strip(s, c) == s
  {
  }

  /** Python's `s.split(sep)` for a one-character separator. */
  function Split(s: string, sep: char): (r: seq<string>)
    ensures |r| >= 1
    ensures forall k :: 0 <= k < |r| ==> sep !in r[k]
    decreases |s|
  {
    if s == [] then [[]]
    else
      var rest := Split(s[1..], sep);
      if s[0] == sep then [[]] + rest
      else [[s[0]] + rest[0]] + rest[1..]
  }

  /** Python's `sep.join(parts)` for a one-character separator. */
  function Join(parts: seq<string>, sep: char): string
    decreases |parts|
  {
    if |parts| == 0 then []
    else if |parts| == 1 then parts[0]
    else parts[0] + [sep] + Join(parts[1..], sep)
  }

  /** Joining what was split gives back the original text. */
  lemma {:induction false} JoinSplit(s: string, sep: char)
    ensures Join(Split(s, sep), sep) == s
    decreases |s|
  {
    if s != [] {
      var rest := Split(s[1..], sep);
      JoinSplit(s[1..], sep);
      if s[0] != sep {
        if |rest| > 1 {
          assert ([[s[0]] + rest[0]] + rest[1..])[1..] == rest[1..];
        }
      }
      assert [s[0]] + s[1..] == s;
    }
  }

  /** Splitting `x + [sep] + y` when `x` has no separator. */
  lemma {:induction false} SplitAfterPiece(x: string, sep: char, y: string)
    requires sep !in x
    ensures Split(x + [sep] + y, sep) == [x] + Split(y, sep)
    decreases |x|
  {
    if x == [] {
      assert ([sep] + y)[1..] == y;
    } else {
      SplitAfterPiece(x[1..], sep, y);
      assert (x + [sep] + y)[1..] == x[1..] + [sep] + y;
      assert [x[0]] + x[1..] == x;
    }
  }

  /** A text without the separator splits into itself alone. */
  lemma {:induction false} SplitNoSeparator(x: string, sep: char)
    requires sep !in x
    ensures Split(x, sep) == [x]
    decreases |x|
  {
    if x != [] {
      SplitNoSeparator(x[1..], sep);
      assert [x[0]] + x[1..] == x;
    }
  }

  /** Splitting what was joined gives back the pieces, when none holds the separator. */
  lemma {:induction false} SplitJoin(parts: seq<string>, sep: char)
    requires |parts| >= 1
    requires forall k :: 0 <= k < |parts| ==> sep !in parts[k]
    ensures Split(Join(parts, sep), sep) == parts
    decreases |parts|
  {
    if |parts| == 1 {
      SplitNoSeparator(parts[0], sep);
    } else {
      SplitJoin(parts[1..], sep);
      SplitAfterPiece(parts[0], sep, Join(parts[1..], sep));
      assert [parts[0]] + parts[1..] == parts;
    }
  }

  /** Joining splits at any piece boundary. */
  lemma {:induction false} JoinAt(parts: seq<string>, k: nat, sep: char)
    requires 0 < k < |parts|
    ensures Join(parts, sep) == Join(parts[..k], sep) + [sep] + Join(parts[k..], sep)
    decreases k
  {
    if k > 1 {
      JoinAt(parts[1..], k - 1, sep);
      assert parts[1..][..k - 1] == parts[..k][1..];
      assert parts[1..][k - 1..] == parts[k..];
    }
  }

  /**
   * POSIX `os.path.join(a, b)`: an absolute `b` wins, otherwise `b` is
   * appended with a `/` unless `a` is empty or already ends in one.
   */
  function PathJoin(a: string, b: string): (r: string)
    ensures EndsWith(r, b)
    ensures !StartsWith(b, "/") ==> StartsWith(r, a)
  {
    if StartsWith(b, "/") then b
    else if a == [] || EndsWith(a, "/") then a + b
    else a + "/" + b
  }

  /** Python's `a < b` on strings: the first differing code point decides, a proper prefix is smaller. */
  predicate LexLess(a: string, b: string)
    decreases |a|
  {
    |b| > 0 && (|a| == 0 || a[0] < b[0] || (a[0] == b[0] && LexLess(a[1..], b[1..])))
  }

  lemma {:induction false} LexLessIrreflexive(a: string)
    ensures !LexLess(a, a)
    decreases |a|
  {
    if |a| > 0 {
      LexLessIrreflexive(a[1..]);
    }
  }

  lemma {:induction false} LexLessTransitive(a: string, b: string, c: string)
    requires LexLess(a, b) && LexLess(b, c)
    ensures LexLess(a, c)
    decreases |a|
  {
    if |a| > 0 && a[0] == b[0] && b[0] == c[0] {
      LexLessTransitive(a[1..], b[1..], c[1..]);
    }
  }

  lemma {:induction false} LexLessTotal(a: string, b: string)
    requires a != b
    ensures LexLess(a, b) || LexLess(b, a)
    decreases |a|
  {
    if |a| > 0 && |b| > 0 && a[0] == b[0] {
      assert a == [a[0]] + a[1..] && b == [b[0]] + b[1..];
      LexLessTotal(a[1..], b[1..]);
    }
  }

  /** No string occurs twice in `log`. */
  ghost predicate Distinct(log: seq<string>) {
    forall i, j :: 0 <= i < j < |log| ==> log[i] != log[j]
  }

  /** `log` lists exactly the strings of `seen`. */
  ghost predicate Lists(log: seq<string>, seen: set<string>) {
    forall u :: u in seen <==> u in log
  }

  /** Appending a string not seen before keeps the log a duplicate-free listing of the seen set. */
  lemma LogAppend(log: seq<string>, seen: set<string>, u: string)
    requires Distinct(log) && Lists(log, seen) && u !in seen
    ensures Distinct(log + [u]) && Lists(log + [u], seen + {u})
  {
  }
}
