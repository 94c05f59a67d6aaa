/**
 * The per-page artifacts: the file name a page's screenshot and Markdown
 * are written under, and the trimming of the Markdown text so that it
 * starts at its first heading line.
 */
module Artifacts {
  import opened Strings

  /**
   * The artifact file name of a page: the URL with every `https://` and then
   * every `http://` removed and each `/` turned into `_`, followed by the
   * extension (`.md` for the text, `.png` for the screenshot).
   */
  function ArtifactName(url: string, ext: string): (name: string)
    ensures EndsWith(name, ext)
    ensures '/' !in name[..|name| - |ext|]
  {
    var bare := ReplaceAll(ReplaceAll(url, "https://", ""), "http://", "");
    ReplaceCharGone(bare, '/', "_");
    ReplaceAll(bare, "/", "_") + ext
  }

  /** For an `https://` URL whose remainder holds no scheme text, the name is the remainder with `/` turned into `_`. */
  lemma ArtifactNameOfHttpsUrl(rest: string, ext: string)
    requires !Contains(rest, "https://") && !Contains(rest, "http://")
    ensures ArtifactName("https://" + rest, ext) == ReplaceAll(rest, "/", "_") + ext
    ensures |ArtifactName("https://" + rest, ext)| == |rest| + |ext|
  {
    ReplaceAllLeading("https://", rest, "");
    ReplaceAllAbsent(rest, "https://", "");
    assert ReplaceAll("https://" + rest, "https://", "") == rest by {
      assert "" + rest == rest;
    }
    ReplaceAllAbsent(rest, "http://", "");
    ReplaceCharAt(rest, '/', '_');
  }

  /** `!Contains(x + s, p)` when `p` starts at no position inside `x` and does not occur in `s`. */
  lemma {:induction false} NotContainsPrepend(x: string, s: string, p: string)
    requires !Contains(s, p)
    requires forall i :: 0 <= i < |x| ==> !StartsWith(x[i..] + s, p)
    ensures !Contains(x + s, p)
    decreases |x|
  {
    if x != [] {
      assert x[0..] == x;
      assert (x + s)[1..] == x[1..] + s;
      forall i | 0 <= i < |x| - 1 ensures !StartsWith(x[1..][i..] + s, p) {
        assert x[1..][i..] == x[i + 1..];
      }
      NotContainsPrepend(x[1..], s, p);
    } else {
      assert x + s == s;
    }
  }

  /**
   * The `http://` and the `https://` address of a page get the same artifact
   * name, so the second capture overwrites the first one's files.
   */
  lemma SchemesShareArtifactName(rest: string, ext: string)
    requires !Contains(rest, "https://") && !Contains(rest, "http://")
    ensures ArtifactName("http://" + rest, ext) == ArtifactName("https://" + rest, ext)
  {
    var x := "http://";
    forall i | 0 <= i < |x| ensures !StartsWith(x[i..] + rest, "https://") {
      if i == 0 {
        assert |x + rest| < 8 || (x + rest)[4] != "https://"[4];
      } else {
        assert (x[i..] + rest)[0] == x[i];
      }
    }
    NotContainsPrepend(x, rest, "https://");
    ReplaceAllAbsent(x + rest, "https://", "");
    ReplaceAllLeading("http://", rest, "");
    ReplaceAllAbsent(rest, "http://", "");
    assert ReplaceAll(x + rest, "http://", "") == rest by {
      assert "" + rest == rest;
    }
    ArtifactNameOfHttpsUrl(rest, ext);
  }

  /** Python's `line.startswith('#')`. */
  predicate IsHeading(line: string) {
    StartsWith(line, "#")
  }

  /** The index of the first heading line, or the number of lines when there is none. */
  function FirstHeading(lines: seq<string>): (k: nat)
    ensures k <= |lines|
    ensures k < |lines| ==> IsHeading(lines[k])
    ensures forall i :: 0 <= i < k ==> !IsHeading(lines[i])
    decreases |lines|
  {
    if lines == [] || IsHeading(lines[0]) then 0 else 1 + FirstHeading(lines[1..])
  }

  /** Drops every line of the Markdown text before its first line that starts with `#`; what is left is a suffix of the text. */
  function TrimToFirstHeading(markdown: string): (trimmed: string)
    ensures EndsWith(markdown, trimmed)
  {
    var lines := Split(markdown, '\n');
    JoinSplit(markdown, '\n');
    JoinTailIsSuffix(lines, FirstHeading(lines), '\n');
    Join(lines[FirstHeading(lines)..], '\n')
  }

  /** Joining the parts from `k` on gives a suffix of joining them all. */
  lemma JoinTailIsSuffix(parts: seq<string>, k: nat, sep: char)
    requires k <= |parts|
    ensures EndsWith(Join(parts, sep), Join(parts[k..], sep))
  {
    if 0 < k < |parts| {
      JoinAt(parts, k, sep);
    } else if k == 0 {
      assert parts[0..] == parts;
    }
  }

  lemma {:induction false} JoinStartsWithFirst(parts: seq<string>, sep: char)
    requires |parts| >= 1
    ensures StartsWith(Join(parts, sep), parts[0])
  {
  }

  /**
   * The trimmed text is empty exactly when no line is a heading; otherwise
   * it starts with `#` and consists of the lines from the first heading on.
   */
  lemma TrimStartsAtHeading(markdown: string)
    ensures TrimToFirstHeading(markdown) == [] <==>
      forall i :: 0 <= i < |Split(markdown, '\n')| ==> !IsHeading(Split(markdown, '\n')[i])
    ensures TrimToFirstHeading(markdown) != [] ==> TrimToFirstHeading(markdown)[0] == '#'
    ensures var lines := Split(markdown, '\n'); var k := FirstHeading(lines);
      k < |lines| ==> Split(TrimToFirstHeading(markdown), '\n') == lines[k..]
  {
    var lines := Split(markdown, '\n');
    var k := FirstHeading(lines);
    if k < |lines| {
      var t := TrimToFirstHeading(markdown);
      var head := lines[k];
      assert t == Join(lines[k..], '\n');
      assert lines[k..][0] == head;
      assert IsHeading(Split(markdown, '\n')[k]);
      JoinStartsWithFirst(lines[k..], '\n');
      assert t[..|head|] == head && head[0] == '#';
      assert t[0] == t[..|head|][0];
      SplitJoin(lines[k..], '\n');
    } else {
      assert lines[k..] == [];
    }
  }

  /** A text that already starts with a heading is kept whole. */
  lemma TrimKeepsHeadedText(markdown: string)
    requires StartsWith(markdown, "#")
    ensures TrimToFirstHeading(markdown) == markdown
  {
    var lines := Split(markdown, '\n');
    assert markdown[0] == '#';
    assert IsHeading(lines[0]);
    assert lines[0..] == lines;
    JoinSplit(markdown, '\n');
  }
}
