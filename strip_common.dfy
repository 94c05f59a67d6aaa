/**
 * Common-block stripping (strip_common.py): find the runs of lines shared
 * by at least 80% of the Markdown files, then cut them out of every file
 * with a greedy left-to-right scan. Files are maps from file name to lines.
 */
module StripCommon {
  import opened Wrappers

  type Line = string
  type Block = seq<Line>

  // ---------------------------------------------------------------------
  // Counting blocks (find_common_blocks)
  // ---------------------------------------------------------------------

  /**
   * The slices `lines[i'..j]` the counting loops visit for starts `i' < i`:
   * every start before the end of the file, every end at least `m` later.
   */
  ghost function RowsBefore(lines: seq<Line>, m: nat, i: nat): set<Block> {
    set i', j | 0 <= i' < i && i' < |lines| && i' + m <= j <= |lines| :: lines[i'..j]
  }

  /** The slices visited from start `i` with ends before `j`. */
  ghost function RowUpTo(lines: seq<Line>, m: nat, i: nat, j: int): set<Block>
    requires i <= |lines|
  {
    set j' | i + m <= j' < j && j' <= |lines| :: lines[i..j']
  }

  /** The distinct blocks of one file: its slices of at least `m` lines (and, with `m == 0`, the empty slice). */
  ghost function Blocks(lines: seq<Line>, m: nat): set<Block> {
    RowsBefore(lines, m, |lines|)
  }

  /** `line_blocks[b]`, where a missing key reads as 0. */
  function Get(counts: map<Block, nat>, b: Block): nat {
    if b in counts then counts[b] else 0
  }

  /** `after` is `before` with the count of every block of `seen` raised by one. */
  ghost predicate Bumped(before: map<Block, nat>, seen: set<Block>, after: map<Block, nat>) {
    after.Keys == before.Keys + seen &&
    forall b :: b in after ==> after[b] == Get(before, b) + (if b in seen then 1 else 0)
  }

  lemma BumpStep(before: map<Block, nat>, seen: set<Block>, after: map<Block, nat>, b: Block)
    requires Bumped(before, seen, after) && b !in seen
    ensures Bumped(before, seen + {b}, after[b := Get(after, b) + 1])
  {
  }

  lemma RowUpToEmpty(lines: seq<Line>, m: nat, i: nat)
    requires i <= |lines|
    ensures RowUpTo(lines, m, i, i + m) == {}
  {
  }

  lemma RowUpToStep(lines: seq<Line>, m: nat, i: nat, j: nat)
    requires i + m <= j <= |lines|
    ensures RowUpTo(lines, m, i, j + 1) == RowUpTo(lines, m, i, j) + {lines[i..j]}
  {
  }

  lemma RowsBeforeStep(lines: seq<Line>, m: nat, i: nat, j: int)
    requires i < |lines| < j
    ensures RowsBefore(lines, m, i + 1) == RowsBefore(lines, m, i) + RowUpTo(lines, m, i, j)
  {
    forall b | b in RowsBefore(lines, m, i + 1)
      ensures b in RowsBefore(lines, m, i) + RowUpTo(lines, m, i, j)
    {
      var i', j' :| 0 <= i' < i + 1 && i' < |lines| && i' + m <= j' <= |lines| && b == lines[i'..j'];
      if i' == i {
        assert b in RowUpTo(lines, m, i, j);
      }
    }
  }

  /**
   * The body of the outer loop for one file: visits every slice with the
   * nested index loops and counts each distinct one once, using
   * `seen_blocks` to skip repeats within the file.
   */
  method CountFile(lines: seq<Line>, m: nat, counts: map<Block, nat>) returns (counts': map<Block, nat>)
    ensures Bumped(counts, Blocks(lines, m), counts')
  {
    counts' := counts;
    var seen: set<Block> := {};
    for i := 0 to |lines|
      invariant seen == RowsBefore(lines, m, i)
      invariant Bumped(counts, seen, counts')
    {
      var j := i + m;
      RowUpToEmpty(lines, m, i);
      while j <= |lines|
        invariant i + m <= j
        invariant seen == RowsBefore(lines, m, i) + RowUpTo(lines, m, i, j)
        invariant Bumped(counts, seen, counts')
        decreases |lines| + 1 - j
      {
        var block := lines[i..j];
        RowUpToStep(lines, m, i, j);
        if block !in seen {
          BumpStep(counts, seen, counts', block);
          counts' := counts'[block := Get(counts', block) + 1];
          seen := seen + {block};
        }
        j := j + 1;
      }
      RowsBeforeStep(lines, m, i, j);
    }
  }

  /** The files among `names` that contain block `b`. */
  ghost function FilesWith(files: map<string, seq<Line>>, names: set<string>, b: Block, m: nat): set<string> {
    set f | f in names && f in files && b in Blocks(files[f], m)
  }

  /** How many of the files among `names` contain `b`: each file counts once, however often `b` recurs in it. */
  ghost function Occurrences(files: map<string, seq<Line>>, names: set<string>, b: Block, m: nat): nat {
    |FilesWith(files, names, b, m)|
  }

  /** Every block of the files among `names`. */
  ghost function AllBlocks(files: map<string, seq<Line>>, names: set<string>, m: nat): set<Block> {
    set f, b | f in names && f in files && b in Blocks(files[f], m) :: b
  }

  /** `counts` holds, for every block of the files `names`, how many of them contain it. */
  ghost predicate Tally(files: map<string, seq<Line>>, names: set<string>, m: nat, counts: map<Block, nat>) {
    counts.Keys == AllBlocks(files, names, m) &&
    forall b :: b in counts ==> counts[b] == Occurrences(files, names, b, m)
  }

  /** The common blocks: those contained in at least 80% of the files (`count >= 0.8 * n`, in integers). */
  ghost function CommonBlocks(files: map<string, seq<Line>>, m: nat): set<Block> {
    set b | b in AllBlocks(files, files.Keys, m) && 5 * Occurrences(files, files.Keys, b, m) >= 4 * |files|
  }

  lemma OccurrencesStep(files: map<string, seq<Line>>, names: set<string>, m: nat, f: string, b: Block)
    requires f in files && f !in names
    ensures Occurrences(files, names + {f}, b, m)
         == Occurrences(files, names, b, m) + (if b in Blocks(files[f], m) then 1 else 0)
  {
    if b in Blocks(files[f], m) {
      assert FilesWith(files, names + {f}, b, m) == FilesWith(files, names, b, m) + {f};
    } else {
      assert FilesWith(files, names + {f}, b, m) == FilesWith(files, names, b, m);
    }
  }

  lemma TallyStep(files: map<string, seq<Line>>, names: set<string>, m: nat,
                  counts: map<Block, nat>, f: string, counts': map<Block, nat>)
    requires Tally(files, names, m, counts) && f in files && f !in names
    requires Bumped(counts, Blocks(files[f], m), counts')
    ensures Tally(files, names + {f}, m, counts')
  {
    assert AllBlocks(files, names + {f}, m) == AllBlocks(files, names, m) + Blocks(files[f], m);
    forall b | b in counts'
      ensures counts'[b] == Occurrences(files, names + {f}, b, m)
    {
      OccurrencesStep(files, names, m, f, b);
      if b !in counts {
        assert FilesWith(files, names, b, m) == {};
      }
    }
  }

  /**
   * `find_common_blocks`: counts, over every file, how many files contain
   * each block, and keeps the blocks whose count reaches 80% of the number
   * of files. The files are visited in an arbitrary order.
   */
  method FindCommonBlocks(files: map<string, seq<Line>>, m: nat) returns (common: set<Block>)
    ensures common == CommonBlocks(files, m)
  {
    var counts: map<Block, nat> := map[];
    var todo := files.Keys;
    ghost var done: set<string> := {};
    while todo != {}
      invariant todo <= files.Keys && done == files.Keys - todo
      invariant Tally(files, done, m, counts)
      decreases |todo|
    {
      var name :| name in todo;
      var counts' := CountFile(files[name], m, counts);
      TallyStep(files, done, m, counts, name, counts');
      counts := counts';
      todo := todo - {name};
      done := done + {name};
    }
    assert done == files.Keys;
    common := set b | b in counts && 5 * counts[b] >= 4 * |files|;
  }

  /** A common block is a run of at least `m` consecutive lines of some file. */
  lemma CommonBlockIsSlice(files: map<string, seq<Line>>, m: nat, b: Block)
    requires b in CommonBlocks(files, m)
    ensures |b| >= m
    ensures exists f, i: nat :: f in files && i <= |files[f]| && MatchesAt(files[f], i, b)
  {
    var f :| f in files && b in Blocks(files[f], m);
    var lines := files[f];
    var i, j :| 0 <= i < |lines| && i + m <= j <= |lines| && b == lines[i..j];
    assert MatchesAt(lines, i, b);
  }

  lemma {:induction false} SubsetCard<T>(a: set<T>, b: set<T>)
    requires a <= b
    ensures |a| <= |b|
    decreases |b|
  {
    if a != {} {
      var x :| x in a;
      SubsetCard(a - {x}, b - {x});
    }
  }

  /** A block's count never exceeds the number of files. */
  lemma OccurrencesBounded(files: map<string, seq<Line>>, m: nat, b: Block)
    ensures Occurrences(files, files.Keys, b, m) <= |files|
  {
    SubsetCard(FilesWith(files, files.Keys, b, m), files.Keys);
  }

  /**
   * With at least one file, a block is common exactly when at least 80% of
   * the files contain it; with no files nothing is common.
   */
  lemma CommonIffThreshold(files: map<string, seq<Line>>, m: nat, b: Block)
    ensures |files| > 0 ==> (b in CommonBlocks(files, m) <==> 5 * Occurrences(files, files.Keys, b, m) >= 4 * |files|)
    ensures |files| == 0 ==> CommonBlocks(files, m) == {}
  {
    if |files| > 0 && 5 * Occurrences(files, files.Keys, b, m) >= 4 * |files| {
      assert FilesWith(files, files.Keys, b, m) != {};
      var f :| f in FilesWith(files, files.Keys, b, m);
      assert b in AllBlocks(files, files.Keys, m);
    }
    if |files| == 0 {
      assert files.Keys == {};
    }
  }

  /** A block every file contains is common. */
  lemma UniversalBlockIsCommon(files: map<string, seq<Line>>, m: nat, b: Block)
    requires |files| > 0
    requires forall f :: f in files ==> b in Blocks(files[f], m)
    ensures b in CommonBlocks(files, m)
  {
    assert FilesWith(files, files.Keys, b, m) == files.Keys;
    CommonIffThreshold(files, m, b);
  }

  // ---------------------------------------------------------------------
  // Removing blocks (remove_common_blocks)
  // ---------------------------------------------------------------------

  /** `tuple(lines[i:i + len(b)]) == b`: the slice is cut short at the end of the file. */
  predicate MatchesAt(lines: seq<Line>, i: nat, b: Block)
    requires i <= |lines|
  {
    i + |b| <= |lines| && lines[i..i + |b|] == b
  }

  /** The first block, in the set's iteration order `order`, that matches at `i`. */
  function FirstMatch(lines: seq<Line>, i: nat, order: seq<Block>): (r: Option<Block>)
    requires i <= |lines|
    ensures r.None? <==> forall k :: 0 <= k < |order| ==> !MatchesAt(lines, i, order[k])
    ensures r.Some? ==> exists k :: 0 <= k < |order| && order[k] == r.value && MatchesAt(lines, i, order[k]) &&
                                    forall k' :: 0 <= k' < k ==> !MatchesAt(lines, i, order[k'])
  {
    if order == [] then None
    else if MatchesAt(lines, i, order[0]) then Some(order[0])
    else
      var r := FirstMatch(lines, i, order[1..]);
      assert forall k :: 1 <= k < |order| ==> order[k] == order[1..][k - 1];
      r
  }

  /** The first block of `order` that matches at `i` is `order[k]` when no earlier one does. */
  lemma {:induction false} FirstMatchIs(lines: seq<Line>, i: nat, order: seq<Block>, k: nat)
    requires i <= |lines| && k < |order| && MatchesAt(lines, i, order[k])
    requires forall k' :: 0 <= k' < k ==> !MatchesAt(lines, i, order[k'])
    ensures FirstMatch(lines, i, order) == Some(order[k])
  {
    if k > 0 {
      assert !MatchesAt(lines, i, order[0]);
      assert forall k' :: 0 <= k' < k - 1 ==> order[1..][k'] == order[k' + 1];
      FirstMatchIs(lines, i, order[1..], k - 1);
    }
  }

  /** No block in the iteration order is empty. */
  predicate NonEmptyBlocks(order: seq<Block>) {
    forall k :: 0 <= k < |order| ==> |order[k]| > 0
  }

  /**
   * Where one pass of the scan loop leaves the index, as written: past the
   * first matching block, or one line further when none matches.
   */
  function ScanStep(lines: seq<Line>, i: nat, order: seq<Block>): (next: nat)
    requires i < |lines|
    ensures NonEmptyBlocks(order) ==> i < next <= |lines|
  {
    match FirstMatch(lines, i, order)
    case Some(b) => i + |b|
    case None => i + 1
  }

  /** The lines the scan keeps from position `i` on. */
  function Clean(lines: seq<Line>, order: seq<Block>, i: nat): seq<Line>
    requires i <= |lines| && NonEmptyBlocks(order)
    decreases |lines| - i
  {
    if i == |lines| then []
    else
      var kept := if FirstMatch(lines, i, order).None? then [lines[i]] else [];
      kept + Clean(lines, order, ScanStep(lines, i, order))
  }

  /** The inner loop of the scan: tries the blocks in iteration order and stops at the first that matches at `i`. */
  method FirstBlockAt(lines: seq<Line>, i: nat, order: seq<Block>) returns (found: Option<Block>)
    requires i <= |lines|
    ensures found == FirstMatch(lines, i, order)
  {
    for k := 0 to |order|
      invariant forall k' :: 0 <= k' < k ==> !MatchesAt(lines, i, order[k'])
    {
      var block := order[k];
      var blockSize := |block|;
      if i + blockSize <= |lines| && lines[i..i + blockSize] == block {
        FirstMatchIs(lines, i, order, k);
        return Some(block);
      }
    }
    return None;
  }

  /**
   * The scan over one file: at each index, skip past the first common block
   * (in iteration order) that starts there, or keep the line and move on.
   */
  method CleanFile(lines: seq<Line>, order: seq<Block>) returns (cleaned: seq<Line>)
    requires NonEmptyBlocks(order)
    ensures cleaned == Clean(lines, order, 0)
  {
    cleaned := [];
    var i := 0;
    var length := |lines|;
    while i < length
      invariant 0 <= i <= length
      invariant cleaned + Clean(lines, order, i) == Clean(lines, order, 0)
      decreases length - i
    {
      var found := FirstBlockAt(lines, i, order);
      ghost var next := ScanStep(lines, i, order);
      ghost var rest := Clean(lines, order, next);
      match found {
        case Some(block) =>
          assert Clean(lines, order, i) == [] + rest;
          assert [] + rest == rest;
          i := i + |block|;
        case None =>
          assert Clean(lines, order, i) == [lines[i]] + rest;
          assert (cleaned + [lines[i]]) + rest == cleaned + ([lines[i]] + rest);
          cleaned := cleaned + [lines[i]];
          i := i + 1;
      }
      assert i == next;
    }
  }

  /** `remove_common_blocks`: every file cleaned with the same iteration order of the common blocks. */
  method RemoveCommonBlocks(files: map<string, seq<Line>>, order: seq<Block>) returns (cleaned: map<string, seq<Line>>)
    requires NonEmptyBlocks(order)
    ensures cleaned.Keys == files.Keys
    ensures forall f :: f in cleaned ==> cleaned[f] == Clean(files[f], order, 0)
  {
    cleaned := map[];
    var todo := files.Keys;
    while todo != {}
      invariant todo <= files.Keys && cleaned.Keys == files.Keys - todo
      invariant forall f :: f in cleaned ==> cleaned[f] == Clean(files[f], order, 0)
      decreases |todo|
    {
      var name :| name in todo;
      var lines := CleanFile(files[name], order);
      cleaned := cleaned[name := lines];
      todo := todo - {name};
    }
  }

  /** `a` is `b` with some elements left out, the rest in their order. */
  ghost predicate Subsequence<T>(a: seq<T>, b: seq<T>)
    decreases |b|
  {
    a == [] || (b != [] && ((a[0] == b[0] && Subsequence(a[1..], b[1..])) || Subsequence(a, b[1..])))
  }

  lemma {:induction false} SubsequenceSkip<T>(a: seq<T>, b: seq<T>, n: nat)
    requires n <= |b| && Subsequence(a, b[n..])
    ensures Subsequence(a, b)
  {
    if n > 0 {
      assert b[1..][n - 1..] == b[n..];
      SubsequenceSkip(a, b[1..], n - 1);
    }
  }

  lemma {:induction false} SubsequenceNoLonger<T>(a: seq<T>, b: seq<T>)
    requires Subsequence(a, b)
    ensures |a| <= |b|
    decreases |b|
  {
    if a != [] {
      if a[0] == b[0] && Subsequence(a[1..], b[1..]) {
        SubsequenceNoLonger(a[1..], b[1..]);
      } else {
        SubsequenceNoLonger(a, b[1..]);
      }
    }
  }

  lemma SubsequenceCons<T>(x: T, a: seq<T>, b: seq<T>)
    requires Subsequence(a, b)
    ensures Subsequence([x] + a, [x] + b)
  {
    assert ([x] + a)[1..] == a && ([x] + b)[1..] == b;
  }

  /** The cleaned lines are the original lines with some left out, in their order: nothing is added or reordered. */
  lemma {:induction false} CleanIsSubsequence(lines: seq<Line>, order: seq<Block>, i: nat)
    requires i <= |lines| && NonEmptyBlocks(order)
    ensures Subsequence(Clean(lines, order, i), lines[i..])
    ensures |Clean(lines, order, i)| <= |lines| - i
    decreases |lines| - i
  {
    if i < |lines| {
      var next := ScanStep(lines, i, order);
      CleanIsSubsequence(lines, order, next);
      var rest := Clean(lines, order, next);
      if FirstMatch(lines, i, order).None? {
        assert Clean(lines, order, i) == [lines[i]] + rest;
        assert lines[i..] == [lines[i]] + lines[next..];
        SubsequenceCons(lines[i], rest, lines[next..]);
      } else {
        assert Clean(lines, order, i) == rest;
        assert lines[i..][next - i..] == lines[next..];
        SubsequenceSkip(rest, lines[i..], next - i);
      }
      SubsequenceNoLonger(Clean(lines, order, i), lines[i..]);
    }
  }

  /** Where no block matches at any remaining position, the file comes back unchanged. */
  lemma {:induction false} CleanWithoutMatches(lines: seq<Line>, order: seq<Block>, i: nat)
    requires i <= |lines| && NonEmptyBlocks(order)
    requires forall j, k :: i <= j < |lines| && 0 <= k < |order| ==> !MatchesAt(lines, j, order[k])
    ensures Clean(lines, order, i) == lines[i..]
    decreases |lines| - i
  {
    if i < |lines| {
      CleanWithoutMatches(lines, order, i + 1);
      assert lines[i..] == [lines[i]] + lines[i + 1..];
    }
  }

  /** With no common blocks, every file comes back unchanged. */
  lemma NoBlocksNoChange(lines: seq<Line>)
    ensures Clean(lines, [], 0) == lines
  {
    CleanWithoutMatches(lines, [], 0);
  }

  /** The iteration order of a set of blocks: each block once, in an arbitrary order. */
  method Enumerate(blocks: set<Block>) returns (order: seq<Block>)
    ensures forall b :: b in order <==> b in blocks
    ensures |order| == |blocks|
  {
    order := [];
    var rest := blocks;
    while rest != {}
      invariant rest <= blocks
      invariant forall b :: b in order <==> b in blocks - rest
      invariant |order| + |rest| == |blocks|
      decreases |rest|
    {
      var b :| b in rest;
      order := order + [b];
      rest := rest - {b};
    }
  }

  /** With a positive block size, no common block is empty, so the scan always advances. */
  lemma CommonBlocksNonEmpty(files: map<string, seq<Line>>, m: nat, order: seq<Block>)
    requires m >= 1
    requires forall b :: b in order ==> b in CommonBlocks(files, m)
    ensures NonEmptyBlocks(order)
  {
    forall k | 0 <= k < |order|
      ensures |order[k]| > 0
    {
      CommonBlockIsSlice(files, m, order[k]);
    }
  }

  /**
   * `process_markdown_directory` on contents already read: finds the common
   * blocks, fixes the order in which the set is iterated, and removes them.
   */
  method ProcessMarkdownDirectory(files: map<string, seq<Line>>, m: nat)
    returns (cleaned: map<string, seq<Line>>, ghost order: seq<Block>)
    requires m >= 1
    ensures forall b :: b in order <==> b in CommonBlocks(files, m)
    ensures NonEmptyBlocks(order)
    ensures cleaned.Keys == files.Keys
    ensures forall f :: f in cleaned ==> cleaned[f] == Clean(files[f], order, 0)
    ensures forall f :: f in cleaned ==> Subsequence(cleaned[f], files[f])
  {
    var common := FindCommonBlocks(files, m);
    var iteration := Enumerate(common);
    CommonBlocksNonEmpty(files, m, iteration);
    cleaned := RemoveCommonBlocks(files, iteration);
    order := iteration;
    forall f | f in cleaned
      ensures Subsequence(cleaned[f], files[f])
    {
      CleanIsSubsequence(files[f], order, 0);
      assert files[f][0..] == files[f];
    }
  }

  // ---------------------------------------------------------------------
  // A block size of zero
  // ---------------------------------------------------------------------

  /** With `min_block_size == 0`, the empty slice is a block of every non-empty file. */
  lemma EmptySliceIsBlock(lines: seq<Line>)
    requires |lines| > 0
    ensures [] in Blocks(lines, 0)
  {
    assert lines[0..0] == [];
  }

  /**
   * As written, a block size of 0 makes the empty block common for two
   * one-line files, and a scan whose first block is the empty one never
   * moves past index 0.
   */
  lemma EmptyBlockStallsScan()
    ensures [] in CommonBlocks(map["a.md" := ["x"], "b.md" := ["y"]], 0)
    ensures ScanStep(["x"], 0, [[]]) == 0
  {
    var files := map["a.md" := ["x"], "b.md" := ["y"]];
    EmptySliceIsBlock(["x"]);
    EmptySliceIsBlock(["y"]);
    UniversalBlockIsCommon(files, 0, []);
    assert MatchesAt(["x"], 0, []);
  }
}
