/**
 * The `exclude` input and the file filter applied to a parsed diff in both
 * branches of the entry point: the comma-separated input is split and each
 * piece trimmed, and a file survives when its target path matches none of
 * the patterns.
 */
module Exclusion {
  import opened Wrappers
  import opened Text

  /**
   * One file of a parsed diff. The diff parser is an external library; all the
   * filter looks at is the target path `to`, which may be absent. The source
   * path and the hunk text are carried along untouched.
   */
  datatype DiffFile = DiffFile(from: Option<string>, to: Option<string>, chunks: seq<string>)

  /**
   * A glob matcher, `minimatch(path, pattern)`. Its semantics belong to an
   * external library, so the model takes it as a parameter and assumes
   * nothing about it.
   */
  type Matcher = (string, string) -> bool

  // ---------------------------------------------------------------------------
  // Parsing the exclude input
  // ---------------------------------------------------------------------------

  /** `input.split(",").map((s) => s.trim())`. */
  function ParseExcludePatterns(input: string): (patterns: seq<string>)
    ensures |patterns| == multiset(input)[','] + 1
    ensures forall i :: 0 <= i < |patterns| ==> ',' !in patterns[i] && Trimmed(patterns[i])
  {
    var pieces := Split(input, ',');
    var patterns := seq(|pieces|, i requires 0 <= i < |pieces| => Trim(pieces[i]));
    assert forall i :: 0 <= i < |pieces| ==> ',' !in patterns[i] by {
      forall i | 0 <= i < |pieces| ensures ',' !in patterns[i] {
        TrimStaysInside(pieces[i], ',');
      }
    }
    patterns
  }

  /** Trimming only removes characters, so a character absent before is absent after. */
  lemma TrimStaysInside(s: string, c: char)
    requires c !in s
    ensures c !in Trim(s)
  {
  }

  /**
   * Reading back a comma-joined list: the patterns are the pieces, trimmed,
   * one per piece and in the same order.
   */
  lemma ParseJoinedPatterns(pieces: seq<string>)
    requires |pieces| >= 1
    requires forall i :: 0 <= i < |pieces| ==> ',' !in pieces[i]
    ensures var patterns := ParseExcludePatterns(Join(pieces, ','));
            |patterns| == |pieces| &&
            forall i :: 0 <= i < |pieces| ==> patterns[i] == Trim(pieces[i])
  {
    SplitJoin(pieces, ',');
  }

  // ---------------------------------------------------------------------------
  // Filtering
  // ---------------------------------------------------------------------------

  /** The path the filter tests: `file.to ?? ""`. */
  function TargetPath(f: DiffFile): string {
    f.to.GetOr("")
  }

  /** `patterns.some((pattern) => matches(path, pattern))`. */
  function AnyMatch(path: string, patterns: seq<string>, matches: Matcher): (b: bool)
    ensures b <==> exists i :: 0 <= i < |patterns| && matches(path, patterns[i])
    decreases |patterns|
  {
    if patterns == [] then false
    else matches(path, patterns[0]) || AnyMatch(path, patterns[1..], matches)
  }

  /** Whether the filter keeps `f`: no pattern matches its target path. */
  predicate Kept(f: DiffFile, patterns: seq<string>, matches: Matcher) {
    !AnyMatch(TargetPath(f), patterns, matches)
  }

  /** `a` can be obtained from `b` by deleting elements, keeping the order of the rest. */
  predicate IsSubsequence<T(==)>(a: seq<T>, b: seq<T>)
    decreases |b|
  {
    if a == [] then true
    else if b == [] then false
    else (a[0] == b[0] && IsSubsequence(a[1..], b[1..])) || IsSubsequence(a, b[1..])
  }

  /**
   * `files.filter((file) => !patterns.some(...))`: the files whose target path
   * matches no pattern, in their original order, each as often as it occurs.
   */
  function Filter(files: seq<DiffFile>, patterns: seq<string>, matches: Matcher): (kept: seq<DiffFile>)
    ensures IsSubsequence(kept, files)
    ensures forall i :: 0 <= i < |kept| ==> Kept(kept[i], patterns, matches)
    ensures forall f :: multiset(kept)[f] == if Kept(f, patterns, matches) then multiset(files)[f] else 0
    decreases |files|
  {
    if files == [] then []
    else
      var rest := Filter(files[1..], patterns, matches);
      assert files == [files[0]] + files[1..];
      if Kept(files[0], patterns, matches) then [files[0]] + rest else rest
  }

  /** A file of the input is among the kept files exactly when it is kept. */
  lemma FilterMembership(files: seq<DiffFile>, patterns: seq<string>, matches: Matcher, f: DiffFile)
    requires f in files
    ensures f in Filter(files, patterns, matches) <==> Kept(f, patterns, matches)
  {
    var kept := Filter(files, patterns, matches);
    assert f in multiset(files);
    assert f in kept <==> f in multiset(kept);
  }

  /** Filtering an already filtered list with the same patterns changes nothing. */
  lemma {:induction false} FilterIdempotent(files: seq<DiffFile>, patterns: seq<string>, matches: Matcher)
    ensures Filter(Filter(files, patterns, matches), patterns, matches) == Filter(files, patterns, matches)
    decreases |files|
  {
    if files != [] {
      FilterIdempotent(files[1..], patterns, matches);
      var rest := Filter(files[1..], patterns, matches);
      if Kept(files[0], patterns, matches) {
        assert ([files[0]] + rest)[1..] == rest;
      }
    }
  }

  /** With no patterns at all, every file is kept. */
  lemma {:induction false} FilterNoPatterns(files: seq<DiffFile>, matches: Matcher)
    ensures Filter(files, [], matches) == files
    decreases |files|
  {
    if files != [] {
      FilterNoPatterns(files[1..], matches);
      assert !AnyMatch(TargetPath(files[0]), [], matches);
      assert files == [files[0]] + files[1..];
    }
  }

  /** Filtering a concatenation filters each part and concatenates the results. */
  lemma {:induction false} FilterAppend(a: seq<DiffFile>, b: seq<DiffFile>, patterns: seq<string>, matches: Matcher)
    ensures Filter(a + b, patterns, matches) == Filter(a, patterns, matches) + Filter(b, patterns, matches)
    decreases |a|
  {
    if a == [] {
      assert a + b == b;
    } else {
      assert (a + b)[0] == a[0];
      assert (a + b)[1..] == a[1..] + b;
      FilterAppend(a[1..], b, patterns, matches);
    }
  }

  /** A path matches some pattern of `p + q` exactly when it matches some pattern of `p` or some of `q`. */
  lemma AnyMatchConcat(path: string, p: seq<string>, q: seq<string>, matches: Matcher)
    ensures AnyMatch(path, p + q, matches) <==> AnyMatch(path, p, matches) || AnyMatch(path, q, matches)
  {
    if AnyMatch(path, p + q, matches) {
      var i :| 0 <= i < |p + q| && matches(path, (p + q)[i]);
      if i >= |p| { assert (p + q)[i] == q[i - |p|]; }
    }
    if AnyMatch(path, p, matches) {
      var i :| 0 <= i < |p| && matches(path, p[i]);
      assert (p + q)[i] == p[i];
    }
    if AnyMatch(path, q, matches) {
      var i :| 0 <= i < |q| && matches(path, q[i]);
      assert (p + q)[|p| + i] == q[i];
    }
  }

  /** Excluding by two pattern lists at once is excluding by one and then by the other. */
  lemma {:induction false} FilterPatternsConcat(files: seq<DiffFile>, p: seq<string>, q: seq<string>, matches: Matcher)
    ensures Filter(files, p + q, matches) == Filter(Filter(files, p, matches), q, matches)
    decreases |files|
  {
    if files != [] {
      FilterPatternsConcat(files[1..], p, q, matches);
      var f := files[0];
      var path := TargetPath(f);
      AnyMatchConcat(path, p, q, matches);
      var rest := Filter(files[1..], p, matches);
      if Kept(f, p, matches) {
        assert ([f] + rest)[1..] == rest;
      }
    }
  }

  /**
   * What both branches of the entry point analyse: the parsed diff with the
   * excluded files removed.
   */
  function ReviewableFiles(diff: string, excludeInput: string, parse: string -> seq<DiffFile>, matches: Matcher): seq<DiffFile> {
    Filter(parse(diff), ParseExcludePatterns(excludeInput), matches)
  }

  /**
   * The files analysed keep their order in the parsed diff, and none of them
   * has a target path that one of the comma-separated, trimmed patterns
   * matches; every parsed file that no pattern matches is analysed.
   */
  lemma ReviewableFilesExcluded(diff: string, excludeInput: string, parse: string -> seq<DiffFile>, matches: Matcher)
    ensures var files := ReviewableFiles(diff, excludeInput, parse, matches);
            var patterns := ParseExcludePatterns(excludeInput);
            && IsSubsequence(files, parse(diff))
            && (forall i, j :: 0 <= i < |files| && 0 <= j < |patterns| ==> !matches(TargetPath(files[i]), patterns[j]))
            && (forall f :: f in parse(diff) && (forall j :: 0 <= j < |patterns| ==> !matches(TargetPath(f), patterns[j])) ==>
                  f in files)
  {
    var files := ReviewableFiles(diff, excludeInput, parse, matches);
    var patterns := ParseExcludePatterns(excludeInput);
    forall f | f in parse(diff) && (forall j :: 0 <= j < |patterns| ==> !matches(TargetPath(f), patterns[j]))
      ensures f in files
    {
      FilterMembership(parse(diff), patterns, matches, f);
    }
  }
}
