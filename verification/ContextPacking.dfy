/** Choosing the source files that a reviewer sees (arena/benchmark/case_loader.py and
    arena/patching/patch_parser.py).  Directory walks and file reads are parameters. */
module ContextPacking {
  import opened Common

  type Path = string

  /** `at` are the ascending positions at which the paths occur for the first time. */
  ghost predicate FirstOccurrences(paths: seq<Path>, targets: seq<Path>, at: seq<nat>) {
    && |at| == |paths| && (forall i, k :: 0 <= i < k < |at| ==> at[i] < at[k])
    && forall i :: 0 <= i < |at| ==> at[i] < |targets| && paths[i] == targets[at[i]] && paths[i] !in targets[..at[i]]
  }

  /** The target paths of a diff without repetition, in the order in which they first occur.
      `targets` are the normalised paths of its "+++" lines, "" for a target that is no path. */
  method TouchedFiles(targets: seq<Path>) returns (paths: seq<Path>, ghost at: seq<nat>)
    ensures Distinct(paths) && FirstOccurrences(paths, targets, at)
    ensures forall path :: path in paths <==> path in targets && path != ""
  {
    paths, at := [], [];
    for k := 0 to |targets|
      invariant Distinct(paths) && FirstOccurrences(paths, targets, at)
      invariant forall i :: 0 <= i < |at| ==> at[i] < k
      invariant forall path :: path in paths <==> path in targets[..k] && path != ""
    {
      assert targets[..k + 1] == targets[..k] + [targets[k]];
      if targets[k] != "" && targets[k] !in paths {
        DistinctAppend(paths, targets[k]);
        paths, at := paths + [targets[k]], at + [k];
      }
    }
    assert targets[..|targets|] == targets;
  }

  // ---------------------------------------------------------------- the order

  /** The elements of `paths` that are (or are not) in `chosen`, in order. */
  function Filter(paths: seq<Path>, chosen: seq<Path>, keep: bool): seq<Path> {
    if paths == [] then []
    else
      var last := paths[|paths| - 1];
      Filter(paths[..|paths| - 1], chosen, keep) + if (last in chosen) == keep then [last] else []
  }

  /** Files that the diff touches first, in the diff's order; then the others. */
  function Ordered(touched: seq<Path>, all: seq<Path>): seq<Path> {
    var diffFirst := Filter(touched, all, true);
    diffFirst + Filter(all, diffFirst, false)
  }

  lemma {:induction false} FilterSelects(paths: seq<Path>, chosen: seq<Path>, keep: bool)
    ensures forall p :: p in Filter(paths, chosen, keep) <==> p in paths && (p in chosen) == keep
    ensures Distinct(paths) ==> Distinct(Filter(paths, chosen, keep))
  {
    if paths != [] {
      var rest, last := paths[..|paths| - 1], paths[|paths| - 1];
      assert paths == rest + [last];
      FilterSelects(rest, chosen, keep);
      DistinctAppend(rest, last);
      DistinctAppend(Filter(rest, chosen, keep), last);
    }
  }

  /** The path at i stands before the path at k in the list `from`. */
  ghost predicate KeepsOrder(ordered: seq<Path>, i: nat, k: nat, from: seq<Path>)
    requires i < |ordered| && k < |ordered|
  {
    exists a, b :: 0 <= a < b < |from| && from[a] == ordered[i] && from[b] == ordered[k]
  }

  /** The positions of the selected paths, in order. */
  ghost function FilterAt(paths: seq<Path>, chosen: seq<Path>, keep: bool): (at: seq<nat>)
    ensures forall i :: 0 <= i < |at| ==> at[i] < |paths|
    ensures forall i, k :: 0 <= i < k < |at| ==> at[i] < at[k]
  {
    if paths == [] then []
    else
      FilterAt(paths[..|paths| - 1], chosen, keep) + if (paths[|paths| - 1] in chosen) == keep then [|paths| - 1] else []
  }

  lemma {:induction false} FilterIsAt(paths: seq<Path>, chosen: seq<Path>, keep: bool)
    ensures
      var at, kept := FilterAt(paths, chosen, keep), Filter(paths, chosen, keep);
      |at| == |kept| && forall i :: 0 <= i < |at| ==> kept[i] == paths[at[i]]
  {
    if paths != [] { FilterIsAt(paths[..|paths| - 1], chosen, keep); }
  }

  lemma {:induction false} FilterKeepsOrder(paths: seq<Path>, chosen: seq<Path>, keep: bool)
    ensures forall i, k :: 0 <= i < k < |Filter(paths, chosen, keep)| ==> KeepsOrder(Filter(paths, chosen, keep), i, k, paths)
  {
    FilterIsAt(paths, chosen, keep);
    var at, kept := FilterAt(paths, chosen, keep), Filter(paths, chosen, keep);
    forall i, k | 0 <= i < k < |kept| ensures KeepsOrder(kept, i, k, paths) {
      assert paths[at[i]] == kept[i] && paths[at[k]] == kept[k];
    }
  }

  /** Touched files come in the order of the diff, and the others in the order of the directory walk. */
  lemma {:induction false} OrderIsStable(touched: seq<Path>, all: seq<Path>)
    requires Distinct(touched) && Distinct(all)
    ensures
      var ordered := Ordered(touched, all);
      forall i, k :: 0 <= i < k < |ordered| ==>
        && (ordered[i] in touched && ordered[k] in touched ==> KeepsOrder(ordered, i, k, touched))
        && (ordered[i] !in touched && ordered[k] !in touched ==> KeepsOrder(ordered, i, k, all))
  {
    var diffFirst := Filter(touched, all, true);
    var others := Filter(all, diffFirst, false);
    FilterSelects(touched, all, true);
    FilterSelects(all, diffFirst, false);
    FilterKeepsOrder(touched, all, true);
    FilterKeepsOrder(all, diffFirst, false);
    hide Filter;
    var ordered := diffFirst + others;
    forall i, k | 0 <= i < k < |ordered|
      ensures ordered[i] in touched && ordered[k] in touched ==> KeepsOrder(ordered, i, k, touched)
      ensures ordered[i] !in touched && ordered[k] !in touched ==> KeepsOrder(ordered, i, k, all)
    {
      var n := |diffFirst|;
      if k < n {
        assert KeepsOrder(diffFirst, i, k, touched);
      } else if i >= n {
        assert KeepsOrder(others, i - n, k - n, all);
      } else {
        assert ordered[i] == diffFirst[i] && ordered[k] == others[k - n];
      }
    }
  }

  /** The ordered list has every file once, and those that the diff touches before the others. */
  lemma {:induction false} OrderedIsPermutation(touched: seq<Path>, all: seq<Path>)
    requires Distinct(touched) && Distinct(all)
    ensures
      var ordered := Ordered(touched, all);
      && Distinct(ordered) && (forall p :: p in ordered <==> p in all)
      && (forall i, k :: 0 <= i < k < |ordered| && ordered[k] in touched ==> ordered[i] in touched)
  {
    var diffFirst := Filter(touched, all, true);
    var others := Filter(all, diffFirst, false);
    FilterSelects(touched, all, true);
    FilterSelects(all, diffFirst, false);
    var ordered := diffFirst + others;
    hide Filter;
    forall i | 0 <= i < |ordered| ensures ordered[i] in touched <==> i < |diffFirst| {
      if i < |diffFirst| {
        assert ordered[i] == diffFirst[i];
      } else {
        assert ordered[i] == others[i - |diffFirst|];
      }
    }
    forall i, k | 0 <= i < k < |ordered| ensures ordered[i] != ordered[k] {
      if k < |diffFirst| {
        assert ordered[i] == diffFirst[i] && ordered[k] == diffFirst[k];
      } else if i >= |diffFirst| {
        assert ordered[i] == others[i - |diffFirst|] && ordered[k] == others[k - |diffFirst|];
      }
    }
  }

  // ---------------------------------------------------------------- the budget

  datatype Limits = Limits(maxFiles: int, maxTotalBytes: int)

  /** A capped read: the text with its truncation marker if it was cut, its encoded size, and
      whether it was cut. */
  datatype Text = Text(text: string, size: nat, cut: bool)

  /** Total size of the first k files. */
  ghost function Bytes(ordered: seq<Path>, read: Path -> Text, k: nat): nat
    requires k <= |ordered|
  {
    if k == 0 then 0 else Bytes(ordered, read, k - 1) + read(ordered[k - 1]).size
  }

  /** With the files before k included, file k still fits. */
  ghost predicate Fits(ordered: seq<Path>, read: Path -> Text, limits: Limits, k: nat)
    requires k < |ordered|
  {
    && k < limits.maxFiles
    && Bytes(ordered, read, k) < limits.maxTotalBytes
    && Bytes(ordered, read, k + 1) <= limits.maxTotalBytes
  }

  /** k files are included: the longest prefix of which every file fits. */
  ghost predicate Included(ordered: seq<Path>, read: Path -> Text, limits: Limits, k: nat) {
    && k <= |ordered|
    && (forall i :: 0 <= i < k ==> Fits(ordered, read, limits, i))
    && (k < |ordered| ==> !Fits(ordered, read, limits, k))
  }

  ghost predicate Pairs(contents: seq<(Path, string)>, ordered: seq<Path>, read: Path -> Text, k: nat)
    requires k <= |ordered|
  {
    |contents| == k && forall i :: 0 <= i < k ==> contents[i] == (ordered[i], read(ordered[i]).text)
  }

  /** The packing loop.  The included files are a prefix of the ordered list, the omitted ones are
      the rest, both budgets hold, and the flag tells whether anything is missing. */
  method ReadRelevantFiles(touched: seq<Path>, all: seq<Path>, read: Path -> Text, limits: Limits)
    returns (contents: seq<(Path, string)>, truncated: bool, omitted: seq<Path>)
    requires Distinct(touched) && Distinct(all)
    ensures
      var ordered := Ordered(touched, all);
      exists k: nat :: Included(ordered, read, limits, k) && Pairs(contents, ordered, read, k) && omitted == ordered[k..]
    ensures |contents| == 0 || |contents| <= limits.maxFiles
    ensures
      var ordered := Ordered(touched, all);
      |contents| <= |ordered| && (|contents| == 0 || Bytes(ordered, read, |contents|) <= limits.maxTotalBytes)
    ensures truncated <==> omitted != [] || exists i :: 0 <= i < |contents| && read(contents[i].0).cut
  {
    var ordered := Ordered(touched, all);
    hide Ordered;
    contents, omitted, truncated := [], [], false;
    var totalBytes := 0;
    ghost var k := 0;
    for n := 0 to |ordered|
      invariant 0 <= k <= n && Pairs(contents, ordered, read, k) && omitted == ordered[k..n]
      invariant forall i :: 0 <= i < k ==> Fits(ordered, read, limits, i)
      invariant k == n ==> totalBytes == Bytes(ordered, read, k)
      invariant k < n ==> !Fits(ordered, read, limits, k)
      invariant k < n ==> k >= limits.maxFiles || totalBytes >= limits.maxTotalBytes
      invariant truncated ==> omitted != [] || exists i :: 0 <= i < k && read(ordered[i]).cut
      invariant forall i :: 0 <= i < k && read(ordered[i]).cut ==> truncated
    {
      var relative := ordered[n];
      assert ordered[k..n + 1] == ordered[k..n] + [relative];
      if |contents| >= limits.maxFiles || totalBytes >= limits.maxTotalBytes {
        omitted := omitted + [relative];
        continue;
      }
      var file := read(relative);
      if file.cut { truncated := true; }
      if totalBytes + file.size > limits.maxTotalBytes {
        omitted := omitted + [relative];
        totalBytes := limits.maxTotalBytes;
        continue;
      }
      contents := contents + [(relative, file.text)];
      totalBytes := totalBytes + file.size;
      k := k + 1;
    }
    assert omitted == ordered[k..];
    assert Included(ordered, read, limits, k);
    if k > 0 { assert Fits(ordered, read, limits, k - 1); }
    truncated := truncated || omitted != [];
  }

  /** There is only one such prefix. */
  lemma {:induction false} IncludedIsUnique(ordered: seq<Path>, read: Path -> Text, limits: Limits, k: nat, m: nat)
    requires Included(ordered, read, limits, k) && Included(ordered, read, limits, m)
    ensures k == m
  {
  }

  lemma {:induction false} BytesGrow(ordered: seq<Path>, read: Path -> Text, k: nat, m: nat)
    requires k <= m <= |ordered|
    ensures Bytes(ordered, read, k) <= Bytes(ordered, read, m)
  {
    if k < m { BytesGrow(ordered, read, k, m - 1); }
  }

  /** Nothing is omitted exactly when all files fit both budgets and, if the last ones are empty,
      the byte budget is not used up before them. */
  lemma {:induction false} NothingOmittedExactly(ordered: seq<Path>, read: Path -> Text, limits: Limits)
    ensures Included(ordered, read, limits, |ordered|) <==>
              ordered == [] || (|ordered| <= limits.maxFiles && Bytes(ordered, read, |ordered|) <= limits.maxTotalBytes
                                && Bytes(ordered, read, |ordered| - 1) < limits.maxTotalBytes)
  {
    var n := |ordered|;
    if n > 0 {
      if Included(ordered, read, limits, n) {
        assert Fits(ordered, read, limits, n - 1);
      }
      forall i | 0 <= i < n && n <= limits.maxFiles && Bytes(ordered, read, n) <= limits.maxTotalBytes
                 && Bytes(ordered, read, n - 1) < limits.maxTotalBytes
        ensures Fits(ordered, read, limits, i)
      {
        BytesGrow(ordered, read, i, n - 1);
        BytesGrow(ordered, read, i + 1, n);
      }
    }
  }
}
