/** The selection pipeline of a backup's file selection: expand every pattern,
    keep what exists, canonicalise, flatten directories into their files,
    deduplicate, and subtract the files the exclude patterns reach. */
module Selection {
  import opened Sequences
  import opened Filesystem

  /** Every pattern expanded by the host's glob, results concatenated in
      pattern order, without deduplication. A pattern without wildcards is
      expanded too, so a literal path survives only if glob returns it. */
  function ExpandWildCardPaths(fs: FileSystem, patterns: seq<string>): (paths: seq<string>)
    ensures forall x :: x in paths <==> exists p :: p in patterns && x in fs.glob(p)
  {
    if patterns == [] then []
    else fs.glob(patterns[0]) + ExpandWildCardPaths(fs, patterns[1..])
  }

  /** The paths that exist, in their order. */
  function ExistingPaths(fs: FileSystem, paths: seq<string>): (existing: seq<string>)
    ensures forall x :: x in existing <==> x in paths && fs.fileExists(x)
    ensures |existing| <= |paths|
  {
    if paths == [] then []
    else
      var last := paths[|paths| - 1];
      ExistingPaths(fs, paths[..|paths| - 1]) + (if fs.fileExists(last) then [last] else [])
  }

  /** Every path replaced by its canonical form, position by position. */
  function RealPaths(fs: FileSystem, paths: seq<string>): (resolved: seq<string>)
    ensures |resolved| == |paths|
    ensures forall i :: 0 <= i < |paths| ==> resolved[i] == fs.realpath(paths[i])
  {
    if paths == [] then []
    else [fs.realpath(paths[0])] + RealPaths(fs, paths[1..])
  }

  /** What one resolved path contributes: the listing of a directory, or the
      path itself. */
  function FileContribution(fs: FileSystem, path: string, followLinks: bool): seq<string> {
    if fs.isDir(path) then fs.listFiles(path, followLinks) else [path]
  }

  /** The left fold that merges the listing of each directory, or pushes each
      other path, onto an accumulator that starts empty. */
  function FlattenDirectories(fs: FileSystem, paths: seq<string>, followLinks: bool): (files: seq<string>)
    ensures forall x :: x in files <==> exists p :: p in paths && x in FileContribution(fs, p, followLinks)
  {
    if paths == [] then []
    else FlattenDirectories(fs, paths[..|paths| - 1], followLinks)
         + FileContribution(fs, paths[|paths| - 1], followLinks)
  }

  /** A file the patterns reach: some pattern globs to an existing path whose
      canonical form is that file, or is a directory that lists it. */
  ghost predicate Reaches(fs: FileSystem, patterns: seq<string>, followLinks: bool, x: string) {
    exists p, q :: p in patterns && q in fs.glob(p) && fs.fileExists(q)
                   && x in FileContribution(fs, fs.realpath(q), followLinks)
  }

  /** The files the patterns lead to, before deduplication. */
  function CollectedFiles(fs: FileSystem, patterns: seq<string>, followLinks: bool): (files: seq<string>)
    ensures forall x :: x in files <==> Reaches(fs, patterns, followLinks, x)
  {
    var resolved := RealPaths(fs, ExistingPaths(fs, ExpandWildCardPaths(fs, patterns)));
    CollectedOnlyReached(fs, patterns, followLinks);
    ReachedIsCollected(fs, patterns, followLinks);
    FlattenDirectories(fs, resolved, followLinks)
  }

  lemma CollectedOnlyReached(fs: FileSystem, patterns: seq<string>, followLinks: bool)
    ensures var resolved := RealPaths(fs, ExistingPaths(fs, ExpandWildCardPaths(fs, patterns)));
            forall x :: x in FlattenDirectories(fs, resolved, followLinks) ==> Reaches(fs, patterns, followLinks, x)
  {
    var existing := ExistingPaths(fs, ExpandWildCardPaths(fs, patterns));
    var resolved := RealPaths(fs, existing);
    forall x | x in FlattenDirectories(fs, resolved, followLinks)
      ensures Reaches(fs, patterns, followLinks, x)
    {
      var r :| r in resolved && x in FileContribution(fs, r, followLinks);
      var i :| 0 <= i < |resolved| && resolved[i] == r;
      var q := existing[i];
      assert q in existing;
      var p :| p in patterns && q in fs.glob(p);
    }
  }

  lemma ReachedIsCollected(fs: FileSystem, patterns: seq<string>, followLinks: bool)
    ensures var resolved := RealPaths(fs, ExistingPaths(fs, ExpandWildCardPaths(fs, patterns)));
            forall x :: Reaches(fs, patterns, followLinks, x) ==> x in FlattenDirectories(fs, resolved, followLinks)
  {
    var existing := ExistingPaths(fs, ExpandWildCardPaths(fs, patterns));
    var resolved := RealPaths(fs, existing);
    forall x | Reaches(fs, patterns, followLinks, x)
      ensures x in FlattenDirectories(fs, resolved, followLinks)
    {
      var p, q :| p in patterns && q in fs.glob(p) && fs.fileExists(q)
                  && x in FileContribution(fs, fs.realpath(q), followLinks);
      assert q in existing;
      var i :| 0 <= i < |existing| && existing[i] == q;
      assert resolved[i] == fs.realpath(q);
      assert resolved[i] in resolved;
    }
  }

  /** getAllFilesFromPaths: the collected files, deduplicated. */
  function AllFilesFromPaths(fs: FileSystem, patterns: seq<string>, followLinks: bool): (files: seq<string>)
    ensures NoDuplicates(files)
    ensures forall x :: x in files <==> Reaches(fs, patterns, followLinks, x)
  {
    Unique(CollectedFiles(fs, patterns, followLinks))
  }

  /** getSelectedFiles: nothing when there are no include patterns; the
      included files when there are no exclude patterns; otherwise the included
      files that the exclude patterns do not reach. */
  function SelectedFiles(fs: FileSystem, includes: seq<string>, excludes: seq<string>, followLinks: bool): (files: seq<string>)
    ensures NoDuplicates(files)
    ensures forall x :: x in files <==>
              x in AllFilesFromPaths(fs, includes, followLinks) && x !in AllFilesFromPaths(fs, excludes, followLinks)
  {
    if |includes| == 0 then []
    else
      var included := AllFilesFromPaths(fs, includes, followLinks);
      if |excludes| == 0 then included
      else
        var excluded := AllFilesFromPaths(fs, excludes, followLinks);
        WithoutKeepsDistinct(included, excluded);
        Without(included, excluded)
  }

  // ---------------------------------------------------------------------------
  // Each stage works path by path: splitting its input splits its output.

  lemma {:induction false} ExpandAppend(fs: FileSystem, a: seq<string>, b: seq<string>)
    ensures ExpandWildCardPaths(fs, a + b) == ExpandWildCardPaths(fs, a) + ExpandWildCardPaths(fs, b)
  {
    if a == [] {
      assert a + b == b;
    } else {
      assert (a + b)[1..] == a[1..] + b;
      ExpandAppend(fs, a[1..], b);
    }
  }

  lemma {:induction false} ExistingAppend(fs: FileSystem, a: seq<string>, b: seq<string>)
    ensures ExistingPaths(fs, a + b) == ExistingPaths(fs, a) + ExistingPaths(fs, b)
    decreases |b|
  {
    if b == [] {
      assert a + b == a;
    } else {
      assert (a + b)[..|a + b| - 1] == a + b[..|b| - 1];
      ExistingAppend(fs, a, b[..|b| - 1]);
    }
  }

  lemma {:induction false} FlattenAppend(fs: FileSystem, a: seq<string>, b: seq<string>, followLinks: bool)
    ensures FlattenDirectories(fs, a + b, followLinks)
            == FlattenDirectories(fs, a, followLinks) + FlattenDirectories(fs, b, followLinks)
    decreases |b|
  {
    if b == [] {
      assert a + b == a;
    } else {
      var init, last := b[..|b| - 1], b[|b| - 1];
      assert (a + b)[..|a + b| - 1] == a + init;
      FlattenAppend(fs, a, init, followLinks);
    }
  }

  /** Expansion is the concatenation of the glob of each pattern, in pattern order. */
  lemma {:induction false} ExpandIsConcatenationOfGlobs(fs: FileSystem, patterns: seq<string>, p: string)
    ensures ExpandWildCardPaths(fs, [p]) == fs.glob(p)
    ensures ExpandWildCardPaths(fs, patterns + [p]) == ExpandWildCardPaths(fs, patterns) + fs.glob(p)
  {
    assert ExpandWildCardPaths(fs, [p]) == fs.glob(p) + ExpandWildCardPaths(fs, []);
    ExpandAppend(fs, patterns, [p]);
  }

  /** The existence filter keeps the surviving paths in their order. */
  lemma {:induction false} ExistingIsSubsequence(fs: FileSystem, paths: seq<string>)
    ensures IsSubsequence(ExistingPaths(fs, paths), paths)
    decreases |paths|
  {
    if paths != [] {
      var init, last := paths[..|paths| - 1], paths[|paths| - 1];
      assert paths == init + [last];
      ExistingIsSubsequence(fs, init);
      var e := ExistingPaths(fs, init);
      if fs.fileExists(last) {
        assert ExistingPaths(fs, paths) == e + [last];
        SubsequenceAppendBoth(e, init, last);
      } else {
        assert ExistingPaths(fs, paths) == e + [] == e;
        SubsequenceExtend(e, init, last);
      }
    }
  }

  /** A directory contributes its listing in order, any other path itself once,
      and the contributions follow one another in input order. */
  lemma {:induction false} FlattenContributions(fs: FileSystem, paths: seq<string>, path: string, followLinks: bool)
    ensures fs.isDir(path) ==> FlattenDirectories(fs, paths + [path], followLinks)
                               == FlattenDirectories(fs, paths, followLinks) + fs.listFiles(path, followLinks)
    ensures !fs.isDir(path) ==> FlattenDirectories(fs, paths + [path], followLinks)
                                == FlattenDirectories(fs, paths, followLinks) + [path]
    ensures FlattenDirectories(fs, [path] + paths, followLinks)
            == FileContribution(fs, path, followLinks) + FlattenDirectories(fs, paths, followLinks)
  {
    assert (paths + [path])[..|paths + [path]| - 1] == paths;
    FlattenAppend(fs, [path], paths, followLinks);
    assert [path][..0] == [];
  }

  // ---------------------------------------------------------------------------
  // getAllFilesFromPaths

  /** The files are listed in the order in which they were first met in the
      collected sequence, later repetitions dropped. */
  lemma AllFilesKeepFirstOccurrenceOrder(fs: FileSystem, patterns: seq<string>, followLinks: bool)
    ensures IsSubsequence(AllFilesFromPaths(fs, patterns, followLinks), CollectedFiles(fs, patterns, followLinks))
    ensures var all, collected := AllFilesFromPaths(fs, patterns, followLinks), CollectedFiles(fs, patterns, followLinks);
            forall i, j :: 0 <= i < j < |all| ==> FirstIndex(collected, all[i]) < FirstIndex(collected, all[j])
  {
    UniqueIsSubsequence(CollectedFiles(fs, patterns, followLinks));
    UniqueKeepsFirstOccurrenceOrder(CollectedFiles(fs, patterns, followLinks));
  }

  /** Patterns that glob to nothing contribute nothing. */
  lemma {:induction false} UnmatchedPatternsContributeNothing(fs: FileSystem, patterns: seq<string>, followLinks: bool)
    requires forall p :: p in patterns ==> fs.glob(p) == []
    ensures AllFilesFromPaths(fs, patterns, followLinks) == []
    decreases |patterns|
  {
    if patterns != [] {
      UnmatchedPatternsContributeNothing(fs, patterns[1..], followLinks);
      assert ExpandWildCardPaths(fs, patterns) == ExpandWildCardPaths(fs, patterns[1..]);
    }
  }

  // ---------------------------------------------------------------------------
  // getSelectedFiles

  /** Without include patterns nothing is selected, whatever the excludes. */
  lemma EmptyIncludesSelectNothing(fs: FileSystem, excludes: seq<string>, followLinks: bool)
    ensures SelectedFiles(fs, [], excludes, followLinks) == []
  {
  }

  /** Without exclude patterns the selection is exactly the included files. */
  lemma NoExcludesSelectAllIncluded(fs: FileSystem, includes: seq<string>, followLinks: bool)
    ensures SelectedFiles(fs, includes, [], followLinks) == AllFilesFromPaths(fs, includes, followLinks)
  {
  }

  /** Exclude patterns that reach no file leave the included files as they are,
      even though they take the filtering branch. */
  lemma ExcludesReachingNothing(fs: FileSystem, includes: seq<string>, excludes: seq<string>, followLinks: bool)
    requires AllFilesFromPaths(fs, excludes, followLinks) == []
    ensures SelectedFiles(fs, includes, excludes, followLinks) == AllFilesFromPaths(fs, includes, followLinks)
  {
    var included := AllFilesFromPaths(fs, includes, followLinks);
    WithoutNothing(included, []);
  }

  /** The selection keeps the included files in their order. */
  lemma SelectionKeepsIncludedOrder(fs: FileSystem, includes: seq<string>, excludes: seq<string>, followLinks: bool)
    ensures IsSubsequence(SelectedFiles(fs, includes, excludes, followLinks), AllFilesFromPaths(fs, includes, followLinks))
  {
    var included := AllFilesFromPaths(fs, includes, followLinks);
    if |includes| == 0 {
    } else if |excludes| == 0 {
      WithoutNothing(included, []);
      WithoutIsSubsequence(included, []);
    } else {
      WithoutIsSubsequence(included, AllFilesFromPaths(fs, excludes, followLinks));
    }
  }

  /** Deduplicating the collected includes first (as getAllFilesFromPaths does)
      and removing excluded files afterwards gives the same sequence as removing
      every collected exclude from the collected includes and deduplicating the
      rest once at the end. */
  lemma SelectionIsFilterThenUnique(fs: FileSystem, includes: seq<string>, excludes: seq<string>, followLinks: bool)
    ensures SelectedFiles(fs, includes, excludes, followLinks)
            == Unique(Without(CollectedFiles(fs, includes, followLinks), CollectedFiles(fs, excludes, followLinks)))
  {
    var collectedIn := CollectedFiles(fs, includes, followLinks);
    var collectedEx := CollectedFiles(fs, excludes, followLinks);
    var allEx := AllFilesFromPaths(fs, excludes, followLinks);
    UniqueWithoutCommute(collectedIn, collectedEx);
    WithoutSameMembers(Unique(collectedIn), allEx, collectedEx);
    if |includes| == 0 {
      assert collectedIn == [];
    } else if |excludes| == 0 {
      assert collectedEx == [];
      WithoutNothing(Unique(collectedIn), collectedEx);
    }
  }

  /** Exclusion works on files after flattening: when an exclude pattern names
      an existing directory, no file listed beneath it is selected, and every
      file listed beneath an included directory that no exclude reaches is. */
  lemma DirectoriesAreFlattenedBeforeExclusion(
    fs: FileSystem, includes: seq<string>, excludes: seq<string>, followLinks: bool, dir: string, x: string)
    requires dir in fs.glob(dir) && fs.fileExists(dir) && fs.isDir(fs.realpath(dir))
    requires x in fs.listFiles(fs.realpath(dir), followLinks)
    ensures dir in excludes ==> x !in SelectedFiles(fs, includes, excludes, followLinks)
    ensures dir in includes && !Reaches(fs, excludes, followLinks, x)
            ==> x in SelectedFiles(fs, includes, excludes, followLinks)
  {
  }
}
