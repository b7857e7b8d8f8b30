# Backup file selection, modelled in Dafny

This project models the `FileSelection` class of laravel-backup
(`src/Tasks/Backup/FileSelection.php`). The class holds the configuration
of a backup and computes which files the backup contains. The configuration
has three parts:

- the include patterns, fixed by the constructor;
- the exclude patterns, set by the fluent setter `excludeFilesFrom`;
- the follow-links flag, set by the fluent setter `shouldFollowLinks`.

The query `getSelectedFiles` runs a pipeline:

1. expand every pattern with `glob`;
2. keep the paths that exist;
3. canonicalise them with `realpath`;
4. replace every directory by its recursive file listing;
5. deduplicate, keeping first occurrences;
6. remove every file that the exclude patterns reach by the same pipeline.

The host filesystem is a value of the datatype `Filesystem.FileSystem`.
It is a record of five functions: `glob`, `fileExists`, `realpath`, `isDir`
and `listFiles`. The last one stands for `getAllFilesFromDirectory`, the
Symfony Finder walk. `GetSelectedFiles` takes that record as a parameter.
So every result is a function of the filesystem state, and nothing about
real globbing or directory walking is assumed.

Files:

- `sequences.dfy`: module `Sequences`. It holds first-occurrence
  deduplication (`Unique`, the collection's `unique()`), the
  "not in the excluded list" filter (`Without`), and subsequences.
- `filesystem.dfy`: module `Filesystem`, the abstract filesystem.
- `selection.dfy`: module `Selection`. The pure pipeline
  (`expandWildCardPaths`, `getAllFilesFromPaths`, `getSelectedFiles`) as
  functions, with lemmas.
- `file_selection.dfy`: module `Backup`. The class `FileSelection`, with
  its three fields, the constructor, `Create`, the two fluent setters and the
  query. A `PathArg` value is either a list or a single path. This mirrors
  the source's `array|string` arguments.

Two details of the code that the model keeps:

- Every pattern is passed to `glob`, including patterns without a wildcard
  (`FileSelection.php:170-175`). The docblock of `expandWildCardPaths`
  (`FileSelection.php:162`) speaks of checking the paths for a wildcard,
  which suggests that only wildcard patterns are expanded; the code does not
  check. A literal path therefore survives only if `glob` returns it.
- Deduplication happens inside `getAllFilesFromPaths`
  (`FileSelection.php:127`), before the exclude filter of
  `getSelectedFiles` (`FileSelection.php:91-97`).
  `Selection.SelectionIsFilterThenUnique` proves that filtering first and
  deduplicating afterwards would give the same sequence.

## Model

| member | source | states |
|---|---|---|
| `Backup.FileSelection.constructor` | src/Tasks/Backup/FileSelection.php:33-40 | a single include value is stored as a one-element list, a list is stored unchanged; no excludes, links not followed |
| `Backup.FileSelection.Create` | src/Tasks/Backup/FileSelection.php:25-28 | returns a fresh object configured as the constructor does; with no argument it includes nothing |
| `Backup.FileSelection.ExcludeFilesFrom` | src/Tasks/Backup/FileSelection.php:49-58 | replaces the exclude list (single value wrapped, list kept), leaves the includes and the flag unchanged, returns the same object |
| `Backup.FileSelection.ShouldFollowLinks` | src/Tasks/Backup/FileSelection.php:67-72 | sets the flag, leaves both lists unchanged, returns the same object |
| `Backup.FileSelection.GetSelectedFiles` | src/Tasks/Backup/FileSelection.php:77-100 | the result is the selection of the current configuration: empty without includes, duplicate-free, in the included files' order, and holding exactly the files the includes reach and the excludes do not |
| `Backup.ConfigureAndSelect` | src/Tasks/Backup/FileSelection.php:49-72 | after two `ExcludeFilesFrom` calls in a fluent chain, only the second exclude list is in force |
| `Sequences.Unique` | src/Tasks/Backup/FileSelection.php:127 | the deduplicated sequence has no duplicates and holds exactly the elements of the input |
| `Sequences.UniqueIsSubsequence` | src/Tasks/Backup/FileSelection.php:127 | deduplication keeps the input's order (the result is a subsequence of the input) |
| `Sequences.UniqueKeepsFirstOccurrenceOrder` | src/Tasks/Backup/FileSelection.php:127 | each element sits at the place of its first occurrence: earlier in the result means first met earlier in the input |
| `Sequences.UniqueOfDistinct` | src/Tasks/Backup/FileSelection.php:127 | deduplicating a duplicate-free sequence returns it unchanged |
| `Sequences.Without` | src/Tasks/Backup/FileSelection.php:91-95 | the filtered sequence holds exactly the elements of the input that are not in the excluded list |
| `Sequences.WithoutKeepsDistinct` | src/Tasks/Backup/FileSelection.php:91-97 | filtering a duplicate-free sequence leaves it duplicate-free |
| `Sequences.WithoutIsSubsequence` | src/Tasks/Backup/FileSelection.php:91-97 | filtering keeps the input's order |
| `Sequences.WithoutAppend` | src/Tasks/Backup/FileSelection.php:91-95 | filtering a concatenation is the concatenation of the filtered parts |
| `Sequences.WithoutSameMembers` | src/Tasks/Backup/FileSelection.php:93 | the filter depends only on which files are excluded, not on their order or multiplicity |
| `Sequences.WithoutNothing` | src/Tasks/Backup/FileSelection.php:91-95 | excluding nothing that occurs leaves the sequence unchanged |
| `Sequences.UniqueWithoutCommute` | src/Tasks/Backup/FileSelection.php:91-97 | deduplicating then filtering equals filtering then deduplicating |
| `Selection.ExpandWildCardPaths` | src/Tasks/Backup/FileSelection.php:168-175 | a path is in the expansion exactly when some pattern's glob returns it |
| `Selection.ExpandAppend` | src/Tasks/Backup/FileSelection.php:170-175 | the expansion of concatenated pattern lists is the concatenation of their expansions |
| `Selection.ExpandIsConcatenationOfGlobs` | src/Tasks/Backup/FileSelection.php:170-175 | one pattern expands to its glob, and a further pattern appends its glob at the end, with no deduplication |
| `Selection.UnmatchedPatternsContributeNothing` | src/Tasks/Backup/FileSelection.php:168-175 | patterns whose glob is empty, literal paths included, lead to no files |
| `Selection.ExistingPaths` | src/Tasks/Backup/FileSelection.php:113-116 | a path survives exactly when it is an input path that exists |
| `Selection.ExistingAppend` | src/Tasks/Backup/FileSelection.php:113-116 | the existence filter works path by path (it distributes over concatenation) |
| `Selection.ExistingIsSubsequence` | src/Tasks/Backup/FileSelection.php:113-116 | the surviving paths keep their order |
| `Selection.RealPaths` | src/Tasks/Backup/FileSelection.php:117-119 | every path is replaced, position by position, by its canonical form |
| `Selection.FlattenDirectories` | src/Tasks/Backup/FileSelection.php:120-126 | a file is in the flattened sequence exactly when some path contributes it |
| `Selection.FlattenAppend` | src/Tasks/Backup/FileSelection.php:120-126 | flattening concatenated path lists concatenates their flattenings, in input order |
| `Selection.FlattenContributions` | src/Tasks/Backup/FileSelection.php:120-126 | a directory contributes its listing in order, any other path contributes itself once, and contributions follow input order |
| `Selection.CollectedFiles` | src/Tasks/Backup/FileSelection.php:111-126 | the collected files are exactly the files the patterns reach through glob, existence, realpath and directory listing |
| `Selection.AllFilesFromPaths` | src/Tasks/Backup/FileSelection.php:109-131 | the result has no duplicates and holds exactly the files the patterns reach |
| `Selection.AllFilesKeepFirstOccurrenceOrder` | src/Tasks/Backup/FileSelection.php:120-128 | the result is a subsequence of the collected files, ordered by first occurrence |
| `Selection.SelectedFiles` | src/Tasks/Backup/FileSelection.php:77-100 | the selection has no duplicates and holds exactly the included files that are not excluded |
| `Selection.EmptyIncludesSelectNothing` | src/Tasks/Backup/FileSelection.php:79-81 | without include patterns the selection is empty, whatever the excludes |
| `Selection.NoExcludesSelectAllIncluded` | src/Tasks/Backup/FileSelection.php:85-87 | without exclude patterns the selection is exactly `getAllFilesFromPaths(includes)` |
| `Selection.ExcludesReachingNothing` | src/Tasks/Backup/FileSelection.php:89-99 | exclude patterns that reach no file leave the included files unchanged, order included |
| `Selection.SelectionKeepsIncludedOrder` | src/Tasks/Backup/FileSelection.php:89-99 | the selection is a subsequence of the included files |
| `Selection.SelectionIsFilterThenUnique` | src/Tasks/Backup/FileSelection.php:83-99 | the selection equals removing every collected exclude from the collected includes and then deduplicating once |
| `Selection.DirectoriesAreFlattenedBeforeExclusion` | src/Tasks/Backup/FileSelection.php:89-99 | an excluded directory removes every file listed beneath it; a file beneath an included directory that no exclude reaches is selected |

## Left out

- Real shell-glob matching, `file_exists`, `realpath`, `is_dir` and the Symfony Finder walk are not modelled. They are the five abstract functions of `FileSystem`. `getAllFilesFromDirectory` is `listFiles`.
- Symlink following and symlink cycles are not modelled. The flag is only passed to `listFiles`.
- PHP array keys are not modelled. Without excludes the source returns the array that `unique()` leaves, which can have gaps in its keys; with excludes it re-indexes with `array_values`. Results here are plain sequences of values.
- The loose `==` comparison of `in_array` and `unique()` is modelled as exact string equality. Canonical paths are absolute and never numeric.
- Failures are not modelled: a directory that cannot be read, a path that disappears between `file_exists` and `realpath` (`realpath` then returns `false`), and `glob` returning `false` on error. An unreadable pattern is modelled as a `glob` that returns nothing. A failing `file_exists(false)` drops such an entry in the source too.
- Arguments that are neither a string nor an array (null, numbers) are not modelled. `PathArg` holds a list of strings or one string.
- Selection.EmptyIncludesSelectNothing: states that the result is empty for every exclude list, a statement about values. It does not trace filesystem calls, so "the excludes are never evaluated" is not captured beyond that.
