/** The configuration object of a backup's file selection: the include
    patterns fixed at construction, the exclude patterns and the follow-links
    flag set by fluent setters, and the query that runs the selection. */
module Backup {
  import opened Sequences
  import opened Filesystem
  import opened Selection

  /** A configuration argument: a list of paths or patterns, or a single one. */
  datatype PathArg = Paths(paths: seq<string>) | Path(path: string)

  /** A single value becomes a one-element list; a list is kept as it is. */
  function AsList(arg: PathArg): seq<string> {
    match arg
    case Paths(ps) => ps
    case Path(p) => [p]
  }

  class FileSelection {
    var includeFilesAndDirectories: seq<string>
    var excludeFilesAndDirectories: seq<string>
    var followLinks: bool

    constructor (includes: PathArg)
      ensures includes.Paths? ==> includeFilesAndDirectories == includes.paths
      ensures includes.Path? ==> includeFilesAndDirectories == [includes.path]
      ensures excludeFilesAndDirectories == [] && !followLinks
    {
      includeFilesAndDirectories := AsList(includes);
      excludeFilesAndDirectories := [];
      followLinks := false;
    }

    /** The static factory; called without an argument it includes nothing. */
    static method Create(includes: PathArg := Paths([])) returns (selection: FileSelection)
      ensures fresh(selection)
      ensures includes.Paths? ==> selection.includeFilesAndDirectories == includes.paths
      ensures includes.Path? ==> selection.includeFilesAndDirectories == [includes.path]
      ensures selection.excludeFilesAndDirectories == [] && !selection.followLinks
    {
      selection := new FileSelection(includes);
    }

    /** Replaces the exclude list (it does not append to it) and returns this
        same object. */
    method ExcludeFilesFrom(excludes: PathArg) returns (selection: FileSelection)
      modifies this
      ensures selection == this
      ensures excludes.Paths? ==> excludeFilesAndDirectories == excludes.paths
      ensures excludes.Path? ==> excludeFilesAndDirectories == [excludes.path]
      ensures includeFilesAndDirectories == old(includeFilesAndDirectories)
      ensures followLinks == old(followLinks)
    {
      excludeFilesAndDirectories := AsList(excludes);
      selection := this;
    }

    /** Sets the follow-links flag and returns this same object. */
    method ShouldFollowLinks(shouldFollowLinks: bool) returns (selection: FileSelection)
      modifies this
      ensures selection == this
      ensures followLinks == shouldFollowLinks
      ensures includeFilesAndDirectories == old(includeFilesAndDirectories)
      ensures excludeFilesAndDirectories == old(excludeFilesAndDirectories)
    {
      followLinks := shouldFollowLinks;
      selection := this;
    }

    /** Runs the selection for the configuration held by this object against
        the given filesystem state. */
    method GetSelectedFiles(fs: FileSystem) returns (files: seq<string>)
      ensures files == SelectedFiles(fs, includeFilesAndDirectories, excludeFilesAndDirectories, followLinks)
      ensures |includeFilesAndDirectories| == 0 ==> files == []
      ensures NoDuplicates(files)
      ensures IsSubsequence(files, AllFilesFromPaths(fs, includeFilesAndDirectories, followLinks))
      ensures forall x :: x in files <==>
                Reaches(fs, includeFilesAndDirectories, followLinks, x)
                && !Reaches(fs, excludeFilesAndDirectories, followLinks, x)
    {
      SelectionKeepsIncludedOrder(fs, includeFilesAndDirectories, excludeFilesAndDirectories, followLinks);
      files := SelectedFiles(fs, includeFilesAndDirectories, excludeFilesAndDirectories, followLinks);
    }
  }

  /** A caller that configures a selection fluently: a second call of
      ExcludeFilesFrom replaces what the first one set, and the result of the
      query depends only on the final configuration. */
  method ConfigureAndSelect(fs: FileSystem, includes: PathArg, first: PathArg, second: string)
    returns (files: seq<string>)
    ensures files == SelectedFiles(fs, AsList(includes), [second], true)
  {
    var selection := FileSelection.Create(includes);
    var same := selection.ExcludeFilesFrom(first);
    same := same.ExcludeFilesFrom(Path(second));
    same := same.ShouldFollowLinks(true);
    assert selection.excludeFilesAndDirectories == [second];
    files := selection.GetSelectedFiles(fs);
  }
}
