/** The filesystem as the file selection sees it. Every call the selection makes
    into the host (shell-glob expansion, existence test, canonicalisation,
    directory test, recursive listing) is a field of this record, so the
    selection logic is a function of the filesystem state it is given. */
module Filesystem {

  datatype FileSystem = FileSystem(
    /** The paths a pattern expands to, in the order the host's glob returns
        them; an empty sequence when nothing matches or the pattern cannot be
        expanded. */
    glob: string -> seq<string>,
    /** Whether a path names an existing file or directory. */
    fileExists: string -> bool,
    /** The absolute, symlink-resolved form of an existing path. */
    realpath: string -> string,
    /** Whether a path names a directory. */
    isDir: string -> bool,
    /** Every file entry the directory walk yields beneath a directory,
        symbolic links to files, hidden files and version-control files
        included, in enumeration order; the flag says whether symbolic links
        to directories are followed during the walk. */
    listFiles: (string, bool) -> seq<string>
  )
}
