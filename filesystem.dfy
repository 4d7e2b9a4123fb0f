/**
 * The part of the host filesystem the program touches: the set of paths that
 * currently exist, and the directories a file can be renamed into. `Exists` is
 * `Path::exists`; `Rename` is `fs::rename` on a Unix host, which replaces an
 * existing destination and fails when the source or the target directory is
 * missing. Paths are compared as text.
 */
module Filesystem {
  import opened Paths

  /**
   * `dir` names an existing directory: one of `dirs`, or the empty path, which
   * a join leaves relative to the working directory.
   */
  predicate DirectoryIn(dirs: set<Path>, dir: Path) {
    dir == [] || dir in dirs
  }

  class FileSystem {
    var entries: set<Path>
    var dirs: set<Path>

    constructor (initial: set<Path>, directories: set<Path>)
      ensures entries == initial && dirs == directories
    {
      entries := initial;
      dirs := directories;
    }

    predicate Exists(p: Path)
      reads this
    {
      p in entries
    }

    /**
     * Moves `src` to `dir` joined with `name`; fails, changing nothing, when
     * `src` does not exist or `dir` is not an existing directory.
     */
    method Rename(src: Path, dir: Path, name: string) returns (ok: bool)
      modifies this
      ensures ok == (src in old(entries) && DirectoryIn(dirs, dir))
      ensures entries == if ok then old(entries) - {src} + {Join(dir, name)} else old(entries)
      ensures dirs == old(dirs)
    {
      ok := src in entries && DirectoryIn(dirs, dir);
      if ok {
        entries := entries - {src} + {Join(dir, name)};
      }
    }
  }
}
