/** The part of the file system the program consults. `dirs` holds the
    paths for which os.Stat does not report "does not exist" (a regular
    file counts too: the code only tests os.IsNotExist); `files` holds the
    lines of each file it can open, and a path absent from `files` is one
    whose os.Open fails. */
module Disk {

  datatype FileSystem = FileSystem(dirs: set<string>, files: map<string, seq<string>>)

  /** filepath.Join(dir, ".git"), as a plain concatenation: Join's path
      cleaning (a trailing `/`, an empty `dir`) is not modelled. */
  function GitDir(dir: string): string {
    dir + "/.git"
  }

  /** filepath.Join(dir, ".git", "config"), likewise without cleaning. */
  function ConfigPath(dir: string): string {
    GitDir(dir) + "/config"
  }
}
