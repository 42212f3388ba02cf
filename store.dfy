/** The filesystem as the pipeline sees it: regular files with their bytes,
    and the set of directories. */
module Store {
  import opened Paths

  newtype Byte = b: int | 0 <= b < 256

  type Bytes = seq<Byte>

  type Files = map<Path, Bytes>

  class FileSystem {
    var files: Files
    var dirs: set<Path>

    constructor (files: Files, dirs: set<Path>)
      ensures this.files == files && this.dirs == dirs
    {
      this.files := files;
      this.dirs := dirs;
    }
  }

  /** `remove_dir_all`: everything at or below `dir` disappears. */
  function FilesOutside(files: Files, dir: Path): (r: Files)
    ensures forall p :: p in r <==> p in files && !(dir <= p)
    ensures forall p :: p in r ==> r[p] == files[p]
  {
    map p | p in files && !(dir <= p) :: files[p]
  }

  function DirsOutside(dirs: set<Path>, dir: Path): (r: set<Path>)
    ensures forall p :: p in r <==> p in dirs && !(dir <= p)
  {
    set p | p in dirs && !(dir <= p)
  }
}
