/** `make_zip` (src/main.rs:53-97): the converted files of a folder are moved
    into an archive beside it. The archive is a sequence of named entries; its
    byte encoding is a parameter. */
module Package {
  import opened Base
  import opened Paths
  import opened Store

  datatype ZipEntry = ZipEntry(name: Name, data: Bytes)

  /** The archive format: the bytes `finish` leaves in the archive file. */
  type ZipWriter = seq<ZipEntry> -> Bytes

  /** `File::create` fails on a path that is a directory. */
  datatype ZipError = ArchiveNotCreated(zipPath: Path)

  /** One listed file: an entry named by its file name, then it is removed; a
      missing file is skipped. */
  function PackStep(entries: seq<ZipEntry>, files: Files, p: Path): (seq<ZipEntry>, Files) {
    if p in files then (entries + [ZipEntry(FileName(p), files[p])], files - {p})
    else (entries, files)
  }

  /** The packing loop over the whole list, in list order. */
  function Packed(files: Files, list: seq<Path>): (seq<ZipEntry>, Files) {
    if list == [] then ([], files)
    else
      var (entries, rest) := Packed(files, list[..|list| - 1]);
      PackStep(entries, rest, list[|list| - 1])
  }

  /** `make_zip` on the filesystem: the result and the files afterwards. */
  function ZipOutcome(files: Files, dirs: set<Path>, folder: Path, list: seq<Path>, writer: ZipWriter): (Result<Unit, ZipError>, Files) {
    var zip := ZipPath(folder);
    if zip in dirs then (Err(ArchiveNotCreated(zip)), files)
    else
      var (entries, rest) := Packed(files[zip := []], list);
      var finished := rest[zip := writer(entries)];
      (Ok(Unit), if list == [] then finished - {zip} else finished)
  }

  method MakeZip(fs: FileSystem, folder: Path, list: seq<Path>, writer: ZipWriter) returns (r: Result<Unit, ZipError>)
    modifies fs
    ensures (r, fs.files) == ZipOutcome(old(fs.files), old(fs.dirs), folder, list, writer)
    ensures fs.dirs == old(fs.dirs)
  {
    var zip := ZipPath(folder);
    if zip in fs.dirs {
      return Err(ArchiveNotCreated(zip));
    }
    fs.files := fs.files[zip := []];
    ghost var created := fs.files;
    var entries := [];
    var i := 0;
    while i < |list|
      invariant 0 <= i <= |list|
      invariant (entries, fs.files) == Packed(created, list[..i])
      invariant fs.dirs == old(fs.dirs)
    {
      var packFile := list[i];
      if packFile in fs.files {
        var buffer := fs.files[packFile];
        entries := entries + [ZipEntry(FileName(packFile), buffer)];
        fs.files := fs.files - {packFile};
      }
      assert list[..i + 1][..i] == list[..i];
      i := i + 1;
    }
    assert list[..|list|] == list;
    fs.files := fs.files[zip := writer(entries)];
    if |list| == 0 {
      fs.files := fs.files - {zip};
    }
    r := Ok(Unit);
  }

  /** Reference: one entry per listed file that exists, at its first mention,
      in list order. */
  function Present(files: Files, list: seq<Path>): seq<ZipEntry> {
    if list == [] then []
    else
      var p := list[|list| - 1];
      var init := list[..|list| - 1];
      Present(files, init) + (if p in files && p !in init then [ZipEntry(FileName(p), files[p])] else [])
  }

  /** Packing yields exactly the reference entries and removes every listed file. */
  lemma {:induction false} PackedIsReference(files: Files, list: seq<Path>)
    ensures Packed(files, list) == (Present(files, list), files - set p | p in list)
  {
    if list == [] {
      assert (set p | p in list) == {};
      assert files - {} == files;
    } else {
      var init := list[..|list| - 1];
      var p := list[|list| - 1];
      PackedIsReference(files, init);
      assert (set q | q in list) == (set q | q in init) + {p} by {
        assert list == init + [p];
      }
      var before := files - set q | q in init;
      assert p in before <==> p in files && p !in init;
      assert Packed(files, list) == PackStep(Present(files, init), before, p);
      if p in before {
        assert before - {p} == files - set q | q in list;
        assert Present(files, list) == Present(files, init) + [ZipEntry(FileName(p), files[p])];
      } else {
        assert before == files - set q | q in list;
        assert Present(files, list) == Present(files, init);
      }
    }
  }

  /** Entries are named by the file names of the listed paths. */
  lemma {:induction false} PresentNames(files: Files, list: seq<Path>, k: nat)
    requires k < |Present(files, list)|
    ensures exists j :: 0 <= j < |list| && list[j] in files && Present(files, list)[k] == ZipEntry(FileName(list[j]), files[list[j]])
  {
    var init := list[..|list| - 1];
    if k < |Present(files, init)| {
      PresentNames(files, init, k);
      var j :| 0 <= j < |init| && init[j] in files &&
        Present(files, init)[k] == ZipEntry(FileName(init[j]), files[init[j]]);
      assert list[j] == init[j];
    } else {
      assert Present(files, list)[k] == ZipEntry(FileName(list[|list| - 1]), files[list[|list| - 1]]);
    }
  }

  /** With distinct listed paths, every existing one becomes an entry in order. */
  lemma {:induction false} DistinctAllPresent(files: Files, list: seq<Path>)
    requires forall i :: 0 <= i < |list| ==> list[i] in files
    requires forall i, j :: 0 <= i < j < |list| ==> list[i] != list[j]
    ensures |Present(files, list)| == |list|
    ensures forall i :: 0 <= i < |list| ==> Present(files, list)[i] == ZipEntry(FileName(list[i]), files[list[i]])
  {
    if list != [] {
      var init := list[..|list| - 1];
      DistinctAllPresent(files, init);
      assert list[|list| - 1] !in init by {
        forall i | 0 <= i < |init| ensures init[i] != list[|list| - 1] {
          assert init[i] == list[i];
        }
      }
    }
  }

  /** The archive stays exactly when the list was not empty and the archive
      path is free of directories; it then holds the writer's encoding of the
      present files, and every listed file is gone. */
  lemma ZipContract(files: Files, dirs: set<Path>, folder: Path, list: seq<Path>, writer: ZipWriter)
    requires ZipPath(folder) !in list
    ensures var (r, after) := ZipOutcome(files, dirs, folder, list, writer);
      && (r.Err? <==> ZipPath(folder) in dirs)
      && (r.Err? ==> after == files)
      && (r.Ok? ==> (ZipPath(folder) in after <==> list != []))
      && (r.Ok? && list != [] ==> after[ZipPath(folder)] == writer(Present(files[ZipPath(folder) := []], list)))
      && (r.Ok? ==> forall p :: p in list ==> p !in after)
      && (r.Ok? ==> forall p :: p in files && p != ZipPath(folder) && p !in list ==> p in after && after[p] == files[p])
      && (r.Ok? ==> after.Keys <= files.Keys + {ZipPath(folder)})
  {
    var zip := ZipPath(folder);
    PackedIsReference(files[zip := []], list);
  }

  /** A folder without a file name (a root, a drive, or a path ending in "..")
      keeps its own path under `with_extension`, so `File::create` meets the
      directory and nothing is archived. */
  lemma NamelessFolderNotArchived(files: Files, dirs: set<Path>, folder: Path, list: seq<Path>, writer: ZipWriter)
    requires folder in dirs && (folder == [] || !NormalName(folder[|folder| - 1]))
    ensures ZipOutcome(files, dirs, folder, list, writer) == (Err(ArchiveNotCreated(folder)), files)
  {
    NoNameKeepsPath(folder, "zip");
  }

  /** The archive is removed only for an empty input list: when every listed
      file is already gone, an archive with no entries stays behind. */
  lemma AllMissingLeavesEmptyArchive(files: Files, dirs: set<Path>, folder: Path, list: seq<Path>, writer: ZipWriter)
    requires ZipPath(folder) !in dirs && ZipPath(folder) !in list && list != []
    requires forall p :: p in list ==> p !in files
    ensures ZipOutcome(files, dirs, folder, list, writer).1[ZipPath(folder)] == writer([])
  {
    var zip := ZipPath(folder);
    PackedIsReference(files[zip := []], list);
    Nonepresent(files[zip := []], list);
  }

  lemma {:induction false} Nonepresent(files: Files, list: seq<Path>)
    requires forall p :: p in list ==> p !in files
    ensures Present(files, list) == []
  {
    if list != [] {
      Nonepresent(files, list[..|list| - 1]);
    }
  }
}
