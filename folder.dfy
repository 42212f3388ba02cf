/** One iteration of the folder loop in `main` (src/main.rs:419-519): list the
    folder, convert its images one by one, decide from the results whether to
    archive the folder and whether to delete it, and mark it finished. A panic
    or a `?` that ends the program is an abort with its reason. */
module Folder {
  import opened Base
  import opened Text
  import opened Paths
  import opened Config
  import opened Store
  import opened Convert
  import opened Package
  import opened Worklist

  /** What the model does not compute itself: the directory listing (in the
      order the system returns it), the encoder, the file hash and the archive
      encoding. */
  datatype Env = Env(
    readDir: (Files, set<Path>, Path) -> seq<Path>,
    encoder: Encoder,
    hash: Bytes -> Digest,
    zipWriter: ZipWriter)

  /** `JXL`: a file that was already a `.jxl` (or is skipped), or a new output. */
  datatype Jxl = ExistFromBegin(path: Path) | Converted(path: Path)

  datatype FileError = NotAnImage(file: Path) | ConversionFailed(error: ConvertError)

  type FileResult = Result<Jxl, FileError>

  /** Why the program stops in the middle of a folder. */
  datatype AbortReason =
    | FolderUnreadable(folder: Path)
    | NoExtension(file: Path)
    | ImageUnreadable(file: Path)
    | CandidateUnreadable(candidate: Path)
    | SourceNotDeleted(file: Path)
    | NotInWorklist(folder: Path)

  /** The text the loop looks for in the error message of `is_image_file`. */
  const SkipPhrase: string := "This file is skip"

  /** `t` occurs in `s`. */
  predicate Contains(s: string, t: string) {
    exists i :: 0 <= i <= |s| && t <= s[i..]
  }

  /** The "not image" message of `is_image_file` holds the displayed path, and
      the loop's `contains` test finds the skip phrase in it exactly when one
      component holds it: the phrase has no separator, no ':' and no line feed,
      so it cannot straddle a separator or the surrounding text. */
  predicate NamesSkip(p: Path) {
    exists k :: 0 <= k < |p| && Contains(p[k], SkipPhrase)
  }

  predicate Packable(files: Files, q: Path) {
    q in files && Extension(FileName(q)).Some? && Extension(FileName(q)) != Some("zip")
  }

  /** The `filter` of the listing: regular files whose extension is not
      exactly "zip"; `Err` names the first file without an extension, where
      `unwrap` panics. */
  function Selected(files: Files, entries: seq<Path>): (r: Result<seq<Path>, Path>)
    ensures r.Ok? ==> forall q :: q in r.value ==> q in entries && Packable(files, q)
    ensures r.Ok? ==> forall q :: q in entries && Packable(files, q) ==> q in r.value
    ensures r.Ok? <==> forall q :: q in entries && q in files ==> Extension(FileName(q)).Some?
    ensures r.Err? ==> r.error in entries && r.error in files && Extension(FileName(r.error)).None?
  {
    if entries == [] then Ok([])
    else
      var p := entries[0];
      var rest := Selected(files, entries[1..]);
      assert forall q :: q in entries <==> q == p || q in entries[1..];
      if p !in files then rest
      else if Extension(FileName(p)).None? then Err(p)
      else if Extension(FileName(p)) == Some("zip") then rest
      else if rest.Err? then rest
      else Ok([p] + rest.value)
  }

  /** The outcome of one file: its result, or the abort it causes. */
  datatype Step = Next(result: FileResult) | Stop(reason: AbortReason)

  /** The closure of `par_iter().map` for one file, with the files after it. */
  function EntryStep(files: Files, dirs: set<Path>, p: Path, args: JxlArgs, env: Env): (Step, Files)
    requires Extension(FileName(p)).Some?
  {
    match IsImageFile(FileName(p), p in files)
    case Err(OpenFailed) => (Stop(ImageUnreadable(p)), files)
    case Err(Skipped) => (Next(Ok(ExistFromBegin(p))), files)
    case Err(NotImage) => (if NamesSkip(p) then Next(Ok(ExistFromBegin(p))) else Next(Err(NotAnImage(p))), files)
    case Ok(format) =>
      var jxl := WithExtension(p, "jxl");
      var (c, after) := ConvertOutcome(files, dirs, p, jxl, args.pngArgs, args.jpgArgs, format, env.encoder, env.hash);
      match c
      case HashPanic(q) => (Stop(CandidateUnreadable(q)), after)
      case Finished(r) =>
        if r.Err? then (Next(Err(ConversionFailed(r.error))), after)
        else if !args.deleteSourceImage then (Next(Ok(Converted(jxl))), after)
        else if p in after then (Next(Ok(Converted(jxl))), after - {p})
        else (Stop(SourceNotDeleted(p)), after)
  }

  /** The results so far, the abort if one happened, and the files. */
  datatype Progress = Progress(results: seq<FileResult>, stop: Option<AbortReason>, files: Files)

  predicate AllHaveExtensions(list: seq<Path>) {
    forall q :: q in list ==> Extension(FileName(q)).Some?
  }

  /** The conversion of the selected files, in listing order. */
  function ConvertAll(files: Files, dirs: set<Path>, list: seq<Path>, args: JxlArgs, env: Env): (r: Progress)
    requires AllHaveExtensions(list)
    ensures r.stop.None? ==> |r.results| == |list|
  {
    if list == [] then Progress([], None, files)
    else
      var before := ConvertAll(files, dirs, list[..|list| - 1], args, env);
      if before.stop.Some? then before
      else
        var (step, after) := EntryStep(before.files, dirs, list[|list| - 1], args, env);
        match step
        case Next(result) => Progress(before.results + [result], None, after)
        case Stop(reason) => Progress(before.results, Some(reason), after)
  }

  /** What the loop does after conversion. */
  datatype Gate = MarkOnly | Pack(deleteFolder: bool)

  predicate AnyFailed(results: seq<FileResult>) {
    exists i :: 0 <= i < |results| && results[i].Err?
  }

  /** The gating of src/main.rs:466-488 and 506-514. */
  function Decide(results: seq<FileResult>, args: JxlArgs): (g: Gate)
    ensures AnyFailed(results) ==> g == MarkOnly
    ensures g.Pack? <==> results != [] && args.makeZip && !AnyFailed(results)
    ensures g == Pack(true) <==> results != [] && args.makeZip && args.deleteFolder && !AnyFailed(results)
  {
    if results == [] || AnyFailed(results) || !args.makeZip then MarkOnly
    else Pack(args.deleteFolder)
  }

  /** The paths handed to `make_zip`: every `Ok` result's path, in order. */
  function PackList(results: seq<FileResult>): (r: seq<Path>)
    ensures !AnyFailed(results) ==> |r| == |results|
    ensures !AnyFailed(results) ==> forall i :: 0 <= i < |results| ==> r[i] == results[i].value.path
  {
    if results == [] then []
    else
      assert forall i :: 1 <= i < |results| ==> results[1..][i - 1] == results[i];
      (if results[0].Ok? then [results[0].value.path] else []) + PackList(results[1..])
  }

  datatype State = State(files: Files, dirs: set<Path>, ledger: Ledger)

  /** One iteration of the folder loop: the state after it and the abort, if any. */
  function FolderOutcome(s: State, folder: Path, args: JxlArgs, env: Env): (State, Option<AbortReason>) {
    if folder !in s.dirs then (s, Some(FolderUnreadable(folder)))
    else
      match Selected(s.files, env.readDir(s.files, s.dirs, folder))
      case Err(p) => (s, Some(NoExtension(p)))
      case Ok(list) =>
        var progress := ConvertAll(s.files, s.dirs, list, args, env);
        if progress.stop.Some? then (State(progress.files, s.dirs, s.ledger), progress.stop)
        else
          var gate := Decide(progress.results, args);
          var zipped := if gate.Pack? then ZipOutcome(progress.files, s.dirs, folder, PackList(progress.results), env.zipWriter).1
                        else progress.files;
          var files := if gate == Pack(true) then FilesOutside(zipped, folder) else zipped;
          var dirs := if gate == Pack(true) then DirsOutside(s.dirs, folder) else s.dirs;
          match MarkDone(s.ledger, folder)
          case None => (State(files, dirs, s.ledger), Some(NotInWorklist(folder)))
          case Some(ledger) => (State(files, dirs, ledger), None)
  }

  /** The mapping closure for one file. */
  method ConvertEntry(fs: FileSystem, p: Path, args: JxlArgs, env: Env) returns (step: Step)
    requires Extension(FileName(p)).Some?
    modifies fs
    ensures (step, fs.files) == EntryStep(old(fs.files), old(fs.dirs), p, args, env)
    ensures fs.dirs == old(fs.dirs)
  {
    var check := IsImageFile(FileName(p), p in fs.files);
    match check {
      case Err(e) =>
        step := if e == OpenFailed then Stop(ImageUnreadable(p))
                else if e == Skipped || NamesSkip(p) then Next(Ok(ExistFromBegin(p)))
                else Next(Err(NotAnImage(p)));
      case Ok(format) =>
        var jxl := WithExtension(p, "jxl");
        var c := ImageToJxl(fs, p, jxl, args.pngArgs, args.jpgArgs, format, env.encoder, env.hash);
        if c.HashPanic? {
          step := Stop(CandidateUnreadable(c.path));
        } else if c.result.Err? {
          step := Next(Err(ConversionFailed(c.result.error)));
        } else if !args.deleteSourceImage {
          step := Next(Ok(Converted(jxl)));
        } else if p in fs.files {
          fs.files := fs.files - {p};
          step := Next(Ok(Converted(jxl)));
        } else {
          step := Stop(SourceNotDeleted(p));
        }
    }
  }

  lemma {:induction false} StoppedStays(files: Files, dirs: set<Path>, list: seq<Path>, i: nat, args: JxlArgs, env: Env)
    requires AllHaveExtensions(list) && i <= |list|
    requires ConvertAll(files, dirs, list[..i], args, env).stop.Some?
    ensures ConvertAll(files, dirs, list, args, env) == ConvertAll(files, dirs, list[..i], args, env)
    decreases |list| - i
  {
    if i < |list| {
      var pre := list[..i + 1];
      assert pre[..|pre| - 1] == list[..i];
      assert AllHaveExtensions(pre) by {
        forall q | q in pre ensures Extension(FileName(q)).Some? {
          assert q in list;
        }
      }
      assert ConvertAll(files, dirs, pre, args, env) == ConvertAll(files, dirs, list[..i], args, env);
      StoppedStays(files, dirs, list, i + 1, args, env);
    } else {
      assert list[..i] == list;
    }
  }

  /** The `par_iter().map(…).collect()` of one folder, in order. */
  method ConvertFolderFiles(fs: FileSystem, list: seq<Path>, args: JxlArgs, env: Env)
    returns (results: seq<FileResult>, stop: Option<AbortReason>)
    requires AllHaveExtensions(list)
    modifies fs
    ensures Progress(results, stop, fs.files) == ConvertAll(old(fs.files), old(fs.dirs), list, args, env)
    ensures fs.dirs == old(fs.dirs)
  {
    results := [];
    stop := None;
    var i := 0;
    while i < |list| && stop.None?
      invariant 0 <= i <= |list|
      invariant Progress(results, stop, fs.files) == ConvertAll(old(fs.files), old(fs.dirs), list[..i], args, env)
      invariant fs.dirs == old(fs.dirs)
    {
      assert list[i] in list;
      var step := ConvertEntry(fs, list[i], args, env);
      assert list[..i + 1][..i] == list[..i];
      match step {
        case Next(result) => results := results + [result];
        case Stop(reason) => stop := Some(reason);
      }
      i := i + 1;
    }
    if stop.Some? {
      StoppedStays(old(fs.files), old(fs.dirs), list, i, args, env);
    } else {
      assert list[..i] == list;
    }
  }

  /** The error scan of src/main.rs:473-480: whether some result is `Err`. */
  method ScanForErrors(results: seq<FileResult>) returns (failed: bool)
    ensures failed == AnyFailed(results)
  {
    failed := false;
    var i := 0;
    while i < |results|
      invariant 0 <= i <= |results|
      invariant !failed
      invariant forall j :: 0 <= j < i ==> results[j].Ok?
    {
      if results[i].Err? {
        failed := true;
        return;
      }
      i := i + 1;
    }
  }

  /** One iteration of the folder loop on the ledger of `info` and the filesystem. */
  method ProcessFolder(info: WorkInfo, fs: FileSystem, folder: Path, args: JxlArgs, env: Env)
    returns (stop: Option<AbortReason>)
    modifies info, fs
    ensures (State(fs.files, fs.dirs, info.worklist), stop) ==
      FolderOutcome(old(State(fs.files, fs.dirs, info.worklist)), folder, args, env)
    ensures stop.None? ==> info.updates == old(info.updates) + 1
    ensures stop.Some? ==> info.updates == old(info.updates)
    ensures info.workFolderPath == old(info.workFolderPath) && info.workSetting == old(info.workSetting)
  {
    if folder !in fs.dirs {
      return Some(FolderUnreadable(folder));
    }
    var deleteFolderFlag := args.deleteFolder;
    var canMakeZip := args.makeZip;
    var selected := Selected(fs.files, env.readDir(fs.files, fs.dirs, folder));
    if selected.Err? {
      return Some(NoExtension(selected.error));
    }
    var results;
    results, stop := ConvertFolderFiles(fs, selected.value, args, env);
    if stop.Some? {
      return;
    }
    ghost var converted := fs.files;
    if results == [] {
      stop := MarkFolder(info, folder);
      return;
    }
    var failed := ScanForErrors(results);
    if failed {
      canMakeZip := false;
      deleteFolderFlag := false;
    }
    if !canMakeZip {
      stop := MarkFolder(info, folder);
      return;
    }
    var _ := Package.MakeZip(fs, folder, PackList(results), env.zipWriter);
    if deleteFolderFlag {
      fs.files := FilesOutside(fs.files, folder);
      fs.dirs := DirsOutside(fs.dirs, folder);
    }
    stop := MarkFolder(info, folder);
  }

  /** `update_list_element`, turning its panic into an abort. */
  method MarkFolder(info: WorkInfo, folder: Path) returns (stop: Option<AbortReason>)
    modifies info
    ensures stop.None? <==> MarkDone(old(info.worklist), folder).Some?
    ensures stop.Some? ==> stop == Some(NotInWorklist(folder)) && info.worklist == old(info.worklist)
    ensures stop.None? ==> info.worklist == MarkDone(old(info.worklist), folder).value
    ensures stop.None? ==> info.updates == old(info.updates) + 1
    ensures stop.Some? ==> info.updates == old(info.updates)
    ensures info.workFolderPath == old(info.workFolderPath) && info.workSetting == old(info.workSetting)
  {
    var ok := info.UpdateListElement(folder);
    stop := if ok then None else Some(NotInWorklist(folder));
  }

  /** A file whose extension is none of jpg, jpeg, png and jxl (in any case)
      gives `Err`, not a skip, unless a component of its path holds the skip
      phrase. */
  lemma NonImageIsError(files: Files, dirs: set<Path>, p: Path, args: JxlArgs, env: Env)
    requires Extension(FileName(p)).Some? && !NamesSkip(p)
    requires Lower(Extension(FileName(p)).value) !in ConvertedExtensions + ["jxl"]
    ensures EntryStep(files, dirs, p, args, env) == (Next(Err(NotAnImage(p))), files)
  {
  }

  /** The "not image" error of a file in a folder whose path holds the skip
      phrase passes the `contains` test: the file counts as already done. */
  lemma NonImageInSkipPathPasses(files: Files, dirs: set<Path>, p: Path, args: JxlArgs, env: Env)
    requires Extension(FileName(p)).Some? && NamesSkip(p)
    requires Lower(Extension(FileName(p)).value) !in ConvertedExtensions + ["jxl"]
    ensures EntryStep(files, dirs, p, args, env) == (Next(Ok(ExistFromBegin(p))), files)
  {
  }

  /** An instance: "notes.txt" in the folder "This file is skip". */
  lemma SkipFolderExample()
    ensures NamesSkip(["r", "This file is skip", "notes.txt"])
  {
    var p := ["r", "This file is skip", "notes.txt"];
    assert p[1][0..] == SkipPhrase;
    assert Contains(p[1], SkipPhrase);
  }

  /** The i-th result belongs to the i-th selected file; a non-image file's
      result is its `NotAnImage` error. */
  lemma {:induction false} NonImageResult(files: Files, dirs: set<Path>, list: seq<Path>, args: JxlArgs, env: Env, i: nat)
    requires AllHaveExtensions(list) && i < |list| && !NamesSkip(list[i])
    requires Lower(Extension(FileName(list[i])).value) !in ConvertedExtensions + ["jxl"]
    requires ConvertAll(files, dirs, list, args, env).stop.None?
    ensures ConvertAll(files, dirs, list, args, env).results[i] == Err(NotAnImage(list[i]))
  {
    var init := list[..|list| - 1];
    ConvertAllSnoc(files, dirs, list, args, env);
    var before := ConvertAll(files, dirs, init, args, env);
    if i < |list| - 1 {
      assert init[i] == list[i];
      NonImageResult(files, dirs, init, args, env, i);
    } else {
      NonImageIsError(before.files, dirs, list[i], args, env);
    }
  }

  /** A run over the files that does not stop is the run over all but the last
      file followed by the last file's result. */
  lemma ConvertAllSnoc(files: Files, dirs: set<Path>, list: seq<Path>, args: JxlArgs, env: Env)
    requires AllHaveExtensions(list) && list != []
    requires ConvertAll(files, dirs, list, args, env).stop.None?
    ensures AllHaveExtensions(list[..|list| - 1])
    ensures var before := ConvertAll(files, dirs, list[..|list| - 1], args, env);
      && before.stop.None?
      && EntryStep(before.files, dirs, list[|list| - 1], args, env).0.Next?
      && ConvertAll(files, dirs, list, args, env).results ==
         before.results + [EntryStep(before.files, dirs, list[|list| - 1], args, env).0.result]
  {
    var init := list[..|list| - 1];
    assert AllHaveExtensions(init) by {
      forall q | q in init ensures Extension(FileName(q)).Some? {
        assert q in list;
      }
    }
  }

  /** A single non-image file fails the whole folder: no archive is made. */
  lemma NonImageBlocksPacking(files: Files, dirs: set<Path>, list: seq<Path>, args: JxlArgs, env: Env, i: nat)
    requires AllHaveExtensions(list) && i < |list| && !NamesSkip(list[i])
    requires Lower(Extension(FileName(list[i])).value) !in ConvertedExtensions + ["jxl"]
    requires ConvertAll(files, dirs, list, args, env).stop.None?
    ensures Decide(ConvertAll(files, dirs, list, args, env).results, args) == MarkOnly
  {
    NonImageResult(files, dirs, list, args, env, i);
  }

  /** A folder with a failed file is neither archived nor deleted: after its
      files are converted, nothing but the ledger changes. */
  lemma FailureBlocksPacking(s: State, folder: Path, args: JxlArgs, env: Env)
    requires folder in s.dirs
    requires Selected(s.files, env.readDir(s.files, s.dirs, folder)).Ok?
    requires var list := Selected(s.files, env.readDir(s.files, s.dirs, folder)).value;
      ConvertAll(s.files, s.dirs, list, args, env).stop.None? && AnyFailed(ConvertAll(s.files, s.dirs, list, args, env).results)
    ensures var list := Selected(s.files, env.readDir(s.files, s.dirs, folder)).value;
      && FolderOutcome(s, folder, args, env).0.files == ConvertAll(s.files, s.dirs, list, args, env).files
      && FolderOutcome(s, folder, args, env).0.dirs == s.dirs
  {
  }

  /** The folder is deleted only when archiving is on, folder deletion is on,
      the folder had files and none of them failed; and then nothing at or
      below it is left. */
  lemma DeletionNeedsAllFlags(s: State, folder: Path, args: JxlArgs, env: Env)
    requires FolderOutcome(s, folder, args, env).0.dirs != s.dirs
    ensures args.makeZip && args.deleteFolder
    ensures folder in s.dirs && Selected(s.files, env.readDir(s.files, s.dirs, folder)).Ok?
    ensures var progress := ConvertAll(s.files, s.dirs, Selected(s.files, env.readDir(s.files, s.dirs, folder)).value, args, env);
      progress.stop.None? && progress.results != [] && !AnyFailed(progress.results)
    ensures forall p :: folder <= p ==> p !in FolderOutcome(s, folder, args, env).0.dirs && p !in FolderOutcome(s, folder, args, env).0.files
  {
  }

  /** Deleting a folder also deletes the archive of every subfolder, which
      lies inside it. */
  lemma ChildArchiveDeletedWithFolder(s: State, folder: Path, child: Path, args: JxlArgs, env: Env)
    requires FolderOutcome(s, folder, args, env).0.dirs != s.dirs
    requires folder < child && FileName(child) != ""
    ensures ZipPath(child) !in FolderOutcome(s, folder, args, env).0.files
  {
    DeletionNeedsAllFlags(s, folder, args, env);
    ChildArchiveInside(folder, child);
  }

  /** A completed iteration marks exactly its own folder finished, and that
      folder was registered. */
  lemma CompletedMarksFolder(s: State, folder: Path, args: JxlArgs, env: Env)
    requires FolderOutcome(s, folder, args, env).1.None?
    ensures folder in s.ledger
    ensures FolderOutcome(s, folder, args, env).0.ledger == s.ledger[folder := true]
  {
  }

  /** An iteration either aborts before the ledger is touched, or changes only
      the ledger entry of its folder; directories only disappear, and only
      those at or below the folder. */
  lemma FolderFrame(s: State, folder: Path, args: JxlArgs, env: Env)
    ensures var (t, stop) := FolderOutcome(s, folder, args, env);
      && (stop.Some? ==> t.ledger == s.ledger)
      && (t.dirs == s.dirs || t.dirs == DirsOutside(s.dirs, folder))
  {
  }

  /** Converting files stops only on an image that cannot be opened, a
      candidate that cannot be hashed, or a source that cannot be deleted. */
  lemma {:induction false} ConversionStops(files: Files, dirs: set<Path>, list: seq<Path>, args: JxlArgs, env: Env)
    requires AllHaveExtensions(list)
    ensures var stop := ConvertAll(files, dirs, list, args, env).stop;
      stop.Some? ==> stop.value.ImageUnreadable? || stop.value.CandidateUnreadable? || stop.value.SourceNotDeleted?
  {
    if list != [] {
      var init := list[..|list| - 1];
      assert AllHaveExtensions(init) by {
        forall q | q in init ensures Extension(FileName(q)).Some? {
          assert q in list;
        }
      }
      ConversionStops(files, dirs, init, args, env);
      var before := ConvertAll(files, dirs, init, args, env);
      if before.stop.None? {
        EntryStops(before.files, dirs, list[|list| - 1], args, env);
      }
    }
  }

  lemma EntryStops(files: Files, dirs: set<Path>, p: Path, args: JxlArgs, env: Env)
    requires Extension(FileName(p)).Some?
    ensures var step := EntryStep(files, dirs, p, args, env).0;
      step.Stop? ==> step.reason == ImageUnreadable(p) || step.reason.CandidateUnreadable? || step.reason == SourceNotDeleted(p)
  {
    match IsImageFile(FileName(p), p in files)
    case Err(_) =>
    case Ok(format) =>
      var jxl := WithExtension(p, "jxl");
      var (c, after) := ConvertOutcome(files, dirs, p, jxl, args.pngArgs, args.jpgArgs, format, env.encoder, env.hash);
      assert EntryStep(files, dirs, p, args, env).0 ==
        match c
        case HashPanic(q) => Stop(CandidateUnreadable(q))
        case Finished(r) =>
          if r.Err? then Next(Err(ConversionFailed(r.error)))
          else if !args.deleteSourceImage || p in after then Next(Ok(Converted(jxl)))
          else Stop(SourceNotDeleted(p));
  }

  /** Without a directory among the probed candidates, converting an image
      never panics on a hash. */
  lemma NoDirCandidateNoHashPanic(files: Files, dirs: set<Path>, p: Path, args: JxlArgs, env: Env)
    requires Extension(FileName(p)).Some?
    requires forall k: nat :: Candidate(WithExtension(p, "jxl"), k) !in dirs
    ensures !EntryStep(files, dirs, p, args, env).0.Stop? || !EntryStep(files, dirs, p, args, env).0.reason.CandidateUnreadable?
  {
    var jxl := WithExtension(p, "jxl");
    assert LastDirBelow(dirs, jxl, FreeIndex(files, dirs, jxl)).None?;
  }

  /** The archive of a folder has the extension "zip", so the listing of the
      parent folder never packs it again. */
  lemma ArchivesAreNotRepacked(files: Files, folder: Path)
    requires FileName(folder) != []
    ensures !Packable(files, ZipPath(folder))
  {
    WithExtensionParts(folder, "zip");
  }
}
