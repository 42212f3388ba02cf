/** The whole conversion of a folder tree (src/main.rs:362-519): the walk is
    filtered against the ledger, the folders are sorted deepest first, and the
    folder loop runs over them until it finishes or aborts. */
module Run {
  import opened Base
  import opened Paths
  import opened Config
  import opened Store
  import opened Worklist
  import opened Schedule
  import opened Folder

  /** The folder loop over `folders`, in order, stopping at the first abort. */
  function RunSpec(s: State, folders: seq<Path>, args: JxlArgs, env: Env): (State, Option<AbortReason>) {
    if folders == [] then (s, None)
    else
      var (t, stop) := RunSpec(s, folders[..|folders| - 1], args, env);
      if stop.Some? then (t, stop) else FolderOutcome(t, folders[|folders| - 1], args, env)
  }

  lemma {:induction false} StoppedRunStays(s: State, folders: seq<Path>, i: nat, args: JxlArgs, env: Env)
    requires i <= |folders| && RunSpec(s, folders[..i], args, env).1.Some?
    ensures RunSpec(s, folders, args, env) == RunSpec(s, folders[..i], args, env)
    decreases |folders| - i
  {
    if i < |folders| {
      assert folders[..i + 1][..i] == folders[..i];
      StoppedRunStays(s, folders, i + 1, args, env);
    } else {
      assert folders[..i] == folders;
    }
  }

  /** `for folder_path in folder_list { … }`. */
  method RunFolders(info: WorkInfo, fs: FileSystem, folders: seq<Path>, args: JxlArgs, env: Env)
    returns (stop: Option<AbortReason>)
    modifies info, fs
    ensures (State(fs.files, fs.dirs, info.worklist), stop) ==
      RunSpec(old(State(fs.files, fs.dirs, info.worklist)), folders, args, env)
    ensures info.workFolderPath == old(info.workFolderPath) && info.workSetting == old(info.workSetting)
  {
    stop := None;
    var i := 0;
    while i < |folders| && stop.None?
      invariant 0 <= i <= |folders|
      invariant (State(fs.files, fs.dirs, info.worklist), stop) ==
        RunSpec(old(State(fs.files, fs.dirs, info.worklist)), folders[..i], args, env)
      invariant info.workFolderPath == old(info.workFolderPath) && info.workSetting == old(info.workSetting)
    {
      assert folders[..i + 1][..i] == folders[..i];
      FolderFrame(State(fs.files, fs.dirs, info.worklist), folders[i], args, env);
      stop := ProcessFolder(info, fs, folders[i], args, env);
      i := i + 1;
    }
    if stop.Some? {
      StoppedRunStays(old(State(fs.files, fs.dirs, info.worklist)), folders, i, args, env);
    } else {
      assert folders[..i] == folders;
    }
  }

  /** Walk filter, depth sort and folder loop, on the ledger of `info`. */
  method ConvertTree(info: WorkInfo, fs: FileSystem, walk: seq<WalkEntry>, args: JxlArgs, env: Env)
    returns (stop: Option<AbortReason>)
    modifies info, fs
    ensures var (folders, ledger) := Filtered(old(info.worklist), walk);
      (State(fs.files, fs.dirs, info.worklist), stop) ==
      RunSpec(old(State(fs.files, fs.dirs, ledger)), SortByDepth(folders), args, env)
  {
    var folders := WalkFilter(info, walk);
    var folderList := SortByDepth(folders);
    stop := RunFolders(info, fs, folderList, args, env);
  }

  /** A run that finishes has marked every scheduled folder finished and kept
      every earlier mark. */
  lemma {:induction false} RunMarksAllDone(s: State, folders: seq<Path>, args: JxlArgs, env: Env)
    requires RunSpec(s, folders, args, env).1.None?
    ensures Extends(s.ledger, RunSpec(s, folders, args, env).0.ledger)
    ensures forall f :: f in folders ==> f in RunSpec(s, folders, args, env).0.ledger && RunSpec(s, folders, args, env).0.ledger[f]
  {
    if folders != [] {
      var init := folders[..|folders| - 1];
      var last := folders[|folders| - 1];
      var (t, stop) := RunSpec(s, init, args, env);
      RunMarksAllDone(s, init, args, env);
      CompletedMarksFolder(t, last, args, env);
      assert forall f :: f in folders ==> f in init || f == last;
    }
  }

  /** A folder that exists and is registered does not stop the loop for
      being unreadable or unmarkable, and its iteration keeps the ledger's
      folders. */
  lemma PresentFolderStep(t: State, f: Path, args: JxlArgs, env: Env)
    requires f in t.dirs && f in t.ledger
    ensures var (u, stop) := FolderOutcome(t, f, args, env);
      && (stop.Some? ==> !stop.value.FolderUnreadable? && !stop.value.NotInWorklist?)
      && t.ledger.Keys <= u.ledger.Keys
      && (u.dirs == t.dirs || u.dirs == DirsOutside(t.dirs, f))
  {
    FolderFrame(t, f, args, env);
    var selected := Selected(t.files, env.readDir(t.files, t.dirs, f));
    if selected.Ok? {
      ConversionStops(t.files, t.dirs, selected.value, args, env);
    }
  }

  /** The run's state after the first `k` folders: the later folders still
      exist and the ledger still holds every folder it held. */
  lemma {:induction false} LaterFoldersSurvive(s: State, folders: seq<Path>, k: nat, args: JxlArgs, env: Env)
    requires k <= |folders| && Distinct(folders) && DeepestFirst(folders)
    requires forall f :: f in folders ==> f in s.dirs && f in s.ledger
    ensures var (t, stop) := RunSpec(s, folders[..k], args, env);
      && (stop.Some? ==> !stop.value.FolderUnreadable? && !stop.value.NotInWorklist?)
      && (stop.None? ==> forall j :: k <= j < |folders| ==> folders[j] in t.dirs)
      && (stop.None? ==> s.ledger.Keys <= t.ledger.Keys)
  {
    if k > 0 {
      var init := folders[..k - 1];
      var f := folders[k - 1];
      assert folders[..k][..k - 1] == init && folders[..k][k - 1] == f;
      LaterFoldersSurvive(s, folders, k - 1, args, env);
      var (t, stop) := RunSpec(s, init, args, env);
      assert RunSpec(s, folders[..k], args, env) == if stop.Some? then (t, stop) else FolderOutcome(t, f, args, env);
      if stop.None? {
        assert f in folders;
        PresentFolderStep(t, f, args, env);
        var u := FolderOutcome(t, f, args, env).0;
        forall j | k <= j < |folders| ensures folders[j] in u.dirs {
          SubfoldersFirst(folders, k - 1, j);
        }
      }
    }
  }

  /** Deepest first and without repeats, every scheduled folder still exists
      and is still in the ledger when its turn comes: the loop never stops on
      a folder it cannot read or cannot mark. */
  lemma NoLostFolders(s: State, folders: seq<Path>, args: JxlArgs, env: Env)
    requires Distinct(folders) && DeepestFirst(folders)
    requires forall f :: f in folders ==> f in s.dirs && f in s.ledger
    ensures var stop := RunSpec(s, folders, args, env).1;
      stop.Some? ==> !stop.value.FolderUnreadable? && !stop.value.NotInWorklist?
  {
    LaterFoldersSurvive(s, folders, |folders|, args, env);
    assert folders[..|folders|] == folders;
  }

  /** From a walk that names each existing folder once, the whole run never
      stops on a folder it cannot read or cannot mark. */
  lemma TreeNeverLosesFolder(s: State, walk: seq<WalkEntry>, args: JxlArgs, env: Env)
    requires DistinctWalk(walk)
    requires forall p :: p in Walked(walk) ==> p in s.dirs
    ensures var (folders, ledger) := Filtered(s.ledger, walk);
      var stop := RunSpec(State(s.files, s.dirs, ledger), SortByDepth(folders), args, env).1;
      stop.Some? ==> !stop.value.FolderUnreadable? && !stop.value.NotInWorklist?
  {
    var (folders, ledger) := Filtered(s.ledger, walk);
    var sorted := SortByDepth(folders);
    FilteredDistinct(s.ledger, walk);
    SortKeepsDistinct(folders);
    KeptAreRegistered(s.ledger, walk);
    forall f | f in sorted ensures f in s.dirs && f in ledger {
      assert f in multiset(sorted);
      assert f in folders;
      FilterContract(s.ledger, walk, f);
    }
    NoLostFolders(State(s.files, s.dirs, ledger), sorted, args, env);
  }
}
