/** The resumable worklist (`WorkInfo`, src/main.rs:631-653) and the filter
    applied to the directory walk (src/main.rs:381-398). A ledger maps every
    folder seen so far to whether it is finished; entries only ever go from
    `false` to `true`. */
module Worklist {
  import opened Base
  import opened Paths
  import opened Config

  type Ledger = map<Path, bool>

  /** One item of the walk: a directory, or an entry the walk could not read. */
  datatype WalkEntry = Dir(path: Path) | WalkError

  /** `later` keeps every folder of `earlier` and every finished mark. */
  predicate Extends(earlier: Ledger, later: Ledger) {
    earlier.Keys <= later.Keys && forall p :: p in earlier && earlier[p] ==> later[p]
  }

  /** `update_list_element` on a ledger: `None` is the panic on an unknown folder. */
  function MarkDone(ledger: Ledger, folder: Path): (r: Option<Ledger>)
    ensures r.Some? <==> folder in ledger
    ensures r.Some? ==> r.value.Keys == ledger.Keys && r.value[folder]
    ensures r.Some? ==> forall p :: p in ledger && p != folder ==> r.value[p] == ledger[p]
    ensures r.Some? ==> Extends(ledger, r.value)
  {
    if folder in ledger then Some(ledger[folder := true]) else None
  }

  class WorkInfo {
    var workFolderPath: string
    var workSetting: JxlArgs
    var worklist: Ledger
    /** How many times a folder has been marked done. */
    ghost var updates: nat

    /** `WorkInfo::new`: an empty ledger for a fresh run. */
    constructor (workFolderPath: string, workSetting: JxlArgs)
      ensures this.workFolderPath == workFolderPath && this.workSetting == workSetting
      ensures worklist == map[] && updates == 0
    {
      this.workFolderPath := workFolderPath;
      this.workSetting := workSetting;
      worklist := map[];
      updates := 0;
    }

    /** `update_list_element`: `ok` is false exactly where the source panics,
        and then nothing has changed. */
    method UpdateListElement(folder: Path) returns (ok: bool)
      modifies this
      ensures ok == MarkDone(old(worklist), folder).Some?
      ensures ok ==> worklist == MarkDone(old(worklist), folder).value && updates == old(updates) + 1
      ensures !ok ==> worklist == old(worklist) && updates == old(updates)
      ensures workFolderPath == old(workFolderPath) && workSetting == old(workSetting)
    {
      if folder in worklist {
        worklist := worklist[folder := true];
        updates := updates + 1;
        ok := true;
      } else {
        ok := false;
      }
    }
  }

  /** One step of the walk filter: the folders kept so far and the ledger. */
  function FilterStep(kept: seq<Path>, ledger: Ledger, entry: WalkEntry): (seq<Path>, Ledger) {
    match entry
    case WalkError => (kept, ledger)
    case Dir(p) =>
      if p in ledger then
        if ledger[p] then (kept, ledger) else (kept + [p], ledger)
      else (kept + [p], ledger[p := false])
  }

  /** The walk filter over the whole walk, in walk order. */
  function Filtered(ledger: Ledger, walk: seq<WalkEntry>): (seq<Path>, Ledger) {
    if walk == [] then ([], ledger)
    else
      var (kept, next) := Filtered(ledger, walk[..|walk| - 1]);
      FilterStep(kept, next, walk[|walk| - 1])
  }

  /** Reference: the walked folders the initial ledger does not mark finished. */
  function Pending(ledger: Ledger, walk: seq<WalkEntry>): seq<Path> {
    if walk == [] then []
    else
      var last := walk[|walk| - 1];
      Pending(ledger, walk[..|walk| - 1])
        + (if last.Dir? && !(last.path in ledger && ledger[last.path]) then [last.path] else [])
  }

  function Walked(walk: seq<WalkEntry>): set<Path> {
    set i | 0 <= i < |walk| && walk[i].Dir? :: walk[i].path
  }

  /** Reference: the initial ledger plus every walked folder it lacks, unfinished. */
  function Registered(ledger: Ledger, walk: seq<WalkEntry>): Ledger {
    map p | p in ledger.Keys + Walked(walk) :: if p in ledger then ledger[p] else false
  }

  /** `walk_filter` (src/main.rs:381-398) on the ledger of `info`. */
  method WalkFilter(info: WorkInfo, walk: seq<WalkEntry>) returns (folders: seq<Path>)
    modifies info
    ensures (folders, info.worklist) == Filtered(old(info.worklist), walk)
    ensures info.workFolderPath == old(info.workFolderPath) && info.workSetting == old(info.workSetting)
    ensures info.updates == old(info.updates)
  {
    folders := [];
    var i := 0;
    while i < |walk|
      invariant 0 <= i <= |walk|
      invariant (folders, info.worklist) == Filtered(old(info.worklist), walk[..i])
      invariant info.workFolderPath == old(info.workFolderPath) && info.workSetting == old(info.workSetting)
      invariant info.updates == old(info.updates)
      decreases |walk| - i
    {
      match walk[i] {
        case WalkError =>
        case Dir(p) =>
          if p in info.worklist {
            if !info.worklist[p] {
              folders := folders + [p];
            }
          } else {
            info.worklist := info.worklist[p := false];
            folders := folders + [p];
          }
      }
      assert walk[..i + 1][..i] == walk[..i];
      i := i + 1;
    }
    assert walk[..|walk|] == walk;
  }

  lemma WalkedSnoc(walk: seq<WalkEntry>)
    requires walk != []
    ensures Walked(walk) == Walked(walk[..|walk| - 1]) + (if walk[|walk| - 1].Dir? then {walk[|walk| - 1].path} else {})
  {
    var init := walk[..|walk| - 1];
    forall p | p in Walked(walk) ensures p in Walked(init) || (walk[|walk| - 1].Dir? && p == walk[|walk| - 1].path) {
      var i :| 0 <= i < |walk| && walk[i].Dir? && walk[i].path == p;
      if i < |walk| - 1 {
        assert init[i] == walk[i];
      }
    }
    forall p | p in Walked(init) ensures p in Walked(walk) {
      var i :| 0 <= i < |init| && init[i].Dir? && init[i].path == p;
      assert walk[i] == init[i];
    }
  }

  /** The filter agrees with the references: it keeps exactly the pending
      folders, in walk order, and registers exactly the new ones as unfinished. */
  lemma {:induction false} FilteredIsReference(ledger: Ledger, walk: seq<WalkEntry>)
    ensures Filtered(ledger, walk) == (Pending(ledger, walk), Registered(ledger, walk))
  {
    if walk == [] {
      assert Registered(ledger, walk) == ledger;
    } else {
      var init := walk[..|walk| - 1];
      FilteredIsReference(ledger, init);
      WalkedSnoc(walk);
      var last := walk[|walk| - 1];
      if last.Dir? {
        var p := last.path;
        var r := Registered(ledger, init);
        if p !in r {
          assert Registered(ledger, walk) == r[p := false];
        } else {
          assert Walked(walk) == Walked(init) + {p};
          assert ledger.Keys + Walked(walk) == ledger.Keys + Walked(init);
          assert Registered(ledger, walk) == r;
          assert r[p] == (p in ledger && ledger[p]);
          assert Filtered(ledger, walk) == FilterStep(Pending(ledger, init), r, last);
          if r[p] {
            assert Pending(ledger, walk) == Pending(ledger, init);
          } else {
            assert Pending(ledger, walk) == Pending(ledger, init) + [p];
          }
        }
      } else {
        assert Walked(walk) == Walked(init);
        assert Registered(ledger, walk) == Registered(ledger, init);
        assert Pending(ledger, walk) == Pending(ledger, init);
      }
    }
  }

  lemma {:induction false} PendingMembers(ledger: Ledger, walk: seq<WalkEntry>, p: Path)
    ensures p in Pending(ledger, walk) <==> p in Walked(walk) && !(p in ledger && ledger[p])
  {
    if walk != [] {
      PendingMembers(ledger, walk[..|walk| - 1], p);
      WalkedSnoc(walk);
    }
  }

  /** What the walk filter promises: finished folders are dropped, unfinished
      and unseen ones kept, unseen ones registered as unfinished, and no other
      entry of the ledger touched. */
  lemma FilterContract(ledger: Ledger, walk: seq<WalkEntry>, p: Path)
    ensures p in Filtered(ledger, walk).0 <==> p in Walked(walk) && !(p in ledger && ledger[p])
    ensures p in Filtered(ledger, walk).1 <==> p in ledger || p in Walked(walk)
    ensures p in ledger ==> Filtered(ledger, walk).1[p] == ledger[p]
    ensures p !in ledger && p in Walked(walk) ==> !Filtered(ledger, walk).1[p]
    ensures Extends(ledger, Filtered(ledger, walk).1)
  {
    FilteredIsReference(ledger, walk);
    PendingMembers(ledger, walk, p);
  }

  /** Every folder the filter keeps is in the new ledger, not yet finished. */
  lemma KeptAreRegistered(ledger: Ledger, walk: seq<WalkEntry>)
    ensures forall p :: p in Filtered(ledger, walk).0 ==>
      p in Filtered(ledger, walk).1 && !Filtered(ledger, walk).1[p]
  {
    forall p | p in Filtered(ledger, walk).0
      ensures p in Filtered(ledger, walk).1 && !Filtered(ledger, walk).1[p]
    {
      FilterContract(ledger, walk, p);
    }
  }

  /** A rerun after every walked folder was finished finds nothing to do and
      leaves the ledger as it was. */
  lemma RerunFindsNothing(ledger: Ledger, walk: seq<WalkEntry>)
    requires forall p :: p in Walked(walk) ==> p in ledger && ledger[p]
    ensures Filtered(ledger, walk) == ([], ledger)
  {
    FilteredIsReference(ledger, walk);
    if Pending(ledger, walk) != [] {
      var p := Pending(ledger, walk)[0];
      PendingMembers(ledger, walk, p);
    }
    assert Registered(ledger, walk) == ledger;
  }

  /** No folder is walked twice. */
  predicate DistinctWalk(walk: seq<WalkEntry>) {
    forall i, j :: 0 <= i < j < |walk| && walk[i].Dir? && walk[j].Dir? ==> walk[i].path != walk[j].path
  }

  /** A walk without repeats gives a folder list without repeats. */
  lemma {:induction false} FilteredDistinct(ledger: Ledger, walk: seq<WalkEntry>)
    requires DistinctWalk(walk)
    ensures forall i, j :: 0 <= i < j < |Filtered(ledger, walk).0| ==> Filtered(ledger, walk).0[i] != Filtered(ledger, walk).0[j]
  {
    FilteredIsReference(ledger, walk);
    PendingDistinct(ledger, walk);
  }

  lemma {:induction false} PendingDistinct(ledger: Ledger, walk: seq<WalkEntry>)
    requires DistinctWalk(walk)
    ensures forall i, j :: 0 <= i < j < |Pending(ledger, walk)| ==> Pending(ledger, walk)[i] != Pending(ledger, walk)[j]
  {
    if walk != [] {
      var init := walk[..|walk| - 1];
      var last := walk[|walk| - 1];
      assert DistinctWalk(init) by {
        forall i, j | 0 <= i < j < |init| && init[i].Dir? && init[j].Dir? ensures init[i].path != init[j].path {
          assert init[i] == walk[i] && init[j] == walk[j];
        }
      }
      PendingDistinct(ledger, init);
      var before := Pending(ledger, init);
      if last.Dir? {
        forall i | 0 <= i < |init| && init[i].Dir? ensures init[i].path != last.path {
          assert init[i] == walk[i];
        }
        PendingMembers(ledger, init, last.path);
      }
      var r := Pending(ledger, walk);
      forall i, j | 0 <= i < j < |r| ensures r[i] != r[j] {
        if j < |before| {
          assert r[i] == before[i] && r[j] == before[j];
        } else {
          assert r[i] == before[i];
        }
      }
    }
  }
}
