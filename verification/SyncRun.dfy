/** A whole sync: the cleanup pass, and the entry points around both passes. */
module SyncRun {
  import opened Base
  import opened Trees
  import opened Backends
  import opened Transports
  import opened Plans
  import opened SyncSpec
  import opened SyncScope
  import opened SyncScan
  import opened SyncDiff
  import opened SyncSteps
  import opened SyncExec
  import opened Copying

  // ---------- One delete step ----------

  /** The destination subtree after all copies and k deletions. */
  ghost function CleanedAt(x: Scope, copies: seq<CopyItem>, deletes: seq<DeleteItem>, k: nat, missing: set<Path>): Tree
    requires k <= |deletes| && Coherent(x, copies, |copies|, missing)
  {
    MidwayAt(x, copies, |copies|, missing) - Deleted(x, deletes, k)
  }

  ghost predicate AfterDeletes(x: Scope, copies: seq<CopyItem>, deletes: seq<DeleteItem>, k: nat, missing: set<Path>,
                               ts: Tree, td: Tree, same: bool)
    requires k <= |deletes|
  {
    && Coherent(x, copies, |copies|, missing)
    && Standing(x, ts, td, same, CleanedAt(x, copies, deletes, k, missing))
  }

  lemma CleanedIsHonest(x: Scope, copies: seq<CopyItem>, deletes: seq<DeleteItem>, k: nat, missing: set<Path>)
    requires IsPlanFor(x, copies, deletes) && k <= |deletes| && Coherent(x, copies, |copies|, missing)
    ensures Honest(x.ToDiff(), x.deleteExtraneous, CleanedAt(x, copies, deletes, k, missing))
  {
    CopiesAreHonest(x, copies, deletes, |copies|, missing);
    DeletedIsExtraneous(x, copies, deletes, k);
    DeletionStaysHonest(x.ToDiff(), x.deleteExtraneous, MidwayAt(x, copies, |copies|, missing), Deleted(x, deletes, k));
  }

  lemma StoppedBetweenDeletes(x: Scope, copies: seq<CopyItem>, deletes: seq<DeleteItem>, k: nat, missing: set<Path>,
                              ts: Tree, td: Tree, same: bool)
    requires IsPlanFor(x, copies, deletes) && k <= |deletes|
             && AfterDeletes(x, copies, deletes, k, missing, ts, td, same)
    ensures SafelyStopped(x, ts, td, same)
  {
    CleanedIsHonest(x, copies, deletes, k, missing);
  }

  /** A deletion meets the scanned entry, and an empty directory if it is one. */
  lemma DeletionMeetsItsEntry(x: Scope, copies: seq<CopyItem>, deletes: seq<DeleteItem>, k: nat, missing: set<Path>)
    requires IsPlanFor(x, copies, deletes) && k < |deletes| && Coherent(x, copies, |copies|, missing)
    ensures var q, t := DeletePlace(x, deletes[k]), CleanedAt(x, copies, deletes, k, missing);
            if deletes[k].meta.kind == Dir then CanRmdir(t, q) else q != [] && CanUnlink(t, q)
  {
    ScopeDiffIsValid(x);
    DoneIsNeeded(x, copies, deletes, |copies|);
    DeleteStepFacts(x, copies, deletes, k);
    DeleteIsNext(x, copies, deletes, k);
    DeleteIsEnabled(x.ToDiff(), missing, Deleted(x, deletes, k), DeletePlace(x, deletes[k]));
  }

  lemma DeletionEnabled(x: Scope, copies: seq<CopyItem>, deletes: seq<DeleteItem>, k: nat, missing: set<Path>,
                        ts: Tree, td: Tree, same: bool)
    requires IsPlanFor(x, copies, deletes) && k < |deletes|
             && AfterDeletes(x, copies, deletes, k, missing, ts, td, same)
    ensures DeleteEnabled(td, deletes[k])
  {
    var q, t := DeletePlace(x, deletes[k]), CleanedAt(x, copies, deletes, k, missing);
    DeleteStepFacts(x, copies, deletes, k);
    DeletionMeetsItsEntry(x, copies, deletes, k, missing);
    if deletes[k].meta.kind == Dir {
      RmdirBelow(x, ts, td, same, t, q);
    } else {
      EnabledBelow(x, ts, td, same, t, q);
    }
  }

  lemma StandingRemoved(x: Scope, ts: Tree, td: Tree, same: bool, t: Tree, q: Path)
    requires Standing(x, ts, td, same, t) && Apart(x, same)
    requires WellFormed(td - {x.dstRoot + q})
    ensures var td1 := td - {x.dstRoot + q};
            Standing(x, if same then td1 else ts, td1, same, t - {q})
  {
    ViewOfRemove(td, x.dstRoot, q);
    StandingMoves(x, ts, td, same, t, td - {x.dstRoot + q}, t - {q});
  }

  lemma OneMoreDeleted(x: Scope, copies: seq<CopyItem>, deletes: seq<DeleteItem>, k: nat, missing: set<Path>)
    requires k < |deletes| && Coherent(x, copies, |copies|, missing)
    ensures CleanedAt(x, copies, deletes, k, missing) - {DeletePlace(x, deletes[k])}
            == CleanedAt(x, copies, deletes, k + 1, missing)
  {
  }

  lemma DeletionMade(x: Scope, copies: seq<CopyItem>, deletes: seq<DeleteItem>, k: nat, missing: set<Path>,
                     ts: Tree, td: Tree, same: bool)
    requires IsPlanFor(x, copies, deletes) && k < |deletes|
             && AfterDeletes(x, copies, deletes, k, missing, ts, td, same)
    requires Apart(x, same) && DeleteEnabled(td, deletes[k])
    ensures var td1 := Prune(td, deletes[k].path);
            AfterDeletes(x, copies, deletes, k + 1, missing, if same then td1 else ts, td1, same)
  {
    DeleteStepFacts(x, copies, deletes, k);
    RemoveKeepsWellFormed(td, deletes[k].path);
    OneMoreDeleted(x, copies, deletes, k, missing);
    StandingRemoved(x, ts, td, same, CleanedAt(x, copies, deletes, k, missing), DeletePlace(x, deletes[k]));
  }

  /** One turn of the cleanup pass, after its cancel check. */
  method ExecuteDelete(dst: Backend, item: DeleteItem, ghost x: Scope,
                       ghost copies: seq<CopyItem>, ghost deletes: seq<DeleteItem>, ghost k: nat,
                       ghost missing: set<Path>, ghost ts: Tree, ghost same: bool)
    returns (r: Result<()>)
    requires dst.Valid() && IsPlanFor(x, copies, deletes) && k < |deletes| && item == deletes[k] && Apart(x, same)
    requires AfterDeletes(x, copies, deletes, k, missing, ts, dst.tree, same)
    modifies dst
    ensures dst.Valid()
    ensures r.Ok? ==> AfterDeletes(x, copies, deletes, k + 1, missing, if same then dst.tree else ts, dst.tree, same)
    ensures r.Err? ==> r.error == Io && dst.faulty && dst.tree == old(dst.tree) && SafelyStopped(x, ts, dst.tree, same)
  {
    hide IsPlanFor, AfterDeletes, SafelyStopped, Apart;
    DeletionEnabled(x, copies, deletes, k, missing, ts, dst.tree, same);
    DeletionMade(x, copies, deletes, k, missing, ts, dst.tree, same);
    StoppedBetweenDeletes(x, copies, deletes, k, missing, ts, dst.tree, same);
    r := ApplyDeleteItem(dst, item);
  }

  // ---------- Whole passes ----------

  lemma NothingCopiedYet(src: Backend, dst: Backend, x: Scope, copies: seq<CopyItem>)
    requires src.Valid() && dst.Valid() && src.tree == x.s && dst.tree == x.d
    ensures AfterCopies(x, copies, 0, {}, src.tree, dst.tree, src == dst)
  {
    MidwayStart(x.ToDiff());
  }

  lemma NothingDeletedYet(x: Scope, copies: seq<CopyItem>, deletes: seq<DeleteItem>, missing: set<Path>,
                          ts: Tree, td: Tree, same: bool)
    requires AfterCopies(x, copies, |copies|, missing, ts, td, same)
    ensures AfterDeletes(x, copies, deletes, 0, missing, ts, td, same)
  {
    assert CleanedAt(x, copies, deletes, 0, missing) == MidwayAt(x, copies, |copies|, missing);
  }

  lemma CleanedIsOverlay(x: Scope, copies: seq<CopyItem>, deletes: seq<DeleteItem>, missing: set<Path>)
    requires IsPlanFor(x, copies, deletes) && x.ToDiff().Valid() && Coherent(x, copies, |copies|, missing)
    ensures CleanedAt(x, copies, deletes, |deletes|, missing) == x.ToDiff().Overlay(x.deleteExtraneous) - missing
  {
    hide IsPlanFor;
    DoneIsNeeded(x, copies, deletes, |copies|);
    DeletedIsExtraneous(x, copies, deletes, |deletes|);
    PassesReachOverlay(x.ToDiff(), missing);
  }

  /** After both passes the destination subtree is the overlay, less missing links. */
  lemma PassesEndInOverlay(x: Scope, copies: seq<CopyItem>, deletes: seq<DeleteItem>, missing: set<Path>,
                           ts: Tree, td: Tree, same: bool)
    requires IsPlanFor(x, copies, deletes) && AfterDeletes(x, copies, deletes, |deletes|, missing, ts, td, same)
    ensures x.ToDiff().Valid()
    ensures Standing(x, ts, td, same, x.ToDiff().Overlay(x.deleteExtraneous) - missing)
    ensures OnlyLinks(x, missing)
  {
    ScopeDiffIsValid(x);
    CleanedIsOverlay(x, copies, deletes, missing);
  }

  ghost predicate OnlyLinks(x: Scope, missing: set<Path>) {
    forall q :: q in missing ==> q in x.ToDiff().s && x.ToDiff().s[q].Link?
  }

  method CopyPass(src: Backend, dst: Backend, via: Route, plan: SyncPlan, cancel: CancellationToken,
                  progress: JobProgress, ghost x: Scope)
    returns (r: Result<()>, ghost missing: set<Path>)
    requires src.Valid() && dst.Valid() && progress.Valid() && (src == dst ==> via.VfsStream?)
    requires IsPlanFor(x, plan.copy.items, plan.delete.items) && Apart(x, src == dst)
    requires src.tree == x.s && dst.tree == x.d
    modifies dst, cancel, progress`bytesDone, progress`filesDone, progress`reports, progress`currentFile
    ensures src.Valid() && dst.Valid() && progress.Valid()
    ensures old(cancel.cancelled) ==> cancel.cancelled
    ensures r.Ok? ==>
              && AfterCopies(x, plan.copy.items, |plan.copy.items|, missing, src.tree, dst.tree, src == dst)
              && (!dst.faulty ==> missing == {})
              && progress.filesDone == old(progress.filesDone) + FilesCounted(via, plan.copy.items, |plan.copy.items|)
              && progress.bytesDone == old(progress.bytesDone) + BytesMoved(x.s, plan.copy.items, |plan.copy.items|)
    ensures r.Err? ==>
              && SafelyStopped(x, src.tree, dst.tree, src == dst)
              && MayStop(r.error, via, cancel.cancelled, src.faulty || dst.faulty)
  {
    hide MayStop, WellFormed, NotAfter;
    hide IsPlanFor, AfterCopies, SafelyStopped, Apart;
    missing := {};
    ghost var copies, deletes := plan.copy.items, plan.delete.items;
    NothingCopiedYet(src, dst, x, copies);
    for k := 0 to |plan.copy.items|
      invariant src.Valid() && dst.Valid() && progress.Valid()
      invariant old(cancel.cancelled) ==> cancel.cancelled
      invariant AfterCopies(x, copies, k, missing, src.tree, dst.tree, src == dst)
      invariant !dst.faulty ==> missing == {}
      invariant progress.filesDone == old(progress.filesDone) + FilesCounted(via, copies, k)
      invariant progress.bytesDone == old(progress.bytesDone) + BytesMoved(x.s, copies, k)
    {
      var stop := cancel.IsCancelled();
      if stop {
        CancelMayStop(via, cancel.cancelled, src.faulty || dst.faulty);
        StoppedBetweenSteps(x, copies, deletes, k, missing, src.tree, dst.tree, src == dst);
        r := Err(Cancelled);
        return;
      }
      r, missing := ExecuteCopy(src, dst, via, plan.copy.items[k], cancel, progress, x, copies, deletes, k, missing);
      if r.Err? {
        return;
      }
    }
    r := Ok(());
  }

  method DeletePass(src: Backend, dst: Backend, plan: SyncPlan, cancel: CancellationToken, progress: JobProgress,
                    ghost x: Scope, ghost missing: set<Path>)
    returns (r: Result<()>)
    requires src.Valid() && dst.Valid() && progress.Valid()
    requires IsPlanFor(x, plan.copy.items, plan.delete.items) && Apart(x, src == dst)
    requires AfterCopies(x, plan.copy.items, |plan.copy.items|, missing, src.tree, dst.tree, src == dst)
    modifies dst, cancel, progress`filesDone, progress`reports, progress`currentFile
    ensures src.Valid() && dst.Valid() && progress.Valid()
    ensures old(cancel.cancelled) ==> cancel.cancelled
    ensures r.Ok? ==>
              && AfterDeletes(x, plan.copy.items, plan.delete.items, |plan.delete.items|, missing,
                              src.tree, dst.tree, src == dst)
              && progress.filesDone == old(progress.filesDone) + |plan.delete.items|
    ensures r.Err? ==>
              && SafelyStopped(x, src.tree, dst.tree, src == dst)
              && if r.error == Cancelled then cancel.cancelled else r.error == Io && dst.faulty
  {
    hide IsPlanFor, AfterCopies, AfterDeletes, SafelyStopped, Apart;
    ghost var copies, deletes := plan.copy.items, plan.delete.items;
    NothingDeletedYet(x, copies, deletes, missing, src.tree, dst.tree, src == dst);
    for k := 0 to |plan.delete.items|
      invariant src.Valid() && dst.Valid() && progress.Valid()
      invariant old(cancel.cancelled) ==> cancel.cancelled
      invariant AfterDeletes(x, copies, deletes, k, missing, src.tree, dst.tree, src == dst)
      invariant progress.filesDone == old(progress.filesDone) + k
    {
      var stop := cancel.IsCancelled();
      if stop {
        StoppedBetweenDeletes(x, copies, deletes, k, missing, src.tree, dst.tree, src == dst);
        r := Err(Cancelled);
        return;
      }
      progress.currentFile := Some(plan.delete.items[k].path);
      r := ExecuteDelete(dst, plan.delete.items[k], x, copies, deletes, k, missing, src.tree, src == dst);
      if r.Err? {
        return;
      }
      progress.CountFile();
    }
    r := Ok(());
  }

  /** The lists of the plan name p: a copy, a deletion, or something at or under a
      replaced entry. */
  ghost predicate Listed(copies: seq<CopyItem>, deletes: seq<DeleteItem>, p: Path) {
    || (exists i :: 0 <= i < |copies| && copies[i].dstPath == p)
    || (exists j :: 0 <= j < |deletes| && deletes[j].path == p)
    || (exists i :: 0 <= i < |copies| && copies[i].replaceExisting.Some? && Covers(copies[i].dstPath, p))
  }

  ghost predicate OnlyListedTouched(copies: seq<CopyItem>, deletes: seq<DeleteItem>, t0: Tree, t: Tree) {
    forall p :: !Listed(copies, deletes, p) ==> SameAt(t, t0, p)
  }

  lemma AnnouncedIsListed(x: Scope, copies: seq<CopyItem>, deletes: seq<DeleteItem>, q: Path)
    requires IsPlanFor(x, copies, deletes) && Announced(x.ToDiff(), x.deleteExtraneous, q)
    ensures Listed(copies, deletes, x.dstRoot + q)
  {
    hide IsPlanFor, CopyPlace, DeletePlace, Diff.NeedsCopy, Diff.Extraneous;
    if x.ToDiff().NeedsCopy(q) {
      var i := CopyStepExists(x, copies, deletes, q);
      CopyStepPlace(x, copies, deletes, i);
    } else if x.deleteExtraneous && x.ToDiff().Extraneous(q) {
      var j := DeleteStepExists(x, copies, deletes, q);
      DeleteStepFacts(x, copies, deletes, j);
    } else {
      var p :| x.ToDiff().Replaces(p) && Covers(p, q);
      ReplacedIsListed(x, copies, deletes, p, q);
    }
  }

  lemma ReplacedIsListed(x: Scope, copies: seq<CopyItem>, deletes: seq<DeleteItem>, p: Path, q: Path)
    requires IsPlanFor(x, copies, deletes) && x.ToDiff().Replaces(p) && Covers(p, q)
    ensures Listed(copies, deletes, x.dstRoot + q)
  {
    hide IsPlanFor, CopyPlace;
    var i := CopyStepExists(x, copies, deletes, p);
    CopyStepPlace(x, copies, deletes, i);
    CopyStepFacts(x, copies, deletes, i);
    CoversShift(x.dstRoot, p, q);
    assert copies[i].replaceExisting.Some? && Covers(copies[i].dstPath, x.dstRoot + q);
  }

  lemma SafeMeansUnlistedUntouched(x: Scope, copies: seq<CopyItem>, deletes: seq<DeleteItem>,
                                   ts: Tree, td: Tree, same: bool)
    requires IsPlanFor(x, copies, deletes) && SafelyStopped(x, ts, td, same)
    ensures OnlyListedTouched(copies, deletes, x.d, td)
  {
    hide IsPlanFor, Listed, Announced, SafelyStopped;
    forall p | !Listed(copies, deletes, p)
      ensures SameAt(td, x.d, p)
    {
      if Covers(x.dstRoot, p) {
        var q := p[|x.dstRoot|..];
        assert p == x.dstRoot + q;
        if Announced(x.ToDiff(), x.deleteExtraneous, q) {
          AnnouncedIsListed(x, copies, deletes, q);
        }
        UnannouncedUntouched(x, ts, td, same, q);
      } else {
        OutsideUntouched(x, ts, td, same, p);
      }
    }
  }

  lemma UnannouncedUntouched(x: Scope, ts: Tree, td: Tree, same: bool, q: Path)
    requires SafelyStopped(x, ts, td, same) && !Announced(x.ToDiff(), x.deleteExtraneous, q)
    ensures SameAt(td, x.d, x.dstRoot + q)
  {
    hide Announced, Standing, Explained;
    assert SameAt(View(td, x.dstRoot), View(x.d, x.dstRoot), q);
  }

  lemma OutsideUntouched(x: Scope, ts: Tree, td: Tree, same: bool, p: Path)
    requires SafelyStopped(x, ts, td, same) && !Covers(x.dstRoot, p)
    ensures SameAt(td, x.d, p)
  {
    hide Honest;
  }

  /** `execute_sync_plan`, on the trees its plan was scanned from. A completed run
      leaves the promised overlay, less links the environment refused to create.
      Nothing but the environment or the user can stop it: every step is enabled.
      However it ends, the source subtree is as scanned, every destination path that
      the plan does not list is untouched, and at the listed ones stand only scanned
      entries, copies, and the first part of one copy. */
  method ExecuteSyncPlan(src: Backend, dst: Backend, via: Route, plan: SyncPlan, cancel: CancellationToken,
                         ghost x: Scope)
    returns (r: Result<()>, progress: JobProgress, ghost missing: set<Path>)
    requires src.Valid() && dst.Valid() && (src == dst ==> via.VfsStream?)
    requires IsPlanFor(x, plan.copy.items, plan.delete.items) && Apart(x, src == dst)
    requires src.tree == x.s && dst.tree == x.d
    modifies dst, cancel
    ensures src.Valid() && dst.Valid() && fresh(progress) && progress.Valid()
    ensures r.Ok? ==>
              && x.ToDiff().Valid()
              && Standing(x, src.tree, dst.tree, src == dst, x.ToDiff().Overlay(x.deleteExtraneous) - missing)
              && OnlyLinks(x, missing)
              && (!dst.faulty ==> missing == {})
    ensures r.Ok? ==>
              && progress.filesDone == FilesCounted(via, plan.copy.items, |plan.copy.items|) + |plan.delete.items|
              && progress.bytesDone == BytesMoved(x.s, plan.copy.items, |plan.copy.items|)
              && progress.filesTotal == plan.filesToCopy && progress.bytesTotal == plan.bytesTotal
    ensures r.Err? ==> MayStop(r.error, via, cancel.cancelled, src.faulty || dst.faulty)
    ensures SafelyStopped(x, src.tree, dst.tree, src == dst)
    ensures OnlyListedTouched(plan.copy.items, plan.delete.items, old(dst.tree), dst.tree)
  {
    hide IsPlanFor, AfterCopies, AfterDeletes, Standing, SafelyStopped, Apart, OnlyLinks, OnlyListedTouched, WellFormed;
    hide FilesCounted, BytesMoved, Scope.ToDiff, Diff.Overlay, NotAfter;
    progress := new JobProgress(plan.filesToCopy, plan.bytesTotal);
    r, missing := CopyPass(src, dst, via, plan, cancel, progress, x);
    if r.Err? {
      SafeMeansUnlistedUntouched(x, plan.copy.items, plan.delete.items, src.tree, dst.tree, src == dst);
      return;
    }
    r := DeletePass(src, dst, plan, cancel, progress, x, missing);
    if r.Ok? {
      StoppedBetweenDeletes(x, plan.copy.items, plan.delete.items, |plan.delete.items|, missing,
                            src.tree, dst.tree, src == dst);
      PassesEndInOverlay(x, plan.copy.items, plan.delete.items, missing, src.tree, dst.tree, src == dst);
    }
    SafeMeansUnlistedUntouched(x, plan.copy.items, plan.delete.items, src.tree, dst.tree, src == dst);
  }

  lemma RootsFaceEachOther(x: Scope)
    ensures Facing(x, x.srcRoot, x.dstRoot)
  {
  }

  lemma GrownFromNothing(plan: SyncPlan, x: Scope, copies: seq<CopyItem>, deletes: seq<DeleteItem>)
    requires x.Valid() && Grown(plan, [], [], x, copies, x.OwedIn(x.srcRoot), deletes, x.DoomedIn(x.dstRoot))
    ensures IsPlanFor(x, plan.copy.items, plan.delete.items)
  {
    hide x.SyncCopies, DeletePlan;
    assert plan.copy.items == copies && plan.delete.items == deletes;
  }

  /** `build_sync_plan`: the scan changes no backend, and on success the plan holds
      exactly the steps that turn the destination into the promised overlay. */
  method BuildSyncPlan(src: Backend, dst: Backend, srcRoot: Path, dstRoot: Path, deleteExtraneous: bool,
                       cancel: CancellationToken, ghost x: Scope)
    returns (r: Result<SyncPlan>)
    requires src.Valid() && dst.Valid()
    requires x == ScopeOf(src, dst, srcRoot, dstRoot, deleteExtraneous)
    modifies cancel
    ensures r.Ok? ==>
              && fresh(r.value) && IsPlanFor(x, r.value.copy.items, r.value.delete.items)
              && r.value.filesToCopy == FilesAnnounced(r.value.copy.items, |r.value.copy.items|)
              && r.value.bytesTotal == BytesAnnounced(r.value.copy.items, |r.value.copy.items|)
              && r.value.itemsToDelete == |r.value.delete.items|
    ensures r.Err? ==>
              || (r.error == Cancelled && cancel.cancelled)
              || (r.error == Io && (src.faulty || dst.faulty))
              || !x.Valid()
  {
    hide Grown, IsPlanFor, Scanning, Facing;
    var stop := cancel.IsCancelled();
    if stop {
      return Err(Cancelled);
    }
    var plan := new SyncPlan();
    RootsFaceEachOther(x);
    ghost var copies, deletes;
    var diffed;
    diffed, copies, deletes := DiffDir(src, dst, srcRoot, dstRoot, deleteExtraneous, plan, x);
    if diffed.Err? {
      return Err(diffed.error);
    }
    GrownFromNothing(plan, x, copies, deletes);
    plan.filesToCopy := FilesAnnounced(plan.copy.items, |plan.copy.items|);
    plan.bytesTotal := BytesAnnounced(plan.copy.items, |plan.copy.items|);
    plan.itemsToDelete := |plan.delete.items|;
    return Ok(plan);
  }

  // ---------- Syncing again ----------

  /** Everything the first sync had to copy was something a copy reproduces. */
  ghost predicate CopiesFaithfully(x: Scope) {
    forall q :: x.ToDiff().NeedsCopy(q) ==> Faithful(x.ToDiff().s[q])
  }

  /** The plan of a second scan, made after a completed sync with the same setting,
      has nothing to delete. */
  lemma SecondPlanDeletesNothing(x: Scope, again: Scope, copies: seq<CopyItem>, deletes: seq<DeleteItem>)
    requires x.ToDiff().Valid() && IsPlanFor(again, copies, deletes)
    requires again.ToDiff().s == x.ToDiff().s && again.ToDiff().d == x.ToDiff().Overlay(x.deleteExtraneous)
    requires again.deleteExtraneous == x.deleteExtraneous
    ensures deletes == []
  {
    hide IsPlanFor;
    SecondScan(x.ToDiff(), x.deleteExtraneous, again.ToDiff());
    DeletedIsExtraneous(again, copies, deletes, 0);
    if deletes != [] {
      DeleteStepFacts(again, copies, deletes, 0);
    }
  }

  /** When both scans compare by hash, it has nothing to copy exactly when the first
      one only copied entries a copy reproduces. */
  lemma SecondPlanIsEmpty(x: Scope, again: Scope, copies: seq<CopyItem>, deletes: seq<DeleteItem>, hash: Bytes -> int)
    requires x.ToDiff().Valid() && IsPlanFor(again, copies, deletes)
    requires again.ToDiff().s == x.ToDiff().s && again.ToDiff().d == x.ToDiff().Overlay(x.deleteExtraneous)
    requires ComparedByHash(x.ToDiff(), hash) && ComparedByHash(again.ToDiff(), hash)
    ensures copies == [] <==> CopiesFaithfully(x)
  {
    hide IsPlanFor;
    SyncIsIdempotent(x.ToDiff(), x.deleteExtraneous, again.ToDiff(), hash);
    if copies != [] {
      CopyStepPlace(again, copies, deletes, 0);
      assert CopyPlace(again, copies[0]) in again.ToDiff().CopySet();
    } else if again.ToDiff().CopySet() != {} {
      var q :| q in again.ToDiff().CopySet();
      var i := CopyStepExists(again, copies, deletes, q);
    }
  }

  lemma NothingTakenAway(t: Tree)
    ensures t - {} == t
  {
  }

  lemma ScannedAfterSync(src: Backend, dst: Backend, x: Scope, again: Scope, missing: set<Path>)
    requires Standing(x, src.tree, dst.tree, src == dst, x.ToDiff().Overlay(x.deleteExtraneous) - missing)
    requires Scanning(src, dst, again) && again.srcRoot == x.srcRoot && again.dstRoot == x.dstRoot
    ensures again.ToDiff().s == x.ToDiff().s == View(src.tree, x.srcRoot)
    ensures again.ToDiff().d == View(dst.tree, x.dstRoot)
    ensures missing == {} ==> View(dst.tree, x.dstRoot) == x.ToDiff().Overlay(x.deleteExtraneous)
  {
    NothingTakenAway(x.ToDiff().Overlay(x.deleteExtraneous));
  }

  /** Scan, apply, scan again. A completed sync leaves the promised overlay; one that
      deletes leaves exactly the source, if and only if the comparison missed nothing
      and what a copy does not reproduce was there before. The second plan deletes
      nothing, and with hashes everywhere it copies nothing exactly when it can. */
  method SyncThenScan(src: Backend, dst: Backend, srcRoot: Path, dstRoot: Path, deleteExtraneous: bool,
                      via: Route, cancel: CancellationToken, ghost x: Scope)
    returns (r: Result<SyncPlan>)
    requires src.Valid() && dst.Valid() && (src == dst ==> via.VfsStream?)
    requires x == ScopeOf(src, dst, srcRoot, dstRoot, deleteExtraneous) && Apart(x, src == dst)
    modifies dst, cancel
    ensures src.Valid() && dst.Valid()
    ensures r.Ok? && !dst.faulty ==>
              && View(dst.tree, dstRoot) == x.ToDiff().Overlay(deleteExtraneous)
              && View(src.tree, srcRoot) == x.ToDiff().s
              && r.value.delete.items == []
    ensures r.Ok? && !dst.faulty && deleteExtraneous ==>
              (View(dst.tree, dstRoot) == View(src.tree, srcRoot)
               <==> ComparisonSound(x.ToDiff()) && AllReproducible(x.ToDiff()))
    ensures r.Ok? && !dst.faulty && HashesEverything(src, dst) ==>
              (r.value.copy.items == [] <==> CopiesFaithfully(x))
  {
    hide IsPlanFor, Apart, SafelyStopped, OnlyLinks, CopiesFaithfully, ComparedByHash, Standing, Scanning, View;
    hide ComparisonSound, AllReproducible, HashesEverything, MayStop, FilesCounted, BytesMoved, Diff.Overlay, NotAfter;
    hide FilesAnnounced, BytesAnnounced, OnlyListedTouched;
    if HashesEverything(src, dst) {
      ScanComparesByHash(src, dst, x);
    }
    var plan :- BuildSyncPlan(src, dst, srcRoot, dstRoot, deleteExtraneous, cancel, x);
    var done, progress;
    ghost var missing;
    done, progress, missing := ExecuteSyncPlan(src, dst, via, plan, cancel, x);
    if done.Err? {
      return Err(done.error);
    }
    ghost var again := ScopeOf(src, dst, srcRoot, dstRoot, deleteExtraneous);
    r := BuildSyncPlan(src, dst, srcRoot, dstRoot, deleteExtraneous, cancel, again);
    if r.Ok? && !dst.faulty {
      ScannedAfterSync(src, dst, x, again, missing);
      SecondPlanDeletesNothing(x, again, r.value.copy.items, r.value.delete.items);
      if deleteExtraneous {
        SyncConverges(x.ToDiff());
      }
      if HashesEverything(src, dst) {
        ScanComparesByHash(src, dst, again);
        SecondPlanIsEmpty(x, again, r.value.copy.items, r.value.delete.items, src.hash);
      }
    }
  }
}
