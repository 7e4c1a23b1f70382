/** One copy step of `execute_sync_plan`: clearing its place, then creating the
    entry, with what every way of stopping in between leaves standing. */
module SyncExec {
  import opened Base
  import opened Trees
  import opened Backends
  import opened Transports
  import opened Plans
  import opened SyncSpec
  import opened SyncScope
  import opened SyncSteps
  import opened Copying

  /** The two sync roots do not overlap, if they are on one backend. */
  predicate Apart(x: Scope, same: bool) {
    same ==> !Covers(x.srcRoot, x.dstRoot) && !Covers(x.dstRoot, x.srcRoot)
  }

  /** The backends' trees ts and td, which are one tree if `same`: the source
      subtree is as scanned, the destination subtree is t, and nothing changed
      outside the destination subtree. */
  ghost predicate Standing(x: Scope, ts: Tree, td: Tree, same: bool, t: Tree) {
    && WellFormed(ts) && WellFormed(td)
    && View(ts, x.srcRoot) == x.ToDiff().s
    && View(td, x.dstRoot) == t
    && (if same then ts == td else ts == x.s)
    && forall p :: !Covers(x.dstRoot, p) ==> SameAt(td, x.d, p)
  }

  lemma SourceSeesNothing(x: Scope, td0: Tree, td: Tree)
    requires Apart(x, true)
    requires forall p :: !Covers(x.dstRoot, p) ==> SameAt(td0, td, p)
    ensures View(td, x.srcRoot) == View(td0, x.srcRoot)
  {
    forall u: Path
      ensures SameAt(td0, td, x.srcRoot + u)
    {
      if Covers(x.dstRoot, x.srcRoot + u) {
        AncestorsAreComparable(x.dstRoot, x.srcRoot, x.srcRoot + u);
      }
    }
  }

  /** A change below the destination root, seen as a change of the subtree. */
  lemma StandingMoves(x: Scope, ts: Tree, td: Tree, same: bool, t: Tree, td1: Tree, t1: Tree)
    requires Standing(x, ts, td, same, t) && Apart(x, same)
    requires WellFormed(td1) && View(td1, x.dstRoot) == t1
    requires forall p :: !Covers(x.dstRoot, p) ==> SameAt(td, td1, p)
    ensures Standing(x, if same then td1 else ts, td1, same, t1)
  {
    if same {
      SourceSeesNothing(x, td, td1);
    }
    forall p | !Covers(x.dstRoot, p)
      ensures SameAt(td1, x.d, p)
    {
      assert SameAt(td, td1, p) && SameAt(td, x.d, p);
    }
  }

  lemma StandingUpdated(x: Scope, ts: Tree, td: Tree, same: bool, t: Tree, q: Path, e: Entry)
    requires Standing(x, ts, td, same, t) && Apart(x, same)
    requires WellFormed(td[x.dstRoot + q := e])
    ensures var td1 := td[x.dstRoot + q := e];
            Standing(x, if same then td1 else ts, td1, same, t[q := e])
  {
    ViewOfUpdate(td, x.dstRoot, q, e);
    StandingMoves(x, ts, td, same, t, td[x.dstRoot + q := e], t[q := e]);
  }

  lemma StandingPruned(x: Scope, ts: Tree, td: Tree, same: bool, t: Tree, q: Path)
    requires Standing(x, ts, td, same, t) && Apart(x, same)
    requires WellFormed(Prune(td, x.dstRoot + q))
    ensures var td1 := Prune(td, x.dstRoot + q);
            Standing(x, if same then td1 else ts, td1, same, Prune(t, q))
  {
    ViewOfPrune(td, x.dstRoot, q);
    var td1 := Prune(td, x.dstRoot + q);
    forall p | !Covers(x.dstRoot, p)
      ensures SameAt(td, td1, p)
    {
      if Covers(x.dstRoot + q, p) {
        CoversTransitive(x.dstRoot, x.dstRoot + q, p);
      }
    }
    StandingMoves(x, ts, td, same, t, td1, Prune(t, q));
  }

  lemma StandingShrunk(x: Scope, ts: Tree, td: Tree, same: bool, t: Tree, q: Path, td1: Tree)
    requires Standing(x, ts, td, same, t) && Apart(x, same)
    requires WellFormed(td1) && ShrunkBelow(td, td1, x.dstRoot + q)
    ensures Standing(x, if same then td1 else ts, td1, same, View(td1, x.dstRoot))
    ensures AgreeOutside(View(td1, x.dstRoot), t, q) && LeftOf(View(td1, x.dstRoot), t)
  {
    forall p | !Covers(x.dstRoot, p)
      ensures SameAt(td, td1, p)
    {
      if Covers(x.dstRoot + q, p) {
        CoversTransitive(x.dstRoot, x.dstRoot + q, p);
      }
    }
    StandingMoves(x, ts, td, same, t, td1, View(td1, x.dstRoot));
    forall u | !Covers(q, u)
      ensures SameAt(View(td1, x.dstRoot), t, u)
    {
      CoversShift(x.dstRoot, q, u);
    }
  }

  /** An entry of the standing destination, in the backend's own tree. */
  lemma StandingAt(x: Scope, ts: Tree, td: Tree, same: bool, t: Tree, q: Path)
    requires Standing(x, ts, td, same, t)
    ensures x.dstRoot + q in td <==> q in t
    ensures q in t ==> td[x.dstRoot + q] == t[q]
    ensures x.srcRoot + q in ts <==> x.srcRoot + q in x.s
    ensures x.srcRoot + q in ts ==> ts[x.srcRoot + q] == x.s[x.srcRoot + q]
  {
  }

  /** Creating at q is as possible on the backend as on the subtree. */
  lemma EnabledBelow(x: Scope, ts: Tree, td: Tree, same: bool, t: Tree, q: Path)
    requires Standing(x, ts, td, same, t) && q != []
    ensures CanCreate(td, x.dstRoot + q) <==> CanCreate(t, q)
    ensures CanWrite(td, x.dstRoot + q) <==> CanWrite(t, q)
    ensures CanUnlink(td, x.dstRoot + q) <==> CanUnlink(t, q)
  {
    SplitParent(x.dstRoot, q);
    StandingAt(x, ts, td, same, t, q);
    StandingAt(x, ts, td, same, t, Parent(q));
  }

  lemma RmdirBelow(x: Scope, ts: Tree, td: Tree, same: bool, t: Tree, q: Path)
    requires Standing(x, ts, td, same, t) && CanRmdir(t, q)
    ensures CanRmdir(td, x.dstRoot + q)
  {
    StandingAt(x, ts, td, same, t, q);
    forall p | p in td
      ensures !Ancestor(x.dstRoot + q, p)
    {
      if Ancestor(x.dstRoot + q, p) {
        var u := BelowRoot(x.dstRoot, q, p);
      }
    }
  }

  lemma BelowRoot(root: Path, q: Path, p: Path) returns (u: Path)
    requires Ancestor(root + q, p)
    ensures p == root + u && Ancestor(q, u)
  {
    assert Covers(root, root + q);
    u := p[|root|..];
    assert p == root + u;
    AncestorOfShift(root, q, u);
  }

  // ---------- One copy step ----------

  /** Wherever a sync stops: the source as scanned, the destination honest. */
  ghost predicate SafelyStopped(x: Scope, ts: Tree, td: Tree, same: bool) {
    && Standing(x, ts, td, same, View(td, x.dstRoot))
    && Honest(x.ToDiff(), x.deleteExtraneous, View(td, x.dstRoot))
  }

  /** The state right after k copies, with some links missing. */
  ghost predicate AfterCopies(x: Scope, copies: seq<CopyItem>, k: nat, missing: set<Path>,
                              ts: Tree, td: Tree, same: bool)
    requires k <= |copies|
  {
    && Coherent(x, copies, k, missing)
    && Standing(x, ts, td, same, MidwayAt(x, copies, k, missing))
  }

  /** The state of step k once its place is cleared. */
  ghost predicate PlaceIsReady(x: Scope, copies: seq<CopyItem>, k: nat, missing: set<Path>,
                               ts: Tree, td: Tree, same: bool)
    requires k < |copies|
  {
    && Coherent(x, copies, k, missing)
    && Standing(x, ts, td, same, ReadyAt(x, copies, k, missing))
  }

  lemma StoppedBetweenSteps(x: Scope, copies: seq<CopyItem>, deletes: seq<DeleteItem>, k: nat, missing: set<Path>,
                            ts: Tree, td: Tree, same: bool)
    requires IsPlanFor(x, copies, deletes) && k <= |copies| && AfterCopies(x, copies, k, missing, ts, td, same)
    ensures SafelyStopped(x, ts, td, same)
  {
    CopiesAreHonest(x, copies, deletes, k, missing);
  }

  lemma ReplacedOnBackend(x: Scope, copies: seq<CopyItem>, deletes: seq<DeleteItem>, k: nat, missing: set<Path>,
                          ts: Tree, td: Tree, same: bool)
    requires IsPlanFor(x, copies, deletes) && k < |copies| && AfterCopies(x, copies, k, missing, ts, td, same)
    ensures copies[k].dstPath != []
    ensures copies[k].replaceExisting.Some? ==>
              copies[k].dstPath in td && KindOf(td[copies[k].dstPath]) == copies[k].replaceExisting.value.kind
  {
    CopyStepPlace(x, copies, deletes, k);
    StepMeetsItsEntry(x, copies, deletes, k, missing);
    StandingAt(x, ts, td, same, MidwayAt(x, copies, k, missing), CopyPlace(x, copies[k]));
  }

  lemma PlaceCleared(x: Scope, copies: seq<CopyItem>, deletes: seq<DeleteItem>, k: nat, missing: set<Path>,
                     ts: Tree, td: Tree, same: bool, td1: Tree)
    requires IsPlanFor(x, copies, deletes) && k < |copies| && AfterCopies(x, copies, k, missing, ts, td, same)
    requires Apart(x, same) && WellFormed(td1)
    requires td1 == if copies[k].replaceExisting.Some? then Prune(td, copies[k].dstPath) else td
    ensures PlaceIsReady(x, copies, k, missing, if same then td1 else ts, td1, same)
  {
    CopyStepPlace(x, copies, deletes, k);
    ReadyAtIsCleared(x, copies, deletes, k, missing);
    if copies[k].replaceExisting.Some? {
      StandingPruned(x, ts, td, same, MidwayAt(x, copies, k, missing), CopyPlace(x, copies[k]));
    }
  }

  lemma ClearingFailed(x: Scope, copies: seq<CopyItem>, deletes: seq<DeleteItem>, k: nat, missing: set<Path>,
                       ts: Tree, td: Tree, same: bool, td1: Tree)
    requires IsPlanFor(x, copies, deletes) && k < |copies| && AfterCopies(x, copies, k, missing, ts, td, same)
    requires Apart(x, same) && WellFormed(td1)
    requires copies[k].replaceExisting.Some? && ShrunkBelow(td, td1, copies[k].dstPath)
    ensures SafelyStopped(x, if same then td1 else ts, td1, same)
  {
    CopyStepPlace(x, copies, deletes, k);
    StandingShrunk(x, ts, td, same, MidwayAt(x, copies, k, missing), CopyPlace(x, copies[k]), td1);
    InterruptedClearing(x, copies, deletes, k, missing, View(td1, x.dstRoot));
  }

  /** Removes what the step replaces, if anything. Only the environment can stop it. */
  method ClearPlace(dst: Backend, item: CopyItem, ghost x: Scope, ghost copies: seq<CopyItem>,
                    ghost deletes: seq<DeleteItem>, ghost k: nat, ghost missing: set<Path>, ghost ts: Tree,
                    ghost same: bool)
    returns (r: Result<()>)
    requires dst.Valid() && IsPlanFor(x, copies, deletes) && k < |copies| && item == copies[k] && Apart(x, same)
    requires AfterCopies(x, copies, k, missing, ts, dst.tree, same)
    modifies dst
    ensures dst.Valid()
    ensures r.Ok? ==> PlaceIsReady(x, copies, k, missing, if same then dst.tree else ts, dst.tree, same)
    ensures r.Err? ==> r.error == Io && dst.faulty && SafelyStopped(x, if same then dst.tree else ts, dst.tree, same)
  {
    hide IsPlanFor, AfterCopies, PlaceIsReady, SafelyStopped, Apart, WellFormed;
    ghost var td := dst.tree;
    ReplacedOnBackend(x, copies, deletes, k, missing, ts, td, same);
    r := Ok(());
    if item.replaceExisting.Some? {
      if item.replaceExisting.value.kind == Dir {
        r := dst.RemoveDir(item.dstPath, true);
      } else {
        r := dst.RemoveFile(item.dstPath);
      }
    }
    if r.Ok? {
      PlaceCleared(x, copies, deletes, k, missing, ts, td, same, dst.tree);
    } else {
      ClearingFailed(x, copies, deletes, k, missing, ts, td, same, dst.tree);
    }
  }

  lemma DifferentPlaces(x: Scope, q: Path)
    requires Apart(x, true)
    ensures x.srcRoot + q != x.dstRoot + q
  {
    assert (x.srcRoot + q)[..|x.srcRoot|] == x.srcRoot && (x.dstRoot + q)[..|x.dstRoot|] == x.dstRoot;
  }

  /** With the place cleared, the copy is enabled on the backend. */
  lemma CreationEnabled(x: Scope, copies: seq<CopyItem>, deletes: seq<DeleteItem>, k: nat, missing: set<Path>,
                        ts: Tree, td: Tree, same: bool)
    requires IsPlanFor(x, copies, deletes) && k < |copies| && PlaceIsReady(x, copies, k, missing, ts, td, same)
    requires Apart(x, same)
    ensures copies[k].srcPath in x.s && CopyEnabled(td, x.s[copies[k].srcPath], copies[k].dstPath)
  {
    hide IsPlanFor, WellFormed, Apart, Coherent;
    CopyStepPlace(x, copies, deletes, k);
    StepCanCreate(x, copies, deletes, k, missing);
    EnabledBelow(x, ts, td, same, ReadyAt(x, copies, k, missing), CopyPlace(x, copies[k]));
  }

  /** The source entry of a step is still the scanned one. */
  lemma SourceIsAsScanned(x: Scope, copies: seq<CopyItem>, deletes: seq<DeleteItem>, k: nat,
                          ts: Tree, td: Tree, same: bool, t: Tree)
    requires IsPlanFor(x, copies, deletes) && k < |copies| && Standing(x, ts, td, same, t) && Apart(x, same)
    ensures var it := copies[k];
            && Describes(ts, it.meta, it.srcPath) && it.srcPath in x.s && ts[it.srcPath] == x.s[it.srcPath]
            && (same ==> it.srcPath != it.dstPath)
  {
    CopyStepPlace(x, copies, deletes, k);
    CopyStepFacts(x, copies, deletes, k);
    StandingAt(x, ts, td, same, t, CopyPlace(x, copies[k]));
    if same {
      DifferentPlaces(x, CopyPlace(x, copies[k]));
    }
  }

  lemma CopyMade(x: Scope, copies: seq<CopyItem>, deletes: seq<DeleteItem>, k: nat, missing: set<Path>,
                 ts: Tree, td: Tree, same: bool, td1: Tree)
    requires IsPlanFor(x, copies, deletes) && k < |copies| && PlaceIsReady(x, copies, k, missing, ts, td, same)
    requires Apart(x, same) && copies[k].srcPath in x.s && WellFormed(td1)
    requires td1 == td[copies[k].dstPath := Transferred(x.s[copies[k].srcPath])]
    ensures AfterCopies(x, copies, k + 1, missing, if same then td1 else ts, td1, same)
  {
    CopyStepPlace(x, copies, deletes, k);
    StepAdvances(x, copies, deletes, k, missing);
    StandingUpdated(x, ts, td, same, ReadyAt(x, copies, k, missing), CopyPlace(x, copies[k]),
                    Transferred(x.s[copies[k].srcPath]));
  }

  lemma CopySkipped(x: Scope, copies: seq<CopyItem>, deletes: seq<DeleteItem>, k: nat, missing: set<Path>,
                    ts: Tree, td: Tree, same: bool)
    requires IsPlanFor(x, copies, deletes) && k < |copies| && PlaceIsReady(x, copies, k, missing, ts, td, same)
    requires copies[k].srcPath in x.s && x.s[copies[k].srcPath].Link?
    ensures AfterCopies(x, copies, k + 1, missing + {CopyPlace(x, copies[k])}, ts, td, same)
  {
    SkippedStepAdvances(x, copies, deletes, k, missing);
  }

  lemma StoppedBeforeCreation(x: Scope, copies: seq<CopyItem>, deletes: seq<DeleteItem>, k: nat, missing: set<Path>,
                              ts: Tree, td: Tree, same: bool)
    requires IsPlanFor(x, copies, deletes) && k < |copies| && PlaceIsReady(x, copies, k, missing, ts, td, same)
    ensures SafelyStopped(x, if same then td else ts, td, same)
  {
    hide IsPlanFor, WellFormed;
    ReadyIsHonest(x, copies, deletes, k, missing);
    InterruptedCreation(x, copies, deletes, k, missing, ReadyAt(x, copies, k, missing));
  }

  lemma StoppedInTransfer(x: Scope, copies: seq<CopyItem>, deletes: seq<DeleteItem>, k: nat, missing: set<Path>,
                          ts: Tree, td: Tree, same: bool, part: Bytes)
    requires IsPlanFor(x, copies, deletes) && k < |copies| && PlaceIsReady(x, copies, k, missing, ts, td, same)
    requires Apart(x, same) && WellFormed(td[copies[k].dstPath := Regular(part)])
    requires copies[k].srcPath in x.s && PartlyTransferred(x.s[copies[k].srcPath], Regular(part))
    ensures var td1 := td[copies[k].dstPath := Regular(part)];
            SafelyStopped(x, if same then td1 else ts, td1, same)
  {
    hide IsPlanFor, Standing, AgreeExcept, WellFormed, Apart, CopyPlace, ReadyAt, Coherent, Honest, PartlyTransferred;
    var q, ready := CopyPlace(x, copies[k]), ReadyAt(x, copies, k, missing);
    CopyStepPlace(x, copies, deletes, k);
    CopyStepFacts(x, copies, deletes, k);
    assert Explained(x.ToDiff(), q, Regular(part));
    UpdateAgreesExcept(ready, q, Regular(part));
    InterruptedCreation(x, copies, deletes, k, missing, ready[q := Regular(part)]);
    StandingUpdated(x, ts, td, same, ready, q, Regular(part));
    var td1 := td[copies[k].dstPath := Regular(part)];
    StandingView(x, if same then td1 else ts, td1, same, ready[q := Regular(part)]);
  }

  lemma UpdateAgreesExcept(t: Tree, q: Path, e: Entry)
    ensures AgreeExcept(t[q := e], t, q)
  {
  }

  lemma StandingView(x: Scope, ts: Tree, td: Tree, same: bool, t: Tree)
    requires Standing(x, ts, td, same, t)
    ensures View(td, x.dstRoot) == t
  {
  }

  lemma CopyInterrupted(x: Scope, copies: seq<CopyItem>, deletes: seq<DeleteItem>, k: nat, missing: set<Path>,
                        ts: Tree, td: Tree, same: bool, td1: Tree)
    requires IsPlanFor(x, copies, deletes) && k < |copies| && PlaceIsReady(x, copies, k, missing, ts, td, same)
    requires Apart(x, same) && copies[k].srcPath in x.s && WellFormed(td1)
    requires CopyFailed(td, td1, x.s[copies[k].srcPath], copies[k].dstPath)
    ensures SafelyStopped(x, if same then td1 else ts, td1, same)
  {
    hide IsPlanFor, SafelyStopped, PlaceIsReady, Apart, WellFormed;
    if td1 == td {
      StoppedBeforeCreation(x, copies, deletes, k, missing, ts, td, same);
    } else {
      var data := x.s[copies[k].srcPath].data;
      var n :| PrefixWritten(td, td1, copies[k].dstPath, data, n);
      StoppedInTransfer(x, copies, deletes, k, missing, ts, td, same, data[..n]);
    }
  }

  /** Creates the entry of a step whose place is ready. */
  method CreateEntry(src: Backend, dst: Backend, via: Route, item: CopyItem, cancel: CancellationToken,
                     progress: JobProgress,
                     ghost x: Scope, ghost copies: seq<CopyItem>, ghost deletes: seq<DeleteItem>,
                     ghost k: nat, ghost missing0: set<Path>)
    returns (r: Result<()>, ghost missing: set<Path>)
    requires src.Valid() && dst.Valid() && progress.Valid() && (src == dst ==> via.VfsStream?)
    requires IsPlanFor(x, copies, deletes) && k < |copies| && item == copies[k] && Apart(x, src == dst)
    requires PlaceIsReady(x, copies, k, missing0, src.tree, dst.tree, src == dst)
    modifies dst, cancel, progress`bytesDone, progress`filesDone, progress`reports
    ensures src.Valid() && dst.Valid() && progress.Valid()
    ensures old(cancel.cancelled) ==> cancel.cancelled
    ensures r.Ok? ==>
              && AfterCopies(x, copies, k + 1, missing, src.tree, dst.tree, src == dst)
              && (!dst.faulty ==> missing == missing0)
              && progress.filesDone == old(progress.filesDone) + FileCount(via, item.meta.kind)
              && progress.bytesDone == old(progress.bytesDone) + ByteWeight(x.s, item)
    ensures r.Err? ==>
              && SafelyStopped(x, src.tree, dst.tree, src == dst)
              && MayStop(r.error, via, cancel.cancelled, src.faulty || dst.faulty)
  {
    hide IsPlanFor, AfterCopies, SafelyStopped, Apart, CopyFailed, CopyEnabled, WellFormed, Standing, Describes,
         Transferred;
    ghost var ts, td, same := src.tree, dst.tree, src == dst;
    missing := missing0;
    CreationEnabled(x, copies, deletes, k, missing0, ts, td, same);
    SourceIsAsScanned(x, copies, deletes, k, ts, td, same, ReadyAt(x, copies, k, missing0));
    ghost var skipped;
    r, skipped := ApplyCopyItem(src, dst, via, item, cancel, progress);
    if r.Err? {
      CopyInterrupted(x, copies, deletes, k, missing0, ts, td, same, dst.tree);
    } else if skipped {
      CopySkipped(x, copies, deletes, k, missing0, ts, td, same);
      missing := missing0 + {CopyPlace(x, item)};
    } else {
      CopyMade(x, copies, deletes, k, missing0, ts, td, same, dst.tree);
    }
  }

  /** One turn of the copy pass, after its cancel check: a step that comes next is
      carried out, or the environment or the user stopped it at a safe point. */
  method ExecuteCopy(src: Backend, dst: Backend, via: Route, item: CopyItem, cancel: CancellationToken,
                     progress: JobProgress,
                     ghost x: Scope, ghost copies: seq<CopyItem>, ghost deletes: seq<DeleteItem>,
                     ghost k: nat, ghost missing0: set<Path>)
    returns (r: Result<()>, ghost missing: set<Path>)
    requires src.Valid() && dst.Valid() && progress.Valid() && (src == dst ==> via.VfsStream?)
    requires IsPlanFor(x, copies, deletes) && k < |copies| && item == copies[k] && Apart(x, src == dst)
    requires AfterCopies(x, copies, k, missing0, src.tree, dst.tree, src == dst)
    modifies dst, cancel, progress`bytesDone, progress`filesDone, progress`reports, progress`currentFile
    ensures src.Valid() && dst.Valid() && progress.Valid()
    ensures old(cancel.cancelled) ==> cancel.cancelled
    ensures r.Ok? ==>
              && AfterCopies(x, copies, k + 1, missing, src.tree, dst.tree, src == dst)
              && (!dst.faulty ==> missing == missing0)
              && progress.filesDone == old(progress.filesDone) + FileCount(via, item.meta.kind)
              && progress.bytesDone == old(progress.bytesDone) + ByteWeight(x.s, item)
    ensures r.Err? ==>
              && SafelyStopped(x, src.tree, dst.tree, src == dst)
              && MayStop(r.error, via, cancel.cancelled, src.faulty || dst.faulty)
  {
    hide IsPlanFor, AfterCopies, PlaceIsReady, SafelyStopped, Apart, ByteWeight, WellFormed;
    missing := missing0;
    r := ClearPlace(dst, item, x, copies, deletes, k, missing0, src.tree, src == dst);
    if r.Ok? {
      progress.currentFile := Some(item.dstPath);
      r, missing := CreateEntry(src, dst, via, item, cancel, progress, x, copies, deletes, k, missing0);
    }
  }
}
