/** `copy_job` and `move_cross_backend`: several items copied into one directory. */
module CopyJobs {
  import opened Base
  import opened Trees
  import opened Backends
  import opened Transports
  import opened Plans
  import opened Walks
  import opened SyncSpec
  import opened Copying
  import opened CopyTargets
  import opened CopyEffects
  import opened CopyClashes
  import opened DeleteJobs

  // ---------- The scan ----------

  method ScanForCopy(src: Backend, items: seq<Path>, destDir: Path) returns (r: Result<()>, out: Vec<CopyItem>)
    requires src.Valid()
    ensures fresh(out)
    ensures r.Ok? ==> ScannedCopies(src.tree, items, destDir, |items|, out.items)
    ensures r.Err? ==> (r.error == Io && src.faulty) || !AllPresent(src.tree, items)
  {
    hide ScannedCopies, AllPresent;
    out := new Vec();
    NothingPlannedYet(src.tree, items, destDir);
    for n := 0 to |items|
      invariant ScannedCopies(src.tree, items, destDir, n, out.items)
    {
      r := ScanItemForCopy(src, items, destDir, n, out);
      if r.Err? {
        return;
      }
    }
    r := Ok(());
  }

  /** Every item has a file name and exists. */
  predicate AllPresent(t: Tree, items: seq<Path>) {
    forall i :: 0 <= i < |items| ==> items[i] != [] && items[i] in t
  }

  lemma NothingPlannedYet(t: Tree, items: seq<Path>, destDir: Path)
    ensures ScannedCopies(t, items, destDir, 0, [])
  {
  }

  method ScanItemForCopy(src: Backend, items: seq<Path>, destDir: Path, n: nat, out: Vec<CopyItem>)
    returns (r: Result<()>)
    requires src.Valid() && n < |items| && ScannedCopies(src.tree, items, destDir, n, out.items)
    modifies out
    ensures r.Ok? ==> ScannedCopies(src.tree, items, destDir, n + 1, out.items)
    ensures r.Err? ==> (r.error == Io && src.faulty) || !AllPresent(src.tree, items)
  {
    hide ScannedCopies, Target, CopyPlan;
    if items[n] == [] {
      return Err(Unsupported);
    }
    ghost var added;
    ghost var before := out.items;
    assert items[n][|items[n]|..] == [] && Target(destDir, items[n]) + [] == Target(destDir, items[n]);
    r, added := WalkForCopy(src, items[n], Target(destDir, items[n]), out, items[n], Target(destDir, items[n]));
    if r.Ok? {
      OneMoreItemPlanned(src.tree, items, destDir, n, before, added);
    }
  }

  // ---------- Running the plan ----------

  /** On one backend, no item and no target lies at or under the other. */
  predicate Separate(items: seq<Path>, destDir: Path) {
    forall i, j :: 0 <= i < |items| && 0 <= j < |items| ==>
      && !Covers(items[i], Target(destDir, items[j]))
      && !Covers(Target(destDir, items[j]), items[i])
  }

  predicate Among(items: seq<Path>, q: Path) {
    exists i :: 0 <= i < |items| && Covers(items[i], q)
  }

  predicate AmongTargets(items: seq<Path>, destDir: Path, q: Path) {
    exists i :: 0 <= i < |items| && Covers(Target(destDir, items[i]), q)
  }

  /** However a copy job ends: what was selected is untouched, the destination only
      changed at or under the targets, and nothing it held is destroyed. */
  ghost predicate LeftSafely(s: Tree, d: Tree, ts: Tree, td: Tree, items: seq<Path>, destDir: Path) {
    && (forall q :: Among(items, q) ==> SameAt(ts, s, q))
    && (forall q :: !AmongTargets(items, destDir, q) ==> SameAt(td, d, q))
    && NothingDestroyed(s, d, td, items, destDir)
  }

  /** e is all or the first part of the copy of a selected entry that goes to q. */
  predicate Arrived(s: Tree, items: seq<Path>, destDir: Path, q: Path, e: Entry) {
    exists i, p :: 0 <= i < |items| && Covers(items[i], p) && p in s && ArrivedFrom(s, items[i], destDir, p, q, e)
  }

  predicate ArrivedFrom(s: Tree, item: Path, destDir: Path, p: Path, q: Path, e: Entry)
    requires Covers(item, p) && p in s
  {
    q == Rebase(item, Target(destDir, item), p) && (e == Transferred(s[p]) || PartlyTransferred(s[p], e))
  }

  /** Every entry of d is still there, unchanged unless it is a regular file that a
      transfer writes over; and whatever else td holds is a copy, or part of one. */
  predicate NothingDestroyed(s: Tree, d: Tree, td: Tree, items: seq<Path>, destDir: Path) {
    && (forall q :: q in d ==> q in td && (td[q] == d[q] || (d[q].Regular? && td[q].Regular?)))
    && (forall q :: q in td ==> (q in d && td[q] == d[q]) || Arrived(s, items, destDir, q, td[q]))
  }

  /** Between two steps of a job that started from s and d. */
  ghost predicate Between(s: Tree, d: Tree, ts: Tree, td: Tree, same: bool, items: seq<Path>, destDir: Path,
                          plan: seq<CopyItem>, k: nat, skipped: set<nat>)
  {
    && k <= |plan| && FromSource(s, plan)
    && SkipsLinks(s, plan, k, skipped)
    && td == LaidOut(d, s, plan, k, skipped)
    && (if same then ts == td && s == d else ts == s)
    && AllEnabled(d, s, plan, k, skipped)
  }

  /** What the job was set up with. */
  ghost predicate Prepared(s: Tree, d: Tree, same: bool, items: seq<Path>, destDir: Path, plan: seq<CopyItem>) {
    && WellFormed(s) && WellFormed(d)
    && ScannedCopies(s, items, destDir, |items|, plan)
    && (same ==> s == d && Separate(items, destDir))
  }

  lemma PlannedFromSource(s: Tree, items: seq<Path>, destDir: Path, plan: seq<CopyItem>)
    requires AllPlanned(s, items, destDir, plan)
    ensures FromSource(s, plan)
  {
  }

  lemma StepPlaces(s: Tree, items: seq<Path>, destDir: Path, plan: seq<CopyItem>, k: nat)
    requires AllPlanned(s, items, destDir, plan) && k < |plan|
    ensures Among(items, plan[k].srcPath) && AmongTargets(items, destDir, plan[k].dstPath)
    ensures Describes(s, plan[k].meta, plan[k].srcPath)
  {
  }

  lemma PlacesAreDisjoint(items: seq<Path>, destDir: Path, q: Path)
    requires Separate(items, destDir) && AmongTargets(items, destDir, q)
    ensures !Among(items, q)
  {
  }

  /** u differs from t at most at p. */
  ghost predicate OnlyAt(t: Tree, u: Tree, p: Path) {
    forall q :: q != p ==> SameAt(u, t, q)
  }

  lemma SafeWithin(s: Tree, d: Tree, ts: Tree, td: Tree, ts': Tree, td': Tree, same: bool, items: seq<Path>,
                   destDir: Path, plan: seq<CopyItem>, k: nat)
    requires Prepared(s, d, same, items, destDir, plan) && k < |plan|
    requires LeftSafely(s, d, ts, td, items, destDir) && NothingDestroyed(s, d, td', items, destDir)
    requires OnlyAt(td, td', plan[k].dstPath) && if same then ts' == td' && ts == td else ts' == ts
    ensures LeftSafely(s, d, ts', td', items, destDir)
  {
    hide Among, AmongTargets, AllPlanned, JobPlan, NamedApart, Separate, NothingDestroyed;
    var p := plan[k].dstPath;
    StepPlaces(s, items, destDir, plan, k);
    forall q | !AmongTargets(items, destDir, q)
      ensures SameAt(td', d, q)
    {
      assert q != p && SameAt(td', td, q);
    }
    if same {
      PlacesAreDisjoint(items, destDir, p);
      forall q | Among(items, q)
        ensures SameAt(ts', s, q)
      {
        assert q != p && SameAt(td', td, q);
      }
    }
  }

  lemma CopyTouchesOnePlace(t: Tree, u: Tree, e: Entry, p: Path, skipped: bool)
    requires CopiedOrSkipped(t, u, e, p, skipped) || CopyFailed(t, u, e, p)
    ensures OnlyAt(t, u, p)
  {
  }

  /** One step, done, skipped or failed, destroys nothing. */
  lemma StepDestroysNothing(s: Tree, d: Tree, td: Tree, td': Tree, items: seq<Path>, destDir: Path,
                            plan: seq<CopyItem>, k: nat, skipped: bool)
    requires k < |plan| && AllPlanned(s, items, destDir, plan) && plan[k].srcPath in s
    requires NothingDestroyed(s, d, td, items, destDir)
    requires var e, p := s[plan[k].srcPath], plan[k].dstPath;
             CopiedOrSkipped(td, td', e, p, skipped) || CopyFailed(td, td', e, p)
    ensures NothingDestroyed(s, d, td', items, destDir)
  {
    hide Arrived, Target, Rebase, AllPlanned;
    var e, p := s[plan[k].srcPath], plan[k].dstPath;
    if td' != td {
      assert p in td' && td' == td[p := td'[p]];
      PlannedArrives(s, items, destDir, plan, k, td'[p]);
      assert p in d ==> d[p].Regular? && td'[p].Regular?;
    }
  }

  lemma PlannedArrives(s: Tree, items: seq<Path>, destDir: Path, plan: seq<CopyItem>, k: nat, e: Entry)
    requires k < |plan| && AllPlanned(s, items, destDir, plan) && plan[k].srcPath in s
    requires e == Transferred(s[plan[k].srcPath]) || PartlyTransferred(s[plan[k].srcPath], e)
    ensures Arrived(s, items, destDir, plan[k].dstPath, e)
  {
    assert PlannedFor(s, items, destDir, plan[k]);
    var i :| 0 <= i < |items| && PlannedCopy(s, plan[k], items[i], Target(destDir, items[i]));
    assert ArrivedFrom(s, items[i], destDir, plan[k].srcPath, plan[k].dstPath, e);
  }

  lemma SafeAfterStep(s: Tree, d: Tree, ts: Tree, td: Tree, ts': Tree, td': Tree, same: bool, items: seq<Path>,
                      destDir: Path, plan: seq<CopyItem>, k: nat, skipped: bool)
    requires Prepared(s, d, same, items, destDir, plan) && k < |plan| && plan[k].srcPath in s
    requires LeftSafely(s, d, ts, td, items, destDir)
    requires var e, p := s[plan[k].srcPath], plan[k].dstPath;
             CopiedOrSkipped(td, td', e, p, skipped) || CopyFailed(td, td', e, p)
    requires if same then ts' == td' && ts == td else ts' == ts
    ensures LeftSafely(s, d, ts', td', items, destDir)
  {
    hide Among, AmongTargets, AllPlanned, JobPlan, NamedApart, Separate, NothingDestroyed, WalkedInTurn;
    hide CopiedOrSkipped, CopyFailed;
    StepDestroysNothing(s, d, td, td', items, destDir, plan, k, skipped);
    CopyTouchesOnePlace(td, td', s[plan[k].srcPath], plan[k].dstPath, skipped);
    SafeWithin(s, d, ts, td, ts', td', same, items, destDir, plan, k);
  }

  /** One successful step takes the job from k to k + 1. */
  lemma StepDone(s: Tree, d: Tree, ts: Tree, td: Tree, ts': Tree, td': Tree, same: bool, items: seq<Path>,
                 destDir: Path, plan: seq<CopyItem>, k: nat, skipped: set<nat>, skip: bool)
    requires Between(s, d, ts, td, same, items, destDir, plan, k, skipped) && k < |plan|
    requires CopiedOrSkipped(td, td', s[plan[k].srcPath], plan[k].dstPath, skip)
    requires if same then ts' == td' else ts' == ts
    ensures Between(s, d, ts', td', same, items, destDir, plan, k + 1, if skip then skipped + {k} else skipped)
  {
    hide CopyEnabled, FromSource, AllEnabled, Transferred;
    var after := if skip then skipped + {k} else skipped;
    LaterSkips(d, s, plan, k, skipped, after);
    EnabledSoFar(d, s, plan, k, skipped, after);
  }

  /** With distinct names and room for every item, every step is enabled, save
      for top-level links. */
  lemma StepIsEnabled(s: Tree, d: Tree, same: bool, items: seq<Path>, destDir: Path,
                      plan: seq<CopyItem>, k: nat, skipped: set<nat>)
    requires Prepared(s, d, same, items, destDir, plan) && FromSource(s, plan) && k < |plan|
    requires SkipsLinks(s, plan, k, skipped) && NamedApart(items, |items|) && Room(d, s, items, destDir)
    ensures var e := s[plan[k].srcPath];
            || CopyEnabled(LaidOut(d, s, plan, k, skipped), e, plan[k].dstPath)
            || (e.Link? && exists i :: 0 <= i < |items| && items[i] in s && plan[k].dstPath == Target(destDir, items[i])
                                       && !CopyEnabled(d, s[items[i]], Target(destDir, items[i])))
  {
    hide Wanted, JobPlan, CopyEnabled, LaidOut, StandsFor, AllPlanned, Separate, WellFormed, FromSource, SkipsLinks;
    var want := Wanted(s, items, destDir, |items|);
    PlannedStepIsWanted(s, plan, want, k);
    InWanted(s, items, destDir, |items|, plan[k].dstPath);
    var i :| 0 <= i < |items| && StandsFor(s, items[i], destDir, plan[k].dstPath);
    WantedAt(s, items, destDir, |items|, i, plan[k].dstPath);
    WantedParent(s, items, destDir, i, plan[k].dstPath);
    if plan[k].dstPath == Target(destDir, items[i]) {
      TopIsEnabled(d, s, plan, want, k, skipped);
      TopOriginal(items[i], destDir);
    } else {
      WantedIsClosed(s, items, destDir);
      RoomBelow(d, s, items, destDir, i, plan[k].dstPath);
      BelowIsEnabled(d, s, plan, want, k, skipped);
    }
  }

  lemma TopOriginal(item: Path, destDir: Path)
    ensures Original(item, destDir, Target(destDir, item)) == item
  {
  }

  lemma PlannedStepIsWanted(s: Tree, plan: seq<CopyItem>, want: Tree, k: nat)
    requires JobPlan(s, plan, want) && k < |plan|
    ensures plan[k].dstPath in want && want[plan[k].dstPath] == s[plan[k].srcPath] && plan[k].srcPath in s
  {
  }

  lemma SourceStepUnchanged(s: Tree, d: Tree, ts: Tree, td: Tree, same: bool, items: seq<Path>, destDir: Path,
                            plan: seq<CopyItem>, k: nat, skipped: set<nat>)
    requires Prepared(s, d, same, items, destDir, plan) && k < |plan|
    requires Between(s, d, ts, td, same, items, destDir, plan, k, skipped)
    requires LeftSafely(s, d, ts, td, items, destDir)
    ensures Describes(ts, plan[k].meta, plan[k].srcPath) && plan[k].srcPath in s
            && ts[plan[k].srcPath] == s[plan[k].srcPath]
    ensures ByteWeight(ts, plan[k]) == ByteWeight(s, plan[k])
    ensures same ==> plan[k].srcPath != plan[k].dstPath
  {
    hide LaidOut, AllEnabled, SkipsLinks, Among, AmongTargets, AllPlanned, Separate, NamedApart, JobPlan;
    hide NothingDestroyed;
    StepPlaces(s, items, destDir, plan, k);
    if same {
      PlacesAreDisjoint(items, destDir, plan[k].dstPath);
    }
    assert SameAt(ts, s, plan[k].srcPath);
  }

  /** Why a copy job may stop early, other than the environment and the user. */
  predicate Blocked(s: Tree, d: Tree, items: seq<Path>, destDir: Path) {
    !NamedApart(items, |items|) || !Room(d, s, items, destDir)
  }

  /** Links are lost only to the environment, or at the top where something is in the way. */
  predicate SkipsExcused(s: Tree, d: Tree, items: seq<Path>, destDir: Path, plan: seq<CopyItem>, skipped: set<nat>) {
    forall k :: k in skipped && k < |plan| ==>
      exists i :: 0 <= i < |items| && items[i] in s && plan[k].dstPath == Target(destDir, items[i])
                  && !CopyEnabled(d, s[items[i]], Target(destDir, items[i]))
  }

  lemma SkipExcused(s: Tree, d: Tree, same: bool, items: seq<Path>, destDir: Path,
                    plan: seq<CopyItem>, k: nat, skipped: set<nat>)
    requires Prepared(s, d, same, items, destDir, plan) && FromSource(s, plan) && k < |plan|
    requires SkipsLinks(s, plan, k, skipped)
    ensures !Blocked(s, d, items, destDir)
            && !CopyEnabled(LaidOut(d, s, plan, k, skipped), s[plan[k].srcPath], plan[k].dstPath) ==>
              && s[plan[k].srcPath].Link?
              && (SkipsExcused(s, d, items, destDir, plan, skipped) ==>
                  SkipsExcused(s, d, items, destDir, plan, skipped + {k}))
  {
    hide CopyEnabled, LaidOut, Target, Prepared, Room, NamedApart, SkipsLinks;
    if !Blocked(s, d, items, destDir) {
      StepIsEnabled(s, d, same, items, destDir, plan, k, skipped);
    }
  }

  method RunCopy(src: Backend, dst: Backend, via: Route, plan: seq<CopyItem>, k: nat, cancel: CancellationToken,
                 progress: JobProgress, ghost items: seq<Path>, ghost destDir: Path, ghost s: Tree, ghost d: Tree,
                 ghost before: set<nat>)
    returns (r: Result<()>, ghost skipped: set<nat>)
    requires src.Valid() && dst.Valid() && progress.Valid() && (src == dst ==> via.VfsStream?)
    requires Prepared(s, d, src == dst, items, destDir, plan) && k < |plan|
    requires Between(s, d, src.tree, dst.tree, src == dst, items, destDir, plan, k, before)
    requires LeftSafely(s, d, src.tree, dst.tree, items, destDir)
    modifies dst, cancel, progress`bytesDone, progress`filesDone, progress`reports
    ensures src.Valid() && dst.Valid() && progress.Valid()
    ensures old(cancel.cancelled) ==> cancel.cancelled
    ensures r.Ok? ==>
              && Between(s, d, src.tree, dst.tree, src == dst, items, destDir, plan, k + 1, skipped)
              && progress.filesDone == old(progress.filesDone) + FileCount(via, plan[k].meta.kind)
              && progress.bytesDone == old(progress.bytesDone) + ByteWeight(s, plan[k])
    ensures r.Ok? && !dst.faulty && !Blocked(s, d, items, destDir)
            && SkipsExcused(s, d, items, destDir, plan, before) ==>
              SkipsExcused(s, d, items, destDir, plan, skipped)
    ensures r.Err? ==>
              || MayStop(r.error, via, cancel.cancelled, src.faulty || dst.faulty)
              || (r.error.FromBackend() && Blocked(s, d, items, destDir))
    ensures LeftSafely(s, d, src.tree, dst.tree, items, destDir)
  {
    hide Prepared, Blocked, SkipsExcused, LeftSafely, CopyEnabled, CopyFailed, Describes, WellFormed;
    hide LaidOut, AllEnabled;
    skipped := before;
    SourceStepUnchanged(s, d, src.tree, dst.tree, src == dst, items, destDir, plan, k, before);
    SkipExcused(s, d, src == dst, items, destDir, plan, k, before);
    ghost var ts, td, e := src.tree, dst.tree, s[plan[k].srcPath];
    ghost var skip;
    r, skip := ApplyCopyItem(src, dst, via, plan[k], cancel, progress);
    SafeAfterStep(s, d, ts, td, src.tree, dst.tree, src == dst, items, destDir, plan, k, skip);
    if r.Ok? {
      StepDone(s, d, ts, td, src.tree, dst.tree, src == dst, items, destDir, plan, k, before, skip);
      skipped := if skip then before + {k} else before;
    }
  }

  lemma NothingCopiedYet(s: Tree, d: Tree, same: bool, items: seq<Path>, destDir: Path, plan: seq<CopyItem>)
    requires Prepared(s, d, same, items, destDir, plan)
    ensures Between(s, d, s, d, same, items, destDir, plan, 0, {})
    ensures SkipsExcused(s, d, items, destDir, plan, {})
    ensures LeftSafely(s, d, s, d, items, destDir)
  {
  }

  method RunCopies(src: Backend, dst: Backend, via: Route, plan: seq<CopyItem>, cancel: CancellationToken,
                   progress: JobProgress, ghost items: seq<Path>, ghost destDir: Path)
    returns (r: Result<()>, ghost skipped: set<nat>)
    requires src.Valid() && dst.Valid() && progress.Valid() && (src == dst ==> via.VfsStream?)
    requires Prepared(src.tree, dst.tree, src == dst, items, destDir, plan)
    modifies dst, cancel, progress`bytesDone, progress`filesDone, progress`reports, progress`currentFile
    ensures src.Valid() && dst.Valid() && progress.Valid()
    ensures old(cancel.cancelled) ==> cancel.cancelled
    ensures r.Ok? ==>
              && Between(old(src.tree), old(dst.tree), src.tree, dst.tree, src == dst, items, destDir, plan, |plan|,
                         skipped)
              && progress.filesDone == old(progress.filesDone) + FilesCounted(via, plan, |plan|)
              && progress.bytesDone == old(progress.bytesDone) + BytesMoved(old(src.tree), plan, |plan|)
    ensures r.Ok? && !dst.faulty && !Blocked(old(src.tree), old(dst.tree), items, destDir) ==>
              SkipsExcused(old(src.tree), old(dst.tree), items, destDir, plan, skipped)
    ensures r.Err? ==>
              || MayStop(r.error, via, cancel.cancelled, src.faulty || dst.faulty)
              || (r.error.FromBackend() && Blocked(old(src.tree), old(dst.tree), items, destDir))
    ensures LeftSafely(old(src.tree), old(dst.tree), src.tree, dst.tree, items, destDir)
  {
    hide MayStop, WellFormed, NotAfter;
    hide Prepared, Between, Blocked, SkipsExcused, LeftSafely;
    skipped := {};
    ghost var s, d := src.tree, dst.tree;
    NothingCopiedYet(s, d, src == dst, items, destDir, plan);
    for k := 0 to |plan|
      invariant src.Valid() && dst.Valid() && progress.Valid()
      invariant old(cancel.cancelled) ==> cancel.cancelled
      invariant Between(s, d, src.tree, dst.tree, src == dst, items, destDir, plan, k, skipped)
      invariant LeftSafely(s, d, src.tree, dst.tree, items, destDir)
      invariant progress.filesDone == old(progress.filesDone) + FilesCounted(via, plan, k)
      invariant progress.bytesDone == old(progress.bytesDone) + BytesMoved(s, plan, k)
      invariant !dst.faulty && !Blocked(s, d, items, destDir) ==> SkipsExcused(s, d, items, destDir, plan, skipped)
    {
      var stop := cancel.IsCancelled();
      if stop {
        CancelMayStop(via, cancel.cancelled, src.faulty || dst.faulty);
        r := Err(Cancelled);
        return;
      }
      progress.currentFile := Some(plan[k].dstPath);
      r, skipped := RunCopy(src, dst, via, plan, k, cancel, progress, items, destDir, s, d, skipped);
      if r.Err? {
        return;
      }
    }
    r := Ok(());
  }

  // ---------- The finished job ----------

  /** A job on distinct names can complete only with room for every item. */
  lemma CompletionNeedsRoom(s: Tree, d: Tree, ts: Tree, td: Tree, same: bool, items: seq<Path>, destDir: Path,
                            plan: seq<CopyItem>, skipped: set<nat>)
    requires Prepared(s, d, same, items, destDir, plan) && NamedApart(items, |items|)
    requires Between(s, d, ts, td, same, items, destDir, plan, |plan|, skipped)
    ensures Room(d, s, items, destDir)
  {
    hide Wanted, LaidOut, CopyEnabled, WellFormed, AllPlanned, Separate, Target, Original;
    var want := Wanted(s, items, destDir, |items|);
    forall i | 0 <= i < |items|
      ensures s[items[i]].Link? || CopyEnabled(d, s[items[i]], Target(destDir, items[i]))
    {
      var to := Target(destDir, items[i]);
      TopOriginal(items[i], destDir);
      WantedAt(s, items, destDir, |items|, i, to);
      WantedParent(s, items, destDir, i, to);
      var k :| 0 <= k < |plan| && DstPaths(plan)[k] == to;
      PlannedStepIsWanted(s, plan, want, k);
      TopIsEnabled(d, s, plan, want, k, skipped);
    }
  }

  /** The destination holds the wanted entries, and otherwise what it held before;
      the lost ones are links. */
  predicate Delivered(s: Tree, d: Tree, td: Tree, items: seq<Path>, destDir: Path, lost: set<Path>) {
    var want := Wanted(s, items, destDir, |items|);
    && td == Landed(d, want, lost)
    && forall q :: q in lost ==> q in want && want[q].Link?
  }

  /** The lost links are exactly the items that are links and cannot be created where
      they should go. */
  predicate LostExactly(s: Tree, d: Tree, items: seq<Path>, destDir: Path, lost: set<Path>) {
    && (forall q :: q in lost ==> exists i :: 0 <= i < |items| && BlockedLink(s, d, items[i], destDir, q))
    && (forall i :: 0 <= i < |items| && BlockedLink(s, d, items[i], destDir, Target(destDir, items[i])) ==>
          Target(destDir, items[i]) in lost)
  }

  predicate BlockedLink(s: Tree, d: Tree, item: Path, destDir: Path, q: Path) {
    item in s && s[item].Link? && q == Target(destDir, item) && !CopyEnabled(d, s[item], Target(destDir, item))
  }

  /** A link at the top with something in its way is lost, faults or not. */
  lemma BlockedLinkIsLost(s: Tree, d: Tree, ts: Tree, td: Tree, same: bool, items: seq<Path>, destDir: Path,
                          plan: seq<CopyItem>, skipped: set<nat>, i: nat)
    requires Prepared(s, d, same, items, destDir, plan) && NamedApart(items, |items|) && i < |items|
    requires Between(s, d, ts, td, same, items, destDir, plan, |plan|, skipped)
    requires BlockedLink(s, d, items[i], destDir, Target(destDir, items[i]))
    ensures Target(destDir, items[i]) in Lost(plan, skipped)
  {
    hide Wanted, LaidOut, CopyEnabled, WellFormed, AllPlanned, Separate, Target, Original, WalkedInTurn;
    var want, to := Wanted(s, items, destDir, |items|), Target(destDir, items[i]);
    TopOriginal(items[i], destDir);
    WantedAt(s, items, destDir, |items|, i, to);
    WantedParent(s, items, destDir, i, to);
    var k :| 0 <= k < |plan| && DstPaths(plan)[k] == to;
    PlannedStepIsWanted(s, plan, want, k);
    TopIsEnabled(d, s, plan, want, k, skipped);
  }

  lemma LostIsBlockedLink(s: Tree, d: Tree, items: seq<Path>, destDir: Path, plan: seq<CopyItem>, skipped: set<nat>,
                          q: Path)
    requires ScannedCopies(s, items, destDir, |items|, plan) && NamedApart(items, |items|) && FromSource(s, plan)
    requires SkipsLinks(s, plan, |plan|, skipped) && SkipsExcused(s, d, items, destDir, plan, skipped)
    requires q in Lost(plan, skipped)
    ensures exists i :: 0 <= i < |items| && BlockedLink(s, d, items[i], destDir, q)
  {
    hide Wanted, LaidOut, CopyEnabled, AllPlanned, Target, Original, WalkedInTurn;
    var want := Wanted(s, items, destDir, |items|);
    LostAreLinks(s, plan, want, skipped);
    var k :| k in skipped && k < |plan| && plan[k].dstPath == q;
    var i :| 0 <= i < |items| && items[i] in s && plan[k].dstPath == Target(destDir, items[i])
             && !CopyEnabled(d, s[items[i]], Target(destDir, items[i]));
    TopOriginal(items[i], destDir);
    WantedAt(s, items, destDir, |items|, i, q);
    assert BlockedLink(s, d, items[i], destDir, q);
  }

  lemma JobDelivered(s: Tree, d: Tree, ts: Tree, td: Tree, same: bool, items: seq<Path>, destDir: Path,
                     plan: seq<CopyItem>, skipped: set<nat>)
    requires Prepared(s, d, same, items, destDir, plan) && NamedApart(items, |items|)
    requires Between(s, d, ts, td, same, items, destDir, plan, |plan|, skipped)
    ensures Delivered(s, d, td, items, destDir, Lost(plan, skipped))
    ensures SkipsExcused(s, d, items, destDir, plan, skipped) ==> LostExactly(s, d, items, destDir, Lost(plan, skipped))
  {
    hide LaidOut, JobPlan, Wanted, AllPlanned, Separate, Room, CopyEnabled, Target, WalkedInTurn, NamedApart,
         BlockedLink;
    EndsLanded(d, s, plan, Wanted(s, items, destDir, |items|), skipped);
    LostAreLinks(s, plan, Wanted(s, items, destDir, |items|), skipped);
    if SkipsExcused(s, d, items, destDir, plan, skipped) {
      forall q | q in Lost(plan, skipped)
        ensures exists i :: 0 <= i < |items| && BlockedLink(s, d, items[i], destDir, q)
      {
        LostIsBlockedLink(s, d, items, destDir, plan, skipped, q);
      }
      forall i | 0 <= i < |items| && BlockedLink(s, d, items[i], destDir, Target(destDir, items[i]))
        ensures Target(destDir, items[i]) in Lost(plan, skipped)
      {
        BlockedLinkIsLost(s, d, ts, td, same, items, destDir, plan, skipped, i);
      }
    }
  }

  /** Everything selected is something a copy reproduces. */
  predicate SelectedFaithful(s: Tree, items: seq<Path>) {
    forall q :: q in s && Among(items, q) ==> Faithful(s[q])
  }

  /** On completion the counters fall short of the totals by the links alone. */
  lemma CountsOfPlan(s: Tree, items: seq<Path>, destDir: Path, plan: seq<CopyItem>)
    requires ScannedCopies(s, items, destDir, |items|, plan)
    ensures FilesMoved(plan, |plan|) + LinksAmong(plan, |plan|) == FilesAnnounced(plan, |plan|)
    ensures SelectedFaithful(s, items) ==>
              BytesMoved(s, plan, |plan|) + LinkBytesAmong(plan, |plan|) == BytesAnnounced(plan, |plan|)
  {
    hide Among, JobPlan, NamedApart;
    PlannedFromSource(s, items, destDir, plan);
    if SelectedFaithful(s, items) {
      forall i | 0 <= i < |plan|
        ensures PlainStep(s, plan[i])
      {
        StepPlaces(s, items, destDir, plan, i);
      }
    }
    TotalsMinusLinks(s, plan, |plan|);
  }

  /** `copy_job`. A completed job has made its steps one after the other, and has
      delivered every selected entry but links if and only if no two items with one
      name clash. Over items with distinct names it has laid exactly their subtrees
      over destDir; only links can be missing. It can complete only where every item
      has room, and then nothing but the environment or the user stops it. However it
      ends, the selected entries are untouched and the destination changed nowhere but
      at or under the targets. */
  method CopyJob(src: Backend, dst: Backend, via: Route, items: seq<Path>, destDir: Path, cancel: CancellationToken)
    returns (r: Result<()>, progress: JobProgress, ghost plan: seq<CopyItem>, ghost skipped: set<nat>)
    requires src.Valid() && dst.Valid()
    requires src == dst ==> via.VfsStream? && Separate(items, destDir)
    modifies dst, cancel
    ensures src.Valid() && dst.Valid() && fresh(progress) && progress.Valid()
    ensures r.Ok? ==>
              && RunsThrough(old(src.tree), old(dst.tree), items, destDir, plan, skipped)
              && dst.tree == LaidOut(old(dst.tree), old(src.tree), plan, |plan|, skipped)
              && (AllDelivered(old(src.tree), dst.tree, items, destDir) <==> NoClash(old(src.tree), items))
    ensures r.Ok? && NoClash(old(src.tree), items) ==> AllArrived(old(src.tree), dst.tree, items, destDir)
    ensures r.Ok? && NamedApart(items, |items|) && !dst.faulty ==>
              LinksArrived(old(src.tree), old(dst.tree), dst.tree, items, destDir)
    ensures [] !in items ==> OnlyUnderNames(old(dst.tree), dst.tree, items, destDir)
    ensures r.Ok? && NamedApart(items, |items|) ==>
              && Room(old(dst.tree), old(src.tree), items, destDir)
              && Delivered(old(src.tree), old(dst.tree), dst.tree, items, destDir, Lost(plan, skipped))
              && (!dst.faulty ==> LostExactly(old(src.tree), old(dst.tree), items, destDir, Lost(plan, skipped)))
    ensures r.Ok? ==>
              && progress.filesTotal == FilesAnnounced(plan, |plan|)
              && progress.bytesTotal == BytesAnnounced(plan, |plan|)
              && progress.bytesDone == BytesMoved(old(src.tree), plan, |plan|)
              && progress.filesDone == FilesCounted(via, plan, |plan|)
              && FilesMoved(plan, |plan|) + LinksAmong(plan, |plan|) == progress.filesTotal
              && (SelectedFaithful(old(src.tree), items) ==>
                    progress.bytesDone + LinkBytesAmong(plan, |plan|) == progress.bytesTotal)
    ensures r.Err? ==>
              || MayStop(r.error, via, cancel.cancelled, src.faulty || dst.faulty)
              || !AllPresent(old(src.tree), items) || Blocked(old(src.tree), old(dst.tree), items, destDir)
    ensures LeftSafely(old(src.tree), old(dst.tree), src.tree, dst.tree, items, destDir)
  {
    hide ScannedCopies, LeftSafely, AllPresent, Room, NamedApart, Delivered, LostExactly, SkipsExcused,
         SelectedFaithful;
    hide Separate, FilesAnnounced, BytesAnnounced, LinksAmong, LinkBytesAmong, FilesCounted, BytesMoved, Between;
    hide NoClash, AllDelivered, LaidOut, AllEnabled, SkipsLinks, AllArrived, LinksArrived, OnlyUnderNames;
    plan, skipped := [], {};
    var scanned;
    r, scanned := ScanForCopy(src, items, destDir);
    NothingLeftYet(src.tree, dst.tree, items, destDir);
    progress := new JobProgress(if r.Ok? then FilesAnnounced(scanned.items, |scanned.items|) else 0,
                                if r.Ok? then BytesAnnounced(scanned.items, |scanned.items|) else 0);
    if r.Err? {
      if [] !in items {
        SafeMeansOnlyUnderNames(src.tree, dst.tree, src.tree, dst.tree, items, destDir);
      }
      return;
    }
    plan := scanned.items;
    r, skipped := RunCopies(src, dst, via, scanned.items, cancel, progress, items, destDir);
    if [] !in items {
      SafeMeansOnlyUnderNames(old(src.tree), old(dst.tree), src.tree, dst.tree, items, destDir);
    }
    if r.Ok? {
      CountsOfPlan(old(src.tree), items, destDir, plan);
      JobCompleted(old(src.tree), old(dst.tree), src.tree, dst.tree, src == dst, items, destDir, plan, skipped);
      DeliveredIffNoClash(old(src.tree), old(dst.tree), items, destDir, plan, skipped);
      if NoClash(old(src.tree), items) {
        DeliveredMeansArrived(old(src.tree), dst.tree, items, destDir);
      }
      if NamedApart(items, |items|) {
        CompletionNeedsRoom(old(src.tree), old(dst.tree), src.tree, dst.tree, src == dst, items, destDir, plan,
                            skipped);
        JobDelivered(old(src.tree), old(dst.tree), src.tree, dst.tree, src == dst, items, destDir, plan, skipped);
        if !dst.faulty {
          LinksHaveArrived(old(src.tree), old(dst.tree), dst.tree, items, destDir, Lost(plan, skipped));
        }
      }
    }
  }

  // ---------- Where everything is ----------

  /** Each selected entry but links is at the place under destDir that its item's name
      and its way below the item give: that of the item `p + [n]` on the way q is
      `destDir + [n] + q`. */
  ghost predicate AllArrived(s: Tree, td: Tree, items: seq<Path>, destDir: Path) {
    forall p, n, q :: p + [n] in items && p + [n] + q in s && !s[p + [n] + q].Link? ==>
      destDir + [n] + q in td && td[destDir + [n] + q] == Transferred(s[p + [n] + q])
  }

  /** Each selected link is at its place too, except for items with something in the way. */
  ghost predicate LinksArrived(s: Tree, d: Tree, td: Tree, items: seq<Path>, destDir: Path) {
    forall p, n, q :: p + [n] in items && p + [n] + q in s && s[p + [n] + q].Link? ==>
      || (destDir + [n] + q in td && td[destDir + [n] + q] == s[p + [n] + q])
      || (q == [] && (destDir + [n] in d || destDir !in d || d[destDir] != Directory))
  }

  /** Nothing changed but at or under the names of the items in destDir. */
  ghost predicate OnlyUnderNames(d: Tree, td: Tree, items: seq<Path>, destDir: Path) {
    forall q :: (forall p, n :: p + [n] in items ==> !(destDir + [n] <= q)) ==>
      (q in td <==> q in d) && (q in d ==> td[q] == d[q])
  }

  lemma DeliveredMeansArrived(s: Tree, td: Tree, items: seq<Path>, destDir: Path)
    requires AllDelivered(s, td, items, destDir)
    ensures AllArrived(s, td, items, destDir)
  {
    hide Target, Rebase, Transferred;
    forall p, n, q | p + [n] in items && p + [n] + q in s && !s[p + [n] + q].Link?
      ensures destDir + [n] + q in td && td[destDir + [n] + q] == Transferred(s[p + [n] + q])
    {
      PlaceOf(destDir, p, n, q);
      var i :| 0 <= i < |items| && items[i] == p + [n];
    }
  }

  lemma LinksHaveArrived(s: Tree, d: Tree, td: Tree, items: seq<Path>, destDir: Path, lost: set<Path>)
    requires NamedApart(items, |items|)
    requires Delivered(s, d, td, items, destDir, lost) && LostExactly(s, d, items, destDir, lost)
    ensures LinksArrived(s, d, td, items, destDir)
  {
    hide Wanted, NamedApart;
    forall p, n, q | p + [n] in items && p + [n] + q in s && s[p + [n] + q].Link?
      ensures || (destDir + [n] + q in td && td[destDir + [n] + q] == s[p + [n] + q])
              || (q == [] && (destDir + [n] in d || destDir !in d || d[destDir] != Directory))
    {
      LinkHasArrived(s, d, td, items, destDir, lost, p, n, q);
    }
  }

  lemma LinkHasArrived(s: Tree, d: Tree, td: Tree, items: seq<Path>, destDir: Path, lost: set<Path>,
                       p: Path, n: Name, q: Path)
    requires NamedApart(items, |items|) && p + [n] in items && p + [n] + q in s && s[p + [n] + q].Link?
    requires Delivered(s, d, td, items, destDir, lost) && LostExactly(s, d, items, destDir, lost)
    ensures || (destDir + [n] + q in td && td[destDir + [n] + q] == s[p + [n] + q])
            || (q == [] && (destDir + [n] in d || destDir !in d || d[destDir] != Directory))
  {
    hide Wanted, NamedApart;
    PlaceOf(destDir, p, n, q);
    var i :| 0 <= i < |items| && items[i] == p + [n];
    var place := destDir + [n] + q;
    assert Original(items[i], destDir, place) == p + [n] + q by {
      assert place[|destDir + [n]|..] == q;
    }
    WantedAt(s, items, destDir, |items|, i, place);
    if place in lost {
      var j :| 0 <= j < |items| && BlockedLink(s, d, items[j], destDir, place);
      LostIsAtTop(destDir, n, q, items[j]);
    }
  }

  lemma LostIsAtTop(destDir: Path, n: Name, q: Path, item: Path)
    requires Target(destDir, item) == destDir + [n] + q
    ensures q == [] && destDir + [n] + q == destDir + [n] && Parent(destDir + [n]) == destDir
  {
    assert |Target(destDir, item)| <= |destDir| + 1;
    assert |destDir + [n] + q| == |destDir| + 1 + |q|;
  }

  lemma SafeMeansOnlyUnderNames(s: Tree, d: Tree, ts: Tree, td: Tree, items: seq<Path>, destDir: Path)
    requires LeftSafely(s, d, ts, td, items, destDir) && [] !in items
    ensures OnlyUnderNames(d, td, items, destDir)
  {
    hide NothingDestroyed;
    forall q | forall p, n :: p + [n] in items ==> !(destDir + [n] <= q)
      ensures (q in td <==> q in d) && (q in d ==> td[q] == d[q])
    {
      forall i | 0 <= i < |items|
        ensures !Covers(Target(destDir, items[i]), q)
      {
        var p, n := items[i][..|items[i]| - 1], items[i][|items[i]| - 1];
        assert items[i] == p + [n];
        PlaceOf(destDir, p, n, []);
      }
      assert !AmongTargets(items, destDir, q);
      assert SameAt(td, d, q);
    }
  }

  lemma JobCompleted(s: Tree, d: Tree, ts: Tree, td: Tree, same: bool, items: seq<Path>, destDir: Path,
                     plan: seq<CopyItem>, skipped: set<nat>)
    requires Prepared(s, d, same, items, destDir, plan)
    requires Between(s, d, ts, td, same, items, destDir, plan, |plan|, skipped)
    ensures RunsThrough(s, d, items, destDir, plan, skipped)
    ensures td == LaidOut(d, s, plan, |plan|, skipped)
  {
  }

  lemma NothingLeftYet(s: Tree, d: Tree, items: seq<Path>, destDir: Path)
    ensures LeftSafely(s, d, s, d, items, destDir)
  {
  }

  // ---------- Moving across backends ----------

  /** Every selected entry but links is still at its source, or already at its
      destination. */
  predicate NothingLost(s: Tree, ts: Tree, td: Tree, items: seq<Path>, destDir: Path) {
    forall i, p :: 0 <= i < |items| && Covers(items[i], p) && p in s && !s[p].Link? ==>
      || SameAt(ts, s, p)
      || (Rebase(items[i], Target(destDir, items[i]), p) in td
          && td[Rebase(items[i], Target(destDir, items[i]), p)] == Transferred(s[p]))
  }

  /** The same by places: an entry of the item `p + [n]` on the way q is still there, or
      is at `destDir + [n] + q`. */
  ghost predicate StillThereOrArrived(s: Tree, ts: Tree, td: Tree, items: seq<Path>, destDir: Path) {
    forall p, n, q :: p + [n] in items && p + [n] + q in s && !s[p + [n] + q].Link? ==>
      || (p + [n] + q in ts && ts[p + [n] + q] == s[p + [n] + q])
      || (destDir + [n] + q in td && td[destDir + [n] + q] == Transferred(s[p + [n] + q]))
  }

  lemma SafeByPlaces(s: Tree, ts: Tree, td: Tree, items: seq<Path>, destDir: Path)
    requires NothingLost(s, ts, td, items, destDir)
    ensures StillThereOrArrived(s, ts, td, items, destDir)
  {
    hide Target, Rebase, Transferred;
    forall p, n, q | p + [n] in items && p + [n] + q in s && !s[p + [n] + q].Link?
      ensures || (p + [n] + q in ts && ts[p + [n] + q] == s[p + [n] + q])
              || (destDir + [n] + q in td && td[destDir + [n] + q] == Transferred(s[p + [n] + q]))
    {
      PlaceOf(destDir, p, n, q);
      var i :| 0 <= i < |items| && items[i] == p + [n];
    }
  }

  /** Delivered entries are safe; and once the originals are gone, only those are. */
  lemma DeliveredIsSafe(s: Tree, ts: Tree, td: Tree, items: seq<Path>, destDir: Path)
    ensures AllDelivered(s, td, items, destDir) ==> NothingLost(s, ts, td, items, destDir)
    ensures ts == WithoutItems(s, items) && NothingLost(s, ts, td, items, destDir) ==>
              AllDelivered(s, td, items, destDir)
  {
    hide Target, Rebase, Regions;
    if ts == WithoutItems(s, items) {
      forall i, p | 0 <= i < |items| && Covers(items[i], p) && p in s
        ensures !SameAt(ts, s, p)
      {
        InRegions(s, items, |items|, p);
      }
    }
  }

  /** `move_cross_backend`: copy, and only then delete the originals. As long as no
      two items with one name clash, no selected entry but a link is lost on any
      outcome, so at any moment; a completed move loses nothing if and only if none
      clash. The links it loses are exactly those that had something in their way. */
  method MoveCrossBackend(src: Backend, dst: Backend, via: Route, items: seq<Path>, destDir: Path,
                          cancel: CancellationToken)
    returns (r: Result<()>, ghost lost: set<Path>)
    requires src.Valid() && dst.Valid() && src != dst
    modifies src, dst, cancel
    ensures src.Valid() && dst.Valid()
    ensures NoClash(old(src.tree), items) ==>
              && NothingLost(old(src.tree), src.tree, dst.tree, items, destDir)
              && StillThereOrArrived(old(src.tree), src.tree, dst.tree, items, destDir)
    ensures r.Ok? && NoClash(old(src.tree), items) ==> AllArrived(old(src.tree), dst.tree, items, destDir)
    ensures r.Ok? && NamedApart(items, |items|) && !dst.faulty ==>
              LinksArrived(old(src.tree), old(dst.tree), dst.tree, items, destDir)
    ensures [] !in items ==> OnlyUnderNames(old(dst.tree), dst.tree, items, destDir)
    ensures r.Ok? ==>
              && Incomparable(items, |items|) && src.tree == WithoutItems(old(src.tree), items)
              && (NothingLost(old(src.tree), src.tree, dst.tree, items, destDir) <==> NoClash(old(src.tree), items))
    ensures r.Ok? && NamedApart(items, |items|) ==>
              && NoClash(old(src.tree), items)
              && Delivered(old(src.tree), old(dst.tree), dst.tree, items, destDir, lost)
              && (!dst.faulty ==> LostExactly(old(src.tree), old(dst.tree), items, destDir, lost))
    ensures r.Err? ==>
              || MayStop(r.error, via, cancel.cancelled, src.faulty || dst.faulty)
              || !AllPresent(old(src.tree), items) || Blocked(old(src.tree), old(dst.tree), items, destDir)
              || !Incomparable(items, |items|)
    ensures ShrunkWithin(old(src.tree), src.tree, items)
    ensures NothingDestroyed(old(src.tree), old(dst.tree), dst.tree, items, destDir)
    ensures forall q :: !AmongTargets(items, destDir, q) ==> SameAt(dst.tree, old(dst.tree), q)
  {
    hide Blocked, WellFormed, NotAfter, LaidOut, FilesCounted, FilesMoved, BytesMoved;
    hide NothingDestroyed, AmongTargets, AllArrived, LinksArrived, OnlyUnderNames, StillThereOrArrived;
    hide RunsThrough, LeftSafely, Room, NamedApart, Delivered, LostExactly, SelectedFaithful, WithoutItems,
         Incomparable;
    hide FilesAnnounced, BytesAnnounced, LinksAmong, LinkBytesAmong, NothingLost, ShrunkWithin, NoClash, AllDelivered;
    ghost var plan, skipped;
    var copied, deleted;
    r, copied, plan, skipped := CopyJob(src, dst, via, items, destDir, cancel);
    lost := Lost(plan, skipped);
    StillThereInFull(old(src.tree), dst.tree, items, destDir);
    WhatSafetyMeans(old(src.tree), old(dst.tree), src.tree, dst.tree, items, destDir);
    if NamedApart(items, |items|) {
      ApartMeansNoClash(old(src.tree), items);
    }
    if r.Err? {
      SafeByPlaces(old(src.tree), src.tree, dst.tree, items, destDir);
      return;
    }
    r, deleted := DeleteJob(src, items, cancel);
    DeliveredIsSafe(old(src.tree), src.tree, dst.tree, items, destDir);
    if NothingLost(old(src.tree), src.tree, dst.tree, items, destDir) {
      SafeByPlaces(old(src.tree), src.tree, dst.tree, items, destDir);
    }
  }

  lemma WhatSafetyMeans(s: Tree, d: Tree, ts: Tree, td: Tree, items: seq<Path>, destDir: Path)
    requires LeftSafely(s, d, ts, td, items, destDir)
    ensures NothingDestroyed(s, d, td, items, destDir)
    ensures forall q :: !AmongTargets(items, destDir, q) ==> SameAt(td, d, q)
  {
  }

  lemma StillThereInFull(s: Tree, td: Tree, items: seq<Path>, destDir: Path)
    ensures NothingLost(s, s, td, items, destDir) && ShrunkWithin(s, s, items)
  {
  }
}
