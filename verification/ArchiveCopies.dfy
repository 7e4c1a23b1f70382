/** Copying out of an archive: `copy_job` for one item of an `ArchiveFs`, with the
    stream transport, which is the only one for archives. */
module ArchiveCopies {
  import opened Base
  import opened Trees
  import opened Backends
  import opened Transports
  import opened Plans
  import opened Walks
  import opened SyncSpec
  import opened Copying
  import opened CopyEffects
  import opened CopyTargets
  import opened ArchiveIndex
  import opened ArchiveFs
  import opened ArchiveWalks

  /** What a copy from `root` finds: the shapes of the index with the extracted bytes. */
  ghost function ContentFrom(raws: seq<RawEntry>, entries: seq<ArchiveEntry>, root: Path): Tree {
    WithContent(raws, SeenFrom(TreeOf(entries), root))
  }

  // ---------- One transfer ----------

  /** The copy loop over the extracted bytes. */
  method PumpOut(data: Bytes, dst: Backend, dstPath: Path, cancel: CancellationToken, progress: JobProgress,
                 ghost t0: Tree)
    returns (r: Result<()>)
    requires dst.Valid() && progress.Valid() && PrefixWritten(t0, dst.tree, dstPath, data, 0)
    modifies dst, cancel, progress`bytesDone, progress`reports
    ensures dst.Valid() && progress.Valid() && (old(cancel.cancelled) ==> cancel.cancelled)
    ensures r.Ok? ==>
              && PrefixWritten(t0, dst.tree, dstPath, data, |data|)
              && progress.bytesDone == old(progress.bytesDone) + |data|
    ensures r.Err? ==> SomePrefixWritten(t0, dst.tree, dstPath, data, 0)
    ensures r.Err? ==> MayStop(r.error, VfsStream, cancel.cancelled, dst.faulty)
  {
    hide WellFormed, NotAfter;
    var pos := 0;
    while pos < |data|
      invariant dst.Valid() && progress.Valid() && (old(cancel.cancelled) ==> cancel.cancelled)
      invariant pos <= |data| && PrefixWritten(t0, dst.tree, dstPath, data, pos)
      invariant progress.bytesDone == old(progress.bytesDone) + pos
    {
      var stop := cancel.IsCancelled();
      if stop {
        return Err(Cancelled);
      }
      var n: nat :| 0 < n <= |data| - pos && n <= COPY_CHUNK_SIZE;
      ghost var t1 := dst.tree;
      var written := dst.Append(dstPath, data[pos..pos + n]);
      if written.Err? {
        ghost var k :| Appended(t1, dst.tree, dstPath, data[pos..pos + n], k);
        PrefixGrows(t0, t1, dst.tree, dstPath, data, pos, data[pos..pos + n], k);
        return Err(written.error);
      }
      PrefixGrows(t0, t1, dst.tree, dstPath, data, pos, data[pos..pos + n], n);
      progress.CountBytes(n);
      pos := pos + n;
    }
    // The read that finds the end of the file comes after one more check.
    var stop := cancel.IsCancelled();
    return if stop then Err(Cancelled) else Ok(());
  }

  method TransferOut(fs: Archive, srcPath: Path, dst: Backend, dstPath: Path, cancel: CancellationToken,
                     progress: JobProgress)
    returns (r: Result<()>)
    requires fs.Valid() && dst.Valid() && progress.Valid()
    modifies fs`pos, dst, cancel, progress`bytesDone, progress`reports
    ensures dst.Valid() && progress.Valid() && (old(cancel.cancelled) ==> cancel.cancelled)
    ensures r.Ok? || dst.tree != old(dst.tree) ==>
              Extracted(fs.raws, srcPath).Ok? && CanWrite(old(dst.tree), dstPath)
    ensures r.Ok? ==>
              Moved(old(dst.tree), dst.tree, dstPath, DataOf(fs.raws, srcPath),
                    progress.bytesDone - old(progress.bytesDone))
    ensures r.Err? ==>
              || dst.tree == old(dst.tree)
              || SomePrefixWritten(old(dst.tree), dst.tree, dstPath, DataOf(fs.raws, srcPath), 0)
    ensures r.Err? ==>
              || MayStop(r.error, VfsStream, cancel.cancelled, dst.faulty)
              || (r.error.FromBackend()
                  && (Extracted(fs.raws, srcPath).Err? || !CanWrite(old(dst.tree), dstPath)))
  {
    hide SomePrefixWritten, CanWrite, WellFormed;
    var data :- fs.OpenRead(srcPath);
    var _ :- dst.CreateWrite(dstPath);
    assert data[..0] == [] && data[..|data|] == data;
    r := PumpOut(data, dst, dstPath, cancel, progress, old(dst.tree));
  }

  // ---------- One step ----------

  /** The step can be served from c: its kind is right, and its bytes are extracted. */
  predicate Served(raws: seq<RawEntry>, c: Tree, item: CopyItem) {
    && item.srcPath in c && item.meta.kind == KindOf(c[item.srcPath])
    && (IsTransfer(item.meta.kind) ==> Extracted(raws, item.srcPath) == Ok(c[item.srcPath].data))
  }

  /** `apply_copy_item` from an archive. */
  method ExtractItem(fs: Archive, dst: Backend, item: CopyItem, cancel: CancellationToken, progress: JobProgress,
                     ghost c: Tree)
    returns (r: Result<()>, ghost skipped: bool)
    requires fs.Valid() && dst.Valid() && progress.Valid() && Served(fs.raws, c, item)
    modifies fs`pos, dst, cancel, progress`bytesDone, progress`filesDone, progress`reports
    ensures dst.Valid() && progress.Valid() && (old(cancel.cancelled) ==> cancel.cancelled)
    ensures r.Ok? ==>
              && CopiedOrSkipped(old(dst.tree), dst.tree, c[item.srcPath], item.dstPath, skipped)
              && progress.filesDone == old(progress.filesDone) + FileWeight(item.meta.kind)
              && progress.bytesDone == old(progress.bytesDone) + ByteWeight(c, item)
    ensures r.Err? ==> CopyFailed(old(dst.tree), dst.tree, c[item.srcPath], item.dstPath)
    ensures r.Err? ==>
              || MayStop(r.error, VfsStream, cancel.cancelled, dst.faulty)
              || (r.error.FromBackend() && !CopyEnabled(old(dst.tree), c[item.srcPath], item.dstPath))
  {
    hide CanWrite, WellFormed;
    skipped := false;
    match item.meta.kind {
      case Dir =>
        r := dst.Mkdir(item.dstPath);
      case Symlink(Some(target)) =>
        var linked := dst.Symlink(target, item.dstPath);
        skipped := linked.Err?;
        r := Ok(());
      case _ =>
        r := TransferOut(fs, item.srcPath, dst, item.dstPath, cancel, progress);
        if r.Ok? {
          progress.CountFile();
        } else if dst.tree != old(dst.tree) {
          ghost var k: nat :| PrefixWritten(old(dst.tree), dst.tree, item.dstPath, c[item.srcPath].data, k);
        }
    }
  }

  // ---------- A whole copy ----------

  /** A step of a walk can be served: what the index calls a file or a link without a
      known target is extracted. */
  lemma WalkIsServed(raws: seq<RawEntry>, entries: seq<ArchiveEntry>, root: Path, to: Path, plan: seq<CopyItem>, k: nat)
    requires Indexes(raws, entries) && WellTyped(raws) && k < |plan|
    requires CopyPlan(SeenFrom(TreeOf(entries), root), plan, root, to, Region(SeenFrom(TreeOf(entries), root), root))
    ensures Served(raws, ContentFrom(raws, entries, root), plan[k])
    ensures Covers(root, plan[k].srcPath) && plan[k].dstPath == Rebase(root, to, plan[k].srcPath)
  {
    hide TreeOf, Seen, Indexes;
    var v, p := SeenFrom(TreeOf(entries), root), plan[k].srcPath;
    assert PlannedCopy(v, plan[k], root, to);
    StartIsNotAbove(root, p);
    if IsTransfer(KindOf(v[p])) {
      RecordedIsExtracted(raws, entries, p);
    }
  }

  /** A path that the index does not call a directory is extracted; and extraction
      yields the recorded entry exactly when no earlier file or link stands there. */
  lemma RecordedIsExtracted(raws: seq<RawEntry>, entries: seq<ArchiveEntry>, p: Path)
    requires Indexes(raws, entries) && WellTyped(raws) && p in TreeOf(entries) && TreeOf(entries)[p] != Directory
    ensures Explicit(raws, |raws|, p) && FirstFile(raws, 0, p).Some?
    ensures Extracted(raws, p) == Ok(raws[FirstFile(raws, 0, p).value].data)
    ensures FirstFile(raws, 0, p).value == LastAt(raws, |raws|, p) <==> LastIsOnlyFile(raws, p)
  {
    hide TreeOf;
    InTree(raws, entries, p);
    var k :| 0 <= k < |entries| && entries[k].path == p;
    assert entries[k].kind != Dir;
    AgreementAt(raws, p);
  }

  /** The state after k steps of a copy. */
  ghost predicate CopiedSoFar(d: Tree, c: Tree, td: Tree, to: Path, plan: seq<CopyItem>, k: nat, skipped: set<nat>) {
    && k <= |plan| && FromSource(c, plan)
    && SkipsLinks(c, plan, k, skipped) && AllEnabled(d, c, plan, k, skipped)
    && td == LaidOut(d, c, plan, k, skipped)
    && OutsideUnchanged(d, td, to)
  }

  predicate OutsideUnchanged(d: Tree, td: Tree, to: Path) {
    && (forall q :: q in d && !Covers(to, q) ==> q in td && td[q] == d[q])
    && (forall q :: q in td && !Covers(to, q) ==> q in d)
  }

  lemma StepCopied(d: Tree, c: Tree, td: Tree, td': Tree, to: Path, plan: seq<CopyItem>, k: nat, skipped: set<nat>,
                   skip: bool)
    requires CopiedSoFar(d, c, td, to, plan, k, skipped) && k < |plan| && Covers(to, plan[k].dstPath)
    requires CopiedOrSkipped(td, td', c[plan[k].srcPath], plan[k].dstPath, skip)
    ensures CopiedSoFar(d, c, td', to, plan, k + 1, if skip then skipped + {k} else skipped)
  {
    hide CopyEnabled, FromSource, Transferred, AllEnabled;
    var after := if skip then skipped + {k} else skipped;
    LaterSkips(d, c, plan, k, skipped, after);
    EnabledSoFar(d, c, plan, k, skipped, after);
  }

  lemma StepFailed(d: Tree, td: Tree, td': Tree, e: Entry, p: Path, to: Path)
    requires OutsideUnchanged(d, td, to) && Covers(to, p) && CopyFailed(td, td', e, p)
    ensures OutsideUnchanged(d, td', to)
  {
  }

  /** Each file that the walk saw is at its place, with the bytes of the first entry
      that is not a directory; these are the recorded ones exactly where no earlier
      file or link stands at the path. */
  ghost predicate Unpacked(raws: seq<RawEntry>, v: Tree, td: Tree, root: Path, to: Path) {
    forall p :: p in v && Covers(root, p) && IsTransfer(KindOf(v[p])) ==> UnpackedAt(raws, td, Rebase(root, to, p), p)
  }

  predicate UnpackedAt(raws: seq<RawEntry>, td: Tree, place: Path, p: Path) {
    && Explicit(raws, |raws|, p) && FirstFile(raws, 0, p).Some?
    && place in td && td[place] == Regular(raws[FirstFile(raws, 0, p).value].data)
    && (FirstFile(raws, 0, p).value == LastAt(raws, |raws|, p) <==> LastIsOnlyFile(raws, p))
  }

  lemma CopyUnpacks(raws: seq<RawEntry>, entries: seq<ArchiveEntry>, d: Tree, td: Tree, root: Path, to: Path,
                    plan: seq<CopyItem>, skipped: set<nat>, p: Path)
    requires Indexes(raws, entries) && WellTyped(raws)
    requires CopyPlan(SeenFrom(TreeOf(entries), root), plan, root, to, Region(SeenFrom(TreeOf(entries), root), root))
    requires CopiedSoFar(d, ContentFrom(raws, entries, root), td, to, plan, |plan|, skipped)
    requires var v := SeenFrom(TreeOf(entries), root);
             p in v && Covers(root, p) && IsTransfer(KindOf(v[p]))
    ensures UnpackedAt(raws, td, Rebase(root, to, p), p)
  {
    hide TreeOf, Seen, Indexes, LaidOut, AllEnabled, OutsideUnchanged;
    var v, c := SeenFrom(TreeOf(entries), root), ContentFrom(raws, entries, root);
    assert p in SrcPaths(plan);
    var k :| 0 <= k < |plan| && SrcPaths(plan)[k] == p;
    assert PlannedCopy(v, plan[k], root, to);
    StartIsNotAbove(root, p);
    RecordedIsExtracted(raws, entries, p);
    PlacesInOrder(v, plan, root, to);
    LaidHere(d, c, plan, |plan|, skipped, k);
  }

  lemma PlacesInOrder(v: Tree, plan: seq<CopyItem>, root: Path, to: Path)
    requires CopyPlan(v, plan, root, to, Region(v, root))
    ensures ParentsFirst(DstPaths(plan))
  {
    hide Describes;
    forall i, j | 0 <= i < j < |plan|
      ensures !Covers(DstPaths(plan)[j], DstPaths(plan)[i])
    {
      assert PlannedCopy(v, plan[i], root, to) && PlannedCopy(v, plan[j], root, to);
      assert !Covers(SrcPaths(plan)[j], SrcPaths(plan)[i]);
      RebaseCovers(root, to, plan[j].srcPath, plan[i].srcPath);
    }
  }

  /** Copies the entry at `root`, with all below it, out of an archive to `to`. A
      completed copy has made its steps one after the other, and has unpacked every
      file it saw. Nothing but the user, the destination's environment, or something
      in the way of a step stops it; and nothing changes outside `to`. */
  method CopyOut(fs: Archive, dst: Backend, root: Path, to: Path, cancel: CancellationToken)
    returns (r: Result<()>, progress: JobProgress, ghost plan: seq<CopyItem>, ghost skipped: set<nat>)
    requires fs.Valid() && WellTyped(fs.raws) && dst.Valid()
    modifies fs`pos, dst, cancel
    ensures dst.Valid() && fresh(progress) && progress.Valid()
    ensures r.Ok? ==>
              var v := SeenFrom(TreeOf(fs.entries), root);
              && root in v && CopyPlan(v, plan, root, to, Region(v, root))
              && CopiedSoFar(old(dst.tree), ContentFrom(fs.raws, fs.entries, root), dst.tree, to, plan, |plan|, skipped)
              && Unpacked(fs.raws, v, dst.tree, root, to)
              && (forall q :: root + q in v && IsTransfer(KindOf(v[root + q])) ==>
                    UnpackedTo(fs.raws, dst.tree, root + q, to + q))
              && progress.filesDone == FilesMoved(plan, |plan|)
    ensures r.Err? ==>
              || MayStop(r.error, VfsStream, cancel.cancelled, dst.faulty)
              || (r.error == NotFound && root !in TreeOf(fs.entries))
              || (r.error.FromBackend()
                  && InTheWay(old(dst.tree), ContentFrom(fs.raws, fs.entries, root), plan, skipped))
    ensures OutsideUnchanged(old(dst.tree), dst.tree, to)
  {
    hide TreeOf, Seen, Indexes, CopyPlan, CopiedSoFar, WellTyped, OutsideUnchanged, Unpacked, InTheWay, Served;
    plan, skipped := [], {};
    progress := new JobProgress(0, 0);
    var out := new Vec();
    NothingOutside(dst.tree, to);
    StartIsSeen(TreeOf(fs.entries), root);
    assert root[|root|..] == [] && to + [] == to;
    var walked;
    ghost var added;
    walked, added := WalkFrom(fs, root, to, out, root, to);
    if walked.Err? {
      return Err(NotFound), progress, plan, skipped;
    }
    assert [] + added == added;
    plan := out.items;
    progress := new JobProgress(FilesAnnounced(out.items, |out.items|), BytesAnnounced(out.items, |out.items|));
    r, skipped := RunOut(fs, dst, out.items, root, to, cancel, progress);
    if r.Ok? {
      AllUnpacked(fs.raws, fs.entries, old(dst.tree), dst.tree, root, to, plan, skipped);
      UnpackedByPlaces(fs.raws, SeenFrom(TreeOf(fs.entries), root), dst.tree, root, to);
    }
  }

  /** The bytes of the first raw entry that means p and is no directory are at place. */
  ghost predicate UnpackedTo(raws: seq<RawEntry>, td: Tree, p: Path, place: Path) {
    place in td && exists i: nat :: FirstMeaning(raws, i, p) && td[place] == Regular(raws[i].data)
  }

  /** What lies at `root + q` is unpacked to `to + q`. */
  lemma UnpackedByPlaces(raws: seq<RawEntry>, v: Tree, td: Tree, root: Path, to: Path)
    requires Unpacked(raws, v, td, root, to)
    ensures forall q :: root + q in v && IsTransfer(KindOf(v[root + q])) ==> UnpackedTo(raws, td, root + q, to + q)
  {
    hide FirstMeaning, KindOf;
    forall q | root + q in v && IsTransfer(KindOf(v[root + q]))
      ensures UnpackedTo(raws, td, root + q, to + q)
    {
      var p := root + q;
      assert Covers(root, p) && Rebase(root, to, p) == to + q;
      assert UnpackedAt(raws, td, Rebase(root, to, p), p);
      FirstByTexts(raws, p);
      assert FirstMeaning(raws, FirstFile(raws, 0, p).value, p);
    }
  }

  /** Some step of the plan met something in its way. */
  ghost predicate InTheWay(d: Tree, c: Tree, plan: seq<CopyItem>, skipped: set<nat>) {
    && FromSource(c, plan)
    && exists k :: 0 <= k < |plan| && !CopyEnabled(LaidOut(d, c, plan, k, skipped), c[plan[k].srcPath], plan[k].dstPath)
  }

  lemma NothingOutside(d: Tree, to: Path)
    ensures OutsideUnchanged(d, d, to)
  {
  }

  lemma StartIsSeen(t: Tree, root: Path)
    ensures root in t ==> Seen(t, root, root)
  {
  }

  lemma AllUnpacked(raws: seq<RawEntry>, entries: seq<ArchiveEntry>, d: Tree, td: Tree, root: Path, to: Path,
                    plan: seq<CopyItem>, skipped: set<nat>)
    requires Indexes(raws, entries) && WellTyped(raws)
    requires CopyPlan(SeenFrom(TreeOf(entries), root), plan, root, to, Region(SeenFrom(TreeOf(entries), root), root))
    requires CopiedSoFar(d, ContentFrom(raws, entries, root), td, to, plan, |plan|, skipped)
    ensures Unpacked(raws, SeenFrom(TreeOf(entries), root), td, root, to)
  {
    hide TreeOf, Seen, Indexes, CopyPlan, CopiedSoFar, UnpackedAt;
    var v := SeenFrom(TreeOf(entries), root);
    forall p | p in v && Covers(root, p) && IsTransfer(KindOf(v[p]))
      ensures UnpackedAt(raws, td, Rebase(root, to, p), p)
    {
      CopyUnpacks(raws, entries, d, td, root, to, plan, skipped, p);
    }
  }

  lemma NothingCopiedYet(raws: seq<RawEntry>, entries: seq<ArchiveEntry>, d: Tree, root: Path, to: Path,
                         plan: seq<CopyItem>)
    requires Indexes(raws, entries) && WellTyped(raws)
    requires CopyPlan(SeenFrom(TreeOf(entries), root), plan, root, to, Region(SeenFrom(TreeOf(entries), root), root))
    ensures CopiedSoFar(d, ContentFrom(raws, entries, root), d, to, plan, 0, {})
  {
    hide TreeOf, Seen, Indexes, CopyPlan, ContentFrom;
    forall i | 0 <= i < |plan|
      ensures var c := ContentFrom(raws, entries, root);
              plan[i].srcPath in c && plan[i].meta.kind == KindOf(c[plan[i].srcPath])
    {
      WalkIsServed(raws, entries, root, to, plan, i);
    }
  }

  method RunOut(fs: Archive, dst: Backend, plan: seq<CopyItem>, ghost root: Path, ghost to: Path,
                cancel: CancellationToken, progress: JobProgress)
    returns (r: Result<()>, ghost skipped: set<nat>)
    requires fs.Valid() && WellTyped(fs.raws) && dst.Valid() && progress.Valid() && progress.filesDone == 0
    requires var v := SeenFrom(TreeOf(fs.entries), root);
             CopyPlan(v, plan, root, to, Region(v, root))
    modifies fs`pos, dst, cancel, progress`bytesDone, progress`filesDone, progress`reports, progress`currentFile
    ensures dst.Valid() && progress.Valid()
    ensures r.Ok? ==>
              && CopiedSoFar(old(dst.tree), ContentFrom(fs.raws, fs.entries, root), dst.tree, to, plan, |plan|, skipped)
              && progress.filesDone == FilesMoved(plan, |plan|)
    ensures r.Err? ==>
              || MayStop(r.error, VfsStream, cancel.cancelled, dst.faulty)
              || (r.error.FromBackend()
                  && InTheWay(old(dst.tree), ContentFrom(fs.raws, fs.entries, root), plan, skipped))
    ensures OutsideUnchanged(old(dst.tree), dst.tree, to)
  {
    hide MayStop, WellFormed, NotAfter;
    hide TreeOf, Seen, Indexes, CopyPlan, WellTyped, OutsideUnchanged, Served, ContentFrom, CopyEnabled, CopiedSoFar;
    hide InTheWay, CopiedOrSkipped, CopyFailed;
    skipped := {};
    ghost var d, c := dst.tree, ContentFrom(fs.raws, fs.entries, root);
    NothingCopiedYet(fs.raws, fs.entries, d, root, to, plan);
    NothingOutside(d, to);
    for k := 0 to |plan|
      invariant dst.Valid() && progress.Valid()
      invariant CopiedSoFar(d, c, dst.tree, to, plan, k, skipped)
      invariant OutsideUnchanged(d, dst.tree, to)
      invariant progress.filesDone == FilesMoved(plan, k)
    {
      var stop := cancel.IsCancelled();
      if stop {
        CancelMayStop(VfsStream, cancel.cancelled, dst.faulty);
        r := Err(Cancelled);
        return;
      }
      progress.currentFile := Some(plan[k].dstPath);
      WalkIsServed(fs.raws, fs.entries, root, to, plan, k);
      r, skipped := RunStepOut(fs, dst, plan, k, cancel, progress, d, c, to, skipped);
      if r.Err? {
        return;
      }
    }
    r := Ok(());
  }

  method RunStepOut(fs: Archive, dst: Backend, plan: seq<CopyItem>, k: nat, cancel: CancellationToken,
                    progress: JobProgress, ghost d: Tree, ghost c: Tree, ghost to: Path, ghost before: set<nat>)
    returns (r: Result<()>, ghost skipped: set<nat>)
    requires fs.Valid() && dst.Valid() && progress.Valid() && k < |plan| && Served(fs.raws, c, plan[k])
    requires CopiedSoFar(d, c, dst.tree, to, plan, k, before) && Covers(to, plan[k].dstPath)
    modifies fs`pos, dst, cancel, progress`bytesDone, progress`filesDone, progress`reports
    ensures dst.Valid() && progress.Valid()
    ensures r.Ok? ==>
              && CopiedSoFar(d, c, dst.tree, to, plan, k + 1, skipped)
              && progress.filesDone == old(progress.filesDone) + FileWeight(plan[k].meta.kind)
    ensures r.Err? ==>
              || MayStop(r.error, VfsStream, cancel.cancelled, dst.faulty)
              || (r.error.FromBackend() && InTheWay(d, c, plan, skipped))
    ensures OutsideUnchanged(d, dst.tree, to)
  {
    hide CopyEnabled, CopiedOrSkipped, CopyFailed, LaidOut, AllEnabled, SkipsLinks, OutsideUnchanged, FromSource;
    skipped := before;
    ghost var td := dst.tree;
    ghost var skip;
    r, skip := ExtractItem(fs, dst, plan[k], cancel, progress, c);
    if r.Err? {
      StepFailed(d, td, dst.tree, c[plan[k].srcPath], plan[k].dstPath, to);
    } else {
      StepCopied(d, c, td, dst.tree, to, plan, k, before, skip);
      skipped := if skip then before + {k} else before;
    }
  }
}
