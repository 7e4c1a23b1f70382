/** Applying one copy or delete step, and what a plan's steps count towards the
    totals it announces. */
module Copying {
  import opened Base
  import opened Trees
  import opened Backends
  import opened Transports
  import opened Plans
  import opened SyncSpec
  import FastPath

  /** Directories and resolved links are created; everything else is transferred. */
  predicate IsTransfer(k: Kind) {
    k != Dir && !(k.Symlink? && k.target.Some?)
  }

  /** A copy of e can be made at p. */
  predicate CopyEnabled(t: Tree, e: Entry, p: Path) {
    if IsTransfer(KindOf(e)) then CanWrite(t, p) else CanCreate(t, p)
  }

  /** How one copy step at p may leave the destination: done, or a link left out. */
  predicate CopiedOrSkipped(t0: Tree, t: Tree, e: Entry, p: Path, skipped: bool) {
    if skipped then e.Link? && t == t0 else t == t0[p := Transferred(e)] && CopyEnabled(t0, e, p)
  }

  /** How a failed copy step may leave the destination: as it was, or with a
      prefix of the file it was transferring. */
  ghost predicate CopyFailed(t0: Tree, t: Tree, e: Entry, p: Path) {
    t == t0 || (IsTransfer(KindOf(e)) && CanWrite(t0, p) && Readable(e)
                && exists k :: PrefixWritten(t0, t, p, e.data, k))
  }

  /** `apply_copy_item`, on the transport of the job. A link that cannot be created is
      skipped silently. */
  method ApplyCopyItem(src: Backend, dst: Backend, via: Route, item: CopyItem, cancel: CancellationToken,
                       progress: JobProgress)
    returns (r: Result<()>, ghost skipped: bool)
    requires src.Valid() && dst.Valid() && progress.Valid()
    requires Describes(src.tree, item.meta, item.srcPath)
    requires src == dst ==> item.srcPath != item.dstPath && via.VfsStream?
    modifies dst, cancel, progress`bytesDone, progress`filesDone, progress`reports
    ensures src.Valid() && dst.Valid() && progress.Valid()
    ensures old(cancel.cancelled) ==> cancel.cancelled
    ensures r.Ok? ==>
              && CopiedOrSkipped(old(dst.tree), dst.tree, old(src.tree)[item.srcPath], item.dstPath, skipped)
              && progress.filesDone == old(progress.filesDone) + FileCount(via, item.meta.kind)
              && progress.bytesDone == old(progress.bytesDone) + ByteWeight(old(src.tree), item)
    ensures r.Ok? && skipped ==>
              dst.faulty || !CopyEnabled(old(dst.tree), old(src.tree)[item.srcPath], item.dstPath)
    ensures old(src.tree)[item.srcPath].Link? ==> r.Ok?
    ensures r.Err? ==> CopyFailed(old(dst.tree), dst.tree, old(src.tree)[item.srcPath], item.dstPath)
    ensures r.Err? ==>
              || MayStop(r.error, via, cancel.cancelled, src.faulty || dst.faulty)
              || (r.error.FromBackend()
                  && !CopyEnabled(old(dst.tree), old(src.tree)[item.srcPath], item.dstPath))
  {
    hide WellFormed, CanWrite, CanCreate;
    skipped := false;
    match item.meta.kind {
      case Dir =>
        r := dst.Mkdir(item.dstPath);
      case Symlink(Some(target)) =>
        var linked := dst.Symlink(target, item.dstPath);
        skipped := linked.Err?;
        r := Ok(());
      case _ =>
        r := FastPath.TransferVia(via, src, item.srcPath, dst, item.dstPath, cancel, progress);
        if r.Ok? {
          progress.CountFile();
        } else if dst.tree != old(dst.tree) {
          ghost var data := DataAt(old(src.tree), item.srcPath);
          ghost var k: nat :| PrefixWritten(old(dst.tree), dst.tree, item.dstPath, data, k);
        }
    }
  }

  function FileWeight(k: Kind): nat {
    if IsTransfer(k) then 1 else 0
  }

  /** What a step adds to the counted files: the QUIC transport counts its file, and
      `apply_copy_item` counts it once more. */
  function FileCount(via: Route, k: Kind): nat {
    if IsTransfer(k) then (if via.QuicSide? then 2 else 1) else 0
  }

  /** The bytes a copy step transfers. */
  function ByteWeight(t: Tree, item: CopyItem): nat {
    if IsTransfer(item.meta.kind) then |DataAt(t, item.srcPath)| else 0
  }

  // ---------- Progress totals ----------

  /** Files transferred by the first k steps. */
  function FilesMoved(items: seq<CopyItem>, k: nat): nat
    requires k <= |items|
  {
    if k == 0 then 0 else FilesMoved(items, k - 1) + FileWeight(items[k - 1].meta.kind)
  }

  /** Bytes transferred by the first k steps. */
  function FilesCounted(via: Route, items: seq<CopyItem>, k: nat): nat
    requires k <= |items|
  {
    if via.QuicSide? then 2 * FilesMoved(items, k) else FilesMoved(items, k)
  }

  function BytesMoved(t: Tree, items: seq<CopyItem>, k: nat): nat
    requires k <= |items|
  {
    if k == 0 then 0 else BytesMoved(t, items, k - 1) + ByteWeight(t, items[k - 1])
  }

  /** The totals a job announces: every step but the directories. */
  function FilesAnnounced(items: seq<CopyItem>, k: nat): nat
    requires k <= |items|
  {
    if k == 0 then 0 else FilesAnnounced(items, k - 1) + if items[k - 1].meta.kind == Dir then 0 else 1
  }

  function BytesAnnounced(items: seq<CopyItem>, k: nat): nat
    requires k <= |items|
  {
    if k == 0 then 0
    else BytesAnnounced(items, k - 1) + if items[k - 1].meta.kind == Dir then 0 else items[k - 1].meta.size
  }

  predicate IsResolvedLink(k: Kind) {
    k.Symlink? && k.target.Some?
  }

  function LinksAmong(items: seq<CopyItem>, k: nat): nat
    requires k <= |items|
  {
    if k == 0 then 0 else LinksAmong(items, k - 1) + if IsResolvedLink(items[k - 1].meta.kind) then 1 else 0
  }

  function LinkBytesAmong(items: seq<CopyItem>, k: nat): nat
    requires k <= |items|
  {
    if k == 0 then 0
    else LinkBytesAmong(items, k - 1) + if IsResolvedLink(items[k - 1].meta.kind) then items[k - 1].meta.size else 0
  }

  predicate PlainStep(t: Tree, item: CopyItem) {
    item.srcPath in t && Faithful(t[item.srcPath])
  }

  /** The counters end at the totals minus the links, which count in the totals but
      never in the counters. For bytes this takes a source of plain files. */
  lemma {:induction false} TotalsMinusLinks(t: Tree, items: seq<CopyItem>, k: nat)
    requires k <= |items|
    requires forall i :: 0 <= i < |items| ==> Describes(t, items[i].meta, items[i].srcPath)
    ensures FilesMoved(items, k) + LinksAmong(items, k) == FilesAnnounced(items, k)
    ensures (forall i :: 0 <= i < |items| ==> PlainStep(t, items[i])) ==>
              BytesMoved(t, items, k) + LinkBytesAmong(items, k) == BytesAnnounced(items, k)
  {
    if k > 0 {
      TotalsMinusLinks(t, items, k - 1);
      assert Describes(t, items[k - 1].meta, items[k - 1].srcPath);
      assert PlainStep(t, items[k - 1]) || !PlainStep(t, items[k - 1]);
    }
  }

  /** The steps among the first k that are directories, links with known target, and
      everything else. */
  function DirsAmong(items: seq<CopyItem>, k: nat): set<nat>
    requires k <= |items|
  {
    set i: nat | i < k && items[i].meta.kind == Dir
  }

  function LinkSteps(items: seq<CopyItem>, k: nat): set<nat>
    requires k <= |items|
  {
    set i: nat | i < k && items[i].meta.kind.Symlink? && items[i].meta.kind.target.Some?
  }

  /** What is announced and counted: each step but directories is one file of the
      total, with its size; of these exactly the links with known target are not
      counted as moved. */
  lemma TotalsAreCounts(items: seq<CopyItem>, k: nat)
    requires k <= |items|
    ensures FilesAnnounced(items, k) + |DirsAmong(items, k)| == k
    ensures LinksAmong(items, k) == |LinkSteps(items, k)|
    ensures FilesMoved(items, k) + |LinkSteps(items, k)| + |DirsAmong(items, k)| == k
    ensures k > 0 ==>
              var m := items[k - 1].meta;
              BytesAnnounced(items, k) == BytesAnnounced(items, k - 1) + if m.kind == Dir then 0 else m.size
    ensures BytesAnnounced(items, 0) == 0
  {
    FilesMinusLinks(items, k);
    DirsAreNotAnnounced(items, k);
    LinksAreCounted(items, k);
  }

  lemma {:induction false} DirsAreNotAnnounced(items: seq<CopyItem>, k: nat)
    requires k <= |items|
    ensures FilesAnnounced(items, k) + |DirsAmong(items, k)| == k
  {
    if k > 0 {
      DirsAreNotAnnounced(items, k - 1);
      var last: nat := k - 1;
      if items[last].meta.kind == Dir {
        assert DirsAmong(items, k) == DirsAmong(items, last) + {last};
      } else {
        assert DirsAmong(items, k) == DirsAmong(items, last);
      }
    }
  }

  lemma {:induction false} LinksAreCounted(items: seq<CopyItem>, k: nat)
    requires k <= |items|
    ensures LinksAmong(items, k) == |LinkSteps(items, k)|
  {
    if k > 0 {
      LinksAreCounted(items, k - 1);
      var last: nat := k - 1;
      if items[last].meta.kind.Symlink? && items[last].meta.kind.target.Some? {
        assert LinkSteps(items, k) == LinkSteps(items, last) + {last};
      } else {
        assert LinkSteps(items, k) == LinkSteps(items, last);
      }
    }
  }

  /** When the files counted by a completed job, with its deletions, stay within the
      announced total: links are announced and never counted, and over the QUIC
      transport each transfer is counted twice. */
  lemma CountsWithinTotals(via: Route, items: seq<CopyItem>, deleted: nat)
    ensures FilesCounted(via, items, |items|) + deleted <= FilesAnnounced(items, |items|) <==>
              deleted + (if via.QuicSide? then FilesMoved(items, |items|) else 0) <= LinksAmong(items, |items|)
  {
    FilesMinusLinks(items, |items|);
  }

  lemma {:induction false} FilesMinusLinks(items: seq<CopyItem>, k: nat)
    requires k <= |items|
    ensures FilesMoved(items, k) + LinksAmong(items, k) == FilesAnnounced(items, k)
  {
    if k > 0 {
      FilesMinusLinks(items, k - 1);
    }
  }

  /** `apply_delete_item`. */
  method ApplyDeleteItem(vfs: Backend, item: DeleteItem) returns (r: Result<()>)
    requires vfs.Valid()
    modifies vfs
    ensures vfs.Valid()
    ensures r.Ok? ==> DeleteEnabled(old(vfs.tree), item) && vfs.tree == Prune(old(vfs.tree), item.path)
    ensures r.Err? ==> vfs.tree == old(vfs.tree) && r.error.FromBackend()
    ensures r.Err? ==> (r.error == Io && vfs.faulty) || !DeleteEnabled(vfs.tree, item)
  {
    if item.meta.kind == Dir {
      r := vfs.RemoveDir(item.path, false);
    } else {
      r := vfs.RemoveFile(item.path);
    }
  }

  predicate DeleteEnabled(t: Tree, item: DeleteItem) {
    if item.meta.kind == Dir then CanRmdir(t, item.path) else CanUnlink(t, item.path)
  }
}
