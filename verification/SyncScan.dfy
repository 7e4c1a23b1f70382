/** What the sync scan compares and pushes: `file_needs_copy` with its fallbacks,
    what it misses, and `push_full_copy` for whole subtrees. It only reads the two
    backends. */
module SyncScan {
  import opened Base
  import opened Trees
  import opened Backends
  import opened Plans
  import opened Walks
  import opened SyncSpec
  import opened SyncScope

  class SyncPlan {
    const copy: Vec<CopyItem>
    const delete: Vec<DeleteItem>
    var bytesTotal: nat
    var filesToCopy: nat
    var itemsToDelete: nat

    constructor ()
      ensures fresh(copy) && fresh(delete) && copy.items == [] && delete.items == []
    {
      copy := new Vec();
      delete := new Vec();
      bytesTotal, filesToCopy, itemsToDelete := 0, 0, 0;
    }

    predicate IsEmpty()
      reads copy, delete
    {
      copy.items == [] && delete.items == []
    }
  }

  // ---------- The comparison rule ----------

  /** Two seconds, in nanoseconds. */
  const MTIME_TOLERANCE: int := 2_000_000_000

  function MtimeLooksChanged(srcModified: Option<int>, dstModified: Option<int>): bool {
    match (srcModified, dstModified)
    case (Some(s), Some(d)) => s >= d && s - d > MTIME_TOLERANCE
    case _ => true
  }

  /** Sizes decide first, then hashes if both sides have one, then mtimes. */
  function FileDiffers(srcSize: nat, dstSize: nat, srcHash: Option<int>, dstHash: Option<int>,
                       srcModified: Option<int>, dstModified: Option<int>): bool {
    || srcSize != dstSize
    || match (srcHash, dstHash)
       case (Some(s), Some(d)) => s != d
       case _ => MtimeLooksChanged(srcModified, dstModified)
  }

  /** The rule applied to the files facing each other at q. */
  predicate ChangedAt(src: Backend, dst: Backend, x: Scope, q: Path)
    reads src, dst
  {
    var p, e := x.srcRoot + q, x.dstRoot + q;
    && p in src.tree && e in dst.tree && src.tree[p].Regular? && dst.tree[e].Regular?
    && FileDiffers(|src.tree[p].data|, |dst.tree[e].data|, src.HashAt(p), dst.HashAt(e),
                   src.ModifiedAt(p), dst.ModifiedAt(e))
  }

  /** x is what a scan of the two backends is about. */
  ghost predicate Scanning(src: Backend, dst: Backend, x: Scope)
    reads src, dst
  {
    && src.Valid() && dst.Valid() && src.tree == x.s && dst.tree == x.d
    && forall q :: q in x.changed <==> ChangedAt(src, dst, x, q)
  }

  /** The scope of a scan with the backends as they are. */
  ghost function ScopeOf(src: Backend, dst: Backend, srcRoot: Path, dstRoot: Path, deleteExtraneous: bool): (x: Scope)
    requires src.Valid() && dst.Valid()
    reads src, dst
    ensures Scanning(src, dst, x)
    ensures x.srcRoot == srcRoot && x.dstRoot == dstRoot && x.deleteExtraneous == deleteExtraneous
  {
    var x0 := Scope(src.tree, dst.tree, srcRoot, dstRoot, {}, deleteExtraneous);
    var changed := set q | q in View(src.tree, srcRoot) && ChangedAt(src, dst, x0, q);
    var x := x0.(changed := changed);
    assert forall q :: ChangedAt(src, dst, x, q) <==> ChangedAt(src, dst, x0, q);
    x
  }

  /** Both backends hash every file with the same function. */
  ghost predicate HashesEverything(src: Backend, dst: Backend) {
    && src.hash == dst.hash
    && (forall p :: src.canHash(p)) && (forall e :: dst.canHash(e))
  }

  /** When both sides can hash, a scan compares by hash. */
  lemma ScanComparesByHash(src: Backend, dst: Backend, x: Scope)
    requires Scanning(src, dst, x) && HashesEverything(src, dst)
    ensures ComparedByHash(x.ToDiff(), src.hash)
  {
  }

  /** The source is at most two seconds newer than the destination, and both times are known. */
  predicate LooksNoNewer(srcModified: Option<int>, dstModified: Option<int>) {
    srcModified.Some? && dstModified.Some? && srcModified.value - dstModified.value <= 2_000_000_000
  }

  /** What a scan misses: a difference between files of one size at q stays unnoticed
      if and only if the hashes collide or, where one side cannot hash, the source
      looks no newer than two seconds after the destination. */
  lemma WhatAScanMisses(src: Backend, dst: Backend, x: Scope, q: Path)
    requires Scanning(src, dst, x)
    requires q in x.ToDiff().s && q in x.ToDiff().d
    requires x.ToDiff().s[q].Regular? && x.ToDiff().d[q].Regular? && x.ToDiff().s[q] != x.ToDiff().d[q]
    ensures var p, e := x.srcRoot + q, x.dstRoot + q;
            MissedAt(x.ToDiff(), q) <==>
              && |x.s[p].data| == |x.d[e].data|
              && if src.canHash(p) && dst.canHash(e) then src.hash(x.s[p].data) == dst.hash(x.d[e].data)
                 else
                   var (m, n) := (src.ModifiedAt(p), dst.ModifiedAt(e));
                   m.Some? && n.Some? && m.value - n.value <= 2_000_000_000
  {
    hide WellFormed, FileDiffers;
    var p, e := x.srcRoot + q, x.dstRoot + q;
    assert q in x.changed <==> ChangedAt(src, dst, x, q);
    WhenUnchanged(|x.s[p].data|, |x.d[e].data|, src.HashAt(p), dst.HashAt(e), src.ModifiedAt(p), dst.ModifiedAt(e));
  }

  lemma WhenUnchanged(srcSize: nat, dstSize: nat, srcHash: Option<int>, dstHash: Option<int>,
                      srcModified: Option<int>, dstModified: Option<int>)
    ensures !FileDiffers(srcSize, dstSize, srcHash, dstHash, srcModified, dstModified) <==>
              && srcSize == dstSize
              && if srcHash.Some? && dstHash.Some? then srcHash == dstHash else LooksNoNewer(srcModified, dstModified)
  {
  }

  /** `file_needs_copy`: a file is left alone exactly if the sizes agree, and the two
      hashes do or, for want of one, the source looks no newer. */
  method FileNeedsCopy(src: Backend, dst: Backend, srcEntry: Meta, dstEntry: Meta) returns (r: Result<bool>)
    ensures r.Ok? ==>
              r.value == FileDiffers(srcEntry.size, dstEntry.size, src.HashAt(srcEntry.path), dst.HashAt(dstEntry.path),
                                     srcEntry.modified, dstEntry.modified)
    ensures r == Ok(false) ==>
              && srcEntry.size == dstEntry.size
              && var (h, g) := (src.HashAt(srcEntry.path), dst.HashAt(dstEntry.path));
                 if h.Some? && g.Some? then h == g
                 else srcEntry.modified.Some? && dstEntry.modified.Some?
                      && srcEntry.modified.value - dstEntry.modified.value <= 2_000_000_000
    ensures r == Ok(true) ==>
              || srcEntry.size != dstEntry.size
              || var (h, g) := (src.HashAt(srcEntry.path), dst.HashAt(dstEntry.path));
                 if h.Some? && g.Some? then h != g else !LooksNoNewer(srcEntry.modified, dstEntry.modified)
    ensures r.Err? ==> r.error == Io && (src.faulty || dst.faulty)
  {
    if srcEntry.size != dstEntry.size {
      return Ok(true);
    }
    var srcHash :- src.QuickHash(srcEntry.path);
    var dstHash :- dst.QuickHash(dstEntry.path);
    match (srcHash, dstHash) {
      case (Some(s), Some(d)) => return Ok(s != d);
      case _ => return Ok(MtimeLooksChanged(srcEntry.modified, dstEntry.modified));
    }
  }

  // ---------- Full copies ----------

  /** Only the top of a full copy carries the entry to replace. */
  predicate ReplacesAtTop(items: seq<CopyItem>, top: Path, replaceExisting: Option<Meta>) {
    forall i :: 0 <= i < |items| ==>
      items[i].replaceExisting == if items[i].srcPath == top then replaceExisting else None
  }

  lemma JoinReplacesAtTop(t: Tree, top: CopyItem, more: seq<CopyItem>, root: Path, to: Path, z: set<Path>)
    requires CopyPlan(t, more, root, to, z) && top.srcPath !in z
    requires forall i :: 0 <= i < |more| ==> more[i].replaceExisting == None
    ensures ReplacesAtTop([top] + more, top.srcPath, top.replaceExisting)
  {
    forall i | 0 <= i < |more|
      ensures more[i].srcPath != top.srcPath
    {
      assert SrcPaths(more)[i] in z;
    }
  }

  /** `push_full_copy`: like `walk_for_copy`, but from an entry already listed. */
  method PushFullCopy(src: Backend, srcPath: Path, dstPath: Path, meta: Meta, replaceExisting: Option<Meta>,
                      out: Vec<CopyItem>, ghost root: Path, ghost to: Path)
    returns (r: Result<()>, ghost added: seq<CopyItem>)
    requires src.Valid() && Describes(src.tree, meta, srcPath)
    requires Covers(root, srcPath) && dstPath == Rebase(root, to, srcPath)
    modifies out
    ensures r.Ok? ==>
              && out.items == old(out.items) + added
              && CopyPlan(src.tree, added, root, to, Region(src.tree, srcPath))
              && ReplacesAtTop(added, srcPath, replaceExisting)
    ensures r.Err? ==> r.error == Io && src.faulty
    decreases |Region(src.tree, srcPath)|, 2
  {
    added := [];
    var item := CopyItem(srcPath, dstPath, meta, replaceExisting);
    out.Push(item);
    if meta.kind != Dir {
      added := [item];
      RegionOfLeaf(src.tree, srcPath);
      SingleCopyPlan(src.tree, item, root, to);
      r := Ok(());
      return;
    }
    var listed := src.ListDir(srcPath);
    if listed.Err? {
      r := Err(listed.error);
      return;
    }
    ghost var more;
    r, more := PushChildren(src, srcPath, dstPath, listed.value, out, root, to);
    added := [item] + more;
    AppendTwice(old(out.items), [item], more);
    if r.Ok? {
      DirectoryCopied(src.tree, srcPath, listed.value, item, more, root, to);
      JoinReplacesAtTop(src.tree, item, more, root, to, Visited(src.tree, srcPath, listed.value, |listed.value|));
    }
  }

  /** The steps for the subtrees of the first i listed children. */
  ghost predicate ChildrenPushed(t: Tree, srcPath: Path, entries: seq<Meta>, i: nat, added: seq<CopyItem>,
                                 root: Path, to: Path)
    requires i <= |entries|
  {
    CopyPlan(t, added, root, to, Visited(t, srcPath, entries, i)) && ReplacesNothing(added)
  }

  lemma NothingPushedYet(t: Tree, srcPath: Path, entries: seq<Meta>, root: Path, to: Path)
    ensures ChildrenPushed(t, srcPath, entries, 0, [], root, to)
  {
    NothingListedYet(t, srcPath, entries);
    EmptyCopyPlan(t, root, to);
  }

  method PushChildren(src: Backend, srcPath: Path, dstPath: Path, entries: seq<Meta>, out: Vec<CopyItem>,
                      ghost root: Path, ghost to: Path)
    returns (r: Result<()>, ghost added: seq<CopyItem>)
    requires src.Valid() && Covers(root, srcPath) && dstPath == Rebase(root, to, srcPath)
    requires srcPath in src.tree && Lists(src.tree, entries, srcPath)
    modifies out
    ensures r.Ok? ==>
              && out.items == old(out.items) + added
              && ChildrenPushed(src.tree, srcPath, entries, |entries|, added, root, to)
    ensures r.Err? ==> r.error == Io && src.faulty
    decreases |Region(src.tree, srcPath)|, 1
  {
    hide *;
    ghost var before := out.items;
    added := [];
    NothingPushedYet(src.tree, srcPath, entries, root, to);
    for i := 0 to |entries|
      invariant out.items == before + added
      invariant ChildrenPushed(src.tree, srcPath, entries, i, added, root, to)
    {
      r, added := PushChild(src, srcPath, dstPath, entries, i, out, before, added, root, to);
      if r.Err? {
        return;
      }
    }
    r := Ok(());
  }

  predicate ReplacesNothing(items: seq<CopyItem>) {
    forall i :: 0 <= i < |items| ==> items[i].replaceExisting == None
  }

  method PushChild(src: Backend, srcPath: Path, dstPath: Path, entries: seq<Meta>, i: nat, out: Vec<CopyItem>,
                   ghost before: seq<CopyItem>, ghost done: seq<CopyItem>, ghost root: Path, ghost to: Path)
    returns (r: Result<()>, ghost added: seq<CopyItem>)
    requires src.Valid() && Covers(root, srcPath) && dstPath == Rebase(root, to, srcPath)
    requires srcPath in src.tree && Lists(src.tree, entries, srcPath) && i < |entries|
    requires out.items == before + done && ChildrenPushed(src.tree, srcPath, entries, i, done, root, to)
    modifies out
    ensures r.Ok? ==>
              && out.items == before + added
              && ChildrenPushed(src.tree, srcPath, entries, i + 1, added, root, to)
    ensures r.Err? ==> r.error == Io && src.faulty
    decreases |Region(src.tree, srcPath)|, 0
  {
    var entry := entries[i];
    RebaseChild(root, to, srcPath, entry.name);
    ChildRegionIsSmaller(src.tree, srcPath, entry.name);
    r, added := PushFullCopy(src, entry.path, dstPath + [entry.name], entry, None, out, root, to);
    if r.Ok? {
      OneMoreChildCopied(src.tree, srcPath, entries, i, done, added, root, to);
    }
    AppendTwice(before, done, added);
    added := done + added;
  }
}
