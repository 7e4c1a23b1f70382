/** `walk_for_copy` over an archive, through its own `stat` and `list_dir`. */
module ArchiveWalks {
  import opened Base
  import opened Trees
  import opened Backends
  import opened Plans
  import opened Walks
  import opened ArchiveIndex
  import opened ArchiveFs

  // ---------- What a walk can see ----------

  /** A walk from `root` gets to p: nothing between the two is a file or a link. */
  ghost predicate Seen(t: Tree, root: Path, p: Path) {
    && p in t && Covers(root, p)
    && forall q :: q in t && Covers(root, q) && Ancestor(q, p) ==> t[q] == Directory
  }

  /** The part of t that a walk from `root` sees, under directories down to `root`. */
  ghost function SeenFrom(t: Tree, root: Path): (v: Tree)
    ensures forall p :: p in v <==> p in t && (Ancestor(p, root) || Seen(t, root, p))
    ensures forall p :: p in v ==> v[p] == if Ancestor(p, root) then Directory else t[p]
  {
    map p | p in t && (Ancestor(p, root) || Seen(t, root, p)) :: if Ancestor(p, root) then Directory else t[p]
  }

  /** With each path, t holds all above it. */
  ghost predicate PrefixClosed(t: Tree) {
    && [] in t && t[[]] == Directory
    && forall p, q :: q in t && Ancestor(p, q) ==> p in t
  }

  lemma IndexIsPrefixClosed(raws: seq<RawEntry>, entries: seq<ArchiveEntry>)
    requires Indexes(raws, entries)
    ensures PrefixClosed(TreeOf(entries))
  {
    hide Indexes, TreeOf;
    InTree(raws, entries, []);
    forall p, q | q in TreeOf(entries) && Ancestor(p, q)
      ensures p in TreeOf(entries)
    {
      InTree(raws, entries, p);
      InTree(raws, entries, q);
      if p != [] {
        AncestorsAreIndexed(raws, entries, p, q);
      }
    }
  }

  lemma SeenIsTree(t: Tree, root: Path)
    requires PrefixClosed(t)
    ensures WellFormed(SeenFrom(t, root))
  {
    var v := SeenFrom(t, root);
    assert [] in v && v[[]] == Directory;
    forall p | p in v && p != []
      ensures Parent(p) in v && v[Parent(p)] == Directory
    {
      ParentIsSeen(t, root, p);
    }
  }

  lemma ParentIsSeen(t: Tree, root: Path, p: Path)
    requires PrefixClosed(t) && p != [] && p in SeenFrom(t, root)
    ensures Parent(p) in SeenFrom(t, root) && SeenFrom(t, root)[Parent(p)] == Directory
  {
    var above := Parent(p);
    assert Ancestor(above, p);
    if Ancestor(p, root) {
      CoversTransitive(above, p, root);
    } else if p == root {
      assert Ancestor(above, root);
    } else {
      AncestorCoversParent(root, p);
      forall q | q in t && Covers(root, q) && Ancestor(q, above)
        ensures t[q] == Directory
      {
        CoversTransitive(q, above, p);
      }
      assert Seen(t, root, above);
    }
  }

  /** A listing shows what the walk sees: a seen directory's children are all seen. */
  lemma ListingIsSeen(t: Tree, root: Path, p: Path, ms: seq<Meta>)
    requires Seen(t, root, p) && t[p] == Directory && Lists(t, ms, p)
    ensures Lists(SeenFrom(t, root), ms, p)
  {
    forall i | 0 <= i < |ms|
      ensures Describes(SeenFrom(t, root), ms[i], ms[i].path)
    {
      ChildIsSeen(t, root, p, ms[i].name);
    }
  }

  lemma ChildIsSeen(t: Tree, root: Path, p: Path, n: Name)
    requires Seen(t, root, p) && t[p] == Directory && p + [n] in t
    ensures Seen(t, root, p + [n]) && !Ancestor(p + [n], root)
  {
    CoversTransitive(root, p, p + [n]);
    forall q | q in t && Covers(root, q) && Ancestor(q, p + [n])
      ensures t[q] == Directory
    {
      AncestorCoversParent(q, p + [n]);
      assert Parent(p + [n]) == p;
    }
  }

  /** A walk from the top of a tree sees all of it; and what it sees is all there is
      only if there is a tree. */
  lemma AllIsSeen(t: Tree)
    requires PrefixClosed(t)
    ensures SeenFrom(t, []) == t <==> WellFormed(t)
  {
    SeenIsTree(t, []);
    if WellFormed(t) {
      forall p | p in t
        ensures Seen(t, [], p)
      {
        forall q | q in t && Ancestor(q, p)
          ensures t[q] == Directory
        {
          AncestorsAreDirectories(t, q, p);
        }
      }
    }
  }

  // ---------- Walking an archive ----------

  /** `stat` of an indexed path, as a description of the tree. */
  method StatInTree(fs: Archive, p: Path) returns (r: Result<Meta>)
    requires fs.Valid()
    ensures r.Ok? <==> p in TreeOf(fs.entries)
    ensures r.Ok? ==> Describes(TreeOf(fs.entries), r.value, p)
    ensures r.Err? ==> r.error == NotFound
  {
    hide Indexes, TreeOf;
    r := fs.Stat(p);
    if r.Ok? {
      InTree(fs.raws, fs.entries, []);
      if p != [] {
        ghost var e :| e in fs.entries && e.path == p && r.value == MetaOf(e);
        ghost var k :| 0 <= k < |fs.entries| && fs.entries[k] == e;
        MetaDescribes(fs.raws, fs.entries, k);
      }
    }
  }

  /** `list_dir` of an indexed path, as a listing of the tree. */
  method ListInTree(fs: Archive, p: Path) returns (r: Result<seq<Meta>>)
    requires fs.Valid()
    ensures r.Ok? <==> p in TreeOf(fs.entries)
    ensures r.Ok? ==> Lists(TreeOf(fs.entries), r.value, p)
    ensures r.Err? ==> r.error == NotFound
  {
    hide Indexes, TreeOf, Listing;
    r := fs.ListDir(p);
    if r.Ok? {
      ListingLists(fs.raws, fs.entries, p, r.value);
    }
  }

  /** `walk_for_copy` over an archive: `stat`, push, and recurse into `list_dir`.
      It ends, fails only on a missing start, and pushes exactly what it can see of
      the subtree. For the first call `root` is the start itself. */
  method WalkFrom(fs: Archive, srcPath: Path, dstPath: Path, out: Vec<CopyItem>, ghost root: Path, ghost to: Path)
    returns (r: Result<()>, ghost added: seq<CopyItem>)
    requires fs.Valid() && Covers(root, srcPath) && dstPath == Rebase(root, to, srcPath)
    requires srcPath in TreeOf(fs.entries) ==> Seen(TreeOf(fs.entries), root, srcPath)
    modifies out
    ensures r.Ok? <==> srcPath in TreeOf(fs.entries)
    ensures r.Ok? ==>
              && out.items == old(out.items) + added
              && CopyPlan(SeenFrom(TreeOf(fs.entries), root), added, root, to,
                          Region(SeenFrom(TreeOf(fs.entries), root), srcPath))
    decreases |Region(SeenFrom(TreeOf(fs.entries), root), srcPath)|, 1
  {
    hide Indexes, TreeOf, Lists, CopyPlan, Seen;
    added := [];
    IndexIsPrefixClosed(fs.raws, fs.entries);
    SeenIsTree(TreeOf(fs.entries), root);
    ghost var t := SeenFrom(TreeOf(fs.entries), root);
    var stat := StatInTree(fs, srcPath);
    if stat.Err? {
      r := Err(stat.error);
      return;
    }
    StartIsNotAbove(root, srcPath);
    var item := CopyItem(srcPath, dstPath, stat.value, None);
    out.Push(item);
    if stat.value.kind != Dir {
      added := [item];
      RegionOfLeaf(t, srcPath);
      SingleCopyPlan(t, item, root, to);
      r := Ok(());
      return;
    }
    var listed := ListInTree(fs, srcPath);
    if listed.Err? {
      // What `stat` finds can be listed.
      assert false;
    }
    ListingIsSeen(TreeOf(fs.entries), root, srcPath, listed.value);
    ghost var more := WalkListed(fs, srcPath, dstPath, listed.value, out, root, to);
    added := [item] + more;
    AppendTwice(old(out.items), [item], more);
    DirectoryCopied(t, srcPath, listed.value, item, more, root, to);
    r := Ok(());
  }

  lemma SeenIsThere(t: Tree, root: Path, p: Path)
    requires Seen(t, root, p)
    ensures p in SeenFrom(t, root)
  {
  }

  lemma StartIsNotAbove(root: Path, p: Path)
    requires Covers(root, p)
    ensures !Ancestor(p, root)
  {
  }

  method WalkListed(fs: Archive, srcPath: Path, dstPath: Path, entries: seq<Meta>, out: Vec<CopyItem>,
                    ghost root: Path, ghost to: Path)
    returns (ghost added: seq<CopyItem>)
    requires fs.Valid() && Seen(TreeOf(fs.entries), root, srcPath) && TreeOf(fs.entries)[srcPath] == Directory
    requires Covers(root, srcPath) && dstPath == Rebase(root, to, srcPath)
    requires Lists(TreeOf(fs.entries), entries, srcPath)
    modifies out
    ensures out.items == old(out.items) + added
    ensures CopyPlan(SeenFrom(TreeOf(fs.entries), root), added, root, to,
                     Visited(SeenFrom(TreeOf(fs.entries), root), srcPath, entries, |entries|))
    decreases |Region(SeenFrom(TreeOf(fs.entries), root), srcPath)|, 0, 1
  {
    hide Indexes, TreeOf, Lists, CopyPlan, Visited, Seen;
    ghost var t, before := SeenFrom(TreeOf(fs.entries), root), out.items;
    added := [];
    NothingListedYet(t, srcPath, entries);
    EmptyCopyPlan(t, root, to);
    for i := 0 to |entries|
      invariant out.items == before + added
      invariant CopyPlan(t, added, root, to, Visited(t, srcPath, entries, i))
    {
      added := WalkListedChild(fs, srcPath, dstPath, entries, i, out, before, added, root, to);
    }
  }

  method WalkListedChild(fs: Archive, srcPath: Path, dstPath: Path, entries: seq<Meta>, i: nat, out: Vec<CopyItem>,
                         ghost before: seq<CopyItem>, ghost done: seq<CopyItem>, ghost root: Path, ghost to: Path)
    returns (ghost added: seq<CopyItem>)
    requires fs.Valid() && Seen(TreeOf(fs.entries), root, srcPath) && TreeOf(fs.entries)[srcPath] == Directory
    requires Covers(root, srcPath) && dstPath == Rebase(root, to, srcPath)
    requires Lists(TreeOf(fs.entries), entries, srcPath) && i < |entries|
    requires out.items == before + done
    requires CopyPlan(SeenFrom(TreeOf(fs.entries), root), done, root, to,
                      Visited(SeenFrom(TreeOf(fs.entries), root), srcPath, entries, i))
    modifies out
    ensures out.items == before + added
    ensures CopyPlan(SeenFrom(TreeOf(fs.entries), root), added, root, to,
                     Visited(SeenFrom(TreeOf(fs.entries), root), srcPath, entries, i + 1))
    decreases |Region(SeenFrom(TreeOf(fs.entries), root), srcPath)|, 0, 0
  {
    hide Indexes, TreeOf, CopyPlan, Visited, Seen;
    ghost var t := SeenFrom(TreeOf(fs.entries), root);
    var entry := entries[i];
    ChildIsSeen(TreeOf(fs.entries), root, srcPath, entry.name);
    RebaseChild(root, to, srcPath, entry.name);
    SeenIsThere(TreeOf(fs.entries), root, srcPath);
    ChildRegionIsSmaller(t, srcPath, entry.name);
    var walked;
    walked, added := WalkFrom(fs, entry.path, dstPath + [entry.name], out, root, to);
    OneMoreChildCopied(t, srcPath, entries, i, done, added, root, to);
    AppendTwice(before, done, added);
    added := done + added;
  }

  /** The step list names every indexed entry, once. */
  ghost predicate VisitsOnce(entries: seq<ArchiveEntry>, plan: seq<CopyItem>) {
    && (forall k :: 0 <= k < |entries| ==> entries[k].path in SrcPaths(plan))
    && (forall i :: 0 <= i < |plan| ==> plan[i].srcPath == [] || HasPath(entries, plan[i].srcPath))
    && (forall i, j :: 0 <= i < j < |plan| ==> plan[i].srcPath != plan[j].srcPath)
  }

  /** The steps are exactly what a walk from the top sees, each once. */
  ghost predicate VisitsSeen(entries: seq<ArchiveEntry>, plan: seq<CopyItem>) {
    && Enumerates(SrcPaths(plan), SeenFrom(TreeOf(entries), []).Keys)
    && ParentsFirst(SrcPaths(plan))
  }

  /** The walk misses nothing if and only if no file or link lies above another entry. */
  lemma SeesEverythingIff(raws: seq<RawEntry>, entries: seq<ArchiveEntry>, plan: seq<CopyItem>)
    requires Indexes(raws, entries) && VisitsSeen(entries, plan)
    ensures VisitsOnce(entries, plan) <==> NoFileAbove(raws)
  {
    hide Indexes, TreeOf, NoFileAbove, Seen;
    var t := TreeOf(entries);
    IndexIsTree(raws, entries);
    IndexIsPrefixClosed(raws, entries);
    AllIsSeen(t);
    forall i | 0 <= i < |plan|
      ensures plan[i].srcPath == [] || HasPath(entries, plan[i].srcPath)
    {
      assert SrcPaths(plan)[i] in SeenFrom(t, []).Keys;
      InTree(raws, entries, plan[i].srcPath);
    }
    forall i, j | 0 <= i < j < |plan|
      ensures plan[i].srcPath != plan[j].srcPath
    {
      assert !Covers(SrcPaths(plan)[j], SrcPaths(plan)[i]);
    }
    if SeenFrom(t, []) == t {
      forall k | 0 <= k < |entries|
        ensures entries[k].path in SrcPaths(plan)
      {
        InTree(raws, entries, entries[k].path);
        assert HasPath(entries, entries[k].path);
      }
    }
    if VisitsOnce(entries, plan) {
      VisitedIsSeen(raws, entries, plan);
    }
  }

  lemma VisitedIsSeen(raws: seq<RawEntry>, entries: seq<ArchiveEntry>, plan: seq<CopyItem>)
    requires Indexes(raws, entries) && VisitsSeen(entries, plan) && VisitsOnce(entries, plan)
    ensures SeenFrom(TreeOf(entries), []) == TreeOf(entries)
  {
    hide Indexes, TreeOf, Seen;
    var t := TreeOf(entries);
    IndexIsPrefixClosed(raws, entries);
    SeenIsTree(t, []);
    forall p | p in t
      ensures p in SeenFrom(t, [])
    {
      InTree(raws, entries, p);
      if p != [] {
        var k :| 0 <= k < |entries| && entries[k].path == p;
        assert entries[k].path in SrcPaths(plan);
      }
    }
  }

  /** `walk_for_copy` from "/", of any archive: it ends, and visits exactly what lies
      below no file or link, each once, parents first, with what `stat` says of it.
      That is every indexed entry if and only if no file or link lies above another. */
  method WalkArchive(fs: Archive, to: Path) returns (plan: seq<CopyItem>)
    requires fs.Valid()
    ensures VisitsSeen(fs.entries, plan)
    ensures VisitsOnce(fs.entries, plan) <==> NoFileAbove(fs.raws)
    ensures forall i :: 0 <= i < |plan| ==> PlannedCopy(SeenFrom(TreeOf(fs.entries), []), plan[i], [], to)
  {
    hide Indexes, TreeOf, VisitsOnce, NoFileAbove, PlannedCopy, Seen, VisitsSeen;
    var out := new Vec();
    var root: Path := [];
    assert root[|root|..] == [] && to + [] == to;
    InTree(fs.raws, fs.entries, []);
    TopIsSeen(TreeOf(fs.entries));
    var walked;
    ghost var added;
    walked, added := WalkFrom(fs, root, to, out, root, to);
    plan := out.items;
    assert [] + added == added;
    RegionOfTop(fs.entries, plan, to);
    SeesEverythingIff(fs.raws, fs.entries, plan);
  }

  lemma TopIsSeen(t: Tree)
    requires [] in t
    ensures Seen(t, [], [])
  {
  }

  lemma RegionOfTop(entries: seq<ArchiveEntry>, plan: seq<CopyItem>, to: Path)
    requires CopyPlan(SeenFrom(TreeOf(entries), []), plan, [], to, Region(SeenFrom(TreeOf(entries), []), []))
    ensures VisitsSeen(entries, plan)
  {
    hide TreeOf, Seen;
    var v := SeenFrom(TreeOf(entries), []);
    assert Region(v, []) == v.Keys;
  }
}
