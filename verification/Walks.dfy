/** The recursive walks that turn a tree into a flat plan before anything changes. */
module Walks {
  import opened Base
  import opened Trees
  import opened Backends
  import opened Plans

  /** A growable list that walks push into. */
  class Vec<T> {
    var items: seq<T>

    constructor ()
      ensures items == []
    {
      items := [];
    }

    method Push(x: T)
      modifies this
      ensures items == old(items) + [x]
    {
      items := items + [x];
    }
  }

  lemma AppendTwice<T>(a: seq<T>, b: seq<T>, c: seq<T>)
    ensures (a + b) + c == a + (b + c)
  {
  }

  /** Everything below the first i listed children of p. */
  function Visited(t: Tree, p: Path, entries: seq<Meta>, i: nat): set<Path>
    requires i <= |entries|
  {
    ChildRegions(t, p, NamesUpTo(entries, i))
  }

  lemma NextName(entries: seq<Meta>, i: nat)
    requires i < |entries| && DistinctNames(entries)
    ensures entries[i].name !in NamesUpTo(entries, i)
    ensures NamesUpTo(entries, i + 1) == NamesUpTo(entries, i) + {entries[i].name}
  {
    LaterNameIsNew(entries, i, i);
  }

  lemma OneMoreChildCopied(t: Tree, p: Path, entries: seq<Meta>, i: nat,
                           added: seq<CopyItem>, more: seq<CopyItem>, root: Path, to: Path)
    requires i < |entries| && DistinctNames(entries)
    requires CopyPlan(t, added, root, to, Visited(t, p, entries, i))
    requires CopyPlan(t, more, root, to, Region(t, p + [entries[i].name]))
    ensures CopyPlan(t, added + more, root, to, Visited(t, p, entries, i + 1))
  {
    NextName(entries, i);
    OneMoreRegion(t, p, NamesUpTo(entries, i), entries[i].name);
    JoinCopyPlans(t, added, Visited(t, p, entries, i), more, Region(t, p + [entries[i].name]), root, to);
  }

  lemma OneMoreChildDeleted(t: Tree, p: Path, entries: seq<Meta>, i: nat,
                            added: seq<DeleteItem>, more: seq<DeleteItem>)
    requires i < |entries| && DistinctNames(entries)
    requires DeletePlan(t, added, Visited(t, p, entries, i))
    requires DeletePlan(t, more, Region(t, p + [entries[i].name]))
    ensures DeletePlan(t, added + more, Visited(t, p, entries, i + 1))
  {
    NextName(entries, i);
    OneMoreRegion(t, p, NamesUpTo(entries, i), entries[i].name);
    JoinDeletePlans(t, added, Visited(t, p, entries, i), more, Region(t, p + [entries[i].name]));
  }

  /** A directory after its children, once all of them were walked. */
  lemma DirectoryCopied(t: Tree, p: Path, entries: seq<Meta>, item: CopyItem, more: seq<CopyItem>, root: Path, to: Path)
    requires WellFormed(t) && p in t && Lists(t, entries, p)
    requires PlannedCopy(t, item, root, to) && item.srcPath == p
    requires CopyPlan(t, more, root, to, Visited(t, p, entries, |entries|))
    ensures CopyPlan(t, [item] + more, root, to, Region(t, p))
  {
    RegionByChildren(t, p, Names(entries));
    SingleCopyPlan(t, item, root, to);
    JoinCopyPlans(t, [item], {p}, more, Visited(t, p, entries, |entries|), root, to);
  }

  lemma DirectoryDeleted(t: Tree, p: Path, entries: seq<Meta>, item: DeleteItem, more: seq<DeleteItem>)
    requires WellFormed(t) && p in t && Lists(t, entries, p)
    requires Describes(t, item.meta, p) && item.path == p
    requires DeletePlan(t, more, Visited(t, p, entries, |entries|))
    ensures DeletePlan(t, more + [item], Region(t, p))
  {
    RegionByChildren(t, p, Names(entries));
    SingleDeletePlan(t, item);
    JoinDeletePlans(t, more, Visited(t, p, entries, |entries|), [item], {p});
  }

  lemma NothingListedYet(t: Tree, p: Path, entries: seq<Meta>)
    ensures Visited(t, p, entries, 0) == {}
  {
  }

  /** `walk_for_copy`: pushes exactly the subtree at srcPath, parents first. The
      ghost roots fix where destination paths come from. */
  method WalkForCopy(src: Backend, srcPath: Path, dstPath: Path, out: Vec<CopyItem>, ghost root: Path, ghost to: Path)
    returns (r: Result<()>, ghost added: seq<CopyItem>)
    requires src.Valid() && Covers(root, srcPath) && dstPath == Rebase(root, to, srcPath)
    modifies out
    ensures r.Ok? ==>
              && srcPath in src.tree
              && out.items == old(out.items) + added
              && CopyPlan(src.tree, added, root, to, Region(src.tree, srcPath))
    ensures r.Err? ==> (r.error == Io && src.faulty) || (r.error == NotFound && srcPath !in src.tree)
    decreases |Region(src.tree, srcPath)|, 1
  {
    added := [];
    var stat := src.Stat(srcPath);
    if stat.Err? {
      r := Err(stat.error);
      return;
    }
    var meta := stat.value;
    var item := CopyItem(srcPath, dstPath, meta, None);
    out.Push(item);
    if meta.kind != Dir {
      added := [item];
      RegionOfLeaf(src.tree, srcPath);
      SingleCopyPlan(src.tree, item, root, to);
      r := Ok(());
      return;
    }
    var listed := src.ListDir(srcPath);
    if listed.Err? {
      r := Err(listed.error);
      return;
    }
    ghost var more;
    r, more := WalkChildrenForCopy(src, srcPath, dstPath, listed.value, out, root, to);
    added := [item] + more;
    AppendTwice(old(out.items), [item], more);
    if r.Ok? {
      DirectoryCopied(src.tree, srcPath, listed.value, item, more, root, to);
    }
  }

  method WalkChildrenForCopy(src: Backend, srcPath: Path, dstPath: Path, entries: seq<Meta>, out: Vec<CopyItem>,
                             ghost root: Path, ghost to: Path)
    returns (r: Result<()>, ghost added: seq<CopyItem>)
    requires src.Valid() && Covers(root, srcPath) && dstPath == Rebase(root, to, srcPath)
    requires srcPath in src.tree && Lists(src.tree, entries, srcPath)
    modifies out
    ensures r.Ok? ==>
              && out.items == old(out.items) + added
              && CopyPlan(src.tree, added, root, to, Visited(src.tree, srcPath, entries, |entries|))
    ensures r.Err? ==> r.error == Io && src.faulty
    decreases |Region(src.tree, srcPath)|, 0, 1
  {
    hide CopyPlan, Visited, Lists, WellFormed;
    ghost var t, before := src.tree, out.items;
    added := [];
    NothingListedYet(t, srcPath, entries);
    EmptyCopyPlan(t, root, to);
    for i := 0 to |entries|
      invariant out.items == before + added
      invariant CopyPlan(t, added, root, to, Visited(t, srcPath, entries, i))
    {
      r, added := WalkChildForCopy(src, srcPath, dstPath, entries, i, out, before, added, root, to);
      if r.Err? {
        return;
      }
    }
    r := Ok(());
  }

  method WalkChildForCopy(src: Backend, srcPath: Path, dstPath: Path, entries: seq<Meta>, i: nat, out: Vec<CopyItem>,
                          ghost before: seq<CopyItem>, ghost done: seq<CopyItem>, ghost root: Path, ghost to: Path)
    returns (r: Result<()>, ghost added: seq<CopyItem>)
    requires src.Valid() && Covers(root, srcPath) && dstPath == Rebase(root, to, srcPath)
    requires srcPath in src.tree && Lists(src.tree, entries, srcPath) && i < |entries|
    requires out.items == before + done
    requires CopyPlan(src.tree, done, root, to, Visited(src.tree, srcPath, entries, i))
    modifies out
    ensures r.Ok? ==>
              && out.items == before + added
              && CopyPlan(src.tree, added, root, to, Visited(src.tree, srcPath, entries, i + 1))
    ensures r.Err? ==> r.error == Io && src.faulty
    decreases |Region(src.tree, srcPath)|, 0, 0
  {
    var entry := entries[i];
    RebaseChild(root, to, srcPath, entry.name);
    ChildRegionIsSmaller(src.tree, srcPath, entry.name);
    r, added := WalkForCopy(src, entry.path, dstPath + [entry.name], out, root, to);
    if r.Ok? {
      OneMoreChildCopied(src.tree, srcPath, entries, i, done, added, root, to);
    }
    AppendTwice(before, done, added);
    added := done + added;
  }

  /** `walk_for_delete`: pushes exactly the subtree at path, children first. */
  method WalkForDelete(vfs: Backend, path: Path, out: Vec<DeleteItem>)
    returns (r: Result<()>, ghost added: seq<DeleteItem>)
    requires vfs.Valid()
    modifies out
    ensures r.Ok? ==>
              && path in vfs.tree
              && out.items == old(out.items) + added
              && DeletePlan(vfs.tree, added, Region(vfs.tree, path))
    ensures r.Err? ==> (r.error == Io && vfs.faulty) || (r.error == NotFound && path !in vfs.tree)
    decreases |Region(vfs.tree, path)|, 1
  {
    added := [];
    var stat := vfs.Stat(path);
    if stat.Err? {
      r := Err(stat.error);
      return;
    }
    var item := DeleteItem(path, stat.value);
    if stat.value.kind != Dir {
      out.Push(item);
      added := [item];
      RegionOfLeaf(vfs.tree, path);
      SingleDeletePlan(vfs.tree, item);
      r := Ok(());
      return;
    }
    var listed := vfs.ListDir(path);
    if listed.Err? {
      r := Err(listed.error);
      return;
    }
    ghost var more;
    r, more := WalkChildrenForDelete(vfs, path, listed.value, out);
    if r.Err? {
      return;
    }
    out.Push(item);
    added := more + [item];
    AppendTwice(old(out.items), more, [item]);
    DirectoryDeleted(vfs.tree, path, listed.value, item, more);
  }

  method WalkChildrenForDelete(vfs: Backend, path: Path, entries: seq<Meta>, out: Vec<DeleteItem>)
    returns (r: Result<()>, ghost added: seq<DeleteItem>)
    requires vfs.Valid() && path in vfs.tree && Lists(vfs.tree, entries, path)
    modifies out
    ensures r.Ok? ==>
              && out.items == old(out.items) + added
              && DeletePlan(vfs.tree, added, Visited(vfs.tree, path, entries, |entries|))
    ensures r.Err? ==> r.error == Io && vfs.faulty
    decreases |Region(vfs.tree, path)|, 0, 1
  {
    hide DeletePlan, Visited, Lists, WellFormed;
    ghost var t, before := vfs.tree, out.items;
    added := [];
    NothingListedYet(t, path, entries);
    EmptyDeletePlan(t);
    for i := 0 to |entries|
      invariant out.items == before + added
      invariant DeletePlan(t, added, Visited(t, path, entries, i))
    {
      r, added := WalkChildForDelete(vfs, path, entries, i, out, before, added);
      if r.Err? {
        return;
      }
    }
    r := Ok(());
  }

  method WalkChildForDelete(vfs: Backend, path: Path, entries: seq<Meta>, i: nat, out: Vec<DeleteItem>,
                            ghost before: seq<DeleteItem>, ghost done: seq<DeleteItem>)
    returns (r: Result<()>, ghost added: seq<DeleteItem>)
    requires vfs.Valid() && path in vfs.tree && Lists(vfs.tree, entries, path) && i < |entries|
    requires out.items == before + done
    requires DeletePlan(vfs.tree, done, Visited(vfs.tree, path, entries, i))
    modifies out
    ensures r.Ok? ==>
              && out.items == before + added
              && DeletePlan(vfs.tree, added, Visited(vfs.tree, path, entries, i + 1))
    ensures r.Err? ==> r.error == Io && vfs.faulty
    decreases |Region(vfs.tree, path)|, 0, 0
  {
    var entry := entries[i];
    ChildRegionIsSmaller(vfs.tree, path, entry.name);
    r, added := WalkForDelete(vfs, entry.path, out);
    if r.Ok? {
      OneMoreChildDeleted(vfs.tree, path, entries, i, done, added);
    }
    AppendTwice(before, done, added);
    added := done + added;
  }
}
