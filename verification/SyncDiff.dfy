/** The recursive diff proper, from two facing directories down to the plan. */
module SyncDiff {
  import opened Base
  import opened Trees
  import opened Backends
  import opened Plans
  import opened Walks
  import opened SyncSpec
  import opened SyncScope
  import opened SyncScan

  predicate SameShapeKinds(a: Kind, b: Kind) {
    (a.Dir? && b.Dir?) || (a.File? && b.File?) || (a.Symlink? && b.Symlink?) || (a.Other? && b.Other?)
  }

  /** The plan has grown by exactly what is owed in zc and doomed in zd. */
  ghost predicate Grown(plan: SyncPlan, copies0: seq<CopyItem>, deletes0: seq<DeleteItem>,
                        x: Scope, copies: seq<CopyItem>, zc: set<Path>, deletes: seq<DeleteItem>, zd: set<Path>)
    reads plan.copy, plan.delete
  {
    && plan.copy.items == copies0 + copies && x.SyncCopies(copies, zc)
    && plan.delete.items == deletes0 + deletes && DeletePlan(x.d, deletes, zd)
  }

  /** The source entry at p has no entry to face at e, or one of another shape. */
  predicate Mismatched(x: Scope, srcEntry: Meta, dstEntry: Option<Meta>, p: Path, e: Path) {
    && Describes(x.s, srcEntry, p)
    && match dstEntry
       case Some(m) => Describes(x.d, m, e) && !SameShapeKinds(srcEntry.kind, m.kind)
       case None => e !in x.d
  }

  lemma FullCopyIsOwed(x: Scope, srcEntry: Meta, dstEntry: Option<Meta>, p: Path, e: Path, added: seq<CopyItem>)
    requires x.Valid() && Facing(x, p, e) && Mismatched(x, srcEntry, dstEntry, p, e)
    requires CopyPlan(x.s, added, x.srcRoot, x.dstRoot, Region(x.s, p)) && ReplacesAtTop(added, p, dstEntry)
    ensures x.SyncCopies(added, x.OwedIn(p)) && x.DoomedIn(e) == {}
  {
    MismatchedShapes(x, srcEntry, dstEntry, p, e);
    hide Mismatched, Describes, SameShape, WellFormed;
    MismatchIsCopiedInFull(x, p, e);
    forall i | 0 <= i < |added|
      ensures x.ReplacesRightly(added[i])
    {
      assert SrcPaths(added)[i] in Region(x.s, p);
      assert PlannedCopy(x.s, added[i], x.srcRoot, x.dstRoot);
    }
  }

  lemma MismatchedShapes(x: Scope, srcEntry: Meta, dstEntry: Option<Meta>, p: Path, e: Path)
    requires Mismatched(x, srcEntry, dstEntry, p, e)
    ensures p in x.s && (e in x.d ==> !SameShape(x.s[p], x.d[e]))
    ensures if e in x.d then dstEntry.Some? && Describes(x.d, dstEntry.value, e) else dstEntry.None?
  {
  }

  /** A single step for two facing entries of the same shape, or none. */
  lemma LeafStepIsOwed(x: Scope, p: Path, e: Path, item: CopyItem)
    requires x.Valid() && Facing(x, p, e) && p in x.s && e in x.d
    requires SameShape(x.s[p], x.d[e]) && x.s[p] != Directory
    requires item.srcPath == p && item.dstPath == e && Describes(x.s, item.meta, p)
    requires if item.replaceExisting.Some? then x.Replacing(p) && Describes(x.d, item.replaceExisting.value, e)
             else !x.Replacing(p)
    ensures x.DoomedIn(e) == {}
    ensures x.Owed(p) ==> x.SyncCopies([item], x.OwedIn(p))
    ensures !x.Owed(p) ==> x.SyncCopies([], x.OwedIn(p))
  {
    LeafIsOwedAlone(x, p, e);
    SingleCopyPlan(x.s, item, x.srcRoot, x.dstRoot);
    EmptyCopyPlan(x.s, x.srcRoot, x.dstRoot);
  }

  lemma NothingToDo(x: Scope, copies0: seq<CopyItem>, deletes0: seq<DeleteItem>)
    ensures copies0 + [] == copies0 && deletes0 + [] == deletes0
    ensures x.SyncCopies([], {}) && DeletePlan(x.d, [], {})
  {
  }

  /** The source entry has no destination entry, or one of another shape. */
  method DiffMismatch(src: Backend, srcEntry: Meta, dstEntry: Option<Meta>, dstPath: Path,
                      plan: SyncPlan, ghost x: Scope)
    returns (r: Result<()>, ghost copies: seq<CopyItem>)
    requires src.tree == x.s && x.Valid()
    requires Facing(x, srcEntry.path, dstPath) && Mismatched(x, srcEntry, dstEntry, srcEntry.path, dstPath)
    modifies plan.copy, plan.delete
    ensures r.Ok? ==>
              Grown(plan, old(plan.copy.items), old(plan.delete.items), x,
                    copies, x.OwedIn(srcEntry.path), [], x.DoomedIn(dstPath))
    ensures r.Err? ==> r.error == Io && src.faulty
  {
    assert Describes(x.s, srcEntry, srcEntry.path);
    hide Mismatched, Describes, CopyPlan, DeletePlan, ReplacesAtTop, SameShapeKinds;
    NothingToDo(x, plan.copy.items, plan.delete.items);
    r, copies := PushFullCopy(src, srcEntry.path, dstPath, srcEntry, dstEntry, plan.copy, x.srcRoot, x.dstRoot);
    if r.Ok? {
      FullCopyIsOwed(x, srcEntry, dstEntry, srcEntry.path, dstPath, copies);
    }
  }

  /** Pushes the single step two facing non-directories may need. */
  method PushLeafStep(item: CopyItem, needed: bool, plan: SyncPlan, ghost x: Scope)
    returns (ghost copies: seq<CopyItem>)
    requires x.Valid() && Facing(x, item.srcPath, item.dstPath) && item.srcPath in x.s && item.dstPath in x.d
    requires SameShape(x.s[item.srcPath], x.d[item.dstPath]) && x.s[item.srcPath] != Directory
    requires Describes(x.s, item.meta, item.srcPath)
    requires if item.replaceExisting.Some?
             then x.Replacing(item.srcPath) && Describes(x.d, item.replaceExisting.value, item.dstPath)
             else !x.Replacing(item.srcPath)
    requires needed <==> x.Owed(item.srcPath)
    modifies plan.copy, plan.delete
    ensures Grown(plan, old(plan.copy.items), old(plan.delete.items), x,
                  copies, x.OwedIn(item.srcPath), [], x.DoomedIn(item.dstPath))
  {
    LeafStepIsOwed(x, item.srcPath, item.dstPath, item);
    NothingToDo(x, plan.copy.items, plan.delete.items);
    copies := [];
    if needed {
      plan.copy.Push(item);
      copies := [item];
    }
  }

  /** Facing links: replaced if they differ. */
  method DiffSymlinks(srcEntry: Meta, dstEntry: Meta, dstPath: Path, plan: SyncPlan, ghost x: Scope)
    returns (ghost copies: seq<CopyItem>)
    requires x.Valid() && Describes(x.s, srcEntry, srcEntry.path) && Facing(x, srcEntry.path, dstPath)
    requires Describes(x.d, dstEntry, dstPath) && srcEntry.kind.Symlink? && dstEntry.kind.Symlink?
    modifies plan.copy, plan.delete
    ensures Grown(plan, old(plan.copy.items), old(plan.delete.items), x,
                  copies, x.OwedIn(srcEntry.path), [], x.DoomedIn(dstPath))
  {
    OwedAt(x, srcEntry.path, dstPath);
    var replace := srcEntry.kind != dstEntry.kind;
    var item := CopyItem(srcEntry.path, dstPath, srcEntry, if replace then Some(dstEntry) else None);
    copies := PushLeafStep(item, replace, plan, x);
  }

  /** The comparison decides whether two facing files owe a copy. */
  lemma DecidedByComparison(src: Backend, dst: Backend, srcEntry: Meta, dstEntry: Meta, dstPath: Path, x: Scope)
    requires Scanning(src, dst, x)
    requires Describes(x.s, srcEntry, srcEntry.path) && Facing(x, srcEntry.path, dstPath)
    requires Describes(x.d, dstEntry, dstPath) && srcEntry.kind.File? && dstEntry.kind.File?
    requires srcEntry.modified == src.ModifiedAt(srcEntry.path) && dstEntry.modified == dst.ModifiedAt(dstPath)
    ensures !x.Replacing(srcEntry.path)
    ensures x.Owed(srcEntry.path) <==>
              FileDiffers(srcEntry.size, dstEntry.size, src.HashAt(srcEntry.path), dst.HashAt(dstEntry.path),
                          srcEntry.modified, dstEntry.modified)
  {
    hide WellFormed;
    OwedAt(x, srcEntry.path, dstPath);
    var q := srcEntry.path[|x.srcRoot|..];
    assert srcEntry.path == x.srcRoot + q && dstPath == x.dstRoot + q;
    assert q in x.changed <==> ChangedAt(src, dst, x, q);
  }

  /** Facing files: overwritten if the comparison rule says so. */
  method DiffFiles(src: Backend, dst: Backend, srcEntry: Meta, dstEntry: Meta, dstPath: Path,
                   plan: SyncPlan, ghost x: Scope)
    returns (r: Result<()>, ghost copies: seq<CopyItem>)
    requires Scanning(src, dst, x) && x.Valid()
    requires Describes(x.s, srcEntry, srcEntry.path) && Facing(x, srcEntry.path, dstPath)
    requires Describes(x.d, dstEntry, dstPath) && srcEntry.kind.File? && dstEntry.kind.File?
    requires srcEntry.modified == src.ModifiedAt(srcEntry.path) && dstEntry.modified == dst.ModifiedAt(dstPath)
    modifies plan.copy, plan.delete
    ensures r.Ok? ==>
              Grown(plan, old(plan.copy.items), old(plan.delete.items), x,
                    copies, x.OwedIn(srcEntry.path), [], x.DoomedIn(dstPath))
    ensures r.Err? ==> r.error == Io && (src.faulty || dst.faulty)
  {
    hide Grown, Facing, Scanning, WellFormed;
    copies := [];
    var differs := FileNeedsCopy(src, dst, srcEntry, dstEntry);
    if differs.Err? {
      r := Err(differs.error);
      return;
    }
    DecidedByComparison(src, dst, srcEntry, dstEntry, dstPath, x);
    var item := CopyItem(srcEntry.path, dstPath, srcEntry, None);
    copies := PushLeafStep(item, differs.value, plan, x);
    r := Ok(());
  }

  /** `diff_entry`: one name present on both sides. */
  method DiffEntry(src: Backend, dst: Backend, srcEntry: Meta, dstEntry: Meta, dstPath: Path,
                   deleteExtraneous: bool, plan: SyncPlan, ghost x: Scope)
    returns (r: Result<()>, ghost copies: seq<CopyItem>, ghost deletes: seq<DeleteItem>)
    requires Scanning(src, dst, x) && x.Valid() && x.deleteExtraneous == deleteExtraneous
    requires Describes(x.s, srcEntry, srcEntry.path) && Facing(x, srcEntry.path, dstPath)
    requires Describes(x.d, dstEntry, dstPath)
    requires srcEntry.modified == src.ModifiedAt(srcEntry.path) && dstEntry.modified == dst.ModifiedAt(dstPath)
    modifies plan.copy, plan.delete
    ensures r.Ok? ==>
              Grown(plan, old(plan.copy.items), old(plan.delete.items), x,
                    copies, x.OwedIn(srcEntry.path), deletes, x.DoomedIn(dstPath))
    ensures r.Err? ==> r.error == Io && (src.faulty || dst.faulty)
    decreases |Region(x.s, srcEntry.path)|, 4
  {
    hide Grown, Facing;
    copies, deletes := [], [];
    if !SameShapeKinds(srcEntry.kind, dstEntry.kind) {
      r, copies := DiffMismatch(src, srcEntry, Some(dstEntry), dstPath, plan, x);
      return;
    }
    match srcEntry.kind {
      case Dir =>
        assert x.s[srcEntry.path] == Directory && x.d[dstPath] == Directory;
        r, copies, deletes := DiffDir(src, dst, srcEntry.path, dstPath, deleteExtraneous, plan, x);
      case Symlink(_) =>
        copies := DiffSymlinks(srcEntry, dstEntry, dstPath, plan, x);
        r := Ok(());
      case File =>
        r, copies := DiffFiles(src, dst, srcEntry, dstEntry, dstPath, plan, x);
      case Other =>
        OwedAt(x, srcEntry.path, dstPath);
        copies := PushLeafStep(CopyItem(srcEntry.path, dstPath, srcEntry, None), false, plan, x);
        r := Ok(());
    }
  }

  // ---------- Directories ----------

  /** The destination entries by name, as collected into a map. */
  function IndexByName(ms: seq<Meta>, i: nat): map<Name, Meta>
    requires i <= |ms|
  {
    if i == 0 then map[] else IndexByName(ms, i - 1)[ms[i - 1].name := ms[i - 1]]
  }

  /** m holds the listed children of e whose names are not in `taken`. */
  ghost predicate Leftovers(t: Tree, e: Path, listed: seq<Meta>, taken: set<Name>, m: map<Name, Meta>) {
    && (forall n :: n in m <==> n in Names(listed) && n !in taken)
    && (forall n :: n in m ==> m[n] in listed && m[n].path == e + [n] && Describes(t, m[n], e + [n]))
  }

  lemma {:induction false} IndexHasAll(t: Tree, e: Path, listed: seq<Meta>, i: nat)
    requires Lists(t, listed, e) && i <= |listed|
    ensures forall n :: n in IndexByName(listed, i) <==> n in NamesUpTo(listed, i)
    ensures forall n :: n in IndexByName(listed, i) ==>
              var m := IndexByName(listed, i)[n]; m in listed && m.path == e + [n] && Describes(t, m, e + [n])
  {
    if i > 0 {
      IndexHasAll(t, e, listed, i - 1);
    }
  }

  lemma {:induction false} NamedIsChild(t: Tree, e: Path, listed: seq<Meta>, i: nat, n: Name)
    requires Lists(t, listed, e) && i <= |listed| && n in NamesUpTo(listed, i)
    ensures e + [n] in t
  {
    if listed[i - 1].name != n {
      NamedIsChild(t, e, listed, i - 1, n);
    }
  }

  predicate Timed(b: Backend, ms: seq<Meta>)
    reads b
  {
    forall m :: m in ms ==> m.modified == b.ModifiedAt(m.path)
  }

  ghost function OwedUpTo(x: Scope, p: Path, entries: seq<Meta>, i: nat): set<Path>
    requires i <= |entries|
  {
    x.OwedWithin(p, NamesUpTo(entries, i))
  }

  ghost function DoomedUpTo(x: Scope, e: Path, entries: seq<Meta>, i: nat): set<Path>
    requires i <= |entries|
  {
    x.DoomedWithin(e, NamesUpTo(entries, i))
  }

  lemma JoinSyncCopies(x: Scope, a: seq<CopyItem>, za: set<Path>, b: seq<CopyItem>, zb: set<Path>)
    requires x.SyncCopies(a, za) && x.SyncCopies(b, zb)
    requires forall p, q :: p in za && q in zb ==> !Covers(q, p)
    ensures x.SyncCopies(a + b, za + zb)
  {
    JoinCopyPlans(x.s, a, za, b, zb, x.srcRoot, x.dstRoot);
  }

  lemma OneMoreChildDiffed(x: Scope, p: Path, e: Path, entries: seq<Meta>, i: nat,
                           copies: seq<CopyItem>, moreCopies: seq<CopyItem>,
                           deletes: seq<DeleteItem>, moreDeletes: seq<DeleteItem>)
    requires i < |entries| && DistinctNames(entries)
    requires x.SyncCopies(copies, OwedUpTo(x, p, entries, i))
    requires x.SyncCopies(moreCopies, x.OwedIn(p + [entries[i].name]))
    requires DeletePlan(x.d, deletes, DoomedUpTo(x, e, entries, i))
    requires DeletePlan(x.d, moreDeletes, x.DoomedIn(e + [entries[i].name]))
    ensures x.SyncCopies(copies + moreCopies, OwedUpTo(x, p, entries, i + 1))
    ensures DeletePlan(x.d, deletes + moreDeletes, DoomedUpTo(x, e, entries, i + 1))
  {
    var names, n := NamesUpTo(entries, i), entries[i].name;
    NextName(entries, i);
    OneMoreOwed(x, p, names, n);
    JoinSyncCopies(x, copies, OwedUpTo(x, p, entries, i), moreCopies, x.OwedIn(p + [n]));
    OneMoreDoomed(x, e, names, n);
    JoinDeletePlans(x.d, deletes, DoomedUpTo(x, e, entries, i), moreDeletes, x.DoomedIn(e + [n]));
  }

  lemma NoChildDiffedYet(x: Scope, p: Path, e: Path, entries: seq<Meta>)
    ensures x.SyncCopies([], OwedUpTo(x, p, entries, 0))
    ensures DeletePlan(x.d, [], DoomedUpTo(x, e, entries, 0))
  {
  }

  /** Taking entry i out of the index leaves the leftovers of the first i + 1 names. */
  lemma OneMoreTaken(t: Tree, e: Path, listed: seq<Meta>, entries: seq<Meta>, i: nat, m: map<Name, Meta>)
    requires i < |entries| && Leftovers(t, e, listed, NamesUpTo(entries, i), m)
    ensures Leftovers(t, e, listed, NamesUpTo(entries, i + 1), m - {entries[i].name})
  {
  }

  /** `diff_dir`: diffs two facing directories, in any listing order, and hands the
      destination-only leftovers to `walk_for_delete`, in any order. */
  method DiffDir(src: Backend, dst: Backend, srcDir: Path, dstDir: Path,
                 deleteExtraneous: bool, plan: SyncPlan, ghost x: Scope)
    returns (r: Result<()>, ghost copies: seq<CopyItem>, ghost deletes: seq<DeleteItem>)
    requires Scanning(src, dst, x) && x.deleteExtraneous == deleteExtraneous
    requires Facing(x, srcDir, dstDir) && (x.Valid() || (srcDir == x.srcRoot && dstDir == x.dstRoot))
    modifies plan.copy, plan.delete
    ensures r.Ok? ==>
              && x.Valid()
              && Grown(plan, old(plan.copy.items), old(plan.delete.items), x,
                       copies, x.OwedIn(srcDir), deletes, x.DoomedIn(dstDir))
    ensures r.Err? ==>
              || (r.error == Io && (src.faulty || dst.faulty))
              || srcDir !in x.s || x.s[srcDir] != Directory || dstDir !in x.d || x.d[dstDir] != Directory
    decreases |Region(x.s, srcDir)|, 3
  {
    copies, deletes := [], [];
    var srcListed := src.ListDir(srcDir);
    if srcListed.Err? {
      r := Err(srcListed.error);
      return;
    }
    var dstListed := dst.ListDir(dstDir);
    if dstListed.Err? {
      r := Err(dstListed.error);
      return;
    }
    var dstByName;
    r, copies, deletes, dstByName :=
      DiffChildren(src, dst, srcDir, dstDir, srcListed.value, dstListed.value, deleteExtraneous, plan, x);
    if r.Err? {
      return;
    }
    ghost var srcNames := Names(srcListed.value);
    if deleteExtraneous {
      ghost var more, taken;
      r, more, taken := DeleteLeftovers(dst, srcDir, dstDir, dstByName, dstListed.value, srcListed.value,
                                        plan, x, old(plan.delete.items), deletes);
      if r.Err? {
        return;
      }
      deletes := more;
      DirectoriesOweTheirChildren(x, srcDir, dstDir, srcNames, taken);
    } else {
      NothingDoomed(x, dstDir, srcNames);
      DirectoriesOweTheirChildren(x, srcDir, dstDir, srcNames, ChildNames(x.d, dstDir));
    }
  }

  lemma NothingDoomed(x: Scope, e: Path, names: set<Name>)
    requires !x.deleteExtraneous
    ensures x.DoomedIn(e) == {} && x.DoomedWithin(e, names) == {}
  {
  }

  /** How things stand after the first i source entries: the plan has grown by
      their share, and the index holds the destination entries not met yet. */
  ghost predicate DiffedUpTo(plan: SyncPlan, copies0: seq<CopyItem>, deletes0: seq<DeleteItem>, x: Scope,
                             srcDir: Path, dstDir: Path, srcEntries: seq<Meta>, dstEntries: seq<Meta>, i: nat,
                             copies: seq<CopyItem>, deletes: seq<DeleteItem>, dstByName: map<Name, Meta>)
    requires i <= |srcEntries|
    reads plan.copy, plan.delete
  {
    && Grown(plan, copies0, deletes0, x, copies, OwedUpTo(x, srcDir, srcEntries, i),
             deletes, DoomedUpTo(x, dstDir, srcEntries, i))
    && Leftovers(x.d, dstDir, dstEntries, NamesUpTo(srcEntries, i), dstByName)
  }

  lemma NothingDiffedYet(plan: SyncPlan, x: Scope, srcDir: Path, dstDir: Path,
                         srcEntries: seq<Meta>, dstEntries: seq<Meta>)
    requires Lists(x.d, dstEntries, dstDir)
    ensures DiffedUpTo(plan, plan.copy.items, plan.delete.items, x, srcDir, dstDir, srcEntries, dstEntries, 0,
                       [], [], IndexByName(dstEntries, |dstEntries|))
  {
    hide DeletePlan, OwedUpTo, DoomedUpTo, x.SyncCopies, Lists;
    IndexHasAll(x.d, dstDir, dstEntries, |dstEntries|);
    NoChildDiffedYet(x, srcDir, dstDir, srcEntries);
  }

  /** Two facing directories with their listings. */
  ghost predicate BothListed(src: Backend, dst: Backend, x: Scope, srcDir: Path, dstDir: Path,
                             srcEntries: seq<Meta>, dstEntries: seq<Meta>)
    reads src, dst
  {
    && Scanning(src, dst, x) && x.Valid()
    && Facing(x, srcDir, dstDir) && srcDir in x.s
    && Lists(x.s, srcEntries, srcDir) && Timed(src, srcEntries)
    && Lists(x.d, dstEntries, dstDir) && Timed(dst, dstEntries)
  }

  lemma ListedDestination(src: Backend, dst: Backend, x: Scope, srcDir: Path, dstDir: Path,
                          srcEntries: seq<Meta>, dstEntries: seq<Meta>)
    requires BothListed(src, dst, x, srcDir, dstDir, srcEntries, dstEntries)
    ensures Lists(x.d, dstEntries, dstDir)
  {
  }

  method DiffChildren(src: Backend, dst: Backend, srcDir: Path, dstDir: Path,
                      srcEntries: seq<Meta>, dstEntries: seq<Meta>,
                      deleteExtraneous: bool, plan: SyncPlan, ghost x: Scope)
    returns (r: Result<()>, ghost copies: seq<CopyItem>, ghost deletes: seq<DeleteItem>, dstByName: map<Name, Meta>)
    requires BothListed(src, dst, x, srcDir, dstDir, srcEntries, dstEntries) && x.deleteExtraneous == deleteExtraneous
    modifies plan.copy, plan.delete
    ensures r.Ok? ==>
              DiffedUpTo(plan, old(plan.copy.items), old(plan.delete.items), x, srcDir, dstDir,
                         srcEntries, dstEntries, |srcEntries|, copies, deletes, dstByName)
    ensures r.Err? ==> r.error == Io && (src.faulty || dst.faulty)
    decreases |Region(x.s, srcDir)|, 2
  {
    hide DiffedUpTo, BothListed;
    copies, deletes := [], [];
    ghost var copies0, deletes0 := plan.copy.items, plan.delete.items;
    dstByName := IndexByName(dstEntries, |dstEntries|);
    ListedDestination(src, dst, x, srcDir, dstDir, srcEntries, dstEntries);
    NothingDiffedYet(plan, x, srcDir, dstDir, srcEntries, dstEntries);
    for i := 0 to |srcEntries|
      invariant DiffedUpTo(plan, copies0, deletes0, x, srcDir, dstDir, srcEntries, dstEntries, i,
                           copies, deletes, dstByName)
    {
      r, copies, deletes, dstByName :=
        DiffNext(src, dst, srcDir, dstDir, srcEntries, dstEntries, i, dstByName, deleteExtraneous, plan, x,
                 copies0, deletes0, copies, deletes);
      if r.Err? {
        return;
      }
    }
    r := Ok(());
  }

  method DiffNext(src: Backend, dst: Backend, srcDir: Path, dstDir: Path,
                  srcEntries: seq<Meta>, ghost dstEntries: seq<Meta>, i: nat, dstByName: map<Name, Meta>,
                  deleteExtraneous: bool, plan: SyncPlan, ghost x: Scope,
                  ghost copies0: seq<CopyItem>, ghost deletes0: seq<DeleteItem>,
                  ghost doneCopies: seq<CopyItem>, ghost doneDeletes: seq<DeleteItem>)
    returns (r: Result<()>, ghost copies: seq<CopyItem>, ghost deletes: seq<DeleteItem>, left: map<Name, Meta>)
    requires BothListed(src, dst, x, srcDir, dstDir, srcEntries, dstEntries) && x.deleteExtraneous == deleteExtraneous
    requires i < |srcEntries|
    requires DiffedUpTo(plan, copies0, deletes0, x, srcDir, dstDir, srcEntries, dstEntries, i,
                        doneCopies, doneDeletes, dstByName)
    modifies plan.copy, plan.delete
    ensures r.Ok? ==>
              DiffedUpTo(plan, copies0, deletes0, x, srcDir, dstDir, srcEntries, dstEntries, i + 1,
                         copies, deletes, left)
    ensures r.Err? ==> r.error == Io && (src.faulty || dst.faulty)
    decreases |Region(x.s, srcDir)|, 1
  {
    var entry := srcEntries[i];
    var found := if entry.name in dstByName then Some(dstByName[entry.name]) else None;
    MatchIsRight(x.d, dstDir, dstEntries, srcEntries, i, dstByName);
    OneMoreTaken(x.d, dstDir, dstEntries, srcEntries, i, dstByName);
    left := dstByName - {entry.name};
    r, copies, deletes := DiffFound(src, dst, srcDir, dstDir, entry, found, deleteExtraneous, plan, x);
    if r.Ok? {
      OneMoreChildDiffed(x, srcDir, dstDir, srcEntries, i, doneCopies, copies, doneDeletes, deletes);
      AppendTwice(copies0, doneCopies, copies);
      AppendTwice(deletes0, doneDeletes, deletes);
    }
    copies, deletes := doneCopies + copies, doneDeletes + deletes;
  }

  /** Looking entry i up among the leftovers finds exactly what faces it. */
  lemma MatchIsRight(t: Tree, e: Path, listed: seq<Meta>, entries: seq<Meta>, i: nat, m: map<Name, Meta>)
    requires i < |entries| && DistinctNames(entries) && Lists(t, listed, e)
    requires Leftovers(t, e, listed, NamesUpTo(entries, i), m)
    ensures entries[i].name !in m ==> e + [entries[i].name] !in t
    ensures entries[i].name in m ==>
              var found := m[entries[i].name];
              found in listed && Describes(t, found, e + [entries[i].name])
  {
    LaterNameIsNew(entries, i, i);
  }

  method DiffFound(src: Backend, dst: Backend, srcDir: Path, dstDir: Path, entry: Meta, found: Option<Meta>,
                   deleteExtraneous: bool, plan: SyncPlan, ghost x: Scope)
    returns (r: Result<()>, ghost copies: seq<CopyItem>, ghost deletes: seq<DeleteItem>)
    requires Scanning(src, dst, x) && x.Valid() && x.deleteExtraneous == deleteExtraneous
    requires Facing(x, srcDir, dstDir) && srcDir in x.s
    requires entry.path == srcDir + [entry.name] && Describes(x.s, entry, entry.path)
    requires entry.modified == src.ModifiedAt(entry.path)
    requires match found
             case None => dstDir + [entry.name] !in x.d
             case Some(m) => Describes(x.d, m, dstDir + [entry.name]) && m.modified == dst.ModifiedAt(m.path)
    modifies plan.copy, plan.delete
    ensures r.Ok? ==>
              Grown(plan, old(plan.copy.items), old(plan.delete.items), x,
                    copies, x.OwedIn(srcDir + [entry.name]), deletes, x.DoomedIn(dstDir + [entry.name]))
    ensures r.Err? ==> r.error == Io && (src.faulty || dst.faulty)
    decreases |Region(x.s, srcDir)|, 0
  {
    deletes := [];
    FacingChild(x, srcDir, dstDir, entry.name);
    ChildRegionIsSmaller(x.s, srcDir, entry.name);
    match found {
      case None =>
        r, copies := DiffMismatch(src, entry, None, dstDir + [entry.name], plan, x);
      case Some(m) =>
        r, copies, deletes := DiffEntry(src, dst, entry, m, dstDir + [entry.name], deleteExtraneous, plan, x);
    }
  }

  /** A leftover stands at the destination only, and has not been taken. */
  lemma LeftoverFacts(x: Scope, srcDir: Path, dstDir: Path, srcEntries: seq<Meta>, dstEntries: seq<Meta>,
                      taken: set<Name>, left: map<Name, Meta>, n: Name)
    requires Lists(x.s, srcEntries, srcDir) && Leftovers(x.d, dstDir, dstEntries, taken, left)
    requires Names(srcEntries) <= taken && n in left
    ensures n !in taken && srcDir + [n] !in x.s
    ensures left[n].path == dstDir + [n] && left[n].path in x.d
    ensures Leftovers(x.d, dstDir, dstEntries, taken + {n}, left - {n})
  {
  }

  lemma AllTaken(t: Tree, e: Path, listed: seq<Meta>, taken: set<Name>, left: map<Name, Meta>)
    requires Lists(t, listed, e) && Leftovers(t, e, listed, taken, left) && left.Keys == {}
    ensures forall n :: e + [n] in t ==> n in taken
  {
  }

  method DeleteLeftovers(dst: Backend, ghost srcDir: Path, dstDir: Path, dstByName: map<Name, Meta>,
                         ghost dstEntries: seq<Meta>, ghost srcEntries: seq<Meta>,
                         plan: SyncPlan, ghost x: Scope, ghost deletes0: seq<DeleteItem>, ghost done: seq<DeleteItem>)
    returns (r: Result<()>, ghost deletes: seq<DeleteItem>, ghost taken: set<Name>)
    requires dst.Valid() && dst.tree == x.d && x.Valid() && x.deleteExtraneous
    requires Facing(x, srcDir, dstDir) && srcDir in x.s && x.s[srcDir] == Directory
    requires Lists(x.s, srcEntries, srcDir) && Lists(x.d, dstEntries, dstDir)
    requires Leftovers(x.d, dstDir, dstEntries, Names(srcEntries), dstByName)
    requires plan.delete.items == deletes0 + done
    requires DeletePlan(x.d, done, DoomedUpTo(x, dstDir, srcEntries, |srcEntries|))
    modifies plan.delete
    ensures r.Ok? ==>
              && plan.delete.items == deletes0 + deletes
              && DeletePlan(x.d, deletes, x.DoomedWithin(dstDir, taken))
              && forall n :: dstDir + [n] in x.d ==> n in taken
    ensures r.Err? ==> r.error == Io && dst.faulty
  {
    hide DeletePlan, Facing, WellFormed, Lists, Leftovers;
    var left := dstByName;
    deletes, taken := done, Names(srcEntries);
    while left.Keys != {}
      invariant Names(srcEntries) <= taken
      invariant Leftovers(x.d, dstDir, dstEntries, taken, left)
      invariant plan.delete.items == deletes0 + deletes
      invariant DeletePlan(x.d, deletes, x.DoomedWithin(dstDir, taken))
      decreases |left|
    {
      var n :| n in left.Keys;
      LeftoverFacts(x, srcDir, dstDir, srcEntries, dstEntries, taken, left, n);
      r, deletes := DeleteLeftover(dst, srcDir, dstDir, n, left[n].path, plan, x, taken, deletes0, deletes);
      if r.Err? {
        return;
      }
      taken, left := taken + {n}, left - {n};
    }
    AllTaken(x.d, dstDir, dstEntries, taken, left);
    r := Ok(());
  }

  method DeleteLeftover(dst: Backend, ghost srcDir: Path, dstDir: Path, n: Name, path: Path, plan: SyncPlan,
                        ghost x: Scope, ghost taken: set<Name>, ghost deletes0: seq<DeleteItem>,
                        ghost done: seq<DeleteItem>)
    returns (r: Result<()>, ghost deletes: seq<DeleteItem>)
    requires dst.Valid() && dst.tree == x.d && x.Valid() && x.deleteExtraneous
    requires Facing(x, srcDir, dstDir) && srcDir in x.s && x.s[srcDir] == Directory && srcDir + [n] !in x.s
    requires path == dstDir + [n] && path in x.d && n !in taken
    requires plan.delete.items == deletes0 + done
    requires DeletePlan(x.d, done, x.DoomedWithin(dstDir, taken))
    modifies plan.delete
    ensures r.Ok? ==>
              && plan.delete.items == deletes0 + deletes
              && DeletePlan(x.d, deletes, x.DoomedWithin(dstDir, taken + {n}))
    ensures r.Err? ==> r.error == Io && dst.faulty
  {
    r, deletes := WalkForDelete(dst, path, plan.delete);
    if r.Ok? {
      LeftoverIsDoomed(x, srcDir, dstDir, n);
      OneMoreDoomed(x, dstDir, taken, n);
      JoinDeletePlans(x.d, done, x.DoomedWithin(dstDir, taken), deletes, x.DoomedIn(dstDir + [n]));
    }
    AppendTwice(deletes0, done, deletes);
    deletes := done + deletes;
  }
}
