/** `delete_job`: recursive deletion of several items through one flat plan. */
module DeleteJobs {
  import opened Base
  import opened Trees
  import opened Backends
  import opened Transports
  import opened Plans
  import opened Walks
  import opened Copying

  /** No item among the first n is, or lies above, another one. */
  predicate Incomparable(items: seq<Path>, n: nat)
    requires n <= |items|
  {
    forall i, j :: 0 <= i < n && 0 <= j < n && i != j ==> !Covers(items[i], items[j])
  }

  predicate HasDuplicate(ps: seq<Path>) {
    exists i, j :: 0 <= i < j < |ps| && ps[i] == ps[j]
  }

  /** Everything at or under the first n items. */
  function Regions(t: Tree, items: seq<Path>, n: nat): set<Path>
    requires n <= |items|
  {
    if n == 0 then {} else Regions(t, items, n - 1) + Region(t, items[n - 1])
  }

  lemma {:induction false} InRegions(t: Tree, items: seq<Path>, n: nat, q: Path)
    requires n <= |items|
    ensures q in Regions(t, items, n) <==> q in t && exists i :: 0 <= i < n && Covers(items[i], q)
  {
    if n > 0 {
      InRegions(t, items, n - 1, q);
    }
  }

  /** t without anything at or under an item. */
  function WithoutItems(t: Tree, items: seq<Path>): Tree {
    t - Regions(t, items, |items|)
  }

  /** u is t less every path that starts with an item. */
  ghost predicate OnlyItemsGone(t: Tree, u: Tree, items: seq<Path>) {
    && (forall q :: q in u ==> q in t && u[q] == t[q])
    && (forall q :: q in t ==> (q in u <==> forall i :: 0 <= i < |items| ==> !(items[i] <= q)))
  }

  lemma WithoutItemsByPaths(t: Tree, items: seq<Path>)
    ensures OnlyItemsGone(t, WithoutItems(t, items), items)
  {
    forall q | q in t
      ensures q in WithoutItems(t, items) <==> forall i :: 0 <= i < |items| ==> !(items[i] <= q)
    {
      InRegions(t, items, |items|, q);
    }
  }

  /** What scanning the first n items yields: a proper delete plan if they are
      incomparable, and a plan that names some path twice if they are not. */
  predicate ScannedDeletes(t: Tree, items: seq<Path>, n: nat, plan: seq<DeleteItem>)
    requires n <= |items|
  {
    if Incomparable(items, n) then DeletePlan(t, plan, Regions(t, items, n))
    else HasDuplicate(DeletePaths(plan))
  }

  lemma DuplicateStays(a: seq<Path>, b: seq<Path>)
    requires HasDuplicate(a)
    ensures HasDuplicate(a + b)
  {
    var i, j :| 0 <= i < j < |a| && a[i] == a[j];
    assert (a + b)[i] == (a + b)[j];
  }

  lemma DuplicateAcross(a: seq<Path>, b: seq<Path>, p: Path)
    requires p in a && p in b
    ensures HasDuplicate(a + b)
  {
    var i :| 0 <= i < |a| && a[i] == p;
    var j :| 0 <= j < |b| && b[j] == p;
    assert (a + b)[i] == p && (a + b)[|a| + j] == p;
  }

  lemma RegionsDoNotCover(t: Tree, items: seq<Path>, n: nat)
    requires n < |items| && Incomparable(items, n + 1)
    ensures forall p, q :: p in Regions(t, items, n) && q in Region(t, items[n]) ==> !Covers(p, q)
  {
    forall p, q | p in Regions(t, items, n) && q in Region(t, items[n])
      ensures !Covers(p, q)
    {
      InRegions(t, items, n, p);
      var i :| 0 <= i < n && Covers(items[i], p);
      if Covers(p, q) {
        CoversTransitive(items[i], p, q);
        AncestorsAreComparable(items[i], items[n], q);
      }
    }
  }

  lemma OneMoreItemScanned(t: Tree, items: seq<Path>, n: nat, plan: seq<DeleteItem>, more: seq<DeleteItem>)
    requires n < |items| && ScannedDeletes(t, items, n, plan)
    requires forall i :: 0 <= i <= n ==> items[i] in t
    requires DeletePlan(t, more, Region(t, items[n]))
    ensures ScannedDeletes(t, items, n + 1, plan + more)
  {
    assert DeletePaths(plan + more) == DeletePaths(plan) + DeletePaths(more);
    if Incomparable(items, n + 1) {
      RegionsDoNotCover(t, items, n);
      JoinDeletePlans(t, plan, Regions(t, items, n), more, Region(t, items[n]));
    } else if !Incomparable(items, n) {
      DuplicateStays(DeletePaths(plan), DeletePaths(more));
    } else {
      var i :| 0 <= i < n && (Covers(items[i], items[n]) || Covers(items[n], items[i]));
      var p := if Covers(items[i], items[n]) then items[n] else items[i];
      InRegions(t, items, n, p);
      DuplicateAcross(DeletePaths(plan), DeletePaths(more), p);
    }
  }

  // ---------- The deletions ----------

  function Gone(plan: seq<DeleteItem>, k: nat): set<Path>
    requires k <= |plan|
  {
    if k == 0 then {} else Gone(plan, k - 1) + {plan[k - 1].path}
  }

  lemma {:induction false} GoneHas(plan: seq<DeleteItem>, k: nat, p: Path)
    requires k <= |plan|
    ensures p in Gone(plan, k) <==> exists i :: 0 <= i < k && plan[i].path == p
  {
    if k > 0 {
      GoneHas(plan, k - 1, p);
    }
  }

  /** Each of the first k steps named a path no earlier step named. */
  predicate AllFresh(plan: seq<DeleteItem>, k: nat)
    requires k <= |plan|
  {
    forall i :: 0 <= i < k ==> plan[i].path !in Gone(plan, i)
  }

  lemma FreshMeansNoDuplicate(plan: seq<DeleteItem>)
    requires AllFresh(plan, |plan|)
    ensures !HasDuplicate(DeletePaths(plan))
  {
    forall i, j | 0 <= i < j < |plan|
      ensures plan[i].path != plan[j].path
    {
      GoneHas(plan, j, plan[i].path);
    }
  }

  /** What is still there below a planned directory is planned for later, and so
      not below it: every step of a proper plan meets an empty directory. */
  lemma NothingBelow(t: Tree, plan: seq<DeleteItem>, z: set<Path>, k: nat, q: Path)
    requires DeletePlan(t, plan, z) && k < |plan| && q in z && q !in Gone(plan, k)
    ensures !Ancestor(plan[k].path, q)
  {
    hide Gone, Describes;
    var ps := DeletePaths(plan);
    var i :| 0 <= i < |plan| && ps[i] == q;
    GoneHas(plan, k, q);
    assert ps[k] == plan[k].path && i >= k;
  }

  lemma NotYetGone(t: Tree, plan: seq<DeleteItem>, z: set<Path>, k: nat)
    requires DeletePlan(t, plan, z) && k < |plan|
    ensures plan[k].path in z && plan[k].path !in Gone(plan, k) && Describes(t, plan[k].meta, plan[k].path)
  {
    GoneHas(plan, k, plan[k].path);
    assert DeletePaths(plan)[k] == plan[k].path;
    forall i | 0 <= i < k
      ensures plan[i].path != plan[k].path
    {
      assert !Covers(DeletePaths(plan)[i], DeletePaths(plan)[k]);
    }
  }

  lemma BelowIsPlanned(t: Tree, items: seq<Path>, p: Path, q: Path)
    requires p in Regions(t, items, |items|) && Ancestor(p, q) && q in t
    ensures q in Regions(t, items, |items|)
  {
    InRegions(t, items, |items|, p);
    var j :| 0 <= j < |items| && Covers(items[j], p);
    CoversTransitive(items[j], p, q);
    InRegions(t, items, |items|, q);
  }

  lemma PlannedIsBelowRoot(t: Tree, items: seq<Path>, p: Path)
    requires [] !in items && p in Regions(t, items, |items|)
    ensures p in t && p != []
  {
    InRegions(t, items, |items|, p);
  }

  /** Every step of a proper plan is enabled when its turn comes. */
  lemma PlannedDeletionEnabled(t: Tree, items: seq<Path>, plan: seq<DeleteItem>, k: nat)
    requires WellFormed(t) && DeletePlan(t, plan, Regions(t, items, |items|)) && k < |plan|
    requires [] !in items
    ensures DeleteEnabled(t - Gone(plan, k), plan[k])
  {
    hide DeletePlan, Gone, Regions, WellFormed;
    var p, z := plan[k].path, Regions(t, items, |items|);
    NotYetGone(t, plan, z, k);
    PlannedIsBelowRoot(t, items, p);
    forall q | q in t - Gone(plan, k)
      ensures !Ancestor(p, q)
    {
      if Ancestor(p, q) {
        BelowIsPlanned(t, items, p, q);
        NothingBelow(t, plan, z, k, q);
      }
    }
  }

  lemma AllGone(t: Tree, plan: seq<DeleteItem>, z: set<Path>)
    requires DeletePlan(t, plan, z)
    ensures Gone(plan, |plan|) == z
  {
    forall p | p in z
      ensures p in Gone(plan, |plan|)
    {
      var i :| 0 <= i < |plan| && DeletePaths(plan)[i] == p;
      GoneHas(plan, |plan|, p);
    }
    forall p | p in Gone(plan, |plan|)
      ensures p in z
    {
      GoneHas(plan, |plan|, p);
      var i :| 0 <= i < |plan| && plan[i].path == p;
      assert DeletePaths(plan)[i] == p;
    }
  }

  /** A proper plan has one step for each path. */
  lemma {:induction false} OneStepEach(ps: seq<Path>, z: set<Path>)
    requires Enumerates(ps, z) && ChildrenFirst(ps)
    ensures |ps| == |z|
    decreases |ps|
  {
    if ps == [] {
      assert z == {};
    } else {
      var init, last := ps[..|ps| - 1], ps[|ps| - 1];
      forall i | 0 <= i < |init|
        ensures init[i] != last
      {
        assert !Covers(ps[i], ps[|ps| - 1]);
      }
      forall q | q in z - {last}
        ensures q in init
      {
        var i :| 0 <= i < |ps| && ps[i] == q;
        assert init[i] == q;
      }
      forall i, j | 0 <= i < j < |init|
        ensures !Covers(init[i], init[j])
      {
        assert !Covers(ps[i], ps[j]);
      }
      OneStepEach(init, z - {last});
    }
  }

  /** Every planned path lies at or under an item. */
  predicate AllWithin(items: seq<Path>, plan: seq<DeleteItem>) {
    forall i :: 0 <= i < |plan| ==> exists j :: 0 <= j < |items| && Covers(items[j], plan[i].path)
  }

  /** Only entries at or under an item are missing from u, and nothing changed. */
  ghost predicate ShrunkWithin(t: Tree, u: Tree, items: seq<Path>) {
    && (forall q :: q in u ==> q in t && u[q] == t[q])
    && (forall q :: q in t && q !in u ==> exists i :: 0 <= i < |items| && Covers(items[i], q))
  }

  method ScanForDelete(vfs: Backend, items: seq<Path>) returns (r: Result<()>, out: Vec<DeleteItem>)
    requires vfs.Valid()
    ensures fresh(out)
    ensures r.Ok? ==> ScannedDeletes(vfs.tree, items, |items|, out.items) && AllWithin(items, out.items)
    ensures r.Err? ==>
              (r.error == Io && vfs.faulty) || (r.error == NotFound && exists p :: p in items && p !in vfs.tree)
  {
    out := new Vec();
    EmptyDeletePlan(vfs.tree);
    for n := 0 to |items|
      invariant ScannedDeletes(vfs.tree, items, n, out.items) && AllWithin(items, out.items)
      invariant forall i :: 0 <= i < n ==> items[i] in vfs.tree
    {
      r := ScanItem(vfs, items, n, out);
      if r.Err? {
        return;
      }
    }
    r := Ok(());
  }

  method ScanItem(vfs: Backend, items: seq<Path>, n: nat, out: Vec<DeleteItem>) returns (r: Result<()>)
    requires vfs.Valid() && n < |items| && ScannedDeletes(vfs.tree, items, n, out.items) && AllWithin(items, out.items)
    requires forall i :: 0 <= i < n ==> items[i] in vfs.tree
    modifies out
    ensures r.Ok? ==>
              && items[n] in vfs.tree
              && ScannedDeletes(vfs.tree, items, n + 1, out.items) && AllWithin(items, out.items)
    ensures r.Err? ==> (r.error == Io && vfs.faulty) || (r.error == NotFound && items[n] !in vfs.tree)
  {
    ghost var added;
    ghost var before := out.items;
    r, added := WalkForDelete(vfs, items[n], out);
    if r.Ok? {
      OneMoreItemScanned(vfs.tree, items, n, before, added);
      StillWithin(vfs.tree, items, n, before, added);
    }
  }

  lemma StillWithin(t: Tree, items: seq<Path>, n: nat, before: seq<DeleteItem>, added: seq<DeleteItem>)
    requires n < |items| && AllWithin(items, before) && DeletePlan(t, added, Region(t, items[n]))
    ensures AllWithin(items, before + added)
  {
    forall i | 0 <= i < |added|
      ensures Covers(items[n], added[i].path)
    {
      assert DeletePaths(added)[i] in Region(t, items[n]);
    }
  }

  /** `delete_job`. It can complete only on incomparable items, and then removes
      exactly their subtrees. On incomparable existing items other than the root,
      nothing but the environment or the user stops it: no directory is removed
      before it is empty. Wherever it stops, the tree is well-formed and only
      entries under the items are missing. */
  method DeleteJob(vfs: Backend, items: seq<Path>, cancel: CancellationToken)
    returns (r: Result<()>, progress: JobProgress)
    requires vfs.Valid()
    modifies vfs, cancel
    ensures vfs.Valid() && fresh(progress) && progress.Valid()
    ensures r.Ok? ==> Incomparable(items, |items|) && vfs.tree == WithoutItems(old(vfs.tree), items)
    ensures r.Ok? ==> OnlyItemsGone(old(vfs.tree), vfs.tree, items)
    ensures r.Ok? ==> progress.filesDone == progress.filesTotal == |Regions(old(vfs.tree), items, |items|)|
    ensures r.Err? ==>
              || (r.error == Cancelled && cancel.cancelled)
              || (r.error == Io && vfs.faulty)
              || !Incomparable(items, |items|) || [] in items || exists p :: p in items && p !in old(vfs.tree)
    ensures ShrunkWithin(old(vfs.tree), vfs.tree, items)
  {
    var plan;
    r, plan := ScanForDelete(vfs, items);
    progress := new JobProgress(if r.Ok? then |plan.items| else 0, 0);
    if r.Err? {
      return;
    }
    WithoutItemsByPaths(vfs.tree, items);
    r := RunDeletes(vfs, items, plan.items, cancel, progress);
  }

  method RunDeletes(vfs: Backend, ghost items: seq<Path>, plan: seq<DeleteItem>, cancel: CancellationToken,
                    progress: JobProgress)
    returns (r: Result<()>)
    requires vfs.Valid() && progress.Valid() && progress.filesDone == 0
    requires ScannedDeletes(vfs.tree, items, |items|, plan) && AllWithin(items, plan)
    modifies vfs, cancel, progress`filesDone, progress`reports, progress`currentFile
    ensures vfs.Valid() && progress.Valid()
    ensures r.Ok? ==> Incomparable(items, |items|) && vfs.tree == WithoutItems(old(vfs.tree), items)
    ensures r.Ok? ==> progress.filesDone == |plan| == |Regions(old(vfs.tree), items, |items|)|
    ensures r.Err? ==>
              || (r.error == Cancelled && cancel.cancelled)
              || (r.error == Io && vfs.faulty)
              || !Incomparable(items, |items|) || [] in items
    ensures ShrunkWithin(old(vfs.tree), vfs.tree, items)
  {
    hide ScannedDeletes, AllWithin, AllFresh, Incomparable, ShrunkWithin, WithoutItems;
    ghost var t := vfs.tree;
    StoppedAfter(t, items, plan, 0);
    assert t - Gone(plan, 0) == t;
    NothingFreshYet(plan);
    for k := 0 to |plan|
      invariant vfs.Valid() && progress.Valid() && progress.filesDone == k
      invariant vfs.tree == t - Gone(plan, k) && AllFresh(plan, k)
      invariant ShrunkWithin(t, vfs.tree, items)
    {
      var stop := cancel.IsCancelled();
      if stop {
        r := Err(Cancelled);
        return;
      }
      progress.currentFile := Some(plan[k].path);
      r := RunDelete(vfs, items, plan, k, t);
      if r.Err? {
        return;
      }
      progress.CountFile();
    }
    EverythingDeleted(t, items, plan);
    r := Ok(());
  }

  lemma NothingFreshYet(plan: seq<DeleteItem>)
    ensures AllFresh(plan, 0)
  {
  }

  lemma StoppedAfter(t: Tree, items: seq<Path>, plan: seq<DeleteItem>, k: nat)
    requires k <= |plan| && AllWithin(items, plan)
    ensures ShrunkWithin(t, t - Gone(plan, k), items)
  {
  }

  lemma EverythingDeleted(t: Tree, items: seq<Path>, plan: seq<DeleteItem>)
    requires ScannedDeletes(t, items, |items|, plan) && AllFresh(plan, |plan|)
    ensures Incomparable(items, |items|) && t - Gone(plan, |plan|) == WithoutItems(t, items)
    ensures |plan| == |Regions(t, items, |items|)|
  {
    FreshMeansNoDuplicate(plan);
    OneStepEach(DeletePaths(plan), Regions(t, items, |items|));
    AllGone(t, plan, Regions(t, items, |items|));
  }

  lemma DeletionEnabled(t: Tree, items: seq<Path>, plan: seq<DeleteItem>, k: nat)
    requires WellFormed(t) && ScannedDeletes(t, items, |items|, plan) && k < |plan|
    ensures Incomparable(items, |items|) && [] !in items ==> DeleteEnabled(t - Gone(plan, k), plan[k])
  {
    hide Incomparable, DeleteEnabled, Gone, DeletePlan;
    if Incomparable(items, |items|) && [] !in items {
      PlannedDeletionEnabled(t, items, plan, k);
    }
  }

  lemma DeletionMade(t: Tree, plan: seq<DeleteItem>, k: nat)
    requires k < |plan| && WellFormed(t - Gone(plan, k)) && AllFresh(plan, k)
    requires DeleteEnabled(t - Gone(plan, k), plan[k])
    ensures Prune(t - Gone(plan, k), plan[k].path) == t - Gone(plan, k + 1)
    ensures AllFresh(plan, k + 1)
  {
    hide WellFormed, Covers, Gone;
    var before := t - Gone(plan, k);
    RemoveKeepsWellFormed(before, plan[k].path);
    GoneOneMore(t, plan, k);
  }

  lemma GoneOneMore(t: Tree, plan: seq<DeleteItem>, k: nat)
    requires k < |plan|
    ensures t - Gone(plan, k) - {plan[k].path} == t - Gone(plan, k + 1)
  {
  }

  method RunDelete(vfs: Backend, ghost items: seq<Path>, plan: seq<DeleteItem>, k: nat, ghost t: Tree)
    returns (r: Result<()>)
    requires vfs.Valid() && WellFormed(t) && k < |plan| && vfs.tree == t - Gone(plan, k) && AllFresh(plan, k)
    requires ScannedDeletes(t, items, |items|, plan) && AllWithin(items, plan)
    modifies vfs
    ensures vfs.Valid()
    ensures r.Ok? ==> vfs.tree == t - Gone(plan, k + 1) && AllFresh(plan, k + 1)
    ensures r.Err? ==> vfs.tree == old(vfs.tree)
    ensures r.Err? ==> (r.error == Io && vfs.faulty) || !Incomparable(items, |items|) || [] in items
    ensures ShrunkWithin(t, vfs.tree, items)
  {
    hide AllWithin, Incomparable, ShrunkWithin, ScannedDeletes, AllFresh, DeleteEnabled, Gone, Prune, WellFormed;
    DeletionEnabled(t, items, plan, k);
    StoppedAfter(t, items, plan, k);
    r := ApplyDeleteItem(vfs, plan[k]);
    if r.Ok? {
      DeletionMade(t, plan, k);
      StoppedAfter(t, items, plan, k + 1);
    }
  }
}
