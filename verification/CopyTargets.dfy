/** Where the items of a copy job go, and the flat plan that scanning them yields. */
module CopyTargets {
  import opened Trees
  import opened Backends
  import opened Plans

  // ---------- Where the items go ----------

  function Target(destDir: Path, item: Path): Path {
    if item == [] then destDir else destDir + [item[|item| - 1]]
  }

  /** An item named n goes to destDir under that name, and what lies below it, on the
      way q, to the same way below. */
  lemma PlaceOf(destDir: Path, p: Path, n: Name, q: Path)
    ensures Target(destDir, p + [n]) == destDir + [n]
    ensures Covers(p + [n], p + [n] + q)
    ensures Rebase(p + [n], Target(destDir, p + [n]), p + [n] + q) == destDir + [n] + q
  {
    assert (p + [n])[|p|] == n;
    assert (p + [n] + q)[|p + [n]|..] == q;
  }

  /** The subtree v, with its paths below `to`. */
  function Graft(v: Tree, to: Path): (g: Tree)
    ensures forall q :: q in g <==> Covers(to, q) && q[|to|..] in v
    ensures forall q :: q in g ==> Covers(to, q) && q[|to|..] in v && g[q] == v[q[|to|..]]
  {
    var below := set r | r in v :: to + r;
    assert forall q :: q in below <==> Covers(to, q) && q[|to|..] in v by {
      forall q | q in below
        ensures Covers(to, q) && q[|to|..] in v
      {
        var r :| r in v && q == to + r;
        assert q[|to|..] == r;
      }
      forall q | Covers(to, q) && q[|to|..] in v
        ensures q in below
      {
        assert q == to + q[|to|..];
      }
    }
    map q | q in below :: v[q[|to|..]]
  }

  /** The entries one item should leave under destDir. */
  function Placed(t: Tree, item: Path, destDir: Path): Tree {
    Graft(View(t, item), Target(destDir, item))
  }

  /** The entries the first n items should leave under destDir. */
  function Wanted(t: Tree, items: seq<Path>, destDir: Path, n: nat): Tree
    requires n <= |items|
  {
    if n == 0 then map[]
    else Wanted(t, items, destDir, n - 1) + Placed(t, items[n - 1], destDir)
  }

  /** The first n items have file names, all different. */
  predicate NamedApart(items: seq<Path>, n: nat)
    requires n <= |items|
  {
    && (forall i :: 0 <= i < n ==> items[i] != [])
    && (forall i, j :: 0 <= i < j < n ==> items[i][|items[i]| - 1] != items[j][|items[j]| - 1])
  }

  lemma TargetsApart(destDir: Path, a: Path, b: Path, p: Path, q: Path)
    requires a != [] && b != [] && a[|a| - 1] != b[|b| - 1]
    requires Covers(Target(destDir, a), p) && Covers(Target(destDir, b), q)
    ensures !Covers(p, q)
  {
    assert p[|destDir|] == a[|a| - 1] && q[|destDir|] == b[|b| - 1];
  }

  /** The source path that q, at or under an item's target, stands for. */
  function Original(item: Path, destDir: Path, q: Path): Path
    requires Covers(Target(destDir, item), q)
  {
    Rebase(Target(destDir, item), item, q)
  }

  predicate StandsFor(t: Tree, item: Path, destDir: Path, q: Path) {
    Covers(Target(destDir, item), q) && Original(item, destDir, q) in t
  }

  lemma GraftedAt(t: Tree, item: Path, destDir: Path, q: Path)
    ensures q in Placed(t, item, destDir) <==> StandsFor(t, item, destDir, q)
    ensures StandsFor(t, item, destDir, q) ==>
              Placed(t, item, destDir)[q] == t[Original(item, destDir, q)]
  {
  }

  /** q is wanted exactly if it stands for an entry at or under one of the items. */
  lemma {:induction false} InWanted(t: Tree, items: seq<Path>, destDir: Path, n: nat, q: Path)
    requires n <= |items|
    ensures q in Wanted(t, items, destDir, n) <==> exists i :: 0 <= i < n && StandsFor(t, items[i], destDir, q)
  {
    hide StandsFor, Target, Placed;
    if n > 0 {
      InWanted(t, items, destDir, n - 1, q);
      GraftedAt(t, items[n - 1], destDir, q);
    }
  }

  /** Items with different names do not hide each other. */
  lemma {:induction false} WantedAt(t: Tree, items: seq<Path>, destDir: Path, n: nat, i: nat, q: Path)
    requires i < n <= |items| && NamedApart(items, n) && StandsFor(t, items[i], destDir, q)
    ensures q in Wanted(t, items, destDir, n) && Wanted(t, items, destDir, n)[q] == t[Original(items[i], destDir, q)]
  {
    hide Original, Target, Placed;
    GraftedAt(t, items[n - 1], destDir, q);
    if i < n - 1 {
      WantedAt(t, items, destDir, n - 1, i, q);
      if StandsFor(t, items[n - 1], destDir, q) {
        TargetsApart(destDir, items[i], items[n - 1], q, q);
      }
    }
  }

  // ---------- The plan ----------

  function DstPaths(plan: seq<CopyItem>): (ps: seq<Path>)
    ensures |ps| == |plan|
  {
    seq(|plan|, i requires 0 <= i < |plan| => plan[i].dstPath)
  }

  predicate StepFor(t: Tree, it: CopyItem, want: Tree) {
    Describes(t, it.meta, it.srcPath) && it.dstPath in want && want[it.dstPath] == t[it.srcPath]
  }

  /** The steps create exactly the wanted entries, each once, parents first. */
  predicate JobPlan(t: Tree, plan: seq<CopyItem>, want: Tree) {
    && (forall i :: 0 <= i < |plan| ==> StepFor(t, plan[i], want))
    && Enumerates(DstPaths(plan), want.Keys)
    && ParentsFirst(DstPaths(plan))
  }

  lemma WalkGrafts(t: Tree, plan: seq<CopyItem>, item: Path, to: Path)
    requires CopyPlan(t, plan, item, to, Region(t, item))
    ensures JobPlan(t, plan, Graft(View(t, item), to))
  {
    hide StepFor, ParentsFirst, Enumerates, PlannedCopy;
    var want := Graft(View(t, item), to);
    forall i | 0 <= i < |plan|
      ensures StepFor(t, plan[i], want) && plan[i].dstPath in want
    {
      WalkedStep(t, plan[i], item, to);
    }
    WalkCoversAll(t, plan, item, to);
    WalkInOrder(t, plan, item, to);
  }

  lemma WalkInOrder(t: Tree, plan: seq<CopyItem>, item: Path, to: Path)
    requires CopyPlan(t, plan, item, to, Region(t, item))
    ensures ParentsFirst(DstPaths(plan))
  {
    hide Enumerates, Describes, Rebase;
    forall i, j | 0 <= i < j < |plan|
      ensures !Covers(DstPaths(plan)[j], DstPaths(plan)[i])
    {
      RebaseCovers(item, to, plan[j].srcPath, plan[i].srcPath);
      assert !Covers(SrcPaths(plan)[j], SrcPaths(plan)[i]);
    }
  }

  lemma WalkCoversAll(t: Tree, plan: seq<CopyItem>, item: Path, to: Path)
    requires CopyPlan(t, plan, item, to, Region(t, item))
    ensures Enumerates(DstPaths(plan), Graft(View(t, item), to).Keys)
  {
    hide ParentsFirst, Describes;
    forall i | 0 <= i < |plan|
      ensures DstPaths(plan)[i] in Graft(View(t, item), to)
    {
      WalkedStep(t, plan[i], item, to);
    }
    forall q | q in Graft(View(t, item), to)
      ensures q in DstPaths(plan)
    {
      WalkReaches(t, plan, item, to, q);
    }
  }

  lemma WalkReaches(t: Tree, plan: seq<CopyItem>, item: Path, to: Path, q: Path)
    requires CopyPlan(t, plan, item, to, Region(t, item)) && q in Graft(View(t, item), to)
    ensures q in DstPaths(plan)
  {
    hide ParentsFirst, Describes;
    var p := item + q[|to|..];
    assert p in Region(t, item);
    var i :| 0 <= i < |plan| && SrcPaths(plan)[i] == p;
    assert p[|item|..] == q[|to|..] && q == to + q[|to|..];
    assert DstPaths(plan)[i] == q;
  }

  lemma WalkedStep(t: Tree, it: CopyItem, item: Path, to: Path)
    requires PlannedCopy(t, it, item, to)
    ensures StepFor(t, it, Graft(View(t, item), to)) && it.dstPath in Graft(View(t, item), to)
  {
    assert it.srcPath == item + it.srcPath[|item|..];
    assert it.dstPath[|to|..] == it.srcPath[|item|..];
  }

  lemma RebaseCovers(root: Path, to: Path, p: Path, q: Path)
    requires Covers(root, p) && Covers(root, q)
    ensures Covers(Rebase(root, to, p), Rebase(root, to, q)) <==> Covers(p, q)
  {
    CoversShift(to, p[|root|..], q[|root|..]);
    CoversShift(root, p[|root|..], q[|root|..]);
    assert p == root + p[|root|..] && q == root + q[|root|..];
  }

  lemma JoinJobPlans(t: Tree, a: seq<CopyItem>, wa: Tree, b: seq<CopyItem>, wb: Tree)
    requires JobPlan(t, a, wa) && JobPlan(t, b, wb)
    requires forall p, q :: p in wa && q in wb ==> !Covers(q, p)
    ensures JobPlan(t, a + b, wa + wb)
  {
    hide ParentsFirst, Enumerates, Describes;
    assert DstPaths(a + b) == DstPaths(a) + DstPaths(b);
    JoinEnumerations(DstPaths(a), wa.Keys, DstPaths(b), wb.Keys);
    JoinParentsFirst(DstPaths(a), wa.Keys, DstPaths(b), wb.Keys);
    assert (wa + wb).Keys == wa.Keys + wb.Keys;
    forall p | p in wa
      ensures p !in wb
    {
      assert Covers(p, p);
    }
    forall i | 0 <= i < |a + b|
      ensures StepFor(t, (a + b)[i], wa + wb)
    {
      assert StepFor(t, (a + b)[i], if i < |a| then wa else wb);
    }
  }

  predicate PlannedFor(t: Tree, items: seq<Path>, destDir: Path, it: CopyItem) {
    exists i :: 0 <= i < |items| && PlannedCopy(t, it, items[i], Target(destDir, items[i]))
  }

  /** Each step copies an entry at or under an item to its place under the target. */
  predicate AllPlanned(t: Tree, items: seq<Path>, destDir: Path, plan: seq<CopyItem>) {
    forall k :: 0 <= k < |plan| ==> PlannedFor(t, items, destDir, plan[k])
  }

  /** The plan is the walks of the first n items, one after the other. */
  ghost predicate WalkedInTurn(t: Tree, items: seq<Path>, destDir: Path, n: nat, plan: seq<CopyItem>)
    requires n <= |items|
  {
    if n == 0 then plan == []
    else exists cut :: 0 <= cut <= |plan| && WalkedUpTo(t, items, destDir, n, plan, cut)
  }

  /** The last of the n walks begins at the cut. */
  ghost predicate WalkedUpTo(t: Tree, items: seq<Path>, destDir: Path, n: nat, plan: seq<CopyItem>, cut: nat)
    requires 0 < n <= |items| && cut <= |plan|
  {
    && WalkedInTurn(t, items, destDir, n - 1, plan[..cut])
    && CopyPlan(t, plan[cut..], items[n - 1], Target(destDir, items[n - 1]), Region(t, items[n - 1]))
  }

  /** Step k copies the entry p at or under an item to its place. */
  predicate Copies(items: seq<Path>, destDir: Path, it: CopyItem, i: nat, p: Path)
    requires i < |items| && Covers(items[i], p)
  {
    it.srcPath == p && it.dstPath == Rebase(items[i], Target(destDir, items[i]), p)
  }

  /** Whatever the names, every entry at or under an item has its step. */
  lemma {:induction false} StepFound(t: Tree, items: seq<Path>, destDir: Path, n: nat, plan: seq<CopyItem>, i: nat,
                                     p: Path)
    returns (k: nat)
    requires i < n <= |items| && WalkedInTurn(t, items, destDir, n, plan) && p in t && Covers(items[i], p)
    ensures k < |plan| && Copies(items, destDir, plan[k], i, p)
  {
    hide Rebase, Target, ParentsFirst, Describes;
    var cut :| 0 <= cut <= |plan| && WalkedUpTo(t, items, destDir, n, plan, cut);
    if i == n - 1 {
      var ps := SrcPaths(plan[cut..]);
      assert p in ps;
      var j :| 0 <= j < |ps| && ps[j] == p;
      k := cut + j;
      assert plan[cut..][j] == plan[k];
    } else {
      k := StepFound(t, items, destDir, n - 1, plan[..cut], i, p);
    }
  }

  lemma OneMoreWalk(t: Tree, items: seq<Path>, destDir: Path, n: nat, plan: seq<CopyItem>, more: seq<CopyItem>)
    requires n < |items| && WalkedInTurn(t, items, destDir, n, plan)
    requires CopyPlan(t, more, items[n], Target(destDir, items[n]), Region(t, items[n]))
    ensures WalkedInTurn(t, items, destDir, n + 1, plan + more)
  {
    hide CopyPlan, Target;
    assert (plan + more)[..|plan|] == plan && (plan + more)[|plan|..] == more;
    assert WalkedUpTo(t, items, destDir, n + 1, plan + more, |plan|);
  }

  /** What scanning the first n items yields. */
  ghost predicate ScannedCopies(t: Tree, items: seq<Path>, destDir: Path, n: nat, plan: seq<CopyItem>)
    requires n <= |items|
  {
    && WalkedInTurn(t, items, destDir, n, plan)
    && AllPlanned(t, items, destDir, plan)
    && (forall i :: 0 <= i < n ==> items[i] != [] && items[i] in t)
    && (NamedApart(items, n) ==> JobPlan(t, plan, Wanted(t, items, destDir, n)))
  }

  lemma MorePlanned(t: Tree, items: seq<Path>, destDir: Path, n: nat, plan: seq<CopyItem>, more: seq<CopyItem>)
    requires n < |items| && AllPlanned(t, items, destDir, plan)
    requires CopyPlan(t, more, items[n], Target(destDir, items[n]), Region(t, items[n]))
    ensures AllPlanned(t, items, destDir, plan + more)
  {
  }

  lemma NextItemApart(t: Tree, items: seq<Path>, destDir: Path, n: nat, p: Path, q: Path)
    requires n < |items| && NamedApart(items, n + 1)
    requires p in Wanted(t, items, destDir, n) && q in Placed(t, items[n], destDir)
    ensures !Covers(q, p)
  {
    hide Target, Original, Placed;
    InWanted(t, items, destDir, n, p);
    GraftedAt(t, items[n], destDir, q);
    var i :| 0 <= i < n && StandsFor(t, items[i], destDir, p);
    TargetsApart(destDir, items[n], items[i], q, p);
  }

  lemma OneMoreItemPlanned(t: Tree, items: seq<Path>, destDir: Path, n: nat, plan: seq<CopyItem>, more: seq<CopyItem>)
    requires n < |items| && ScannedCopies(t, items, destDir, n, plan) && items[n] != [] && items[n] in t
    requires CopyPlan(t, more, items[n], Target(destDir, items[n]), Region(t, items[n]))
    ensures ScannedCopies(t, items, destDir, n + 1, plan + more)
  {
    hide AllPlanned, JobPlan, CopyPlan, StandsFor, Covers, WalkedInTurn;
    OneMoreWalk(t, items, destDir, n, plan, more);
    MorePlanned(t, items, destDir, n, plan, more);
    if NamedApart(items, n + 1) {
      var grafted := Placed(t, items[n], destDir);
      WalkGrafts(t, more, items[n], Target(destDir, items[n]));
      forall p, q | p in Wanted(t, items, destDir, n) && q in grafted
        ensures !Covers(q, p)
      {
        NextItemApart(t, items, destDir, n, p, q);
      }
      JoinJobPlans(t, plan, Wanted(t, items, destDir, n), more, grafted);
    }
  }
}
