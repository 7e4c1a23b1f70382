/** What the steps of a copy job add up to, as values. */
module CopyEffects {
  import opened Trees
  import opened Backends
  import opened Plans
  import opened SyncSpec
  import opened Copying
  import opened CopyTargets

  /** Each step is of an entry of s, and knows its kind. */
  predicate FromSource(s: Tree, plan: seq<CopyItem>) {
    forall i :: 0 <= i < |plan| ==>
      plan[i].srcPath in s && plan[i].meta.kind == KindOf(s[plan[i].srcPath])
  }

  /** The destination after the first k steps, where the `skipped` ones, all links,
      could not be created. */
  function LaidOut(d: Tree, s: Tree, plan: seq<CopyItem>, k: nat, skipped: set<nat>): Tree
    requires k <= |plan| && FromSource(s, plan)
  {
    if k == 0 then d
    else if k - 1 in skipped then LaidOut(d, s, plan, k - 1, skipped)
    else LaidOut(d, s, plan, k - 1, skipped)[plan[k - 1].dstPath := Transferred(s[plan[k - 1].srcPath])]
  }

  /** Only the places of steps made so far can have changed. */
  lemma {:induction false} LaidElsewhere(d: Tree, s: Tree, plan: seq<CopyItem>, k: nat, skipped: set<nat>, q: Path)
    requires k <= |plan| && FromSource(s, plan)
    requires forall i :: 0 <= i < k && i !in skipped ==> plan[i].dstPath != q
    ensures SameAt(LaidOut(d, s, plan, k, skipped), d, q)
  {
    if k > 0 {
      LaidElsewhere(d, s, plan, k - 1, skipped, q);
    }
  }

  lemma {:induction false} LaidHere(d: Tree, s: Tree, plan: seq<CopyItem>, k: nat, skipped: set<nat>, i: nat)
    requires i < k <= |plan| && FromSource(s, plan) && i !in skipped && ParentsFirst(DstPaths(plan))
    ensures plan[i].dstPath in LaidOut(d, s, plan, k, skipped)
    ensures LaidOut(d, s, plan, k, skipped)[plan[i].dstPath] == Transferred(s[plan[i].srcPath])
  {
    if i < k - 1 {
      assert !Covers(DstPaths(plan)[k - 1], DstPaths(plan)[i]);
      LaidHere(d, s, plan, k - 1, skipped, i);
    }
  }

  predicate SkipsLinks(s: Tree, plan: seq<CopyItem>, k: nat, skipped: set<nat>)
    requires k <= |plan| && FromSource(s, plan)
  {
    forall i :: i in skipped ==> i < k && s[plan[i].srcPath].Link?
  }

  /** The skipped set of a longer run agrees with the shorter one on earlier steps. */
  lemma {:induction false} LaterSkips(d: Tree, s: Tree, plan: seq<CopyItem>, k: nat, a: set<nat>, b: set<nat>)
    requires k <= |plan| && FromSource(s, plan)
    requires forall i :: 0 <= i < k ==> (i in a <==> i in b)
    ensures LaidOut(d, s, plan, k, a) == LaidOut(d, s, plan, k, b)
  {
    if k > 0 {
      LaterSkips(d, s, plan, k - 1, a, b);
    }
  }

  /** Every step made so far was enabled, or is skipped. */
  predicate AllEnabled(d: Tree, s: Tree, plan: seq<CopyItem>, k: nat, skipped: set<nat>)
    requires k <= |plan| && FromSource(s, plan)
  {
    forall i :: 0 <= i < k && i !in skipped ==>
      CopyEnabled(LaidOut(d, s, plan, i, skipped), s[plan[i].srcPath], plan[i].dstPath)
  }

  lemma EnabledSoFar(d: Tree, s: Tree, plan: seq<CopyItem>, k: nat, skipped: set<nat>, after: set<nat>)
    requires k < |plan| && FromSource(s, plan) && AllEnabled(d, s, plan, k, skipped)
    requires forall i :: 0 <= i < k ==> (i in after <==> i in skipped)
    requires k in after || CopyEnabled(LaidOut(d, s, plan, k, skipped), s[plan[k].srcPath], plan[k].dstPath)
    ensures AllEnabled(d, s, plan, k + 1, after)
  {
    hide CopyEnabled, LaidOut;
    forall i | 0 <= i < k + 1 && i !in after
      ensures CopyEnabled(LaidOut(d, s, plan, i, after), s[plan[i].srcPath], plan[i].dstPath)
    {
      LaterSkips(d, s, plan, i, skipped, after);
    }
  }

  // ---------- The end state ----------

  /** The wanted entries laid over d, less the lost ones. */
  function Landed(d: Tree, want: Tree, lost: set<Path>): (t: Tree)
    ensures forall q :: q in t <==> q in d || (q in want && q !in lost)
    ensures forall q :: q in t ==> t[q] == if q in want && q !in lost then Transferred(want[q]) else d[q]
  {
    map q | q in d.Keys + want.Keys && (q in d || q !in lost)
      :: if q in want && q !in lost then Transferred(want[q]) else d[q]
  }

  function Lost(plan: seq<CopyItem>, skipped: set<nat>): (z: set<Path>)
    ensures forall i :: i in skipped && i < |plan| ==> plan[i].dstPath in z
    ensures forall q :: q in z ==> exists i :: i in skipped && i < |plan| && plan[i].dstPath == q
  {
    set i | i in skipped && i < |plan| :: plan[i].dstPath
  }

  lemma AtOnePlace(s: Tree, plan: seq<CopyItem>, want: Tree, i: nat, j: nat)
    requires JobPlan(s, plan, want) && i < |plan| && j < |plan| && plan[i].dstPath == plan[j].dstPath
    ensures i == j
  {
    var ps := DstPaths(plan);
    assert Covers(ps[i], ps[j]) && Covers(ps[j], ps[i]);
  }

  lemma EndsLandedAt(d: Tree, s: Tree, plan: seq<CopyItem>, want: Tree, skipped: set<nat>, q: Path)
    requires JobPlan(s, plan, want) && FromSource(s, plan)
    ensures SameAt(LaidOut(d, s, plan, |plan|, skipped), Landed(d, want, Lost(plan, skipped)), q)
  {
    if q in want && q !in Lost(plan, skipped) {
      var i :| 0 <= i < |plan| && DstPaths(plan)[i] == q;
      LaidHere(d, s, plan, |plan|, skipped, i);
      assert StepFor(s, plan[i], want);
    } else {
      forall i | 0 <= i < |plan| && i !in skipped
        ensures plan[i].dstPath != q
      {
        assert DstPaths(plan)[i] in want;
        if plan[i].dstPath == q {
          var j :| j in skipped && j < |plan| && plan[j].dstPath == q;
          AtOnePlace(s, plan, want, i, j);
        }
      }
      LaidElsewhere(d, s, plan, |plan|, skipped, q);
    }
  }

  /** A completed run of a proper plan lays the wanted entries over the destination. */
  lemma EndsLanded(d: Tree, s: Tree, plan: seq<CopyItem>, want: Tree, skipped: set<nat>)
    requires JobPlan(s, plan, want) && FromSource(s, plan)
    ensures LaidOut(d, s, plan, |plan|, skipped) == Landed(d, want, Lost(plan, skipped))
  {
    hide JobPlan, LaidOut;
    var a, b := LaidOut(d, s, plan, |plan|, skipped), Landed(d, want, Lost(plan, skipped));
    forall q
      ensures SameAt(a, b, q)
    {
      EndsLandedAt(d, s, plan, want, skipped, q);
    }
    forall q
      ensures q in a <==> q in b
    {
      assert SameAt(a, b, q);
    }
    forall q | q in a
      ensures a[q] == b[q]
    {
      assert SameAt(a, b, q);
    }
  }

  lemma LostAreLinks(s: Tree, plan: seq<CopyItem>, want: Tree, skipped: set<nat>)
    requires JobPlan(s, plan, want) && FromSource(s, plan) && SkipsLinks(s, plan, |plan|, skipped)
    ensures forall q :: q in Lost(plan, skipped) ==> q in want && want[q].Link?
  {
  }

  // ---------- Whether the steps are enabled ----------

  /** Whatever stands above a wanted entry, if wanted too, is a directory. */
  predicate ClosedUnderDirectories(want: Tree) {
    forall q :: q in want ==> q != [] && (Parent(q) in want ==> want[Parent(q)] == Directory)
  }

  /** The step that makes the wanted parent of step k comes before it. */
  lemma ParentStep(s: Tree, plan: seq<CopyItem>, want: Tree, k: nat) returns (j: nat)
    requires JobPlan(s, plan, want) && FromSource(s, plan) && ClosedUnderDirectories(want)
    requires k < |plan| && plan[k].dstPath != [] && Parent(plan[k].dstPath) in want
    ensures j < k && plan[j].dstPath == Parent(plan[k].dstPath) && s[plan[j].srcPath] == Directory
  {
    assert DstPaths(plan)[k] in want;
    j :| 0 <= j < |plan| && DstPaths(plan)[j] == Parent(plan[k].dstPath);
    assert Covers(DstPaths(plan)[j], DstPaths(plan)[k]);
    assert StepFor(s, plan[j], want);
  }

  /** A wanted entry with a wanted parent finds that parent made, and itself absent. */
  lemma BelowIsEnabled(d: Tree, s: Tree, plan: seq<CopyItem>, want: Tree, k: nat, skipped: set<nat>)
    requires JobPlan(s, plan, want) && FromSource(s, plan) && ClosedUnderDirectories(want)
    requires k < |plan| && SkipsLinks(s, plan, k, skipped)
    requires plan[k].dstPath != [] && Parent(plan[k].dstPath) in want && plan[k].dstPath !in d
    ensures CopyEnabled(LaidOut(d, s, plan, k, skipped), s[plan[k].srcPath], plan[k].dstPath)
  {
    hide LaidOut;
    var parent := Parent(plan[k].dstPath);
    var j := ParentStep(s, plan, want, k);
    hide JobPlan, ClosedUnderDirectories;
    LaidHere(d, s, plan, k, skipped, j);
    NotLaidYet(d, s, plan, want, k, skipped);
  }

  lemma NotLaidYet(d: Tree, s: Tree, plan: seq<CopyItem>, want: Tree, k: nat, skipped: set<nat>)
    requires JobPlan(s, plan, want) && FromSource(s, plan) && k < |plan|
    ensures SameAt(LaidOut(d, s, plan, k, skipped), d, plan[k].dstPath)
  {
    forall i | 0 <= i < k && i !in skipped
      ensures plan[i].dstPath != plan[k].dstPath
    {
      if plan[i].dstPath == plan[k].dstPath {
        AtOnePlace(s, plan, want, i, k);
      }
    }
    LaidElsewhere(d, s, plan, k, skipped, plan[k].dstPath);
  }

  /** A top entry finds the destination as it was before the job. */
  lemma TopIsEnabled(d: Tree, s: Tree, plan: seq<CopyItem>, want: Tree, k: nat, skipped: set<nat>)
    requires JobPlan(s, plan, want) && FromSource(s, plan) && k < |plan|
    requires plan[k].dstPath != [] && Parent(plan[k].dstPath) !in want
    ensures CopyEnabled(LaidOut(d, s, plan, k, skipped), s[plan[k].srcPath], plan[k].dstPath)
            <==> CopyEnabled(d, s[plan[k].srcPath], plan[k].dstPath)
  {
    hide LaidOut;
    NotLaidYet(d, s, plan, want, k, skipped);
    forall i | 0 <= i < k
      ensures plan[i].dstPath != Parent(plan[k].dstPath)
    {
      assert DstPaths(plan)[i] in want;
    }
    LaidElsewhere(d, s, plan, k, skipped, Parent(plan[k].dstPath));
  }

  /** Every item has a place to go: its target can be made, or it is a link. */
  predicate Room(d: Tree, s: Tree, items: seq<Path>, destDir: Path) {
    forall i :: 0 <= i < |items| && items[i] in s ==>
      s[items[i]].Link? || CopyEnabled(d, s[items[i]], Target(destDir, items[i]))
  }

  lemma WantedBelowTarget(s: Tree, items: seq<Path>, destDir: Path, q: Path)
    requires NamedApart(items, |items|) && q in Wanted(s, items, destDir, |items|)
    ensures |q| > |destDir| && Covers(destDir, q)
  {
    InWanted(s, items, destDir, |items|, q);
    var i :| 0 <= i < |items| && StandsFor(s, items[i], destDir, q);
    assert Target(destDir, items[i])[..|destDir|] == destDir;
  }

  lemma OriginalParent(item: Path, destDir: Path, q: Path)
    requires Covers(Target(destDir, item), q) && q != Target(destDir, item)
    ensures q != [] && Covers(Target(destDir, item), Parent(q))
    ensures Original(item, destDir, q) != []
    ensures Original(item, destDir, Parent(q)) == Parent(Original(item, destDir, q))
  {
  }

  /** The parents of the wanted entries: directories of the source, or destDir. */
  lemma WantedParent(s: Tree, items: seq<Path>, destDir: Path, i: nat, q: Path)
    requires WellFormed(s) && NamedApart(items, |items|) && i < |items| && StandsFor(s, items[i], destDir, q)
    ensures q != []
    ensures q == Target(destDir, items[i]) ==> Parent(q) == destDir && Parent(q) !in Wanted(s, items, destDir, |items|)
    ensures q != Target(destDir, items[i]) ==>
              && Parent(q) in Wanted(s, items, destDir, |items|)
              && Wanted(s, items, destDir, |items|)[Parent(q)] == Directory
  {
    hide Wanted;
    if q == Target(destDir, items[i]) {
      if destDir in Wanted(s, items, destDir, |items|) {
        WantedBelowTarget(s, items, destDir, destDir);
      }
    } else {
      OriginalParent(items[i], destDir, q);
      WantedAt(s, items, destDir, |items|, i, Parent(q));
    }
  }

  lemma WantedIsClosed(s: Tree, items: seq<Path>, destDir: Path)
    requires WellFormed(s) && NamedApart(items, |items|)
    ensures ClosedUnderDirectories(Wanted(s, items, destDir, |items|))
  {
    hide Wanted, StandsFor, Target;
    forall q | q in Wanted(s, items, destDir, |items|)
      ensures q != [] && (Parent(q) in Wanted(s, items, destDir, |items|) ==>
                          Wanted(s, items, destDir, |items|)[Parent(q)] == Directory)
    {
      InWanted(s, items, destDir, |items|, q);
      var i :| 0 <= i < |items| && StandsFor(s, items[i], destDir, q);
      WantedParent(s, items, destDir, i, q);
    }
  }

  /** With room for every item, a wanted entry below a target is absent from d. */
  lemma RoomBelow(d: Tree, s: Tree, items: seq<Path>, destDir: Path, i: nat, q: Path)
    requires WellFormed(d) && WellFormed(s) && Room(d, s, items, destDir)
    requires i < |items| && items[i] in s && StandsFor(s, items[i], destDir, q) && q != Target(destDir, items[i])
    ensures q !in d
  {
    var to := Target(destDir, items[i]);
    assert Ancestor(items[i], Original(items[i], destDir, q)) by {
      assert Original(items[i], destDir, q)[..|items[i]|] == items[i];
    }
    AncestorsAreDirectories(s, items[i], Original(items[i], destDir, q));
    if q in d {
      AncestorsAreDirectories(d, to, q);
    }
  }
}
