/** Reading a scanned plan as a run of half-way destinations: which copies are
    done after k steps, and why step k is the next one the specification allows. */
module SyncSteps {
  import opened Base
  import opened Trees
  import opened Backends
  import opened Plans
  import opened SyncSpec
  import opened SyncScope

  /** The plan holds exactly the steps of the scanned scope, in a good order. */
  ghost predicate IsPlanFor(x: Scope, copies: seq<CopyItem>, deletes: seq<DeleteItem>) {
    && x.Valid()
    && x.SyncCopies(copies, x.OwedIn(x.srcRoot))
    && DeletePlan(x.d, deletes, x.DoomedIn(x.dstRoot))
  }

  /** The place of a copy step, relative to the roots. */
  function CopyPlace(x: Scope, it: CopyItem): Path {
    if |x.srcRoot| <= |it.srcPath| then it.srcPath[|x.srcRoot|..] else []
  }

  function DeletePlace(x: Scope, it: DeleteItem): Path {
    if |x.dstRoot| <= |it.path| then it.path[|x.dstRoot|..] else []
  }

  ghost function Done(x: Scope, copies: seq<CopyItem>, k: nat): set<Path>
    requires k <= |copies|
  {
    if k == 0 then {} else Done(x, copies, k - 1) + {CopyPlace(x, copies[k - 1])}
  }

  ghost function Deleted(x: Scope, deletes: seq<DeleteItem>, k: nat): set<Path>
    requires k <= |deletes|
  {
    if k == 0 then {} else Deleted(x, deletes, k - 1) + {DeletePlace(x, deletes[k - 1])}
  }

  lemma {:induction false} DoneHas(x: Scope, copies: seq<CopyItem>, k: nat, q: Path)
    requires k <= |copies|
    ensures q in Done(x, copies, k) <==> exists i :: 0 <= i < k && CopyPlace(x, copies[i]) == q
  {
    if k > 0 {
      DoneHas(x, copies, k - 1, q);
    }
  }

  lemma {:induction false} DeletedHas(x: Scope, deletes: seq<DeleteItem>, k: nat, q: Path)
    requires k <= |deletes|
    ensures q in Deleted(x, deletes, k) <==> exists i :: 0 <= i < k && DeletePlace(x, deletes[i]) == q
  {
    if k > 0 {
      DeletedHas(x, deletes, k - 1, q);
    }
  }

  /** Where one copy step of a plan stands. */
  lemma CopyStepPlace(x: Scope, copies: seq<CopyItem>, deletes: seq<DeleteItem>, i: nat)
    requires IsPlanFor(x, copies, deletes) && i < |copies|
    ensures var it, q := copies[i], CopyPlace(x, copies[i]);
            && it.srcPath == x.srcRoot + q && it.dstPath == x.dstRoot + q
            && x.ToDiff().NeedsCopy(q)
  {
    assert PlannedCopy(x.s, copies[i], x.srcRoot, x.dstRoot);
    assert SrcPaths(copies)[i] in x.OwedIn(x.srcRoot);
  }

  /** What it copies, and what it replaces. */
  lemma CopyStepFacts(x: Scope, copies: seq<CopyItem>, deletes: seq<DeleteItem>, i: nat)
    requires IsPlanFor(x, copies, deletes) && i < |copies|
    ensures var it, q := copies[i], CopyPlace(x, copies[i]);
            && Describes(x.s, it.meta, it.srcPath)
            && q in x.ToDiff().s && x.s[it.srcPath] == x.ToDiff().s[q]
            && (it.replaceExisting.Some? <==> x.ToDiff().Replaces(q))
            && (it.replaceExisting.Some? ==>
                it.dstPath in x.d && it.replaceExisting.value.kind == KindOf(x.d[it.dstPath]))
  {
    CopyStepPlace(x, copies, deletes, i);
    assert PlannedCopy(x.s, copies[i], x.srcRoot, x.dstRoot);
    assert x.ReplacesRightly(copies[i]);
  }

  lemma CopyOrder(x: Scope, copies: seq<CopyItem>, deletes: seq<DeleteItem>, i: nat, j: nat)
    requires IsPlanFor(x, copies, deletes) && i < j < |copies|
    ensures !Covers(CopyPlace(x, copies[j]), CopyPlace(x, copies[i]))
  {
    CopyStepPlace(x, copies, deletes, i);
    CopyStepPlace(x, copies, deletes, j);
    CoversShift(x.srcRoot, CopyPlace(x, copies[j]), CopyPlace(x, copies[i]));
    assert !Covers(SrcPaths(copies)[j], SrcPaths(copies)[i]);
  }

  /** Every place that needs a copy has its step. */
  lemma CopyStepExists(x: Scope, copies: seq<CopyItem>, deletes: seq<DeleteItem>, q: Path) returns (i: nat)
    requires IsPlanFor(x, copies, deletes) && x.ToDiff().NeedsCopy(q)
    ensures i < |copies| && CopyPlace(x, copies[i]) == q
  {
    hide PlannedCopy, Describes, ParentsFirst, WellFormed, DeletePlan, Scope.ReplacesRightly;
    var p := x.srcRoot + q;
    assert p[|x.srcRoot|..] == q;
    assert p in x.OwedIn(x.srcRoot);
    assert p in SrcPaths(copies);
    i :| 0 <= i < |copies| && SrcPaths(copies)[i] == p;
  }

  /** The steps done so far and step k meet the parents-first discipline. */
  lemma StepIsNext(x: Scope, copies: seq<CopyItem>, deletes: seq<DeleteItem>, k: nat, missing: set<Path>)
    requires IsPlanFor(x, copies, deletes) && k < |copies|
    requires MissingLinks(x, copies, k, missing)
    ensures x.ToDiff().NextCopy(Done(x, copies, k), missing, CopyPlace(x, copies[k]))
  {
    hide IsPlanFor, Done, CopyPlace;
    CopyStepPlace(x, copies, deletes, k);
    forall q | q in Done(x, copies, k)
      ensures x.ToDiff().NeedsCopy(q) && !Covers(CopyPlace(x, copies[k]), q)
    {
      EarlierStep(x, copies, deletes, k, q);
    }
    forall q | x.ToDiff().NeedsCopy(q) && Ancestor(q, CopyPlace(x, copies[k]))
      ensures q in Done(x, copies, k)
    {
      AncestorIsDone(x, copies, deletes, k, q);
    }
  }

  lemma EarlierStep(x: Scope, copies: seq<CopyItem>, deletes: seq<DeleteItem>, k: nat, q: Path)
    requires IsPlanFor(x, copies, deletes) && k < |copies| && q in Done(x, copies, k)
    ensures x.ToDiff().NeedsCopy(q) && !Covers(CopyPlace(x, copies[k]), q)
  {
    hide IsPlanFor, CopyPlace;
    DoneHas(x, copies, k, q);
    var i :| 0 <= i < k && CopyPlace(x, copies[i]) == q;
    CopyStepPlace(x, copies, deletes, i);
    CopyOrder(x, copies, deletes, i, k);
  }

  lemma AncestorIsDone(x: Scope, copies: seq<CopyItem>, deletes: seq<DeleteItem>, k: nat, q: Path)
    requires IsPlanFor(x, copies, deletes) && k < |copies|
    requires x.ToDiff().NeedsCopy(q) && Ancestor(q, CopyPlace(x, copies[k]))
    ensures q in Done(x, copies, k)
  {
    hide IsPlanFor, CopyPlace, Diff.NeedsCopy;
    var i := CopyStepExists(x, copies, deletes, q);
    if i > k {
      CopyOrder(x, copies, deletes, k, i);
    }
    DoneHas(x, copies, k, q);
  }

  /** The links left out are among the steps done. */
  ghost predicate MissingLinks(x: Scope, copies: seq<CopyItem>, k: nat, missing: set<Path>)
    requires k <= |copies|
  {
    forall q :: q in missing ==> q in Done(x, copies, k) && q in x.ToDiff().s && x.ToDiff().s[q].Link?
  }

  lemma DoneIsNeeded(x: Scope, copies: seq<CopyItem>, deletes: seq<DeleteItem>, k: nat)
    requires IsPlanFor(x, copies, deletes) && k <= |copies|
    ensures Done(x, copies, k) <= x.ToDiff().CopySet()
    ensures k == |copies| ==> Done(x, copies, k) == x.ToDiff().CopySet()
  {
    forall q | q in Done(x, copies, k)
      ensures q in x.ToDiff().CopySet()
    {
      DoneHas(x, copies, k, q);
      var i :| 0 <= i < k && CopyPlace(x, copies[i]) == q;
      CopyStepPlace(x, copies, deletes, i);
    }
    if k == |copies| {
      forall q | q in x.ToDiff().CopySet()
        ensures q in Done(x, copies, k)
      {
        var i := CopyStepExists(x, copies, deletes, q);
        DoneHas(x, copies, k, q);
      }
    }
  }

  // ---------- Deletions ----------

  lemma DeleteStepFacts(x: Scope, copies: seq<CopyItem>, deletes: seq<DeleteItem>, i: nat)
    requires IsPlanFor(x, copies, deletes) && i < |deletes|
    ensures var it, q := deletes[i], DeletePlace(x, deletes[i]);
            && x.deleteExtraneous
            && it.path == x.dstRoot + q
            && x.ToDiff().Extraneous(q)
            && it.meta.kind == KindOf(x.ToDiff().d[q])
  {
    assert DeletePaths(deletes)[i] in x.DoomedIn(x.dstRoot);
    assert Describes(x.d, deletes[i].meta, deletes[i].path);
  }

  /** No deletion of a plan lies at or under a path the plan copies or replaces. */
  lemma PlanNeverDeletesCopies(x: Scope, copies: seq<CopyItem>, deletes: seq<DeleteItem>, i: nat, j: nat)
    requires IsPlanFor(x, copies, deletes) && i < |copies| && j < |deletes|
    ensures !Covers(copies[i].dstPath, deletes[j].path)
  {
    ScopeDiffIsValid(x);
    hide IsPlanFor;
    CopyStepPlace(x, copies, deletes, i);
    DeleteStepFacts(x, copies, deletes, j);
    DeletionsAvoidCopies(x.ToDiff(), CopyPlace(x, copies[i]), DeletePlace(x, deletes[j]));
    CoversShift(x.dstRoot, CopyPlace(x, copies[i]), DeletePlace(x, deletes[j]));
  }

  lemma DeleteOrder(x: Scope, copies: seq<CopyItem>, deletes: seq<DeleteItem>, i: nat, j: nat)
    requires IsPlanFor(x, copies, deletes) && i < j < |deletes|
    ensures !Covers(DeletePlace(x, deletes[i]), DeletePlace(x, deletes[j]))
  {
    DeleteStepFacts(x, copies, deletes, i);
    DeleteStepFacts(x, copies, deletes, j);
    CoversShift(x.dstRoot, DeletePlace(x, deletes[i]), DeletePlace(x, deletes[j]));
    assert !Covers(DeletePaths(deletes)[i], DeletePaths(deletes)[j]);
  }

  lemma DeleteStepExists(x: Scope, copies: seq<CopyItem>, deletes: seq<DeleteItem>, q: Path) returns (i: nat)
    requires IsPlanFor(x, copies, deletes) && x.deleteExtraneous && x.ToDiff().Extraneous(q)
    ensures i < |deletes| && DeletePlace(x, deletes[i]) == q
  {
    hide CopyPlan, Describes, ChildrenFirst, WellFormed, Scope.SyncCopies;
    var p := x.dstRoot + q;
    assert p[|x.dstRoot|..] == q;
    assert p in x.DoomedIn(x.dstRoot);
    assert p in DeletePaths(deletes);
    i :| 0 <= i < |deletes| && DeletePaths(deletes)[i] == p;
  }

  lemma DeleteIsNext(x: Scope, copies: seq<CopyItem>, deletes: seq<DeleteItem>, k: nat)
    requires IsPlanFor(x, copies, deletes) && k < |deletes|
    ensures NextDelete(x.ToDiff(), Deleted(x, deletes, k), DeletePlace(x, deletes[k]))
  {
    var diff, deleted, p := x.ToDiff(), Deleted(x, deletes, k), DeletePlace(x, deletes[k]);
    DeleteStepFacts(x, copies, deletes, k);
    forall q | q in deleted
      ensures diff.Extraneous(q) && q != p
    {
      DeletedHas(x, deletes, k, q);
      var i :| 0 <= i < k && DeletePlace(x, deletes[i]) == q;
      DeleteStepFacts(x, copies, deletes, i);
      DeleteOrder(x, copies, deletes, i, k);
    }
    forall q | diff.Extraneous(q) && Ancestor(p, q)
      ensures q in deleted
    {
      var i := DeleteStepExists(x, copies, deletes, q);
      if i > k {
        DeleteOrder(x, copies, deletes, k, i);
      }
      DeletedHas(x, deletes, k, q);
    }
  }

  lemma DeletedIsExtraneous(x: Scope, copies: seq<CopyItem>, deletes: seq<DeleteItem>, k: nat)
    requires IsPlanFor(x, copies, deletes) && k <= |deletes|
    ensures Deleted(x, deletes, k) <= x.ToDiff().DeleteSet()
    ensures k == |deletes| && x.deleteExtraneous ==> Deleted(x, deletes, k) == x.ToDiff().DeleteSet()
    ensures !x.deleteExtraneous ==> deletes == []
  {
    forall q | q in Deleted(x, deletes, k)
      ensures q in x.ToDiff().DeleteSet()
    {
      DeletedHas(x, deletes, k, q);
      var i :| 0 <= i < k && DeletePlace(x, deletes[i]) == q;
      DeleteStepFacts(x, copies, deletes, i);
    }
    if k == |deletes| && x.deleteExtraneous {
      forall q | q in x.ToDiff().DeleteSet()
        ensures q in Deleted(x, deletes, k)
      {
        var i := DeleteStepExists(x, copies, deletes, q);
        DeletedHas(x, deletes, k, q);
      }
    }
    if deletes != [] {
      DeleteStepFacts(x, copies, deletes, 0);
    }
  }

  // ---------- The plan as a run ----------

  lemma ScopeDiffIsValid(x: Scope)
    requires x.Valid()
    ensures x.ToDiff().Valid()
  {
    ViewIsWellFormed(x.s, x.srcRoot);
    ViewIsWellFormed(x.d, x.dstRoot);
  }

  /** After k steps the done places are source places, and only links are missing. */
  ghost predicate Coherent(x: Scope, copies: seq<CopyItem>, k: nat, missing: set<Path>)
    requires k <= |copies|
  {
    Done(x, copies, k) <= x.ToDiff().s.Keys && MissingLinks(x, copies, k, missing)
  }

  /** The destination subtree after k copies. */
  ghost function MidwayAt(x: Scope, copies: seq<CopyItem>, k: nat, missing: set<Path>): Tree
    requires k <= |copies| && Coherent(x, copies, k, missing)
  {
    x.ToDiff().Midway(Done(x, copies, k), missing)
  }

  /** The destination subtree when step k is about to create its entry. */
  ghost function ReadyAt(x: Scope, copies: seq<CopyItem>, k: nat, missing: set<Path>): Tree
    requires k < |copies| && Coherent(x, copies, k, missing)
  {
    x.ToDiff().Cleared(Done(x, copies, k), missing, CopyPlace(x, copies[k]))
  }

  lemma ReadyAtIsCleared(x: Scope, copies: seq<CopyItem>, deletes: seq<DeleteItem>, k: nat, missing: set<Path>)
    requires IsPlanFor(x, copies, deletes) && k < |copies| && Coherent(x, copies, k, missing)
    ensures ReadyAt(x, copies, k, missing) ==
            if copies[k].replaceExisting.Some? then Prune(MidwayAt(x, copies, k, missing), CopyPlace(x, copies[k]))
            else MidwayAt(x, copies, k, missing)
  {
    CopyStepFacts(x, copies, deletes, k);
  }

  /** The entry a step replaces is there, as scanned, when its turn comes. */
  lemma StepMeetsItsEntry(x: Scope, copies: seq<CopyItem>, deletes: seq<DeleteItem>, k: nat, missing: set<Path>)
    requires IsPlanFor(x, copies, deletes) && k < |copies| && Coherent(x, copies, k, missing)
    ensures var q := CopyPlace(x, copies[k]);
            && q != []
            && (copies[k].replaceExisting.Some? ==>
                  && q in MidwayAt(x, copies, k, missing)
                  && KindOf(MidwayAt(x, copies, k, missing)[q]) == copies[k].replaceExisting.value.kind)
  {
    var q := CopyPlace(x, copies[k]);
    ScopeDiffIsValid(x);
    CopyStepPlace(x, copies, deletes, k);
    CopyStepFacts(x, copies, deletes, k);
    StepIsNext(x, copies, deletes, k, missing);
    ParentIsReady(x.ToDiff(), Done(x, copies, k), missing, q);
    if copies[k].replaceExisting.Some? {
      ReplacedIsPresent(x.ToDiff(), Done(x, copies, k), missing, q);
    }
  }

  /** The creation of a step is enabled when its turn comes. */
  lemma StepCanCreate(x: Scope, copies: seq<CopyItem>, deletes: seq<DeleteItem>, k: nat, missing: set<Path>)
    requires IsPlanFor(x, copies, deletes) && k < |copies| && Coherent(x, copies, k, missing)
    ensures var q := CopyPlace(x, copies[k]);
            && q != [] && copies[k].srcPath in x.s
            && if x.s[copies[k].srcPath].Directory? || x.s[copies[k].srcPath].Link?
               then CanCreate(ReadyAt(x, copies, k, missing), q) else CanWrite(ReadyAt(x, copies, k, missing), q)
  {
    ScopeDiffIsValid(x);
    CopyStepFacts(x, copies, deletes, k);
    StepIsNext(x, copies, deletes, k, missing);
    CopyIsEnabled(x.ToDiff(), Done(x, copies, k), missing, CopyPlace(x, copies[k]));
  }

  lemma NextIsCoherent(x: Scope, copies: seq<CopyItem>, deletes: seq<DeleteItem>, k: nat, missing: set<Path>)
    requires IsPlanFor(x, copies, deletes) && k < |copies| && Coherent(x, copies, k, missing)
    ensures copies[k].srcPath in x.s && CopyPlace(x, copies[k]) in x.ToDiff().s
    ensures x.s[copies[k].srcPath] == x.ToDiff().s[CopyPlace(x, copies[k])]
    ensures Coherent(x, copies, k + 1, missing)
    ensures x.s[copies[k].srcPath].Link? ==> Coherent(x, copies, k + 1, missing + {CopyPlace(x, copies[k])})
  {
    hide IsPlanFor, Transferred;
    CopyStepFacts(x, copies, deletes, k);
  }

  /** A step that creates its entry reaches the next half-way destination. */
  lemma StepAdvances(x: Scope, copies: seq<CopyItem>, deletes: seq<DeleteItem>, k: nat, missing: set<Path>)
    requires IsPlanFor(x, copies, deletes) && k < |copies| && Coherent(x, copies, k, missing)
    ensures copies[k].srcPath in x.s && Coherent(x, copies, k + 1, missing)
    ensures ReadyAt(x, copies, k, missing)[CopyPlace(x, copies[k]) := Transferred(x.s[copies[k].srcPath])]
            == MidwayAt(x, copies, k + 1, missing)
  {
    NextIsCoherent(x, copies, deletes, k, missing);
    ScopeDiffIsValid(x);
    StepIsNext(x, copies, deletes, k, missing);
    CopyAdvances(x.ToDiff(), Done(x, copies, k), missing, CopyPlace(x, copies[k]));
  }

  /** A link left out reaches the next half-way destination too, with one more missing. */
  lemma SkippedStepAdvances(x: Scope, copies: seq<CopyItem>, deletes: seq<DeleteItem>, k: nat, missing: set<Path>)
    requires IsPlanFor(x, copies, deletes) && k < |copies| && Coherent(x, copies, k, missing)
    requires copies[k].srcPath in x.s && x.s[copies[k].srcPath].Link?
    ensures Coherent(x, copies, k + 1, missing + {CopyPlace(x, copies[k])})
    ensures ReadyAt(x, copies, k, missing) == MidwayAt(x, copies, k + 1, missing + {CopyPlace(x, copies[k])})
  {
    NextIsCoherent(x, copies, deletes, k, missing);
    ScopeDiffIsValid(x);
    StepIsNext(x, copies, deletes, k, missing);
    FailedLinkAdvances(x.ToDiff(), Done(x, copies, k), missing, CopyPlace(x, copies[k]));
  }

  // ---------- Stopping on the way ----------

  lemma CopiesAreHonest(x: Scope, copies: seq<CopyItem>, deletes: seq<DeleteItem>, k: nat, missing: set<Path>)
    requires IsPlanFor(x, copies, deletes) && k <= |copies| && Coherent(x, copies, k, missing)
    ensures Honest(x.ToDiff(), x.deleteExtraneous, MidwayAt(x, copies, k, missing))
  {
    ScopeDiffIsValid(x);
    DoneIsNeeded(x, copies, deletes, k);
    MidwayIsHonest(x.ToDiff(), x.deleteExtraneous, Done(x, copies, k), missing);
  }

  /** What lies outside q and all below it is the same. */
  ghost predicate AgreeOutside(a: Tree, b: Tree, q: Path) {
    forall u :: !Covers(q, u) ==> SameAt(a, b, u)
  }

  ghost predicate AgreeExcept(a: Tree, b: Tree, q: Path) {
    forall u :: u != q ==> SameAt(a, b, u)
  }

  /** All that is left in a was in b. */
  predicate LeftOf(a: Tree, b: Tree) {
    forall u :: u in a ==> u in b && a[u] == b[u]
  }

  lemma HonestOutsideReplaced(x: Diff, del: bool, m: Tree, q: Path, t: Tree)
    requires Honest(x, del, m) && x.Replaces(q) && AgreeOutside(t, m, q) && LeftOf(t, m)
    ensures Honest(x, del, t)
  {
    hide Explained;
  }

  lemma HonestExceptCopied(x: Diff, del: bool, m: Tree, q: Path, t: Tree)
    requires Honest(x, del, m) && x.NeedsCopy(q) && AgreeExcept(t, m, q)
    requires q in t ==> Explained(x, q, t[q])
    ensures Honest(x, del, t)
  {
    hide Explained;
    forall u | !Announced(x, del, u)
      ensures SameAt(t, x.d, u)
    {
      assert u != q;
      assert SameAt(m, x.d, u) && SameAt(t, m, u);
    }
    forall u | u in t
      ensures Explained(x, u, t[u])
    {
      assert u == q || SameAt(t, m, u);
    }
  }

  /** A half-done removal of a replaced entry leaves an honest destination. */
  lemma InterruptedClearing(x: Scope, copies: seq<CopyItem>, deletes: seq<DeleteItem>, k: nat, missing: set<Path>,
                            t: Tree)
    requires IsPlanFor(x, copies, deletes) && k < |copies| && Coherent(x, copies, k, missing)
    requires copies[k].replaceExisting.Some?
    requires AgreeOutside(t, MidwayAt(x, copies, k, missing), CopyPlace(x, copies[k]))
    requires LeftOf(t, MidwayAt(x, copies, k, missing))
    ensures Honest(x.ToDiff(), x.deleteExtraneous, t)
  {
    CopyStepFacts(x, copies, deletes, k);
    CopiesAreHonest(x, copies, deletes, k, missing);
    HonestOutsideReplaced(x.ToDiff(), x.deleteExtraneous, MidwayAt(x, copies, k, missing), CopyPlace(x, copies[k]), t);
  }

  lemma ReadyIsHonest(x: Scope, copies: seq<CopyItem>, deletes: seq<DeleteItem>, k: nat, missing: set<Path>)
    requires IsPlanFor(x, copies, deletes) && k < |copies| && Coherent(x, copies, k, missing)
    ensures Honest(x.ToDiff(), x.deleteExtraneous, ReadyAt(x, copies, k, missing))
  {
    var q, m := CopyPlace(x, copies[k]), MidwayAt(x, copies, k, missing);
    ReadyAtIsCleared(x, copies, deletes, k, missing);
    CopiesAreHonest(x, copies, deletes, k, missing);
    if copies[k].replaceExisting.Some? {
      assert AgreeOutside(Prune(m, q), m, q);
      InterruptedClearing(x, copies, deletes, k, missing, Prune(m, q));
    }
  }

  /** A half-done creation leaves an honest destination. */
  lemma InterruptedCreation(x: Scope, copies: seq<CopyItem>, deletes: seq<DeleteItem>, k: nat, missing: set<Path>,
                            t: Tree)
    requires IsPlanFor(x, copies, deletes) && k < |copies| && Coherent(x, copies, k, missing)
    requires AgreeExcept(t, ReadyAt(x, copies, k, missing), CopyPlace(x, copies[k]))
    requires CopyPlace(x, copies[k]) in t ==> Explained(x.ToDiff(), CopyPlace(x, copies[k]), t[CopyPlace(x, copies[k])])
    ensures Honest(x.ToDiff(), x.deleteExtraneous, t)
  {
    CopyStepPlace(x, copies, deletes, k);
    ReadyIsHonest(x, copies, deletes, k, missing);
    HonestExceptCopied(x.ToDiff(), x.deleteExtraneous, ReadyAt(x, copies, k, missing), CopyPlace(x, copies[k]), t);
  }
}
