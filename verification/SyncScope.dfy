/** The scan's side of a sync: which steps the recursive diff owes for each region
    of the two trees. Paths here are the backends' own, below the two sync roots. */
module SyncScope {
  import opened Base
  import opened Trees
  import opened Backends
  import opened Plans
  import opened SyncSpec

  datatype Scope = Scope(s: Tree, d: Tree, srcRoot: Path, dstRoot: Path, changed: set<Path>, deleteExtraneous: bool) {

    /** The two subtrees, relative to the roots. */
    function ToDiff(): Diff {
      Diff(View(s, srcRoot), View(d, dstRoot), changed)
    }

    ghost predicate Valid() {
      && WellFormed(s) && WellFormed(d)
      && srcRoot in s && s[srcRoot] == Directory && dstRoot in d && d[dstRoot] == Directory
    }

    /** The source entry at p must be copied. */
    predicate Owed(p: Path) {
      p in s && srcRoot <= p && ToDiff().NeedsCopy(p[|srcRoot|..])
    }

    /** Its copy removes the destination entry first. */
    predicate Replacing(p: Path) {
      p in s && srcRoot <= p && ToDiff().Replaces(p[|srcRoot|..])
    }

    /** The destination entry at e must be deleted. */
    ghost predicate Doomed(e: Path) {
      deleteExtraneous && e in d && dstRoot <= e && ToDiff().Extraneous(e[|dstRoot|..])
    }

    ghost function OwedIn(p: Path): (z: set<Path>)
      ensures forall q :: q in z <==> q in s && Covers(p, q) && Owed(q)
    {
      set q | q in s && Covers(p, q) && Owed(q)
    }

    ghost function OwedWithin(p: Path, names: set<Name>): (z: set<Path>)
      ensures forall q :: q in z <==> q in s && Within(p, names, q) && Owed(q)
    {
      set q | q in s && Within(p, names, q) && Owed(q)
    }

    ghost function DoomedIn(e: Path): (z: set<Path>)
      ensures forall q :: q in z <==> q in d && Covers(e, q) && Doomed(q)
    {
      set q | q in d && Covers(e, q) && Doomed(q)
    }

    ghost function DoomedWithin(e: Path, names: set<Name>): (z: set<Path>)
      ensures forall q :: q in z <==> q in d && Within(e, names, q) && Doomed(q)
    {
      set q | q in d && Within(e, names, q) && Doomed(q)
    }

    /** The step removes an entry first exactly when it must, and knows which. */
    predicate ReplacesRightly(it: CopyItem) {
      && (it.replaceExisting.Some? <==> Replacing(it.srcPath))
      && (it.replaceExisting.Some? ==> Describes(d, it.replaceExisting.value, it.dstPath))
    }

    /** The steps copy exactly the entries in z, parents first, replacing rightly. */
    ghost predicate SyncCopies(items: seq<CopyItem>, z: set<Path>) {
      && CopyPlan(s, items, srcRoot, dstRoot, z)
      && forall i :: 0 <= i < |items| ==> ReplacesRightly(items[i])
    }
  }

  /** p stands below the source root where e stands below the destination root. */
  predicate Facing(x: Scope, p: Path, e: Path) {
    x.srcRoot <= p && e == Rebase(x.srcRoot, x.dstRoot, p)
  }

  lemma FacingView(x: Scope, p: Path, e: Path)
    requires Facing(x, p, e)
    ensures var q := p[|x.srcRoot|..];
            && p == x.srcRoot + q && e == x.dstRoot + q
            && (p in x.s <==> q in x.ToDiff().s) && (p in x.s ==> x.s[p] == x.ToDiff().s[q])
            && (e in x.d <==> q in x.ToDiff().d) && (e in x.d ==> x.d[e] == x.ToDiff().d[q])
  {
  }

  lemma FacingChild(x: Scope, p: Path, e: Path, n: Name)
    requires Facing(x, p, e)
    ensures Facing(x, p + [n], e + [n])
  {
  }

  /** What a diff does with two facing entries. */
  lemma OwedAt(x: Scope, p: Path, e: Path)
    requires Facing(x, p, e) && p in x.s
    ensures x.Replacing(p) <==>
              e in x.d && (!SameShape(x.s[p], x.d[e]) || (IsSymlink(x.s[p]) && KindOf(x.s[p]) != KindOf(x.d[e])))
    ensures x.Owed(p) <==>
              || e !in x.d || x.Replacing(p)
              || (x.s[p].Regular? && x.d[e].Regular? && p[|x.srcRoot|..] in x.changed)
  {
    FacingView(x, p, e);
  }

  /** Below a source entry that has no directory facing it, everything is owed
      and nothing is replaced. */
  lemma OwedBelow(x: Scope, p: Path, e: Path, q: Path)
    requires x.Valid() && Facing(x, p, e) && (e in x.d ==> x.d[e] != Directory)
    requires q in x.s && Ancestor(p, q)
    ensures x.Owed(q) && !x.Replacing(q)
  {
    var f := Rebase(x.srcRoot, x.dstRoot, q);
    assert Facing(x, q, f);
    FacingAncestor(x, p, q);
    if f in x.d {
      AncestorsAreDirectories(x.d, e, f);
    }
    OwedAt(x, q, f);
  }

  lemma FacingAncestor(x: Scope, p: Path, q: Path)
    requires x.srcRoot <= p && Ancestor(p, q)
    ensures Ancestor(Rebase(x.srcRoot, x.dstRoot, p), Rebase(x.srcRoot, x.dstRoot, q))
  {
  }

  /** A destination entry facing nothing is doomed unless something shadows it. */
  lemma DoomedAt(x: Scope, p: Path, e: Path)
    requires x.deleteExtraneous && Facing(x, p, e) && e in x.d
    ensures x.Doomed(e) <==> p !in x.s && !x.ToDiff().Shadowed(p[|x.srcRoot|..])
  {
    FacingView(x, p, e);
    assert e[|x.dstRoot|..] == p[|x.srcRoot|..];
  }

  /** Every source entry above q is a directory. */
  lemma OnlyDirectoriesAbove(t: Tree, p: Path, q: Path, b: Path)
    requires WellFormed(t) && p in t && t[p] == Directory && Ancestor(p, q)
    requires forall a :: Ancestor(p, a) && Ancestor(a, q) ==> a !in t
    requires b in t && Ancestor(b, q)
    ensures t[b] == Directory
  {
    AncestorsAreComparable(b, p, q);
    if Ancestor(b, p) {
      AncestorsAreDirectories(t, b, p);
    }
  }

  lemma AncestorOfShift(root: Path, a: Path, u: Path)
    ensures Ancestor(a, u) <==> Ancestor(root + a, root + u)
  {
    CoversShift(root, a, u);
    assert (root + a)[|root|..] == a && (root + u)[|root|..] == u;
  }

  lemma NotShadowedUnderDirectory(x: Scope, p: Path, u: Path)
    requires x.Valid() && p in x.s && x.s[p] == Directory && Ancestor(p, x.srcRoot + u)
    requires forall a :: Ancestor(p, a) && Ancestor(a, x.srcRoot + u) ==> a !in x.s
    ensures !x.ToDiff().Shadowed(u)
  {
    forall a | a in x.ToDiff().s && Ancestor(a, u)
      ensures x.ToDiff().s[a] == Directory
    {
      AncestorOfShift(x.srcRoot, a, u);
      OnlyDirectoriesAbove(x.s, p, x.srcRoot + u, x.srcRoot + a);
    }
  }

  /** A source subtree facing nothing, or something of another shape, is copied in
      full; only its top can replace anything, and nothing below it is doomed. */
  lemma MismatchIsCopiedInFull(x: Scope, p: Path, e: Path)
    requires x.Valid() && Facing(x, p, e) && p in x.s
    requires e in x.d ==> !SameShape(x.s[p], x.d[e])
    ensures x.OwedIn(p) == Region(x.s, p)
    ensures forall q :: q in Region(x.s, p) && q != p ==> !x.Replacing(q)
    ensures x.Replacing(p) <==> e in x.d
    ensures x.DoomedIn(e) == {}
  {
    OwedAt(x, p, e);
    forall q | q in Region(x.s, p) && q != p
      ensures x.Owed(q) && !x.Replacing(q)
    {
      AncestorsAreDirectories(x.s, p, q);
      OwedBelow(x, p, e, q);
    }
    NothingDoomedFacing(x, p, e);
  }

  /** Nothing is doomed under an entry that faces a source entry, unless both are
      directories. */
  lemma NothingDoomedFacing(x: Scope, p: Path, e: Path)
    requires x.Valid() && Facing(x, p, e) && p in x.s
    requires e in x.d ==> x.s[p] != Directory || x.d[e] != Directory
    ensures x.DoomedIn(e) == {}
  {
    FacingView(x, p, e);
    var r := p[|x.srcRoot|..];
    forall f | f in x.d && Covers(e, f) && x.dstRoot <= f
      ensures !x.Doomed(f)
    {
      if f != e {
        AncestorsAreDirectories(x.d, e, f);
        ShadowedBelow(x, r, f[|x.dstRoot|..], f);
      }
    }
  }

  lemma ShadowedBelow(x: Scope, r: Path, u: Path, f: Path)
    requires x.srcRoot + r in x.s && x.s[x.srcRoot + r] != Directory
    requires f == x.dstRoot + u && Ancestor(x.dstRoot + r, f)
    ensures x.ToDiff().Shadowed(u)
  {
    AncestorOfShift(x.dstRoot, r, u);
    assert r in x.ToDiff().s && x.ToDiff().s[r] != Directory;
  }

  /** Two facing entries of the same shape that are not directories. */
  lemma LeafIsOwedAlone(x: Scope, p: Path, e: Path)
    requires x.Valid() && Facing(x, p, e) && p in x.s && e in x.d
    requires SameShape(x.s[p], x.d[e]) && x.s[p] != Directory
    ensures x.OwedIn(p) == if x.Owed(p) then {p} else {}
    ensures x.DoomedIn(e) == {}
  {
    RegionOfLeaf(x.s, p);
    assert forall q :: q in x.OwedIn(p) ==> q in Region(x.s, p);
    NothingDoomedFacing(x, p, e);
  }

  /** Two facing directories owe what their children owe. */
  lemma DirectoriesOweTheirChildren(x: Scope, p: Path, e: Path, srcNames: set<Name>, dstNames: set<Name>)
    requires x.Valid() && Facing(x, p, e) && p in x.s && e in x.d && x.s[p] == Directory && x.d[e] == Directory
    requires forall n :: p + [n] in x.s ==> n in srcNames
    requires forall n :: e + [n] in x.d ==> n in dstNames
    ensures x.OwedIn(p) == x.OwedWithin(p, srcNames)
    ensures x.DoomedIn(e) == x.DoomedWithin(e, dstNames)
  {
    OwedAt(x, p, e);
    RegionByChildren(x.s, p, srcNames);
    RegionByChildren(x.d, e, dstNames);
    forall q | q in x.OwedIn(p)
      ensures q in x.OwedWithin(p, srcNames)
    {
      assert q in Region(x.s, p);
    }
    FacingView(x, p, e);
    assert !x.Doomed(e);
    forall f | f in x.DoomedIn(e)
      ensures f in x.DoomedWithin(e, dstNames)
    {
      assert f in Region(x.d, e);
    }
  }

  lemma OneMoreOwed(x: Scope, p: Path, names: set<Name>, n: Name)
    ensures x.OwedWithin(p, names + {n}) == x.OwedWithin(p, names) + x.OwedIn(p + [n])
    ensures n !in names ==>
              forall a, b :: a in x.OwedWithin(p, names) && b in x.OwedIn(p + [n]) ==> !Covers(b, a)
  {
    OneMoreRegion(x.s, p, names, n);
    forall q | q in x.s
      ensures Within(p, names + {n}, q) <==> Within(p, names, q) || Covers(p + [n], q)
    {
      assert q in ChildRegions(x.s, p, names + {n}) <==> q in ChildRegions(x.s, p, names) || q in Region(x.s, p + [n]);
    }
    forall a, b | n !in names && a in x.OwedWithin(p, names) && b in x.OwedIn(p + [n])
      ensures !Covers(b, a)
    {
      assert a in ChildRegions(x.s, p, names) && b in Region(x.s, p + [n]);
    }
  }

  lemma OneMoreDoomed(x: Scope, e: Path, names: set<Name>, n: Name)
    ensures x.DoomedWithin(e, names + {n}) == x.DoomedWithin(e, names) + x.DoomedIn(e + [n])
    ensures n !in names ==>
              forall a, b :: a in x.DoomedWithin(e, names) && b in x.DoomedIn(e + [n]) ==> !Covers(a, b)
  {
    OneMoreRegion(x.d, e, names, n);
    forall q | q in x.d
      ensures Within(e, names + {n}, q) <==> Within(e, names, q) || Covers(e + [n], q)
    {
      assert q in ChildRegions(x.d, e, names + {n}) <==> q in ChildRegions(x.d, e, names) || q in Region(x.d, e + [n]);
    }
    forall a, b | n !in names && a in x.DoomedWithin(e, names) && b in x.DoomedIn(e + [n])
      ensures !Covers(a, b)
    {
      assert a in ChildRegions(x.d, e, names) && b in Region(x.d, e + [n]);
    }
  }

  /** What lies at or below a name only the destination lists is doomed. */
  lemma LeftoverAt(x: Scope, p: Path, e: Path, n: Name, f: Path)
    requires x.Valid() && x.deleteExtraneous && Facing(x, p, e) && p in x.s && x.s[p] == Directory
    requires p + [n] !in x.s && f in Region(x.d, e + [n])
    ensures x.Doomed(f)
  {
    hide WellFormed, Region;
    FacingChild(x, p, e, n);
    FacingView(x, p + [n], e + [n]);
    var c, u := (p + [n])[|x.srcRoot|..], f[|x.dstRoot|..];
    assert f == x.dstRoot + u;
    CoversShift(x.dstRoot, c, u);
    CoversShift(x.srcRoot, c, u);
    var q := x.srcRoot + u;
    NothingBelowMissing(x.s, p, n, q);
    NotShadowedUnderDirectory(x, p, u);
    assert q[|x.srcRoot|..] == u;
    DoomedAt(x, q, f);
  }

  /** A name only the destination lists is doomed with all below it. */
  lemma LeftoverIsDoomed(x: Scope, p: Path, e: Path, n: Name)
    requires x.Valid() && x.deleteExtraneous && Facing(x, p, e) && p in x.s && x.s[p] == Directory
    requires p + [n] !in x.s
    ensures x.DoomedIn(e + [n]) == Region(x.d, e + [n])
  {
    hide Facing, x.Doomed, x.Valid;
    forall f | f in Region(x.d, e + [n])
      ensures x.Doomed(f)
    {
      LeftoverAt(x, p, e, n, f);
    }
  }

  /** If the child n of p is missing, so is everything between p and q. */
  lemma NothingBelowMissing(t: Tree, p: Path, n: Name, q: Path)
    requires WellFormed(t) && p + [n] !in t && Covers(p + [n], q)
    ensures Ancestor(p, q) && q !in t
    ensures forall a :: Ancestor(p, a) && Ancestor(a, q) ==> a !in t
  {
    CoversChild(p, n, q);
    if q in t {
      AncestorsAreDirectories(t, p + [n], q);
    }
    forall a | Ancestor(p, a) && Ancestor(a, q)
      ensures a !in t
    {
      assert a[|p|] == q[|p|];
      CoversChild(p, n, a);
      if a in t && a != p + [n] {
        AncestorsAreDirectories(t, p + [n], a);
      }
    }
  }
}
