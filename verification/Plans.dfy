/** Flat plans: the step lists that the tree walks and diffs push into. */
module Plans {
  import opened Base
  import opened Trees
  import opened Backends

  /** One copy step. `replaceExisting` is the destination entry to remove first. */
  datatype CopyItem = CopyItem(srcPath: Path, dstPath: Path, meta: Meta, replaceExisting: Option<Meta>)

  datatype DeleteItem = DeleteItem(path: Path, meta: Meta)

  /** The path below `to` that stands where p stands below `root`. */
  function Rebase(root: Path, to: Path, p: Path): Path
    requires root <= p
  {
    to + p[|root|..]
  }

  lemma RebaseChild(root: Path, to: Path, p: Path, n: Name)
    requires Covers(root, p)
    ensures Covers(root, p + [n]) && Rebase(root, to, p + [n]) == Rebase(root, to, p) + [n]
  {
  }

  // ---------- Orders ----------

  predicate Enumerates(ps: seq<Path>, z: set<Path>) {
    && (forall i :: 0 <= i < |ps| ==> ps[i] in z)
    && (forall q :: q in z ==> q in ps)
  }

  /** No path comes after one it covers; in particular no path comes twice. */
  predicate ParentsFirst(ps: seq<Path>) {
    forall i, j :: 0 <= i < j < |ps| ==> !Covers(ps[j], ps[i])
  }

  predicate ChildrenFirst(ps: seq<Path>) {
    forall i, j :: 0 <= i < j < |ps| ==> !Covers(ps[i], ps[j])
  }

  lemma JoinEnumerations(a: seq<Path>, za: set<Path>, b: seq<Path>, zb: set<Path>)
    requires Enumerates(a, za) && Enumerates(b, zb)
    ensures Enumerates(a + b, za + zb)
  {
  }

  lemma JoinParentsFirst(a: seq<Path>, za: set<Path>, b: seq<Path>, zb: set<Path>)
    requires Enumerates(a, za) && Enumerates(b, zb) && ParentsFirst(a) && ParentsFirst(b)
    requires forall p, q :: p in za && q in zb ==> !Covers(q, p)
    ensures ParentsFirst(a + b)
  {
  }

  lemma JoinChildrenFirst(a: seq<Path>, za: set<Path>, b: seq<Path>, zb: set<Path>)
    requires Enumerates(a, za) && Enumerates(b, zb) && ChildrenFirst(a) && ChildrenFirst(b)
    requires forall p, q :: p in za && q in zb ==> !Covers(p, q)
    ensures ChildrenFirst(a + b)
  {
  }

  // ---------- Copy plans ----------

  function SrcPaths(items: seq<CopyItem>): (ps: seq<Path>)
    ensures |ps| == |items|
  {
    seq(|items|, i requires 0 <= i < |items| => items[i].srcPath)
  }

  /** The step copies one entry of t below `root` to the same place below `to`. */
  predicate PlannedCopy(t: Tree, it: CopyItem, root: Path, to: Path) {
    && Describes(t, it.meta, it.srcPath)
    && root <= it.srcPath && it.dstPath == Rebase(root, to, it.srcPath)
  }

  /** The steps copy exactly the entries in z, parents first. */
  predicate CopyPlan(t: Tree, items: seq<CopyItem>, root: Path, to: Path, z: set<Path>) {
    && (forall i :: 0 <= i < |items| ==> PlannedCopy(t, items[i], root, to))
    && Enumerates(SrcPaths(items), z)
    && ParentsFirst(SrcPaths(items))
  }

  lemma EmptyCopyPlan(t: Tree, root: Path, to: Path)
    ensures CopyPlan(t, [], root, to, {})
  {
  }

  lemma SingleCopyPlan(t: Tree, it: CopyItem, root: Path, to: Path)
    requires PlannedCopy(t, it, root, to)
    ensures CopyPlan(t, [it], root, to, {it.srcPath})
  {
    assert SrcPaths([it]) == [it.srcPath];
  }

  lemma JoinCopyPlans(t: Tree, a: seq<CopyItem>, za: set<Path>, b: seq<CopyItem>, zb: set<Path>, root: Path, to: Path)
    requires CopyPlan(t, a, root, to, za) && CopyPlan(t, b, root, to, zb)
    requires forall p, q :: p in za && q in zb ==> !Covers(q, p)
    ensures CopyPlan(t, a + b, root, to, za + zb)
  {
    assert SrcPaths(a + b) == SrcPaths(a) + SrcPaths(b);
    JoinEnumerations(SrcPaths(a), za, SrcPaths(b), zb);
    JoinParentsFirst(SrcPaths(a), za, SrcPaths(b), zb);
  }

  // ---------- Delete plans ----------

  function DeletePaths(items: seq<DeleteItem>): (ps: seq<Path>)
    ensures |ps| == |items|
  {
    seq(|items|, i requires 0 <= i < |items| => items[i].path)
  }

  /** The steps delete exactly the entries in z, children first. */
  predicate DeletePlan(t: Tree, items: seq<DeleteItem>, z: set<Path>) {
    && (forall i :: 0 <= i < |items| ==> Describes(t, items[i].meta, items[i].path))
    && Enumerates(DeletePaths(items), z)
    && ChildrenFirst(DeletePaths(items))
  }

  lemma EmptyDeletePlan(t: Tree)
    ensures DeletePlan(t, [], {})
  {
  }

  lemma SingleDeletePlan(t: Tree, it: DeleteItem)
    requires Describes(t, it.meta, it.path)
    ensures DeletePlan(t, [it], {it.path})
  {
    assert DeletePaths([it]) == [it.path];
  }

  lemma JoinDeletePlans(t: Tree, a: seq<DeleteItem>, za: set<Path>, b: seq<DeleteItem>, zb: set<Path>)
    requires DeletePlan(t, a, za) && DeletePlan(t, b, zb)
    requires forall p, q :: p in za && q in zb ==> !Covers(p, q)
    ensures DeletePlan(t, a + b, za + zb)
  {
    assert DeletePaths(a + b) == DeletePaths(a) + DeletePaths(b);
    JoinEnumerations(DeletePaths(a), za, DeletePaths(b), zb);
    JoinChildrenFirst(DeletePaths(a), za, DeletePaths(b), zb);
  }

  // ---------- Regions of a tree ----------

  /** The entries of t at or under the children of p with a name in `names`. */
  function ChildRegions(t: Tree, p: Path, names: set<Name>): (z: set<Path>)
    ensures forall q :: q in z <==> q in t && Within(p, names, q)
  {
    set q | q in t && Within(p, names, q)
  }

  lemma OneMoreRegion(t: Tree, p: Path, names: set<Name>, n: Name)
    ensures ChildRegions(t, p, names + {n}) == ChildRegions(t, p, names) + Region(t, p + [n])
    ensures n !in names ==>
              forall a, b :: a in ChildRegions(t, p, names) && b in Region(t, p + [n]) ==>
                  !Covers(a, b) && !Covers(b, a)
  {
  }

  /** A directory's region is itself plus the regions of all its children. */
  lemma RegionByChildren(t: Tree, p: Path, names: set<Name>)
    requires WellFormed(t) && p in t
    requires forall n :: p + [n] in t ==> n in names
    ensures Region(t, p) == {p} + ChildRegions(t, p, names)
    ensures forall q :: q in ChildRegions(t, p, names) ==> !Covers(q, p)
  {
    forall q | q in t && Ancestor(p, q)
      ensures q[|p|] in names
    {
      var c := p + [q[|p|]];
      CoversChild(p, q[|p|], q);
      if c != q {
        AncestorsAreDirectories(t, c, q);
      }
    }
  }

  lemma RegionOfLeaf(t: Tree, p: Path)
    requires WellFormed(t) && p in t && t[p] != Directory
    ensures Region(t, p) == {p}
  {
    forall q | q in t && Covers(p, q)
      ensures q == p
    {
      if q != p {
        AncestorsAreDirectories(t, p, q);
      }
    }
  }
}
