/** Directory trees as finite maps from paths to entries, and the strict (SFTP)
    meaning of the primitive file operations on them. */
module Trees {
  import opened Base

  type Name = string

  type Path = seq<Name>

  /** One directory entry. `BrokenLink` is a symlink whose target the backend
      cannot report; its `data`, like that of `Special`, is what reading through
      it yields. */
  datatype Entry =
    | Regular(data: Bytes)
    | Directory
    | Link(target: string)
    | BrokenLink(data: Bytes)
    | Special(data: Bytes)

  /** The entry kind that listings report. */
  datatype Kind = File | Dir | Symlink(target: Option<string>) | Other

  function KindOf(e: Entry): Kind {
    match e
    case Regular(_) => File
    case Directory => Dir
    case Link(t) => Symlink(Some(t))
    case BrokenLink(_) => Symlink(None)
    case Special(_) => Other
  }

  type Tree = map<Path, Entry>

  // ---------- Paths ----------

  function Parent(p: Path): Path
    requires p != []
  {
    p[..|p| - 1]
  }

  /** p is q or one of its ancestors. */
  predicate Covers(p: Path, q: Path) {
    p <= q
  }

  /** p is a proper ancestor of q. */
  predicate Ancestor(p: Path, q: Path) {
    p <= q && p != q
  }

  lemma CoversTransitive(p: Path, q: Path, r: Path)
    requires Covers(p, q) && Covers(q, r)
    ensures Covers(p, r)
  {
  }

  lemma AncestorsAreComparable(p: Path, q: Path, r: Path)
    requires Covers(p, r) && Covers(q, r)
    ensures Covers(p, q) || Covers(q, p)
  {
  }

  lemma AncestorCoversParent(p: Path, q: Path)
    requires Ancestor(p, q)
    ensures q != [] && Covers(p, Parent(q)) && Ancestor(Parent(q), q)
  {
  }

  /** An ancestor of a child of p is p or an ancestor of p. */
  lemma CoversChild(p: Path, n: Name, q: Path)
    ensures Covers(p + [n], q) <==> Ancestor(p, q) && q[|p|] == n
  {
  }

  // ---------- Well-formed trees ----------

  predicate WellFormed(t: Tree) {
    && [] in t && t[[]] == Directory
    && forall p :: p in t && p != [] ==> Parent(p) in t && t[Parent(p)] == Directory
  }

  /** Every proper ancestor of an existing path is an existing directory. */
  lemma {:induction false} AncestorsAreDirectories(t: Tree, p: Path, q: Path)
    requires WellFormed(t) && q in t && Ancestor(p, q)
    ensures p in t && t[p] == Directory
    decreases |q|
  {
    AncestorCoversParent(p, q);
    if p != Parent(q) {
      AncestorsAreDirectories(t, p, Parent(q));
    }
  }

  lemma AllAncestorsAreDirectories(t: Tree)
    requires WellFormed(t)
    ensures forall p, q :: q in t && Ancestor(p, q) ==> p in t && t[p] == Directory
  {
    forall p, q | q in t && Ancestor(p, q)
      ensures p in t && t[p] == Directory
    {
      AncestorsAreDirectories(t, p, q);
    }
  }

  // ---------- Primitive operations ----------

  /** p can be created in t: it is absent and its parent is a directory. */
  predicate CanCreate(t: Tree, p: Path) {
    p != [] && p !in t && Parent(p) in t && t[Parent(p)] == Directory
  }

  /** p can be opened for writing: a fresh file, or a regular file to truncate. */
  predicate CanWrite(t: Tree, p: Path) {
    CanCreate(t, p) || (p in t && t[p].Regular?)
  }

  predicate CanUnlink(t: Tree, p: Path) {
    p in t && t[p] != Directory
  }

  predicate CanRmdir(t: Tree, p: Path) {
    && p != [] && p in t && t[p] == Directory
    && forall q :: q in t ==> !Ancestor(p, q)
  }

  /** t without p and everything below it. */
  function Prune(t: Tree, p: Path): (r: Tree)
    ensures forall q :: q in r <==> q in t && !Covers(p, q)
    ensures forall q :: q in r ==> r[q] == t[q]
  {
    map q | q in t && !Covers(p, q) :: t[q]
  }

  lemma CreateKeepsWellFormed(t: Tree, p: Path, e: Entry)
    requires WellFormed(t) && CanCreate(t, p)
    ensures WellFormed(t[p := e])
  {
  }

  lemma OverwriteKeepsWellFormed(t: Tree, p: Path, data: Bytes)
    requires WellFormed(t) && CanWrite(t, p)
    ensures WellFormed(t[p := Regular(data)])
  {
  }

  lemma RemoveKeepsWellFormed(t: Tree, p: Path)
    requires WellFormed(t) && (CanUnlink(t, p) || CanRmdir(t, p))
    ensures WellFormed(t - {p}) && Prune(t, p) == t - {p}
  {
    AllAncestorsAreDirectories(t);
    forall q | q in t && Covers(p, q)
      ensures q == p
    {
      assert q == p || Ancestor(p, q);
    }
    forall q | q in t - {p} && q != []
      ensures Parent(q) != p
    {
      assert Ancestor(Parent(q), q);
    }
  }

  // ---------- Subtree views ----------

  /** The subtree of t at root, with paths relative to root. */
  function View(t: Tree, root: Path): (v: Tree)
    ensures forall q :: q in v <==> root + q in t
    ensures forall q :: q in v ==> v[q] == t[root + q]
  {
    var below := set p | p in t && root <= p :: p[|root|..];
    assert forall q :: q in below ==> root + q in t by {
      forall q | q in below
        ensures root + q in t
      {
        var p :| p in t && root <= p && q == p[|root|..];
        assert root + q == p;
      }
    }
    assert forall q :: root + q in t ==> q in below by {
      forall q | root + q in t
        ensures q in below
      {
        var p := root + q;
        assert p in t && root <= p && q == p[|root|..];
      }
    }
    map q | q in below :: t[root + q]
  }

  lemma SplitParent(root: Path, q: Path)
    requires q != []
    ensures root + q != [] && Parent(root + q) == root + Parent(q)
  {
  }

  lemma ViewIsWellFormed(t: Tree, root: Path)
    requires WellFormed(t) && root in t && t[root] == Directory
    ensures WellFormed(View(t, root))
  {
    assert root + [] == root;
    forall q | q in View(t, root) && q != []
      ensures Parent(q) in View(t, root) && View(t, root)[Parent(q)] == Directory
    {
      SplitParent(root, q);
    }
  }

  lemma ViewPathsAreDistinct(root: Path, q: Path)
    ensures forall r: Path :: root + r == root + q ==> r == q
  {
    forall r: Path | root + r == root + q
      ensures r == q
    {
      assert r == (root + r)[|root|..] == (root + q)[|root|..] == q;
    }
  }

  lemma ViewOfUpdate(t: Tree, root: Path, q: Path, e: Entry)
    ensures View(t[root + q := e], root) == View(t, root)[q := e]
  {
    ViewPathsAreDistinct(root, q);
  }

  lemma ViewOfRemove(t: Tree, root: Path, q: Path)
    ensures View(t - {root + q}, root) == View(t, root) - {q}
  {
    ViewPathsAreDistinct(root, q);
  }

  lemma ViewOfPrune(t: Tree, root: Path, q: Path)
    ensures View(Prune(t, root + q), root) == Prune(View(t, root), q)
  {
    forall r: Path
      ensures Covers(root + q, root + r) <==> Covers(q, r)
    {
      CoversShift(root, q, r);
    }
  }

  lemma CoversShift(root: Path, q: Path, r: Path)
    ensures Covers(root + q, root + r) <==> Covers(q, r)
  {
    if Covers(root + q, root + r) {
      assert q == (root + q)[|root|..];
      assert (root + r)[..|root + q|] == root + q;
      assert r[..|q|] == (root + r)[|root|..|root| + |q|] == q;
    }
    if Covers(q, r) {
      assert r[..|q|] == q;
      assert (root + r)[..|root + q|] == root + q;
    }
  }

  // ---------- Removing children one name at a time ----------

  /** q lies at or under the child of p with a name in `names`. */
  predicate Within(p: Path, names: set<Name>, q: Path) {
    Ancestor(p, q) && q[|p|] in names
  }

  function PruneNames(t: Tree, p: Path, names: set<Name>): (r: Tree)
    ensures forall q :: q in r <==> q in t && !Within(p, names, q)
    ensures forall q :: q in r ==> r[q] == t[q]
  {
    map q | q in t && !Within(p, names, q) :: t[q]
  }

  lemma PruneOneMore(t: Tree, p: Path, names: set<Name>, n: Name)
    ensures Prune(PruneNames(t, p, names), p + [n]) == PruneNames(t, p, names + {n})
  {
  }

  /** u is t with some entries at or under p removed, and nothing else. */
  predicate ShrunkBelow(t: Tree, u: Tree, p: Path) {
    && (forall q :: q in u ==> q in t && u[q] == t[q])
    && (forall q :: q in t && !Covers(p, q) ==> q in u)
  }

  /** Once every child of p is pruned, p itself can be removed. */
  lemma PrunedIsEmpty(t: Tree, p: Path, names: set<Name>)
    requires WellFormed(t) && p in t && t[p] == Directory
    requires forall n :: p + [n] in t ==> n in names
    ensures PruneNames(t, p, names) - {p} == Prune(t, p)
    ensures p != [] ==> CanRmdir(PruneNames(t, p, names), p)
  {
    forall q | q in t && Ancestor(p, q)
      ensures q[|p|] in names
    {
      var c := p + [q[|p|]];
      CoversChild(p, q[|p|], q);
      if c != q {
        AncestorsAreDirectories(t, c, q);
      }
    }
    forall q: Path
      ensures Covers(p, q) <==> q == p || Ancestor(p, q)
    {
    }
  }

  // ---------- Regions ----------

  /** The entries of t at or under p. */
  function Region(t: Tree, p: Path): (z: set<Path>)
    ensures forall q :: q in z <==> q in t && Covers(p, q)
  {
    set q | q in t && Covers(p, q)
  }

  lemma SmallerSet<T>(a: set<T>, b: set<T>)
    requires a < b
    ensures |a| < |b|
  {
    assert b == a + (b - a);
  }

  lemma ChildRegionIsSmaller(t: Tree, p: Path, n: Name)
    requires p in t
    ensures |Region(t, p + [n])| < |Region(t, p)|
  {
    forall q | q in Region(t, p + [n])
      ensures q in Region(t, p)
    {
      CoversChild(p, n, q);
    }
    assert p in Region(t, p) && p !in Region(t, p + [n]);
    SmallerSet(Region(t, p + [n]), Region(t, p));
  }
}
