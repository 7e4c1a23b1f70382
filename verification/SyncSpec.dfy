/** What a directory sync means. A `Diff` holds the source and destination
    subtrees seen by a scan, with paths relative to the two sync roots, and the
    common regular files the comparison rule calls changed. Everything here is
    defined path by path, so it fixes neither a traversal nor a listing order. */
module SyncSpec {
  import opened Base
  import opened Trees

  predicate IsSymlink(e: Entry) {
    e.Link? || e.BrokenLink?
  }

  predicate SameShape(a: Entry, b: Entry) {
    || (a.Directory? && b.Directory?)
    || (a.Regular? && b.Regular?)
    || (IsSymlink(a) && IsSymlink(b))
    || (a.Special? && b.Special?)
  }

  /** What copying e leaves at the destination: special files and links with an
      unknown target are transferred as plain files. */
  function Transferred(e: Entry): Entry {
    match e
    case BrokenLink(data) => Regular(data)
    case Special(data) => Regular(data)
    case _ => e
  }

  /** Entries a copy reproduces as they are. */
  predicate Faithful(e: Entry) {
    Transferred(e) == e
  }

  datatype Diff = Diff(s: Tree, d: Tree, changed: set<Path>) {

    predicate Valid() {
      WellFormed(s) && WellFormed(d)
    }

    /** The destination entry at q has the wrong shape, or is a different link. */
    predicate Replaces(q: Path) {
      && q in s && q in d
      && (!SameShape(s[q], d[q]) || (IsSymlink(s[q]) && KindOf(s[q]) != KindOf(d[q])))
    }

    predicate NeedsCopy(q: Path) {
      && q in s
      && (q !in d || Replaces(q) || (s[q].Regular? && d[q].Regular? && q in changed))
    }

    ghost predicate Shadowed(q: Path) {
      exists p :: p in s && Ancestor(p, q) && s[p] != Directory
    }

    /** Destination-only, and not removed along with a replaced directory. */
    ghost predicate Extraneous(q: Path) {
      q in d && q !in s && !Shadowed(q)
    }

    ghost function CopySet(): (z: set<Path>)
      ensures forall q :: q in z <==> NeedsCopy(q)
    {
      set q | q in s && NeedsCopy(q)
    }

    ghost function DeleteSet(): (z: set<Path>)
      ensures forall q :: q in z <==> Extraneous(q)
    {
      set q | q in d && Extraneous(q)
    }

    /** The destination a sync promises: the source laid over the destination.
        Destination-only entries stay, unless `deleteExtraneous` is set or a
        source entry that is not a directory sits above them. */
    ghost function Overlay(deleteExtraneous: bool): (t: Tree)
    {
      map q | q in s.Keys + d.Keys && (q in s || (Extraneous(q) && !deleteExtraneous))
        :: if NeedsCopy(q) then Transferred(s[q]) else d[q]
    }

    // ---------- Half-way destinations ----------

    ghost predicate KilledBy(done: set<Path>, q: Path) {
      exists p :: p in done && p in s && Ancestor(p, q) && s[p] != Directory
    }

    /** The destination once the copies in `done` were applied, where the links
        in `missing` could not be created. */
    ghost function Midway(done: set<Path>, missing: set<Path>): (t: Tree)
      requires done <= s.Keys
      ensures forall q :: q in t <==> q !in missing && (q in done || (q in d && !KilledBy(done, q)))
      ensures forall q :: q in t ==> t[q] == if q in done then Transferred(s[q]) else d[q]
    {
      map q | q in s.Keys + d.Keys && q !in missing && (q in done || (q in d && !KilledBy(done, q)))
        :: if q in done then Transferred(s[q]) else d[q]
    }

    /** `done` is a set of copies reached by a parents-first order, and p is next. */
    ghost predicate NextCopy(done: set<Path>, missing: set<Path>, p: Path) {
      && (forall q :: q in done ==> NeedsCopy(q) && !Covers(p, q))
      && (forall q :: NeedsCopy(q) && Ancestor(q, p) ==> q in done)
      && (forall q :: q in missing ==> q in done && s[q].Link?)
      && NeedsCopy(p)
    }

    /** The destination right before p is created: cleared if p is a replacement. */
    ghost function Cleared(done: set<Path>, missing: set<Path>, p: Path): Tree
      requires done <= s.Keys
    {
      if Replaces(p) then Prune(Midway(done, missing), p) else Midway(done, missing)
    }
  }

  /** Two trees agree at q. */
  predicate SameAt(a: Tree, b: Tree, q: Path) {
    (q in a <==> q in b) && (q in a ==> a[q] == b[q])
  }

  lemma SameExceptAt(a: Tree, b: Tree, p: Path)
    requires forall q :: q != p ==> SameAt(a, b, q)
    ensures p in b ==> a[p := b[p]] == b
    ensures p !in a && p !in b ==> a == b
  {
    assert forall q :: q != p ==> (q in a <==> q in b) by {
      forall q | q != p
        ensures q in a <==> q in b
      {
        assert SameAt(a, b, q);
      }
    }
    if p in b {
      forall q | q in b
        ensures q in a[p := b[p]] && a[p := b[p]][q] == b[q]
      {
        assert q == p || SameAt(a, b, q);
      }
      assert a[p := b[p]] == b;
    }
    if p !in a && p !in b {
      forall q | q in a
        ensures q in b && a[q] == b[q]
      {
        assert SameAt(a, b, q);
      }
    }
  }

  lemma MidwayStart(x: Diff)
    ensures x.Midway({}, {}) == x.d
  {
  }

  lemma NotKilledBelowSource(x: Diff, done: set<Path>, p: Path)
    requires x.Valid() && p in x.s
    ensures !x.KilledBy(done, p)
  {
    AllAncestorsAreDirectories(x.s);
  }

  /** When its turn comes, the entry a copy replaces is still the scanned one. */
  lemma ReplacedIsPresent(x: Diff, done: set<Path>, missing: set<Path>, p: Path)
    requires x.Valid() && x.NextCopy(done, missing, p) && p in x.d
    ensures p in x.Midway(done, missing) && x.Midway(done, missing)[p] == x.d[p]
  {
    NotKilledBelowSource(x, done, p);
    assert Covers(p, p);
  }

  /** When its turn comes, the parent of a copy is an existing directory. */
  lemma ParentIsReady(x: Diff, done: set<Path>, missing: set<Path>, p: Path)
    requires x.Valid() && x.NextCopy(done, missing, p)
    ensures p != []
    ensures Parent(p) in x.Midway(done, missing) && x.Midway(done, missing)[Parent(p)] == Directory
  {
    var parent := Parent(p);
    assert Ancestor(parent, p);
    NotKilledBelowSource(x, done, parent);
    if parent in done {
      assert parent !in missing;
    } else {
      assert !x.NeedsCopy(parent);
    }
  }

  /** Clearing or creating at p never hides its parent. */
  lemma CopyIsEnabled(x: Diff, done: set<Path>, missing: set<Path>, p: Path)
    requires x.Valid() && x.NextCopy(done, missing, p)
    ensures p != []
    ensures x.s[p].Directory? || x.s[p].Link? ==> CanCreate(x.Cleared(done, missing, p), p)
    ensures CanWrite(x.Cleared(done, missing, p), p)
            || x.s[p].Directory? || x.s[p].Link?
  {
    ParentIsReady(x, done, missing, p);
    assert Covers(p, p);
    assert !Covers(p, Parent(p));
    if p in x.d {
      ReplacedIsPresent(x, done, missing, p);
    }
  }

  /** One copy step takes the half-way destination to the next one. */
  lemma CopyAdvances(x: Diff, done: set<Path>, missing: set<Path>, p: Path)
    requires x.Valid() && x.NextCopy(done, missing, p)
    ensures x.Cleared(done, missing, p)[p := Transferred(x.s[p])] == x.Midway(done + {p}, missing)
  {
    var before, after := x.Cleared(done, missing, p), x.Midway(done + {p}, missing);
    forall q | q != p
      ensures SameAt(before, after, q)
    {
      BesidesTheCopy(x, done, missing, p, q);
    }
    SameExceptAt(before, after, p);
    assert p in after && after[p] == Transferred(x.s[p]);
  }

  /** A link that cannot be created leaves a cleared place behind. */
  lemma FailedLinkAdvances(x: Diff, done: set<Path>, missing: set<Path>, p: Path)
    requires x.Valid() && x.NextCopy(done, missing, p) && x.s[p].Link?
    ensures x.Cleared(done, missing, p) == x.Midway(done + {p}, missing + {p})
  {
    CopyIsEnabled(x, done, missing, p);
    var before, after := x.Cleared(done, missing, p), x.Midway(done + {p}, missing + {p});
    forall q | q != p
      ensures SameAt(before, after, q)
    {
      BesidesTheCopy(x, done, missing, p, q);
    }
    SameExceptAt(before, after, p);
  }

  lemma BesidesTheCopy(x: Diff, done: set<Path>, missing: set<Path>, p: Path, q: Path)
    requires x.Valid() && x.NextCopy(done, missing, p) && q != p
    ensures SameAt(x.Cleared(done, missing, p), x.Midway(done + {p}, missing), q)
  {
    if q in done {
      assert !Covers(p, q);
    } else if q in x.d && Ancestor(p, q) {
      AncestorsAreDirectories(x.d, p, q);
      assert p in x.d && x.d[p] == Directory;
      if x.s[p] == Directory {
        assert false;
      }
      assert x.KilledBy(done + {p}, q);
    } else if q in x.d {
      assert x.KilledBy(done, q) <==> x.KilledBy(done + {p}, q);
    }
  }

  // ---------- The cleanup pass ----------

  /** Among destination entries, exactly the shadowed ones die in the copy pass. */
  lemma KilledIsShadowed(x: Diff, q: Path)
    requires x.Valid() && q in x.d
    ensures x.KilledBy(x.CopySet(), q) <==> x.Shadowed(q)
  {
    if x.Shadowed(q) {
      var p :| p in x.s && Ancestor(p, q) && x.s[p] != Directory;
      AncestorsAreDirectories(x.d, p, q);
      assert p in x.CopySet();
    }
  }

  /** `deleted` holds the deletions done so far in a children-first order, and p is next. */
  ghost predicate NextDelete(x: Diff, deleted: set<Path>, p: Path) {
    && x.Extraneous(p) && p !in deleted
    && (forall q :: q in deleted ==> x.Extraneous(q))
    && (forall q :: x.Extraneous(q) && Ancestor(p, q) ==> q in deleted)
  }

  /** What lies below an extraneous entry is extraneous as well, or was killed. */
  lemma ExtraneousBelow(x: Diff, p: Path, q: Path)
    requires x.Valid() && x.Extraneous(p) && Ancestor(p, q)
    ensures q !in x.s
    ensures q in x.d ==> x.Extraneous(q)
  {
    if q in x.s {
      AncestorsAreDirectories(x.s, p, q);
    }
    if x.Shadowed(q) {
      var r :| r in x.s && Ancestor(r, q) && x.s[r] != Directory;
      AncestorsAreComparable(p, r, q);
      if Ancestor(p, r) {
        AncestorsAreDirectories(x.s, p, r);
      }
    }
  }

  /** When its turn comes, a deletion meets the scanned entry, and a directory is empty. */
  lemma DeleteIsEnabled(x: Diff, missing: set<Path>, deleted: set<Path>, p: Path)
    requires x.Valid() && NextDelete(x, deleted, p)
    requires forall q :: q in missing ==> q in x.s
    ensures var t := x.Midway(x.CopySet(), missing) - deleted;
            && p in t && t[p] == x.d[p]
            && if x.d[p] == Directory then CanRmdir(t, p) else CanUnlink(t, p)
  {
    var t := x.Midway(x.CopySet(), missing) - deleted;
    KilledIsShadowed(x, p);
    forall q | q in t
      ensures !Ancestor(p, q)
    {
      if Ancestor(p, q) {
        ExtraneousBelow(x, p, q);
      }
    }
  }

  /** Nothing to delete lies at or under a place to copy or replace. */
  lemma DeletionsAvoidCopies(x: Diff, p: Path, q: Path)
    requires x.Valid() && x.NeedsCopy(p) && x.Extraneous(q)
    ensures !Covers(p, q)
  {
    if Ancestor(p, q) {
      AncestorsAreDirectories(x.d, p, q);
    }
  }

  /** After both passes the destination is the promised overlay, less the links
      that could not be created. */
  lemma PassesReachOverlay(x: Diff, missing: set<Path>)
    requires x.Valid()
    ensures x.Midway(x.CopySet(), missing) == x.Overlay(false) - missing
    ensures x.Midway(x.CopySet(), missing) - x.DeleteSet() == x.Overlay(true) - missing
  {
    forall q | q in x.d
      ensures x.KilledBy(x.CopySet(), q) <==> x.Shadowed(q)
    {
      KilledIsShadowed(x, q);
    }
    forall q | q in x.s && q in x.d
      ensures !x.Shadowed(q)
    {
      AllAncestorsAreDirectories(x.s);
    }
  }

  // ---------- What a finished sync is worth ----------

  /** What stands at q after a sync, kind by kind: directories, links and changed or new
      files as in the source, special files and links of unknown target as plain files
      unless the destination has one of the kind, and the rest of the destination
      unless it was to be deleted or a file or link of the source took its place. */
  lemma WhatASyncLeaves(x: Diff, del: bool, q: Path)
    requires x.Valid()
    ensures var t := x.Overlay(del);
            if q in x.s then
              && q in t
              && match x.s[q]
                 case Directory => t[q] == Directory
                 case Link(_) => t[q] == x.s[q]
                 case Regular(_) => t[q] == if q in x.d && x.d[q].Regular? && q !in x.changed then x.d[q] else x.s[q]
                 case BrokenLink(data) => t[q] == if q in x.d && x.d[q].BrokenLink? then x.d[q] else Regular(data)
                 case Special(data) => t[q] == if q in x.d && x.d[q].Special? then x.d[q] else Regular(data)
            else
              && (q in t ==> t[q] == x.d[q])
              && (q in t <==>
                    q in x.d && !del && !exists p :: p in x.s && x.s[p] != Directory && |p| < |q| && p == q[..|p|])
  {
    if q in x.d && q !in x.s {
      if x.Shadowed(q) {
        var p :| p in x.s && Ancestor(p, q) && x.s[p] != Directory;
        assert |p| < |q| && p == q[..|p|];
      }
      forall p | p in x.s && x.s[p] != Directory && |p| < |q| && p == q[..|p|]
        ensures x.Shadowed(q)
      {
        assert Ancestor(p, q);
      }
    }
  }

  lemma OverlayIsWellFormed(x: Diff, del: bool)
    requires x.Valid()
    ensures WellFormed(x.Overlay(del))
  {
    var t := x.Overlay(del);
    forall q | q in t && q != []
      ensures Parent(q) in t && t[Parent(q)] == Directory
    {
      var p := Parent(q);
      assert Ancestor(p, q);
      if x.Shadowed(p) {
        var r :| r in x.s && Ancestor(r, p) && x.s[r] != Directory;
        assert Ancestor(r, q);
      }
    }
  }

  /** Two different regular files face each other, and the rule calls them unchanged. */
  predicate MissedAt(x: Diff, q: Path) {
    && q in x.s && q in x.d && x.s[q].Regular? && x.d[q].Regular?
    && x.s[q] != x.d[q] && q !in x.changed
  }

  /** The comparison rule missed no difference between two regular files. */
  predicate ComparisonSound(x: Diff) {
    forall q :: q in x.s ==> !MissedAt(x, q)
  }

  /** The rule when both sides can hash: sizes first, then content hashes. */
  predicate ComparedByHash(x: Diff, hash: Bytes -> int) {
    forall q :: q in x.s && q in x.d && x.s[q].Regular? && x.d[q].Regular? ==>
      (q in x.changed <==> |x.s[q].data| != |x.d[q].data| || hash(x.s[q].data) != hash(x.d[q].data))
  }

  /** Two different files of the same size and hash sit at the same place. */
  predicate CollisionAt(x: Diff, hash: Bytes -> int, q: Path) {
    && q in x.s && q in x.d && x.s[q].Regular? && x.d[q].Regular?
    && x.s[q] != x.d[q] && |x.s[q].data| == |x.d[q].data| && hash(x.s[q].data) == hash(x.d[q].data)
  }

  /** A hash comparison is sound exactly when no collision occurs. */
  lemma HashComparisonIsSound(x: Diff, hash: Bytes -> int)
    requires ComparedByHash(x, hash)
    ensures ComparisonSound(x) <==> forall q :: !CollisionAt(x, hash, q)
  {
    forall q | CollisionAt(x, hash, q)
      ensures !ComparisonSound(x)
    {
      assert q !in x.changed;
    }
    if !ComparisonSound(x) {
      var q :| q in x.s && MissedAt(x, q);
      assert CollisionAt(x, hash, q);
    }
  }

  /** The source entry at q survives a sync: it is one a copy reproduces, or the
      destination already had it. */
  predicate Reproducible(x: Diff, q: Path)
    requires q in x.s
  {
    Faithful(x.s[q]) || (q in x.d && x.d[q] == x.s[q])
  }

  predicate AllReproducible(x: Diff) {
    forall q :: q in x.s ==> Reproducible(x, q)
  }

  /** Each source entry arrives, if and only if the comparison missed no difference
      and each special file and unresolved link of the source was there already. */
  lemma SourceArrives(x: Diff, del: bool)
    requires x.Valid()
    ensures (forall q :: q in x.s ==> SameAt(x.Overlay(del), x.s, q)) <==> ComparisonSound(x) && AllReproducible(x)
  {
    var t := x.Overlay(del);
    forall q | q in x.s
      ensures SameAt(t, x.s, q) <==> Reproducible(x, q) && !MissedAt(x, q)
    {
    }
    forall q | q in x.s && ComparisonSound(x) && AllReproducible(x)
      ensures SameAt(t, x.s, q)
    {
      assert Reproducible(x, q) && !MissedAt(x, q);
    }
    if forall q :: q in x.s ==> SameAt(t, x.s, q) {
      forall q | q in x.s
        ensures Reproducible(x, q) && !MissedAt(x, q)
      {
        assert SameAt(t, x.s, q);
      }
    }
  }

  /** Convergence: a sync that may delete leaves exactly the source, if and only if
      the comparison missed no difference and each special file and unresolved link
      of the source was at the destination already. */
  lemma SyncConverges(x: Diff)
    requires x.Valid()
    ensures x.Overlay(true) == x.s <==> ComparisonSound(x) && AllReproducible(x)
  {
    hide ComparisonSound, AllReproducible;
    var t := x.Overlay(true);
    SourceArrives(x, true);
    assert forall q :: q in t <==> q in x.s;
    if forall q :: q in x.s ==> SameAt(t, x.s, q) {
      forall q | q in x.s
        ensures t[q] == x.s[q]
      {
        assert SameAt(t, x.s, q);
      }
      assert t == x.s;
    }
  }

  /** What the destination holds besides the source is exactly its own unshadowed
      remainder, kept as it was. */
  lemma SyncKeepsTheRest(x: Diff)
    requires x.Valid()
    ensures forall q :: q !in x.s ==> (q in x.Overlay(false) <==> q in x.d && !x.Shadowed(q))
    ensures forall q :: q in x.Overlay(false) && q !in x.s ==> SameAt(x.Overlay(false), x.d, q)
  {
  }

  /** What a second scan of the synced trees finds: the entries a copy does not
      reproduce, and the regular files its own comparison calls changed. */
  lemma SecondScan(x: Diff, del: bool, again: Diff)
    requires x.Valid() && again.s == x.s && again.d == x.Overlay(del)
    ensures forall q :: again.NeedsCopy(q) <==>
              || (x.NeedsCopy(q) && !Faithful(x.s[q]))
              || (q in x.s && x.s[q].Regular? && q in again.changed)
    ensures del ==> again.DeleteSet() == {}
  {
  }

  /** After a sync, no regular file differs from its source by size or hash. */
  lemma NothingChangedAgain(x: Diff, del: bool, again: Diff, hash: Bytes -> int, q: Path)
    requires x.Valid() && again.s == x.s && again.d == x.Overlay(del)
    requires ComparedByHash(x, hash) && ComparedByHash(again, hash)
    requires q in x.s && x.s[q].Regular?
    ensures q !in again.changed
  {
    assert again.d[q].Regular?;
  }

  /** Idempotence: when both scans compare by hash, the second one finds nothing
      to copy if and only if the first copied only entries a copy reproduces. It
      needs no assumption about collisions. */
  lemma SyncIsIdempotent(x: Diff, del: bool, again: Diff, hash: Bytes -> int)
    requires x.Valid() && again.s == x.s && again.d == x.Overlay(del)
    requires ComparedByHash(x, hash) && ComparedByHash(again, hash)
    ensures again.CopySet() == {} <==> forall q :: x.NeedsCopy(q) ==> Faithful(x.s[q])
    ensures del ==> again.DeleteSet() == {}
  {
    hide ComparedByHash, x.Overlay, WellFormed;
    SecondScan(x, del, again);
    forall q | q in x.s && x.s[q].Regular?
      ensures q !in again.changed
    {
      NothingChangedAgain(x, del, again, hash, q);
    }
    if forall q :: x.NeedsCopy(q) ==> Faithful(x.s[q]) {
      assert forall q :: !again.NeedsCopy(q);
    } else {
      var q :| x.NeedsCopy(q) && !Faithful(x.s[q]);
      assert q in again.CopySet();
    }
  }

  // ---------- The preview ----------

  /** Paths the plan announces: copies, deletions if there are any, and all below a
      replaced entry. */
  ghost predicate Announced(x: Diff, del: bool, q: Path) {
    || x.NeedsCopy(q) || (del && x.Extraneous(q))
    || exists p :: x.Replaces(p) && Covers(p, q)
  }

  /** e stands at q as scanned, or as all or the first part of the announced copy. */
  predicate Explained(x: Diff, q: Path, e: Entry) {
    || (q in x.d && e == x.d[q])
    || (x.NeedsCopy(q) && (e == Transferred(x.s[q]) || PartlyTransferred(x.s[q], e)))
  }

  predicate PartlyTransferred(source: Entry, e: Entry) {
    && !source.Directory? && !source.Link? && e.Regular?
    && e.data <= source.data
  }

  /** Outside the announced paths, t is still the scanned destination; and it holds
      nothing but scanned entries, copies, and the first part of a copy. */
  ghost predicate Honest(x: Diff, del: bool, t: Tree) {
    && (forall q :: !Announced(x, del, q) ==> SameAt(t, x.d, q))
    && (forall q :: q in t ==> Explained(x, q, t[q]))
  }

  lemma MidwayIsHonest(x: Diff, del: bool, done: set<Path>, missing: set<Path>)
    requires x.Valid() && done <= x.CopySet() && missing <= done
    ensures Honest(x, del, x.Midway(done, missing))
  {
    var t := x.Midway(done, missing);
    forall q | !Announced(x, del, q)
      ensures SameAt(t, x.d, q)
    {
      if q in x.d && x.KilledBy(done, q) {
        var p :| p in done && p in x.s && Ancestor(p, q) && x.s[p] != Directory;
        AncestorsAreDirectories(x.d, p, q);
        assert x.Replaces(p) && Covers(p, q);
      }
    }
    forall q | q in t
      ensures Explained(x, q, t[q])
    {
      assert q in done ==> x.NeedsCopy(q);
    }
  }

  /** Deletions keep the promise, and without deletion there are none. */
  lemma DeletionStaysHonest(x: Diff, del: bool, t: Tree, deleted: set<Path>)
    requires Honest(x, del, t) && deleted <= x.DeleteSet() && (del || deleted == {})
    ensures Honest(x, del, t - deleted)
  {
  }
}
