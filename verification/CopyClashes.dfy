/** Items with equal names: which entries a completed copy job has delivered. */
module CopyClashes {
  import opened Trees
  import opened Backends
  import opened Plans
  import opened SyncSpec
  import opened Copying
  import opened CopyTargets
  import opened CopyEffects

  // ---------- Steps that share a place ----------

  /** Step k is made, at the same place as step i. */
  predicate SamePlace(plan: seq<CopyItem>, skipped: set<nat>, i: nat, k: nat)
    requires i < |plan| && k < |plan|
  {
    k !in skipped && plan[k].dstPath == plan[i].dstPath
  }

  /** The last of the first n steps at a place wins. */
  lemma {:induction false} LastWins(d: Tree, s: Tree, plan: seq<CopyItem>, n: nat, skipped: set<nat>, i: nat)
    requires i < n <= |plan| && FromSource(s, plan) && i !in skipped
    requires forall k :: i < k < n ==> !SamePlace(plan, skipped, i, k)
    ensures plan[i].dstPath in LaidOut(d, s, plan, n, skipped)
    ensures LaidOut(d, s, plan, n, skipped)[plan[i].dstPath] == Transferred(s[plan[i].srcPath])
  {
    if i < n - 1 {
      assert !SamePlace(plan, skipped, i, n - 1);
      LastWins(d, s, plan, n - 1, skipped, i);
    }
  }

  /** The last of the first n steps that is made at the place of step i. */
  function LastAtPlace(plan: seq<CopyItem>, n: nat, skipped: set<nat>, i: nat): (k: nat)
    requires i < n <= |plan| && i !in skipped
    ensures i <= k < n && SamePlace(plan, skipped, i, k)
    ensures forall j :: k < j < n ==> !SamePlace(plan, skipped, k, j)
  {
    if SamePlace(plan, skipped, i, n - 1) then n - 1 else LastAtPlace(plan, n - 1, skipped, i)
  }

  /** The next step after i that is made at its place. */
  function NextAtPlace(plan: seq<CopyItem>, skipped: set<nat>, i: nat, from: nat, k: nat): (j: nat)
    requires i < from <= k < |plan| && SamePlace(plan, skipped, i, k)
    requires forall m :: i < m < from ==> !SamePlace(plan, skipped, i, m)
    ensures i < j <= k && SamePlace(plan, skipped, i, j)
    ensures forall m :: i < m < j ==> !SamePlace(plan, skipped, i, m)
    decreases k - from
  {
    if SamePlace(plan, skipped, i, from) then from else NextAtPlace(plan, skipped, i, from + 1, k)
  }

  /** Step k's entry is what td holds at its place. */
  predicate HeldAt(s: Tree, td: Tree, it: CopyItem)
    requires it.srcPath in s
  {
    it.dstPath in td && td[it.dstPath] == Transferred(s[it.srcPath])
  }

  /** No two steps that were made share a place and differ. */
  predicate NoStepClash(s: Tree, plan: seq<CopyItem>, skipped: set<nat>)
    requires FromSource(s, plan)
  {
    forall i, k :: 0 <= i < |plan| && 0 <= k < |plan| && i !in skipped && SamePlace(plan, skipped, i, k) ==>
      Transferred(s[plan[i].srcPath]) == Transferred(s[plan[k].srcPath])
  }

  /** A completed run delivers every step it made, if and only if no two of them
      share a place with different content. */
  lemma DeliversIffNoStepClash(d: Tree, s: Tree, plan: seq<CopyItem>, skipped: set<nat>)
    requires FromSource(s, plan)
    ensures (forall i :: 0 <= i < |plan| && i !in skipped ==> HeldAt(s, LaidOut(d, s, plan, |plan|, skipped), plan[i]))
            <==> NoStepClash(s, plan, skipped)
  {
    hide LaidOut, Transferred;
    var td := LaidOut(d, s, plan, |plan|, skipped);
    forall i | 0 <= i < |plan| && i !in skipped
      ensures var k := LastAtPlace(plan, |plan|, skipped, i);
              plan[i].dstPath in td && td[plan[i].dstPath] == Transferred(s[plan[k].srcPath])
    {
      LastWins(d, s, plan, |plan|, skipped, LastAtPlace(plan, |plan|, skipped, i));
    }
    if NoStepClash(s, plan, skipped) {
      forall i | 0 <= i < |plan| && i !in skipped
        ensures HeldAt(s, td, plan[i])
      {
        var k := LastAtPlace(plan, |plan|, skipped, i);
      }
    }
    if forall i :: 0 <= i < |plan| && i !in skipped ==> HeldAt(s, td, plan[i]) {
      forall i, k | 0 <= i < |plan| && 0 <= k < |plan| && i !in skipped && SamePlace(plan, skipped, i, k)
        ensures Transferred(s[plan[i].srcPath]) == Transferred(s[plan[k].srcPath])
      {
        assert HeldAt(s, td, plan[i]) && HeldAt(s, td, plan[k]);
      }
    }
  }

  /** In a completed run only transfers can share a place: everything else is refused
      where something is already, and nothing is transferred over anything else. */
  lemma OnlyTransfersShare(d: Tree, s: Tree, plan: seq<CopyItem>, skipped: set<nat>, i: nat, k: nat)
    requires FromSource(s, plan) && AllEnabled(d, s, plan, |plan|, skipped)
    requires i < k < |plan| && i !in skipped && SamePlace(plan, skipped, i, k)
    ensures IsTransfer(KindOf(s[plan[i].srcPath])) && IsTransfer(KindOf(s[plan[k].srcPath]))
  {
    hide LaidOut;
    var first := NextAtPlace(plan, skipped, i, i + 1, k);
    LastWins(d, s, plan, first, skipped, i);
    assert CopyEnabled(LaidOut(d, s, plan, first, skipped), s[plan[first].srcPath], plan[first].dstPath);
    var before := LastAtPlace(plan, k, skipped, i);
    LastWins(d, s, plan, k, skipped, before);
    assert CopyEnabled(LaidOut(d, s, plan, k, skipped), s[plan[k].srcPath], plan[k].dstPath);
  }

  // ---------- Items that share a name ----------

  predicate SameName(a: Path, b: Path) {
    a != [] && b != [] && a[|a| - 1] == b[|b| - 1]
  }

  /** No two items with one name are both transferred, as different content. */
  predicate NoClash(s: Tree, items: seq<Path>) {
    forall i, j :: 0 <= i < |items| && 0 <= j < |items| && items[i] in s && items[j] in s ==>
      !Clash(s, items[i], items[j])
  }

  predicate Clash(s: Tree, a: Path, b: Path)
    requires a in s && b in s
  {
    && SameName(a, b) && IsTransfer(KindOf(s[a])) && IsTransfer(KindOf(s[b]))
    && Transferred(s[a]) != Transferred(s[b])
  }

  lemma ApartMeansNoClash(s: Tree, items: seq<Path>)
    requires NamedApart(items, |items|)
    ensures NoClash(s, items)
  {
    forall i, j | 0 <= i < |items| && 0 <= j < |items| && items[i] in s && items[j] in s
      ensures !Clash(s, items[i], items[j])
    {
      assert i == j || !SameName(items[i], items[j]);
    }
  }

  /** Every selected entry but links is at its place. */
  predicate AllDelivered(s: Tree, td: Tree, items: seq<Path>, destDir: Path) {
    forall i, p :: 0 <= i < |items| && Covers(items[i], p) && p in s && !s[p].Link? ==>
      && Rebase(items[i], Target(destDir, items[i]), p) in td
      && td[Rebase(items[i], Target(destDir, items[i]), p)] == Transferred(s[p])
  }

  /** A completed run of a scanned plan. */
  ghost predicate RunsThrough(s: Tree, d: Tree, items: seq<Path>, destDir: Path, plan: seq<CopyItem>,
                              skipped: set<nat>) {
    && WellFormed(s) && ScannedCopies(s, items, destDir, |items|, plan)
    && FromSource(s, plan) && SkipsLinks(s, plan, |plan|, skipped)
    && AllEnabled(d, s, plan, |plan|, skipped)
  }

  /** Equal places come from items with one name and the same way below them. */
  lemma SharedPlace(destDir: Path, a: Path, b: Path, p: Path, q: Path)
    requires a != [] && b != [] && Covers(a, p) && Covers(b, q)
    requires Rebase(a, Target(destDir, a), p) == Rebase(b, Target(destDir, b), q)
    ensures SameName(a, b) && Target(destDir, a) == Target(destDir, b) && p[|a|..] == q[|b|..]
  {
    var place, n := Rebase(a, Target(destDir, a), p), |destDir| + 1;
    assert place[..n] == Target(destDir, a) && place[..n] == Target(destDir, b);
    assert place[n..] == p[|a|..] && place[n..] == q[|b|..];
    assert place[n - 1] == a[|a| - 1] && place[n - 1] == b[|b| - 1];
  }

  /** Two different items with one name cannot both be directories of a completed run. */
  lemma DirectoriesDoNotShare(s: Tree, d: Tree, items: seq<Path>, destDir: Path, plan: seq<CopyItem>, skipped: set<nat>,
                              a: nat, b: nat)
    requires RunsThrough(s, d, items, destDir, plan, skipped)
    requires a < |items| && b < |items| && SameName(items[a], items[b]) && items[a] != items[b]
    ensures !(s[items[a]] == Directory && s[items[b]] == Directory)
  {
    hide WalkedInTurn, AllPlanned, NamedApart, JobPlan, LaidOut, AllEnabled, Describes;
    if s[items[a]] == Directory && s[items[b]] == Directory {
      var i := TopStep(s, items, destDir, plan, a);
      var k := TopStep(s, items, destDir, plan, b);
      if i < k {
        OnlyTransfersShare(d, s, plan, skipped, i, k);
      } else {
        OnlyTransfersShare(d, s, plan, skipped, k, i);
      }
    }
  }

  /** The step that copies an item itself. */
  lemma TopStep(s: Tree, items: seq<Path>, destDir: Path, plan: seq<CopyItem>, a: nat) returns (k: nat)
    requires ScannedCopies(s, items, destDir, |items|, plan) && a < |items|
    ensures k < |plan| && plan[k].srcPath == items[a] && plan[k].dstPath == Target(destDir, items[a])
  {
    hide WalkedInTurn, AllPlanned, NamedApart, JobPlan, Target;
    k := StepFound(s, items, destDir, |items|, plan, a, items[a]);
    assert items[a][|items[a]|..] == [] && Target(destDir, items[a]) + [] == Target(destDir, items[a]);
  }

  /** The item a step belongs to. */
  lemma OwnerOf(s: Tree, items: seq<Path>, destDir: Path, plan: seq<CopyItem>, k: nat) returns (a: nat)
    requires ScannedCopies(s, items, destDir, |items|, plan) && k < |plan|
    ensures a < |items| && items[a] != [] && Covers(items[a], plan[k].srcPath) && plan[k].srcPath in s
    ensures plan[k].dstPath == Rebase(items[a], Target(destDir, items[a]), plan[k].srcPath)
  {
    hide WalkedInTurn, NamedApart, JobPlan, Target;
    assert PlannedFor(s, items, destDir, plan[k]);
    a :| 0 <= a < |items| && PlannedCopy(s, plan[k], items[a], Target(destDir, items[a]));
  }

  /** Without a clash, two steps of a completed run at one place carry the same. */
  lemma SharersAgree(s: Tree, d: Tree, items: seq<Path>, destDir: Path, plan: seq<CopyItem>, skipped: set<nat>, i: nat,
                     k: nat)
    requires RunsThrough(s, d, items, destDir, plan, skipped) && NoClash(s, items)
    requires i < k < |plan| && i !in skipped && SamePlace(plan, skipped, i, k)
    ensures Transferred(s[plan[i].srcPath]) == Transferred(s[plan[k].srcPath])
  {
    hide ScannedCopies, LaidOut, AllEnabled, Target, Rebase, SkipsLinks, NoClash, Transferred, IsTransfer, WellFormed;
    OnlyTransfersShare(d, s, plan, skipped, i, k);
    var a := OwnerOf(s, items, destDir, plan, i);
    var b := OwnerOf(s, items, destDir, plan, k);
    SharedPlace(destDir, items[a], items[b], plan[i].srcPath, plan[k].srcPath);
    SharersOfItems(s, d, items, destDir, plan, skipped, a, b, plan[i].srcPath, plan[k].srcPath);
  }

  lemma SharersOfItems(s: Tree, d: Tree, items: seq<Path>, destDir: Path, plan: seq<CopyItem>, skipped: set<nat>,
                       a: nat, b: nat, p: Path, q: Path)
    requires RunsThrough(s, d, items, destDir, plan, skipped) && NoClash(s, items)
    requires a < |items| && b < |items| && SameName(items[a], items[b])
    requires Covers(items[a], p) && Covers(items[b], q) && p[|items[a]|..] == q[|items[b]|..]
    requires p in s && q in s && IsTransfer(KindOf(s[p])) && IsTransfer(KindOf(s[q]))
    ensures Transferred(s[p]) == Transferred(s[q])
  {
    hide WalkedInTurn, AllPlanned, NamedApart, JobPlan, LaidOut, AllEnabled, FromSource, SkipsLinks, Transferred;
    assert p == items[a] + p[|items[a]|..] && q == items[b] + q[|items[b]|..];
    if p == items[a] {
      assert q == items[b] && !Clash(s, items[a], items[b]);
    } else if items[a] != items[b] {
      AncestorsAreDirectories(s, items[a], p);
      AncestorsAreDirectories(s, items[b], q);
      DirectoriesDoNotShare(s, d, items, destDir, plan, skipped, a, b);
    }
  }

  /** A completed copy job has delivered every selected entry but links, if and only
      if no two items with one name are transferred as different content. */
  lemma DeliveredIffNoClash(s: Tree, d: Tree, items: seq<Path>, destDir: Path, plan: seq<CopyItem>, skipped: set<nat>)
    requires RunsThrough(s, d, items, destDir, plan, skipped)
    ensures AllDelivered(s, LaidOut(d, s, plan, |plan|, skipped), items, destDir) <==> NoClash(s, items)
  {
    hide WalkedInTurn, AllPlanned, NamedApart, JobPlan, LaidOut, AllEnabled, Target, Rebase, Transferred, WellFormed;
    var td := LaidOut(d, s, plan, |plan|, skipped);
    if NoClash(s, items) {
      forall i, k | 0 <= i < |plan| && 0 <= k < |plan| && i !in skipped && SamePlace(plan, skipped, i, k)
        ensures Transferred(s[plan[i].srcPath]) == Transferred(s[plan[k].srcPath])
      {
        if i < k {
          SharersAgree(s, d, items, destDir, plan, skipped, i, k);
        } else if k < i {
          SharersAgree(s, d, items, destDir, plan, skipped, k, i);
        }
      }
      DeliversIffNoStepClash(d, s, plan, skipped);
      forall a, p | 0 <= a < |items| && Covers(items[a], p) && p in s && !s[p].Link?
        ensures Rebase(items[a], Target(destDir, items[a]), p) in td
        ensures td[Rebase(items[a], Target(destDir, items[a]), p)] == Transferred(s[p])
      {
        var k := StepFound(s, items, destDir, |items|, plan, a, p);
        assert HeldAt(s, td, plan[k]);
      }
    }
    if AllDelivered(s, td, items, destDir) {
      forall a, b | 0 <= a < |items| && 0 <= b < |items| && items[a] in s && items[b] in s
        ensures !Clash(s, items[a], items[b])
      {
        ClashMeansLost(s, td, items, destDir, a, b);
      }
    }
  }

  lemma ClashMeansLost(s: Tree, td: Tree, items: seq<Path>, destDir: Path, a: nat, b: nat)
    requires a < |items| && b < |items| && items[a] in s && items[b] in s && AllDelivered(s, td, items, destDir)
    ensures !Clash(s, items[a], items[b])
  {
    forall c | c == a || c == b
      ensures Rebase(items[c], Target(destDir, items[c]), items[c]) == Target(destDir, items[c])
    {
      assert items[c][|items[c]|..] == [] && Target(destDir, items[c]) + [] == Target(destDir, items[c]);
    }
  }

  // ---------- Two files with one name ----------

  lemma OnePathAtMostOnce(ps: seq<Path>, p: Path)
    requires forall i :: 0 <= i < |ps| ==> ps[i] == p
    ensures ParentsFirst(ps) ==> |ps| <= 1
  {
    if |ps| > 1 {
      assert Covers(ps[1], ps[0]);
    }
  }

  /** Walking a file yields one step. */
  lemma WalkOfLeaf(t: Tree, plan: seq<CopyItem>, item: Path, to: Path)
    requires WellFormed(t) && item in t && t[item] != Directory
    requires CopyPlan(t, plan, item, to, Region(t, item))
    ensures |plan| == 1 && plan[0].srcPath == item && plan[0].dstPath == to
  {
    hide Describes, WellFormed;
    RegionOfLeaf(t, item);
    var ps := SrcPaths(plan);
    assert item in ps;
    assert forall i :: 0 <= i < |ps| ==> ps[i] in Region(t, item);
    OnePathAtMostOnce(ps, item);
    assert item[|item|..] == [] && to + [] == to;
  }

  /** The plan scanned from two files: the first one's step, then the second one's. */
  lemma PlanOfTwoFiles(s: Tree, a: Path, b: Path, destDir: Path, plan: seq<CopyItem>)
    requires WellFormed(s) && ScannedCopies(s, [a, b], destDir, 2, plan)
    requires a in s && s[a].Regular? && b in s && s[b].Regular?
    ensures |plan| == 2
    ensures plan[0].srcPath == a && plan[0].dstPath == Target(destDir, a)
    ensures plan[1].srcPath == b && plan[1].dstPath == Target(destDir, b)
  {
    hide CopyPlan, Target, AllPlanned, NamedApart, JobPlan, WellFormed;
    var items := [a, b];
    assert WalkedInTurn(s, items, destDir, 2, plan);
    var cut :| 0 <= cut <= |plan| && WalkedUpTo(s, items, destDir, 2, plan, cut);
    WalkOfLeaf(s, plan[cut..], b, Target(destDir, b));
    var first := plan[..cut];
    assert WalkedInTurn(s, items, destDir, 1, first);
    var start :| 0 <= start <= |first| && WalkedUpTo(s, items, destDir, 1, first, start);
    assert WalkedInTurn(s, items, destDir, 0, first[..start]);
    assert first[..start] == [] && first[start..] == first;
    WalkOfLeaf(s, first, a, Target(destDir, a));
  }

  /** Two different files with one name: every step of the scanned plan is enabled,
      and the completed run holds the second file where the first one was copied. */
  lemma SameNameOverwrites(s: Tree, d: Tree, a: Path, b: Path, destDir: Path, plan: seq<CopyItem>)
    requires WellFormed(s) && ScannedCopies(s, [a, b], destDir, 2, plan) && FromSource(s, plan)
    requires SameName(a, b) && a in s && s[a].Regular? && b in s && s[b].Regular? && s[a] != s[b]
    requires CanCreate(d, destDir + [a[|a| - 1]])
    ensures RunsThrough(s, d, [a, b], destDir, plan, {})
    ensures var td, place := LaidOut(d, s, plan, |plan|, {}), destDir + [a[|a| - 1]];
            && place in td && td[place] == s[b]
            && !AllDelivered(s, td, [a, b], destDir)
  {
    hide WalkedInTurn, AllPlanned, NamedApart, JobPlan, WellFormed;
    var items := [a, b];
    assert a == a[..|a| - 1] + [a[|a| - 1]];
    PlaceOf(destDir, a[..|a| - 1], a[|a| - 1], []);
    PlanOfTwoFiles(s, a, b, destDir, plan);
    assert LaidOut(d, s, plan, 0, {}) == d;
    assert LaidOut(d, s, plan, 1, {}) == d[plan[0].dstPath := s[a]];
    assert Clash(s, items[0], items[1]);
    DeliveredIffNoClash(s, d, items, destDir, plan, {});
  }
}
