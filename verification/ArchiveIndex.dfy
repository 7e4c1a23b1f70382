/** `build_index`: from the flat list of an archive's entries to a sorted index in
    which every parent directory is present. */
module ArchiveIndex {
  import opened Base
  import opened Trees
  import opened Walks
  import opened ArchivePaths

  /** One entry as stored; `data` is what extracting it yields. */
  datatype RawEntry = RawEntry(
    rawPath: string,
    isDir: bool,
    isSymlink: bool,
    symlinkTarget: Option<string>,
    size: nat,
    modified: Option<int>,
    permissions: Option<nat>,
    data: Bytes)

  datatype ArchiveEntry = ArchiveEntry(path: Path, kind: Kind, size: nat, modified: Option<int>,
                                       permissions: Option<nat>)

  function SanitizedTarget(target: Option<string>): Option<string> {
    if target.None? || Sanitize(target.value).None? then None else Some(Render(Sanitize(target.value).value))
  }

  /** How the index records a raw entry at its clean path. */
  function Recorded(raw: RawEntry, p: Path): ArchiveEntry {
    var kind := if raw.isSymlink then Symlink(SanitizedTarget(raw.symlinkTarget)) else if raw.isDir then Dir else File;
    ArchiveEntry(p, kind, raw.size, raw.modified, raw.permissions)
  }

  function Synthesized(p: Path): ArchiveEntry {
    ArchiveEntry(p, Dir, 0, None, None)
  }

  /** Raw entry i stands at p. */
  predicate StandsAt(raws: seq<RawEntry>, i: nat, p: Path)
    requires i < |raws|
  {
    Sanitize(raws[i].rawPath) == Some(p)
  }

  /** Some of the first n raw entries stands at p. */
  predicate Explicit(raws: seq<RawEntry>, n: nat, p: Path)
    requires n <= |raws|
  {
    exists i :: 0 <= i < n && StandsAt(raws, i, p)
  }

  /** The last of the first n raw entries that stands at p. */
  function LastAt(raws: seq<RawEntry>, n: nat, p: Path): (i: nat)
    requires n <= |raws| && Explicit(raws, n, p)
    ensures i < n && StandsAt(raws, i, p)
    ensures forall j :: i < j < n ==> !StandsAt(raws, j, p)
  {
    if StandsAt(raws, n - 1, p) then n - 1 else LastAt(raws, n - 1, p)
  }

  /** The explicit entries, each as its last occurrence. */
  ghost predicate KeepsLast(raws: seq<RawEntry>, n: nat, m: map<Path, ArchiveEntry>)
    requires n <= |raws|
  {
    forall p :: (p in m <==> Explicit(raws, n, p)) && (p in m ==> m[p] == Recorded(raws[LastAt(raws, n, p)], p))
  }

  lemma KeepsNextLast(raws: seq<RawEntry>, n: nat, m: map<Path, ArchiveEntry>, p: Path)
    requires n < |raws| && KeepsLast(raws, n, m) && StandsAt(raws, n, p)
    ensures KeepsLast(raws, n + 1, m[p := Recorded(raws[n], p)])
  {
  }

  lemma KeepsSkipping(raws: seq<RawEntry>, n: nat, m: map<Path, ArchiveEntry>)
    requires n < |raws| && KeepsLast(raws, n, m) && Sanitize(raws[n].rawPath).None?
    ensures KeepsLast(raws, n + 1, m)
  {
  }

  method CollectExplicit(raws: seq<RawEntry>) returns (byPath: map<Path, ArchiveEntry>)
    ensures KeepsLast(raws, |raws|, byPath)
  {
    hide KeepsLast, Recorded;
    byPath := map[];
    NothingCollectedYet(raws);
    for n := 0 to |raws|
      invariant KeepsLast(raws, n, byPath)
    {
      var path := SanitizePath(raws[n].rawPath);
      if path.Some? {
        KeepsNextLast(raws, n, byPath, path.value);
        byPath := byPath[path.value := Recorded(raws[n], path.value)];
      } else {
        KeepsSkipping(raws, n, byPath);
      }
    }
  }

  lemma NothingCollectedYet(raws: seq<RawEntry>)
    ensures KeepsLast(raws, 0, map[])
  {
  }

  // ---------- Ancestors ----------

  /** p is a directory that must exist for the entries in `paths`: a proper
      ancestor of one of them, other than the root. */
  predicate Needed(paths: set<Path>, p: Path) {
    p != [] && exists q :: q in paths && Ancestor(p, q)
  }

  /** What the ancestor loop finds from q before it breaks: the ancestors with no
      explicit entry between them and q, and none at them. */
  predicate InGap(paths: set<Path>, q: Path, p: Path) {
    p != [] && Ancestor(p, q) && forall a :: a in paths && Ancestor(a, q) ==> !Covers(p, a)
  }

  /** The loop over the ancestors of one entry, nearest first. It stops at the root
      or at the first explicit entry. */
  method AddAncestors(byPath: map<Path, ArchiveEntry>, q: Path, toAdd: Vec<Path>)
    requires q != []
    modifies toAdd
    ensures forall p :: p in toAdd.items <==> p in old(toAdd.items) || InGap(byPath.Keys, q, p)
  {
    var k := |q| - 1;
    while k > 0 && q[..k] !in byPath
      invariant 0 <= k < |q|
      invariant forall j :: k < j < |q| ==> q[..j] !in byPath
      invariant forall p :: p in toAdd.items <==> p in old(toAdd.items) || exists j :: k < j < |q| && p == q[..j]
    {
      toAdd.Push(q[..k]);
      k := k - 1;
    }
    forall p
      ensures InGap(byPath.Keys, q, p) <==> exists j :: k < j < |q| && p == q[..j]
    {
      GapIsSegment(byPath.Keys, q, k, p);
    }
  }

  lemma GapIsSegment(paths: set<Path>, q: Path, k: nat, p: Path)
    requires k < |q| && (k == 0 || q[..k] in paths) && forall j :: k < j < |q| ==> q[..j] !in paths
    ensures InGap(paths, q, p) <==> exists j :: k < j < |q| && p == q[..j]
  {
    if exists j :: k < j < |q| && p == q[..j] {
      var j :| k < j < |q| && p == q[..j];
      forall a | a in paths && Ancestor(a, q)
        ensures !Covers(p, a)
      {
        assert a == q[..|a|];
      }
    }
    if InGap(paths, q, p) {
      assert p == q[..|p|];
      if 0 < |p| <= k {
        assert Covers(p, q[..k]) && Ancestor(q[..k], q);
      }
    }
  }

  /** Closing the gaps of every entry reaches all needed directories, although each
      loop breaks early: what lies beyond the break is in the gap of the entry that
      caused it. */
  lemma {:induction false} GapsReachEverything(paths: set<Path>, q: Path, p: Path)
    requires q in paths && p != [] && Ancestor(p, q)
    ensures p in paths || exists r :: r in paths && InGap(paths, r, p)
    decreases |q|
  {
    if !InGap(paths, q, p) {
      var a :| a in paths && Ancestor(a, q) && Covers(p, a);
      if a != p {
        GapsReachEverything(paths, a, p);
      }
    }
  }

  lemma GapsAreNeeded(paths: set<Path>, q: Path, p: Path)
    requires q in paths && InGap(paths, q, p)
    ensures Needed(paths, p) && p !in paths
  {
  }

  predicate RootFree(paths: set<Path>) {
    [] !in paths
  }

  method CollectAncestors(byPath: map<Path, ArchiveEntry>) returns (toAdd: Vec<Path>)
    requires RootFree(byPath.Keys)
    ensures fresh(toAdd)
    ensures forall p :: p in toAdd.items ==> Needed(byPath.Keys, p) && p !in byPath
    ensures forall p :: Needed(byPath.Keys, p) && p !in byPath ==> p in toAdd.items
  {
    hide InGap, Needed;
    toAdd := new Vec();
    var todo := byPath.Keys;
    while todo != {}
      invariant todo <= byPath.Keys && fresh(toAdd)
      invariant forall p :: p in toAdd.items ==> exists q :: q in byPath && InGap(byPath.Keys, q, p)
      invariant forall q, p :: q in byPath.Keys - todo && InGap(byPath.Keys, q, p) ==> p in toAdd.items
    {
      var q :| q in todo;
      AddAncestors(byPath, q, toAdd);
      todo := todo - {q};
    }
    forall p | p in toAdd.items
      ensures Needed(byPath.Keys, p) && p !in byPath
    {
      var q :| q in byPath && InGap(byPath.Keys, q, p);
      GapsAreNeeded(byPath.Keys, q, p);
    }
    forall p | Needed(byPath.Keys, p) && p !in byPath
      ensures p in toAdd.items
    {
      NeededIsInGap(byPath.Keys, p);
    }
  }

  lemma NeededIsInGap(paths: set<Path>, p: Path)
    requires Needed(paths, p) && p !in paths
    ensures exists r :: r in paths && InGap(paths, r, p)
  {
    var q :| q in paths && Ancestor(p, q);
    GapsReachEverything(paths, q, p);
  }

  // ---------- Sorting ----------

  predicate Sorted(entries: seq<ArchiveEntry>) {
    forall i, j :: 0 <= i < j < |entries| ==> PathLess(entries[i].path, entries[j].path)
  }

  predicate HasPath(entries: seq<ArchiveEntry>, p: Path) {
    exists i :: 0 <= i < |entries| && entries[i].path == p
  }

  /** The sequence holds exactly the values of m at the paths in `done`. */
  ghost predicate Holds(entries: seq<ArchiveEntry>, m: map<Path, ArchiveEntry>, done: set<Path>) {
    && (forall i :: 0 <= i < |entries| ==>
        entries[i].path in done && entries[i].path in m && entries[i] == m[entries[i].path])
    && (forall p :: p in done ==> HasPath(entries, p))
  }

  lemma InsertKeepsSorted(entries: seq<ArchiveEntry>, k: nat, e: ArchiveEntry)
    requires k <= |entries| && Sorted(entries)
    requires forall i :: 0 <= i < k ==> PathLess(entries[i].path, e.path)
    requires k < |entries| ==> PathLess(e.path, entries[k].path)
    ensures Sorted(entries[..k] + [e] + entries[k..])
  {
    forall i | k <= i < |entries|
      ensures PathLess(e.path, entries[i].path)
    {
      PathOrder(e.path, entries[k].path, entries[i].path);
    }
  }

  lemma InsertHolds(entries: seq<ArchiveEntry>, k: nat, m: map<Path, ArchiveEntry>, done: set<Path>, p: Path)
    requires k <= |entries| && Holds(entries, m, done) && p in m
    ensures Holds(entries[..k] + [m[p]] + entries[k..], m, done + {p}) || m[p].path != p
  {
    if m[p].path == p {
      var r := entries[..k] + [m[p]] + entries[k..];
      assert r[k].path == p;
      forall q | q in done
        ensures HasPath(r, q)
      {
        var i :| 0 <= i < |entries| && entries[i].path == q;
        assert r[if i < k then i else i + 1].path == q;
      }
    }
  }

  predicate OwnPaths(m: map<Path, ArchiveEntry>) {
    forall p :: p in m ==> m[p].path == p
  }

  method SortByPath(m: map<Path, ArchiveEntry>) returns (entries: seq<ArchiveEntry>)
    requires OwnPaths(m)
    ensures Sorted(entries) && Holds(entries, m, m.Keys)
  {
    hide Sorted, Holds, PathLess;
    entries := [];
    var todo := m.Keys;
    NothingSortedYet(m);
    while todo != {}
      invariant todo <= m.Keys
      invariant Sorted(entries) && Holds(entries, m, m.Keys - todo)
    {
      var p :| p in todo;
      var k := Position(entries, m, m.Keys - todo, p);
      InsertKeepsSorted(entries, k, m[p]);
      InsertHolds(entries, k, m, m.Keys - todo, p);
      entries := entries[..k] + [m[p]] + entries[k..];
      assert m.Keys - todo + {p} == m.Keys - (todo - {p});
      todo := todo - {p};
    }
    assert m.Keys - {} == m.Keys;
  }

  lemma NothingSortedYet(m: map<Path, ArchiveEntry>)
    ensures Sorted([]) && Holds([], m, m.Keys - m.Keys)
  {
  }

  method Position(entries: seq<ArchiveEntry>, m: map<Path, ArchiveEntry>, ghost done: set<Path>, p: Path)
    returns (k: nat)
    requires Holds(entries, m, done) && p in m && p !in done && m[p].path == p
    ensures k <= |entries| && forall i :: 0 <= i < k ==> PathLess(entries[i].path, p)
    ensures k < |entries| ==> PathLess(p, entries[k].path)
  {
    hide PathLess;
    k := 0;
    while k < |entries| && PathLess(entries[k].path, p)
      invariant 0 <= k <= |entries| && forall i :: 0 <= i < k ==> PathLess(entries[i].path, p)
    {
      k := k + 1;
    }
    if k < |entries| {
      PathOrder(entries[k].path, p, p);
    }
  }

  // ---------- The index ----------

  /** p is one of the accepted paths or lies above one, below the root. */
  predicate InClosure(raws: seq<RawEntry>, p: Path) {
    p != [] && exists i :: 0 <= i < |raws| && Reaches(raws[i], p)
  }

  predicate Reaches(raw: RawEntry, p: Path) {
    Sanitize(raw.rawPath).Some? && Covers(p, Sanitize(raw.rawPath).value)
  }

  /** The index of an archive: strictly sorted by path; its paths are exactly the
      prefix closure of the accepted raw paths; explicit entries are recorded from
      their last occurrence, and all others are synthesized directories. */
  ghost predicate Indexes(raws: seq<RawEntry>, entries: seq<ArchiveEntry>) {
    && Sorted(entries)
    && (forall p :: HasPath(entries, p) <==> InClosure(raws, p))
    && (forall i :: 0 <= i < |entries| ==>
          entries[i] == if Explicit(raws, |raws|, entries[i].path)
                        then Recorded(raws[LastAt(raws, |raws|, entries[i].path)], entries[i].path)
                        else Synthesized(entries[i].path))
  }

  lemma ClosureByNeed(raws: seq<RawEntry>, byPath: map<Path, ArchiveEntry>, p: Path)
    requires KeepsLast(raws, |raws|, byPath)
    ensures InClosure(raws, p) <==> p in byPath || Needed(byPath.Keys, p)
  {
    forall i | 0 <= i < |raws| && Sanitize(raws[i].rawPath).Some?
      ensures Sanitize(raws[i].rawPath).value in byPath && Sanitize(raws[i].rawPath).value != []
    {
      assert StandsAt(raws, i, Sanitize(raws[i].rawPath).value);
      SanitizedIsPlain(raws[i].rawPath);
    }
    if p in byPath {
      var i :| 0 <= i < |raws| && StandsAt(raws, i, p);
      SanitizedIsPlain(raws[i].rawPath);
      assert Reaches(raws[i], p);
    } else if Needed(byPath.Keys, p) {
      var q :| q in byPath && Ancestor(p, q);
      var i :| 0 <= i < |raws| && StandsAt(raws, i, q);
      assert Reaches(raws[i], p);
    }
  }

  lemma NoRootRecorded(raws: seq<RawEntry>, byPath: map<Path, ArchiveEntry>)
    requires KeepsLast(raws, |raws|, byPath)
    ensures RootFree(byPath.Keys)
  {
  }

  /** The explicit entries and the directories added to them. */
  ghost predicate GapsFilled(byPath: map<Path, ArchiveEntry>, added: seq<Path>, n: nat, m: map<Path, ArchiveEntry>)
    requires n <= |added|
  {
    && (forall p :: p in m <==> p in byPath || p in added[..n])
    && (forall p :: p in m ==> m[p] == if p in byPath then byPath[p] else Synthesized(p))
  }

  method AddDirectories(byPath: map<Path, ArchiveEntry>, added: seq<Path>) returns (m: map<Path, ArchiveEntry>)
    ensures GapsFilled(byPath, added, |added|, m)
  {
    m := byPath;
    for n := 0 to |added|
      invariant GapsFilled(byPath, added, n, m)
    {
      assert added[..n + 1] == added[..n] + [added[n]];
      if added[n] !in m {
        m := m[added[n] := Synthesized(added[n])];
      }
    }
  }

  lemma CompletedIsIndex(raws: seq<RawEntry>, byPath: map<Path, ArchiveEntry>, added: seq<Path>,
                         m: map<Path, ArchiveEntry>, entries: seq<ArchiveEntry>)
    requires KeepsLast(raws, |raws|, byPath) && GapsFilled(byPath, added, |added|, m)
    requires forall p :: p in added ==> Needed(byPath.Keys, p) && p !in byPath
    requires forall p :: Needed(byPath.Keys, p) && p !in byPath ==> p in added
    requires Sorted(entries) && Holds(entries, m, m.Keys)
    ensures Indexes(raws, entries)
  {
    hide Needed, InClosure, Sorted, Recorded, StandsAt;
    assert added[..|added|] == added;
    forall p
      ensures HasPath(entries, p) <==> InClosure(raws, p)
    {
      ClosureByNeed(raws, byPath, p);
    }
  }

  lemma RecordedPaths(raws: seq<RawEntry>, byPath: map<Path, ArchiveEntry>, added: seq<Path>,
                      m: map<Path, ArchiveEntry>)
    requires KeepsLast(raws, |raws|, byPath) && GapsFilled(byPath, added, |added|, m)
    ensures OwnPaths(m)
  {
  }

  // ---------- The index by the texts in the archive ----------

  /** Raw entry i is the last one whose text means p. */
  ghost predicate LastMeaning(raws: seq<RawEntry>, i: nat, p: Path)
    requires i < |raws|
  {
    MeansPath(raws[i].rawPath, p) && forall j :: i < j < |raws| ==> !MeansPath(raws[j].rawPath, p)
  }

  /** e holds what the archive says of raw. The target of a link is told as a clean
      path, or not at all. */
  ghost predicate HoldsWhatIsStored(e: ArchiveEntry, raw: RawEntry) {
    && e.size == raw.size && e.modified == raw.modified && e.permissions == raw.permissions
    && (!raw.isSymlink ==> e.kind == if raw.isDir then Dir else File)
    && (raw.isSymlink ==> e.kind.Symlink? && TargetIsStored(e.kind.target, raw.symlinkTarget))
  }

  ghost predicate TargetIsStored(target: Option<string>, stored: Option<string>) {
    && (forall p :: stored.Some? && MeansPath(stored.value, p) ==> target == Some("/" + Joined(p)))
    && (target.Some? ==> stored.Some? && exists p :: MeansPath(stored.value, p))
  }

  /** The index by the texts in the archive: it lists what they mean and all that lies
      above, each as the last entry that means it, or as a directory if none does. */
  ghost predicate ListsWhatIsStored(raws: seq<RawEntry>, entries: seq<ArchiveEntry>) {
    && (forall q :: HasPath(entries, q) <==>
          q != [] && exists i, p :: 0 <= i < |raws| && MeansPath(raws[i].rawPath, p) && q <= p)
    && (forall k, i :: 0 <= k < |entries| && 0 <= i < |raws| && LastMeaning(raws, i, entries[k].path) ==>
          HoldsWhatIsStored(entries[k], raws[i]))
    && (forall k :: 0 <= k < |entries| && NoneMeans(raws, entries[k].path) ==>
          entries[k] == ArchiveEntry(entries[k].path, Dir, 0, None, None))
  }

  ghost predicate NoneMeans(raws: seq<RawEntry>, p: Path) {
    forall i :: 0 <= i < |raws| ==> !MeansPath(raws[i].rawPath, p)
  }

  lemma IndexByTexts(raws: seq<RawEntry>, entries: seq<ArchiveEntry>)
    requires Indexes(raws, entries)
    ensures ListsWhatIsStored(raws, entries)
  {
    hide Sanitize, MeansPath, Sorted, Recorded, HoldsWhatIsStored;
    forall i, p | 0 <= i < |raws|
      ensures MeansPath(raws[i].rawPath, p) <==> StandsAt(raws, i, p)
    {
      NamedIsSanitized(raws[i].rawPath, p);
    }
    forall q
      ensures HasPath(entries, q) <==>
                q != [] && exists i, p :: 0 <= i < |raws| && MeansPath(raws[i].rawPath, p) && q <= p
    {
      ClosureByTexts(raws, q);
    }
    forall k, i | 0 <= k < |entries| && 0 <= i < |raws| && LastMeaning(raws, i, entries[k].path)
      ensures HoldsWhatIsStored(entries[k], raws[i])
    {
      var p := entries[k].path;
      assert StandsAt(raws, i, p) && Explicit(raws, |raws|, p);
      assert LastAt(raws, |raws|, p) == i;
      RecordedIsStored(raws[i], p);
    }
  }

  lemma ClosureByTexts(raws: seq<RawEntry>, q: Path)
    ensures InClosure(raws, q) <==>
              q != [] && exists i, p :: 0 <= i < |raws| && MeansPath(raws[i].rawPath, p) && q <= p
  {
    hide Sanitize, MeansPath;
    forall i, p | 0 <= i < |raws|
      ensures MeansPath(raws[i].rawPath, p) <==> Sanitize(raws[i].rawPath) == Some(p)
    {
      NamedIsSanitized(raws[i].rawPath, p);
    }
    if InClosure(raws, q) {
      var i :| 0 <= i < |raws| && Reaches(raws[i], q);
      assert MeansPath(raws[i].rawPath, Sanitize(raws[i].rawPath).value);
    }
    if q != [] && exists i, p :: 0 <= i < |raws| && MeansPath(raws[i].rawPath, p) && q <= p {
      var i, p :| 0 <= i < |raws| && MeansPath(raws[i].rawPath, p) && q <= p;
      NamedIsSanitized(raws[i].rawPath, p);
      assert Reaches(raws[i], q);
    }
  }

  lemma RecordedIsStored(raw: RawEntry, p: Path)
    ensures HoldsWhatIsStored(Recorded(raw, p), raw)
  {
    hide Sanitize, MeansPath, Joined, Render;
    if raw.isSymlink && raw.symlinkTarget.Some? {
      var text := raw.symlinkTarget.value;
      forall q
        ensures MeansPath(text, q) <==> Sanitize(text) == Some(q)
      {
        NamedIsSanitized(text, q);
      }
      if Sanitize(text).Some? {
        SanitizedIsPlain(text);
        RenderIsJoined(Sanitize(text).value);
        assert MeansPath(text, Sanitize(text).value);
      }
    }
  }

  /** `build_index`. */
  method BuildIndex(raws: seq<RawEntry>) returns (entries: seq<ArchiveEntry>)
    ensures Indexes(raws, entries)
    ensures ListsWhatIsStored(raws, entries)
  {
    hide Indexes, KeepsLast, GapsFilled, Sorted, Holds, Needed, OwnPaths, RootFree, ListsWhatIsStored;
    var byPath := CollectExplicit(raws);
    NoRootRecorded(raws, byPath);
    var toAdd := CollectAncestors(byPath);
    var m := AddDirectories(byPath, toAdd.items);
    RecordedPaths(raws, byPath, toAdd.items, m);
    entries := SortByPath(m);
    CompletedIsIndex(raws, byPath, toAdd.items, m, entries);
    IndexByTexts(raws, entries);
  }

  // ---------- The index is determined ----------

  lemma PathsAreDistinct(entries: seq<ArchiveEntry>, i: nat, j: nat)
    requires Sorted(entries) && i < |entries| && j < |entries| && entries[i].path == entries[j].path
    ensures i == j
  {
    PathOrder(entries[i].path, entries[j].path, entries[i].path);
  }

  /** Two strictly sorted sequences with the same paths list them in the same order. */
  lemma {:induction false} SamePathsSameOrder(a: seq<ArchiveEntry>, b: seq<ArchiveEntry>)
    requires Sorted(a) && Sorted(b) && forall p :: HasPath(a, p) <==> HasPath(b, p)
    ensures |a| == |b| && forall i :: 0 <= i < |a| ==> a[i].path == b[i].path
    decreases |a|
  {
    if a == [] {
      if b != [] {
        assert HasPath(b, b[0].path);
      }
    } else {
      LastIsGreatest(a, b);
      LastIsGreatest(b, a);
      var x, y := a[|a| - 1].path, b[|b| - 1].path;
      PathOrder(x, y, x);
      var a', b' := a[..|a| - 1], b[..|b| - 1];
      forall p
        ensures HasPath(a', p) <==> HasPath(b', p)
      {
        WithoutLast(a, p);
        WithoutLast(b, p);
      }
      SamePathsSameOrder(a', b');
    }
  }

  lemma LastIsGreatest(a: seq<ArchiveEntry>, b: seq<ArchiveEntry>)
    requires Sorted(a) && Sorted(b) && a != [] && forall p :: HasPath(a, p) <==> HasPath(b, p)
    ensures b != [] && !PathLess(b[|b| - 1].path, a[|a| - 1].path)
  {
    var x := a[|a| - 1].path;
    assert HasPath(a, x);
    var j :| 0 <= j < |b| && b[j].path == x;
    PathOrder(x, b[|b| - 1].path, x);
  }

  lemma WithoutLast(a: seq<ArchiveEntry>, p: Path)
    requires Sorted(a) && a != []
    ensures HasPath(a[..|a| - 1], p) <==> HasPath(a, p) && p != a[|a| - 1].path
  {
    var a' := a[..|a| - 1];
    if HasPath(a', p) {
      var i :| 0 <= i < |a'| && a'[i].path == p;
      assert a[i].path == p;
      PathOrder(p, a[|a| - 1].path, p);
    }
    if HasPath(a, p) && p != a[|a| - 1].path {
      var i :| 0 <= i < |a| && a[i].path == p;
      assert a'[i].path == p;
    }
  }

  /** Whatever order the hash map yields its entries in, there is one index. */
  lemma IndexIsUnique(raws: seq<RawEntry>, a: seq<ArchiveEntry>, b: seq<ArchiveEntry>)
    requires Indexes(raws, a) && Indexes(raws, b)
    ensures a == b
  {
    SamePathsSameOrder(a, b);
  }
}
