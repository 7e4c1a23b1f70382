/** `ArchiveFs`: an archive's index seen as a read-only directory tree. */
module ArchiveFs {
  import opened Base
  import opened Trees
  import opened Backends
  import opened ArchivePaths
  import opened ArchiveIndex

  // ---------- The tree ----------

  /** Content of which only the length is known. */
  function Blank(n: nat): Bytes {
    seq(n, _ => 0)
  }

  /** The entry that `stat` and `list_dir` describe; they know the size of a file,
      not its content. */
  function ShapeOf(e: ArchiveEntry): Entry {
    match e.kind
    case Dir => Directory
    case File => Regular(Blank(e.size))
    case Symlink(Some(target)) => Link(target)
    case Symlink(None) => BrokenLink([])
    case Other => Special([])
  }

  /** The tree of the first n indexed entries, with its root. */
  function TreeUpTo(entries: seq<ArchiveEntry>, n: nat): Tree
    requires n <= |entries|
  {
    if n == 0 then map[[] := Directory]
    else TreeUpTo(entries, n - 1)[entries[n - 1].path := ShapeOf(entries[n - 1])]
  }

  function TreeOf(entries: seq<ArchiveEntry>): Tree {
    TreeUpTo(entries, |entries|)
  }

  lemma {:induction false} InTreeUpTo(entries: seq<ArchiveEntry>, n: nat, p: Path)
    requires n <= |entries| && Sorted(entries)
    ensures p in TreeUpTo(entries, n) <==> p == [] || exists i :: 0 <= i < n && entries[i].path == p
    ensures forall i :: 0 <= i < n && entries[i].path == p ==> TreeUpTo(entries, n)[p] == ShapeOf(entries[i])
  {
    if n > 0 {
      InTreeUpTo(entries, n - 1, p);
      forall i | 0 <= i < n && entries[i].path == p && p == entries[n - 1].path
        ensures i == n - 1
      {
        PathsAreDistinct(entries, i, n - 1);
      }
    }
  }

  lemma NoEntryAtRoot(raws: seq<RawEntry>, entries: seq<ArchiveEntry>)
    requires Indexes(raws, entries)
    ensures !HasPath(entries, [])
  {
  }

  /** The tree holds the root and exactly the indexed entries. */
  lemma InTree(raws: seq<RawEntry>, entries: seq<ArchiveEntry>, p: Path)
    requires Indexes(raws, entries)
    ensures p in TreeOf(entries) <==> p == [] || HasPath(entries, p)
    ensures forall i :: 0 <= i < |entries| && entries[i].path == p ==> TreeOf(entries)[p] == ShapeOf(entries[i])
    ensures [] in TreeOf(entries) && TreeOf(entries)[[]] == Directory
  {
    InTreeUpTo(entries, |entries|, p);
    NoEntryAtRoot(raws, entries);
    RootStays(entries, |entries|);
  }

  lemma {:induction false} RootStays(entries: seq<ArchiveEntry>, n: nat)
    requires n <= |entries| && !HasPath(entries, [])
    ensures [] in TreeUpTo(entries, n) && TreeUpTo(entries, n)[[]] == Directory
  {
    if n > 0 {
      RootStays(entries, n - 1);
    }
  }

  /** No accepted raw path whose last entry is a file or a link lies above another
      accepted raw path. */
  predicate NoFileAbove(raws: seq<RawEntry>) {
    forall i, j :: 0 <= i < |raws| && 0 <= j < |raws| && LiesAbove(raws[i], raws[j]) ==>
      LastIsDirectory(raws, Sanitize(raws[i].rawPath).value)
  }

  predicate LiesAbove(a: RawEntry, b: RawEntry) {
    var p, q := Sanitize(a.rawPath), Sanitize(b.rawPath);
    p.Some? && q.Some? && Ancestor(p.value, q.value)
  }

  predicate LastIsDirectory(raws: seq<RawEntry>, p: Path) {
    Explicit(raws, |raws|, p) ==>
      var last := raws[LastAt(raws, |raws|, p)];
      last.isDir && !last.isSymlink
  }

  lemma AncestorsAreIndexed(raws: seq<RawEntry>, entries: seq<ArchiveEntry>, p: Path, q: Path)
    requires Indexes(raws, entries) && HasPath(entries, q) && Ancestor(p, q) && p != []
    ensures HasPath(entries, p)
  {
  }

  /** An indexed path is a directory of the tree exactly if its last raw entry is
      one, or if there is none. */
  lemma DirectoryAt(raws: seq<RawEntry>, entries: seq<ArchiveEntry>, p: Path)
    requires Indexes(raws, entries) && HasPath(entries, p)
    ensures p in TreeOf(entries)
    ensures TreeOf(entries)[p] == Directory <==> LastIsDirectory(raws, p)
  {
    hide TreeOf, Sorted;
    InTree(raws, entries, p);
    var i :| 0 <= i < |entries| && entries[i].path == p;
  }

  /** An indexed path with something below it lies above an accepted raw path. */
  lemma AboveAccepted(raws: seq<RawEntry>, entries: seq<ArchiveEntry>, p: Path, q: Path) returns (j: nat)
    requires Indexes(raws, entries) && HasPath(entries, q) && Ancestor(p, q)
    ensures j < |raws| && Sanitize(raws[j].rawPath).Some? && Ancestor(p, Sanitize(raws[j].rawPath).value)
  {
    assert InClosure(raws, q);
    j :| 0 <= j < |raws| && Reaches(raws[j], q);
    CoversTransitive(p, q, Sanitize(raws[j].rawPath).value);
  }

  lemma AcceptedIsIndexed(raws: seq<RawEntry>, entries: seq<ArchiveEntry>, i: nat)
    requires Indexes(raws, entries) && i < |raws| && Sanitize(raws[i].rawPath).Some?
    ensures HasPath(entries, Sanitize(raws[i].rawPath).value)
  {
    SanitizedIsPlain(raws[i].rawPath);
    assert Reaches(raws[i], Sanitize(raws[i].rawPath).value);
  }

  /** The index of an archive is a directory tree if and only if no accepted path
      lies below one whose last entry is a file or a link. */
  lemma IndexIsTree(raws: seq<RawEntry>, entries: seq<ArchiveEntry>)
    requires Indexes(raws, entries)
    ensures WellFormed(TreeOf(entries)) <==> NoFileAbove(raws)
  {
    hide Indexes, TreeOf, LastIsDirectory, HasPath;
    InTree(raws, entries, []);
    if NoFileAbove(raws) {
      forall q | q in TreeOf(entries) && q != []
        ensures Parent(q) in TreeOf(entries) && TreeOf(entries)[Parent(q)] == Directory
      {
        ParentIndexed(raws, entries, q);
      }
    }
    if WellFormed(TreeOf(entries)) {
      forall i, j | 0 <= i < |raws| && 0 <= j < |raws| && LiesAbove(raws[i], raws[j])
        ensures LastIsDirectory(raws, Sanitize(raws[i].rawPath).value)
      {
        var p, q := Sanitize(raws[i].rawPath).value, Sanitize(raws[j].rawPath).value;
        AcceptedIsIndexed(raws, entries, i);
        AcceptedIsIndexed(raws, entries, j);
        DirectoryAt(raws, entries, p);
        DirectoryAt(raws, entries, q);
        AncestorsAreDirectories(TreeOf(entries), p, q);
      }
    }
  }

  lemma ParentIndexed(raws: seq<RawEntry>, entries: seq<ArchiveEntry>, q: Path)
    requires Indexes(raws, entries) && NoFileAbove(raws) && q in TreeOf(entries) && q != []
    ensures Parent(q) in TreeOf(entries) && TreeOf(entries)[Parent(q)] == Directory
  {
    hide Indexes, TreeOf, HasPath;
    InTree(raws, entries, q);
    InTree(raws, entries, []);
    var p := Parent(q);
    if p != [] {
      AncestorsAreIndexed(raws, entries, p, q);
      DirectoryAt(raws, entries, p);
      if Explicit(raws, |raws|, p) {
        var j := AboveAccepted(raws, entries, p, q);
        assert LiesAbove(raws[LastAt(raws, |raws|, p)], raws[j]);
      }
    }
  }

  // ---------- Extraction against the index ----------

  /** The first raw entry at or after `from` that is not a directory and stands at p. */
  function FirstFile(raws: seq<RawEntry>, from: nat, p: Path): (r: Option<nat>)
    requires from <= |raws|
    ensures r.Some? ==> from <= r.value < |raws| && StandsAt(raws, r.value, p) && !raws[r.value].isDir
    ensures forall j :: from <= j < (if r.Some? then r.value else |raws|) ==> !(StandsAt(raws, j, p) && !raws[j].isDir)
    decreases |raws| - from
  {
    if from == |raws| then None
    else if StandsAt(raws, from, p) && !raws[from].isDir then Some(from)
    else FirstFile(raws, from + 1, p)
  }

  /** Raw entry i is the first whose text means p and that is no directory. */
  ghost predicate FirstMeaning(raws: seq<RawEntry>, i: nat, p: Path) {
    && i < |raws| && !raws[i].isDir && MeansPath(raws[i].rawPath, p)
    && forall j: nat :: j < i ==> raws[j].isDir || !MeansPath(raws[j].rawPath, p)
  }

  lemma FirstByTexts(raws: seq<RawEntry>, p: Path)
    ensures var first := FirstFile(raws, 0, p);
            if first.Some? then FirstMeaning(raws, first.value, p)
            else forall i: nat :: i < |raws| ==> raws[i].isDir || !MeansPath(raws[i].rawPath, p)
  {
    hide Sanitize, MeansPath;
    forall i: nat | i < |raws|
      ensures StandsAt(raws, i, p) <==> MeansPath(raws[i].rawPath, p)
    {
      NamedIsSanitized(raws[i].rawPath, p);
    }
  }

  /** What `open_read` yields at p. */
  function Extracted(raws: seq<RawEntry>, p: Path): Result<Bytes> {
    match FirstFile(raws, 0, p)
    case Some(i) => Ok(raws[i].data)
    case None => Err(NotFound)
  }

  /** The tar and zip readers never call one entry both a directory and a symlink. */
  predicate WellTyped(raws: seq<RawEntry>) {
    forall i :: 0 <= i < |raws| ==> !(raws[i].isDir && raws[i].isSymlink)
  }

  /** Extraction at p picks the raw entry that the index recorded, or none for a directory. */
  predicate AgreesAt(raws: seq<RawEntry>, p: Path)
    requires Explicit(raws, |raws|, p)
  {
    var last := LastAt(raws, |raws|, p);
    FirstFile(raws, 0, p) == if raws[last].isDir then None else Some(last)
  }

  /** No raw entry but directories stands at p before the last one there. */
  predicate LastIsOnlyFile(raws: seq<RawEntry>, p: Path)
    requires Explicit(raws, |raws|, p)
  {
    forall i :: 0 <= i < LastAt(raws, |raws|, p) && StandsAt(raws, i, p) ==> raws[i].isDir
  }

  /** The index keeps the last duplicate, extraction returns the first match: they
      agree exactly when no earlier entry at the same path is a file or a link. */
  lemma AgreementAt(raws: seq<RawEntry>, p: Path)
    requires Explicit(raws, |raws|, p)
    ensures AgreesAt(raws, p) <==> LastIsOnlyFile(raws, p)
  {
  }

  predicate UniquePaths(raws: seq<RawEntry>) {
    forall i, j :: 0 <= i < j < |raws| && Sanitize(raws[i].rawPath).Some? ==>
      Sanitize(raws[i].rawPath) != Sanitize(raws[j].rawPath)
  }

  /** With unique paths, `open_read` succeeds for every indexed file or link and
      yields the bytes of the entry the index recorded for it; directories, explicit
      or synthesized, are not found. */
  lemma IndexAndExtractionAgree(raws: seq<RawEntry>, entries: seq<ArchiveEntry>, k: nat)
    requires Indexes(raws, entries) && WellTyped(raws) && UniquePaths(raws) && k < |entries|
    ensures entries[k].kind == Dir ==> Extracted(raws, entries[k].path) == Err(NotFound)
    ensures entries[k].kind != Dir ==>
              && Explicit(raws, |raws|, entries[k].path)
              && Extracted(raws, entries[k].path) == Ok(raws[LastAt(raws, |raws|, entries[k].path)].data)
  {
    var p := entries[k].path;
    if Explicit(raws, |raws|, p) {
      var last := LastAt(raws, |raws|, p);
      forall i | 0 <= i < last
        ensures !StandsAt(raws, i, p)
      {
        assert StandsAt(raws, last, p);
      }
      AgreementAt(raws, p);
    }
  }

  /** A synthesized directory is never found by extraction, unique paths or not. */
  lemma SynthesizedIsNotFound(raws: seq<RawEntry>, entries: seq<ArchiveEntry>, k: nat)
    requires Indexes(raws, entries) && k < |entries| && !Explicit(raws, |raws|, entries[k].path)
    ensures entries[k].kind == Dir && Extracted(raws, entries[k].path) == Err(NotFound)
  {
  }

  // ---------- The file system ----------

  function MetaOf(e: ArchiveEntry): Meta
    requires e.path != []
  {
    Meta(e.path[|e.path| - 1], e.path, e.kind, e.size, e.modified)
  }

  predicate ChildOf(e: ArchiveEntry, p: Path) {
    e.path != [] && Parent(e.path) == p
  }

  lemma {:induction false} SiblingOrder(p: Path, a: Name, b: Name)
    ensures PathLess(p + [a], p + [b]) ==> NameLess(a, b)
  {
    if p == [] {
      assert p + [a] == [a] && p + [b] == [b];
      assert [b][1..] == [] && !PathLess([a][1..], [b][1..]);
    } else {
      SiblingOrder(p[1..], a, b);
      NameOrder(p[0], p[0], p[0]);
      assert (p + [a])[1..] == p[1..] + [a] && (p + [b])[1..] == p[1..] + [b];
    }
  }

  lemma ChildrenByName(entries: seq<ArchiveEntry>, i: nat, j: nat, p: Path)
    requires Sorted(entries) && i < j < |entries| && ChildOf(entries[i], p) && ChildOf(entries[j], p)
    ensures NameLess(MetaOf(entries[i]).name, MetaOf(entries[j]).name)
  {
    var a, b := entries[i].path, entries[j].path;
    assert a == p + [a[|a| - 1]] && b == p + [b[|b| - 1]];
    SiblingOrder(p, a[|a| - 1], b[|b| - 1]);
  }

  /** ms are the children of p among the first n entries that are, or are not,
      directories, in the order of the index. */
  ghost predicate Selected(entries: seq<ArchiveEntry>, n: nat, p: Path, dirs: bool, ms: seq<Meta>)
    requires n <= |entries|
  {
    && (forall i :: 0 <= i < |ms| ==> FromEntry(entries, n, p, dirs, ms[i]))
    && (forall k :: 0 <= k < n && ChildOf(entries[k], p) && (entries[k].kind == Dir) == dirs ==>
        MetaOf(entries[k]) in ms)
    && (forall i, j :: 0 <= i < j < |ms| ==> NameLess(ms[i].name, ms[j].name))
  }

  predicate FromEntry(entries: seq<ArchiveEntry>, n: nat, p: Path, dirs: bool, m: Meta)
    requires n <= |entries|
  {
    exists k :: 0 <= k < n && ChildOf(entries[k], p) && (entries[k].kind == Dir) == dirs && m == MetaOf(entries[k])
  }

  lemma StillFromEntry(entries: seq<ArchiveEntry>, n: nat, p: Path, dirs: bool, m: Meta)
    requires n < |entries| && Sorted(entries) && FromEntry(entries, n, p, dirs, m)
    ensures FromEntry(entries, n + 1, p, dirs, m)
    ensures ChildOf(entries[n], p) ==> NameLess(m.name, MetaOf(entries[n]).name)
  {
    hide Sorted;
    var k :| 0 <= k < n && ChildOf(entries[k], p) && (entries[k].kind == Dir) == dirs && m == MetaOf(entries[k]);
    if ChildOf(entries[n], p) {
      ChildrenByName(entries, k, n, p);
    }
  }

  lemma SelectNext(entries: seq<ArchiveEntry>, n: nat, p: Path, dirs: bool, ms: seq<Meta>)
    requires n < |entries| && Sorted(entries) && Selected(entries, n, p, dirs, ms)
    requires ChildOf(entries[n], p) && (entries[n].kind == Dir) == dirs
    ensures Selected(entries, n + 1, p, dirs, ms + [MetaOf(entries[n])])
  {
    hide Sorted, NameLess, MetaOf;
    forall i | 0 <= i < |ms|
      ensures FromEntry(entries, n + 1, p, dirs, ms[i]) && NameLess(ms[i].name, MetaOf(entries[n]).name)
    {
      StillFromEntry(entries, n, p, dirs, ms[i]);
    }
    assert FromEntry(entries, n + 1, p, dirs, MetaOf(entries[n]));
  }

  lemma SelectSkip(entries: seq<ArchiveEntry>, n: nat, p: Path, dirs: bool, ms: seq<Meta>)
    requires n < |entries| && Sorted(entries) && Selected(entries, n, p, dirs, ms)
    requires !(ChildOf(entries[n], p) && (entries[n].kind == Dir) == dirs)
    ensures Selected(entries, n + 1, p, dirs, ms)
  {
  }

  method Select(entries: seq<ArchiveEntry>, p: Path, dirs: bool) returns (ms: seq<Meta>)
    requires Sorted(entries)
    ensures Selected(entries, |entries|, p, dirs, ms)
  {
    hide Sorted, Selected;
    ms := [];
    NothingSelected(entries, p, dirs);
    for n := 0 to |entries|
      invariant Selected(entries, n, p, dirs, ms)
    {
      if ChildOf(entries[n], p) && (entries[n].kind == Dir) == dirs {
        SelectNext(entries, n, p, dirs, ms);
        ms := ms + [MetaOf(entries[n])];
      } else {
        SelectSkip(entries, n, p, dirs, ms);
      }
    }
  }

  lemma NothingSelected(entries: seq<ArchiveEntry>, p: Path, dirs: bool)
    ensures Selected(entries, 0, p, dirs, [])
  {
  }

  /** A listing: the directories first, then the rest, each part by name. */
  ghost predicate Listing(entries: seq<ArchiveEntry>, p: Path, ms: seq<Meta>) {
    exists d :: 0 <= d <= |ms|
                && Selected(entries, |entries|, p, true, ms[..d]) && Selected(entries, |entries|, p, false, ms[d..])
  }

  class Archive {
    const raws: seq<RawEntry>
    var entries: seq<ArchiveEntry>
    /** The position that all readers of the archive file share. */
    var pos: nat

    ghost predicate Valid()
      reads this
    {
      Indexes(raws, entries)
    }

    /** `open`: indexing reads the archive to its end and then rewinds. */
    constructor (raws: seq<RawEntry>)
      ensures Valid() && this.raws == raws && pos == 0
    {
      this.raws := raws;
      entries, pos := [], |raws|;
      new;
      entries := BuildIndex(raws);
      pos := 0;
    }

    method Find(p: Path) returns (r: Option<ArchiveEntry>)
      requires Valid()
      ensures r.Some? ==> r.value in entries && r.value.path == p
      ensures r.None? ==> !HasPath(entries, p)
    {
      for i := 0 to |entries|
        invariant forall j :: 0 <= j < i ==> entries[j].path != p
      {
        if entries[i].path == p {
          return Some(entries[i]);
        }
      }
      return None;
    }

    method Stat(p: Path) returns (r: Result<Meta>)
      requires Valid()
      ensures r.Ok? <==> p in TreeOf(entries)
      ensures r.Ok? && p == [] ==> r.value == Meta("/", [], Dir, 0, None)
      ensures r.Ok? && p != [] ==> exists e :: e in entries && e.path == p && r.value == MetaOf(e)
      ensures forall e :: e in entries && e.path == p && r.Ok? && p != [] ==>
                r.value == Meta(p[|p| - 1], p, e.kind, e.size, e.modified)
      ensures r.Err? ==> r.error == NotFound
    {
      InTree(raws, entries, p);
      if p == [] {
        return Ok(Meta("/", [], Dir, 0, None));
      }
      var e := Find(p);
      return if e.None? then Err(NotFound) else Ok(MetaOf(e.value));
    }

    method ListDir(p: Path) returns (r: Result<seq<Meta>>)
      requires Valid()
      ensures r.Ok? <==> p in TreeOf(entries)
      ensures r.Ok? ==> Listing(entries, p, r.value)
      ensures r.Err? ==> r.error == NotFound
    {
      hide Sorted, Selected;
      InTree(raws, entries, p);
      if p != [] {
        var e := Find(p);
        if e.None? {
          return Err(NotFound);
        }
      }
      var dirs := Select(entries, p, true);
      var rest := Select(entries, p, false);
      assert (dirs + rest)[..|dirs|] == dirs && (dirs + rest)[|dirs|..] == rest;
      return Ok(dirs + rest);
    }

    /** `open_read`: rewinds, then scans for the first file or link at p. The result
        does not depend on where an earlier reader left the shared position. */
    method OpenRead(p: Path) returns (r: Result<Bytes>)
      requires Valid()
      modifies this`pos
      ensures r == Extracted(raws, p)
      ensures r.Ok? ==> exists i: nat :: FirstMeaning(raws, i, p) && r.value == raws[i].data
      ensures r.Err? ==> r == Err(NotFound)
      ensures r.Err? ==> forall i: nat :: i < |raws| ==> raws[i].isDir || !MeansPath(raws[i].rawPath, p)
    {
      hide FirstMeaning, MeansPath;
      FirstByTexts(raws, p);
      pos := 0;
      while pos < |raws|
        invariant 0 <= pos <= |raws| && FirstFile(raws, 0, p) == FirstFile(raws, pos, p)
      {
        var raw := raws[pos];
        pos := pos + 1;
        if !raw.isDir {
          var path := SanitizePath(raw.rawPath);
          if path == Some(p) {
            return Ok(raw.data);
          }
        }
      }
      return Err(NotFound);
    }
  }

  // ---------- The file system is the tree ----------

  /** `stat` and `list_dir` describe the tree's entry. */
  lemma MetaDescribes(raws: seq<RawEntry>, entries: seq<ArchiveEntry>, k: nat)
    requires Indexes(raws, entries) && k < |entries|
    ensures entries[k].path != [] && Describes(TreeOf(entries), MetaOf(entries[k]), entries[k].path)
  {
    hide Sorted, TreeOf;
    assert HasPath(entries, entries[k].path);
    InTree(raws, entries, entries[k].path);
  }

  /** A listing of an indexed directory lists the tree's children, each once. */
  lemma ListingLists(raws: seq<RawEntry>, entries: seq<ArchiveEntry>, p: Path, ms: seq<Meta>)
    requires Indexes(raws, entries) && Listing(entries, p, ms)
    ensures Lists(TreeOf(entries), ms, p)
  {
    hide Indexes, TreeOf, Describes, Selected;
    var d :| 0 <= d <= |ms| && Selected(entries, |entries|, p, true, ms[..d])
      && Selected(entries, |entries|, p, false, ms[d..]);
    forall i | 0 <= i < |ms|
      ensures ms[i].path == p + [ms[i].name] && Describes(TreeOf(entries), ms[i], ms[i].path)
    {
      ListedDescribes(raws, entries, p, ms, d, i);
    }
    forall n | p + [n] in TreeOf(entries)
      ensures n in Names(ms)
    {
      ChildIsListed(raws, entries, p, ms, d, n);
    }
    forall i, j | 0 <= i < j < |ms|
      ensures ms[i].name != ms[j].name
    {
      ListedOnce(raws, entries, p, ms, d, i, j);
    }
  }

  lemma ListedEntry(entries: seq<ArchiveEntry>, p: Path, ms: seq<Meta>, d: nat, i: nat) returns (k: nat)
    requires d <= |ms| && i < |ms|
    requires Selected(entries, |entries|, p, true, ms[..d]) && Selected(entries, |entries|, p, false, ms[d..])
    ensures k < |entries| && ChildOf(entries[k], p) && ms[i] == MetaOf(entries[k])
            && (entries[k].kind == Dir <==> i < d)
  {
    if i < d {
      assert FromEntry(entries, |entries|, p, true, ms[..d][i]);
      k :| 0 <= k < |entries| && ChildOf(entries[k], p) && (entries[k].kind == Dir) == true
        && ms[..d][i] == MetaOf(entries[k]);
    } else {
      assert FromEntry(entries, |entries|, p, false, ms[d..][i - d]);
      k :| 0 <= k < |entries| && ChildOf(entries[k], p) && (entries[k].kind == Dir) == false
        && ms[d..][i - d] == MetaOf(entries[k]);
    }
  }

  lemma ListedDescribes(raws: seq<RawEntry>, entries: seq<ArchiveEntry>, p: Path, ms: seq<Meta>, d: nat, i: nat)
    requires Indexes(raws, entries) && d <= |ms| && i < |ms|
    requires Selected(entries, |entries|, p, true, ms[..d]) && Selected(entries, |entries|, p, false, ms[d..])
    ensures ms[i].path == p + [ms[i].name] && Describes(TreeOf(entries), ms[i], ms[i].path)
  {
    hide Selected, Indexes, TreeOf, Describes;
    var k := ListedEntry(entries, p, ms, d, i);
    MetaDescribes(raws, entries, k);
  }

  lemma ChildIsListed(raws: seq<RawEntry>, entries: seq<ArchiveEntry>, p: Path, ms: seq<Meta>, d: nat, n: Name)
    requires Indexes(raws, entries) && d <= |ms| && p + [n] in TreeOf(entries)
    requires Selected(entries, |entries|, p, true, ms[..d]) && Selected(entries, |entries|, p, false, ms[d..])
    ensures n in Names(ms)
  {
    hide Indexes, TreeOf;
    InTree(raws, entries, p + [n]);
    var k :| 0 <= k < |entries| && entries[k].path == p + [n];
    assert ChildOf(entries[k], p) && MetaOf(entries[k]).name == n;
    var part := if entries[k].kind == Dir then ms[..d] else ms[d..];
    assert MetaOf(entries[k]) in part;
    assert MetaOf(entries[k]) in ms;
    var i :| 0 <= i < |ms| && ms[i] == MetaOf(entries[k]);
    NamesHas(ms, |ms|, i);
  }

  lemma {:induction false} NamesHas(ms: seq<Meta>, n: nat, i: nat)
    requires i < n <= |ms|
    ensures ms[i].name in NamesUpTo(ms, n)
  {
    if i < n - 1 {
      NamesHas(ms, n - 1, i);
    }
  }

  lemma ListedOnce(raws: seq<RawEntry>, entries: seq<ArchiveEntry>, p: Path, ms: seq<Meta>, d: nat, i: nat, j: nat)
    requires Indexes(raws, entries) && d <= |ms| && i < j < |ms|
    requires Selected(entries, |entries|, p, true, ms[..d]) && Selected(entries, |entries|, p, false, ms[d..])
    ensures ms[i].name != ms[j].name
  {
    if j < d {
      assert NameLess(ms[..d][i].name, ms[..d][j].name);
      NameOrder(ms[i].name, ms[j].name, ms[i].name);
    } else if d <= i {
      assert NameLess(ms[d..][i - d].name, ms[d..][j - d].name);
      NameOrder(ms[i].name, ms[j].name, ms[i].name);
    } else {
      var a := ListedEntry(entries, p, ms, d, i);
      var b := ListedEntry(entries, p, ms, d, j);
      if ms[i].name == ms[j].name {
        assert entries[a].path == p + [ms[i].name] && entries[b].path == p + [ms[j].name];
        PathsAreDistinct(entries, a, b);
      }
    }
  }

  /** What `stat` says of an indexed path is what the listing of its parent holds for
      it, the modification time included, and the listing holds it once. */
  lemma StatIsListed(raws: seq<RawEntry>, entries: seq<ArchiveEntry>, k: nat, ms: seq<Meta>)
    requires Indexes(raws, entries) && k < |entries| && entries[k].path != []
    requires Listing(entries, Parent(entries[k].path), ms)
    ensures MetaOf(entries[k]) in ms
    ensures forall m :: m in ms && m.path == entries[k].path ==> m == MetaOf(entries[k])
  {
    hide Sorted;
    var p := Parent(entries[k].path);
    var d :| 0 <= d <= |ms| && Selected(entries, |entries|, p, true, ms[..d])
      && Selected(entries, |entries|, p, false, ms[d..]);
    assert ChildOf(entries[k], p);
    var part := if entries[k].kind == Dir then ms[..d] else ms[d..];
    assert MetaOf(entries[k]) in part;
    forall m | m in ms && m.path == entries[k].path
      ensures m == MetaOf(entries[k])
    {
      var i :| 0 <= i < |ms| && ms[i] == m;
      var j := ListedEntry(entries, p, ms, d, i);
      if j < k {
        PathsAreDistinct(entries, j, k);
      } else if k < j {
        PathsAreDistinct(entries, k, j);
      }
    }
  }

  // ---------- Content ----------

  /** The tree with the content that `open_read` yields. */
  function WithContent(raws: seq<RawEntry>, t: Tree): Tree {
    map q | q in t :: match t[q]
                      case Regular(_) => Regular(DataOf(raws, q))
                      case BrokenLink(_) => BrokenLink(DataOf(raws, q))
                      case Special(_) => Special(DataOf(raws, q))
                      case e => e
  }

  function DataOf(raws: seq<RawEntry>, p: Path): Bytes {
    if Extracted(raws, p).Ok? then Extracted(raws, p).value else []
  }

  /** Headers of files tell the size of the data. */
  predicate TrueSizes(raws: seq<RawEntry>) {
    forall i :: 0 <= i < |raws| && !raws[i].isDir && !raws[i].isSymlink ==> raws[i].size == |raws[i].data|
  }

  /** With unique paths and true sizes, what `stat` and `list_dir` report describes
      the entry with the content that `open_read` yields as well. */
  lemma MetaDescribesContent(raws: seq<RawEntry>, entries: seq<ArchiveEntry>, k: nat)
    requires Indexes(raws, entries) && k < |entries|
    requires WellTyped(raws) && UniquePaths(raws) && TrueSizes(raws)
    ensures entries[k].path != []
            && Describes(WithContent(raws, TreeOf(entries)), MetaOf(entries[k]), entries[k].path)
  {
    hide Sorted, TreeOf;
    MetaDescribes(raws, entries, k);
    IndexAndExtractionAgree(raws, entries, k);
  }
}
