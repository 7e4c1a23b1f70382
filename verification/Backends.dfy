/** The engine's view of a file system: a mutable tree behind the primitive calls
    of the `Vfs` interface, with the strict SFTP meaning. A backend that is
    `faulty` may fail any call with `Io`, at any time; a call that fails half-way
    leaves its partial effect behind. A property that holds on every outcome of a
    job is therefore a property of every intermediate state as well. */
module Backends {
  import opened Base
  import opened Trees

  /** What a listing or a stat reports. */
  datatype Meta = Meta(name: Name, path: Path, kind: Kind, size: nat, modified: Option<int>)

  /** Cancellation can be requested by another thread before any check. */
  class CancellationToken {
    var cancelled: bool

    constructor ()
      ensures !cancelled
    {
      cancelled := false;
    }

    method IsCancelled() returns (b: bool)
      modifies this
      ensures b == cancelled
      ensures old(cancelled) ==> cancelled
    {
      if * {
        cancelled := true;
      }
      b := cancelled;
    }
  }

  class Backend {
    var tree: Tree
    /** Modification times, in nanoseconds, where known. */
    var modified: map<Path, int>
    /** The files whose content hash this backend can compute. */
    const canHash: Path -> bool
    /** The content hash (XXH64), taken as a deterministic function. */
    const hash: Bytes -> int
    /** Whether the environment may make calls fail. */
    const faulty: bool

    constructor (hash: Bytes -> int, canHash: Path -> bool, faulty: bool)
      ensures Valid() && tree == map[[] := Directory]
      ensures this.hash == hash && this.canHash == canHash && this.faulty == faulty
    {
      tree, modified := map[[] := Directory], map[];
      this.hash, this.canHash, this.faulty := hash, canHash, faulty;
    }

    predicate Valid()
      reads this
    {
      WellFormed(tree)
    }

    function ModifiedAt(p: Path): Option<int>
      reads this
    {
      if p in modified then Some(modified[p]) else None
    }

    function HashAt(p: Path): Option<int>
      reads this
    {
      if canHash(p) && p in tree && tree[p].Regular? then Some(hash(tree[p].data)) else None
    }

    method Describe(p: Path) returns (m: Meta)
      requires p in tree
      ensures Describes(tree, m, p) && m.modified == ModifiedAt(p)
    {
      var size: nat :| 0 <= size;
      size := if tree[p].Regular? then |tree[p].data| else size;
      m := Meta(if p == [] then "/" else p[|p| - 1], p, KindOf(tree[p]), size, ModifiedAt(p));
    }

    method Stat(p: Path) returns (r: Result<Meta>)
      ensures r.Ok? ==> Describes(tree, r.value, p) && r.value.modified == ModifiedAt(p)
      ensures r.Err? ==> (r.error == Io && faulty) || (r.error == NotFound && p !in tree)
    {
      var fault := Fault(faulty);
      if fault {
        return Err(Io);
      }
      if p !in tree {
        return Err(NotFound);
      }
      var m := Describe(p);
      return Ok(m);
    }

    method ListDir(p: Path) returns (r: Result<seq<Meta>>)
      ensures r.Ok? ==> p in tree && tree[p] == Directory && Lists(tree, r.value, p)
      ensures r.Ok? ==> forall m :: m in r.value ==> m.modified == ModifiedAt(m.path)
      ensures r.Err? ==> || (r.error == Io && faulty)
                         || (r.error == NotFound && p !in tree)
                         || (r.error == NotADirectory && p in tree && tree[p] != Directory)
    {
      var fault := Fault(faulty);
      if fault {
        return Err(Io);
      }
      if p !in tree {
        return Err(NotFound);
      }
      if tree[p] != Directory {
        return Err(NotADirectory);
      }
      var ms := Children(p);
      return Ok(ms);
    }

    method Children(p: Path) returns (ms: seq<Meta>)
      ensures Lists(tree, ms, p)
      ensures forall m :: m in ms ==> m.modified == ModifiedAt(m.path)
    {
      hide Describes;
      ms := [];
      var todo := ChildNames(tree, p);
      while todo != {}
        invariant forall n :: n in todo ==> p + [n] in tree
        invariant forall i :: 0 <= i < |ms| ==> ms[i].path == p + [ms[i].name] && Describes(tree, ms[i], ms[i].path)
        invariant forall m :: m in ms ==> m.modified == ModifiedAt(m.path)
        invariant forall i :: 0 <= i < |ms| ==> ms[i].name !in todo
        invariant DistinctNames(ms)
        invariant forall n :: p + [n] in tree ==> n in todo || n in Names(ms)
        decreases todo
      {
        var n :| n in todo;
        var m := DescribeChild(p, n);
        NamesOfMore(ms, m);
        DistinctAndMore(ms, m);
        ms, todo := ms + [m], todo - {n};
      }
    }

    method DescribeChild(p: Path, n: Name) returns (m: Meta)
      requires p + [n] in tree
      ensures m.name == n && m.path == p + [n] && Describes(tree, m, m.path) && m.modified == ModifiedAt(m.path)
    {
      m := Describe(p + [n]);
    }

    method Mkdir(p: Path) returns (r: Result<()>)
      requires Valid()
      modifies this
      ensures Valid()
      ensures r.Ok? ==> CanCreate(old(tree), p) && tree == old(tree)[p := Directory]
      ensures r.Err? ==> tree == old(tree) && r.error.FromBackend()
      ensures r.Err? ==> (r.error == Io && faulty) || !CanCreate(tree, p)
    {
      r := Create(p, Directory);
    }

    method Symlink(target: string, p: Path) returns (r: Result<()>)
      requires Valid()
      modifies this
      ensures Valid()
      ensures r.Ok? ==> CanCreate(old(tree), p) && tree == old(tree)[p := Link(target)]
      ensures r.Err? ==> tree == old(tree) && r.error.FromBackend()
      ensures r.Err? ==> (r.error == Io && faulty) || !CanCreate(tree, p)
    {
      r := Create(p, Link(target));
    }

    method Create(p: Path, e: Entry) returns (r: Result<()>)
      requires Valid()
      modifies this
      ensures Valid()
      ensures r.Ok? ==> CanCreate(old(tree), p) && tree == old(tree)[p := e]
      ensures r.Err? ==> tree == old(tree) && r.error.FromBackend()
      ensures r.Err? ==> (r.error == Io && faulty) || !CanCreate(tree, p)
    {
      var fault := Fault(faulty);
      if fault {
        return Err(Io);
      }
      if p in tree {
        return Err(AlreadyExists);
      }
      if p == [] || Parent(p) !in tree {
        return Err(NotFound);
      }
      if tree[Parent(p)] != Directory {
        return Err(NotADirectory);
      }
      CreateKeepsWellFormed(tree, p, e);
      Touch(p);
      tree := tree[p := e];
      return Ok(());
    }

    method Touch(p: Path)
      modifies this`modified
    {
      var now: int := *;
      modified := modified[p := now];
    }

    method RemoveFile(p: Path) returns (r: Result<()>)
      requires Valid()
      modifies this
      ensures Valid()
      ensures r.Ok? ==> CanUnlink(old(tree), p) && tree == Prune(old(tree), p)
      ensures r.Err? ==> tree == old(tree) && r.error.FromBackend()
      ensures r.Err? ==> (r.error == Io && faulty) || !CanUnlink(tree, p)
    {
      var fault := Fault(faulty);
      if fault {
        return Err(Io);
      }
      if p !in tree {
        return Err(NotFound);
      }
      if tree[p] == Directory {
        return Err(IsADirectory);
      }
      RemoveKeepsWellFormed(tree, p);
      tree := tree - {p};
      return Ok(());
    }

    method Rmdir(p: Path) returns (r: Result<()>)
      requires Valid()
      modifies this
      ensures Valid()
      ensures r.Ok? ==> CanRmdir(old(tree), p) && tree == Prune(old(tree), p)
      ensures r.Err? ==> tree == old(tree) && r.error.FromBackend()
      ensures r.Err? ==> (r.error == Io && faulty) || !CanRmdir(tree, p)
    {
      var fault := Fault(faulty);
      if fault {
        return Err(Io);
      }
      if p !in tree {
        return Err(NotFound);
      }
      if tree[p] != Directory {
        return Err(NotADirectory);
      }
      if p == [] {
        return Err(Busy);
      }
      if exists q | q in tree :: Ancestor(p, q) {
        return Err(NotEmpty);
      }
      RemoveKeepsWellFormed(tree, p);
      tree := tree - {p};
      return Ok(());
    }

    /** Recursive removal as the SFTP backend does it: list, unlink the files,
        recurse into the directories, remove the emptied directory. On success it
        removes exactly the subtree, and nothing but the environment can stop it. */
    method RemoveDir(p: Path, recursive: bool) returns (r: Result<()>)
      requires Valid()
      modifies this
      ensures Valid()
      ensures r.Ok? ==> p in old(tree) && old(tree)[p] == Directory && p != [] && tree == Prune(old(tree), p)
      ensures r.Ok? && !recursive ==> CanRmdir(old(tree), p)
      ensures r.Err? ==> ShrunkBelow(old(tree), tree, p) && r.error.FromBackend()
      ensures r.Err? && recursive ==>
                (r.error == Io && faulty) || p == [] || p !in old(tree) || old(tree)[p] != Directory
      ensures r.Err? && !recursive ==>
                tree == old(tree) && ((r.error == Io && faulty) || !CanRmdir(tree, p))
      decreases |Region(tree, p)|, 2
    {
      ghost var t0 := tree;
      if recursive {
        var listed := ListDir(p);
        if listed.Err? {
          return Err(listed.error);
        }
        var emptied := RemoveChildren(p, listed.value);
        if emptied.Err? {
          return emptied;
        }
        PrunedIsEmpty(t0, p, Names(listed.value));
      }
      ghost var t1 := tree;
      r := Rmdir(p);
      if r.Ok? {
        RemoveKeepsWellFormed(t1, p);
      }
    }

    method RemoveChildren(p: Path, entries: seq<Meta>) returns (r: Result<()>)
      requires Valid() && p in tree && tree[p] == Directory && Lists(tree, entries, p)
      modifies this
      ensures Valid()
      ensures r.Ok? ==> tree == PruneNames(old(tree), p, Names(entries))
      ensures r.Err? ==> ShrunkBelow(old(tree), tree, p) && r.error == Io && faulty
      decreases |Region(tree, p)|, 1
    {
      ghost var t0 := tree;
      for i := 0 to |entries|
        invariant Valid()
        invariant tree == PrunedUpTo(t0, p, entries, i)
      {
        r := RemoveChild(p, entries, i, t0);
        if r.Err? {
          return;
        }
      }
      return Ok(());
    }

    method RemoveChild(p: Path, entries: seq<Meta>, i: nat, ghost t0: Tree) returns (r: Result<()>)
      requires Valid() && p in t0 && Lists(t0, entries, p) && i < |entries|
      requires tree == PrunedUpTo(t0, p, entries, i)
      modifies this
      ensures Valid()
      ensures r.Ok? ==> tree == PrunedUpTo(t0, p, entries, i + 1)
      ensures r.Err? ==> ShrunkBelow(t0, tree, p) && r.error == Io && faulty
      decreases |Region(t0, p)|, 0
    {
      var entry := entries[i];
      ghost var t1 := tree;
      StillThere(entries, i, t0, t1, p);
      ChildRegionShrinks(t0, t1, p, entry.name);
      if entry.kind == Dir {
        r := RemoveDir(entry.path, true);
      } else {
        r := RemoveFile(entry.path);
      }
      if r.Err? {
        ShrunkBelowChild(t0, t1, tree, p, NamesUpTo(entries, i), entry.path);
      } else {
        PruneOneMore(t0, p, NamesUpTo(entries, i), entry.name);
      }
    }

    /** Opens p for streaming reads; nothing is read yet. */
    method OpenRead(p: Path) returns (r: Result<()>)
      ensures r.Ok? ==> p in tree && Readable(tree[p])
      ensures r.Err? ==> r.error.FromBackend() && ((r.error == Io && faulty) || p !in tree || !Readable(tree[p]))
    {
      var fault := Fault(faulty);
      if fault {
        return Err(Io);
      }
      if p !in tree {
        return Err(NotFound);
      }
      match tree[p] {
        case Directory => return Err(IsADirectory);
        case Link(_) => return Err(ThroughSymlink);
        case _ => return Ok(());
      }
    }

    /** One `read` at offset `pos` of an open file: a non-empty chunk of at most
        `max` bytes, or nothing at the end. It sees the file as it is now. */
    method ReadChunk(p: Path, pos: nat, max: nat) returns (r: Result<Bytes>)
      requires max > 0
      ensures r.Err? ==> r.error == Io && faulty
      ensures r.Ok? ==>
                var data := DataAt(tree, p);
                && |r.value| <= max
                && (r.value == [] <==> pos >= |data|)
                && (pos < |data| ==> pos + |r.value| <= |data| && r.value == data[pos..pos + |r.value|])
    {
      var fault := Fault(faulty);
      if fault {
        return Err(Io);
      }
      var data := DataAt(tree, p);
      if pos >= |data| {
        return Ok([]);
      }
      var n :| 1 <= n <= max && pos + n <= |data|;
      return Ok(data[pos..pos + n]);
    }

    /** Creates or truncates p for streaming writes. */
    method CreateWrite(p: Path) returns (r: Result<()>)
      requires Valid()
      modifies this
      ensures Valid()
      ensures r.Ok? ==> CanWrite(old(tree), p) && tree == old(tree)[p := Regular([])]
      ensures r.Err? ==> tree == old(tree) && r.error.FromBackend()
      ensures r.Err? ==> (r.error == Io && faulty) || !CanWrite(tree, p)
    {
      if p !in tree {
        r := Create(p, Regular([]));
        return;
      }
      var fault := Fault(faulty);
      if fault {
        return Err(Io);
      }
      match tree[p] {
        case Regular(_) =>
          Touch(p);
          tree := tree[p := Regular([])];
          return Ok(());
        case Directory => return Err(IsADirectory);
        case Special(_) => return Err(Unsupported);
        case _ => return Err(ThroughSymlink);
      }
    }

    /** `write_all` on an open file: appends the chunk, or fails after a part of it. */
    method Append(p: Path, chunk: Bytes) returns (r: Result<()>)
      requires Valid() && p in tree && tree[p].Regular?
      modifies this
      ensures Valid()
      ensures r.Ok? ==> Appended(old(tree), tree, p, chunk, |chunk|)
      ensures r.Err? ==> r.error == Io && faulty && exists k :: Appended(old(tree), tree, p, chunk, k)
    {
      var fault := Fault(faulty);
      var k := |chunk|;
      if fault {
        k :| 0 <= k <= |chunk|;
      }
      Touch(p);
      tree := tree[p := Regular(tree[p].data + chunk[..k])];
      assert Appended(old(tree), tree, p, chunk, k);
      return if fault then Err(Io) else Ok(());
    }

    /** The comparison hash of p, when it can be had. */
    method QuickHash(p: Path) returns (r: Result<Option<int>>)
      ensures r.Ok? ==> r.value == HashAt(p)
      ensures r.Err? ==> r.error == Io && faulty
    {
      var fault := Fault(faulty);
      return if fault then Err(Io) else Ok(HashAt(p));
    }
  }

  /** Reading this entry yields bytes without following a resolved link. */
  predicate Readable(e: Entry) {
    e.Regular? || e.BrokenLink? || e.Special?
  }

  /** u is t with the first k bytes of chunk appended to the file at p. */
  predicate Appended(t: Tree, u: Tree, p: Path, chunk: Bytes, k: int) {
    && p in t && t[p].Regular? && 0 <= k <= |chunk|
    && u == t[p := Regular(t[p].data + chunk[..k])]
  }

  function DataAt(t: Tree, p: Path): Bytes {
    if p in t && Readable(t[p]) then t[p].data else []
  }

  /** m is what t says about p. */
  predicate Describes(t: Tree, m: Meta, p: Path) {
    && p in t
    && m.path == p
    && m.name == (if p == [] then "/" else p[|p| - 1])
    && m.kind == KindOf(t[p])
    && (t[p].Regular? ==> m.size == |t[p].data|)
  }

  /** ms lists the children of p in t, each once, in any order. */
  ghost predicate Lists(t: Tree, ms: seq<Meta>, p: Path) {
    && (forall i :: 0 <= i < |ms| ==> ms[i].path == p + [ms[i].name] && Describes(t, ms[i], ms[i].path))
    && (forall n :: p + [n] in t ==> n in Names(ms))
    && DistinctNames(ms)
  }

  predicate DistinctNames(ms: seq<Meta>) {
    forall i, j :: 0 <= i < j < |ms| ==> ms[i].name != ms[j].name
  }

  lemma DistinctAndMore(ms: seq<Meta>, m: Meta)
    requires DistinctNames(ms) && forall i :: 0 <= i < |ms| ==> ms[i].name != m.name
    ensures DistinctNames(ms + [m])
  {
  }

  /** The names of the first i entries. */
  function NamesUpTo(ms: seq<Meta>, i: nat): set<Name>
    requires i <= |ms|
  {
    if i == 0 then {} else NamesUpTo(ms, i - 1) + {ms[i - 1].name}
  }

  function Names(ms: seq<Meta>): set<Name> {
    NamesUpTo(ms, |ms|)
  }

  lemma {:induction false} NamesOfPrefix(ms: seq<Meta>, m: Meta, i: nat)
    requires i <= |ms|
    ensures NamesUpTo(ms + [m], i) == NamesUpTo(ms, i)
  {
    if i > 0 {
      NamesOfPrefix(ms, m, i - 1);
    }
  }

  lemma NamesOfMore(ms: seq<Meta>, m: Meta)
    ensures Names(ms + [m]) == Names(ms) + {m.name}
  {
    NamesOfPrefix(ms, m, |ms|);
  }

  lemma {:induction false} LaterNameIsNew(ms: seq<Meta>, i: nat, j: nat)
    requires i <= j < |ms| && DistinctNames(ms)
    ensures ms[j].name !in NamesUpTo(ms, i)
  {
    if i > 0 {
      LaterNameIsNew(ms, i - 1, j);
    }
  }

  /** Pruning the children before entry i leaves entry i in place. */
  lemma StillThere(entries: seq<Meta>, i: nat, t0: Tree, t1: Tree, p: Path)
    requires i < |entries| && entries[i].path == p + [entries[i].name] && entries[i].path in t0
    requires DistinctNames(entries)
    requires t1 == PruneNames(t0, p, NamesUpTo(entries, i))
    ensures entries[i].path in t1
  {
    CoversChild(p, entries[i].name, entries[i].path);
    LaterNameIsNew(entries, i, i);
  }

  function ChildNames(t: Tree, p: Path): (names: set<Name>)
    ensures forall n :: n in names <==> p + [n] in t
  {
    var names := set q | q in t && q != [] && Parent(q) == p :: q[|q| - 1];
    assert forall n :: n in names <==> p + [n] in t by {
      forall n | p + [n] in t
        ensures n in names
      {
        assert Parent(p + [n]) == p && (p + [n])[|p + [n]| - 1] == n;
      }
      forall n | n in names
        ensures p + [n] in t
      {
        var q :| q in t && q != [] && Parent(q) == p && q[|q| - 1] == n;
        assert q == Parent(q) + [q[|q| - 1]];
      }
    }
    names
  }

  lemma ShrunkBelowChild(t0: Tree, t1: Tree, t2: Tree, p: Path, names: set<Name>, c: Path)
    requires Ancestor(p, c) && t1 == PruneNames(t0, p, names) && ShrunkBelow(t1, t2, c)
    ensures ShrunkBelow(t0, t2, p)
  {
  }

  /** t without what lies below the first i listed children of p. */
  function PrunedUpTo(t: Tree, p: Path, entries: seq<Meta>, i: nat): Tree
    requires i <= |entries|
  {
    PruneNames(t, p, NamesUpTo(entries, i))
  }

  lemma ChildRegionShrinks(t0: Tree, t1: Tree, p: Path, n: Name)
    requires p in t0 && forall q :: q in t1 ==> q in t0
    ensures |Region(t1, p + [n])| < |Region(t0, p)|
  {
    ChildRegionIsSmaller(t0, p, n);
    assert Region(t1, p + [n]) <= Region(t0, p + [n]);
    assert Region(t0, p + [n]) == Region(t1, p + [n]) + (Region(t0, p + [n]) - Region(t1, p + [n]));
  }
}
