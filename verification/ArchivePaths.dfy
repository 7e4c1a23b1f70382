/** Cleaning the raw paths of archive entries, and the order of clean paths. */
module ArchivePaths {
  import opened Base
  import opened Trees

  /** `str::split('/')`: the parts between slashes, empty ones included. */
  function Split(s: string): (parts: seq<string>)
    ensures parts != []
  {
    if s == "" then [""]
    else if s[0] == '/' then [""] + Split(s[1..])
    else
      var rest := Split(s[1..]);
      [[s[0]] + rest[0]] + rest[1..]
  }

  /** `trim_end_matches('/')`. */
  function TrimSlashes(s: string): string {
    if s != "" && s[|s| - 1] == '/' then TrimSlashes(s[..|s| - 1]) else s
  }

  predicate Skipped(part: string) {
    part == "" || part == "."
  }

  /** A component a clean path can have. */
  predicate Plain(name: Name) {
    name != "" && name != "." && name != ".." && '/' !in name
  }

  predicate AllPlain(p: Path) {
    forall i :: 0 <= i < |p| ==> Plain(p[i])
  }

  /** The parts that are kept. */
  function Kept(parts: seq<string>): seq<string> {
    if parts == [] then []
    else (if Skipped(parts[0]) then [] else [parts[0]]) + Kept(parts[1..])
  }

  /** The clean path a raw one stands for, if it names anything below the root and
      does not climb. */
  function Sanitize(raw: string): Option<Path> {
    var parts := Split(TrimSlashes(raw));
    if TrimSlashes(raw) == "" || ".." in parts || Kept(parts) == [] then None else Some(Kept(parts))
  }

  /** `sanitize_path`. */
  method SanitizePath(raw: string) returns (r: Option<Path>)
    ensures r == Sanitize(raw)
    ensures forall p :: r == Some(p) <==> MeansPath(raw, p)
  {
    forall p
      ensures Sanitize(raw) == Some(p) <==> MeansPath(raw, p)
    {
      NamedIsSanitized(raw, p);
    }
    var trimmed := TrimSlashes(raw);
    if trimmed == "" {
      return None;
    }
    var parts := Split(trimmed);
    var clean := [];
    for i := 0 to |parts|
      invariant ".." !in parts[..i]
      invariant clean == Kept(parts[..i])
    {
      assert parts[..i + 1] == parts[..i] + [parts[i]];
      KeptOneMore(parts[..i], parts[i]);
      if !Skipped(parts[i]) {
        if parts[i] == ".." {
          return None;
        }
        clean := clean + [parts[i]];
      }
    }
    assert parts[..|parts|] == parts;
    return if clean == [] then None else Some(clean);
  }

  lemma {:induction false} KeptOneMore(parts: seq<string>, part: string)
    ensures Kept(parts + [part]) == Kept(parts) + if Skipped(part) then [] else [part]
  {
    if parts == [] {
      assert parts + [part] == [part];
    } else {
      KeptOneMore(parts[1..], part);
      assert (parts + [part])[1..] == parts[1..] + [part];
    }
  }

  // ---------- Clean paths ----------

  /** The text of a path: a slash before every component. */
  function Render(p: Path): string {
    if p == [] then "" else Render(p[..|p| - 1]) + "/" + p[|p| - 1]
  }

  lemma {:induction false} SplitHasNoSlash(s: string)
    ensures forall i :: 0 <= i < |Split(s)| ==> '/' !in Split(s)[i]
  {
    if s != "" {
      SplitHasNoSlash(s[1..]);
    }
  }

  lemma {:induction false} KeptArePlain(parts: seq<string>)
    requires forall i :: 0 <= i < |parts| ==> '/' !in parts[i] && parts[i] != ".."
    ensures AllPlain(Kept(parts))
  {
    if parts != [] {
      KeptArePlain(parts[1..]);
    }
  }

  lemma SanitizedIsPlain(raw: string)
    requires Sanitize(raw).Some?
    ensures Sanitize(raw).value != [] && AllPlain(Sanitize(raw).value)
  {
    SplitHasNoSlash(TrimSlashes(raw));
    KeptArePlain(Split(TrimSlashes(raw)));
  }

  /** Splitting a text that ends in "/" and a slash-free name. */
  lemma {:induction false} SplitLast(s: string, name: string)
    requires '/' !in name
    ensures Split(s + "/" + name) == Split(s) + [name]
  {
    if s == "" {
      assert s + "/" + name == ['/'] + name;
      assert (['/'] + name)[1..] == name;
      SplitSlashFree(name);
    } else {
      var t := s + "/" + name;
      assert t[1..] == s[1..] + "/" + name;
      SplitLast(s[1..], name);
      if s[0] != '/' {
        assert (Split(s[1..]) + [name])[1..] == Split(s[1..])[1..] + [name];
      }
    }
  }

  lemma {:induction false} SplitSlashFree(name: string)
    requires '/' !in name
    ensures Split(name) == [name]
  {
    if name != "" {
      SplitSlashFree(name[1..]);
      assert [name[0]] + name[1..] == name;
    }
  }

  lemma {:induction false} SplitRender(p: Path)
    requires AllPlain(p)
    ensures Split(Render(p)) == [""] + p
  {
    if p == [] {
    } else {
      var init, last := p[..|p| - 1], p[|p| - 1];
      SplitRender(init);
      SplitLast(Render(init), last);
      assert [""] + p == ([""] + init) + [last];
    }
  }

  lemma {:induction false} KeptPlain(p: Path)
    requires AllPlain(p)
    ensures Kept(p) == p
  {
    if p != [] {
      KeptPlain(p[1..]);
      assert [p[0]] + p[1..] == p;
    }
  }

  lemma RenderEndsPlain(p: Path)
    requires AllPlain(p) && p != []
    ensures TrimSlashes(Render(p)) == Render(p) && Render(p) != ""
  {
  }

  lemma KeptAfterSlash(p: Path)
    requires AllPlain(p)
    ensures Kept([""] + p) == p && ".." !in [""] + p
  {
    KeptPlain(p);
    assert ([""] + p)[1..] == p;
  }

  /** A rendered path is cleaned to itself exactly if it is a clean path. */
  lemma SanitizeRender(p: Path)
    requires AllPlain(p)
    ensures Sanitize(Render(p)) == if p == [] then None else Some(p)
  {
    hide Split, Kept, Render, TrimSlashes, AllPlain;
    if p != [] {
      RenderEndsPlain(p);
      SplitRender(p);
      KeptAfterSlash(p);
    } else {
      assert Render([]) == "" && TrimSlashes("") == "" by {
        EmptyRender();
      }
    }
  }

  lemma EmptyRender()
    ensures Render([]) == "" && TrimSlashes("") == ""
  {
  }

  /** `sanitize_path` is a fixpoint on its own output. */
  lemma SanitizeIsIdempotent(raw: string)
    requires Sanitize(raw).Some?
    ensures Sanitize(Render(Sanitize(raw).value)) == Sanitize(raw)
  {
    SanitizedIsPlain(raw);
    SanitizeRender(Sanitize(raw).value);
  }

  // ---------- What cleaning does to a text ----------

  /** The text of some parts: a slash between each two. */
  function Joined(parts: seq<string>): string
    requires parts != []
  {
    if |parts| == 1 then parts[0] else Joined(parts[..|parts| - 1]) + "/" + parts[|parts| - 1]
  }

  function Slashes(n: nat): string {
    seq(n, _ => '/')
  }

  predicate SlashFree(parts: seq<string>) {
    forall i :: 0 <= i < |parts| ==> '/' !in parts[i]
  }

  /** p is what remains of the parts, in order, without the empty ones and the dots;
      idx says where each component comes from. */
  predicate Picks(parts: seq<string>, idx: seq<nat>, p: Path) {
    && |idx| == |p|
    && (forall k :: 0 <= k < |idx| ==> idx[k] < |parts| && p[k] == parts[idx[k]])
    && (forall j, k :: 0 <= j < k < |idx| ==> idx[j] < idx[k])
    && (forall i: nat :: i < |parts| ==> (i in idx <==> parts[i] != "" && parts[i] != "."))
  }

  /** The text raw means p: it consists of parts, none of which climbs, and of slashes
      at the end, and p is what remains of the parts. */
  ghost predicate MeansPath(raw: string, p: Path) {
    p != [] && exists parts, n: nat, idx :: MeansPathBy(raw, p, parts, n, idx)
  }

  predicate MeansPathBy(raw: string, p: Path, parts: seq<string>, n: nat, idx: seq<nat>) {
    parts != [] && SlashFree(parts) && ".." !in parts && raw == Joined(parts) + Slashes(n) && Picks(parts, idx, p)
  }

  /** Splitting undoes joining. */
  lemma {:induction false} SplitJoined(parts: seq<string>)
    requires parts != [] && SlashFree(parts)
    ensures Split(Joined(parts)) == parts
  {
    if |parts| == 1 {
      SplitSlashFree(parts[0]);
    } else {
      var init, last := parts[..|parts| - 1], parts[|parts| - 1];
      SplitJoined(init);
      SplitLast(Joined(init), last);
      assert parts == init + [last];
    }
  }

  lemma {:induction false} JoinedSplit(s: string)
    ensures Joined(Split(s)) == s
  {
    if s != "" {
      JoinedSplit(s[1..]);
      var rest := Split(s[1..]);
      if s[0] == '/' {
        JoinedAfter("", rest);
        assert "" + "/" + s[1..] == s;
      } else {
        JoinedHead([s[0]], rest);
        assert [s[0]] + s[1..] == s;
      }
    }
  }

  lemma {:induction false} JoinedAfter(first: string, rest: seq<string>)
    requires rest != []
    ensures Joined([first] + rest) == first + "/" + Joined(rest)
  {
    var parts := [first] + rest;
    if |rest| == 1 {
      assert parts[..1] == [first] && parts[1] == rest[0];
    } else {
      var init, last := rest[..|rest| - 1], rest[|rest| - 1];
      JoinedAfter(first, init);
      assert parts[..|parts| - 1] == [first] + init && parts[|parts| - 1] == last;
      assert first + "/" + Joined(init) + "/" + last == first + "/" + (Joined(init) + "/" + last);
    }
  }

  lemma {:induction false} JoinedHead(head: string, parts: seq<string>)
    requires parts != []
    ensures Joined([head + parts[0]] + parts[1..]) == head + Joined(parts)
  {
    var longer := [head + parts[0]] + parts[1..];
    if |parts| > 1 {
      var init, last := parts[..|parts| - 1], parts[|parts| - 1];
      JoinedHead(head, init);
      assert longer[..|longer| - 1] == [head + init[0]] + init[1..] && longer[|longer| - 1] == last;
      assert head + Joined(init) + "/" + last == head + (Joined(init) + "/" + last);
    }
  }

  lemma TrimOneSlash(s: string)
    ensures TrimSlashes(s + "/") == TrimSlashes(s)
  {
    assert (s + "/")[..|s|] == s;
  }

  lemma {:induction false} TrimAllSlashes(s: string, n: nat)
    ensures TrimSlashes(s + Slashes(n)) == TrimSlashes(s)
  {
    if n == 0 {
      assert s + Slashes(0) == s;
    } else {
      TrimAllSlashes(s, n - 1);
      assert s + Slashes(n) == s + Slashes(n - 1) + "/";
      TrimOneSlash(s + Slashes(n - 1));
    }
  }

  lemma NothingToTrim(s: string, last: string)
    requires last != "" && '/' !in last
    ensures TrimSlashes(s + last) == s + last
  {
    assert (s + last)[|s + last| - 1] == last[|last| - 1];
    assert last[|last| - 1] in last;
  }

  /** A text whose last part is not empty keeps it. */
  lemma NoSlashAtEnd(parts: seq<string>)
    requires parts != [] && SlashFree(parts) && parts[|parts| - 1] != ""
    ensures TrimSlashes(Joined(parts)) == Joined(parts) != ""
  {
    hide TrimSlashes;
    var init, last := parts[..|parts| - 1], parts[|parts| - 1];
    if |parts| > 1 {
      NothingToTrim(Joined(init) + "/", last);
    } else {
      NothingToTrim("", last);
      assert "" + last == last;
    }
  }

  /** An empty part at the end is only one more slash. */
  lemma EmptyAtEnd(parts: seq<string>)
    requires |parts| > 1 && parts[|parts| - 1] == ""
    ensures TrimSlashes(Joined(parts)) == TrimSlashes(Joined(parts[..|parts| - 1]))
    ensures Kept(parts) == Kept(parts[..|parts| - 1])
    ensures ".." in parts <==> ".." in parts[..|parts| - 1]
  {
    hide TrimSlashes, Kept;
    var init := parts[..|parts| - 1];
    assert parts == init + [""];
    KeptOneMore(init, "");
    TrimOneSlash(Joined(init));
    assert Joined(init) + "/" + "" == Joined(init) + "/";
  }

  /** What cleaning makes of a joined text. */
  lemma {:induction false} SanitizeJoined(parts: seq<string>)
    requires parts != [] && SlashFree(parts)
    ensures Sanitize(Joined(parts)) == if ".." in parts || Kept(parts) == [] then None else Some(Kept(parts))
  {
    hide TrimSlashes, Kept, Split, Joined;
    if parts[|parts| - 1] != "" {
      NoSlashAtEnd(parts);
      SplitJoined(parts);
    } else if |parts| > 1 {
      SanitizeJoined(parts[..|parts| - 1]);
      EmptyAtEnd(parts);
    } else {
      NothingJoined(parts);
    }
  }

  lemma NothingJoined(parts: seq<string>)
    requires |parts| == 1 && parts[0] == ""
    ensures TrimSlashes(Joined(parts)) == "" && Kept(parts) == []
  {
    assert parts == [""];
  }

  /** The kept parts are exactly what remains. */
  lemma {:induction false} KeptIsPicked(parts: seq<string>) returns (idx: seq<nat>)
    ensures Picks(parts, idx, Kept(parts))
  {
    idx := [];
    if parts != [] {
      var init, last := parts[..|parts| - 1], parts[|parts| - 1];
      assert parts == init + [last];
      idx := KeptIsPicked(init);
      KeptOneMore(init, last);
      if !Skipped(last) {
        idx := idx + [|init|];
      }
    }
  }

  lemma {:induction false} PickedIsUnique(parts: seq<string>, idx: seq<nat>, p: Path, idx': seq<nat>, q: Path)
    requires Picks(parts, idx, p) && Picks(parts, idx', q)
    ensures p == q
    decreases |p|
  {
    hide Picks;
    EmptyTogether(parts, idx, p, idx', q);
    if p != [] {
      var m, n := |p| - 1, |q| - 1;
      LastPicked(parts, idx, p, idx', q);
      PicksBeforeLast(parts, idx, p);
      PicksBeforeLast(parts, idx', q);
      PickedIsUnique(parts[..idx[m]], idx[..m], p[..m], idx'[..n], q[..n]);
      assert p == p[..m] + [p[m]] && q == q[..n] + [q[n]];
    }
  }

  lemma EmptyTogether(parts: seq<string>, idx: seq<nat>, p: Path, idx': seq<nat>, q: Path)
    requires Picks(parts, idx, p) && Picks(parts, idx', q)
    ensures p == [] <==> q == []
  {
    PicksSomething(parts, idx, p);
    PicksSomething(parts, idx', q);
  }

  lemma LastPicked(parts: seq<string>, idx: seq<nat>, p: Path, idx': seq<nat>, q: Path)
    requires Picks(parts, idx, p) && Picks(parts, idx', q) && p != [] && q != []
    ensures |idx| == |p| && |idx'| == |q| && idx[|p| - 1] == idx'[|q| - 1] < |parts|
    ensures p[|p| - 1] == q[|q| - 1]
  {
    assert idx[|p| - 1] in idx' && idx'[|q| - 1] in idx;
  }

  lemma PicksBeforeLast(parts: seq<string>, idx: seq<nat>, p: Path)
    requires Picks(parts, idx, p) && p != []
    ensures |idx| == |p| && idx[|p| - 1] < |parts|
    ensures Picks(parts[..idx[|p| - 1]], idx[..|p| - 1], p[..|p| - 1])
  {
    var m := |p| - 1;
    forall i: nat | i < idx[m]
      ensures i in idx[..m] <==> parts[i] != "" && parts[i] != "."
    {
      assert i in idx <==> i in idx[..m];
    }
  }

  /** What `sanitize_path` makes of any text, by its parts: nothing if one of them
      climbs or none remains, else the remaining ones in order. */
  lemma SanitizeByParts(parts: seq<string>, n: nat)
    requires parts != [] && SlashFree(parts)
    ensures var r := Sanitize(Joined(parts) + Slashes(n));
            if ".." in parts || (forall i :: 0 <= i < |parts| ==> parts[i] == "" || parts[i] == ".") then r.None?
            else r.Some? && exists idx :: Picks(parts, idx, r.value)
  {
    TrimAllSlashes(Joined(parts), n);
    SanitizeJoined(parts);
    var idx := KeptIsPicked(parts);
    if Kept(parts) != [] {
      assert parts[idx[0]] != "" && parts[idx[0]] != ".";
    } else {
      assert idx == [];
    }
  }

  /** A text is accepted as p exactly if it means p. */
  lemma NamedIsSanitized(raw: string, p: Path)
    ensures MeansPath(raw, p) <==> Sanitize(raw) == Some(p)
  {
    hide Sanitize, Split, Kept, TrimSlashes, Joined, Slashes, Picks;
    if MeansPath(raw, p) {
      var parts, n: nat, idx :| MeansPathBy(raw, p, parts, n, idx);
      SanitizeByParts(parts, n);
      PicksSomething(parts, idx, p);
      var idx' :| Picks(parts, idx', Sanitize(raw).value);
      PickedIsUnique(parts, idx, p, idx', Sanitize(raw).value);
    }
    if Sanitize(raw) == Some(p) {
      var parts := Split(raw);
      JoinedSplit(raw);
      SplitHasNoSlash(raw);
      NoSlashes(raw);
      SanitizeByParts(parts, 0);
      var idx :| Picks(parts, idx, p);
      assert MeansPathBy(raw, p, parts, 0, idx);
      SanitizedIsPlain(raw);
    }
  }

  lemma NoSlashes(s: string)
    ensures s + Slashes(0) == s
  {
  }

  lemma PicksSomething(parts: seq<string>, idx: seq<nat>, p: Path)
    requires Picks(parts, idx, p)
    ensures p != [] <==> exists i :: 0 <= i < |parts| && parts[i] != "" && parts[i] != "."
  {
    if p != [] {
      assert idx[0] in idx;
    }
    if exists i :: 0 <= i < |parts| && parts[i] != "" && parts[i] != "." {
      var i: nat :| i < |parts| && parts[i] != "" && parts[i] != ".";
      assert i in idx;
    }
  }

  /** A clean path is rendered as a slash and its components with slashes between them. */
  lemma {:induction false} RenderIsJoined(p: Path)
    requires p != []
    ensures Render(p) == "/" + Joined(p)
  {
    if |p| > 1 {
      RenderIsJoined(p[..|p| - 1]);
    }
  }

  // ---------- The order of paths ----------

  /** Names are compared at their first difference, and a prefix comes first. */
  lemma {:induction false} NameOrderIsLexical(common: Name, a: Name, b: Name, c: char, d: char)
    requires c < d
    ensures NameLess(common + [c] + a, common + [d] + b) && NameLess(common, common + [c] + a)
    ensures !NameLess(common + [d] + b, common + [c] + a)
  {
    if common == [] {
      assert [] + [c] + a == [c] + a && [] + [d] + b == [d] + b;
    } else {
      NameOrderIsLexical(common[1..], a, b, c, d);
      assert (common + [c] + a)[1..] == common[1..] + [c] + a && (common + [d] + b)[1..] == common[1..] + [d] + b;
    }
  }

  /** Paths are compared at their first different component, and ancestors come first. */
  lemma {:induction false} PathOrderIsLexical(common: Path, a: Path, b: Path, m: Name, n: Name)
    requires NameLess(m, n)
    ensures PathLess(common + [m] + a, common + [n] + b) && PathLess(common, common + [m] + a)
  {
    if common == [] {
      assert [] + [m] + a == [m] + a && [] + [n] + b == [n] + b;
    } else {
      PathOrderIsLexical(common[1..], a, b, m, n);
      assert (common + [m] + a)[1..] == common[1..] + [m] + a && (common + [n] + b)[1..] == common[1..] + [n] + b;
    }
  }

  predicate NameLess(a: Name, b: Name) {
    b != [] && (a == [] || a[0] < b[0] || (a[0] == b[0] && NameLess(a[1..], b[1..])))
  }

  /** Component by component, as paths are compared. */
  predicate PathLess(p: Path, q: Path) {
    q != [] && (p == [] || NameLess(p[0], q[0]) || (p[0] == q[0] && PathLess(p[1..], q[1..])))
  }

  lemma {:induction false} NameOrder(a: Name, b: Name, c: Name)
    ensures !NameLess(a, a)
    ensures a == b || NameLess(a, b) || NameLess(b, a)
    ensures NameLess(a, b) && NameLess(b, c) ==> NameLess(a, c)
    decreases |a| + |b| + |c|
  {
    if a != [] && b != [] {
      NameOrder(a[1..], b[1..], if c == [] then c else c[1..]);
      assert a == [a[0]] + a[1..] && b == [b[0]] + b[1..];
    } else if a != [] {
      NameOrder(a[1..], b, c);
    }
  }

  /** Paths are strictly and totally ordered. */
  lemma {:induction false} PathOrder(p: Path, q: Path, r: Path)
    ensures !PathLess(p, p)
    ensures p == q || PathLess(p, q) || PathLess(q, p)
    ensures PathLess(p, q) && PathLess(q, r) ==> PathLess(p, r)
    decreases |p| + |q| + |r|
  {
    if p != [] && q != [] {
      PathOrder(p[1..], q[1..], if r == [] then r else r[1..]);
      NameOrder(p[0], q[0], if r == [] then p[0] else r[0]);
      NameOrder(p[0], p[0], p[0]);
      assert p == [p[0]] + p[1..] && q == [q[0]] + q[1..];
    } else if p != [] {
      PathOrder(p[1..], q, r);
      NameOrder(p[0], p[0], p[0]);
    }
  }
}
