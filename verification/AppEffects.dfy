/** What keys and job events are to do, stated on the whole state of the application.
    Panels are kept as far as modes and jobs depend on them; where a cursor lands is
    arbitrary. */
module AppEffects {
  import opened Base
  import opened Trees
  import ArchivePaths
  import opened Transports
  import opened JobManagers
  import opened Registries
  import opened AppModes

  datatype KeyCode =
    | Char(c: char) | Enter | Esc | Tab | Backspace | Left | Right | Up | Down
    | Home | End | PageUp | PageDown | F(n: nat)

  datatype UserAction = Quit | Edit | Copy | Move | Mkdir | Delete | ConnectTo | SyncPanes | ShowHelp | UnknownAction

  datatype CursorEntry = CursorEntry(name: Name, path: Path, isDir: bool, isArchive: bool)

  datatype Panel = Panel(location: Location, cwd: Path, selected: set<Path>, cursor: Option<CursorEntry>)

  datatype Settings = Settings(confirmDelete: bool, deleteExtraneous: bool, enableQuic: bool)

  /** A directory the user asked for: where, in which directory, and its name as typed. */
  datatype NewDirectory = NewDirectory(location: Location, cwd: Path, name: string)

  /** All there is to the application. `made` is the history of directories asked for. */
  datatype AppState = AppState(
    mode: Mode,
    status: Option<Status>,
    leftActive: bool,
    left: Panel,
    right: Panel,
    background: map<JobId, string>,
    profiles: set<string>,
    quit: bool,
    edit: Option<(Location, Path)>,
    settings: Settings,
    table: JobTable,
    known: Known,
    trace: seq<Step>,
    made: seq<NewDirectory>)
  {
    function Here(): Panel {
      if leftActive then left else right
    }

    function There(): Panel {
      if leftActive then right else left
    }

    function WithHere(p: Panel): AppState {
      if leftActive then this.(left := p) else this.(right := p)
    }
  }

  // ---------- Texts ----------

  predicate IsWhite(c: char) {
    || '\t' <= c <= '\r' || c == ' ' || c == '\U{85}' || c == '\U{A0}' || c == '\U{1680}'
    || '\U{2000}' <= c <= '\U{200A}' || '\U{2028}' <= c <= '\U{2029}' || c == '\U{202F}' || c == '\U{205F}'
    || c == '\U{3000}'
  }

  /** The characters with the property White_Space. */
  lemma TheWhiteSpace(c: char)
    ensures IsWhite(c) <==>
              c in {'\t', '\n', '\U{0B}', '\U{0C}', '\r', ' ', '\U{85}', '\U{A0}', '\U{1680}', '\U{2000}', '\U{2001}',
                    '\U{2002}', '\U{2003}', '\U{2004}', '\U{2005}', '\U{2006}', '\U{2007}', '\U{2008}', '\U{2009}',
                    '\U{200A}', '\U{2028}', '\U{2029}', '\U{202F}', '\U{205F}', '\U{3000}'}
  {
  }

  predicate AllWhite(s: string) {
    forall i :: 0 <= i < |s| ==> IsWhite(s[i])
  }

  /** value is text without the white space a before and b after it. */
  predicate TrimsBetween(text: string, a: string, value: string, b: string) {
    && text == a + value + b && AllWhite(a) && AllWhite(b)
    && (value != "" ==> !IsWhite(value[0]) && !IsWhite(value[|value| - 1]))
  }

  ghost predicate TrimsTo(text: string, value: string) {
    exists a, b :: TrimsBetween(text, a, value, b)
  }

  function TrimStart(s: string): string {
    if s != "" && IsWhite(s[0]) then TrimStart(s[1..]) else s
  }

  function TrimEnd(s: string): string {
    if s != "" && IsWhite(s[|s| - 1]) then TrimEnd(s[..|s| - 1]) else s
  }

  /** `trim`. */
  function Trim(s: string): (r: string)
    ensures TrimsTo(s, r)
  {
    TrimsBoth(s);
    TrimEnd(TrimStart(s))
  }

  lemma {:induction false} TrimsFront(s: string) returns (a: string)
    ensures s == a + TrimStart(s) && AllWhite(a)
    ensures TrimStart(s) != "" ==> !IsWhite(TrimStart(s)[0])
  {
    hide IsWhite;
    a := "";
    if s != "" && IsWhite(s[0]) {
      var more := TrimsFront(s[1..]);
      a := [s[0]] + more;
    }
  }

  lemma {:induction false} TrimsBack(s: string) returns (b: string)
    ensures s == TrimEnd(s) + b && AllWhite(b)
    ensures TrimEnd(s) != "" ==> !IsWhite(TrimEnd(s)[|TrimEnd(s)| - 1])
  {
    hide IsWhite;
    b := "";
    if s != "" && IsWhite(s[|s| - 1]) {
      var more := TrimsBack(s[..|s| - 1]);
      b := more + [s[|s| - 1]];
    }
  }

  lemma TrimsBoth(s: string)
    ensures TrimsTo(s, TrimEnd(TrimStart(s)))
  {
    hide IsWhite, AllWhite, TrimStart, TrimEnd;
    var start := TrimStart(s);
    var r := TrimEnd(start);
    var a := TrimsFront(s);
    var b := TrimsBack(start);
    assert s == a + r + b;
    assert r != "" ==> r[0] == start[0];
    assert TrimsBetween(s, a, r, b);
  }

  /** A text trims to one value only. */
  lemma TrimsToOne(text: string, v: string, w: string)
    requires TrimsTo(text, v) && TrimsTo(text, w)
    ensures v == w
  {
    hide IsWhite;
    var a, b :| TrimsBetween(text, a, v, b);
    var c, d :| TrimsBetween(text, c, w, d);
    BordersAgree(text, a, v, b, c, w, d);
    BordersAgree(text, c, w, d, a, v, b);
    assert v == text[|a|..|text| - |b|] && w == text[|c|..|text| - |d|];
  }

  lemma BordersAgree(text: string, a: string, v: string, b: string, c: string, w: string, d: string)
    requires TrimsBetween(text, a, v, b) && TrimsBetween(text, c, w, d)
    ensures v != "" ==> w != "" && |c| <= |a| && |d| <= |b|
  {
    hide IsWhite;
    if v != "" {
      assert text[|a|] == v[0] && text[|a| + |v| - 1] == v[|v| - 1];
      NotWhiteIsInside(text, c, w, d, |a|);
      NotWhiteIsInside(text, c, w, d, |a| + |v| - 1);
    }
  }

  lemma NotWhiteIsInside(text: string, c: string, w: string, d: string, i: nat)
    requires TrimsBetween(text, c, w, d) && i < |text| && !IsWhite(text[i])
    ensures |c| <= i < |c| + |w|
  {
    hide IsWhite;
    CharAt(c, w, d, i);
  }

  lemma CharAt(c: string, w: string, d: string, i: nat)
    requires i < |c + w + d|
    ensures i < |c| ==> (c + w + d)[i] == c[i]
    ensures i >= |c| + |w| ==> (c + w + d)[i] == d[i - |c| - |w|]
  {
  }

  /** A path as prompts show it. */
  function PathText(p: Path): (t: string)
    ensures t == if p == [] then "/" else "/" + ArchivePaths.Joined(p)
  {
    if p == [] then "/"
    else
      ArchivePaths.RenderIsJoined(p);
      ArchivePaths.Render(p)
  }

  /** The renames of a move into a directory: one for each item that has a name. */
  function RenamesInto(items: seq<Path>, dir: string): (pairs: seq<(Path, Destination)>)
    ensures |pairs| <= |items|
  {
    if items == [] then []
    else
      var p, rest := items[0], RenamesInto(items[1..], dir);
      if p == [] then rest else [(p, Inside(dir, p[|p| - 1]))] + rest
  }

  /** Each item keeps its name, in the order of the items. */
  lemma {:induction false} EachIsRenamed(items: seq<Path>, dir: string)
    requires [] !in items
    ensures |RenamesInto(items, dir)| == |items|
    ensures forall i :: 0 <= i < |items| ==>
              RenamesInto(items, dir)[i] == (items[i], Inside(dir, items[i][|items[i]| - 1]))
  {
    if items != [] {
      var rest := items[1..];
      EachIsRenamed(rest, dir);
      forall i | 0 <= i < |items|
        ensures RenamesInto(items, dir)[i] == (items[i], Inside(dir, items[i][|items[i]| - 1]))
      {
        assert i > 0 ==> items[i] == rest[i - 1] && RenamesInto(items, dir)[i] == RenamesInto(rest, dir)[i - 1];
      }
    }
  }

  /** The root has no name and stays where it is. */
  lemma {:induction false} RootsStay(items: seq<Path>, more: seq<Path>, dir: string)
    ensures RenamesInto(items + [[]] + more, dir) == RenamesInto(items + more, dir)
  {
    if items == [] {
      assert items + [[]] + more == [[]] + more && items + more == more;
    } else {
      RootsStay(items[1..], more, dir);
      assert (items + [[]] + more)[1..] == items[1..] + [[]] + more;
      assert (items + more)[1..] == items[1..] + more;
    }
  }

  // ---------- Panels ----------

  /** The items an action applies to: each selected one once, else what is under the
      cursor. */
  predicate Chosen(p: Panel, items: seq<Path>) {
    if p.selected != {} then
      && (forall x :: x in p.selected ==> x in items)
      && (forall x :: x in items ==> x in p.selected)
      && (forall i, j :: 0 <= i < j < |items| ==> items[i] != items[j])
    else items == if p.cursor.Some? then [p.cursor.value.path] else []
  }

  /** The place is listed anew, which clears the selection. */
  predicate Reloaded(p: Panel, q: Panel) {
    q.location == p.location && q.cwd == p.cwd && q.selected == {}
  }

  /** Nothing but the active panel changed, and it is q now, up to its cursor. */
  predicate HereIs(s: AppState, t: AppState, q: Panel) {
    t == s.WithHere(q.(cursor := t.Here().cursor))
  }

  // ---------- Jobs ----------

  /** Exactly one job is started, which nobody has cancelled, and it is shown. */
  predicate Starts(s: AppState, t: AppState, kind: JobKind, work: Work) {
    var id := s.table.nextId;
    && id !in s.table.handles
    && t == s.(mode := Progress(id, kind, Report(0, 0, 0, 0)),
               table := s.table.(nextId := id + 1,
                                 handles := s.table.handles[id := JobHandle(false, work)],
                                 running := s.table.running[id := Working]))
  }

  // ---------- Keys ----------

  /** What a key does. */
  ghost predicate KeyEffect(key: KeyCode, action: Option<UserAction>, s: AppState, t: AppState) {
    match s.mode
    case Browsing =>
      if action.Some? && action.value != UnknownAction then ActionEffect(action.value, s, t)
      else NavigationEffect(key, s, t)
    case Confirm(purpose) => ConfirmEffect(key, purpose, s, t)
    case TextInput(text, purpose) => TextInputEffect(key, text, purpose, s, t)
    case Connecting(form) => ConnectEffect(key, form, s, t)
    case Progress(id, _, _) => ProgressEffect(key, id, s, t)
    case Help => t == s.(mode := Browsing)
  }

  predicate ActionEffect(action: UserAction, s: AppState, t: AppState) {
    var here, there := s.Here(), s.There();
    match action
    case Quit => t == s.(quit := true)
    case Edit =>
      t == if here.cursor.Some? && !here.cursor.value.isDir
           then s.(edit := Some((here.location, here.cursor.value.path))) else s
    case Copy =>
      if here.selected == {} && here.cursor.None? then t == s
      else
        && t.mode.TextInput? && t.mode.textPurpose.CopyToDir? && Chosen(here, t.mode.textPurpose.items)
        && t.mode.text == PathText(there.cwd) && t == s.(mode := t.mode)
    case Move =>
      if here.selected != {} then
        && t.mode.TextInput? && t.mode.textPurpose.MoveToDir? && Chosen(here, t.mode.textPurpose.items)
        && t.mode.text == PathText(there.cwd) && t == s.(mode := t.mode)
      else if here.cursor.Some? then
        var entry := here.cursor.value;
        t == s.(mode := TextInput(PathText(here.cwd + [entry.name]), RenameOrMove(entry.path)))
      else t == s
    case Mkdir => t == s.(mode := TextInput("", MakeDirectory))
    case Delete => DeletionEffect(s, t)
    case ConnectTo => t == s.(mode := Connecting(ConnectForm(true, Some(22), "", false)))
    case SyncPanes =>
      Starts(s, t, ScanSync(here.location, there.location),
             Scan(here.location, here.cwd, there.location, there.cwd, s.settings.deleteExtraneous))
    case ShowHelp => t == s.(mode := Help)
    case UnknownAction => t == s
  }

  /** Deleting asks first, unless the user does not want to be asked. */
  predicate DeletionEffect(s: AppState, t: AppState) {
    var here := s.Here();
    if here.selected == {} && here.cursor.None? then t == s
    else if s.settings.confirmDelete then
      && t.mode.Confirm? && t.mode.purpose.ConfirmDelete? && Chosen(here, t.mode.purpose.items)
      && t == s.(mode := t.mode)
    else
      && StartedWork(s, t).DeleteAll? && Chosen(here, StartedWork(s, t).items)
      && Starts(s, t, FileOp, DeleteAll(here.location, StartedWork(s, t).items))
  }

  /** The work of the job started last. */
  function StartedWork(s: AppState, t: AppState): Work {
    if s.table.nextId in t.table.handles then t.table.handles[s.table.nextId].work else WarmUp("")
  }

  /** The fixed keys while browsing. */
  predicate NavigationEffect(key: KeyCode, s: AppState, t: AppState) {
    var here := s.Here();
    match key
    case Esc => t == s.(quit := true)
    case Tab => t == s.(leftActive := !s.leftActive)
    case Enter => DescendEffect(s, t)
    case Backspace => AscendEffect(s, t)
    case Left => AscendEffect(s, t)
    case Up => HereIs(s, t, here)
    case Down => HereIs(s, t, here)
    case PageUp => HereIs(s, t, here)
    case PageDown => HereIs(s, t, here)
    case Char(c) =>
      if c == 'q' then t == s.(quit := true)
      else if c == 'k' || c == 'j' then HereIs(s, t, here)
      else if c == ' ' then
        if here.cursor.None? then t == s
        else
          var p := here.cursor.value.path;
          HereIs(s, t, here.(selected := if p in here.selected then here.selected - {p} else here.selected + {p}))
      else t == s
    case _ => t == s
  }

  /** Enter goes into a directory, or opens an archive in the active panel. */
  predicate DescendEffect(s: AppState, t: AppState) {
    var here := s.Here();
    if here.cursor.None? then t == s
    else
      var entry := here.cursor.value;
      if entry.isDir then HereIs(s, t, here.(cwd := entry.path, selected := {}))
      else if entry.isArchive then
        var place := InArchive(here.location, entry.path);
        Starts(s, t, OpenArchive(s.leftActive, place), OpenArchiveAt(place))
      else t == s
  }

  /** One level up: to the parent directory, or out of an archive to where it lies. */
  predicate AscendEffect(s: AppState, t: AppState) {
    var here := s.Here();
    if here.cwd != [] then HereIs(s, t, here.(cwd := here.cwd[..|here.cwd| - 1], selected := {}))
    else if here.location.InArchive? then
      var file := here.location.archive;
      HereIs(s, t, Panel(here.location.base, if file == [] then [] else file[..|file| - 1], {}, None))
    else t == s
  }

  /** An executed sync is the accepted one, and both are noted. */
  predicate ConfirmEffect(key: KeyCode, purpose: ConfirmPurpose, s: AppState, t: AppState) {
    if key == Enter || key == Char('y') then
      match purpose
      case ConfirmDelete(items) => Starts(s, t, FileOp, DeleteAll(s.Here().location, items))
      case ConfirmSync(plan, src, dst) =>
        Starts(s.(trace := s.trace + [Accepted(Sync(plan, src, dst)), Executed(Sync(plan, src, dst))]), t,
               ExecuteSync, Execute(plan, src, dst, s.settings.enableQuic))
    else t == if key == Esc || key == Char('n') then s.(mode := Browsing) else s
  }

  ghost predicate TextInputEffect(key: KeyCode, text: string, purpose: TextPurpose, s: AppState, t: AppState) {
    match key
    case Enter => exists value :: TrimsTo(text, value) && SubmitEffect(value, purpose, s, t)
    case Esc => t == s.(mode := Browsing)
    case _ => t.mode.TextInput? && t.mode.textPurpose == purpose && t == s.(mode := t.mode)
  }

  /** Every submitted text that is not blank starts its job: nothing but a failed
      `mkdir` is ever reported here. */
  predicate SubmitEffect(value: string, purpose: TextPurpose, s: AppState, t: AppState) {
    var here, there := s.Here(), s.There();
    if value == "" then t == s.(mode := Browsing)
    else
      match purpose
      case MakeDirectory =>
        && Reloaded(here, t.Here())
        && (t.status == None || t.status == Some(MkdirFailed))
        && t == s.WithHere(t.Here()).(mode := Browsing, status := t.status,
                                      made := s.made + [NewDirectory(here.location, here.cwd, value)])
      case CopyToDir(items) =>
        Starts(s, t, FileOp, CopyInto(here.location, there.location, items, value, s.settings.enableQuic))
      case MoveToDir(items) =>
        Starts(s, t, FileOp,
               if here.location == there.location then Rename(here.location, RenamesInto(items, value))
               else MoveInto(here.location, there.location, items, value, s.settings.enableQuic))
      case RenameOrMove(item) => Starts(s, t, FileOp, Rename(here.location, [(item, Exactly(value))]))
  }

  predicate ConnectEffect(key: KeyCode, form: ConnectForm, s: AppState, t: AppState) {
    match key
    case Enter =>
      if form.hostEmpty || form.port.None? then t == s.(mode := Connecting(form.(rejected := true)))
      else Starts(s, t, Connect(s.leftActive, form.profile), OpenConnection(form.profile))
    case Esc => t == s.(mode := Browsing)
    case _ => t.mode.Connecting? && t == s.(mode := t.mode)
  }

  /** Esc cancels the job shown, and no other; the dialog stays until it has ended. */
  predicate ProgressEffect(key: KeyCode, id: JobId, s: AppState, t: AppState) {
    if key == Esc then
      && id in s.table.handles
      && t == s.(table := s.table.(handles := s.table.handles[id := s.table.handles[id].(cancelled := true)]))
    else t == s
  }

  // ---------- Job events ----------

  /** What an event does, in terms of what the closure of its job came to. Stale
      events do not occur: one of neither a background job nor the job shown
      contradicts consistency. */
  predicate EventEffect(e: JobEvent, s: AppState, t: AppState) {
    if e.Progressed? then
      t == if s.mode.Progress? && s.mode.jobId == e.id then s.(mode := s.mode.(report := e.report)) else s
    else
      && e.id in s.table.returned
      && var reaped := s.(table := s.table.(handles := s.table.handles - {e.id}));
      if e.id in s.background then t == reaped.(background := s.background - {e.id})
      else
        && s.mode.Progress? && s.mode.jobId == e.id
        && ForegroundEffect(e.id, s.mode.kind, s.table.returned[e.id], reaped.(mode := Browsing), t)
  }

  /** The end of the job shown: s is the state with the dialog closed. */
  predicate ForegroundEffect(id: JobId, kind: JobKind, result: ClosureResult, s: AppState, t: AppState) {
    if result == Some(Ok(())) then SuccessEffect(id, kind, s.(status := None), t)
    else if result == Some(Err(Cancelled)) then FailureEffect(kind, s.(status := Some(StatusCancelled)), t)
    else FailureEffect(kind, s.(status := Some(StatusFailed)), t)
  }

  predicate SuccessEffect(id: JobId, kind: JobKind, s: AppState, t: AppState) {
    match kind
    case FileOp => ReloadsBoth(s, t)
    case ExecuteSync => ReloadsBoth(s, t)
    case Connect(targetLeft, profile) =>
      var connected := s.(profiles := s.profiles + {profile});
      ShowsPlace(targetLeft, Remote(profile),
                 if s.settings.enableQuic then WarmsUp(connected, profile) else connected, t)
    case OpenArchive(targetLeft, location) => ShowsPlace(targetLeft, location, s, t)
    case ScanSync(src, dst) => id in s.table.cells && ShowsPlan(id, Sync(s.table.cells[id], src, dst), s, t)
  }

  predicate FailureEffect(kind: JobKind, s: AppState, t: AppState) {
    if kind.FileOp? || kind.ExecuteSync? then ReloadsBoth(s, t) else t == s
  }

  predicate ReloadsBoth(s: AppState, t: AppState) {
    Reloaded(s.left, t.left) && Reloaded(s.right, t.right) && t == s.(left := t.left, right := t.right)
  }

  /** The panel the job was started for shows the root of its place. */
  predicate ShowsPlace(targetLeft: bool, location: Location, s: AppState, t: AppState) {
    if targetLeft then t == s.(left := Panel(location, [], {}, t.left.cursor))
    else t == s.(right := Panel(location, [], {}, t.right.cursor))
  }

  /** A background job for the fast path. */
  function WarmsUp(s: AppState, profile: string): AppState {
    var id := s.table.nextId;
    s.(background := s.background[id := profile],
       table := s.table.(nextId := id + 1,
                         handles := s.table.handles[id := JobHandle(false, WarmUp(profile))],
                         running := s.table.running[id := Working]))
  }

  /** The plan of a completed scan is shown for confirmation, or there is nothing to do. */
  predicate ShowsPlan(id: JobId, x: Sync, s: AppState, t: AppState) {
    var taken := s.(table := s.table.(cells := s.table.cells - {id}));
    if x.plan.copy == [] && x.plan.delete == [] then t == taken.(status := Some(NothingToSync))
    else t == taken.(mode := Confirm(ConfirmSync(x.plan, x.src, x.dst)), status := None, trace := s.trace + [Shown(x)])
  }
}
