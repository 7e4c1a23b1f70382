/** The application: keystrokes, job events and job threads acting on its state. */
module App {
  import opened Base
  import opened Trees
  import opened Transports
  import opened JobManagers
  import opened Registries
  import opened AppModes
  import opened AppEffects
  import opened AppRuns

  class App {
    const jobs: JobManager
    const registry: VfsRegistry
    const keymap: KeyCode -> Option<UserAction>
    var mode: Mode
    var status: Option<Status>
    var active: bool /* the left panel is active */
    var left: Panel
    var right: Panel
    var background: map<JobId, string>
    var shouldQuit: bool
    var editRequest: Option<(Location, Path)>
    var settings: Settings
    var profiles: set<string>
    ghost var trace: seq<Step>
    ghost var made: seq<NewDirectory>

    ghost function State(): AppState
      reads this, jobs, registry
    {
      AppState(mode, status, active, left, right, background, profiles, shouldQuit, editRequest, settings,
               jobs.Table(), registry.State(), trace, made)
    }

    /** Modes, jobs and approvals are consistent, and every place shown resolves, so that
        no job has failed to start. */
    ghost predicate Valid()
      reads this, jobs, registry
    {
      && Consistent(mode, background, jobs.Table(), trace)
      && AllReachable(registry.State(), left.location, right.location, jobs.Table())
      && Sensible(status)
    }

    /** s is the state with its mode taken out. */
    ghost predicate Taken(s: AppState)
      reads this, jobs, registry
    {
      mode == Browsing && s == State().(mode := s.mode)
    }

    constructor (keymap: KeyCode -> Option<UserAction>, settings: Settings, leftStart: Path, rightStart: Path,
                 faulty: bool)
      ensures Valid() && fresh(jobs) && fresh(registry)
      ensures mode == Browsing && status == None && trace == [] && made == []
      ensures left.location == Local && left.cwd == leftStart && right.location == Local && right.cwd == rightStart
    {
      var leftCursor: Option<CursorEntry> := *;
      var rightCursor: Option<CursorEntry> := *;
      jobs := new JobManager();
      registry := new VfsRegistry(faulty);
      this.keymap, this.settings := keymap, settings;
      mode, status, active, background := Browsing, None, true, map[];
      left, right := Panel(Local, leftStart, {}, leftCursor), Panel(Local, rightStart, {}, rightCursor);
      shouldQuit, editRequest, profiles := false, None, {};
      trace, made := [], [];
    }

    // ---------- Starting jobs ----------

    /** Every `spawn_*`: starts a job and shows its progress. s is the state the key
        was pressed in. */
    method StartForeground(work: Work, kind: JobKind, ghost s: AppState)
      requires Taken(s)
      requires Consistent(s.mode, background, jobs.Table(), trace) && !s.mode.Progress?
      requires AllReachable(registry.State(), left.location, right.location, jobs.Table()) && Sensible(status)
      requires Runs(kind, work) && !kind.ExecuteSync?
      requires work.OpenArchiveAt? ==> work.archive.InArchive? && registry.State().Resolves(work.archive.base)
      modifies this`mode, jobs
      ensures Valid() && Starts(s, State(), kind, work)
    {
      hide Consistent, AllReachable, Runs, Known.Resolves;
      TableIsValid(s.mode, background, jobs.Table(), trace);
      StartJob(s.mode, background, jobs.Table(), trace, work, kind, Report(0, 0, 0, 0));
      SpawnedIsReachable(registry.State(), left.location, right.location, jobs.Table(), work);
      var id := jobs.Spawn(work);
      mode := Progress(id, kind, Report(0, 0, 0, 0));
    }

    /** `spawn_execute_sync`: exactly the plan and the places of the dialog. */
    method StartExecute(plan: PlanValue, src: Location, dst: Location, ghost s: AppState)
      requires Taken(s) && s.mode == Confirm(ConfirmSync(plan, src, dst)) && Sensible(status)
      requires Consistent(s.mode, background, jobs.Table(), trace)
      requires AllReachable(registry.State(), left.location, right.location, jobs.Table())
      modifies this`mode, this`trace, jobs
      ensures Valid()
      ensures var x := Sync(plan, src, dst);
              Starts(s.(trace := s.trace + [Accepted(x), Executed(x)]), State(), ExecuteSync,
                     Execute(plan, src, dst, settings.enableQuic))
    {
      hide Consistent, AllReachable, Sensible;
      var work := Execute(plan, src, dst, settings.enableQuic);
      TableIsValid(s.mode, background, jobs.Table(), trace);
      StartSync(s.mode, background, jobs.Table(), trace, settings.enableQuic, Report(0, 0, 0, 0));
      SpawnedIsReachable(registry.State(), left.location, right.location, jobs.Table(), work);
      var id := jobs.Spawn(work);
      mode := Progress(id, ExecuteSync, Report(0, 0, 0, 0));
      trace := trace + [Accepted(Sync(plan, src, dst)), Executed(Sync(plan, src, dst))];
    }

    method Reload(p: Panel) returns (r: Panel)
      ensures r == p.(selected := {}, cursor := r.cursor)
    {
      var cursor: Option<CursorEntry> := *;
      r := p.(selected := {}, cursor := cursor);
    }

    function ActivePanel(): Panel
      reads this
    {
      if active then left else right
    }

    function InactivePanel(): Panel
      reads this
    {
      if active then right else left
    }

    method SetActive(p: Panel)
      modifies this`left, this`right
      ensures if active then left == p && right == old(right) else right == p && left == old(left)
    {
      if active {
        left := p;
      } else {
        right := p;
      }
    }

    /** `selected_items`. */
    method SelectedItems() returns (items: seq<Path>)
      ensures Chosen(ActivePanel(), items)
      ensures items == [] <==> ActivePanel().selected == {} && ActivePanel().cursor.None?
    {
      var p := ActivePanel();
      if p.selected == {} {
        return if p.cursor.Some? then [p.cursor.value.path] else [];
      }
      items := ListOf(p.selected);
    }

    /** The elements of a set, each once, in some order. */
    method ListOf(chosen: set<Path>) returns (items: seq<Path>)
      ensures forall x :: x in items <==> x in chosen
      ensures forall i, j :: 0 <= i < j < |items| ==> items[i] != items[j]
    {
      items := [];
      var left := chosen;
      while left != {}
        invariant left <= chosen
        invariant forall x :: x in items <==> x in chosen && x !in left
        invariant forall i, j :: 0 <= i < j < |items| ==> items[i] != items[j]
        decreases |left|
      {
        var x :| x in left;
        items := items + [x];
        left := left - {x};
      }
    }

    // ---------- Keys ----------

    /** `handle_key`: the mode is taken out, and every handler puts one back. */
    method HandleKey(key: KeyCode)
      requires Valid()
      modifies this, jobs
      ensures Valid()
      ensures KeyEffect(key, keymap(key), old(State()), State())
    {
      hide Consistent, AllReachable, Sensible, ActionEffect, NavigationEffect, ConfirmEffect, TextInputEffect;
      hide ConnectEffect, ProgressEffect, Taken;
      ghost var s := State();
      var before := mode;
      TakeMode(s);
      match before {
        case Browsing => HandleBrowsingKey(key);
        case Confirm(purpose) => HandleConfirmKey(purpose, key, s);
        case TextInput(text, purpose) => HandleTextInputKey(text, purpose, key, s);
        case Connecting(form) => HandleConnectKey(form, key, s);
        case Progress(_, _, _) => HandleProgressKey(before, key, s);
        case Help => CloseHelp(s);
      }
    }

    method TakeMode(ghost s: AppState)
      requires s == State()
      modifies this`mode
      ensures Taken(s)
    {
      mode := Browsing;
    }

    /** Any key closes the help. */
    method CloseHelp(ghost s: AppState)
      requires Taken(s) && s.mode == Help && Sensible(status)
      requires Consistent(s.mode, background, jobs.Table(), trace)
      requires AllReachable(registry.State(), left.location, right.location, jobs.Table())
      ensures Valid() && State() == s.(mode := Browsing)
    {
      hide Consistent, AllReachable, Sensible;
      CloseDialog(s.mode, background, jobs.Table(), trace, Browsing);
    }

    method HandleBrowsingKey(key: KeyCode)
      requires mode == Browsing && Valid()
      modifies this, jobs
      ensures Valid()
      ensures var action := keymap(key);
              if action.Some? && action.value != UnknownAction then ActionEffect(action.value, old(State()), State())
              else NavigationEffect(key, old(State()), State())
    {
      hide Consistent, AllReachable, Sensible, ActionEffect, NavigationEffect;
      var action := keymap(key);
      if action.Some? && action.value != UnknownAction {
        HandleAction(action.value);
      } else {
        Navigate(key);
      }
    }

    method Navigate(key: KeyCode)
      requires mode == Browsing && Valid()
      modifies this, jobs
      ensures Valid()
      ensures NavigationEffect(key, old(State()), State())
    {
      hide Consistent, AllReachable, Sensible, DescendEffect, AscendEffect, Starts;
      match key {
        case Char(c) =>
          if c == 'q' {
            shouldQuit := true;
          } else if c == ' ' {
            ToggleSelection();
          } else if c == 'k' || c == 'j' {
            MoveCursor();
          }
        case Esc => shouldQuit := true;
        case Tab => active := !active;
        case Enter => Descend();
        case Backspace => Ascend();
        case Left => Ascend();
        case Up => MoveCursor();
        case Down => MoveCursor();
        case PageUp => MoveCursor();
        case PageDown => MoveCursor();
        case _ =>
      }
    }

    method MoveCursor()
      requires Valid()
      modifies this`left, this`right
      ensures Valid() && HereIs(old(State()), State(), old(State()).Here())
    {
      hide Consistent;
      var cursor: Option<CursorEntry> := *;
      SetActive(ActivePanel().(cursor := cursor));
    }

    /** `toggle_selection`. */
    method ToggleSelection()
      requires Valid() && mode == Browsing
      modifies this`left, this`right
      ensures Valid() && NavigationEffect(Char(' '), old(State()), State())
    {
      hide Consistent;
      var p := ActivePanel();
      if p.cursor.None? {
        return;
      }
      var path := p.cursor.value.path;
      var cursor: Option<CursorEntry> := *;
      SetActive(p.(selected := if path in p.selected then p.selected - {path} else p.selected + {path},
                   cursor := cursor));
    }

    method Descend()
      requires mode == Browsing && Valid()
      modifies this`mode, this`left, this`right, jobs
      ensures Valid() && DescendEffect(old(State()), State())
    {
      hide Consistent, Starts;
      var p := ActivePanel();
      if p.cursor.None? {
        return;
      }
      var entry := p.cursor.value;
      if entry.isDir {
        var reloaded := Reload(p.(cwd := entry.path));
        SetActive(reloaded);
      } else if entry.isArchive {
        var location := InArchive(p.location, entry.path);
        StartForeground(OpenArchiveAt(location), OpenArchive(active, location), State());
      }
    }

    method Ascend()
      requires Valid()
      modifies this`left, this`right
      ensures Valid() && AscendEffect(old(State()), State())
    {
      hide Consistent;
      var p := ActivePanel();
      if p.cwd == [] && p.location.InArchive? {
        var archive := p.location.archive;
        var up := if archive == [] then [] else archive[..|archive| - 1];
        var reloaded := Reload(p.(location := p.location.base, cwd := up));
        SetActive(reloaded);
      } else if p.cwd != [] {
        var reloaded := Reload(p.(cwd := p.cwd[..|p.cwd| - 1]));
        SetActive(reloaded);
      }
    }

    method HandleAction(action: UserAction)
      requires mode == Browsing && Valid()
      modifies this, jobs
      ensures Valid()
      ensures ActionEffect(action, old(State()), State())
    {
      hide Consistent, AllReachable, Sensible, DeletionEffect, Starts;
      match action {
        case Quit => shouldQuit := true;
        case Edit =>
          var p := ActivePanel();
          if p.cursor.Some? && !p.cursor.value.isDir {
            editRequest := Some((p.location, p.cursor.value.path));
          }
        case Copy =>
          var items := SelectedItems();
          if items != [] {
            OpenDialog(TextInput(PathText(InactivePanel().cwd), CopyToDir(items)));
          }
        case Move =>
          var p := ActivePanel();
          if p.selected != {} {
            var items := SelectedItems();
            OpenDialog(TextInput(PathText(InactivePanel().cwd), MoveToDir(items)));
          } else if p.cursor.Some? {
            OpenDialog(TextInput(PathText(p.cwd + [p.cursor.value.name]), RenameOrMove(p.cursor.value.path)));
          }
        case Mkdir => OpenDialog(TextInput("", MakeDirectory));
        case Delete => StartDelete();
        case ConnectTo => OpenDialog(Connecting(ConnectForm(true, Some(22), "", false)));
        case SyncPanes => StartScan();
        case ShowHelp => OpenDialog(Help);
        case UnknownAction =>
      }
    }

    /** Shows a dialog other than a sync confirmation. */
    method OpenDialog(dialog: Mode)
      requires mode == Browsing && Valid() && !dialog.Progress? && !(dialog.Confirm? && dialog.purpose.ConfirmSync?)
      modifies this`mode
      ensures Valid() && State() == old(State()).(mode := dialog)
    {
      hide AllReachable, Sensible;
      CloseDialog(mode, background, jobs.Table(), trace, dialog);
      mode := dialog;
    }

    method StartDelete()
      requires mode == Browsing && Valid()
      modifies this`mode, jobs
      ensures Valid()
      ensures DeletionEffect(old(State()), State())
    {
      hide Consistent, AllReachable, Sensible;
      var items := SelectedItems();
      if items == [] {
        return;
      }
      if settings.confirmDelete {
        OpenDialog(Confirm(ConfirmDelete(items)));
      } else {
        StartForeground(DeleteAll(ActivePanel().location, items), FileOp, State());
      }
    }

    /** `start_sync`: only scans, the active panel's directory against the other's. */
    method StartScan()
      requires mode == Browsing && Valid()
      modifies this`mode, this`status, jobs
      ensures Valid()
      ensures var here, there := old(ActivePanel()), old(InactivePanel());
              Starts(old(State()), State(), ScanSync(here.location, there.location),
                     Scan(here.location, here.cwd, there.location, there.cwd, settings.deleteExtraneous))
    {
      hide Consistent, Starts, Sensible;
      var src, srcRoot := ActivePanel().location, ActivePanel().cwd;
      var dst, dstRoot := InactivePanel().location, InactivePanel().cwd;
      var srcOk := registry.Resolve(src);
      var dstOk := registry.Resolve(dst);
      if !srcOk || !dstOk {
        // "sync failed" cannot happen: both places resolve.
        assert false;
      }
      hide AllReachable;
      StartForeground(Scan(src, srcRoot, dst, dstRoot, settings.deleteExtraneous), ScanSync(src, dst), State());
    }

    method HandleConfirmKey(purpose: ConfirmPurpose, key: KeyCode, ghost s: AppState)
      requires Taken(s) && s.mode == Confirm(purpose) && Sensible(status)
      requires Consistent(s.mode, background, jobs.Table(), trace)
      requires AllReachable(registry.State(), left.location, right.location, jobs.Table())
      modifies this`mode, this`trace, jobs
      ensures Valid()
      ensures ConfirmEffect(key, purpose, s, State())
    {
      hide Consistent, AllReachable, Sensible, Starts;
      if key == Char('y') || key == Enter {
        match purpose {
          case ConfirmDelete(items) => StartForeground(DeleteAll(ActivePanel().location, items), FileOp, s);
          case ConfirmSync(plan, src, dst) => StartExecute(plan, src, dst, s);
        }
      } else if key == Char('n') || key == Esc {
        CloseDialog(s.mode, background, jobs.Table(), trace, Browsing);
      } else {
        mode := Confirm(purpose);
      }
    }

    method HandleTextInputKey(text: string, purpose: TextPurpose, key: KeyCode, ghost s: AppState)
      requires Taken(s) && s.mode == TextInput(text, purpose) && Sensible(status)
      requires Consistent(s.mode, background, jobs.Table(), trace)
      requires AllReachable(registry.State(), left.location, right.location, jobs.Table())
      modifies this`mode, this`status, this`left, this`right, this`made, jobs
      ensures Valid()
      ensures TextInputEffect(key, text, purpose, s, State())
    {
      hide Consistent, AllReachable, Sensible, SubmitEffect, TrimsTo;
      CloseDialog(s.mode, background, jobs.Table(), trace, Browsing);
      match key {
        case Enter => SubmitTextInput(Trim(text), purpose, s);
        case Esc =>
        case _ =>
          var edited: string := *;
          OpenDialog(TextInput(edited, purpose));
      }
    }

    /** `submit_text_input`, of the trimmed text. */
    method SubmitTextInput(value: string, purpose: TextPurpose, ghost s: AppState)
      requires Taken(s) && Valid() && s.mode.TextInput?
      requires Consistent(s.mode, background, jobs.Table(), trace)
      modifies this`mode, this`status, this`left, this`right, this`made, jobs
      ensures Valid()
      ensures SubmitEffect(value, purpose, s, State())
    {
      hide Consistent, AllReachable, Starts;
      if value == "" {
        return;
      }
      match purpose {
        case MakeDirectory => CreateDirectory(value);
        case CopyToDir(items) =>
          StartTransfer(CopyInto(ActivePanel().location, InactivePanel().location, items, value, settings.enableQuic),
                        s);
        case MoveToDir(items) =>
          if ActivePanel().location == InactivePanel().location {
            StartForeground(Rename(ActivePanel().location, RenamesInto(items, value)), FileOp, s);
          } else {
            StartTransfer(MoveInto(ActivePanel().location, InactivePanel().location, items, value,
                                   settings.enableQuic), s);
          }
        case RenameOrMove(item) =>
          StartForeground(Rename(ActivePanel().location, [(item, Exactly(value))]), FileOp, s);
      }
    }

    /** `mkdir` in the active panel's directory, which may fail. */
    method CreateDirectory(name: string)
      requires mode == Browsing && Valid() && name != ""
      modifies this`status, this`left, this`right, this`made
      ensures Valid()
      ensures SubmitEffect(name, MakeDirectory, old(State()), State())
    {
      hide Consistent;
      var ok: bool := *;
      var p := ActivePanel();
      made := made + [NewDirectory(p.location, p.cwd, name)];
      status := if ok then None else Some(MkdirFailed);
      var reloaded := Reload(p);
      SetActive(reloaded);
    }

    /** `spawn_copy` and the cross-backend half of `spawn_move_to_dir`. */
    method StartTransfer(work: Work, ghost s: AppState)
      requires Taken(s) && Valid() && !s.mode.Progress?
      requires Consistent(s.mode, background, jobs.Table(), trace) && (work.CopyInto? || work.MoveInto?)
      modifies this`mode, this`status, jobs
      ensures Valid() && Starts(s, State(), FileOp, work)
    {
      hide Consistent, Sensible;
      var srcOk := registry.Resolve(ActivePanel().location);
      var dstOk := registry.Resolve(InactivePanel().location);
      if !srcOk || !dstOk {
        // "copy failed" and "move failed" cannot happen: both places resolve.
        assert false;
      }
      hide AllReachable;
      StartForeground(work, FileOp, s);
    }

    method HandleConnectKey(form: ConnectForm, key: KeyCode, ghost s: AppState)
      requires Taken(s) && s.mode == Connecting(form) && Sensible(status)
      requires Consistent(s.mode, background, jobs.Table(), trace)
      requires AllReachable(registry.State(), left.location, right.location, jobs.Table())
      modifies this`mode, jobs
      ensures Valid()
      ensures ConnectEffect(key, form, s, State())
    {
      hide Consistent, AllReachable, Sensible;
      CloseDialog(s.mode, background, jobs.Table(), trace, Browsing);
      match key {
        case Esc =>
        case Enter =>
          if form.hostEmpty || form.port.None? {
            OpenDialog(Connecting(form.(rejected := true)));
          } else {
            StartForeground(OpenConnection(form.profile), Connect(active, form.profile), s);
          }
        case _ =>
          var edited: ConnectForm := *;
          OpenDialog(Connecting(edited));
      }
    }

    /** Esc asks the job to stop; the dialog stays until it has. */
    method HandleProgressKey(before: Mode, key: KeyCode, ghost s: AppState)
      requires Taken(s) && s.mode == before && before.Progress? && Sensible(status)
      requires Consistent(before, background, jobs.Table(), trace)
      requires AllReachable(registry.State(), left.location, right.location, jobs.Table())
      modifies this`mode, jobs
      ensures Valid()
      ensures ProgressEffect(key, before.jobId, s, State())
    {
      hide Consistent, AllReachable, Sensible;
      TableIsValid(before, background, jobs.Table(), trace);
      ShownHasHandle(before, background, jobs.Table(), trace);
      if key == Esc {
        CancelJob(before, background, jobs.Table(), trace, before.jobId);
        StaysReachable(registry.State(), left.location, right.location, jobs.Table(),
                       jobs.Table().Signalled(before.jobId));
        jobs.Cancel(before.jobId);
      }
      mode := before;
    }


    // ---------- Job events ----------

    /** `handle_job_event`: e was just taken from the channel. */
    method HandleJobEvent(e: JobEvent)
      requires Consistent(mode, background, jobs.Table().Before(e), trace) && Sensible(status)
      requires AllReachable(registry.State(), left.location, right.location, jobs.Table())
      modifies this, jobs
      ensures Valid()
      ensures EventEffect(e, old(State()), State())
      ensures e.Finished? && e.id !in old(background) && old(jobs.returned)[e.id] == Some(Err(Cancelled)) ==>
                e.id in old(jobs.handles) && old(jobs.handles)[e.id].cancelled
    {
      hide Consistent, AllReachable, Sensible, ForegroundEffect;
      ghost var t0 := jobs.Table();
      if e.Progressed? {
        ReportArrived(mode, background, t0, trace, e);
        if mode.Progress? && mode.jobId == e.id {
          mode := mode.(report := e.report);
        }
        return;
      }
      LastOfItsJob(mode, background, t0, trace, e);
      StaysReachable(registry.State(), left.location, right.location, t0, t0.Reaped(e.id));
      if e.id in background {
        BackgroundEnded(mode, background, t0, trace, e);
        jobs.Reap(e.id);
        background := background - {e.id};
        return;
      }
      FinishForeground(e);
    }

    /** The job shown has ended: its dialog closes, and what it was for happens. */
    method FinishForeground(e: JobEvent)
      requires e.Finished? && e.id !in background && e.id !in jobs.running
      requires Consistent(mode, background, jobs.Table().Before(e), trace) && Sensible(status)
      requires AllReachable(registry.State(), left.location, right.location, jobs.Table())
      requires AllReachable(registry.State(), left.location, right.location, jobs.Table().Reaped(e.id))
      requires e.id in jobs.returned && Tells(e.outcome, jobs.returned[e.id])
      modifies this, jobs
      ensures Valid()
      ensures old(mode).Progress? && old(mode).jobId == e.id
      ensures var s := old(State());
              ForegroundEffect(e.id, s.mode.kind, s.table.returned[e.id],
                               s.(mode := Browsing, table := s.table.(handles := s.table.handles - {e.id})), State())
    {
      hide Consistent, AllReachable, SuccessEffect, FailureEffect;
      ghost var t0 := jobs.Table();
      ForegroundEnded(mode, background, t0, trace, e);
      if e.outcome == Completed {
        OpenedIsReachable(registry.State(), left.location, right.location, mode, background, t0, trace, e);
        if mode.kind.ScanSync? {
          PlanIsThere(mode, background, t0, trace, e);
        }
      }
      jobs.Reap(e.id);
      assert jobs.Table() == t0.Reaped(e.id);
      var kind := mode.kind;
      mode := Browsing;
      status :=
        match e.outcome
        case Completed => None
        case WasCancelled => Some(StatusCancelled)
        case Failed => Some(StatusFailed);
      if e.outcome == Completed {
        FinishSuccess(kind, e.id);
      } else {
        FinishFailure(kind);
      }
    }

    method FinishSuccess(kind: JobKind, id: JobId)
      requires Valid() && mode == Browsing && status == None && id !in jobs.handles
      requires kind.Connect? ==> registry.State().Resolves(Remote(kind.profile))
      requires kind.OpenArchive? ==> registry.State().Resolves(kind.location)
      requires kind.ScanSync? ==>
                 id in jobs.cells && EndsWith(trace, Scanned(Sync(jobs.cells[id], kind.src, kind.dst)))
      modifies this, jobs
      ensures Valid()
      ensures SuccessEffect(id, kind, old(State()), State())
    {
      hide Consistent, AllReachable, ReloadsBoth, ShowsPlace, ShowsPlan;
      match kind {
        case FileOp => ReloadBoth();
        case ExecuteSync => ReloadBoth();
        case Connect(targetLeft, profile) => FinishConnect(targetLeft, profile);
        case OpenArchive(targetLeft, location) => ShowPlace(targetLeft, location);
        case ScanSync(src, dst) => FinishScan(id, src, dst);
      }
    }

    /** A job that failed or was cancelled may have changed files all the same. */
    method FinishFailure(kind: JobKind)
      requires Valid()
      modifies this`left, this`right
      ensures Valid()
      ensures FailureEffect(kind, old(State()), State())
    {
      hide Consistent, AllReachable, ReloadsBoth;
      if kind.FileOp? || kind.ExecuteSync? {
        ReloadBoth();
      }
    }

    /** The plan of a completed scan goes from its cell into the dialog. */
    method FinishScan(id: JobId, src: Location, dst: Location)
      requires Valid() && mode == Browsing && status == None && id !in jobs.handles && id in jobs.cells
      requires EndsWith(trace, Scanned(Sync(jobs.cells[id], src, dst)))
      modifies this`mode, this`status, this`trace, jobs`cells
      ensures Valid()
      ensures ShowsPlan(id, Sync(old(jobs.cells)[id], src, dst), old(State()), State())
    {
      hide Consistent, AllReachable;
      ghost var t0 := jobs.Table();
      WithoutCell(mode, background, t0, trace, id);
      StaysReachable(registry.State(), left.location, right.location, t0, t0.(cells := t0.cells - {id}));
      var taken := jobs.TakePlan(id);
      assert jobs.Table() == t0.(cells := t0.cells - {id});
      if taken.None? {
        // "Sync scan produced no plan" cannot happen.
        assert false;
      }
      var plan := taken.value;
      if plan.IsEmpty() {
        status := Some(NothingToSync);
        return;
      }
      ShowPlan(background, jobs.Table(), trace, Sync(plan, src, dst));
      mode := Confirm(ConfirmSync(plan, src, dst));
      trace := trace + [Shown(Sync(plan, src, dst))];
    }

    /** The panel goes to the new connection, whose fast path is tried in the background. */
    method FinishConnect(targetLeft: bool, profile: string)
      requires Valid() && mode == Browsing && registry.State().Resolves(Remote(profile))
      modifies this`left, this`right, this`profiles, this`background, jobs
      ensures Valid()
      ensures var connected := old(State()).(profiles := old(profiles) + {profile});
              ShowsPlace(targetLeft, Remote(profile),
                         if settings.enableQuic then WarmsUp(connected, profile) else connected, State())
    {
      hide Consistent, AllReachable, Sensible;
      profiles := profiles + {profile};
      if settings.enableQuic {
        StartWarmUp(profile);
      }
      ShowPlace(targetLeft, Remote(profile));
    }

    method StartWarmUp(profile: string)
      requires Valid() && mode == Browsing
      modifies this`background, jobs
      ensures Valid() && State() == WarmsUp(old(State()), profile)
    {
      hide Consistent, AllReachable, Sensible;
      StartBackground(mode, background, jobs.Table(), trace, profile);
      TableIsValid(mode, background, jobs.Table(), trace);
      SpawnedIsReachable(registry.State(), left.location, right.location, jobs.Table(), WarmUp(profile));
      var id := jobs.Spawn(WarmUp(profile));
      background := background[id := profile];
    }

    method ReloadBoth()
      requires Valid()
      modifies this`left, this`right
      ensures Valid() && ReloadsBoth(old(State()), State())
    {
      hide Consistent;
      var reloadedLeft := Reload(left);
      var reloadedRight := Reload(right);
      left, right := reloadedLeft, reloadedRight;
    }

    method ShowPlace(targetLeft: bool, location: Location)
      requires Valid() && registry.State().Resolves(location)
      modifies this`left, this`right
      ensures Valid() && ShowsPlace(targetLeft, location, old(State()), State())
    {
      hide Consistent;
      var shown := Reload((if targetLeft then left else right).(location := location, cwd := []));
      if targetLeft {
        left := shown;
      } else {
        right := shown;
      }
    }

    // ---------- Runs ----------

    /** A job's thread takes a step: it reports, sets its plan cell, returns from its
        closure, or sends its Finished. Only the last one adds to the history. */
    method ThreadMoves()
      requires Valid()
      modifies jobs, registry, this`trace
      ensures Valid()
      ensures trace == old(trace) || exists id :: id in old(jobs.running) && ScanEnds(id, old(State()), trace)
      ensures ThreadEffect(old(State()), State())
    {
      hide Consistent, AllReachable, MayReturn, ScanEnds;
      TableIsValid(mode, background, jobs.Table(), trace);
      if jobs.running.Keys == {} {
        return;
      }
      var id :| id in jobs.running.Keys;
      var phase := jobs.running[id];
      var report: Report := *;
      var plan: PlanValue := *;
      var planned: bool := *;
      if phase.Returning? {
        ThreadFinishes(id);
      } else if * {
        ThreadReported(mode, background, jobs.Table(), trace, id, report);
        StaysReachable(registry.State(), left.location, right.location, jobs.Table(),
                       jobs.Table().Reported(id, report));
        jobs.ThreadReports(id, report);
      } else if phase.Working? && jobs.handles[id].work.Scan? && planned {
        ThreadSetPlan(mode, background, jobs.Table(), trace, id, plan);
        StaysReachable(registry.State(), left.location, right.location, jobs.Table(),
                       jobs.Table().PlanStored(id, plan));
        jobs.ThreadSetsPlan(id, plan);
      } else {
        ClosureReturns(id);
      }
    }

    method ThreadFinishes(id: JobId)
      requires Valid() && id in jobs.running && jobs.running[id].Returning?
      modifies jobs, this`trace
      ensures Valid()
      ensures trace == old(trace) || ScanEnds(id, old(State()), trace)
      ensures ThreadEffect(old(State()), State())
    {
      hide Consistent, AllReachable;
      ThreadEnded(mode, background, jobs.Table(), trace, id);
      TableIsValid(mode, background, jobs.Table(), trace);
      StaysReachable(registry.State(), left.location, right.location, jobs.Table(), jobs.Table().Ended(id));
      ghost var after := TraceAfter(jobs.Table(), trace, id);
      jobs.ThreadEnds(id);
      trace := after;
    }

    /** A connection or an archive is in the registry before its job's closure returns. */
    method ClosureReturns(id: JobId)
      requires Valid() && id in jobs.running && id in jobs.handles
      modifies jobs, registry
      ensures Valid()
      ensures ThreadEffect(old(State()), State())
    {
      hide Consistent, MayReturn, Sensible, Opens;
      TableIsValid(mode, background, jobs.Table(), trace);
      ghost var known := registry.State();
      assert Opens(jobs.handles[id], HasSucceeded(jobs.Table(), id), known);
      var result := RunClosure(jobs.handles[id], HasSucceeded(jobs.Table(), id));
      hide AllReachable;
      GrownIsReachable(known, registry.State(), left.location, right.location, jobs.Table());
      if MayReturn(jobs.handles[id], jobs.running[id], result) {
        ThreadReturned(mode, background, jobs.Table(), trace, id, result);
        ReturnedIsReachable(registry.State(), left.location, right.location, jobs.Table(), id, result);
        jobs.ThreadReturns(id, result);
      }
    }

    /** What a job's closure may come to; connecting and opening go through the registry. */
    method RunClosure(job: JobHandle, ghost done: bool) returns (result: ClosureResult)
      requires registry.State().Valid() && Opens(job, done, registry.State())
      modifies registry
      ensures registry.State().Valid() && Opens(job, result == Some(Ok(())), registry.State())
      ensures old(registry.State()).remotes <= registry.remotes && old(registry.State()).archives <= registry.archives
    {
      result := *;
      match job.work {
        case OpenConnection(profile) =>
          var r := registry.ConnectAndCache(profile);
          result := Some(r);
        case OpenArchiveAt(archive) =>
          var r := registry.OpenArchiveAndCache(archive);
          result := Some(r);
        case _ =>
      }
    }

    /** The main loop, for any number of turns: keys, events and threads interleave
        in any order, and every state on the way is consistent. */
    method RunLoop(turns: nat) returns (ghost run: seq<AppState>)
      requires Valid()
      modifies this, jobs, registry
      ensures Valid()
      ensures IsRun(keymap, run) && run[0] == old(State()) && run[|run| - 1] == State()
      ensures AllConsistent(run)
    {
      hide Consistent, AllReachable, Sensible, AppStep;
      run := [State()];
      for i := 0 to turns
        invariant Valid()
        invariant IsRun(keymap, run) && run[0] == old(State()) && run[|run| - 1] == State()
        invariant AllConsistent(run)
      {
        if shouldQuit {
          return;
        }
        if * {
          var key: KeyCode := *;
          PressKey(key);
          OneMoreState(keymap, run, State());
          run := run + [State()];
          editRequest := None;
          assert AppStep(keymap, run[|run| - 1], State()) by {
            EditIsTaken(keymap, run[|run| - 1], State());
          }
        } else if * {
          ThreadMoves();
          ThreadIsStep(keymap, run[|run| - 1], State());
        } else {
          DeliverEvent();
        }
        OneMoreState(keymap, run, State());
        run := run + [State()];
      }
    }

    method PressKey(key: KeyCode)
      requires Valid()
      modifies this, jobs
      ensures Valid() && AppStep(keymap, old(State()), State())
    {
      hide Consistent, AllReachable, Sensible, KeyEffect;
      HandleKey(key);
    }

    /** The next event, if there is one, is taken from the channel and handled. */
    method DeliverEvent()
      requires Valid()
      modifies this, jobs
      ensures Valid() && AppStep(keymap, old(State()), State())
    {
      hide Consistent, AllReachable, Sensible, EventEffect;
      TableIsValid(mode, background, jobs.Table(), trace);
      if jobs.events != [] {
        ghost var t0 := jobs.Table();
        StaysReachable(registry.State(), left.location, right.location, t0, t0.(events := t0.events[1..]));
        var e := jobs.Receive();
        assert jobs.Table() == t0.(events := t0.events[1..]);
        HandleJobEvent(e);
      } else {
        ThreadIsStep(keymap, State(), State());
      }
    }
  }

  ghost predicate AllConsistent(run: seq<AppState>) {
    forall s :: s in run ==> Consistent(s.mode, s.background, s.table, s.trace)
  }

  lemma EditIsTaken(keymap: Keymap, s: AppState, t: AppState)
    requires t == s.(edit := None)
    ensures AppStep(keymap, s, t)
  {
  }

  lemma ThreadIsStep(keymap: Keymap, s: AppState, t: AppState)
    requires ThreadEffect(s, t)
    ensures AppStep(keymap, s, t)
  {
  }

  /** The history of syncs grows by the completed scan of a thread that ends. */
  predicate ScanEnds(id: JobId, s: AppState, trace: seq<Step>) {
    && id in s.table.handles && id in s.table.cells && s.table.handles[id].work.Scan?
    && HasSucceeded(s.table, id)
    && var w := s.table.handles[id].work;
    trace == s.trace + [Scanned(Sync(s.table.cells[id], w.src, w.dst))]
  }

  /** What a completed connection or archive job was to open resolves. */
  lemma OpenedIsReachable(known: Known, left: Location, right: Location, mode: Mode, background: map<JobId, string>,
                          table: JobTable, trace: seq<Step>, e: JobEvent)
    requires Consistent(mode, background, table.Before(e), trace) && AllReachable(known, left, right, table)
    requires e.Finished? && mode.Progress? && mode.jobId == e.id
    requires e.id in table.returned && table.returned[e.id] == Some(Ok(()))
    ensures mode.kind.Connect? ==> known.Resolves(Remote(mode.kind.profile))
    ensures mode.kind.OpenArchive? ==> known.Resolves(mode.kind.location)
  {
    ShownHasHandle(mode, background, table.Before(e), trace);
    assert e.id in table.handles;
    assert Opens(table.handles[e.id], HasSucceeded(table, e.id), known);
  }

  /** The status never says that a job could not start or that a scan left no plan. */
  predicate Sensible(status: Option<Status>) {
    status.Some? ==>
      status.value != NoPlan && status.value != SyncFailed && status.value != CopyFailed && status.value != MoveFailed
  }

  lemma TableIsValid(mode: Mode, background: map<JobId, string>, table: JobTable, trace: seq<Step>)
    requires Consistent(mode, background, table, trace)
    ensures table.Valid()
  {
  }

  lemma ShownHasHandle(mode: Mode, background: map<JobId, string>, table: JobTable, trace: seq<Step>)
    requires Consistent(mode, background, table, trace) && mode.Progress?
    ensures mode.jobId in table.handles && Runs(mode.kind, table.handles[mode.jobId].work)
  {
  }
}
