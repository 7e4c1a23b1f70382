/** Whole runs of the application: keys, job events and threads in any order. */
module AppRuns {
  import opened Base
  import opened JobManagers
  import opened AppModes
  import opened AppEffects

  type Keymap = KeyCode -> Option<UserAction>

  /** What a job's thread does leaves everything but the table, the registry and the
      history of syncs alone; it starts no job and cancels none. */
  predicate ThreadEffect(s: AppState, t: AppState) {
    && t == s.(table := t.table, known := t.known, trace := t.trace)
    && t.table.handles == s.table.handles && t.table.nextId == s.table.nextId
    && s.known.remotes <= t.known.remotes && s.known.archives <= t.known.archives
  }

  /** One step of a run; the last kind is the main loop taking the edit request. */
  ghost predicate AppStep(keymap: Keymap, s: AppState, t: AppState) {
    || (exists key :: KeyEffect(key, keymap(key), s, t))
    || ThreadEffect(s, t)
    || (s.table.events != []
        && EventEffect(s.table.events[0], s.(table := s.table.(events := s.table.events[1..])), t))
    || t == s.(edit := None)
  }

  ghost predicate IsRun(keymap: Keymap, run: seq<AppState>) {
    && run != []
    && forall i :: 0 <= i < |run| - 1 ==> AppStep(keymap, run[i], run[i + 1])
  }

  lemma OneMoreState(keymap: Keymap, run: seq<AppState>, t: AppState)
    requires IsRun(keymap, run) && AppStep(keymap, run[|run| - 1], t)
    ensures IsRun(keymap, run + [t])
  {
    hide AppStep;
    var more := run + [t];
    forall i | 0 <= i < |more| - 1
      ensures AppStep(keymap, more[i], more[i + 1])
    {
    }
  }

  // ---------- What keys start ----------

  /** Exactly one job was started, which nobody has cancelled, and it is shown. Only a
      sync adds to the history, and only from its own dialog. */
  predicate StartedOne(s: AppState, t: AppState) {
    var id, w := s.table.nextId, StartedWork(s, t);
    && t.mode.Progress? && t.mode.jobId == id && id !in s.table.handles
    && t.table.handles == s.table.handles[id := JobHandle(false, w)]
    && t.table.nextId == id + 1
    && if w.Execute? then
         && s.mode == Confirm(ConfirmSync(w.plan, w.src, w.dst))
         && t.trace == s.trace + [Accepted(Sync(w.plan, w.src, w.dst)), Executed(Sync(w.plan, w.src, w.dst))]
       else t.trace == s.trace
  }

  predicate StartedNone(s: AppState, t: AppState) {
    t.table == s.table && t.trace == s.trace && !t.mode.Progress?
  }

  lemma StartsOne(s: AppState, t: AppState, kind: JobKind, work: Work)
    requires Starts(s, t, kind, work) && !work.Execute?
    ensures StartedOne(s, t)
  {
  }

  lemma ActionStartsOne(action: UserAction, s: AppState, t: AppState)
    requires ActionEffect(action, s, t) && s.mode == Browsing
    ensures StartedNone(s, t) || StartedOne(s, t)
  {
    hide Starts, StartedOne, StartedWork, Chosen, PathText;
    var here, there := s.Here(), s.There();
    if action.SyncPanes? {
      StartsOne(s, t, ScanSync(here.location, there.location),
                Scan(here.location, here.cwd, there.location, there.cwd, s.settings.deleteExtraneous));
    } else if action.Delete? && !s.settings.confirmDelete && !(here.selected == {} && here.cursor.None?) {
      StartsOne(s, t, FileOp, DeleteAll(here.location, StartedWork(s, t).items));
    }
  }

  lemma NavigationStartsOne(key: KeyCode, s: AppState, t: AppState)
    requires NavigationEffect(key, s, t) && s.mode == Browsing
    ensures StartedNone(s, t) || StartedOne(s, t)
  {
    hide Starts, StartedOne;
    var here := s.Here();
    if key == Enter && here.cursor.Some? && !here.cursor.value.isDir && here.cursor.value.isArchive {
      var place := InArchive(here.location, here.cursor.value.path);
      StartsOne(s, t, OpenArchive(s.leftActive, place), OpenArchiveAt(place));
    }
  }

  lemma ConfirmStartsOne(key: KeyCode, purpose: ConfirmPurpose, s: AppState, t: AppState)
    requires ConfirmEffect(key, purpose, s, t) && s.mode == Confirm(purpose)
    ensures StartedNone(s, t) || StartedOne(s, t)
  {
  }

  lemma SubmitStartsOne(value: string, purpose: TextPurpose, s: AppState, t: AppState)
    requires SubmitEffect(value, purpose, s, t) && s.mode.TextInput?
    ensures StartedNone(s, t) || StartedOne(s, t)
  {
    hide Starts, StartedOne, Reloaded, RenamesInto;
    var here, there, viaQuic := s.Here(), s.There(), s.settings.enableQuic;
    if value != "" {
      match purpose
      case MakeDirectory =>
      case CopyToDir(items) =>
        StartsOne(s, t, FileOp, CopyInto(here.location, there.location, items, value, viaQuic));
      case MoveToDir(items) =>
        StartsOne(s, t, FileOp,
                  if here.location == there.location then Rename(here.location, RenamesInto(items, value))
                  else MoveInto(here.location, there.location, items, value, viaQuic));
      case RenameOrMove(item) =>
        StartsOne(s, t, FileOp, Rename(here.location, [(item, Exactly(value))]));
    }
  }

  lemma TextStartsOne(key: KeyCode, text: string, purpose: TextPurpose, s: AppState, t: AppState)
    requires TextInputEffect(key, text, purpose, s, t) && s.mode.TextInput?
    ensures StartedNone(s, t) || StartedOne(s, t)
  {
    hide StartedOne, SubmitEffect, TrimsTo;
    if key == Enter {
      var value :| TrimsTo(text, value) && SubmitEffect(value, purpose, s, t);
      SubmitStartsOne(value, purpose, s, t);
    }
  }

  lemma ConnectStartsOne(key: KeyCode, form: ConnectForm, s: AppState, t: AppState)
    requires ConnectEffect(key, form, s, t) && s.mode.Connecting?
    ensures StartedNone(s, t) || StartedOne(s, t)
  {
    hide Starts, StartedOne;
    if key == Enter && !form.hostEmpty && form.port.Some? {
      StartsOne(s, t, Connect(s.leftActive, form.profile), OpenConnection(form.profile));
    }
  }

  /** No key loses the progress dialog; any other key starts at most one job and then
      shows it; a sync is only executed from its own dialog. */
  lemma KeyStartsAtMostOne(key: KeyCode, action: Option<UserAction>, s: AppState, t: AppState)
    requires KeyEffect(key, action, s, t)
    ensures if s.mode.Progress? then t.mode == s.mode && t.trace == s.trace else StartedNone(s, t) || StartedOne(s, t)
  {
    hide StartedOne, StartedNone, ActionEffect, NavigationEffect, ConfirmEffect, TextInputEffect, ConnectEffect;
    match s.mode
    case Browsing =>
      if action.Some? && action.value != UnknownAction {
        ActionStartsOne(action.value, s, t);
      } else {
        NavigationStartsOne(key, s, t);
      }
    case Confirm(purpose) => ConfirmStartsOne(key, purpose, s, t);
    case TextInput(text, purpose) => TextStartsOne(key, text, purpose, s, t);
    case Connecting(form) => ConnectStartsOne(key, form, s, t);
    case Progress(_, _, _) =>
    case Help => HelpStartsNone(s, t);
  }

  lemma HelpStartsNone(s: AppState, t: AppState)
    requires t == s.(mode := Browsing)
    ensures StartedNone(s, t)
  {
  }

  // ---------- What events do to the status ----------

  /** The status after the end of the job shown: it failed exactly if its closure
      failed or panicked, and was cancelled exactly if the closure stopped for the user. */
  lemma StatusTells(e: JobEvent, s: AppState, t: AppState)
    requires EventEffect(e, s, t) && e.Finished? && e.id !in s.background
    ensures e.id in s.table.returned && s.mode.Progress? && s.mode.jobId == e.id
    ensures var result := s.table.returned[e.id];
            && (t.status == Some(StatusFailed) <==>
                  result.None? || (result.value.Err? && result.value.error != Cancelled))
            && (t.status == Some(StatusCancelled) <==> result == Some(Err(Cancelled)))
  {
    var result := s.table.returned[e.id];
    if result.Some? && result.value.Ok? {
      assert result.value.value == ();
    }
  }

  predicate CancelsNone(s: AppState, t: AppState) {
    forall id :: id in t.table.handles && t.table.handles[id].cancelled ==>
      id in s.table.handles && s.table.handles[id].cancelled
  }

  lemma EventCancelsNone(e: JobEvent, s: AppState, t: AppState)
    requires EventEffect(e, s, t)
    ensures CancelsNone(s, t)
  {
    hide SuccessEffect;
    if e.Finished? && e.id !in s.background {
      var reaped := s.(mode := Browsing, table := s.table.(handles := s.table.handles - {e.id}));
      if s.table.returned[e.id] == Some(Ok(())) {
        SuccessCancelsNone(e.id, s.mode.kind, reaped.(status := None), t);
      }
    }
  }

  lemma SuccessCancelsNone(id: JobId, kind: JobKind, s: AppState, t: AppState)
    requires SuccessEffect(id, kind, s, t)
    ensures CancelsNone(s, t)
  {
  }

  /** Only Esc, while the job is shown, cancels it. */
  lemma OnlyEscCancels(keymap: Keymap, s: AppState, t: AppState, id: JobId)
    requires AppStep(keymap, s, t)
    requires id in t.table.handles && t.table.handles[id].cancelled
    requires !(id in s.table.handles && s.table.handles[id].cancelled)
    ensures s.mode.Progress? && s.mode.jobId == id && KeyEffect(Esc, keymap(Esc), s, t)
  {
    hide KeyEffect, EventEffect;
    if key :| KeyEffect(key, keymap(key), s, t) {
      EscCancels(key, keymap(key), s, t, id);
    } else if s.table.events != [] {
      var u := s.(table := s.table.(events := s.table.events[1..]));
      if EventEffect(s.table.events[0], u, t) {
        EventCancelsNone(s.table.events[0], u, t);
      }
    }
  }

  lemma EscCancels(key: KeyCode, action: Option<UserAction>, s: AppState, t: AppState, id: JobId)
    requires KeyEffect(key, action, s, t)
    requires id in t.table.handles && t.table.handles[id].cancelled
    requires !(id in s.table.handles && s.table.handles[id].cancelled)
    ensures s.mode.Progress? && s.mode.jobId == id && key == Esc
  {
    KeyStartsAtMostOne(key, action, s, t);
    if !s.mode.Progress? {
      hide KeyEffect;
    }
  }

  /** Over a whole run, a job that is cancelled was cancelled by Esc while it was shown. */
  lemma {:induction false} CancelledByEsc(keymap: Keymap, run: seq<AppState>, id: JobId) returns (i: nat)
    requires IsRun(keymap, run) && !(id in run[0].table.handles && run[0].table.handles[id].cancelled)
    requires var last := run[|run| - 1]; id in last.table.handles && last.table.handles[id].cancelled
    ensures i < |run| - 1 && run[i].mode.Progress? && run[i].mode.jobId == id
    ensures KeyEffect(Esc, keymap(Esc), run[i], run[i + 1])
  {
    hide AppStep, KeyEffect;
    var n := |run| - 2;
    var s := run[n];
    if id in s.table.handles && s.table.handles[id].cancelled {
      assert IsRun(keymap, run[..n + 1]);
      i := CancelledByEsc(keymap, run[..n + 1], id);
    } else {
      assert AppStep(keymap, run[n], run[n + 1]);
      OnlyEscCancels(keymap, s, run[n + 1], id);
      i := n;
    }
  }

  /** "Cancelled" is only reported of a job the user cancelled. */
  lemma CancelledStatusWasAsked(keymap: Keymap, run: seq<AppState>, t: AppState) returns (i: nat)
    requires IsRun(keymap, run) && run[0].table.handles == map[]
    requires var s := run[|run| - 1];
             && s.table.events != [] && Consistent(s.mode, s.background, s.table, s.trace)
             && s.table.events[0].Finished? && s.table.events[0].id !in s.background
             && EventEffect(s.table.events[0], s.(table := s.table.(events := s.table.events[1..])), t)
             && t.status == Some(StatusCancelled)
    ensures i < |run| - 1 && run[i].mode.Progress? && run[i].mode.jobId == run[|run| - 1].table.events[0].id
    ensures KeyEffect(Esc, keymap(Esc), run[i], run[i + 1])
  {
    hide KeyEffect, EventEffect, AppStep, Consistent;
    var s := run[|run| - 1];
    var e := s.table.events[0];
    var rest := s.table.(events := s.table.events[1..]);
    assert rest.Before(e) == s.table by {
      assert [e] + s.table.events[1..] == s.table.events;
    }
    LastOfItsJob(s.mode, s.background, rest, s.trace, e);
    StatusTells(e, s.(table := rest), t);
    i := CancelledByEsc(keymap, run, e.id);
  }

  /** The last event of a job: it tells what the closure came to, and says "cancelled"
      only if the user asked for it. */
  lemma LastOfItsJob(mode: Mode, background: map<JobId, string>, table: JobTable, trace: seq<Step>, e: JobEvent)
    requires Consistent(mode, background, table.Before(e), trace) && e.Finished?
    ensures e.id !in table.running && e.id in table.handles
    ensures e.id in table.returned && Tells(e.outcome, table.returned[e.id])
    ensures table.returned[e.id] == Some(Err(Cancelled)) ==> table.handles[e.id].cancelled
  {
    DeliveredIsValid(table, e);
  }

  // ---------- From a dialog to its job, and from a job to its end ----------

  /** The same kind of dialog is open in both. */
  predicate StillOpen(s: AppState, t: AppState) {
    (s.mode.TextInput? && t.mode.TextInput?) || (s.mode.Confirm? && t.mode.Confirm?)
    || (s.mode.Progress? && t.mode.Progress?)
  }

  /** It is the same dialog, up to what is typed or reported in it, and the panels, the
      active side and the settings are the same too. */
  predicate SameDialog(s: AppState, t: AppState) {
    && StillOpen(s, t)
    && (s.mode.TextInput? ==> t.mode.textPurpose == s.mode.textPurpose)
    && (s.mode.Confirm? ==> t.mode == s.mode)
    && (s.mode.Progress? ==> t.mode.jobId == s.mode.jobId && t.mode.kind == s.mode.kind)
    && t.left == s.left && t.right == s.right && t.leftActive == s.leftActive && t.settings == s.settings
  }

  lemma StepKeepsDialog(keymap: Keymap, s: AppState, t: AppState)
    requires AppStep(keymap, s, t) && StillOpen(s, t)
    ensures SameDialog(s, t)
  {
    hide KeyEffect, EventEffect;
    if key :| KeyEffect(key, keymap(key), s, t) {
      KeyKeepsDialog(key, keymap(key), s, t);
    } else if s.table.events != [] {
      var u := s.(table := s.table.(events := s.table.events[1..]));
      if EventEffect(s.table.events[0], u, t) {
        EventKeepsDialog(s.table.events[0], u, t);
      }
    }
  }

  lemma KeyKeepsDialog(key: KeyCode, action: Option<UserAction>, s: AppState, t: AppState)
    requires KeyEffect(key, action, s, t) && StillOpen(s, t)
    ensures SameDialog(s, t)
  {
    hide SubmitEffect, TrimsTo;
    if s.mode.TextInput? && key == Enter {
      var value :| TrimsTo(s.mode.text, value) && SubmitEffect(value, s.mode.textPurpose, s, t);
      SubmitLeaves(value, s.mode.textPurpose, s, t);
    }
  }

  lemma SubmitLeaves(value: string, purpose: TextPurpose, s: AppState, t: AppState)
    requires SubmitEffect(value, purpose, s, t)
    ensures !t.mode.TextInput?
  {
  }

  lemma EventKeepsDialog(e: JobEvent, s: AppState, t: AppState)
    requires EventEffect(e, s, t) && StillOpen(s, t)
    ensures SameDialog(s, t)
  {
    hide ForegroundEffect;
    if e.Finished? && e.id !in s.background {
      var reaped := s.(mode := Browsing, table := s.table.(handles := s.table.handles - {e.id}));
      EndLeaves(e.id, s.mode.kind, s.table.returned[e.id], reaped, t);
    }
  }

  lemma EndLeaves(id: JobId, kind: JobKind, result: ClosureResult, s: AppState, t: AppState)
    requires ForegroundEffect(id, kind, result, s, t) && s.mode == Browsing
    ensures !t.mode.Progress?
  {
  }

  ghost predicate StaysOpen(keymap: Keymap, run: seq<AppState>) {
    IsRun(keymap, run) && forall i :: 0 <= i < |run| ==> StillOpen(run[0], run[i])
  }

  /** While a dialog stays open, whatever is typed and whatever jobs do meanwhile, it is
      the same dialog over the same panels. */
  lemma {:induction false} OpenIsSame(keymap: Keymap, run: seq<AppState>)
    requires StaysOpen(keymap, run)
    ensures SameDialog(run[0], run[|run| - 1])
  {
    hide AppStep;
    var n := |run| - 2;
    assert StillOpen(run[0], run[0]);
    if n >= 0 {
      assert StaysOpen(keymap, run[..n + 1]) by {
        assert forall i :: 0 <= i < n + 1 ==> run[..n + 1][i] == run[i];
      }
      OpenIsSame(keymap, run[..n + 1]);
      assert AppStep(keymap, run[n], run[n + 1]) && StillOpen(run[0], run[n]) && StillOpen(run[0], run[n + 1]);
      StepKeepsDialog(keymap, run[n], run[n + 1]);
    }
  }

  /** From the copy key to Enter: the job copies the items chosen when the dialog opened,
      from the active panel's place to the other's, into the directory the text finally
      names. */
  lemma CopiesWhatWasChosen(keymap: Keymap, s: AppState, run: seq<AppState>, t: AppState)
    requires StaysOpen(keymap, run) && run[0].mode.TextInput?
    requires s.mode == Browsing && ActionEffect(Copy, s, run[0])
    requires KeyEffect(Enter, keymap(Enter), run[|run| - 1], t) && t.mode.Progress?
    ensures var w := StartedWork(run[|run| - 1], t);
            && w.CopyInto? && Chosen(s.Here(), w.items) && w.src == s.Here().location && w.dst == s.There().location
            && TrimsTo(run[|run| - 1].mode.text, w.dir) && w.dir != "" && w.viaQuic == s.settings.enableQuic
  {
    hide AppStep, TrimsTo, Chosen, PathText;
    OpenIsSame(keymap, run);
    var last := run[|run| - 1];
    var value :| TrimsTo(last.mode.text, value) && SubmitEffect(value, last.mode.textPurpose, last, t);
  }

  /** The same for a move of a selection: renames within one place, else a move from the
      active panel's place to the other's. */
  lemma MovesWhatWasChosen(keymap: Keymap, s: AppState, run: seq<AppState>, t: AppState)
    requires StaysOpen(keymap, run) && run[0].mode.TextInput?
    requires s.mode == Browsing && s.Here().selected != {} && ActionEffect(Move, s, run[0])
    requires KeyEffect(Enter, keymap(Enter), run[|run| - 1], t) && t.mode.Progress?
    ensures var w := StartedWork(run[|run| - 1], t);
            if s.Here().location == s.There().location then
              && w.Rename? && w.location == s.Here().location
              && exists items, dir :: Chosen(s.Here(), items) && TrimsTo(run[|run| - 1].mode.text, dir) && dir != ""
                                      && w.pairs == RenamesInto(items, dir)
            else
              && w.MoveInto? && Chosen(s.Here(), w.items) && w.src == s.Here().location
              && w.dst == s.There().location && TrimsTo(run[|run| - 1].mode.text, w.dir) && w.dir != ""
              && w.viaQuic == s.settings.enableQuic
  {
    hide AppStep, TrimsTo, Chosen, PathText, RenamesInto;
    OpenIsSame(keymap, run);
    var last := run[|run| - 1];
    var value :| TrimsTo(last.mode.text, value) && SubmitEffect(value, last.mode.textPurpose, last, t);
  }

  /** What is deleted after asking is what was chosen when the question was put. */
  lemma DeletesWhatWasChosen(keymap: Keymap, s: AppState, run: seq<AppState>, key: KeyCode, t: AppState)
    requires StaysOpen(keymap, run) && run[0].mode.Confirm?
    requires s.mode == Browsing && ActionEffect(Delete, s, run[0])
    requires KeyEffect(key, keymap(key), run[|run| - 1], t) && t.mode.Progress?
    ensures key == Enter || key == Char('y')
    ensures var w := StartedWork(run[|run| - 1], t);
            w.DeleteAll? && Chosen(s.Here(), w.items) && w.location == s.Here().location
  {
    hide AppStep, Chosen;
    OpenIsSame(keymap, run);
  }

  /** The end of the job shown comes next. */
  predicate EndIsNext(s: AppState, t: AppState) {
    && s.mode.Progress? && s.table.events != []
    && s.table.events[0].Finished? && s.table.events[0].id == s.mode.jobId && s.mode.jobId !in s.background
    && EventEffect(s.table.events[0], s.(table := s.table.(events := s.table.events[1..])), t)
  }

  lemma EndOfConnect(s: AppState, t: AppState)
    requires EndIsNext(s, t) && s.mode.kind.Connect?
    ensures s.mode.jobId in s.table.returned
    ensures var done := s.table.returned[s.mode.jobId] == Some(Ok(()));
            var shown := Panel(Remote(s.mode.kind.profile), [], {}, t.left.cursor);
            if !done then t.left == s.left && t.right == s.right
            else if s.mode.kind.targetLeft then t.left == shown && t.right == s.right
            else t.right == shown.(cursor := t.right.cursor) && t.left == s.left
  {
  }

  /** A connection appears, at its root, in the panel that was active when Enter was
      pressed, if and only if its job succeeds; the other panel never changes. */
  lemma ConnectsWhereAsked(keymap: Keymap, s: AppState, run: seq<AppState>, t: AppState)
    requires StaysOpen(keymap, run) && run[0].mode.Progress?
    requires s.mode.Connecting? && KeyEffect(Enter, keymap(Enter), s, run[0])
    requires EndIsNext(run[|run| - 1], t)
    ensures run[0].mode.Progress? && run[0].mode.jobId in run[|run| - 1].table.returned
    ensures var done := run[|run| - 1].table.returned[run[0].mode.jobId] == Some(Ok(()));
            var here := if s.leftActive then t.left else t.right;
            && (done ==> here.location == Remote(s.mode.form.profile) && here.cwd == [])
            && (!done ==> here == s.Here())
            && (if s.leftActive then t.right else t.left) == s.There()
  {
    hide AppStep, EndIsNext;
    OpenIsSame(keymap, run);
    EndOfConnect(run[|run| - 1], t);
  }

  lemma ScanBecomesQuestion(keymap: Keymap, s: AppState, scan: seq<AppState>, t: AppState)
    requires StaysOpen(keymap, scan) && s.mode == Browsing && ActionEffect(SyncPanes, s, scan[0])
    requires EndIsNext(scan[|scan| - 1], t) && t.mode.Confirm?
    ensures var last, id := scan[|scan| - 1], scan[0].mode.jobId;
            && id in last.table.returned && last.table.returned[id] == Some(Ok(())) && id in last.table.cells
            && t.mode == Confirm(ConfirmSync(last.table.cells[id], s.Here().location, s.There().location))
            && t.settings == s.settings
  {
    hide AppStep;
    OpenIsSame(keymap, scan);
  }

  /** From the sync key to the accepted plan: what is executed is the plan the scan of the
      two panels left, between the places they showed when the key was pressed. */
  lemma SyncsWhatWasScanned(keymap: Keymap, s: AppState, scan: seq<AppState>, question: seq<AppState>, key: KeyCode,
                            t: AppState)
    requires StaysOpen(keymap, scan) && s.mode == Browsing && ActionEffect(SyncPanes, s, scan[0])
    requires StaysOpen(keymap, question) && question[0].mode.Confirm? && EndIsNext(scan[|scan| - 1], question[0])
    requires KeyEffect(key, keymap(key), question[|question| - 1], t) && t.mode.Progress?
    ensures key == Enter || key == Char('y')
    ensures var last, id := scan[|scan| - 1], scan[0].mode.jobId;
            && id in last.table.returned && last.table.returned[id] == Some(Ok(())) && id in last.table.cells
            && StartedWork(question[|question| - 1], t)
               == Execute(last.table.cells[id], s.Here().location, s.There().location, s.settings.enableQuic)
  {
    ScanBecomesQuestion(keymap, s, scan, question[0]);
    hide AppStep, EndIsNext, EventEffect, ActionEffect;
    OpenIsSame(keymap, question);
  }
}
