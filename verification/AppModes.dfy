/** The modes of the user interface, and what ties them to jobs and approvals. */
module AppModes {
  import opened Base
  import opened Trees
  import opened Transports
  import opened JobManagers

  datatype ConfirmPurpose =
    | ConfirmDelete(items: seq<Path>)
    | ConfirmSync(plan: PlanValue, src: Location, dst: Location)

  datatype TextPurpose =
    | MakeDirectory
    | CopyToDir(items: seq<Path>)
    | MoveToDir(items: seq<Path>)
    | RenameOrMove(item: Path)

  /** What the connect form holds: `port` is None while it is not a number. */
  datatype ConnectForm = ConnectForm(hostEmpty: bool, port: Option<nat>, profile: string, rejected: bool)

  datatype JobKind =
    | FileOp
    | Connect(targetLeft: bool, profile: string)
    | OpenArchive(targetLeft: bool, location: Location)
    | ScanSync(src: Location, dst: Location)
    | ExecuteSync

  datatype Mode =
    | Browsing
    | Confirm(purpose: ConfirmPurpose)
    | TextInput(text: string, textPurpose: TextPurpose)
    | Connecting(form: ConnectForm)
    | Progress(jobId: JobId, kind: JobKind, report: Report)
    | Help

  datatype Status =
    | StatusCancelled | StatusFailed
    | SyncFailed | CopyFailed | MoveFailed | MkdirFailed
    | NoPlan | NothingToSync

  // ---------- The approval of a sync ----------

  datatype Sync = Sync(plan: PlanValue, src: Location, dst: Location)

  /** The history of syncs: a scan completes, its plan is shown, the user accepts
      it, and it is executed. */
  datatype Step = Scanned(sync: Sync) | Shown(sync: Sync) | Accepted(sync: Sync) | Executed(sync: Sync)

  /** Step i follows right after the one it rests on, about the same sync. */
  predicate RestsOn(trace: seq<Step>, i: nat)
    requires i < |trace|
  {
    match trace[i]
    case Scanned(_) => true
    case Shown(x) => i > 0 && trace[i - 1] == Scanned(x)
    case Accepted(x) => i > 0 && trace[i - 1] == Shown(x)
    case Executed(x) => i > 0 && trace[i - 1] == Accepted(x)
  }

  predicate Approved(trace: seq<Step>) {
    forall i :: 0 <= i < |trace| ==> RestsOn(trace, i)
  }

  lemma OneMoreStep(trace: seq<Step>, step: Step)
    requires Approved(trace) && RestsOn(trace + [step], |trace|)
    ensures Approved(trace + [step])
  {
    forall i | 0 <= i < |trace|
      ensures RestsOn(trace + [step], i)
    {
      assert RestsOn(trace, i);
    }
  }

  /** Every executed plan is the unmodified plan of a completed scan of the same two
      places, which was shown and accepted. */
  lemma ExecutedWasApproved(trace: seq<Step>, i: nat)
    requires Approved(trace) && i < |trace| && trace[i].Executed?
    ensures i >= 3
    ensures trace[i - 1] == Accepted(trace[i].sync)
    ensures trace[i - 2] == Shown(trace[i].sync)
    ensures trace[i - 3] == Scanned(trace[i].sync)
  {
    assert RestsOn(trace, i);
    assert RestsOn(trace, i - 1);
    assert RestsOn(trace, i - 2);
  }

  predicate EndsWith(trace: seq<Step>, step: Step) {
    trace != [] && trace[|trace| - 1] == step
  }

  // ---------- Modes and jobs ----------

  predicate Runs(kind: JobKind, work: Work) {
    match kind
    case ScanSync(src, dst) => work.Scan? && work.src == src && work.dst == dst
    case ExecuteSync => work.Execute?
    case Connect(_, profile) => work == OpenConnection(profile)
    case OpenArchive(_, location) => work == OpenArchiveAt(location)
    case FileOp => work.CopyInto? || work.MoveInto? || work.Rename? || work.DeleteAll?
  }

  predicate IsCurrent(mode: Mode, id: JobId) {
    mode.Progress? && mode.jobId == id
  }

  /** Every job is a background job or the one the progress dialog shows. */
  predicate AllOwned(mode: Mode, background: map<JobId, string>, table: JobTable) {
    && (forall id :: id in table.handles ==> id in background || IsCurrent(mode, id))
    && (forall id :: id in background ==> id in table.handles && table.handles[id].work == WarmUp(background[id]))
    && (mode.Progress? ==>
          mode.jobId in table.handles && mode.jobId !in background && Runs(mode.kind, table.handles[mode.jobId].work))
  }

  /** Once the scan in the progress dialog has completed, its cell holds the plan,
      and that scan is the last step of the history. */
  predicate ScanHandsOver(mode: Mode, table: JobTable, trace: seq<Step>) {
    mode.Progress? && mode.kind.ScanSync? && Finished(mode.jobId, Completed) in table.events ==>
      && mode.jobId in table.cells
      && EndsWith(trace, Scanned(Sync(table.cells[mode.jobId], mode.kind.src, mode.kind.dst)))
  }

  /** The sync in the confirmation dialog was just shown, and does something. */
  predicate DialogIsShown(mode: Mode, trace: seq<Step>) {
    mode.Confirm? && mode.purpose.ConfirmSync? ==>
      && EndsWith(trace, Shown(Sync(mode.purpose.plan, mode.purpose.src, mode.purpose.dst)))
      && !mode.purpose.plan.IsEmpty()
  }

  /** The sync being executed is the one the history ends with. */
  predicate ExecutesApproved(mode: Mode, table: JobTable, trace: seq<Step>) {
    mode.Progress? && mode.kind.ExecuteSync? && mode.jobId in table.handles
      && table.handles[mode.jobId].work.Execute? ==>
      var w := table.handles[mode.jobId].work;
      EndsWith(trace, Executed(Sync(w.plan, w.src, w.dst)))
  }

  ghost predicate Consistent(mode: Mode, background: map<JobId, string>, table: JobTable, trace: seq<Step>) {
    && table.Valid()
    && AllOwned(mode, background, table)
    && Approved(trace)
    && ScanHandsOver(mode, table, trace)
    && DialogIsShown(mode, trace)
    && ExecutesApproved(mode, table, trace)
  }

  /** At most one unfinished foreground job; and the mode is Progress for it. */
  lemma OneForegroundJob(mode: Mode, background: map<JobId, string>, table: JobTable, trace: seq<Step>, a: JobId,
                         b: JobId)
    requires Consistent(mode, background, table, trace)
    requires a in table.handles && a !in background && b in table.handles && b !in background
    ensures a == b && mode.Progress? && mode.jobId == a
  {
  }

  // ---------- What each transition keeps ----------

  /** Leaving a dialog without starting anything. */
  lemma CloseDialog(mode: Mode, background: map<JobId, string>, table: JobTable, trace: seq<Step>, next: Mode)
    requires Consistent(mode, background, table, trace) && !mode.Progress? && !next.Progress?
    requires next.Confirm? && next.purpose.ConfirmSync? ==> next == mode
    ensures Consistent(next, background, table, trace)
  {
  }

  lemma EventsAreKnown(t: JobTable, e: JobEvent)
    requires t.Valid() && e in t.events
    ensures e.id in t.handles && e.id < t.nextId
  {
  }

  lemma StartedIsOwned(mode: Mode, background: map<JobId, string>, table: JobTable, work: Work, kind: JobKind,
                       report: Report)
    requires table.Valid() && AllOwned(mode, background, table) && !mode.Progress? && Runs(kind, work)
    ensures AllOwned(Progress(table.nextId, kind, report), background, table.Spawned(work))
  {
  }

  /** Starting a foreground job other than a sync. */
  lemma StartJob(mode: Mode, background: map<JobId, string>, table: JobTable, trace: seq<Step>,
                 work: Work, kind: JobKind, report: Report)
    requires Consistent(mode, background, table, trace) && !mode.Progress? && Runs(kind, work) && !kind.ExecuteSync?
    ensures Consistent(Progress(table.nextId, kind, report), background, table.Spawned(work), trace)
  {
    SpawnedIsValid(table, work);
    StartedIsOwned(mode, background, table, work, kind, report);
    hide AllOwned, Runs;
    if Finished(table.nextId, Completed) in table.events {
      EventsAreKnown(table, Finished(table.nextId, Completed));
    }
  }

  /** Accepting the sync in the dialog starts exactly its execution. */
  lemma StartSync(mode: Mode, background: map<JobId, string>, table: JobTable, trace: seq<Step>, viaQuic: bool,
                  report: Report)
    requires Consistent(mode, background, table, trace) && mode.Confirm? && mode.purpose.ConfirmSync?
    ensures var p := mode.purpose;
            var x := Sync(p.plan, p.src, p.dst);
            Consistent(Progress(table.nextId, ExecuteSync, report), background,
                       table.Spawned(Execute(p.plan, p.src, p.dst, viaQuic)), trace + [Accepted(x), Executed(x)])
  {
    var x := Sync(mode.purpose.plan, mode.purpose.src, mode.purpose.dst);
    var work := Execute(x.plan, x.src, x.dst, viaQuic);
    SpawnedIsValid(table, work);
    StartedIsOwned(mode, background, table, work, ExecuteSync, report);
    OneMoreStep(trace, Accepted(x));
    OneMoreStep(trace + [Accepted(x)], Executed(x));
    hide JobTable.Valid, AllOwned, Approved;
    assert trace + [Accepted(x), Executed(x)] == trace + [Accepted(x)] + [Executed(x)];
  }

  lemma WarmingIsOwned(mode: Mode, background: map<JobId, string>, table: JobTable, profile: string)
    requires table.Valid() && AllOwned(mode, background, table) && !mode.Progress?
    ensures AllOwned(mode, background[table.nextId := profile], table.Spawned(WarmUp(profile)))
  {
    hide JobTable.PhaseFits, JobTable.LastWord, JobTable.Ending;
  }

  /** Starting a background job. */
  lemma StartBackground(mode: Mode, background: map<JobId, string>, table: JobTable, trace: seq<Step>,
                        profile: string)
    requires Consistent(mode, background, table, trace) && !mode.Progress?
    ensures Consistent(mode, background[table.nextId := profile], table.Spawned(WarmUp(profile)), trace)
  {
    SpawnedIsValid(table, WarmUp(profile));
    WarmingIsOwned(mode, background, table, profile);
    hide JobTable.Valid, AllOwned, Approved;
  }

  /** Scans that have ended keep their plans, and the jobs are the same. */
  lemma SameJobs(mode: Mode, background: map<JobId, string>, t: JobTable, u: JobTable, trace: seq<Step>)
    requires Consistent(mode, background, t, trace) && u.Valid()
    requires u.handles.Keys == t.handles.Keys
    requires forall id :: id in u.handles ==> u.handles[id].work == t.handles[id].work
    requires mode.Progress? && mode.kind.ScanSync? && Finished(mode.jobId, Completed) in u.events ==>
               Finished(mode.jobId, Completed) in t.events
    requires mode.Progress? && Finished(mode.jobId, Completed) in t.events && mode.jobId in t.cells ==>
               mode.jobId in u.cells && u.cells[mode.jobId] == t.cells[mode.jobId]
    ensures Consistent(mode, background, u, trace)
  {
    hide JobTable.Valid, Approved, EndsWith, Runs;
  }

  lemma CancelJob(mode: Mode, background: map<JobId, string>, table: JobTable, trace: seq<Step>, id: JobId)
    requires Consistent(mode, background, table, trace)
    ensures Consistent(mode, background, table.Signalled(id), trace)
  {
    hide JobTable.Valid;
    CancelledIsValid(table, id);
    hide Consistent;
    SameJobs(mode, background, table, table.Signalled(id), trace);
  }

  /** A job's thread sends a progress report. */
  lemma ThreadReported(mode: Mode, background: map<JobId, string>, table: JobTable, trace: seq<Step>, id: JobId,
                       report: Report)
    requires Consistent(mode, background, table, trace) && id in table.running
    ensures Consistent(mode, background, table.Reported(id, report), trace)
  {
    hide JobTable.Valid;
    ReportedIsValid(table, id, report);
    SameJobs(mode, background, table, table.Reported(id, report), trace);
  }

  /** A scan's thread sets its plan cell. */
  lemma ThreadSetPlan(mode: Mode, background: map<JobId, string>, table: JobTable, trace: seq<Step>,
                      id: JobId, plan: PlanValue)
    requires Consistent(mode, background, table, trace) && id in table.running && table.running[id].Working?
    ensures Consistent(mode, background, table.PlanStored(id, plan), trace)
  {
    hide JobTable.Valid;
    PlanStoredIsValid(table, id, plan);
    StillRunning(table, id, Completed);
    SameJobs(mode, background, table, table.PlanStored(id, plan), trace);
  }

  lemma StillRunning(t: JobTable, id: JobId, outcome: JobOutcome)
    requires t.Valid() && id in t.running
    ensures Finished(id, outcome) !in t.events
  {
    forall i | 0 <= i < |t.events|
      ensures t.events[i] != Finished(id, outcome)
    {
    }
  }

  /** A job's closure returns. */
  lemma ThreadReturned(mode: Mode, background: map<JobId, string>, table: JobTable, trace: seq<Step>,
                       id: JobId, result: ClosureResult)
    requires Consistent(mode, background, table, trace)
    requires id in table.running && MayReturn(table.handles[id], table.running[id], result)
    ensures Consistent(mode, background, table.Returned(id, result), trace)
  {
    hide JobTable.Valid;
    ReturnedIsValid(table, id, result);
    SameJobs(mode, background, table, table.Returned(id, result), trace);
  }

  /** The history after a thread has ended: a completed scan is a step of it, with
      the plan it left in its cell. */
  function TraceAfter(table: JobTable, trace: seq<Step>, id: JobId): seq<Step>
    requires id in table.running && table.running[id].Returning? && id in table.handles && table.PhaseFits(id)
  {
    var w := table.handles[id].work;
    if w.Scan? && table.running[id].result == Some(Ok(()))
    then trace + [Scanned(Sync(table.cells[id], w.src, w.dst))]
    else trace
  }

  /** A job's thread sends its Finished. */
  lemma ThreadEnded(mode: Mode, background: map<JobId, string>, table: JobTable, trace: seq<Step>, id: JobId)
    requires Consistent(mode, background, table, trace) && id in table.running && table.running[id].Returning?
    ensures table.PhaseFits(id)
    ensures Consistent(mode, background, table.Ended(id), TraceAfter(table, trace, id))
  {
    EndedFits(table, id);
    EndedIsValid(table, id);
    hide JobTable.Valid, JobTable.PhaseFits, Runs, Approved;
    var w := table.handles[id].work;
    if w.Scan? && table.running[id].result == Some(Ok(())) {
      ScanEnded(mode, background, table, trace, id);
    } else {
      NoScanEnded(mode, background, table, trace, id);
    }
  }

  lemma EndedFits(table: JobTable, id: JobId)
    requires table.Valid() && id in table.running
    ensures id in table.handles && table.PhaseFits(id)
  {
  }

  /** The scan in the progress dialog has ended: it joins the history. */
  lemma ScanEnded(mode: Mode, background: map<JobId, string>, table: JobTable, trace: seq<Step>, id: JobId)
    requires Consistent(mode, background, table, trace) && id in table.running && id in table.handles
    requires table.running[id] == Returning(Some(Ok(()))) && table.handles[id].work.Scan? && id in table.cells
    requires table.Ended(id).Valid()
    ensures var w := table.handles[id].work;
            Consistent(mode, background, table.Ended(id), trace + [Scanned(Sync(table.cells[id], w.src, w.dst))])
  {
    hide JobTable.Valid, Approved;
    var w := table.handles[id].work;
    OneMoreStep(trace, Scanned(Sync(table.cells[id], w.src, w.dst)));
  }

  lemma NoScanEnded(mode: Mode, background: map<JobId, string>, table: JobTable, trace: seq<Step>, id: JobId)
    requires Consistent(mode, background, table, trace) && id in table.running && table.running[id].Returning?
    requires id in table.handles && !(table.handles[id].work.Scan? && table.running[id].result == Some(Ok(())))
    requires table.Ended(id).Valid()
    ensures Consistent(mode, background, table.Ended(id), trace)
  {
    hide JobTable.Valid, Approved, EndsWith;
    OutcomeTells(table.running[id].result);
    SameJobs(mode, background, table, table.Ended(id), trace);
  }

  // ---------- Events reaching the main loop ----------

  /** A progress report may only change the report shown. */
  lemma ReportArrived(mode: Mode, background: map<JobId, string>, table: JobTable, trace: seq<Step>, e: JobEvent)
    requires Consistent(mode, background, table.Before(e), trace) && e.Progressed?
    ensures Consistent(mode, background, table, trace)
    ensures mode.Progress? ==> Consistent(mode.(report := e.report), background, table, trace)
  {
    DeliveredIsValid(table, e);
    assert forall x :: x in table.events ==> x in table.Before(e).events;
  }

  /** The end of a background job leaves the mode alone. */
  lemma BackgroundEnded(mode: Mode, background: map<JobId, string>, table: JobTable, trace: seq<Step>, e: JobEvent)
    requires Consistent(mode, background, table.Before(e), trace) && e.Finished? && e.id in background
    ensures Consistent(mode, background - {e.id}, table.Reaped(e.id), trace) && !IsCurrent(mode, e.id)
  {
    DeliveredIsValid(table, e);
    BackgroundLeaves(mode, background, table, e);
    hide JobTable.Valid, AllOwned, EndsWith, Approved, JobTable.Before;
    RestOfQueue(table, e);
  }

  lemma BackgroundLeaves(mode: Mode, background: map<JobId, string>, table: JobTable, e: JobEvent)
    requires AllOwned(mode, background, table.Before(e)) && e.id in background
    ensures AllOwned(mode, background - {e.id}, table.Reaped(e.id)) && !IsCurrent(mode, e.id)
  {
  }

  lemma RestOfQueue(table: JobTable, e: JobEvent)
    ensures forall x :: x in table.events ==> x in table.Before(e).events
    ensures table.Before(e).handles == table.handles && table.Before(e).cells == table.cells
  {
  }

  /** The end of the job shown closes the progress dialog. */
  lemma ForegroundEnded(mode: Mode, background: map<JobId, string>, table: JobTable, trace: seq<Step>, e: JobEvent)
    requires Consistent(mode, background, table.Before(e), trace) && e.Finished? && e.id !in background
    ensures IsCurrent(mode, e.id)
    ensures Consistent(Browsing, background, table.Reaped(e.id), trace)
  {
    DeliveredIsValid(table, e);
    ForegroundLeaves(mode, background, table, e);
    hide JobTable.Valid, AllOwned, Approved, EndsWith, JobTable.Before;
  }

  lemma ForegroundLeaves(mode: Mode, background: map<JobId, string>, table: JobTable, e: JobEvent)
    requires AllOwned(mode, background, table.Before(e)) && e.id !in background && e.id in table.handles
    ensures IsCurrent(mode, e.id)
    ensures AllOwned(Browsing, background, table.Reaped(e.id))
  {
  }

  /** A completed scan has left its plan: "produced no plan" cannot happen. */
  lemma PlanIsThere(mode: Mode, background: map<JobId, string>, table: JobTable, trace: seq<Step>, e: JobEvent)
    requires Consistent(mode, background, table.Before(e), trace)
    requires e.Finished? && e.id !in background && e.outcome == Completed && mode.Progress? && mode.kind.ScanSync?
    ensures e.id in table.cells
    ensures EndsWith(trace, Scanned(Sync(table.cells[e.id], mode.kind.src, mode.kind.dst)))
  {
    DeliveredIsValid(table, e);
    assert table.Before(e).events[0] == e;
  }

  lemma WithoutCell(mode: Mode, background: map<JobId, string>, table: JobTable, trace: seq<Step>, id: JobId)
    requires Consistent(mode, background, table, trace) && id !in table.handles
    ensures Consistent(mode, background, table.(cells := table.cells - {id}), trace)
  {
    hide JobTable.Valid, Approved, EndsWith, Runs;
    WithoutCellIsValid(table, id);
  }

  lemma WithoutCellIsValid(table: JobTable, id: JobId)
    requires table.Valid() && id !in table.handles
    ensures table.(cells := table.cells - {id}).Valid()
  {
    var u := table.(cells := table.cells - {id});
    forall x | x in u.handles && x !in u.running
      ensures u.Ending(x)
    {
      assert table.Ending(x);
    }
    forall i | 0 <= i < |u.events| && u.events[i].Finished?
      ensures u.LastWord(u.events[i])
    {
      assert table.LastWord(table.events[i]);
    }
    forall x | x in u.running
      ensures u.PhaseFits(x)
    {
      assert table.PhaseFits(x);
    }
  }

  /** Showing the plan of the scan that just completed. */
  lemma ShowPlan(background: map<JobId, string>, table: JobTable, trace: seq<Step>, x: Sync)
    requires Consistent(Browsing, background, table, trace) && EndsWith(trace, Scanned(x)) && !x.plan.IsEmpty()
    ensures Consistent(Confirm(ConfirmSync(x.plan, x.src, x.dst)), background, table, trace + [Shown(x)])
  {
    OneMoreStep(trace, Shown(x));
  }
}
