/** `JobManager`: job threads, and the one channel their events arrive on. */
module JobManagers {
  import opened Base
  import opened Trees
  import opened Plans
  import opened Transports

  datatype Location = Local | Remote(profile: string) | InArchive(base: Location, archive: Path)

  /** A sync plan as the job closures and dialogs hand it on. */
  datatype PlanValue = PlanValue(copy: seq<CopyItem>, delete: seq<DeleteItem>) {
    predicate IsEmpty() {
      copy == [] && delete == []
    }
  }

  /** Where a rename leads: to a path the user typed, or under that name into a
      directory the user typed. */
  datatype Destination = Exactly(text: string) | Inside(dir: string, name: Name)

  /** What a job's closure was given to do. */
  datatype Work =
    | Scan(src: Location, srcRoot: Path, dst: Location, dstRoot: Path, deleteExtraneous: bool)
    | Execute(plan: PlanValue, src: Location, dst: Location, viaQuic: bool)
    | CopyInto(src: Location, dst: Location, items: seq<Path>, dir: string, viaQuic: bool)
    | MoveInto(src: Location, dst: Location, items: seq<Path>, dir: string, viaQuic: bool)
    | Rename(location: Location, pairs: seq<(Path, Destination)>)
    | DeleteAll(location: Location, items: seq<Path>)
    | OpenConnection(profile: string)
    | OpenArchiveAt(archive: Location)
    | WarmUp(profile: string)

  type JobId = nat

  datatype JobHandle = JobHandle(cancelled: bool, work: Work)

  datatype JobOutcome = Completed | WasCancelled | Failed

  /** What a closure came to; None when it panicked. */
  type ClosureResult = Option<Result<()>>

  /** How far a job's thread is: at work, past setting its plan cell, or about to
      report what its closure came to. */
  datatype Phase = Working | PlanSet | Returning(result: ClosureResult)

  /** `JobOutcome::from`; a panic is a failure. */
  function OutcomeOf(result: ClosureResult): JobOutcome {
    match result
    case None => Failed
    case Some(Ok(_)) => Completed
    case Some(Err(e)) => if e == Cancelled then WasCancelled else Failed
  }

  /** The outcome says what the closure came to. */
  predicate Tells(outcome: JobOutcome, result: ClosureResult) {
    match outcome
    case Completed => result == Some(Ok(()))
    case WasCancelled => result == Some(Err(Cancelled))
    case Failed => result.None? || (result.value.Err? && result.value.error != Cancelled)
  }

  lemma OutcomeTells(result: ClosureResult)
    ensures Tells(OutcomeOf(result), result)
  {
    if result.Some? && result.value.Ok? {
      assert result.value.value == ();
    }
  }

  /** The closure of a scan sets its cell and only then returns success; a scan that
      fails or is cancelled returns before it has a plan. Other closures return
      whatever they come to, but `Cancelled` only after the user asked for it. */
  predicate MayReturn(job: JobHandle, phase: Phase, result: ClosureResult) {
    && result != Some(Err(NeverReturns))
    && (result == Some(Err(Cancelled)) ==> job.cancelled)
    && match phase
       case Working => job.work.Scan? ==> result != Some(Ok(()))
       case PlanSet => result == Some(Ok(()))
       case Returning(_) => false
  }

  predicate HasStored(phase: Phase) {
    phase.PlanSet? || phase == Returning(Some(Ok(())))
  }

  datatype JobEvent =
    | Progressed(id: JobId, report: Report)
    | Finished(id: JobId, outcome: JobOutcome)

  /** The manager's state. `running` holds the threads that have not finished, `cells`
      the plan each scan has left for the main thread, and `returned` the history of
      what each closure came to. */
  datatype JobTable = JobTable(
    nextId: JobId,
    handles: map<JobId, JobHandle>,
    running: map<JobId, Phase>,
    events: seq<JobEvent>,
    cells: map<JobId, PlanValue>,
    returned: map<JobId, ClosureResult>)
  {
    /** Ids are unique; every handle is still running or has its one `Finished` on
        the way, after all its other events, and it tells what the closure came to;
        a completed scan has left its plan. */
    ghost predicate Valid() {
      && (forall id :: id in handles ==> id < nextId)
      && running.Keys <= handles.Keys
      && (forall id :: id in running ==> PhaseFits(id))
      && (forall i :: 0 <= i < |events| ==> events[i].id in handles)
      && (forall id :: id in handles && id !in running ==> Ending(id))
      && (forall i :: 0 <= i < |events| && events[i].Finished? ==> events[i].id !in running)
      && (forall i, j :: 0 <= i < j < |events| && events[i].Finished? ==> events[j].id != events[i].id)
      && (forall i :: 0 <= i < |events| && events[i].Finished? ==> LastWord(events[i]))
      && (forall id :: id in returned ==> id < nextId)
    }

    /** A thread past setting its cell has left its plan there, and one whose closure
        has returned is about to tell what it came to. */
    predicate PhaseFits(id: JobId) {
      id in running && id in handles ==>
        && (handles[id].work.Scan? && HasStored(running[id]) ==> id in cells)
        && (id in returned <==> running[id].Returning?)
        && (running[id].Returning? ==>
              && returned[id] == running[id].result
              && (running[id].result == Some(Err(Cancelled)) ==> handles[id].cancelled))
    }

    predicate Ending(id: JobId) {
      exists i :: 0 <= i < |events| && events[i].Finished? && events[i].id == id
    }

    /** The last event of a job tells what its closure came to, and the plan of a
        completed scan is in its cell. */
    predicate LastWord(e: JobEvent) {
      e.Finished? && e.id in handles ==>
        && e.id in returned && Tells(e.outcome, returned[e.id])
        && (e.outcome == Completed && handles[e.id].work.Scan? ==> e.id in cells)
        && (e.outcome == WasCancelled ==> handles[e.id].cancelled)
    }

    function Spawned(work: Work): JobTable {
      this.(nextId := nextId + 1, handles := handles[nextId := JobHandle(false, work)],
            running := running[nextId := Working])
    }

    function Signalled(id: JobId): JobTable {
      if id in handles then this.(handles := handles[id := handles[id].(cancelled := true)]) else this
    }

    function Reported(id: JobId, report: Report): JobTable {
      this.(events := events + [Progressed(id, report)])
    }

    /** `SyncPlanCell::set`. */
    function PlanStored(id: JobId, plan: PlanValue): JobTable {
      this.(running := running[id := PlanSet], cells := cells[id := plan])
    }

    function Returned(id: JobId, result: ClosureResult): JobTable {
      this.(running := running[id := Returning(result)], returned := returned[id := result])
    }

    function Ended(id: JobId): JobTable
      requires id in running && running[id].Returning?
    {
      this.(running := running - {id}, events := events + [Finished(id, OutcomeOf(running[id].result))])
    }

    function Reaped(id: JobId): JobTable {
      this.(handles := handles - {id}, running := running - {id})
    }

    /** The table as it was before e was taken from the channel. */
    function Before(e: JobEvent): JobTable {
      this.(events := [e] + events)
    }
  }

  lemma SpawnedIsValid(t: JobTable, work: Work)
    requires t.Valid()
    ensures t.Spawned(work).Valid() && t.nextId !in t.handles
  {
    var u := t.Spawned(work);
    forall x | x in u.handles && x !in u.running
      ensures u.Ending(x)
    {
      assert t.Ending(x);
    }
    forall i | 0 <= i < |u.events| && u.events[i].Finished?
      ensures u.LastWord(u.events[i])
    {
      assert t.LastWord(t.events[i]);
    }
    forall x | x in u.running
      ensures u.PhaseFits(x)
    {
      assert x in t.running ==> t.PhaseFits(x);
    }
  }

  lemma CancelledIsValid(t: JobTable, id: JobId)
    requires t.Valid()
    ensures t.Signalled(id).Valid()
  {
    if id !in t.handles {
      return;
    }
    var u := t.Signalled(id);
    forall x | x in u.handles && x !in u.running
      ensures u.Ending(x)
    {
      assert t.Ending(x);
    }
    forall i | 0 <= i < |u.events| && u.events[i].Finished?
      ensures u.LastWord(u.events[i])
    {
      assert t.LastWord(t.events[i]);
    }
    forall x | x in u.running
      ensures u.PhaseFits(x)
    {
      assert x in t.running ==> t.PhaseFits(x);
    }
  }

  lemma ReportedIsValid(t: JobTable, id: JobId, report: Report)
    requires t.Valid() && id in t.running
    ensures t.Reported(id, report).Valid()
  {
    var u := t.Reported(id, report);
    forall x | x in u.handles && x !in u.running
      ensures u.Ending(x)
    {
      var i :| 0 <= i < |t.events| && t.events[i].Finished? && t.events[i].id == x;
      assert u.events[i] == t.events[i];
    }
    forall x | x in u.running
      ensures u.PhaseFits(x)
    {
      assert x in t.running ==> t.PhaseFits(x);
    }
  }

  lemma PlanStoredIsValid(t: JobTable, id: JobId, plan: PlanValue)
    requires t.Valid() && id in t.running && t.running[id].Working?
    ensures t.PlanStored(id, plan).Valid()
  {
    var u := t.PlanStored(id, plan);
    forall x | x in u.handles && x !in u.running
      ensures u.Ending(x)
    {
      assert t.Ending(x);
    }
    forall i | 0 <= i < |u.events| && u.events[i].Finished?
      ensures u.LastWord(u.events[i])
    {
      assert t.LastWord(t.events[i]);
    }
    forall x | x in u.running
      ensures u.PhaseFits(x)
    {
      assert x == id || t.PhaseFits(x);
    }
  }

  /** This is where setting the cell before returning success is needed. */
  lemma ReturnedIsValid(t: JobTable, id: JobId, result: ClosureResult)
    requires t.Valid() && id in t.running && MayReturn(t.handles[id], t.running[id], result)
    ensures t.Returned(id, result).Valid()
  {
    var u := t.Returned(id, result);
    forall x | x in u.handles && x !in u.running
      ensures u.Ending(x)
    {
      assert t.Ending(x);
    }
    forall i | 0 <= i < |u.events| && u.events[i].Finished?
      ensures u.LastWord(u.events[i])
    {
      assert t.LastWord(t.events[i]);
    }
    forall x | x in u.running
      ensures u.PhaseFits(x)
    {
      assert t.PhaseFits(x);
    }
  }

  lemma EndedIsValid(t: JobTable, id: JobId)
    requires t.Valid() && id in t.running && t.running[id].Returning?
    ensures t.Ended(id).Valid()
  {
    var u := t.Ended(id);
    var last := Finished(id, OutcomeOf(t.running[id].result));
    assert t.PhaseFits(id);
    OutcomeTells(t.running[id].result);
    forall x | x in u.handles && x !in u.running
      ensures u.Ending(x)
    {
      if x == id {
        assert u.events[|t.events|] == last;
      } else {
        var i :| 0 <= i < |t.events| && t.events[i].Finished? && t.events[i].id == x;
        assert u.events[i] == t.events[i];
      }
    }
    forall i | 0 <= i < |u.events| && u.events[i].Finished?
      ensures u.LastWord(u.events[i])
    {
      assert i < |t.events| ==> t.LastWord(t.events[i]);
    }
    forall x | x in u.running
      ensures u.PhaseFits(x)
    {
      assert t.PhaseFits(x);
    }
  }

  lemma EndingStays(t: JobTable, e: JobEvent, x: JobId)
    requires t.Before(e).Ending(x) && !(e.Finished? && e.id == x)
    ensures t.Ending(x)
  {
  }

  lemma RestOfEvents(t: JobTable, e: JobEvent, i: nat)
    requires t.Before(e).Valid() && i < |t.events|
    ensures t.events[i].id in t.handles && (e.Finished? ==> t.events[i].id != e.id)
    ensures t.events[i].Finished? ==> t.events[i].id !in t.running && t.LastWord(t.events[i])
    ensures t.events[i].Finished? ==> forall j :: i < j < |t.events| ==> t.events[j].id != t.events[i].id
  {
    var all := t.Before(e).events;
    assert all[0] == e && all[i + 1] == t.events[i];
    assert all[i + 1].Finished? ==> t.Before(e).LastWord(all[i + 1]);
    forall j | i < j < |t.events| && t.events[i].Finished?
      ensures t.events[j].id != t.events[i].id
    {
      assert all[j + 1] == t.events[j];
    }
  }

  /** Taking an event, and reaping the job if it was its last one, leaves a valid table. */
  lemma DeliveredIsValid(t: JobTable, e: JobEvent)
    requires t.Before(e).Valid()
    ensures e.id in t.handles
    ensures (if e.Finished? then t.Reaped(e.id) else t).Valid()
    ensures e.Finished? ==> e.id !in t.running && t.LastWord(e)
    ensures e.Finished? ==> e.id in t.returned && Tells(e.outcome, t.returned[e.id])
  {
    assert t.Before(e).events[0] == e;
    assert e.Finished? ==> t.Before(e).LastWord(e);
    forall x | x in t.handles && x !in t.running && !(e.Finished? && e.id == x)
      ensures t.Ending(x)
    {
      EndingStays(t, e, x);
    }
    forall i | 0 <= i < |t.events|
      ensures t.events[i].id in t.handles && (e.Finished? ==> t.events[i].id != e.id)
      ensures t.events[i].Finished? ==> t.events[i].id !in t.running && t.LastWord(t.events[i])
      ensures t.events[i].Finished? ==> forall j :: i < j < |t.events| ==> t.events[j].id != t.events[i].id
    {
      RestOfEvents(t, e, i);
    }
    var u := if e.Finished? then t.Reaped(e.id) else t;
    forall x | x in u.handles && x !in u.running
      ensures u.Ending(x)
    {
      assert t.Ending(x);
    }
    forall i | 0 <= i < |u.events| && u.events[i].Finished?
      ensures u.LastWord(u.events[i])
    {
      assert t.LastWord(t.events[i]);
    }
    forall x | x in u.running
      ensures u.PhaseFits(x)
    {
      assert t.Before(e).PhaseFits(x);
    }
  }

  class JobManager {
    var nextId: JobId
    var handles: map<JobId, JobHandle>
    var running: map<JobId, Phase>
    var events: seq<JobEvent>
    var cells: map<JobId, PlanValue>
    ghost var returned: map<JobId, ClosureResult>

    constructor ()
      ensures Table() == JobTable(0, map[], map[], [], map[], map[]) && Table().Valid()
    {
      nextId, handles, running, events, cells, returned := 0, map[], map[], [], map[], map[];
    }

    ghost function Table(): JobTable
      reads this
    {
      JobTable(nextId, handles, running, events, cells, returned)
    }

    /** `spawn`: a fresh id, a token nobody has cancelled, and a thread that will send
        exactly one `Finished`. */
    method Spawn(work: Work) returns (id: JobId)
      requires Table().Valid()
      modifies this
      ensures Table() == old(Table()).Spawned(work) && Table().Valid()
      ensures id == old(nextId) && id !in old(handles) && nextId == id + 1
      ensures handles == old(handles)[id := JobHandle(false, work)]
      ensures running == old(running)[id := Working]
      ensures events == old(events) && cells == old(cells) && returned == old(returned)
    {
      SpawnedIsValid(Table(), work);
      id := nextId;
      nextId := nextId + 1;
      running := running[id := Working];
      handles := handles[id := JobHandle(false, work)];
    }

    /** `cancel`: sets the token of this job, and of no other. */
    method Cancel(id: JobId)
      requires Table().Valid()
      modifies this`handles
      ensures Table() == old(Table()).Signalled(id) && Table().Valid()
      ensures handles.Keys == old(handles).Keys
      ensures forall x :: x in handles ==>
                && handles[x].work == old(handles)[x].work
                && handles[x].cancelled == (x == id || old(handles)[x].cancelled)
    {
      CancelledIsValid(Table(), id);
      if id in handles {
        handles := handles[id := handles[id].(cancelled := true)];
      }
    }

    /** Joins a finished thread and drops its handle. */
    method Reap(id: JobId)
      requires id !in running
      modifies this`handles, this`running
      ensures Table() == old(Table()).Reaped(id)
      ensures handles == old(handles) - {id} && running == old(running)
    {
      handles := handles - {id};
      running := running - {id};
    }

    /** `SyncPlanCell::take`. */
    method TakePlan(id: JobId) returns (plan: Option<PlanValue>)
      modifies this`cells
      ensures plan == if id in old(cells) then Some(old(cells)[id]) else None
      ensures cells == old(cells) - {id}
    {
      plan := if id in cells then Some(cells[id]) else None;
      cells := cells - {id};
    }

    // ---------- What a job's thread does ----------

    method ThreadReports(id: JobId, report: Report)
      requires Table().Valid() && id in running
      modifies this`events
      ensures Table() == old(Table()).Reported(id, report) && Table().Valid()
      ensures events == old(events) + [Progressed(id, report)]
    {
      ReportedIsValid(Table(), id, report);
      events := events + [Progressed(id, report)];
    }

    /** `SyncPlanCell::set`, once the scan has its plan. */
    method ThreadSetsPlan(id: JobId, plan: PlanValue)
      requires Table().Valid() && id in running && running[id].Working? && handles[id].work.Scan?
      modifies this`running, this`cells
      ensures Table() == old(Table()).PlanStored(id, plan) && Table().Valid()
      ensures cells == old(cells)[id := plan] && running == old(running)[id := PlanSet]
    {
      PlanStoredIsValid(Table(), id, plan);
      cells := cells[id := plan];
      running := running[id := PlanSet];
    }

    /** The closure returns, or panics. */
    method ThreadReturns(id: JobId, result: ClosureResult)
      requires Table().Valid() && id in running && MayReturn(handles[id], running[id], result)
      modifies this`running, this`returned
      ensures Table() == old(Table()).Returned(id, result) && Table().Valid()
      ensures running == old(running)[id := Returning(result)] && returned == old(returned)[id := result]
    {
      ReturnedIsValid(Table(), id, result);
      running := running[id := Returning(result)];
      returned := returned[id := result];
    }

    /** The thread sends its one `Finished` and ends: `Completed` exactly if the closure
        succeeded, `WasCancelled` exactly if it stopped for the user, else `Failed`. */
    method ThreadEnds(id: JobId)
      requires Table().Valid() && id in running && running[id].Returning?
      modifies this`events, this`running
      ensures Table() == old(Table()).Ended(id) && Table().Valid()
      ensures |events| == |old(events)| + 1 && events[..|old(events)|] == old(events)
      ensures running == old(running) - {id}
      ensures var e := events[|old(events)|];
              && e.Finished? && e.id == id
              && (e.outcome == Completed <==> old(running)[id].result == Some(Ok(())))
              && (e.outcome == WasCancelled <==> old(running)[id].result == Some(Err(Cancelled)))
    {
      EndedIsValid(Table(), id);
      events := events + [Finished(id, OutcomeOf(running[id].result))];
      running := running - {id};
    }

    /** The main loop receives the next event; the last one of a job tells what its
        closure came to. */
    method Receive() returns (e: JobEvent)
      requires Table().Valid() && events != []
      modifies this`events
      ensures e == old(events)[0] && events == old(events)[1..]
      ensures Table().Before(e) == old(Table())
      ensures e.Finished? ==>
                && e.id in returned
                && (e.outcome == Completed <==> returned[e.id] == Some(Ok(())))
                && (e.outcome == WasCancelled <==> returned[e.id] == Some(Err(Cancelled)))
    {
      ghost var before := Table();
      e := events[0];
      assert [e] + events[1..] == events;
      events := events[1..];
      assert Table().Before(e) == before;
      DeliveredIsValid(Table(), e);
    }
  }
}
