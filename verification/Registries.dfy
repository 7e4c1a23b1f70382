/** `VfsRegistry`: the places that can be reached. What has been connected or opened
    stays until the program ends. */
module Registries {
  import opened Base
  import opened JobManagers

  /** The registry's two caches, and whether a place is in one of them. */
  datatype Known = Known(remotes: set<string>, archives: set<Location>) {
    predicate Resolves(location: Location) {
      match location
      case Local => true
      case Remote(profile) => profile in remotes
      case InArchive(_, _) => location in archives
    }

    /** An archive is only opened from a place that resolves. */
    ghost predicate Valid() {
      forall l :: l in archives ==> l.InArchive? && Resolves(l.base)
    }
  }

  class VfsRegistry {
    var remotes: set<string>
    var archives: set<Location>
    /** Whether the environment may refuse a connection or an archive. */
    const faulty: bool

    constructor (faulty: bool)
      ensures State() == Known({}, {}) && this.faulty == faulty
    {
      remotes, archives := {}, {};
      this.faulty := faulty;
    }

    ghost function State(): Known
      reads this
    {
      Known(remotes, archives)
    }

    /** `resolve`. */
    method Resolve(location: Location) returns (ok: bool)
      ensures ok <==> State().Resolves(location)
    {
      match location {
        case Local => return true;
        case Remote(profile) => return profile in remotes;
        case InArchive(_, _) => return location in archives;
      }
    }

    /** `connect_and_cache`. */
    method ConnectAndCache(profile: string) returns (r: Result<()>)
      requires State().Valid()
      modifies this
      ensures State().Valid()
      ensures archives == old(archives) && remotes == if r.Ok? then old(remotes) + {profile} else old(remotes)
      ensures r.Err? ==> r == Err(Io) && faulty
    {
      var fault := Fault(faulty);
      if fault {
        return Err(Io);
      }
      remotes := remotes + {profile};
      return Ok(());
    }

    /** `open_archive_and_cache`. */
    method OpenArchiveAndCache(location: Location) returns (r: Result<()>)
      requires State().Valid()
      modifies this
      ensures State().Valid()
      ensures remotes == old(remotes) && archives == if r.Ok? then old(archives) + {location} else old(archives)
      ensures r.Ok? ==> location.InArchive? && old(State()).Resolves(location.base)
      ensures r.Err? && location.InArchive? && old(State()).Resolves(location.base) ==> r == Err(Io) && faulty
      ensures r != Err(Cancelled) && r != Err(NeverReturns)
    {
      if !location.InArchive? {
        return Err(Unsupported);
      }
      var ok := Resolve(location.base);
      if !ok {
        return Err(Io);
      }
      var fault := Fault(faulty);
      if fault {
        return Err(Io);
      }
      archives := archives + {location};
      return Ok(());
    }
  }

  // ---------- Panels and jobs ----------

  /** A job that opens an archive was given one that lies in a reachable place, and a
      job that has connected or opened something has left it in the registry. */
  predicate Opens(job: JobHandle, done: bool, known: Known) {
    match job.work
    case OpenConnection(profile) => done ==> profile in known.remotes
    case OpenArchiveAt(archive) =>
      archive.InArchive? && known.Resolves(archive.base) && (done ==> archive in known.archives)
    case _ => true
  }

  predicate HasSucceeded(table: JobTable, id: JobId) {
    id in table.returned && table.returned[id] == Some(Ok(()))
  }

  /** Both panels show places that resolve, and will after every job of the table. */
  ghost predicate AllReachable(known: Known, left: Location, right: Location, table: JobTable) {
    && known.Valid()
    && known.Resolves(left)
    && known.Resolves(right)
    && (forall id :: id in table.handles ==> Opens(table.handles[id], HasSucceeded(table, id), known))
  }

  /** Starting a job keeps it: what is opened lies in a panel's place. */
  lemma SpawnedIsReachable(known: Known, left: Location, right: Location, table: JobTable, work: Work)
    requires AllReachable(known, left, right, table) && table.Valid()
    requires work.OpenArchiveAt? ==> work.archive.InArchive? && known.Resolves(work.archive.base)
    ensures AllReachable(known, left, right, table.Spawned(work))
  {
    var u := table.Spawned(work);
    assert !HasSucceeded(table, table.nextId);
    forall id | id in u.handles
      ensures Opens(u.handles[id], HasSucceeded(u, id), known)
    {
      assert HasSucceeded(u, id) == HasSucceeded(table, id);
      assert id != table.nextId ==> Opens(table.handles[id], HasSucceeded(table, id), known);
    }
  }

  /** The registry only grows. */
  lemma GrownIsReachable(known: Known, more: Known, left: Location, right: Location, table: JobTable)
    requires AllReachable(known, left, right, table) && more.Valid()
    requires known.remotes <= more.remotes && known.archives <= more.archives
    ensures AllReachable(more, left, right, table)
  {
    forall x | x in table.handles
      ensures Opens(table.handles[x], HasSucceeded(table, x), more)
    {
      assert Opens(table.handles[x], HasSucceeded(table, x), known);
    }
  }

  /** A closure returns, after the registry holds what it was to open. */
  lemma ReturnedIsReachable(known: Known, left: Location, right: Location, table: JobTable, id: JobId,
                            result: ClosureResult)
    requires AllReachable(known, left, right, table) && id in table.handles
    requires Opens(table.handles[id], result == Some(Ok(())), known)
    ensures AllReachable(known, left, right, table.Returned(id, result))
  {
    var u := table.Returned(id, result);
    forall x | x in u.handles
      ensures Opens(u.handles[x], HasSucceeded(u, x), known)
    {
      assert Opens(table.handles[x], HasSucceeded(table, x), known);
    }
  }

  /** Nothing else a table goes through matters. */
  lemma StaysReachable(known: Known, left: Location, right: Location, table: JobTable, u: JobTable)
    requires AllReachable(known, left, right, table)
    requires u.handles.Keys <= table.handles.Keys && u.returned == table.returned
    requires forall id :: id in u.handles ==> u.handles[id].work == table.handles[id].work
    ensures AllReachable(known, left, right, u)
  {
    forall id | id in u.handles
      ensures Opens(u.handles[id], HasSucceeded(u, id), known)
    {
      assert Opens(table.handles[id], HasSucceeded(table, id), known);
    }
  }
}
