/** Progress reporting and the stream transport: a chunked copy of one file. */
module Transports {
  import opened Base
  import opened Trees
  import opened Backends

  datatype Report = Report(bytesDone: nat, bytesTotal: nat, filesDone: nat, filesTotal: nat)

  /** The progress record a job updates, with every report it has sent. */
  class JobProgress {
    var bytesDone: nat
    var bytesTotal: nat
    var filesDone: nat
    var filesTotal: nat
    var currentFile: Option<Path>
    var reports: seq<Report>

    /** A job starts by reporting its totals. */
    constructor (filesTotal: nat, bytesTotal: nat)
      ensures Valid() && reports == [Report(0, bytesTotal, 0, filesTotal)]
    {
      bytesDone, filesDone, currentFile := 0, 0, None;
      this.bytesTotal, this.filesTotal := bytesTotal, filesTotal;
      reports := [Report(0, bytesTotal, 0, filesTotal)];
    }

    function Now(): Report
      reads this
    {
      Report(bytesDone, bytesTotal, filesDone, filesTotal)
    }

    /** Reports never go back, they all carry the same totals, and the last one is
        up to date. */
    predicate Valid()
      reads this
    {
      && reports != [] && reports[|reports| - 1] == Now()
      && (forall i, j :: 0 <= i < j < |reports| ==> NotAfter(reports[i], reports[j]))
    }

    lemma AllNotAfterNow()
      requires Valid()
      ensures forall i :: 0 <= i < |reports| ==> NotAfter(reports[i], Now())
    {
    }

    /** Counts n more bytes, and reports. */
    method CountBytes(n: nat)
      requires Valid()
      modifies this`bytesDone, this`reports
      ensures Valid() && bytesDone == old(bytesDone) + n
      ensures reports == old(reports) + [Report(bytesDone, bytesTotal, filesDone, filesTotal)]
    {
      AllNotAfterNow();
      bytesDone := bytesDone + n;
      reports := reports + [Now()];
    }

    /** Counts one more file, and reports. */
    method CountFile()
      requires Valid()
      modifies this`filesDone, this`reports
      ensures Valid() && filesDone == old(filesDone) + 1
      ensures reports == old(reports) + [Report(bytesDone, bytesTotal, filesDone, filesTotal)]
    {
      AllNotAfterNow();
      filesDone := filesDone + 1;
      reports := reports + [Now()];
    }
  }

  predicate NotAfter(a: Report, b: Report) {
    && a.bytesDone <= b.bytesDone && a.filesDone <= b.filesDone
    && a.bytesTotal == b.bytesTotal && a.filesTotal == b.filesTotal
  }

  /** A transfer that did its work: the destination is the whole content of the
      source, and all of it was counted. */
  predicate Moved(t0: Tree, t: Tree, p: Path, data: Bytes, counted: int) {
    t == t0[p := Regular(data)] && counted == |data|
  }

  /** The transport of a job: `VfsStreamTransport`, or `QuicSideTransport` through the
      agent on the remote side, which is the source or the destination. Only a `flaky`
      agent or network may make calls fail. */
  datatype Route = VfsStream | QuicSide(remoteIsSrc: bool, flaky: bool)

  /** What may stop a step that is enabled: the user, the environment (a faulty
      backend, or a flaky agent or network), or, for a cancelled download through
      the agent, that it never comes back. */
  predicate MayStop(e: Error, via: Route, cancelled: bool, faulty: bool) {
    match e
    case Cancelled => cancelled
    case NeverReturns => cancelled && via.QuicSide? && via.remoteIsSrc
    case Io => faulty || (via.QuicSide? && via.flaky)
    case _ => false
  }

  lemma CancelMayStop(via: Route, cancelled: bool, faulty: bool)
    requires cancelled
    ensures MayStop(Cancelled, via, cancelled, faulty)
  {
  }

  const COPY_CHUNK_SIZE: nat := 256 * 1024

  /** t is t0 with the first k bytes of data written at p. */
  predicate PrefixWritten(t0: Tree, t: Tree, p: Path, data: Bytes, k: int) {
    0 <= k <= |data| && t == t0[p := Regular(data[..k])]
  }

  /** t is t0 with some prefix of data written at p, at least the counted bytes. */
  ghost predicate SomePrefixWritten(t0: Tree, t: Tree, p: Path, data: Bytes, counted: int) {
    exists k: nat :: counted <= k && PrefixWritten(t0, t, p, data, k)
  }

  lemma PrefixGrows(t0: Tree, t1: Tree, t2: Tree, p: Path, data: Bytes, pos: nat, chunk: Bytes, k: int)
    requires PrefixWritten(t0, t1, p, data, pos) && Appended(t1, t2, p, chunk, k)
    requires pos + |chunk| <= |data| && chunk == data[pos..pos + |chunk|]
    ensures PrefixWritten(t0, t2, p, data, pos + k)
  {
    assert data[..pos] + chunk[..k] == data[..pos + k];
  }

  /** One turn of the copy loop after the cancel check: read, write, count, report.
      Returns how far it got; 0 means end of file. */
  method CopyChunk(src: Backend, srcPath: Path, dst: Backend, dstPath: Path, pos: nat, progress: JobProgress,
                   ghost t0: Tree, ghost data: Bytes)
    returns (r: Result<nat>)
    requires src.Valid() && dst.Valid() && progress.Valid()
    requires PrefixWritten(t0, dst.tree, dstPath, data, pos)
    requires if src == dst && srcPath == dstPath then pos == 0 else DataAt(src.tree, srcPath) == data
    modifies dst, progress`bytesDone, progress`reports
    ensures src.Valid() && dst.Valid() && progress.Valid()
    ensures r.Ok? ==> PrefixWritten(t0, dst.tree, dstPath, data, pos + r.value)
                      && progress.bytesDone == old(progress.bytesDone) + r.value
                      && (r.value == 0 <==> (src == dst && srcPath == dstPath) || pos == |data|)
    ensures r.Err? ==> SomePrefixWritten(t0, dst.tree, dstPath, data, pos)
                       && progress.bytesDone == old(progress.bytesDone)
                       && r.error == Io && (src.faulty || dst.faulty)
  {
    var read := src.ReadChunk(srcPath, pos, COPY_CHUNK_SIZE);
    if read.Err? {
      return Err(read.error);
    }
    var chunk := read.value;
    if |chunk| == 0 {
      return Ok(0);
    }
    ghost var t1 := dst.tree;
    var written := dst.Append(dstPath, chunk);
    if written.Err? {
      ghost var k :| Appended(t1, dst.tree, dstPath, chunk, k);
      PrefixGrows(t0, t1, dst.tree, dstPath, data, pos, chunk, k);
      return Err(written.error);
    }
    PrefixGrows(t0, t1, dst.tree, dstPath, data, pos, chunk, |chunk|);
    progress.CountBytes(|chunk|);
    return Ok(|chunk|);
  }

  /** The copy loop proper, from a freshly truncated destination. */
  method Pump(src: Backend, srcPath: Path, dst: Backend, dstPath: Path,
              cancel: CancellationToken, progress: JobProgress, ghost t0: Tree, ghost data: Bytes)
    returns (r: Result<()>)
    requires src.Valid() && dst.Valid() && progress.Valid()
    requires PrefixWritten(t0, dst.tree, dstPath, data, 0)
    requires (src == dst && srcPath == dstPath) || DataAt(src.tree, srcPath) == data
    modifies dst, cancel, progress`bytesDone, progress`reports
    ensures src.Valid() && dst.Valid() && progress.Valid()
    ensures old(cancel.cancelled) ==> cancel.cancelled
    ensures r.Ok? ==>
              var n := if src == dst && srcPath == dstPath then 0 else |data|;
              PrefixWritten(t0, dst.tree, dstPath, data, n) && progress.bytesDone == old(progress.bytesDone) + n
    ensures r.Err? && r.error == Cancelled ==>
              && cancel.cancelled
              && PrefixWritten(t0, dst.tree, dstPath, data, progress.bytesDone - old(progress.bytesDone))
    ensures r.Err? && r.error != Cancelled ==>
              && r.error == Io && (src.faulty || dst.faulty)
              && SomePrefixWritten(t0, dst.tree, dstPath, data, progress.bytesDone - old(progress.bytesDone))
  {
    hide SomePrefixWritten, WellFormed, NotAfter;
    var pos := 0;
    while true
      invariant src.Valid() && dst.Valid() && progress.Valid()
      invariant old(cancel.cancelled) ==> cancel.cancelled
      invariant PrefixWritten(t0, dst.tree, dstPath, data, pos)
      invariant progress.bytesDone == old(progress.bytesDone) + pos
      invariant if src == dst && srcPath == dstPath then pos == 0 else DataAt(src.tree, srcPath) == data
      decreases |data| - pos
    {
      var stop := cancel.IsCancelled();
      if stop {
        return Err(Cancelled);
      }
      var n :- CopyChunk(src, srcPath, dst, dstPath, pos, progress, t0, data);
      if n == 0 {
        return Ok(());
      }
      pos := pos + n;
    }
  }

  /** `VfsStreamTransport::transfer`. A completed transfer has written the whole
      source content; a cancelled one exactly the first k bytes, and has counted
      k; a failed one at least the bytes it counted. The exception is a file
      copied onto itself: the destination is truncated before the first read, and
      its content is lost. */
  method Transfer(src: Backend, srcPath: Path, dst: Backend, dstPath: Path,
                  cancel: CancellationToken, progress: JobProgress)
    returns (r: Result<()>)
    requires src.Valid() && dst.Valid() && progress.Valid()
    modifies dst, cancel, progress`bytesDone, progress`reports
    ensures src.Valid() && dst.Valid() && progress.Valid()
    ensures old(cancel.cancelled) ==> cancel.cancelled
    ensures r.Ok? || dst.tree != old(dst.tree) ==>
              srcPath in old(src.tree) && Readable(old(src.tree)[srcPath]) && CanWrite(old(dst.tree), dstPath)
    ensures r.Ok? && !(src == dst && srcPath == dstPath) ==>
              Moved(old(dst.tree), dst.tree, dstPath, DataAt(old(src.tree), srcPath),
                    progress.bytesDone - old(progress.bytesDone))
    ensures r.Ok? && src == dst && srcPath == dstPath ==>
              dst.tree == old(dst.tree)[dstPath := Regular([])] && progress.bytesDone == old(progress.bytesDone)
    ensures r.Err? && r.error == Cancelled ==>
              && cancel.cancelled
              && PrefixWritten(old(dst.tree), dst.tree, dstPath, DataAt(old(src.tree), srcPath),
                               progress.bytesDone - old(progress.bytesDone))
    ensures r.Err? && r.error != Cancelled ==>
              || (dst.tree == old(dst.tree) && progress.bytesDone == old(progress.bytesDone))
              || SomePrefixWritten(old(dst.tree), dst.tree, dstPath, DataAt(old(src.tree), srcPath),
                                   progress.bytesDone - old(progress.bytesDone))
    ensures r.Err? && r.error != Cancelled ==>
              || (r.error == Io && (src.faulty || dst.faulty))
              || srcPath !in old(src.tree) || !Readable(old(src.tree)[srcPath]) || !CanWrite(old(dst.tree), dstPath)
    ensures r.Err? ==> r.error != NeverReturns
  {
    hide SomePrefixWritten, CanWrite, WellFormed, NotAfter;
    var _ :- src.OpenRead(srcPath);
    var _ :- dst.CreateWrite(dstPath);
    ghost var data := DataAt(old(src.tree), srcPath);
    assert data[..0] == [] && data[..|data|] == data;
    r := Pump(src, srcPath, dst, dstPath, cancel, progress, old(dst.tree), data);
  }
}
