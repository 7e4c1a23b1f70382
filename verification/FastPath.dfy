/** `QuicSideTransport`: the QUIC pipelines do what the stream transport does. */
module FastPath {
  import opened Base
  import opened Trees
  import opened Channels
  import opened Backends
  import opened Transports
  import Uploads
  import Downloads

  /** What `ProgressIo` has counted while the local thread read the first n chunks. */
  function ReadCount(chunks: seq<Bytes>, n: nat): nat
    requires n <= |chunks|
  {
    if n == 0 then 0 else ReadCount(chunks, n - 1) + |chunks[n - 1]|
  }

  lemma {:induction false} ReadCountIsLength(chunks: seq<Bytes>, n: nat)
    requires n <= |chunks|
    ensures ReadCount(chunks, n) == |Flat(chunks[..n])|
  {
    if n > 0 {
      ReadCountIsLength(chunks, n - 1);
      FlatOneMore(chunks, n - 1);
    }
  }

  /** An upload that succeeds ends as the stream transport does, for every cut of
      the source content into reads. */
  lemma UploadMatchesStream(data: Bytes, chunks: seq<Bytes>, actions: seq<Uploads.Action>, t: Uploads.State, t0: Tree,
                            p: Path)
    requires Uploads.NonEmpty(chunks) && Flat(chunks) == data
    requires Uploads.Run(chunks, Uploads.Start(), actions, t) && t.local == Uploads.Returned(true)
    ensures t.produced <= |chunks| && Moved(t0, t0[p := Regular(t.stored)], p, data, ReadCount(chunks, t.produced))
  {
    Uploads.NoSilentTruncation(chunks, actions, t);
    ReadCountIsLength(chunks, |chunks|);
    assert chunks[..|chunks|] == chunks;
  }

  /** A download that succeeds ends as the stream transport does, for every cut of
      the stream into reads and of the chunks into writes. */
  lemma DownloadMatchesStream(data: Bytes, actions: seq<Downloads.Action>, t: Downloads.State, t0: Tree, p: Path)
    requires Downloads.Run(data, false, Downloads.Start(), actions, t)
    requires t.local.Returned? && t.local.result.Some?
    ensures Moved(t0, t0[p := Regular(t.written)], p, data, t.local.result.value)
  {
    Downloads.NoSilentTruncation(data, false, actions, t);
  }

  // ---------- The transfer ----------

  /** A cut of the content into the pieces that reading it may yield. */
  method Cut(data: Bytes) returns (chunks: seq<Bytes>)
    ensures Uploads.NonEmpty(chunks) && Flat(chunks) == data
  {
    chunks := [];
    var pos := 0;
    assert data[..0] == [];
    while pos < |data|
      invariant 0 <= pos <= |data| && Uploads.NonEmpty(chunks) && Flat(chunks) == data[..pos]
    {
      var n: nat :| 0 < n <= |data| - pos;
      assert data[..pos] + data[pos..pos + n] == data[..pos + n];
      FlatSplit(chunks, [data[pos..pos + n]]);
      assert Flat([data[pos..pos + n]]) == data[pos..pos + n];
      chunks := chunks + [data[pos..pos + n]];
      pos := pos + n;
    }
    assert data[..pos] == data;
  }

  /** Where an upload stands. `created` tells whether the agent has created its file. */
  ghost predicate UploadStands(chunks: seq<Bytes>, t: Uploads.State, t0: Tree, td: Tree, p: Path, created: bool) {
    && Uploads.NonEmpty(chunks) && Uploads.Inv(chunks, t)
    && (t.agent.Storing? || t.agent == Uploads.Replied(true) ==> created)
    && if created then CanWrite(t0, p) && td == t0[p := Regular(t.stored)] else td == t0 && t.stored == []
  }

  /** What may happen next: the agent can only create the file where the tree lets it,
      a cancelled reader only fails, and no other call fails unless it `mayFail`. */
  predicate UploadMay(a: Uploads.Action, t0: Tree, p: Path, cancelled: bool, mayFail: bool) {
    && (a.AgentOpen? ==> CanWrite(t0, p))
    && (a.ReadChunk? || a.ReadEnd? ==> !cancelled)
    && (Uploads.IsFault(a) ==>
          mayFail || (a.ReadError? && cancelled) || (a.AgentOpenError? && !CanWrite(t0, p)))
  }

  /** Why an upload has failed, if it has. */
  predicate UploadExcused(t: Uploads.State, t0: Tree, p: Path, cancelled: bool, mayFail: bool) {
    t.failed ==> mayFail || cancelled || !CanWrite(t0, p)
  }

  lemma UploadCanMove(chunks: seq<Bytes>, t: Uploads.State, t0: Tree, p: Path, cancelled: bool, mayFail: bool)
    requires Uploads.Inv(chunks, t) && !Uploads.Final(t)
    ensures exists a :: Uploads.Next(chunks, t, a).Some? && UploadMay(a, t0, p, cancelled, mayFail)
  {
    hide CanWrite, Uploads.Inv;
    Uploads.NeverStuck(chunks, t);
    var a :| Uploads.CanAct(chunks, t, a);
    var b := if a.AgentOpen? && !CanWrite(t0, p) then Uploads.AgentOpenError
             else if (a.ReadChunk? || a.ReadEnd?) && cancelled then Uploads.ReadError
             else a;
    assert Uploads.Next(chunks, t, b).Some? && UploadMay(b, t0, p, cancelled, mayFail);
  }

  lemma UploadStep(chunks: seq<Bytes>, t: Uploads.State, t0: Tree, td: Tree, p: Path, created: bool,
                   a: Uploads.Action, cancelled: bool, mayFail: bool)
    requires UploadStands(chunks, t, t0, td, p, created) && UploadExcused(t, t0, p, cancelled, mayFail)
    requires Uploads.Next(chunks, t, a).Some? && UploadMay(a, t0, p, cancelled, mayFail)
    ensures var u := Uploads.Next(chunks, t, a).value;
            var now := created || a.AgentOpen?;
            && UploadStands(chunks, u, t0, if now then t0[p := Regular(u.stored)] else t0, p, now)
            && Uploads.Budget(chunks, u) < Uploads.Budget(chunks, t)
            && u.produced == t.produced + (if a.ReadChunk? then 1 else 0)
            && (a.ReadChunk? ==> t.produced < |chunks|)
            && UploadExcused(u, t0, p, cancelled, mayFail)
  {
    hide Uploads.Inv, Uploads.Budget;
    Uploads.StepSpendsBudget(chunks, t, a);
    if !Uploads.IsFault(a) {
      Uploads.OnlyFaultsFail(chunks, t, a);
    }
  }

  lemma UploadStarts(chunks: seq<Bytes>, t0: Tree, p: Path)
    requires Uploads.NonEmpty(chunks)
    ensures UploadStands(chunks, Uploads.Start(), t0, t0, p, false)
    ensures ReadCount(chunks, Uploads.Start().produced) == 0
  {
  }

  lemma UploadEnds(chunks: seq<Bytes>, t: Uploads.State, t0: Tree, td: Tree, p: Path, created: bool)
    requires UploadStands(chunks, t, t0, td, p, created) && Uploads.Final(t)
    ensures t.local.ok ==>
              t.produced == |chunks| && CanWrite(t0, p) && Moved(t0, td, p, Flat(chunks), ReadCount(chunks, t.produced))
    ensures td == t0 || (CanWrite(t0, p) && SomePrefixWritten(t0, td, p, Flat(chunks), 0))
    ensures !t.local.ok ==> t.failed
  {
    if t.local.ok {
      ReadCountIsLength(chunks, |chunks|);
      assert chunks[..|chunks|] == chunks;
    }
    if created {
      var data := Flat(chunks);
      assert t.stored == data[..|t.stored|];
      assert PrefixWritten(t0, td, p, data, |t.stored|);
    }
  }

  lemma OverwriteAgain(t0: Tree, td: Tree, p: Path, before: Bytes, after: Bytes)
    requires td == t0 || td == t0[p := Regular(before)]
    ensures td[p := Regular(after)] == t0[p := Regular(after)]
  {
  }

  lemma UploadKeepsTreeValid(chunks: seq<Bytes>, t: Uploads.State, t0: Tree, td: Tree, p: Path, created: bool)
    requires UploadStands(chunks, t, t0, td, p, created) && WellFormed(t0)
    ensures WellFormed(td) && t.produced <= |chunks|
  {
  }

  /** Runs an upload, one step at a time, in whatever order the threads move. It fails
      only for a reason: a call that may fail did, it was cancelled, or the agent
      cannot create the file. */
  method RunUpload(chunks: seq<Bytes>, dst: Backend, dstPath: Path, mayFail: bool, cancel: CancellationToken,
                   progress: JobProgress)
    returns (ok: bool)
    requires dst.Valid() && progress.Valid() && Uploads.NonEmpty(chunks)
    modifies dst, cancel, progress`bytesDone, progress`reports
    ensures dst.Valid() && progress.Valid() && (old(cancel.cancelled) ==> cancel.cancelled)
    ensures !ok ==> mayFail || cancel.cancelled || !CanWrite(old(dst.tree), dstPath)
    ensures ok ==>
              && CanWrite(old(dst.tree), dstPath)
              && Moved(old(dst.tree), dst.tree, dstPath, Flat(chunks), progress.bytesDone - old(progress.bytesDone))
    ensures || dst.tree == old(dst.tree)
            || (CanWrite(old(dst.tree), dstPath)
                && SomePrefixWritten(old(dst.tree), dst.tree, dstPath, Flat(chunks), 0))
  {
    hide Uploads.Next, Uploads.Inv, Uploads.Budget, CanWrite, UploadMay, SomePrefixWritten, WellFormed;
    var t := Uploads.Start();
    var created := false;
    var t0 := dst.tree;
    UploadStarts(chunks, t0, dstPath);
    while !Uploads.Final(t)
      invariant dst.Valid() && progress.Valid() && (old(cancel.cancelled) ==> cancel.cancelled)
      invariant UploadExcused(t, t0, dstPath, cancel.cancelled, mayFail)
      invariant UploadStands(chunks, t, t0, dst.tree, dstPath, created) && t.produced <= |chunks|
      invariant progress.bytesDone == old(progress.bytesDone) + ReadCount(chunks, t.produced)
      decreases Uploads.Budget(chunks, t)
    {
      var stop := cancel.IsCancelled();
      UploadCanMove(chunks, t, t0, dstPath, stop, mayFail);
      var a :| Uploads.Next(chunks, t, a).Some? && UploadMay(a, t0, dstPath, stop, mayFail);
      UploadStep(chunks, t, t0, dst.tree, dstPath, created, a, stop, mayFail);
      if a.ReadChunk? {
        progress.CountBytes(|chunks[t.produced]|);
      }
      ghost var before := t.stored;
      t := Uploads.Next(chunks, t, a).value;
      created := created || a.AgentOpen?;
      if created {
        OverwriteAgain(t0, dst.tree, dstPath, before, t.stored);
        dst.tree := dst.tree[dstPath := Regular(t.stored)];
      }
      UploadKeepsTreeValid(chunks, t, t0, dst.tree, dstPath, created);
    }
    ok := t.local.ok;
    UploadEnds(chunks, t, t0, dst.tree, dstPath, created);
  }

  /** Where a download stands. */
  ghost predicate DownloadStands(file: Bytes, t: Downloads.State, t0: Tree, td: Tree, p: Path, cancelled: bool,
                                 canOpen: bool) {
    && Downloads.Inv(file, false, t)
    && td == t0[p := Regular(t.written)]
    && (t.cancelled ==> cancelled)
    && (t.agent.Pushing? || t.agent.Finished? ==> canOpen)
  }

  /** What may happen next: the agent opens the file only if it can be opened, and no
      other call fails unless it `mayFail`. */
  predicate DownloadMay(a: Downloads.Action, canOpen: bool, mayFail: bool) {
    && (a.AgentOpen? ==> canOpen)
    && (Downloads.IsFault(a) ==> mayFail || (a.AgentOpenError? && !canOpen))
  }

  /** Why a download has failed, if it has. */
  predicate DownloadExcused(t: Downloads.State, canOpen: bool, mayFail: bool) {
    t.failed ==> mayFail || !canOpen
  }

  lemma DownloadCanMove(file: Bytes, t: Downloads.State, canOpen: bool, mayFail: bool)
    requires Downloads.Inv(file, false, t) && !Downloads.Final(t) && !Downloads.Retrying(t)
    ensures exists a :: Downloads.Next(file, false, t, a).Some? && !a.Retry? && DownloadMay(a, canOpen, mayFail)
  {
    hide Downloads.Inv;
    Downloads.NeverStuck(file, false, t);
    var a :| Downloads.CanAct(file, false, t, a);
    var b := if a.AgentOpen? && !canOpen then Downloads.AgentOpenError else a;
    assert Downloads.Next(file, false, t, b).Some? && !b.Retry? && DownloadMay(b, canOpen, mayFail);
  }

  lemma DownloadStep(file: Bytes, t: Downloads.State, t0: Tree, td: Tree, p: Path, cancelled: bool, canOpen: bool,
                     a: Downloads.Action, mayFail: bool)
    requires DownloadStands(file, t, t0, td, p, cancelled, canOpen) && DownloadExcused(t, canOpen, mayFail)
    requires Downloads.Next(file, false, t, a).Some? && !a.Retry? && DownloadMay(a, canOpen, mayFail)
    ensures var u := Downloads.Next(file, false, t, a).value;
            && DownloadStands(file, u, t0, td[p := Regular(u.written)], p, cancelled || a.Cancel?, canOpen)
            && Downloads.Budget(file, false, u) < Downloads.Budget(file, false, t)
            && |t.written| <= |u.written|
            && DownloadExcused(u, canOpen, mayFail)
  {
    hide Downloads.Inv, Downloads.Budget;
    Downloads.StepSpendsBudget(file, false, t, a);
    if !Downloads.IsFault(a) {
      Downloads.OnlyFaultsFail(file, false, t, a);
    }
    var u := Downloads.Next(file, false, t, a).value;
    OverwriteAgain(t0, td, p, t.written, u.written);
  }

  lemma DownloadStarts(file: Bytes, t0: Tree, p: Path, cancelled: bool, canOpen: bool)
    ensures DownloadStands(file, Downloads.Start(), t0, t0[p := Regular([])], p, cancelled, canOpen)
  {
  }

  lemma DownloadEnds(file: Bytes, t: Downloads.State, t0: Tree, td: Tree, p: Path, cancelled: bool, canOpen: bool)
    requires DownloadStands(file, t, t0, td, p, cancelled, canOpen)
    ensures t.local.Returned? && t.local.result.Some? ==> canOpen && Moved(t0, td, p, file, |t.written|)
    ensures PrefixWritten(t0, td, p, file, |t.written|)
    ensures t.local == Downloads.Returned(None) ==> t.failed
  {
    assert file[..|file|] == file;
    assert t.written == file[..|t.written|];
  }

  /** Runs a download, one step at a time, in whatever order the threads move. It
      never returns, and answers None, once its cancelled writer is caught retrying. It
      fails only for a reason: a call that may fail did, or the file cannot be opened. */
  method RunDownload(file: Bytes, dst: Backend, dstPath: Path, canOpen: bool, mayFail: bool,
                     cancel: CancellationToken, progress: JobProgress)
    returns (ok: Option<bool>)
    requires dst.Valid() && progress.Valid() && CanWrite(dst.tree, dstPath)
    requires dstPath in dst.tree && dst.tree[dstPath] == Regular([])
    modifies dst, cancel, progress`bytesDone, progress`reports
    ensures dst.Valid() && progress.Valid() && (old(cancel.cancelled) ==> cancel.cancelled)
    ensures ok == Some(true) ==>
              && canOpen
              && Moved(old(dst.tree), dst.tree, dstPath, file, progress.bytesDone - old(progress.bytesDone))
    ensures PrefixWritten(old(dst.tree), dst.tree, dstPath, file, progress.bytesDone - old(progress.bytesDone))
    ensures ok.None? ==> cancel.cancelled
    ensures ok == Some(false) ==> mayFail || !canOpen
  {
    hide Downloads.Next, Downloads.Inv, Downloads.Budget, CanWrite, DownloadMay, WellFormed;
    var t := Downloads.Start();
    ghost var t0 := dst.tree;
    assert t0[dstPath := Regular([])] == t0;
    DownloadStarts(file, t0, dstPath, cancel.cancelled, canOpen);
    while !Downloads.Final(t) && !Downloads.Retrying(t)
      invariant dst.Valid() && progress.Valid() && (old(cancel.cancelled) ==> cancel.cancelled)
      invariant DownloadStands(file, t, t0, dst.tree, dstPath, cancel.cancelled, canOpen)
      invariant DownloadExcused(t, canOpen, mayFail)
      invariant progress.bytesDone == old(progress.bytesDone) + |t.written|
      decreases Downloads.Budget(file, false, t)
    {
      DownloadCanMove(file, t, canOpen, mayFail);
      var a :| Downloads.Next(file, false, t, a).Some? && !a.Retry? && DownloadMay(a, canOpen, mayFail);
      DownloadStep(file, t, t0, dst.tree, dstPath, cancel.cancelled, canOpen, a, mayFail);
      var u := Downloads.Next(file, false, t, a).value;
      if |t.written| < |u.written| {
        progress.CountBytes(|u.written| - |t.written|);
      }
      cancel.cancelled := cancel.cancelled || a.Cancel?;
      ghost var before := t.written;
      t := u;
      OverwriteKeepsWellFormed(t0, dstPath, t.written);
      OverwriteAgain(t0, dst.tree, dstPath, before, t.written);
      dst.tree := dst.tree[dstPath := Regular(t.written)];
    }
    DownloadEnds(file, t, t0, dst.tree, dstPath, cancel.cancelled, canOpen);
    ok := if Downloads.Final(t) then Some(t.local.result.Some?) else None;
  }

  /** `QuicSideTransport::transfer`, between two different backends. When it returns
      success it has done what the stream transport does: the whole content is at
      the destination and all of it was counted. It differs in three ways: it counts
      the file itself, a failed upload may have counted more than arrived, and a
      cancelled download may never return (None). */
  method QuicTransfer(src: Backend, srcPath: Path, dst: Backend, dstPath: Path, remoteIsSrc: bool, flaky: bool,
                      cancel: CancellationToken, progress: JobProgress)
    returns (r: Option<Result<()>>)
    requires src.Valid() && dst.Valid() && src != dst && progress.Valid()
    modifies dst, cancel, progress`bytesDone, progress`filesDone, progress`reports
    ensures src.Valid() && dst.Valid() && progress.Valid()
    ensures old(cancel.cancelled) ==> cancel.cancelled && r.Some? && dst.tree == old(dst.tree)
    ensures r == Some(Ok(())) ==>
              && srcPath in src.tree && Readable(src.tree[srcPath]) && CanWrite(old(dst.tree), dstPath)
              && Moved(old(dst.tree), dst.tree, dstPath, DataAt(src.tree, srcPath),
                       progress.bytesDone - old(progress.bytesDone))
              && progress.filesDone == old(progress.filesDone) + 1
    ensures r != Some(Ok(())) ==>
              && progress.filesDone == old(progress.filesDone)
              && (dst.tree == old(dst.tree)
                  || (CanWrite(old(dst.tree), dstPath)
                      && SomePrefixWritten(old(dst.tree), dst.tree, dstPath, DataAt(src.tree, srcPath), 0)))
    ensures r.None? ==> remoteIsSrc && cancel.cancelled
    ensures r.Some? && r.value.Err? ==>
              || MayStop(r.value.error, QuicSide(remoteIsSrc, flaky), cancel.cancelled, src.faulty || dst.faulty)
              || (r.value.error.FromBackend()
                  && (srcPath !in src.tree || !Readable(src.tree[srcPath]) || !CanWrite(old(dst.tree), dstPath)))
  {
    hide CanWrite, WellFormed, SomePrefixWritten;
    var stop := cancel.IsCancelled();
    if stop {
      return Some(Err(Cancelled));
    }
    var canOpen := srcPath in src.tree && Readable(src.tree[srcPath]);
    var data := DataAt(src.tree, srcPath);
    var mayFail := flaky || src.faulty || dst.faulty;
    var ok;
    if remoteIsSrc {
      var created := dst.CreateWrite(dstPath);
      if created.Err? {
        return Some(Err(created.error));
      }
      ghost var emptied := dst.tree;
      StillWritable(old(dst.tree), dstPath);
      ok := RunDownload(data, dst, dstPath, canOpen, mayFail, cancel, progress);
      ThroughTruncation(old(dst.tree), emptied, dst.tree, dstPath, data, progress.bytesDone - old(progress.bytesDone));
    } else {
      var created := src.OpenRead(srcPath);
      if created.Err? {
        return Some(Err(created.error));
      }
      var chunks := Cut(data);
      var done := RunUpload(chunks, dst, dstPath, mayFail, cancel, progress);
      ok := Some(done);
      stop := cancel.IsCancelled();
    }
    if ok.None? {
      return None;
    }
    if !ok.value {
      return Some(Err(if cancel.cancelled then Cancelled else Io));
    }
    progress.CountFile();
    return Some(Ok(()));
  }

  /** `Transport::transfer`, on the transport chosen for the job. A transfer that
      returns success has done the same on either; only the counted files differ. */
  method TransferVia(via: Route, src: Backend, srcPath: Path, dst: Backend, dstPath: Path,
                     cancel: CancellationToken, progress: JobProgress)
    returns (r: Result<()>)
    requires src.Valid() && dst.Valid() && progress.Valid()
    requires src == dst ==> srcPath != dstPath && via.VfsStream?
    modifies dst, cancel, progress`bytesDone, progress`filesDone, progress`reports
    ensures src.Valid() && dst.Valid() && progress.Valid()
    ensures old(cancel.cancelled) ==> cancel.cancelled
    ensures r.Ok? ==>
              && srcPath in old(src.tree) && Readable(old(src.tree)[srcPath]) && CanWrite(old(dst.tree), dstPath)
              && Moved(old(dst.tree), dst.tree, dstPath, DataAt(old(src.tree), srcPath),
                       progress.bytesDone - old(progress.bytesDone))
              && progress.filesDone == old(progress.filesDone) + if via.QuicSide? then 1 else 0
    ensures r.Err? ==>
              || dst.tree == old(dst.tree)
              || (CanWrite(old(dst.tree), dstPath)
                  && SomePrefixWritten(old(dst.tree), dst.tree, dstPath, DataAt(old(src.tree), srcPath), 0))
    ensures r.Err? ==>
              || MayStop(r.error, via, cancel.cancelled, src.faulty || dst.faulty)
              || (r.error.FromBackend()
                  && (srcPath !in old(src.tree) || !Readable(old(src.tree)[srcPath])
                      || !CanWrite(old(dst.tree), dstPath)))
  {
    hide CanWrite, WellFormed, Readable, DataAt;
    match via {
      case VfsStream =>
        r := Transfer(src, srcPath, dst, dstPath, cancel, progress);
      case QuicSide(remoteIsSrc, flaky) =>
        var moved := QuicTransfer(src, srcPath, dst, dstPath, remoteIsSrc, flaky, cancel, progress);
        r := if moved.Some? then moved.value else Err(NeverReturns);
        assert r.Ok? ==> r.value == ();
    }
  }

  lemma StillWritable(t: Tree, p: Path)
    ensures CanWrite(t[p := Regular([])], p)
  {
  }

  lemma ThroughTruncation(t0: Tree, t1: Tree, t2: Tree, p: Path, data: Bytes, counted: int)
    requires t1 == t0[p := Regular([])] && PrefixWritten(t1, t2, p, data, counted)
    ensures SomePrefixWritten(t0, t2, p, data, 0)
    ensures Moved(t1, t2, p, data, counted) ==> Moved(t0, t2, p, data, counted)
  {
    assert PrefixWritten(t0, t2, p, data, counted);
  }
}
