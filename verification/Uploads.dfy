/** `QuicAgentHandle::write_file` as a step system: the local thread that reads,
    the network thread that sends, and the agent at the far end. A QUIC stream is
    an ordered byte stream whose end is seen only after the sender's `finish()`
    (section 2.2 of RFC 9000). Every I/O call may fail; the order of steps is
    arbitrary. */
module Uploads {
  import opened Base
  import opened Channels

  datatype Local = Reading | Sending(msg: Msg) | Closing | Joining | Returned(ok: bool)

  datatype Net = Opening | Receiving | Writing(chunk: Bytes) | Finishing | Awaiting | Leaving(ok: bool) | Gone(ok: bool)

  datatype Agent = Starting | Storing | Replied(ok: bool) | Lost

  /** `produced` counts the chunks the reader has produced; `sent` is what went into
      the stream and `stored` what the agent has written to its file. */
  datatype State = State(
    produced: nat,
    readFailed: bool,
    local: Local,
    channel: Channel,
    net: Net,
    sent: Bytes,
    finished: bool,
    agent: Agent,
    stored: Bytes,
    failed: bool)

  datatype Action =
    | ReadChunk | ReadEnd | ReadError
    | SendToChannel | SendRefused | CloseSender | Join
    | Open | OpenError | Take | TakeEnd | Write | WriteError(n: nat)
    | Finish | FinishError | Await | AwaitError | CloseReceiver
    | AgentOpen | AgentOpenError | AgentStore(n: nat) | AgentStoreError | AgentEnd | AgentLost

  function Start(): State {
    State(0, false, Reading, OPEN, Opening, [], false, Starting, [], false)
  }

  predicate Final(s: State) {
    s.local.Returned?
  }

  // ---------- One step of each participant ----------

  /** The local thread, whose reader will produce the given chunks. */
  function LocalStep(chunks: seq<Bytes>, s: State, a: Action): Option<State> {
    match a
    case ReadChunk =>
      if s.local.Reading? && s.produced < |chunks|
      then Some(s.(local := Sending(Data(chunks[s.produced])), produced := s.produced + 1)) else None
    case ReadEnd =>
      if s.local.Reading? && s.produced == |chunks| then Some(s.(local := Closing)) else None
    case ReadError =>
      if s.local.Reading? then Some(s.(local := Sending(Failure), readFailed := true, failed := true)) else None
    case SendToChannel =>
      if s.local.Sending? && s.channel.CanSend()
      then Some(s.(local := if s.local.msg.Data? then Reading else Closing, channel := s.channel.Send(s.local.msg)))
      else None
    case SendRefused =>
      if s.local.Sending? && !s.channel.rxAlive then Some(s.(local := Closing)) else None
    case CloseSender =>
      if s.local.Closing? then Some(s.(local := Joining, channel := s.channel.DropSender())) else None
    case Join =>
      if s.local.Joining? && s.net.Gone? then Some(s.(local := Returned(s.net.ok))) else None
    case _ => None
  }

  function NetFails(s: State): State {
    s.(net := Leaving(false), failed := true)
  }

  /** The network thread. */
  function NetStep(s: State, a: Action): Option<State> {
    match a
    case Open => if s.net.Opening? then Some(s.(net := Receiving)) else None
    case OpenError => if s.net.Opening? then Some(NetFails(s)) else None
    case Take =>
      if s.net.Receiving? && s.channel.CanReceive()
      then
        var m := s.channel.queue[0];
        Some(s.(net := if m.Data? then Writing(m.chunk) else Leaving(false), channel := s.channel.Receive()))
      else None
    case TakeEnd => if s.net.Receiving? && s.channel.Ended() then Some(s.(net := Finishing)) else None
    case Write =>
      if s.net.Writing? then Some(s.(net := Receiving, sent := s.sent + s.net.chunk)) else None
    case WriteError(n) =>
      if s.net.Writing? && n <= |s.net.chunk| then Some(NetFails(s.(sent := s.sent + s.net.chunk[..n]))) else None
    case Finish => if s.net.Finishing? then Some(s.(net := Awaiting, finished := true)) else None
    case FinishError => if s.net.Finishing? then Some(NetFails(s)) else None
    case Await =>
      if s.net.Awaiting? && (s.agent.Replied? || s.agent.Lost?)
      then Some(s.(net := Leaving(s.agent == Replied(true)))) else None
    case AwaitError => if s.net.Awaiting? then Some(NetFails(s)) else None
    case CloseReceiver =>
      if s.net.Leaving? then Some(s.(net := Gone(s.net.ok), channel := s.channel.DropReceiver())) else None
    case _ => None
  }

  /** The agent: it creates the file, stores whatever pieces the stream yields, and
      replies once it has seen the end of the stream, or has failed. */
  function AgentStep(s: State, a: Action): Option<State> {
    match a
    case AgentOpen => if s.agent.Starting? && !s.net.Opening? then Some(s.(agent := Storing)) else None
    case AgentOpenError => if s.agent.Starting? then Some(s.(agent := Replied(false), failed := true)) else None
    case AgentStore(n) =>
      if s.agent.Storing? && |s.stored| < n <= |s.sent| then Some(s.(stored := s.sent[..n])) else None
    case AgentStoreError => if s.agent.Storing? then Some(s.(agent := Replied(false), failed := true)) else None
    case AgentEnd =>
      if s.agent.Storing? && s.finished && |s.stored| == |s.sent| then Some(s.(agent := Replied(true))) else None
    case AgentLost =>
      if s.agent.Starting? || s.agent.Storing? then Some(s.(agent := Lost, failed := true)) else None
    case _ => None
  }

  function Next(chunks: seq<Bytes>, s: State, a: Action): Option<State> {
    match (LocalStep(chunks, s, a), NetStep(s, a), AgentStep(s, a))
    case (Some(t), _, _) => Some(t)
    case (_, Some(t), _) => Some(t)
    case (_, _, r) => r
  }

  /** Reads are never empty before the end of the file. */
  predicate NonEmpty(chunks: seq<Bytes>) {
    forall i :: 0 <= i < |chunks| ==> chunks[i] != []
  }

  // ---------- The invariant ----------

  function InLocal(s: State): Bytes {
    if s.local.Sending? && s.local.msg.Data? then s.local.msg.chunk else []
  }

  function InNet(s: State): Bytes {
    if s.net.Writing? then s.net.chunk else []
  }

  /** The network thread is still taking chunks. */
  predicate Pumping(s: State) {
    s.net.Opening? || s.net.Receiving? || s.net.Writing?
  }

  predicate Control(chunks: seq<Bytes>, s: State) {
    && s.produced <= |chunks|
    && |s.channel.queue| <= PIPELINE_DEPTH
    && (s.channel.txAlive <==> s.local.Reading? || s.local.Sending? || s.local.Closing?)
    && (s.channel.rxAlive <==> !s.net.Gone?)
    && DataThenMaybeFailure(s.channel.queue)
    && (s.local.Sending? && s.local.msg.Data? ==> s.local.msg.chunk != [])
    && (s.local.Sending? && s.local.msg.Failure? ==> s.readFailed)
    && (s.local.Reading? || InLocal(s) != [] ==> !s.readFailed && AllData(s.channel.queue))
    && (s.local.Sending? ==> AllData(s.channel.queue))
  }

  /** Every byte the reader produced is in the stream, or on its way there in order. */
  predicate NothingSkipped(chunks: seq<Bytes>, s: State)
    requires s.produced <= |chunks|
  {
    s.sent + InNet(s) + Queued(s.channel.queue) + InLocal(s) == Flat(chunks[..s.produced])
  }

  /** Once the reader has stopped, either all of it was read or the failure notice
      is on its way. */
  predicate Accounted(chunks: seq<Bytes>, s: State) {
    s.local.Closing? || s.local.Joining? ==>
      if s.readFailed then s.channel.queue != [] && s.channel.queue[|s.channel.queue| - 1].Failure?
      else s.produced == |chunks| && AllData(s.channel.queue)
  }

  /** The reader has reached its end, and all of it is in the stream. */
  predicate Complete(chunks: seq<Bytes>, s: State) {
    s.sent == Flat(chunks) && s.produced == |chunks| && !s.readFailed && (s.local.Joining? || s.local.Returned?)
  }

  predicate Inv(chunks: seq<Bytes>, s: State) {
    && Control(chunks, s)
    && s.sent <= Flat(chunks) && s.stored <= s.sent
    && (Pumping(s) ==> NothingSkipped(chunks, s) && Accounted(chunks, s) && !s.local.Returned?)
    && (s.net.Finishing? || s.net.Awaiting? || s.finished ==> Complete(chunks, s))
    && (s.net.Awaiting? ==> s.finished)
    && (s.finished ==> s.net.Awaiting? || s.net.Leaving? || s.net.Gone?)
    && (s.agent == Replied(true) ==> s.finished && s.stored == s.sent)
    && (s.net == Leaving(true) || s.net == Gone(true) ==> s.agent == Replied(true))
    && (s.local.Returned? ==> s.net == Gone(s.local.ok))
    && (s.net == Leaving(false) || s.net == Gone(false) || s.readFailed ==> s.failed)
    && (s.agent == Replied(false) || s.agent == Lost ==> s.failed)
  }

  lemma StartHoldsInvariant(chunks: seq<Bytes>)
    ensures Inv(chunks, Start())
  {
  }

  lemma ReadChunkKeeps(chunks: seq<Bytes>, s: State)
    requires NonEmpty(chunks) && Inv(chunks, s) && s.local.Reading? && s.produced < |chunks|
    ensures Inv(chunks, s.(local := Sending(Data(chunks[s.produced])), produced := s.produced + 1))
  {
    FlatOneMore(chunks, s.produced);
    FlatPrefix(chunks, s.produced + 1);
  }

  lemma SendKeeps(chunks: seq<Bytes>, s: State)
    requires Inv(chunks, s) && s.local.Sending? && s.channel.CanSend()
    ensures Inv(chunks,
                s.(local := if s.local.msg.Data? then Reading else Closing, channel := s.channel.Send(s.local.msg)))
  {
    QueuedOneMore(s.channel.queue, s.local.msg);
    AppendBytes(s.sent + InNet(s), Queued(s.channel.queue), InLocal(s));
  }

  lemma LocalStepKeeps(chunks: seq<Bytes>, s: State, a: Action)
    requires NonEmpty(chunks) && Inv(chunks, s) && LocalStep(chunks, s, a).Some?
    ensures Inv(chunks, LocalStep(chunks, s, a).value)
  {
    match a
    case ReadChunk => ReadChunkKeeps(chunks, s);
    case SendToChannel => SendKeeps(chunks, s);
    case _ =>
  }

  lemma TakeKeeps(chunks: seq<Bytes>, s: State)
    requires Inv(chunks, s) && NetStep(s, Take).Some?
    ensures Inv(chunks, NetStep(s, Take).value)
  {
    var m, rest := s.channel.queue[0], s.channel.queue[1..];
    assert m.Data? ==> Queued(s.channel.queue) == m.chunk + Queued(rest);
    hide Flat, Queued;
    if m.Data? {
      AppendBytes(s.sent, m.chunk, Queued(rest));
    }
  }

  lemma WriteKeeps(chunks: seq<Bytes>, s: State)
    requires Inv(chunks, s) && s.net.Writing?
    ensures Inv(chunks, s.(net := Receiving, sent := s.sent + s.net.chunk))
  {
    FlatPrefix(chunks, s.produced);
    assert s.sent + s.net.chunk <= Flat(chunks[..s.produced]);
  }

  lemma TakeEndKeeps(chunks: seq<Bytes>, s: State)
    requires Inv(chunks, s) && s.net.Receiving? && s.channel.Ended()
    ensures Inv(chunks, s.(net := Finishing))
  {
    assert chunks[..|chunks|] == chunks;
  }

  lemma WriteErrorKeeps(chunks: seq<Bytes>, s: State, n: nat)
    requires Inv(chunks, s) && s.net.Writing? && n <= |s.net.chunk|
    ensures Inv(chunks, NetFails(s.(sent := s.sent + s.net.chunk[..n])))
  {
    WriteKeeps(chunks, s);
  }

  lemma NetStepKeeps(chunks: seq<Bytes>, s: State, a: Action)
    requires NonEmpty(chunks) && Inv(chunks, s) && NetStep(s, a).Some?
    ensures Inv(chunks, NetStep(s, a).value)
  {
    hide Inv;
    match a
    case Take => TakeKeeps(chunks, s);
    case Write => WriteKeeps(chunks, s);
    case WriteError(n) => WriteErrorKeeps(chunks, s, n);
    case TakeEnd => TakeEndKeeps(chunks, s);
    case _ => NetMovesOn(chunks, s, a);
  }

  /** The steps of the network thread that move no content. */
  lemma NetMovesOn(chunks: seq<Bytes>, s: State, a: Action)
    requires Inv(chunks, s) && NetStep(s, a).Some?
    requires !a.Take? && !a.Write? && !a.WriteError? && !a.TakeEnd?
    ensures Inv(chunks, NetStep(s, a).value)
  {
    hide Queued, Flat;
  }

  lemma AgentStepKeeps(chunks: seq<Bytes>, s: State, a: Action)
    requires Inv(chunks, s) && AgentStep(s, a).Some?
    ensures Inv(chunks, AgentStep(s, a).value)
  {
    hide Queued, Flat;
  }

  lemma StepKeepsInvariant(chunks: seq<Bytes>, s: State, a: Action)
    requires NonEmpty(chunks) && Inv(chunks, s) && Next(chunks, s, a).Some?
    ensures Inv(chunks, Next(chunks, s, a).value)
  {
    hide Inv;
    if LocalStep(chunks, s, a).Some? {
      LocalStepKeeps(chunks, s, a);
    } else if NetStep(s, a).Some? {
      NetStepKeeps(chunks, s, a);
    } else {
      AgentStepKeeps(chunks, s, a);
    }
  }

  // ---------- Runs ----------

  /** A run: the actions lead from s to t. */
  predicate Run(chunks: seq<Bytes>, s: State, actions: seq<Action>, t: State)
    decreases |actions|
  {
    if actions == [] then s == t
    else Next(chunks, s, actions[0]).Some? && Run(chunks, Next(chunks, s, actions[0]).value, actions[1..], t)
  }

  lemma {:induction false} RunKeepsInvariant(chunks: seq<Bytes>, s: State, actions: seq<Action>, t: State)
    requires NonEmpty(chunks) && Inv(chunks, s) && Run(chunks, s, actions, t)
    ensures Inv(chunks, t)
    decreases |actions|
  {
    hide Inv;
    if actions != [] {
      StepKeepsInvariant(chunks, s, actions[0]);
      RunKeepsInvariant(chunks, Next(chunks, s, actions[0]).value, actions[1..], t);
    }
  }

  /** No silent truncation: in every run, an upload that returns success has stored
      exactly what the reader produced up to its end; and in every state of every
      run the stored file is a prefix of that. It returns failure only if some
      call failed. */
  lemma NoSilentTruncation(chunks: seq<Bytes>, actions: seq<Action>, t: State)
    requires NonEmpty(chunks) && Run(chunks, Start(), actions, t)
    ensures t.local == Returned(true) ==> t.stored == Flat(chunks) && t.produced == |chunks| && !t.readFailed
    ensures t.local == Returned(false) ==> t.failed
    ensures t.stored <= Flat(chunks) && |t.channel.queue| <= 4
  {
    StartHoldsInvariant(chunks);
    RunKeepsInvariant(chunks, Start(), actions, t);
  }

  // ---------- Progress ----------

  /** Steps that stand for a failing I/O call. */
  predicate IsFault(a: Action) {
    || a.ReadError? || a.OpenError? || a.WriteError? || a.FinishError? || a.AwaitError?
    || a.AgentOpenError? || a.AgentStoreError? || a.AgentLost?
  }

  /** Nothing but a failing call makes a run fail. */
  lemma OnlyFaultsFail(chunks: seq<Bytes>, s: State, a: Action)
    requires Next(chunks, s, a).Some? && !IsFault(a)
    ensures Next(chunks, s, a).value.failed == s.failed
  {
  }

  lemma {:induction false} CleanRunHasNotFailed(chunks: seq<Bytes>, s: State, actions: seq<Action>, t: State)
    requires Run(chunks, s, actions, t) && !s.failed
    requires forall i :: 0 <= i < |actions| ==> !IsFault(actions[i])
    ensures !t.failed
    decreases |actions|
  {
    hide Next;
    if actions != [] {
      OnlyFaultsFail(chunks, s, actions[0]);
      CleanRunHasNotFailed(chunks, Next(chunks, s, actions[0]).value, actions[1..], t);
    }
  }

  /** An upload none of whose calls fails returns success, with the whole file stored. */
  lemma CleanUploadSucceeds(chunks: seq<Bytes>, actions: seq<Action>, t: State)
    requires NonEmpty(chunks) && Run(chunks, Start(), actions, t) && Final(t)
    requires forall i :: 0 <= i < |actions| ==> !IsFault(actions[i])
    ensures t.local == Returned(true) && t.stored == Flat(chunks)
  {
    CleanRunHasNotFailed(chunks, Start(), actions, t);
    NoSilentTruncation(chunks, actions, t);
  }

  predicate CanAct(chunks: seq<Bytes>, s: State, a: Action) {
    Next(chunks, s, a).Some? && !IsFault(a)
  }

  /** The local thread only ever waits for the network thread. */
  function LocalChoice(chunks: seq<Bytes>, s: State): Action {
    match s.local
    case Reading => if s.produced < |chunks| then ReadChunk else ReadEnd
    case Sending(_) => if s.channel.rxAlive then SendToChannel else SendRefused
    case Closing => CloseSender
    case _ => Join
  }

  predicate LocalWaits(s: State) {
    || (s.local.Sending? && s.channel.rxAlive && |s.channel.queue| == PIPELINE_DEPTH)
    || (s.local.Joining? && !s.net.Gone?)
  }

  function NetChoice(s: State): Action {
    match s.net
    case Opening => Open
    case Receiving => if s.channel.queue != [] then Take else TakeEnd
    case Writing(_) => Write
    case Finishing => Finish
    case Awaiting => Await
    case _ => CloseReceiver
  }

  function AgentChoice(s: State): Action {
    if s.agent.Starting? then AgentOpen else if |s.stored| < |s.sent| then AgentStore(|s.sent|) else AgentEnd
  }

  /** No deadlock: in every state before the return, some thread can take a step
      that is not a failure. Whenever the local thread waits, the network thread
      can move, or the agent it waits for can: this rests on each end of the channel
      being dropped before, or without, waiting for the other thread. */
  lemma NeverStuck(chunks: seq<Bytes>, s: State)
    requires Inv(chunks, s) && !Final(s)
    ensures exists a :: CanAct(chunks, s, a)
  {
    if !LocalWaits(s) {
      assert CanAct(chunks, s, LocalChoice(chunks, s));
    } else if s.net.Awaiting? && !s.agent.Replied? && !s.agent.Lost? {
      assert CanAct(chunks, s, AgentChoice(s));
    } else {
      assert CanAct(chunks, s, NetChoice(s));
    }
  }

  function LocalWeight(l: Local): nat {
    match l
    case Reading => 12
    case Sending(m) => if m.Data? then 17 else 8
    case Closing => 3
    case Joining => 2
    case Returned(_) => 0
  }

  function NetWeight(n: Net): nat {
    match n
    case Opening => 9
    case Receiving => 6
    case Writing(_) => 8
    case Finishing => 5
    case Awaiting => 4
    case Leaving(_) => 3
    case Gone(_) => 0
  }

  function AgentWeight(a: Agent): nat {
    match a
    case Starting => 2
    case Storing => 1
    case _ => 0
  }

  /** A bound on the steps still to come. */
  function Budget(chunks: seq<Bytes>, s: State): nat
    requires Inv(chunks, s)
  {
    10 * (|chunks| - s.produced) + LocalWeight(s.local) + 3 * |s.channel.queue| + NetWeight(s.net)
    + AgentWeight(s.agent) + (|Flat(chunks)| - |s.stored|)
  }

  lemma NetStepSpends(chunks: seq<Bytes>, s: State, a: Action)
    requires Inv(chunks, s) && NetStep(s, a).Some? && Inv(chunks, NetStep(s, a).value)
    ensures Budget(chunks, NetStep(s, a).value) < Budget(chunks, s)
  {
  }

  lemma LocalStepSpends(chunks: seq<Bytes>, s: State, a: Action)
    requires Inv(chunks, s) && LocalStep(chunks, s, a).Some? && Inv(chunks, LocalStep(chunks, s, a).value)
    ensures Budget(chunks, LocalStep(chunks, s, a).value) < Budget(chunks, s)
  {
  }

  lemma StepSpendsBudget(chunks: seq<Bytes>, s: State, a: Action)
    requires NonEmpty(chunks) && Inv(chunks, s) && Next(chunks, s, a).Some?
    ensures Inv(chunks, Next(chunks, s, a).value)
    ensures Budget(chunks, Next(chunks, s, a).value) < Budget(chunks, s)
  {
    hide LocalStep, NetStep;
    StepKeepsInvariant(chunks, s, a);
    if LocalStep(chunks, s, a).Some? {
      LocalStepSpends(chunks, s, a);
    } else if NetStep(s, a).Some? {
      NetStepSpends(chunks, s, a);
    }
  }

  /** Every run is finite, whatever fails and in whatever order threads move. */
  lemma {:induction false} RunIsBounded(chunks: seq<Bytes>, s: State, actions: seq<Action>, t: State)
    requires NonEmpty(chunks) && Inv(chunks, s) && Run(chunks, s, actions, t)
    ensures Inv(chunks, t) && |actions| + Budget(chunks, t) <= Budget(chunks, s)
    decreases |actions|
  {
    hide Inv, Budget;
    if actions != [] {
      StepSpendsBudget(chunks, s, actions[0]);
      RunIsBounded(chunks, Next(chunks, s, actions[0]).value, actions[1..], t);
    }
  }

  /** Both threads return: a run is at most this long, and one that cannot be
      continued has returned. */
  lemma UploadReturns(chunks: seq<Bytes>, actions: seq<Action>, t: State)
    requires NonEmpty(chunks) && Run(chunks, Start(), actions, t)
    ensures |actions| <= 10 * |chunks| + |Flat(chunks)| + 23
    ensures (forall a :: Next(chunks, t, a).None?) ==> Final(t)
  {
    StartHoldsInvariant(chunks);
    RunIsBounded(chunks, Start(), actions, t);
    if !Final(t) {
      NeverStuck(chunks, t);
    }
  }

  // ---------- Success is always within reach ----------

  lemma {:induction false} CleanFinish(chunks: seq<Bytes>, s: State) returns (actions: seq<Action>, t: State)
    requires NonEmpty(chunks) && Inv(chunks, s)
    ensures Run(chunks, s, actions, t) && Final(t)
    ensures forall i :: 0 <= i < |actions| ==> !IsFault(actions[i])
    decreases Budget(chunks, s)
  {
    hide Inv, Budget, AgentStep, LocalStep, NetStep;
    if Final(s) {
      return [], s;
    }
    NeverStuck(chunks, s);
    var a :| CanAct(chunks, s, a);
    StepSpendsBudget(chunks, s, a);
    var rest;
    rest, t := CleanFinish(chunks, Next(chunks, s, a).value);
    actions := [a] + rest;
  }

  lemma RunJoin(chunks: seq<Bytes>, s: State, a: seq<Action>, t: State, b: seq<Action>, u: State)
    requires Run(chunks, s, a, t) && Run(chunks, t, b, u)
    ensures Run(chunks, s, a + b, u)
    decreases |a|
  {
    hide Next;
    if a == [] {
      assert a + b == b;
    } else {
      RunJoin(chunks, Next(chunks, s, a[0]).value, a[1..], t, b, u);
      assert (a + b)[0] == a[0] && (a + b)[1..] == a[1..] + b;
    }
  }

  /** An upload can always succeed: whatever the threads and the agent have done so far, if
      no call has failed, they can go on to a success with the whole file stored. */
  lemma SuccessIsReachable(chunks: seq<Bytes>, done: seq<Action>, s: State) returns (rest: seq<Action>, t: State)
    requires NonEmpty(chunks) && Run(chunks, Start(), done, s)
    requires forall i :: 0 <= i < |done| ==> !IsFault(done[i])
    ensures Run(chunks, s, rest, t) && t.local == Returned(true) && t.stored == Flat(chunks)
  {
    hide Inv, Next;
    StartHoldsInvariant(chunks);
    RunIsBounded(chunks, Start(), done, s);
    rest, t := CleanFinish(chunks, s);
    RunJoin(chunks, Start(), done, s, rest, t);
    CleanUploadSucceeds(chunks, done + rest, t);
  }
}
