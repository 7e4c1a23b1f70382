/** `QuicAgentHandle::read_file` as a step system: the agent that sends a file, the
    network thread that receives it, and the local thread that writes it through
    `ProgressIo`. The stream is an ordered byte stream whose end is seen only after
    the sender's `finish()` (section 2.2 of RFC 9000); the parameter `dropEnds`
    drops that assumption for an agent that fails half-way. */
module Downloads {
  import opened Base
  import opened Channels

  datatype Agent = Starting | Pushing | Finished | Refused | Lost

  datatype Net =
    | Opening
    | Reading
    | Passing(chunk: Bytes)
    | Leaving(received: Option<nat>)
    | Gone(received: Option<nat>)

  /** `Writing(chunk, done)` is `write_all` on a chunk of which `done` bytes are written. */
  datatype Local = Receiving | Writing(chunk: Bytes, done: nat) | Closing | Joining | Returned(result: Option<nat>)

  /** `pushed` bytes are in the stream, `received` were read from it and handed on;
      `total` counts the chunks written in full, `written` is the local file. */
  datatype State = State(
    agent: Agent,
    pushed: nat,
    net: Net,
    taken: nat,
    received: nat,
    channel: Channel,
    local: Local,
    written: Bytes,
    total: nat,
    writeError: bool,
    cancelled: bool,
    failed: bool)

  datatype Action =
    | AgentOpen | AgentOpenError | AgentPush(n: nat) | AgentFinish | AgentLost
    | Open | OpenError | Read(n: nat) | ReadEnd | ReadBroken | ReadError | Pass | PassRefused | CloseReceiverSide
    | Take | TakeEnd | Write(n: nat) | WriteError | Retry | CloseLocal | Join
    | Cancel

  function Start(): State {
    State(Starting, 0, Opening, 0, 0, OPEN, Receiving, [], 0, false, false, false)
  }

  predicate Final(s: State) {
    s.local.Returned?
  }

  function AgentStep(file: Bytes, s: State, a: Action): Option<State> {
    match a
    case AgentOpen => if s.agent.Starting? && !s.net.Opening? then Some(s.(agent := Pushing)) else None
    case AgentOpenError => if s.agent.Starting? then Some(s.(agent := Refused, failed := true)) else None
    case AgentPush(n) =>
      if s.agent.Pushing? && s.pushed < n <= |file| then Some(s.(pushed := n)) else None
    case AgentFinish =>
      if s.agent.Pushing? && s.pushed == |file| then Some(s.(agent := Finished)) else None
    case AgentLost => if s.agent.Starting? || s.agent.Pushing? then Some(s.(agent := Lost, failed := true)) else None
    case _ => None
  }

  function NetFails(s: State): State {
    s.(net := Leaving(None), failed := true)
  }

  predicate StreamEnded(dropEnds: bool, s: State) {
    s.taken == s.pushed && (s.agent.Finished? || (dropEnds && s.agent.Lost?))
  }

  function NetStep(file: Bytes, dropEnds: bool, s: State, a: Action): Option<State>
    requires s.pushed <= |file|
  {
    match a
    case Open => if s.net.Opening? then Some(s.(net := Reading)) else None
    case OpenError => if s.net.Opening? then Some(NetFails(s)) else None
    case Read(n) =>
      if s.net.Reading? && s.taken < n <= s.pushed
      then Some(s.(net := Passing(file[s.taken..n]), taken := n)) else None
    case ReadEnd =>
      if s.net.Reading? && StreamEnded(dropEnds, s) then Some(s.(net := Leaving(Some(s.received)))) else None
    case ReadBroken =>
      if s.net.Reading? && (s.agent.Lost? || s.agent.Refused?) then Some(s.(net := Leaving(None))) else None
    case ReadError => if s.net.Reading? then Some(NetFails(s)) else None
    case Pass =>
      if s.net.Passing? && s.channel.CanSend()
      then Some(s.(net := Reading, channel := s.channel.Send(Data(s.net.chunk)),
                   received := s.received + |s.net.chunk|))
      else None
    case PassRefused => if s.net.Passing? && !s.channel.rxAlive then Some(s.(net := Leaving(None))) else None
    case CloseReceiverSide =>
      if s.net.Leaving? then Some(s.(net := Gone(s.net.received), channel := s.channel.DropSender())) else None
    case _ => None
  }

  /** The local thread. Its writer checks for cancellation before every write; the
      error it then raises is `Interrupted`, on which `write_all` tries again. */
  function LocalStep(s: State, a: Action): Option<State> {
    match a
    case Take =>
      if s.local.Receiving? && s.channel.CanReceive()
      then
        var m := s.channel.queue[0];
        Some(s.(channel := s.channel.Receive(),
                local := if m.Data? then Writing(m.chunk, 0) else Closing,
                writeError := s.writeError || m.Failure?))
      else None
    case TakeEnd => if s.local.Receiving? && s.channel.Ended() then Some(s.(local := Closing)) else None
    case Write(n) =>
      if s.local.Writing? && !s.cancelled && s.local.done < n <= |s.local.chunk|
      then
        Some(s.(written := s.written + s.local.chunk[s.local.done..n],
                local := if n == |s.local.chunk| then Receiving else Writing(s.local.chunk, n),
                total := if n == |s.local.chunk| then s.total + n else s.total))
      else None
    case WriteError =>
      if s.local.Writing? && !s.cancelled then Some(s.(local := Closing, writeError := true, failed := true)) else None
    case Retry => if s.local.Writing? && s.cancelled then Some(s) else None
    case CloseLocal =>
      if s.local.Closing? then Some(s.(local := Joining, channel := s.channel.DropReceiver())) else None
    case Join =>
      if s.local.Joining? && s.net.Gone?
      then Some(s.(local := Returned(if s.net.received.Some? && !s.writeError then Some(s.total) else None))) else None
    case Cancel => if !s.cancelled then Some(s.(cancelled := true)) else None
    case _ => None
  }

  function Next(file: Bytes, dropEnds: bool, s: State, a: Action): Option<State> {
    if AgentStep(file, s, a).Some? then AgentStep(file, s, a)
    else if LocalStep(s, a).Some? then LocalStep(s, a)
    else if s.pushed <= |file| then NetStep(file, dropEnds, s, a)
    else None
  }

  // ---------- The invariant ----------

  function InNet(s: State): Bytes {
    if s.net.Passing? then s.net.chunk else []
  }

  function InLocal(s: State): Bytes
    requires s.local.Writing? ==> s.local.done <= |s.local.chunk|
  {
    if s.local.Writing? then s.local.chunk[s.local.done..] else []
  }

  predicate Pumping(s: State) {
    s.local.Receiving? || s.local.Writing?
  }

  predicate Control(file: Bytes, s: State) {
    && s.taken <= s.pushed <= |file|
    && |s.channel.queue| <= PIPELINE_DEPTH
    && AllData(s.channel.queue)
    && (s.channel.txAlive <==> !s.net.Gone?)
    && (s.channel.rxAlive <==> Pumping(s) || s.local.Closing?)
    && (s.local.Writing? ==> s.local.done < |s.local.chunk|)
    && (s.net.Passing? ==> s.net.chunk != [])
    && (s.local.Returned? ==> s.net.Gone?)
    && (s.agent.Finished? ==> s.pushed == |file|)
    && (Pumping(s) ==> !s.writeError)
  }

  /** Every byte taken from the stream is written, or on its way there in order. */
  predicate NothingSkipped(file: Bytes, s: State)
    requires Control(file, s)
  {
    s.written + InLocal(s) + Queued(s.channel.queue) + InNet(s) == file[..s.taken]
  }

  predicate Counted(s: State) {
    s.total == |s.written| - if s.local.Writing? then s.local.done else 0
  }

  /** The network thread saw the end of the stream. */
  predicate SawEnd(s: State) {
    (s.net.Leaving? || s.net.Gone?) && s.net.received.Some?
  }

  predicate Inv(file: Bytes, dropEnds: bool, s: State) {
    && Control(file, s)
    && s.written <= file[..s.taken]
    && (Pumping(s) ==> NothingSkipped(file, s) && (s.net.Leaving? || s.net.Gone? || s.received == s.taken - |InNet(s)|))
    && (!s.writeError ==> Counted(s))
    && (SawEnd(s) ==> s.taken == s.pushed && (s.agent.Finished? || (dropEnds && s.agent.Lost?)))
    && (SawEnd(s) && !s.writeError ==> s.net.received.value == s.taken)
    && (!Pumping(s) && !s.writeError ==> s.net.Gone? && s.written == file[..s.taken])
    && ((s.net.Leaving? || s.net.Gone?) && s.net.received.None? ==> s.failed)
    && (s.writeError || s.agent.Lost? || s.agent.Refused? ==> s.failed)
    && (s.local.Returned? ==> (s.local.result.Some? <==> s.net.received.Some? && !s.writeError))
    && (s.local.Returned? && s.local.result.Some? ==> s.local.result.value == s.total)
  }

  lemma StartHoldsInvariant(file: Bytes, dropEnds: bool)
    ensures Inv(file, dropEnds, Start())
  {
  }

  lemma AgentStepKeeps(file: Bytes, dropEnds: bool, s: State, a: Action)
    requires Inv(file, dropEnds, s) && AgentStep(file, s, a).Some?
    ensures Inv(file, dropEnds, AgentStep(file, s, a).value)
  {
    hide Queued;
  }

  lemma ReadKeeps(file: Bytes, dropEnds: bool, s: State, n: nat)
    requires Inv(file, dropEnds, s) && s.net.Reading? && s.taken < n <= s.pushed
    ensures Inv(file, dropEnds, s.(net := Passing(file[s.taken..n]), taken := n))
  {
    hide Queued;
    assert file[..n] == file[..s.taken] + file[s.taken..n];
  }

  lemma PassKeeps(file: Bytes, dropEnds: bool, s: State)
    requires Inv(file, dropEnds, s) && s.net.Passing? && s.channel.CanSend()
    ensures Inv(file, dropEnds,
                s.(net := Reading, channel := s.channel.Send(Data(s.net.chunk)),
                   received := s.received + |s.net.chunk|))
  {
    QueuedOneMore(s.channel.queue, Data(s.net.chunk));
    AppendBytes(s.written + InLocal(s), Queued(s.channel.queue), s.net.chunk);
  }

  /** The steps of the network thread that move no content. */
  lemma NetMovesOn(file: Bytes, dropEnds: bool, s: State, a: Action)
    requires Inv(file, dropEnds, s) && NetStep(file, dropEnds, s, a).Some? && !a.Read? && !a.Pass?
    ensures Inv(file, dropEnds, NetStep(file, dropEnds, s, a).value)
  {
    hide Queued;
  }

  lemma NetStepKeeps(file: Bytes, dropEnds: bool, s: State, a: Action)
    requires Inv(file, dropEnds, s) && NetStep(file, dropEnds, s, a).Some?
    ensures Inv(file, dropEnds, NetStep(file, dropEnds, s, a).value)
  {
    hide Inv, NothingSkipped;
    match a
    case Read(n) => ReadKeeps(file, dropEnds, s, n);
    case Pass => PassKeeps(file, dropEnds, s);
    case _ => NetMovesOn(file, dropEnds, s, a);
  }

  lemma TakeKeeps(file: Bytes, dropEnds: bool, s: State)
    requires Inv(file, dropEnds, s) && LocalStep(s, Take).Some?
    ensures Inv(file, dropEnds, LocalStep(s, Take).value)
  {
    var m, rest := s.channel.queue[0], s.channel.queue[1..];
    AppendBytes(s.written, m.chunk, Queued(rest));
    assert m.chunk[0..] == m.chunk;
  }

  lemma WriteKeeps(file: Bytes, dropEnds: bool, s: State, n: nat)
    requires Inv(file, dropEnds, s) && LocalStep(s, Write(n)).Some?
    ensures Inv(file, dropEnds, LocalStep(s, Write(n)).value)
  {
    var c, done := s.local.chunk, s.local.done;
    assert c[done..] == c[done..n] + c[n..];
    AppendBytes(s.written, c[done..n], c[n..]);
  }

  lemma LocalStepKeeps(file: Bytes, dropEnds: bool, s: State, a: Action)
    requires Inv(file, dropEnds, s) && LocalStep(s, a).Some?
    ensures Inv(file, dropEnds, LocalStep(s, a).value)
  {
    match a
    case Take => TakeKeeps(file, dropEnds, s);
    case Write(n) => WriteKeeps(file, dropEnds, s, n);
    case _ =>
  }

  lemma StepKeepsInvariant(file: Bytes, dropEnds: bool, s: State, a: Action)
    requires Inv(file, dropEnds, s) && Next(file, dropEnds, s, a).Some?
    ensures Inv(file, dropEnds, Next(file, dropEnds, s, a).value)
  {
    hide Inv;
    if AgentStep(file, s, a).Some? {
      AgentStepKeeps(file, dropEnds, s, a);
    } else if LocalStep(s, a).Some? {
      LocalStepKeeps(file, dropEnds, s, a);
    } else {
      NetStepKeeps(file, dropEnds, s, a);
    }
  }

  // ---------- Runs ----------

  predicate Run(file: Bytes, dropEnds: bool, s: State, actions: seq<Action>, t: State)
    decreases |actions|
  {
    if actions == [] then s == t
    else
      && Next(file, dropEnds, s, actions[0]).Some?
      && Run(file, dropEnds, Next(file, dropEnds, s, actions[0]).value, actions[1..], t)
  }

  lemma {:induction false} RunKeepsInvariant(file: Bytes, dropEnds: bool, s: State, actions: seq<Action>, t: State)
    requires Inv(file, dropEnds, s) && Run(file, dropEnds, s, actions, t)
    ensures Inv(file, dropEnds, t)
    decreases |actions|
  {
    hide Inv;
    if actions != [] {
      StepKeepsInvariant(file, dropEnds, s, actions[0]);
      RunKeepsInvariant(file, dropEnds, Next(file, dropEnds, s, actions[0]).value, actions[1..], t);
    }
  }

  /** No silent truncation: in every run, a download that returns success reports
      the number of bytes written, which is the number received over the network,
      and the local file is the whole file, given that the end of the stream is
      only seen after `finish()`. In every state of every run the local file is a
      prefix of the file. */
  lemma NoSilentTruncation(file: Bytes, dropEnds: bool, actions: seq<Action>, t: State)
    requires Run(file, dropEnds, Start(), actions, t)
    ensures t.written <= file && |t.channel.queue| <= 4
    ensures t.local.Returned? && t.local.result.Some? ==>
              && t.net == Gone(Some(|t.written|)) && t.local.result.value == |t.written|
              && (!dropEnds ==> t.written == file)
    ensures t.local == Returned(None) ==> t.failed
  {
    StartHoldsInvariant(file, dropEnds);
    RunKeepsInvariant(file, dropEnds, Start(), actions, t);
    assert file[..|file|] == file;
  }

  // ---------- The retry loop ----------

  /** `write_all` met a cancelled writer. */
  predicate Retrying(s: State) {
    s.cancelled && s.local.Writing?
  }

  /** A cancelled `write_all` never returns: every later state of every run is
      still in the same call, with the same bytes written. */
  lemma {:induction false} RetriesForever(file: Bytes, dropEnds: bool, s: State, actions: seq<Action>, t: State)
    requires Retrying(s) && Run(file, dropEnds, s, actions, t)
    ensures Retrying(t) && t.local == s.local && t.written == s.written && !Final(t)
    decreases |actions|
  {
    if actions != [] {
      RetriesForever(file, dropEnds, Next(file, dropEnds, s, actions[0]).value, actions[1..], t);
    }
  }

  /** A run that returns never retried. */
  lemma {:induction false} ReturnedNeverRetried(file: Bytes, dropEnds: bool, s: State, actions: seq<Action>, t: State)
    requires Run(file, dropEnds, s, actions, t) && Final(t)
    ensures Retry !in actions
    decreases |actions|
  {
    if actions != [] {
      var next := Next(file, dropEnds, s, actions[0]).value;
      if actions[0] == Retry {
        RetriesForever(file, dropEnds, next, actions[1..], t);
      }
      ReturnedNeverRetried(file, dropEnds, next, actions[1..], t);
    }
  }

  // ---------- Progress ----------

  predicate IsFault(a: Action) {
    a.AgentOpenError? || a.AgentLost? || a.OpenError? || a.ReadError? || a.WriteError?
  }

  /** Nothing but a failing call makes a run fail. */
  lemma OnlyFaultsFail(file: Bytes, dropEnds: bool, s: State, a: Action)
    requires Next(file, dropEnds, s, a).Some? && !IsFault(a)
    ensures Next(file, dropEnds, s, a).value.failed == s.failed
  {
  }

  lemma {:induction false} CleanRunHasNotFailed(file: Bytes, dropEnds: bool, s: State, actions: seq<Action>, t: State)
    requires Run(file, dropEnds, s, actions, t) && !s.failed
    requires forall i :: 0 <= i < |actions| ==> !IsFault(actions[i])
    ensures !t.failed
    decreases |actions|
  {
    hide Next;
    if actions != [] {
      OnlyFaultsFail(file, dropEnds, s, actions[0]);
      CleanRunHasNotFailed(file, dropEnds, Next(file, dropEnds, s, actions[0]).value, actions[1..], t);
    }
  }

  /** A download none of whose calls fails returns success once it returns: the number
      of bytes of the whole file, which is what the local file holds. */
  lemma CleanDownloadSucceeds(file: Bytes, dropEnds: bool, actions: seq<Action>, t: State)
    requires Run(file, dropEnds, Start(), actions, t) && Final(t)
    requires forall i :: 0 <= i < |actions| ==> !IsFault(actions[i])
    ensures t.local == Returned(Some(|file|)) && t.written == file
  {
    CleanRunHasNotFailed(file, dropEnds, Start(), actions, t);
    NoSilentTruncation(file, dropEnds, actions, t);
    OnlyLossTruncates(file, dropEnds, actions, t);
  }

  /** A step of some thread that neither fails nor retries. */
  predicate CanAct(file: Bytes, dropEnds: bool, s: State, a: Action) {
    Next(file, dropEnds, s, a).Some? && !IsFault(a) && !a.Retry? && !a.Cancel?
  }

  predicate LocalWaits(s: State) {
    || (s.local.Receiving? && s.channel.queue == [] && s.channel.txAlive)
    || (s.local.Joining? && !s.net.Gone?)
  }

  predicate NetWaits(dropEnds: bool, s: State) {
    s.net.Reading? && s.taken == s.pushed && !StreamEnded(dropEnds, s) && !s.agent.Lost? && !s.agent.Refused?
  }

  function LocalChoice(s: State): Action {
    match s.local
    case Receiving => if s.channel.queue != [] then Take else TakeEnd
    case Writing(c, _) => Write(|c|)
    case Closing => CloseLocal
    case _ => Join
  }

  function NetChoice(dropEnds: bool, s: State): Action {
    match s.net
    case Opening => Open
    case Reading =>
      if s.taken < s.pushed then Read(s.pushed) else if StreamEnded(dropEnds, s) then ReadEnd else ReadBroken
    case Passing(_) => if s.channel.rxAlive then Pass else PassRefused
    case _ => CloseReceiverSide
  }

  function AgentChoice(file: Bytes, s: State): Action {
    if s.agent.Starting? then AgentOpen else if s.pushed < |file| then AgentPush(|file|) else AgentFinish
  }

  /** No deadlock: until the return, some thread can take a step that neither
      fails nor retries, unless the writer is caught retrying. */
  lemma NeverStuck(file: Bytes, dropEnds: bool, s: State)
    requires Inv(file, dropEnds, s) && !Final(s) && !Retrying(s)
    ensures exists a :: CanAct(file, dropEnds, s, a)
  {
    if !LocalWaits(s) {
      assert CanAct(file, dropEnds, s, LocalChoice(s));
    } else if NetWaits(dropEnds, s) {
      assert CanAct(file, dropEnds, s, AgentChoice(file, s));
    } else {
      assert CanAct(file, dropEnds, s, NetChoice(dropEnds, s));
    }
  }

  function AgentWeight(a: Agent): nat {
    match a
    case Starting => 2
    case Pushing => 1
    case _ => 0
  }

  function NetWeight(n: Net): nat {
    match n
    case Opening => 12
    case Reading => 5
    case Passing(_) => 11
    case Leaving(_) => 2
    case Gone(_) => 0
  }

  function LocalWeight(l: Local): nat {
    match l
    case Receiving => 5
    case Writing(_, _) => 8
    case Closing => 3
    case Joining => 2
    case Returned(_) => 0
  }

  /** A bound on the steps still to come, retries aside. */
  function Budget(file: Bytes, dropEnds: bool, s: State): nat
    requires Inv(file, dropEnds, s)
  {
    (|file| - s.pushed) + 8 * (|file| - s.taken) + 4 * |s.channel.queue| + (|file| - |s.written|)
    + AgentWeight(s.agent) + NetWeight(s.net) + LocalWeight(s.local) + if s.cancelled then 0 else 1
  }

  lemma NetStepSpends(file: Bytes, dropEnds: bool, s: State, a: Action)
    requires Inv(file, dropEnds, s) && NetStep(file, dropEnds, s, a).Some?
    requires Inv(file, dropEnds, NetStep(file, dropEnds, s, a).value)
    ensures Budget(file, dropEnds, NetStep(file, dropEnds, s, a).value) < Budget(file, dropEnds, s)
  {
  }

  lemma LocalStepSpends(file: Bytes, dropEnds: bool, s: State, a: Action)
    requires Inv(file, dropEnds, s) && LocalStep(s, a).Some? && !a.Retry?
    requires Inv(file, dropEnds, LocalStep(s, a).value)
    ensures Budget(file, dropEnds, LocalStep(s, a).value) < Budget(file, dropEnds, s)
  {
    hide NothingSkipped, Queued, AllData, Counted, SawEnd;
  }

  lemma StepSpendsBudget(file: Bytes, dropEnds: bool, s: State, a: Action)
    requires Inv(file, dropEnds, s) && Next(file, dropEnds, s, a).Some? && !a.Retry?
    ensures Inv(file, dropEnds, Next(file, dropEnds, s, a).value)
    ensures Budget(file, dropEnds, Next(file, dropEnds, s, a).value) < Budget(file, dropEnds, s)
  {
    hide LocalStep, NetStep;
    StepKeepsInvariant(file, dropEnds, s, a);
    if AgentStep(file, s, a).Some? {
    } else if LocalStep(s, a).Some? {
      LocalStepSpends(file, dropEnds, s, a);
    } else {
      NetStepSpends(file, dropEnds, s, a);
    }
  }

  lemma {:induction false} RunIsBounded(file: Bytes, dropEnds: bool, s: State, actions: seq<Action>, t: State)
    requires Inv(file, dropEnds, s) && Run(file, dropEnds, s, actions, t) && Retry !in actions
    ensures Inv(file, dropEnds, t) && |actions| + Budget(file, dropEnds, t) <= Budget(file, dropEnds, s)
    decreases |actions|
  {
    hide Inv, Budget;
    if actions != [] {
      StepSpendsBudget(file, dropEnds, s, actions[0]);
      RunIsBounded(file, dropEnds, Next(file, dropEnds, s, actions[0]).value, actions[1..], t);
    }
  }

  /** A run in which the writer never retries is at most this long, and a run that
      cannot be continued without retrying has returned, if and only if it is not
      caught in the retry loop. */
  lemma DownloadReturns(file: Bytes, dropEnds: bool, actions: seq<Action>, t: State)
    requires Run(file, dropEnds, Start(), actions, t)
    ensures Retry !in actions ==> |actions| <= 10 * |file| + 20
    ensures (forall a :: Next(file, dropEnds, t, a).Some? ==> a == Retry || a == Cancel) ==>
              (Final(t) <==> !Retrying(t))
    ensures Final(t) ==> Retry !in actions
  {
    StartHoldsInvariant(file, dropEnds);
    RunKeepsInvariant(file, dropEnds, Start(), actions, t);
    if Retry !in actions {
      RunIsBounded(file, dropEnds, Start(), actions, t);
    }
    if !Final(t) && !Retrying(t) {
      NeverStuck(file, dropEnds, t);
    }
    if Final(t) {
      ReturnedNeverRetried(file, dropEnds, Start(), actions, t);
    }
  }

  // ---------- Success is always within reach ----------

  /** Until the user cancels, the threads can go on to the return without a failure. */
  lemma {:induction false} CleanFinish(file: Bytes, dropEnds: bool, s: State) returns (actions: seq<Action>, t: State)
    requires Inv(file, dropEnds, s) && !s.cancelled
    ensures Run(file, dropEnds, s, actions, t) && Final(t)
    ensures forall i :: 0 <= i < |actions| ==> !IsFault(actions[i])
    decreases Budget(file, dropEnds, s)
  {
    hide Inv, Budget, AgentStep, LocalStep, NetStep;
    if Final(s) {
      return [], s;
    }
    NeverStuck(file, dropEnds, s);
    var a :| CanAct(file, dropEnds, s, a);
    var next := Next(file, dropEnds, s, a).value;
    StepSpendsBudget(file, dropEnds, s, a);
    OnlyCancelCancels(file, dropEnds, s, a);
    var rest;
    rest, t := CleanFinish(file, dropEnds, next);
    actions := [a] + rest;
  }

  lemma OnlyCancelCancels(file: Bytes, dropEnds: bool, s: State, a: Action)
    requires Next(file, dropEnds, s, a).Some? && !a.Cancel?
    ensures Next(file, dropEnds, s, a).value.cancelled == s.cancelled
  {
  }

  lemma {:induction false} NotYetCancelled(file: Bytes, dropEnds: bool, s: State, actions: seq<Action>, t: State)
    requires Run(file, dropEnds, s, actions, t) && !s.cancelled && Cancel !in actions
    ensures !t.cancelled
    decreases |actions|
  {
    hide Next;
    if actions != [] {
      OnlyCancelCancels(file, dropEnds, s, actions[0]);
      NotYetCancelled(file, dropEnds, Next(file, dropEnds, s, actions[0]).value, actions[1..], t);
    }
  }

  /** A download can always succeed: whatever the threads have done so far, if no call has
      failed and nobody has cancelled, they can go on to a success with the whole file. */
  lemma SuccessIsReachable(file: Bytes, dropEnds: bool, done: seq<Action>, s: State)
    returns (rest: seq<Action>, t: State)
    requires Run(file, dropEnds, Start(), done, s) && Cancel !in done
    requires forall i :: 0 <= i < |done| ==> !IsFault(done[i])
    ensures Run(file, dropEnds, s, rest, t) && t.local == Returned(Some(|file|)) && t.written == file
  {
    hide Inv, Next;
    StartHoldsInvariant(file, dropEnds);
    RunKeepsInvariant(file, dropEnds, Start(), done, s);
    NotYetCancelled(file, dropEnds, Start(), done, s);
    rest, t := CleanFinish(file, dropEnds, s);
    RunJoin(file, dropEnds, Start(), done, s, rest, t);
    CleanDownloadSucceeds(file, dropEnds, done + rest, t);
  }

  // ---------- What the assumption on the end of the stream is for ----------

  lemma {:induction false} OneMoreStep(file: Bytes, dropEnds: bool, s: State, actions: seq<Action>, t: State, a: Action)
    requires Run(file, dropEnds, s, actions, t) && Next(file, dropEnds, t, a).Some?
    ensures Run(file, dropEnds, s, actions + [a], Next(file, dropEnds, t, a).value)
    decreases |actions|
  {
    hide Next;
    if actions == [] {
      assert actions + [a] == [a];
    } else {
      OneMoreStep(file, dropEnds, Next(file, dropEnds, s, actions[0]).value, actions[1..], t, a);
      assert (actions + [a])[0] == actions[0] && (actions + [a])[1..] == actions[1..] + [a];
    }
  }

  lemma {:induction false} RunOf(file: Bytes, dropEnds: bool, s: State, actions: seq<Action>, done: nat,
                                 states: seq<State>)
    requires |states| == |actions| + 1 && states[0] == s && done <= |actions|
    requires forall i :: 0 <= i < |actions| ==> Next(file, dropEnds, states[i], actions[i]) == Some(states[i + 1])
    ensures Run(file, dropEnds, s, actions[..done], states[done])
  {
    hide Next;
    if done > 0 {
      RunOf(file, dropEnds, s, actions, done - 1, states);
      assert Next(file, dropEnds, states[done - 1], actions[done - 1]) == Some(states[done]);
      OneMoreStep(file, dropEnds, s, actions[..done - 1], states[done - 1], actions[done - 1]);
      assert actions[..done] == actions[..done - 1] + [actions[done - 1]];
    }
  }

  /** The agent pushes k bytes and is lost; the network thread takes that for the end. */
  function Cut(file: Bytes, k: nat): State
    requires k <= |file|
  {
    State(Lost, k, Gone(Some(k)), k, k, Channel([Data(file[..k])], false, true), Receiving, [], 0, false, false, true)
  }

  lemma CutShort(file: Bytes, k: nat) returns (actions: seq<Action>)
    requires 0 < k < |file|
    ensures Run(file, true, Start(), actions, Cut(file, k))
  {
    assert file[0..k] == file[..k];
    var s0 := Start();
    actions := [Open, AgentOpen, AgentPush(k), Read(k), AgentLost, Pass, ReadEnd, CloseReceiverSide];
    var s1 := Next(file, true, s0, Open).value;
    var s2 := Next(file, true, s1, AgentOpen).value;
    var s3 := Next(file, true, s2, AgentPush(k)).value;
    var s4 := Next(file, true, s3, Read(k)).value;
    var s5 := Next(file, true, s4, AgentLost).value;
    var s6 := Next(file, true, s5, Pass).value;
    var s7 := Next(file, true, s6, ReadEnd).value;
    assert Next(file, true, s7, CloseReceiverSide).value == Cut(file, k) by {
      assert [] + [Data(file[..k])] == [Data(file[..k])];
    }
    RunOf(file, true, s0, actions, |actions|, [s0, s1, s2, s3, s4, s5, s6, s7, Cut(file, k)]);
    assert actions[..|actions|] == actions;
  }

  lemma RunJoin(file: Bytes, dropEnds: bool, s: State, a: seq<Action>, t: State, b: seq<Action>, u: State)
    requires Run(file, dropEnds, s, a, t) && Run(file, dropEnds, t, b, u)
    ensures Run(file, dropEnds, s, a + b, u)
    decreases |a|
  {
    hide Next;
    if a == [] {
      assert a + b == b;
    } else {
      RunJoin(file, dropEnds, Next(file, dropEnds, s, a[0]).value, a[1..], t, b, u);
      assert (a + b)[0] == a[0] && (a + b)[1..] == a[1..] + b;
    }
  }

  /** The local thread writes the k bytes and reports success. */
  lemma CutDelivered(file: Bytes, k: nat) returns (actions: seq<Action>, t: State)
    requires 0 < k < |file|
    ensures Run(file, true, Cut(file, k), actions, t)
    ensures t.local == Returned(Some(k)) && t.written == file[..k]
  {
    hide Next;
    var rest := [TakeEnd, CloseLocal, Join];
    var first := CutWritten(file, k);
    t := WrittenReported(file, k);
    actions := first + rest;
    RunJoin(file, true, Cut(file, k), first, Written(file, k), rest, t);
  }

  /** The k bytes are written. */
  function Written(file: Bytes, k: nat): State
    requires k <= |file|
  {
    State(Lost, k, Gone(Some(k)), k, k, Channel([], false, true), Receiving, file[..k], k, false, false, true)
  }

  lemma CutWritten(file: Bytes, k: nat) returns (actions: seq<Action>)
    requires 0 < k < |file|
    ensures Run(file, true, Cut(file, k), actions, Written(file, k))
  {
    var s0 := Cut(file, k);
    actions := [Take, Write(k)];
    var s1 := Next(file, true, s0, Take).value;
    assert Next(file, true, s1, Write(k)).value == Written(file, k) by {
      assert [Data(file[..k])][1..] == [] && [] + file[..k][0..k] == file[..k];
    }
    RunOf(file, true, s0, actions, 2, [s0, s1, Written(file, k)]);
    assert actions[..2] == actions;
  }

  lemma WrittenReported(file: Bytes, k: nat) returns (t: State)
    requires k < |file|
    ensures Run(file, true, Written(file, k), [TakeEnd, CloseLocal, Join], t)
    ensures t.local == Returned(Some(k)) && t.written == file[..k]
  {
    var s0, actions := Written(file, k), [TakeEnd, CloseLocal, Join];
    var s1 := Next(file, true, s0, TakeEnd).value;
    var s2 := Next(file, true, s1, CloseLocal).value;
    t := Next(file, true, s2, Join).value;
    RunOf(file, true, s0, actions, 3, [s0, s1, s2, t]);
    assert actions[..3] == actions;
  }

  /** The agent is lost before it pushes anything. */
  lemma CutAtOnce(file: Bytes) returns (actions: seq<Action>)
    requires file != []
    ensures Run(file, true, Start(), actions, Written(file, 0))
  {
    var s0 := Start();
    actions := [Open, AgentOpen, AgentLost, ReadEnd, CloseReceiverSide];
    var s1 := Next(file, true, s0, Open).value;
    var s2 := Next(file, true, s1, AgentOpen).value;
    var s3 := Next(file, true, s2, AgentLost).value;
    var s4 := Next(file, true, s3, ReadEnd).value;
    RunOf(file, true, s0, actions, |actions|, [s0, s1, s2, s3, s4, Written(file, 0)]);
    assert actions[..|actions|] == actions;
  }

  /** If losing the agent could pass for the end of the stream, a download might
      report success on any proper prefix of the file. */
  lemma TruncationWithoutFinish(file: Bytes, k: nat) returns (actions: seq<Action>, t: State)
    requires k < |file|
    ensures Run(file, true, Start(), actions, t)
    ensures t.local == Returned(Some(k)) && t.written == file[..k] && t.written != file
  {
    hide Next;
    var after;
    if k == 0 {
      var before := CutAtOnce(file);
      t := WrittenReported(file, 0);
      after := [TakeEnd, CloseLocal, Join];
      actions := before + after;
      RunJoin(file, true, Start(), before, Written(file, 0), after, t);
    } else {
      var before := CutShort(file, k);
      after, t := CutDelivered(file, k);
      actions := before + after;
      RunJoin(file, true, Start(), before, Cut(file, k), after, t);
    }
  }

  /** Exactly when success tells the truth: the file is whole if and only if the agent
      had pushed all of it, also where a lost agent passes for the end of the stream. */
  lemma WholeIffAllPushed(file: Bytes, dropEnds: bool, actions: seq<Action>, t: State)
    requires Run(file, dropEnds, Start(), actions, t) && t.local.Returned? && t.local.result.Some?
    ensures t.pushed <= |file| && t.written == file[..t.pushed] && t.local.result.value == t.pushed
    ensures t.written == file <==> t.pushed == |file|
  {
    StartHoldsInvariant(file, dropEnds);
    RunKeepsInvariant(file, dropEnds, Start(), actions, t);
    assert file[..|file|] == file;
  }

  lemma StepStaysWithUs(file: Bytes, dropEnds: bool, s: State, a: Action)
    requires Next(file, dropEnds, s, a).Some? && s.agent != Lost && a != AgentLost
    ensures Next(file, dropEnds, s, a).value.agent != Lost
  {
  }

  lemma {:induction false} StaysWithUs(file: Bytes, dropEnds: bool, s: State, actions: seq<Action>, t: State)
    requires Run(file, dropEnds, s, actions, t) && s.agent != Lost && AgentLost !in actions
    ensures t.agent != Lost
    decreases |actions|
  {
    hide Next;
    if actions != [] {
      assert actions[0] != AgentLost;
      StepStaysWithUs(file, dropEnds, s, actions[0]);
      StaysWithUs(file, dropEnds, Next(file, dropEnds, s, actions[0]).value, actions[1..], t);
    }
  }

  /** Only losing the agent can truncate: a run without that reports success on the
      whole file, whatever the end of the stream means. */
  lemma OnlyLossTruncates(file: Bytes, dropEnds: bool, actions: seq<Action>, t: State)
    requires Run(file, dropEnds, Start(), actions, t) && AgentLost !in actions
    requires t.local.Returned? && t.local.result.Some?
    ensures t.written == file
  {
    StartHoldsInvariant(file, dropEnds);
    RunKeepsInvariant(file, dropEnds, Start(), actions, t);
    StaysWithUs(file, dropEnds, Start(), actions, t);
    WholeIffAllPushed(file, dropEnds, actions, t);
  }

  // ---------- A run into the retry loop ----------

  /** The first k bytes wait for the local thread. */
  function Handed(file: Bytes, k: nat): State
    requires k <= |file|
  {
    State(Pushing, k, Reading, k, k, Channel([Data(file[..k])], true, true), Receiving, [], 0, false, false, false)
  }

  /** The local thread has taken them, and the user cancels before they are written. */
  function Caught(file: Bytes, k: nat): State
    requires k <= |file|
  {
    State(Pushing, k, Reading, k, k, Channel([], true, true), Writing(file[..k], 0), [], 0, false, true, false)
  }

  lemma FirstBytesHanded(file: Bytes, dropEnds: bool, k: nat) returns (actions: seq<Action>)
    requires 0 < k <= |file|
    ensures Run(file, dropEnds, Start(), actions, Handed(file, k))
    ensures actions == [Open, AgentOpen, AgentPush(k), Read(k), Pass]
  {
    assert file[0..k] == file[..k];
    var s0 := Start();
    actions := [Open, AgentOpen, AgentPush(k), Read(k), Pass];
    var s1 := Next(file, dropEnds, s0, Open).value;
    var s2 := Next(file, dropEnds, s1, AgentOpen).value;
    var s3 := Next(file, dropEnds, s2, AgentPush(k)).value;
    var s4 := Next(file, dropEnds, s3, Read(k)).value;
    assert Next(file, dropEnds, s4, Pass).value == Handed(file, k) by {
      assert [] + [Data(file[..k])] == [Data(file[..k])];
    }
    RunOf(file, dropEnds, s0, actions, |actions|, [s0, s1, s2, s3, s4, Handed(file, k)]);
    assert actions[..|actions|] == actions;
  }

  lemma CancelledInTime(file: Bytes, dropEnds: bool, k: nat)
    requires 0 < k <= |file|
    ensures Run(file, dropEnds, Handed(file, k), [Take, Cancel], Caught(file, k))
  {
    var s0 := Handed(file, k);
    var s1 := Next(file, dropEnds, s0, Take).value;
    assert Next(file, dropEnds, s1, Cancel).value == Caught(file, k) by {
      assert [Data(file[..k])][1..] == [];
    }
    RunOf(file, dropEnds, s0, [Take, Cancel], 2, [s0, s1, Caught(file, k)]);
    assert [Take, Cancel][..2] == [Take, Cancel];
  }

  /** A cancelled download gets caught: for every file with some content there is a
      run, without any failure, from the start into the retry loop. */
  lemma CancelledDownloadIsCaught(file: Bytes, dropEnds: bool, k: nat) returns (actions: seq<Action>)
    requires 0 < k <= |file|
    ensures Run(file, dropEnds, Start(), actions, Caught(file, k)) && Retrying(Caught(file, k))
    ensures actions == [Open, AgentOpen, AgentPush(k), Read(k), Pass, Take, Cancel]
  {
    hide Next;
    var before := FirstBytesHanded(file, dropEnds, k);
    CancelledInTime(file, dropEnds, k);
    actions := before + [Take, Cancel];
    RunJoin(file, dropEnds, Start(), before, Handed(file, k), [Take, Cancel], Caught(file, k));
  }

  /** No continuation of that run ever returns. */
  lemma CaughtNeverReturns(file: Bytes, dropEnds: bool, k: nat, actions: seq<Action>, t: State)
    requires 0 < k <= |file| && Run(file, dropEnds, Caught(file, k), actions, t)
    ensures !Final(t) && t.written == []
  {
    RetriesForever(file, dropEnds, Caught(file, k), actions, t);
  }
}
