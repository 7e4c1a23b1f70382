/** The bounded channel between the two threads of a QUIC transfer, with the
    meaning of `std::sync::mpsc::sync_channel`: a send blocks while the queue is
    full, and fails once the receiver is gone; a receive blocks while the queue
    is empty, and fails once it is empty and the sender is gone. */
module Channels {
  import opened Base

  const PIPELINE_DEPTH: nat := 4

  datatype Msg = Data(chunk: Bytes) | Failure

  datatype Channel = Channel(queue: seq<Msg>, txAlive: bool, rxAlive: bool) {
    predicate CanSend() {
      rxAlive && |queue| < PIPELINE_DEPTH
    }

    function Send(m: Msg): Channel {
      this.(queue := queue + [m])
    }

    predicate CanReceive() {
      queue != []
    }

    function Receive(): Channel
      requires CanReceive()
    {
      this.(queue := queue[1..])
    }

    /** The receiver is told that nothing more will come. */
    predicate Ended() {
      queue == [] && !txAlive
    }

    function DropSender(): Channel {
      this.(txAlive := false)
    }

    function DropReceiver(): Channel {
      this.(rxAlive := false, queue := [])
    }
  }

  const OPEN := Channel([], true, true)

  lemma AppendBytes(a: Bytes, b: Bytes, c: Bytes)
    ensures (a + b) + c == a + (b + c)
  {
  }

  /** The chunks, one after the other. */
  function Flat(chunks: seq<Bytes>): Bytes {
    if chunks == [] then [] else chunks[0] + Flat(chunks[1..])
  }

  lemma {:induction false} FlatSplit(a: seq<Bytes>, b: seq<Bytes>)
    ensures Flat(a + b) == Flat(a) + Flat(b)
  {
    if a == [] {
      assert a + b == b;
    } else {
      FlatSplit(a[1..], b);
      assert (a + b)[0] == a[0] && (a + b)[1..] == a[1..] + b;
    }
  }

  lemma FlatOfOne(b: Bytes)
    ensures Flat([b]) == b
  {
  }

  lemma FlatOneMore(chunks: seq<Bytes>, i: nat)
    requires i < |chunks|
    ensures Flat(chunks[..i + 1]) == Flat(chunks[..i]) + chunks[i]
  {
    hide Flat;
    assert chunks[..i + 1] == chunks[..i] + [chunks[i]];
    FlatSplit(chunks[..i], [chunks[i]]);
    FlatOfOne(chunks[i]);
  }

  lemma FlatPrefix(chunks: seq<Bytes>, i: nat)
    requires i <= |chunks|
    ensures Flat(chunks[..i]) <= Flat(chunks)
  {
    assert chunks == chunks[..i] + chunks[i..];
    FlatSplit(chunks[..i], chunks[i..]);
  }

  /** The data waiting in a queue. */
  function Queued(queue: seq<Msg>): Bytes {
    if queue == [] then []
    else (if queue[0].Data? then queue[0].chunk else []) + Queued(queue[1..])
  }

  lemma {:induction false} QueuedOneMore(queue: seq<Msg>, m: Msg)
    ensures Queued(queue + [m]) == Queued(queue) + if m.Data? then m.chunk else []
  {
    if queue == [] {
      assert queue + [m] == [m];
    } else {
      QueuedOneMore(queue[1..], m);
      assert (queue + [m])[1..] == queue[1..] + [m];
    }
  }

  predicate AllData(queue: seq<Msg>) {
    forall i :: 0 <= i < |queue| ==> queue[i].Data? && queue[i].chunk != []
  }

  /** Data only, save that the last message may be the failure notice. */
  predicate DataThenMaybeFailure(queue: seq<Msg>) {
    forall i :: 0 <= i < |queue| ==> if queue[i].Data? then queue[i].chunk != [] else i == |queue| - 1
  }
}
