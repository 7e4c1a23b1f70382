/** The agent's server and its client, over the two directions of one stream. */
module AgentLink {
  import opened Base
  import opened Channels
  import opened Wire

  /** One direction of a QUIC stream: an ordered byte stream (section 2.2 of RFC 9000).
      The peer sees its end only after `Finish`. */
  class Stream {
    var data: Bytes
    var finished: bool
    /** How much the receiving side has read. */
    var pos: nat

    constructor ()
      ensures data == [] && !finished && pos == 0
    {
      data, finished, pos := [], false, 0;
    }

    predicate Valid()
      reads this
    {
      pos <= |data|
    }

    function Rest(): Bytes
      requires Valid()
      reads this
    {
      data[pos..]
    }

    method WriteAll(b: Bytes)
      requires Valid() && !finished
      modifies this`data
      ensures Valid() && data == old(data) + b
    {
      data := data + b;
    }

    method Finish()
      requires Valid()
      modifies this`finished
      ensures Valid() && finished
    {
      finished := true;
    }

    /** `read`: a piece of what is left, of any length; None at the end of the stream. */
    method Read(max: nat) returns (r: Option<Bytes>)
      requires Valid() && finished && max > 0
      modifies this`pos
      ensures Valid()
      ensures r.None? <==> old(Rest()) == []
      ensures r.None? ==> pos == old(pos)
      ensures r.Some? ==> 0 < |r.value| <= max && old(Rest()) == r.value + Rest()
    {
      if pos == |data| {
        return None;
      }
      var n: nat :| 0 < n <= max && n <= |data| - pos;
      r := Some(data[pos..pos + n]);
      pos := pos + n;
    }

    /** `read_exact`: all n bytes, or an error when the stream ends before them. */
    method ReadExact(n: nat) returns (r: Option<Bytes>)
      requires Valid() && finished
      modifies this`pos
      ensures Valid()
      ensures r.Some? <==> n <= |old(Rest())|
      ensures r.Some? ==> r.value == old(Rest())[..n] && Rest() == old(Rest())[n..]
    {
      if |data| - pos < n {
        pos := |data|;
        return None;
      }
      r := Some(data[pos..pos + n]);
      pos := pos + n;
    }
  }

  // ---------- Framing ----------

  method WriteU8(send: Stream, v: byte)
    requires send.Valid() && !send.finished
    modifies send`data
    ensures send.Valid() && send.data == old(send.data) + [v]
  {
    send.WriteAll([v]);
  }

  method WriteU32(send: Stream, v: nat)
    requires send.Valid() && !send.finished && v < TWO_TO_THE_32
    modifies send`data
    ensures send.Valid() && send.data == old(send.data) + U32Bytes(v)
  {
    send.WriteAll(U32Bytes(v));
  }

  method WriteBytes(send: Stream, b: Bytes)
    requires send.Valid() && !send.finished
    modifies send`data
    ensures send.Valid() && send.data == old(send.data) + Prefixed(b)
  {
    WriteU32(send, |b| % TWO_TO_THE_32);
    send.WriteAll(b);
  }

  method ReadU8(recv: Stream) returns (r: Option<byte>)
    requires recv.Valid() && recv.finished
    modifies recv`pos
    ensures recv.Valid() && Matches(ParseU8(old(recv.Rest())), r, recv.Rest())
  {
    var b := recv.ReadExact(1);
    r := if b.Some? then Some(b.value[0]) else None;
  }

  method ReadU32(recv: Stream) returns (r: Option<nat>)
    requires recv.Valid() && recv.finished
    modifies recv`pos
    ensures recv.Valid() && Matches(ParseU32(old(recv.Rest())), r, recv.Rest())
  {
    var b := recv.ReadExact(4);
    r := if b.Some? then Some(U32Of(b.value)) else None;
  }

  method ReadBytes(recv: Stream) returns (r: Option<Bytes>)
    requires recv.Valid() && recv.finished
    modifies recv`pos
    ensures recv.Valid() && Matches(ParseBytes(old(recv.Rest())), r, recv.Rest())
  {
    var n := ReadU32(recv);
    if n.None? {
      return None;
    }
    r := recv.ReadExact(n.value);
  }

  method ReadString(recv: Stream) returns (r: Option<Bytes>)
    requires recv.Valid() && recv.finished
    modifies recv`pos
    ensures recv.Valid() && Matches(ParseString(old(recv.Rest())), r, recv.Rest())
  {
    r := ReadBytes(recv);
    if r.Some? && !Utf8(r.value) {
      r := None;
    }
  }

  /** A reader returned what the parser yields, and left what the parser left. */
  predicate Matches<T(==)>(parsed: Parsed<T>, r: Option<T>, rest: Bytes) {
    match parsed
    case Malformed => r.None?
    case Parsed(v, left) => r == Some(v) && rest == left
  }

  // ---------- The agent ----------

  /** The files of the agent's machine, as far as requests name them. */
  class AgentFiles {
    var files: map<Bytes, Bytes>
    var modes: map<Bytes, nat>
    const faulty: bool

    constructor (faulty: bool)
      ensures files == map[] && modes == map[] && this.faulty == faulty
    {
      files, modes := map[], map[];
      this.faulty := faulty;
    }
  }

  /** The text of an I/O error. */
  method ErrorText() returns (m: Bytes)
    ensures Utf8(m)
  {
    m := [0x65, 0x72, 0x72];
  }

  /** `write_local_file_streaming`: however the stream is cut into reads, the file
      ends up as exactly what was left on the stream. A failure leaves a prefix. */
  method StoreStream(fs: AgentFiles, path: Bytes, mode: Option<nat>, recv: Stream) returns (ok: bool)
    requires recv.Valid() && recv.finished
    modifies fs, recv`pos
    ensures recv.Valid()
    ensures ok ==> fs.files == old(fs.files)[path := old(recv.Rest())]
    ensures fs.modes == if ok && mode.Some? then old(fs.modes)[path := mode.value] else old(fs.modes)
    ensures !ok ==> fs.faulty
    ensures !ok ==> fs.files == old(fs.files)
                    || exists k ::
                         0 <= k <= |old(recv.Rest())| && fs.files == old(fs.files)[path := old(recv.Rest())[..k]]
  {
    var fault := Fault(fs.faulty);
    if fault {
      return false;
    }
    ghost var content, files := recv.Rest(), fs.files;
    fs.files := fs.files[path := []];
    ghost var done := 0;
    assert content[..0] == [];
    while true
      invariant recv.Valid() && recv.finished && fs.modes == old(fs.modes)
      invariant 0 <= done <= |content| && recv.Rest() == content[done..]
      invariant fs.files == files[path := content[..done]]
      decreases |content| - done
    {
      var piece := recv.Read(CHUNK_SIZE);
      if piece.None? {
        break;
      }
      fault := Fault(fs.faulty);
      if fault {
        return false;
      }
      assert content[..done] + piece.value == content[..done + |piece.value|];
      fs.files := fs.files[path := fs.files[path] + piece.value];
      done := done + |piece.value|;
    }
    assert content[..done] == content;
    fault := Fault(fs.faulty);
    if fault {
      return false;
    }
    if mode.Some? {
      fs.modes := fs.modes[path := mode.value];
    }
    return true;
  }

  method ReadMode(recv: Stream) returns (r: Option<Option<nat>>)
    requires recv.Valid() && recv.finished
    modifies recv`pos
    ensures recv.Valid() && Matches(ParseMode(old(recv.Rest())), r, recv.Rest())
  {
    var flag := ReadU8(recv);
    if flag.None? {
      return None;
    }
    if flag.value == 0 {
      return Some(None);
    }
    var mode := ReadU32(recv);
    return if mode.None? then None else Some(mode);
  }

  method ReadWriteHeader(recv: Stream) returns (r: Option<(Bytes, Option<nat>)>)
    requires recv.Valid() && recv.finished
    modifies recv`pos
    ensures recv.Valid()
    ensures r.None? ==> ParseWrite(old(recv.Rest())).None?
    ensures r.Some? ==> ParseWrite(old(recv.Rest())) == Some(WriteFile(r.value.0, r.value.1, recv.Rest()))
  {
    var path := ReadString(recv);
    if path.None? {
      return None;
    }
    var mode := ReadMode(recv);
    if mode.None? {
      return None;
    }
    return Some((path.value, mode.value));
  }

  method HandleWriteFile(fs: AgentFiles, recv: Stream, send: Stream) returns (ok: bool)
    requires recv != send && recv.Valid() && recv.finished && send.Valid() && send.data == [] && !send.finished
    modifies fs, recv`pos, send`data, send`finished
    ensures recv.Valid() && send.Valid()
    ensures ok ==> Answered(ParseWrite(old(recv.Rest())), old(fs.files), old(fs.modes), fs.files, fs.modes, send.data)
                   && send.finished
    ensures ok && !fs.faulty ==> send.data[0] == 1
    ensures !ok ==> ParseWrite(old(recv.Rest())).None? && fs.files == old(fs.files) && send.data == []
  {
    hide ParseWrite, U32Bytes, ParseString, Utf8;
    var header := ReadWriteHeader(recv);
    if header.None? {
      return false;
    }
    var stored := StoreStream(fs, header.value.0, header.value.1, recv);
    if stored {
      WriteU8(send, 1);
    } else {
      WriteU8(send, 0);
      var message := ErrorText();
      WriteBytes(send, message);
    }
    send.Finish();
    return true;
  }

  function ParseWrite(b: Bytes): Option<Request> {
    match ParseString(b)
    case Malformed => None
    case Parsed(p, rest) =>
      match ParseMode(rest)
      case Malformed => None
      case Parsed(m, content) => Some(WriteFile(p, m, content))
  }

  /** No file but p changed. */
  predicate OnlyFile(before: map<Bytes, Bytes>, after: map<Bytes, Bytes>, p: Bytes) {
    before - {p} == after - {p}
  }

  /** The reply says "done" only if the requested file is stored in full. */
  predicate Answered(request: Option<Request>, before: map<Bytes, Bytes>, modes: map<Bytes, nat>,
                     after: map<Bytes, Bytes>, modesAfter: map<Bytes, nat>, reply: Bytes) {
    && request.Some? && reply != []
    && (!request.value.WriteFile? ==> modesAfter == modes)
    && match request.value
       case Hello(v) => after == before
         && reply == U32Bytes(PROTOCOL_VERSION) + [if v == PROTOCOL_VERSION then 1 else 0]
       case ReadFile(p) =>
         && after == before
         && (reply[0] != 0 ==> p in before && reply == EncodeReply(Done(before[p])))
       case WriteFile(p, mode, content) =>
         && (reply[0] != 0 ==> after == before[p := content] && reply == EncodeReply(Done([])))
         && modesAfter == (if reply[0] != 0 && mode.Some? then modes[p := mode.value] else modes)
         && OnlyFile(before, after, p)
  }

  method HandleReadFile(fs: AgentFiles, recv: Stream, send: Stream) returns (ok: bool)
    requires recv != send && recv.Valid() && recv.finished && send.Valid() && send.data == [] && !send.finished
    modifies recv`pos, send`data, send`finished
    ensures recv.Valid() && send.Valid()
    ensures ok ==> ParseString(old(recv.Rest())).Parsed? && send.finished
                   && Answered(Some(ReadFile(ParseString(old(recv.Rest())).value)), fs.files, fs.modes, fs.files,
                               fs.modes, send.data)
                   && (!fs.faulty && ParseString(old(recv.Rest())).value in fs.files ==> send.data[0] == 1)
    ensures !ok ==> !send.finished && (ParseString(old(recv.Rest())).Malformed? || fs.faulty)
    ensures ParseString(old(recv.Rest())).Malformed? ==> send.data == []
  {
    var path := ReadString(recv);
    if path.None? {
      return false;
    }
    var fault := Fault(fs.faulty);
    if fault || path.value !in fs.files {
      WriteU8(send, 0);
      var message := ErrorText();
      WriteBytes(send, message);
      send.Finish();
      return true;
    }
    WriteU8(send, 1);
    ok := PushFile(fs, fs.files[path.value], send);
    if ok {
      send.Finish();
    }
  }

  /** Streams a file's content, in pieces of any length; a read may fail between them. */
  method PushFile(fs: AgentFiles, content: Bytes, send: Stream) returns (ok: bool)
    requires send.Valid() && !send.finished
    modifies send`data
    ensures send.Valid() && !send.finished
    ensures ok ==> send.data == old(send.data) + content
    ensures !ok ==> fs.faulty
  {
    ghost var header := send.data;
    var pos := 0;
    while pos < |content|
      invariant send.Valid() && !send.finished && 0 <= pos <= |content|
      invariant send.data == header + content[..pos]
    {
      var fault := Fault(fs.faulty);
      if fault {
        return false;
      }
      var n: nat :| 0 < n <= CHUNK_SIZE && n <= |content| - pos;
      assert content[..pos] + content[pos..pos + n] == content[..pos + n];
      AppendBytes(header, content[..pos], content[pos..pos + n]);
      send.WriteAll(content[pos..pos + n]);
      pos := pos + n;
    }
    assert content[..pos] == content;
    return true;
  }

  method HandleHello(fs: AgentFiles, recv: Stream, send: Stream) returns (ok: bool)
    requires recv != send && recv.Valid() && recv.finished && send.Valid() && send.data == [] && !send.finished
    modifies recv`pos, send`data, send`finished
    ensures recv.Valid() && send.Valid()
    ensures ok ==> ParseU32(old(recv.Rest())).Parsed? && send.finished
                   && Answered(Some(Hello(ParseU32(old(recv.Rest())).value)), fs.files, fs.modes, fs.files, fs.modes,
                               send.data)
    ensures !ok ==> ParseU32(old(recv.Rest())).Malformed? && send.data == []
  {
    var version := ReadU32(recv);
    if version.None? {
      return false;
    }
    WriteU32(send, PROTOCOL_VERSION);
    WriteU8(send, if version.value == PROTOCOL_VERSION then 1 else 0);
    send.Finish();
    return true;
  }

  predicate AsksForPresentFile(request: Option<Request>, files: map<Bytes, Bytes>) {
    request.Some? && request.value.ReadFile? && request.value.path in files
  }

  /** `handle_stream`: serves exactly the request the bytes parse to, and drops a
      stream that parses to none. */
  method HandleStream(fs: AgentFiles, recv: Stream, send: Stream) returns (ok: bool)
    requires recv != send && recv.Valid() && recv.finished && send.Valid() && send.data == [] && !send.finished
    modifies fs, recv`pos, send`data, send`finished
    ensures recv.Valid() && send.Valid()
    ensures ok ==>
              send.finished
                && Answered(Parse(old(recv.Rest())), old(fs.files), old(fs.modes), fs.files, fs.modes, send.data)
    ensures !ok ==> fs.files == old(fs.files) && (Parse(old(recv.Rest())).None? || fs.faulty)
    ensures ok && !fs.faulty && Parse(old(recv.Rest())).value.WriteFile? ==> send.data[0] == 1
    ensures !fs.faulty && ok && AsksForPresentFile(Parse(old(recv.Rest())), fs.files) ==> send.data[0] == 1
    ensures old(recv.Rest()) == [] || old(recv.Rest())[0] > 2 || NamesNoText(old(recv.Rest())) ==>
              !ok && send.data == [] && fs.files == old(fs.files)
    ensures !fs.faulty ==>
              ServesByteByByte(old(recv.Rest()), old(fs.files), old(fs.modes), ok, fs.files, fs.modes, send.data)
  {
    ghost var asked := recv.Rest();
    ok := Dispatch(fs, recv, send);
    if NamesNoText(asked) {
      NoTextIsRefused(asked);
    }
    if !fs.faulty {
      hide Parse, Answered;
      ServedByteByByte(asked, old(fs.files), old(fs.modes), ok, fs.files, fs.modes, send.data);
    }
  }

  /** What the agent does with the bytes of a request, when no call of its own fails:
      a write stores the content and the mode, a read sends the content back, and a
      greeting is answered with version 2. */
  ghost predicate ServesByteByByte(asked: Bytes, before: map<Bytes, Bytes>, modes: map<Bytes, nat>, ok: bool,
                                   after: map<Bytes, Bytes>, modesAfter: map<Bytes, nat>, reply: Bytes) {
    && (forall path, mode, content :: IsText(path) && IsWrite(asked, path, mode, content) ==>
          && ok && after == before[path := content] && reply == [1]
          && modesAfter == if mode.Some? then modes[path := mode.value] else modes)
    && (forall path :: IsText(path) && IsRead(asked, path) ==>
          && ok && after == before && modesAfter == modes
          && if path in before then reply == [1] + before[path] else reply != [] && reply[0] == 0)
    && (forall v :: IsHello(asked, v) ==>
          && ok && after == before && modesAfter == modes
          && reply == [2, 0, 0, 0, if v == 2 then 1 else 0])
  }

  lemma ServedByteByByte(asked: Bytes, before: map<Bytes, Bytes>, modes: map<Bytes, nat>, ok: bool,
                         after: map<Bytes, Bytes>, modesAfter: map<Bytes, nat>, reply: Bytes)
    requires ok ==> Answered(Parse(asked), before, modes, after, modesAfter, reply)
    requires !ok ==> Parse(asked).None?
    requires ok && Parse(asked).value.WriteFile? ==> reply[0] == 1
    requires ok && AsksForPresentFile(Parse(asked), before) ==> reply[0] == 1
    ensures ServesByteByByte(asked, before, modes, ok, after, modesAfter, reply)
  {
    hide Parse, IsText, IsWrite, IsRead, IsHello;
    forall path, mode, content | IsText(path) && IsWrite(asked, path, mode, content)
      ensures ok && after == before[path := content] && reply == [1]
      ensures modesAfter == if mode.Some? then modes[path := mode.value] else modes
    {
      RequestsByteByByte(asked, WriteFile(path, mode, content));
    }
    forall path | IsText(path) && IsRead(asked, path)
      ensures ok && after == before && modesAfter == modes
      ensures if path in before then reply == [1] + before[path] else reply != [] && reply[0] == 0
    {
      RequestsByteByByte(asked, ReadFile(path));
    }
    forall v | IsHello(asked, v)
      ensures ok && after == before && modesAfter == modes
      ensures reply == [2, 0, 0, 0, if v == 2 then 1 else 0]
    {
      RequestsByteByByte(asked, Hello(v));
    }
  }

  method Dispatch(fs: AgentFiles, recv: Stream, send: Stream) returns (ok: bool)
    requires recv != send && recv.Valid() && recv.finished && send.Valid() && send.data == [] && !send.finished
    modifies fs, recv`pos, send`data, send`finished
    ensures recv.Valid() && send.Valid()
    ensures ok ==>
              send.finished
                && Answered(Parse(old(recv.Rest())), old(fs.files), old(fs.modes), fs.files, fs.modes, send.data)
    ensures !ok ==> fs.files == old(fs.files) && (Parse(old(recv.Rest())).None? || fs.faulty)
    ensures Parse(old(recv.Rest())).None? ==> !ok && send.data == []
    ensures ok && !fs.faulty && Parse(old(recv.Rest())).value.WriteFile? ==> send.data[0] == 1
    ensures !fs.faulty && ok && AsksForPresentFile(Parse(old(recv.Rest())), fs.files) ==> send.data[0] == 1
  {
    var op := ReadU8(recv);
    if op.None? {
      return false;
    }
    if op.value == OP_HELLO {
      ok := HandleHello(fs, recv, send);
    } else if op.value == OP_READ_FILE {
      ok := HandleReadFile(fs, recv, send);
    } else if op.value == OP_WRITE_FILE {
      ok := HandleWriteFile(fs, recv, send);
    } else {
      ok := false;
    }
  }

  // ---------- The client ----------

  /** Sends a write request, pulling the content chunk by chunk. */
  method SendWriteRequest(send: Stream, path: Bytes, mode: Option<nat>, chunks: seq<Bytes>) returns (total: nat)
    requires send.Valid() && send.data == [] && !send.finished
    requires IsText(path) && (mode.Some? ==> mode.value < TWO_TO_THE_32)
    modifies send`data, send`finished
    ensures send.Valid() && send.finished && Utf8(path)
    ensures send.data == Encode(WriteFile(path, mode, Flat(chunks))) && total == |Flat(chunks)|
    ensures |path| < TWO_TO_THE_32 ==> IsWrite(send.data, path, mode, Flat(chunks))
  {
    hide IsText, IsWrite, Utf8, U32Bytes;
    Utf8IsText(path);
    if |path| < TWO_TO_THE_32 {
      WrittenByteByByte(path, mode, Flat(chunks));
    }
    SendWriteHeader(send, path, mode);
    total := SendContent(send, chunks);
    send.Finish();
  }

  method SendWriteHeader(send: Stream, path: Bytes, mode: Option<nat>)
    requires send.Valid() && send.data == [] && !send.finished
    requires mode.Some? ==> mode.value < TWO_TO_THE_32
    modifies send`data
    ensures send.Valid() && send.data == [OP_WRITE_FILE] + Prefixed(path) + ModeBytes(mode)
  {
    WriteU8(send, OP_WRITE_FILE);
    WriteBytes(send, path);
    if mode.Some? {
      WriteU8(send, 1);
      WriteU32(send, mode.value);
      AppendBytes([OP_WRITE_FILE] + Prefixed(path), [1], U32Bytes(mode.value));
    } else {
      WriteU8(send, 0);
    }
  }

  method SendContent(send: Stream, chunks: seq<Bytes>) returns (total: nat)
    requires send.Valid() && !send.finished
    modifies send`data
    ensures send.Valid() && send.data == old(send.data) + Flat(chunks) && total == |Flat(chunks)|
  {
    ghost var header := send.data;
    assert chunks[..0] == [];
    total := 0;
    for i := 0 to |chunks|
      invariant send.Valid()
      invariant send.data == header + Flat(chunks[..i]) && total == |Flat(chunks[..i])|
    {
      FlatOneMore(chunks, i);
      AppendBytes(header, Flat(chunks[..i]), chunks[i]);
      send.WriteAll(chunks[i]);
      total := total + |chunks[i]|;
    }
    assert chunks[..|chunks|] == chunks;
  }

  method SendReadRequest(send: Stream, path: Bytes)
    requires send.Valid() && send.data == [] && !send.finished && IsText(path)
    modifies send`data, send`finished
    ensures send.Valid() && send.finished && Utf8(path) && send.data == Encode(ReadFile(path))
    ensures |path| < TWO_TO_THE_32 ==> IsRead(send.data, path)
  {
    hide IsText, IsRead, Utf8, U32Bytes, Prefixed, IsHello, IsWrite;
    Utf8IsText(path);
    if |path| < TWO_TO_THE_32 {
      EncodedByteByByte(ReadFile(path));
    }
    WriteU8(send, OP_READ_FILE);
    WriteBytes(send, path);
    send.Finish();
  }

  /** Reads a reply to its end, in pieces of any length. */
  method ReceiveContent(recv: Stream) returns (r: Option<Bytes>)
    requires recv.Valid() && recv.finished
    modifies recv`pos
    ensures recv.Valid() && r == ParseReply(old(recv.Rest()))
    ensures var b := old(recv.Rest()); r == if b == [] || b[0] == 0 then None else Some(b[1..])
  {
    var ok := ReadU8(recv);
    if ok.None? || ok.value == 0 {
      return None;
    }
    ghost var all := recv.Rest();
    var content := [];
    while true
      invariant recv.Valid() && recv.finished && all == content + recv.Rest()
      decreases |recv.Rest()|
    {
      hide ParseReply;
      var piece := recv.Read(CHUNK_SIZE);
      if piece.None? {
        break;
      }
      AppendBytes(content, piece.value, recv.Rest());
      content := content + piece.value;
    }
    assert content + [] == content;
    r := Some(content);
  }

  /** `write_file` against the agent. For every path whose length fits the prefix,
      success means the file holds the content, for every cut of the content into
      chunks and of the stream into reads. */
  method RemoteWrite(fs: AgentFiles, path: Bytes, mode: Option<nat>, chunks: seq<Bytes>) returns (ok: bool)
    requires IsText(path) && (mode.Some? ==> mode.value < TWO_TO_THE_32)
    modifies fs
    ensures ok && |path| < TWO_TO_THE_32 ==>
              && fs.files == old(fs.files)[path := Flat(chunks)]
              && fs.modes == if mode.Some? then old(fs.modes)[path := mode.value] else old(fs.modes)
    ensures |path| < TWO_TO_THE_32 ==> OnlyFile(old(fs.files), fs.files, path) && (!fs.faulty ==> ok)
  {
    var request := new Stream();
    var reply := new Stream();
    var total := SendWriteRequest(request, path, mode, chunks);
    RequestRoundTrip(WriteFile(path, mode, Flat(chunks)));
    var served := HandleStream(fs, request, reply);
    if !served {
      return false;
    }
    var content := ReceiveContent(reply);
    ok := content.Some?;
  }

  /** `read_file` against the agent. */
  method RemoteRead(fs: AgentFiles, path: Bytes) returns (r: Option<Bytes>)
    requires IsText(path)
    modifies fs
    ensures |path| < TWO_TO_THE_32 ==> fs.files == old(fs.files)
    ensures r.Some? && |path| < TWO_TO_THE_32 ==> path in fs.files && r.value == fs.files[path]
    ensures !fs.faulty && |path| < TWO_TO_THE_32 ==> (r.Some? <==> path in fs.files)
  {
    var request := new Stream();
    var reply := new Stream();
    SendReadRequest(request, path);
    RequestRoundTrip(ReadFile(path));
    var served := HandleStream(fs, request, reply);
    if !served {
      return None;
    }
    r := ReceiveContent(reply);
    if r.Some? && |path| < TWO_TO_THE_32 {
      ReplyRoundTrip(Done(fs.files[path]));
    }
  }

  /** What was written is what is read back, whatever the file held before. */
  method WriteThenRead(fs: AgentFiles, path: Bytes, mode: Option<nat>, chunks: seq<Bytes>) returns (r: Option<Bytes>)
    requires IsText(path) && (mode.Some? ==> mode.value < TWO_TO_THE_32)
    modifies fs
    ensures r.Some? && |path| < TWO_TO_THE_32 ==> r.value == Flat(chunks)
    ensures |path| < TWO_TO_THE_32 ==> OnlyFile(old(fs.files), fs.files, path) && (!fs.faulty ==> r.Some?)
  {
    var ok := RemoteWrite(fs, path, mode, chunks);
    r := None;
    if ok {
      r := RemoteRead(fs, path);
    }
  }

  /** `hello` against the agent: its version, and whether it is ours. */
  method RemoteHello(fs: AgentFiles, version: nat) returns (r: Option<(nat, bool)>)
    requires version < TWO_TO_THE_32
    modifies fs
    ensures fs.files == old(fs.files)
    ensures r.Some? ==> r.value == (PROTOCOL_VERSION, version == PROTOCOL_VERSION)
    ensures !fs.faulty ==> r.Some?
  {
    var request := new Stream();
    var reply := new Stream();
    WriteU8(request, OP_HELLO);
    WriteU32(request, version);
    request.Finish();
    RequestRoundTrip(Hello(version));
    var served := HandleStream(fs, request, reply);
    if !served {
      return None;
    }
    U32RoundTrip(PROTOCOL_VERSION);
    var server := ReadU32(reply);
    var compatible := ReadU8(reply);
    r := if server.Some? && compatible.Some? then Some((server.value, compatible.value != 0)) else None;
  }
}
