/** The agent's wire format: little-endian integers, length-prefixed strings, and
    one request and one reply per QUIC stream. */
module Wire {
  import opened Base

  const OP_HELLO: byte := 0
  const OP_READ_FILE: byte := 1
  const OP_WRITE_FILE: byte := 2
  const PROTOCOL_VERSION: nat := 2
  const CHUNK_SIZE: nat := 256 * 1024
  const TWO_TO_THE_32: nat := 0x1_0000_0000

  // ---------- Integers ----------

  function U32Bytes(v: nat): (b: Bytes)
    requires v < TWO_TO_THE_32
    ensures |b| == 4
  {
    [(v % 256) as byte, (v / 256 % 256) as byte, (v / 65536 % 256) as byte, (v / 16777216) as byte]
  }

  function U32Of(b: Bytes): (v: nat)
    requires |b| == 4
    ensures v < TWO_TO_THE_32
  {
    b[0] as nat + 256 * b[1] as nat + 65536 * b[2] as nat + 16777216 * b[3] as nat
  }

  lemma U32RoundTrip(v: nat)
    requires v < TWO_TO_THE_32
    ensures U32Of(U32Bytes(v)) == v
  {
    assert v / 65536 == v / 256 / 256;
    assert v / 16777216 == v / 65536 / 256;
  }

  // ---------- Text ----------

  predicate Tail(b: byte) {
    0x80 <= b <= 0xBF
  }

  /** The length of the first UTF-8 sequence (section 4 of RFC 3629), 0 if ill-formed. */
  function SequenceLength(b: Bytes): (n: nat)
    ensures n <= |b|
  {
    if |b| >= 1 && b[0] <= 0x7F then 1
    else if |b| >= 2 && 0xC2 <= b[0] <= 0xDF && Tail(b[1]) then 2
    else if |b| >= 3 && 0xE0 <= b[0] <= 0xEF && Tail(b[1]) && Tail(b[2])
            && (b[0] == 0xE0 ==> 0xA0 <= b[1]) && (b[0] == 0xED ==> b[1] <= 0x9F) then 3
    else if |b| >= 4 && 0xF0 <= b[0] <= 0xF4 && Tail(b[1]) && Tail(b[2]) && Tail(b[3])
            && (b[0] == 0xF0 ==> 0x90 <= b[1]) && (b[0] == 0xF4 ==> b[1] <= 0x8F) then 4
    else 0
  }

  predicate Utf8(b: Bytes) {
    b == [] || (SequenceLength(b) > 0 && Utf8(b[SequenceLength(b)..]))
  }

  /** A Unicode scalar value: a code point that is no surrogate. */
  predicate IsScalar(c: nat) {
    c < 0xD800 || 0xE000 <= c < 0x110000
  }

  predicate AllScalars(text: seq<nat>) {
    forall i :: 0 <= i < |text| ==> IsScalar(text[i])
  }

  /** The UTF-8 form of one scalar value (section 3 of RFC 3629). */
  function EncodeScalar(c: nat): Bytes
    requires IsScalar(c)
  {
    if c < 0x80 then [c as byte]
    else if c < 0x800 then [(0xC0 + c / 64) as byte, (0x80 + c % 64) as byte]
    else if c < 0x10000 then [(0xE0 + c / 4096) as byte, (0x80 + c / 64 % 64) as byte, (0x80 + c % 64) as byte]
    else [(0xF0 + c / 262144) as byte, (0x80 + c / 4096 % 64) as byte, (0x80 + c / 64 % 64) as byte,
          (0x80 + c % 64) as byte]
  }

  function EncodeText(text: seq<nat>): Bytes
    requires AllScalars(text)
  {
    if text == [] then [] else EncodeScalar(text[0]) + EncodeText(text[1..])
  }

  /** b is the UTF-8 form of some text. */
  ghost predicate IsText(b: Bytes) {
    exists text :: AllScalars(text) && b == EncodeText(text)
  }

  /** A scalar value at the front is recognised, with its length. */
  lemma EncodedIsRecognised(c: nat, rest: Bytes)
    requires IsScalar(c)
    ensures SequenceLength(EncodeScalar(c) + rest) == |EncodeScalar(c)| > 0
  {
    var b := EncodeScalar(c);
    if 0x800 <= c < 0x10000 {
      ThreeByteHead(c);
    } else if c >= 0x10000 {
      FourByteHead(c);
    }
    assert forall i :: 0 <= i < |b| ==> (b + rest)[i] == b[i];
  }

  lemma ThreeByteHead(c: nat)
    requires IsScalar(c) && 0x800 <= c < 0x10000
    ensures 0xE0 <= 0xE0 + c / 4096 <= 0xEF
    ensures c / 4096 == 0 ==> c / 64 % 64 >= 0x20
    ensures c / 4096 == 13 ==> c / 64 % 64 < 0x20
  {
    assert c / 64 == c / 4096 * 64 + c / 64 % 64;
  }

  lemma FourByteHead(c: nat)
    requires 0x10000 <= c < 0x110000
    ensures 0xF0 <= 0xF0 + c / 262144 <= 0xF4
    ensures c / 262144 == 0 ==> c / 4096 % 64 >= 0x10
    ensures c / 262144 == 4 ==> c / 4096 % 64 < 0x10
  {
    assert c / 4096 == c / 262144 * 64 + c / 4096 % 64;
  }

  /** What is recognised is a scalar value. */
  lemma RecognisedIsEncoded(b: Bytes) returns (c: nat)
    requires SequenceLength(b) > 0
    ensures IsScalar(c) && EncodeScalar(c) == b[..SequenceLength(b)]
  {
    var n := SequenceLength(b);
    if n == 1 {
      c := b[0] as nat;
    } else if n == 2 {
      c := TwoBytes(b[..2]);
    } else if n == 3 {
      c := ThreeBytes(b[..3]);
    } else {
      c := FourBytes(b[..4]);
    }
  }

  lemma TwoBytes(b: Bytes) returns (c: nat)
    requires |b| == 2 && SequenceLength(b) == 2
    ensures IsScalar(c) && EncodeScalar(c) == b
  {
    var x, y := b[0] as nat - 0xC0, b[1] as nat - 0x80;
    c := x * 64 + y;
    assert c / 64 == x && c % 64 == y;
  }

  lemma ThreeBytes(b: Bytes) returns (c: nat)
    requires |b| == 3 && SequenceLength(b) == 3
    ensures IsScalar(c) && EncodeScalar(c) == b
  {
    var x, y, z := b[0] as nat - 0xE0, b[1] as nat - 0x80, b[2] as nat - 0x80;
    c := x * 4096 + y * 64 + z;
    assert c / 4096 == x && c / 64 == x * 64 + y && c % 64 == z;
    assert c / 64 % 64 == y;
    assert 0x800 <= c < 0x10000 && IsScalar(c);
  }

  lemma FourBytes(b: Bytes) returns (c: nat)
    requires |b| == 4 && SequenceLength(b) == 4
    ensures IsScalar(c) && EncodeScalar(c) == b
  {
    var x, y, z, w := b[0] as nat - 0xF0, b[1] as nat - 0x80, b[2] as nat - 0x80, b[3] as nat - 0x80;
    c := x * 262144 + y * 4096 + z * 64 + w;
    assert c / 262144 == x && c / 4096 == x * 64 + y && c / 64 == (x * 64 + y) * 64 + z && c % 64 == w;
    assert c / 4096 % 64 == y && c / 64 % 64 == z;
    assert 0x10000 <= c < 0x110000;
  }

  lemma {:induction false} TextIsUtf8(text: seq<nat>)
    requires AllScalars(text)
    ensures Utf8(EncodeText(text))
  {
    hide SequenceLength, EncodeScalar;
    if text != [] {
      var first, rest := EncodeScalar(text[0]), EncodeText(text[1..]);
      EncodedIsRecognised(text[0], rest);
      TextIsUtf8(text[1..]);
      assert (first + rest)[|first|..] == rest;
    }
  }

  lemma {:induction false} Utf8IsSomeText(b: Bytes) returns (text: seq<nat>)
    requires Utf8(b)
    ensures AllScalars(text) && EncodeText(text) == b
    decreases |b|
  {
    hide SequenceLength, EncodeScalar;
    text := [];
    if b != [] {
      var n := SequenceLength(b);
      var c := RecognisedIsEncoded(b);
      var rest := Utf8IsSomeText(b[n..]);
      text := [c] + rest;
      assert text[1..] == rest && b == b[..n] + b[n..];
    }
  }

  /** The agent takes bytes for a string exactly if they are the UTF-8 form of a text. */
  lemma Utf8IsText(b: Bytes)
    ensures Utf8(b) <==> IsText(b)
  {
    if Utf8(b) {
      var text := Utf8IsSomeText(b);
    }
    if IsText(b) {
      var text :| AllScalars(text) && b == EncodeText(text);
      TextIsUtf8(text);
    }
  }

  // ---------- Requests ----------

  datatype Request =
    | Hello(version: nat)
    | ReadFile(path: Bytes)
    | WriteFile(path: Bytes, mode: Option<nat>, content: Bytes)

  /** What a client can ask for: `u32` numbers and UTF-8 paths. */
  predicate Sendable(r: Request) {
    match r
    case Hello(v) => v < TWO_TO_THE_32
    case ReadFile(p) => Utf8(p)
    case WriteFile(p, m, _) => Utf8(p) && (m.Some? ==> m.value < TWO_TO_THE_32)
  }

  /** A length prefix and the bytes; the cast to `u32` drops the high bits of the length. */
  function Prefixed(b: Bytes): Bytes {
    U32Bytes(|b| % TWO_TO_THE_32) + b
  }

  function ModeBytes(mode: Option<nat>): Bytes
    requires mode.Some? ==> mode.value < TWO_TO_THE_32
  {
    if mode.Some? then [1 as byte] + U32Bytes(mode.value) else [0 as byte]
  }

  function Encode(r: Request): Bytes
    requires Sendable(r)
  {
    match r
    case Hello(v) => [OP_HELLO] + U32Bytes(v)
    case ReadFile(p) => [OP_READ_FILE] + Prefixed(p)
    case WriteFile(p, m, content) => [OP_WRITE_FILE] + Prefixed(p) + ModeBytes(m) + content
  }

  // ---------- Parsing ----------

  /** A parsed value and the bytes after it. */
  datatype Parsed<T> = Parsed(value: T, rest: Bytes) | Malformed

  function ParseU8(b: Bytes): Parsed<byte> {
    if |b| < 1 then Malformed else Parsed(b[0], b[1..])
  }

  function ParseU32(b: Bytes): Parsed<nat> {
    if |b| < 4 then Malformed else Parsed(U32Of(b[..4]), b[4..])
  }

  function ParseBytes(b: Bytes): Parsed<Bytes> {
    match ParseU32(b)
    case Malformed => Malformed
    case Parsed(n, rest) => if |rest| < n then Malformed else Parsed(rest[..n], rest[n..])
  }

  function ParseString(b: Bytes): Parsed<Bytes> {
    match ParseBytes(b)
    case Malformed => Malformed
    case Parsed(s, rest) => if Utf8(s) then Parsed(s, rest) else Malformed
  }

  function ParseMode(b: Bytes): Parsed<Option<nat>> {
    match ParseU8(b)
    case Malformed => Malformed
    case Parsed(flag, rest) =>
      if flag == 0 then Parsed(None, rest)
      else
        match ParseU32(rest)
        case Malformed => Malformed
        case Parsed(m, rest') => Parsed(Some(m), rest')
  }

  /** What the agent makes of the bytes on a stream. */
  function Parse(b: Bytes): Option<Request> {
    match ParseU8(b)
    case Malformed => None
    case Parsed(op, rest) =>
      if op == OP_HELLO then
        (match ParseU32(rest) case Malformed => None case Parsed(v, _) => Some(Hello(v)))
      else if op == OP_READ_FILE then
        (match ParseString(rest) case Malformed => None case Parsed(p, _) => Some(ReadFile(p)))
      else if op == OP_WRITE_FILE then
        match ParseString(rest)
        case Malformed => None
        case Parsed(p, rest') =>
          (match ParseMode(rest') case Malformed => None case Parsed(m, content) => Some(WriteFile(p, m, content)))
      else None
  }

  lemma BytesRoundTrip(s: Bytes, rest: Bytes)
    ensures |s| < TWO_TO_THE_32 ==> ParseBytes(Prefixed(s) + rest) == Parsed(s, rest)
    ensures ParseBytes(Prefixed(s) + rest).Parsed? && |ParseBytes(Prefixed(s) + rest).value| == |s| % TWO_TO_THE_32
  {
    hide U32Bytes, U32Of;
    var n := |s| % TWO_TO_THE_32;
    var b := Prefixed(s) + rest;
    U32RoundTrip(n);
    assert b[..4] == U32Bytes(n);
    assert b[4..] == s + rest;
    if |s| < TWO_TO_THE_32 {
      assert (s + rest)[..n] == s && (s + rest)[n..] == rest;
    }
  }

  lemma StringRoundTrip(s: Bytes, rest: Bytes)
    requires Utf8(s)
    ensures |s| < TWO_TO_THE_32 ==> ParseString(Prefixed(s) + rest) == Parsed(s, rest)
    ensures ParseString(Prefixed(s) + rest).Parsed? ==>
              |ParseString(Prefixed(s) + rest).value| == |s| % TWO_TO_THE_32
  {
    hide ParseBytes, Prefixed;
    BytesRoundTrip(s, rest);
  }

  lemma ModeRoundTrip(mode: Option<nat>, rest: Bytes)
    requires mode.Some? ==> mode.value < TWO_TO_THE_32
    ensures ParseMode(ModeBytes(mode) + rest) == Parsed(mode, rest)
  {
    var b := ModeBytes(mode) + rest;
    if mode.Some? {
      U32RoundTrip(mode.value);
      assert b[1..] == U32Bytes(mode.value) + rest;
      assert b[1..][..4] == U32Bytes(mode.value) && b[1..][4..] == rest;
    } else {
      assert b[1..] == rest;
    }
  }

  function PathOf(r: Request): Bytes {
    match r
    case Hello(_) => []
    case ReadFile(p) => p
    case WriteFile(p, _, _) => p
  }

  /** The agent reads back exactly the request a client encoded, with its content,
      if and only if the length of the path fits the prefix. */
  lemma RequestRoundTrip(r: Request)
    requires Sendable(r)
    ensures Parse(Encode(r)) == Some(r) <==> |PathOf(r)| < TWO_TO_THE_32
  {
    var b := Encode(r);
    match r
    case Hello(v) =>
      assert b[1..] == U32Bytes(v) && U32Bytes(v)[..4] == U32Bytes(v);
      U32RoundTrip(v);
    case ReadFile(p) =>
      assert b[1..] == Prefixed(p) + [];
      StringRoundTrip(p, []);
    case WriteFile(p, m, content) =>
      assert b[1..] == Prefixed(p) + (ModeBytes(m) + content);
      StringRoundTrip(p, ModeBytes(m) + content);
      ModeRoundTrip(m, content);
  }

  /** What a length prefix says. */
  predicate Says(b: Bytes, n: nat) {
    |b| == 4 && n == b[0] as nat + 256 * b[1] as nat + 65536 * b[2] as nat + 16777216 * b[3] as nat
  }

  lemma SaysU32(b: Bytes, n: nat)
    requires Says(b, n)
    ensures n < TWO_TO_THE_32 && b == U32Bytes(n)
    ensures b == [(n % 256) as byte, (n / 256 % 256) as byte, (n / 65536 % 256) as byte, (n / 16777216) as byte]
  {
    var b0, b1, b2, b3 := b[0] as nat, b[1] as nat, b[2] as nat, b[3] as nat;
    assert n % 256 == b0 && n / 256 == b1 + 256 * b2 + 65536 * b3;
    assert n / 65536 == b2 + 256 * b3 && n / 16777216 == b3;
    assert n / 256 % 256 == b1 && n / 65536 % 256 == b2;
  }

  lemma U32Says(n: nat)
    requires n < TWO_TO_THE_32
    ensures Says(U32Bytes(n), n)
  {
    U32RoundTrip(n);
  }

  /** The requests byte by byte: an opcode, the length of the path least significant
      byte first, the path in UTF-8, whether there is a mode, the mode, the content. */
  predicate IsHello(b: Bytes, version: nat) {
    |b| >= 5 && b[0] == 0 && Says(b[1..5], version)
  }

  predicate IsRead(b: Bytes, path: Bytes) {
    |b| >= 5 + |path| && b[0] == 1 && Says(b[1..5], |path|) && b[5..5 + |path|] == path
  }

  predicate IsWrite(b: Bytes, path: Bytes, mode: Option<nat>, content: Bytes) {
    var head := 6 + |path|;
    && |b| >= head && b[0] == 2 && Says(b[1..5], |path|) && b[5..head - 1] == path
    && if mode.None? then b[head - 1] == 0 && b[head..] == content
       else |b| >= head + 4 && b[head - 1] != 0 && Says(b[head..head + 4], mode.value) && b[head + 4..] == content
  }

  ghost predicate Means(b: Bytes, r: Request) {
    match r
    case Hello(v) => IsHello(b, v)
    case ReadFile(p) => IsText(p) && IsRead(b, p)
    case WriteFile(p, m, content) => IsText(p) && IsWrite(b, p, m, content)
  }

  /** The agent takes bytes for a request exactly if they are that request byte by
      byte: a path that is no text is refused, and so is any other opcode. */
  lemma RequestsByteByByte(b: Bytes, r: Request)
    ensures Parse(b) == Some(r) <==> Means(b, r)
  {
    hide Utf8, IsText, U32Bytes, U32Of, IsHello, IsRead, IsWrite, Parse;
    match r
    case Hello(v) =>
      HelloByteByByte(b, v);
    case ReadFile(p) =>
      Utf8IsText(p);
      ReadByteByByte(b, p);
    case WriteFile(p, m, content) =>
      Utf8IsText(p);
      WriteByteByByte(b, p, m, content);
  }

  /** A stream names a path that is no text. */
  ghost predicate NamesNoText(b: Bytes) {
    exists path :: !IsText(path) && (IsRead(b, path) || exists m, content :: IsWrite(b, path, m, content))
  }

  lemma NoTextIsRefused(b: Bytes)
    requires NamesNoText(b)
    ensures Parse(b).None?
  {
    hide Utf8, IsText, U32Bytes, U32Of, Parse, Says;
    var path :| !IsText(path) && (IsRead(b, path) || exists m, content :: IsWrite(b, path, m, content));
    if Parse(b).Some? {
      var r := Parse(b).value;
      RequestsByteByByte(b, r);
      SamePath(b[1..5], path, r.path);
    }
  }

  lemma SamePath(prefix: Bytes, path: Bytes, other: Bytes)
    requires Says(prefix, |path|) && Says(prefix, |other|)
    ensures |path| == |other|
  {
  }

  lemma U32OfSays(b: Bytes, n: nat)
    requires |b| == 4
    ensures U32Of(b) == n <==> Says(b, n)
  {
  }

  lemma HelloByteByByte(b: Bytes, version: nat)
    ensures Parse(b) == Some(Hello(version)) <==> IsHello(b, version)
  {
    hide U32Of, Says, ParseString, ParseMode;
    if |b| >= 5 {
      assert b[1..][..4] == b[1..5];
      U32OfSays(b[1..5], version);
    }
  }

  /** A length-prefixed path at the front is taken whole, or refused as no text. */
  lemma PathIsParsed(b: Bytes, path: Bytes, rest: Bytes)
    ensures ParseString(b) == Parsed(path, rest)
            <==> Utf8(path) && |b| == 4 + |path| + |rest| && Says(b[..4], |path|) && b[4..4 + |path|] == path
                 && b[4 + |path|..] == rest
  {
    hide Utf8, U32Of, Says;
    if |b| >= 4 {
      U32OfSays(b[..4], |path|);
      U32OfSays(b[..4], U32Of(b[..4]));
      if |b| >= 4 + |path| {
        assert b[4..][..|path|] == b[4..4 + |path|] && b[4..][|path|..] == b[4 + |path|..];
      }
    }
  }

  lemma ReadByteByByte(b: Bytes, path: Bytes)
    ensures Parse(b) == Some(ReadFile(path)) <==> Utf8(path) && IsRead(b, path)
  {
    hide Utf8, U32Of, ParseString, Says, ParseMode;
    if |b| >= 5 + |path| {
      assert b[1..][..4] == b[1..5] && b[1..][4..4 + |path|] == b[5..5 + |path|];
      PathIsParsed(b[1..], path, b[1..][4 + |path|..]);
    }
    if Parse(b) == Some(ReadFile(path)) {
      PathIsParsed(b[1..], path, ParseString(b[1..]).rest);
    }
  }

  lemma WriteByteByByte(b: Bytes, path: Bytes, mode: Option<nat>, content: Bytes)
    ensures Parse(b) == Some(WriteFile(path, mode, content)) <==> Utf8(path) && IsWrite(b, path, mode, content)
  {
    hide Utf8, U32Of, ParseString, ParseMode, Says;
    var head := 6 + |path|;
    if |b| >= head {
      assert b[1..][..4] == b[1..5] && b[1..][4..4 + |path|] == b[5..head - 1];
      var rest := b[head - 1..];
      assert b[1..][4 + |path|..] == rest && rest[1..] == b[head..];
      assert |b| >= head + 4 ==> rest[1..5] == b[head..head + 4] && rest[5..] == b[head + 4..];
      PathIsParsed(b[1..], path, rest);
      ModeIsParsed(rest, mode, content);
    }
    if Parse(b) == Some(WriteFile(path, mode, content)) {
      var rest := ParseString(b[1..]).rest;
      PathIsParsed(b[1..], path, rest);
      ModeIsParsed(rest, mode, content);
    }
  }

  lemma ModeIsParsed(b: Bytes, mode: Option<nat>, content: Bytes)
    ensures ParseMode(b) == Parsed(mode, content)
            <==> |b| >= 1
                 && if mode.None? then b[0] == 0 && b[1..] == content
                    else |b| >= 5 && b[0] != 0 && Says(b[1..5], mode.value) && b[5..] == content
  {
    hide U32Of, Says;
    if mode.Some? && |b| >= 5 {
      assert b[1..][..4] == b[1..5] && b[1..][4..] == b[5..];
      U32OfSays(b[1..5], mode.value);
    }
  }

  lemma HeaderParts(op: byte, prefix: Bytes, path: Bytes, rest: Bytes)
    requires |prefix| == 4
    ensures var b := [op] + (prefix + path) + rest;
            && |b| == 5 + |path| + |rest| && b[0] == op && b[1..5] == prefix && b[5..5 + |path|] == path
            && b[5 + |path|..] == rest
  {
    var middle := prefix + path;
    var b := [op] + middle + rest;
    assert middle[..4] == prefix && middle[4..] == path;
    assert b[1..5] == middle[..4] && b[5..5 + |path|] == middle[4..];
    assert b[5 + |path|..] == rest;
  }

  lemma ModeParts(b: Bytes, at: nat, flag: byte, mode: Bytes, content: Bytes)
    requires at < |b| && b[at..] == [flag] + mode + content
    ensures |b| == at + 1 + |mode| + |content| && b[at] == flag
    ensures b[at + 1..at + 1 + |mode|] == mode && b[at + 1 + |mode|..] == content
  {
    var rest := b[at..];
    assert rest[1..1 + |mode|] == mode && rest[1 + |mode|..] == content;
    assert b[at + 1..at + 1 + |mode|] == rest[1..1 + |mode|] && b[at + 1 + |mode|..] == rest[1 + |mode|..];
  }

  /** What a client sends for a path whose length fits the prefix: that request byte by
      byte, with 1 before a mode, and nothing after it. */
  lemma EncodedByteByByte(r: Request)
    requires Sendable(r) && |PathOf(r)| < TWO_TO_THE_32
    ensures Means(Encode(r), r)
    ensures match r
            case Hello(_) => |Encode(r)| == 5
            case ReadFile(p) => |Encode(r)| == 5 + |p|
            case WriteFile(p, m, content) => m.Some? ==> Encode(r)[5 + |p|] == 1
  {
    hide U32Bytes, Utf8, Says, IsText, IsWrite;
    match r
    case Hello(v) =>
      U32Says(v);
      assert Encode(r)[1..5] == U32Bytes(v);
    case ReadFile(p) => ReadIsEncoded(p);
    case WriteFile(p, m, content) => WrittenByteByByte(p, m, content);
  }

  lemma ReadIsEncoded(p: Bytes)
    requires |p| < TWO_TO_THE_32 && Utf8(p)
    ensures IsRead(Encode(ReadFile(p)), p) && IsText(p) && |Encode(ReadFile(p))| == 5 + |p|
  {
    hide U32Bytes, Utf8, Says, IsText;
    Utf8IsText(p);
    ReadParts(p);
    U32Says(|p|);
  }

  lemma ReadParts(p: Bytes)
    requires |p| < TWO_TO_THE_32 && Utf8(p)
    ensures var b := Encode(ReadFile(p));
            && |b| == 5 + |p| && b[0] == 1 && b[1..5] == U32Bytes(|p|) && b[5..5 + |p|] == p
  {
    hide U32Bytes, Utf8;
    HeaderParts(OP_READ_FILE, U32Bytes(|p|), p, []);
    assert Prefixed(p) == U32Bytes(|p|) + p;
    assert Encode(ReadFile(p)) + [] == Encode(ReadFile(p));
  }

  lemma WriteParts(p: Bytes, m: Option<nat>, content: Bytes)
    requires |p| < TWO_TO_THE_32 && (m.Some? ==> m.value < TWO_TO_THE_32) && Utf8(p)
    ensures var b := Encode(WriteFile(p, m, content));
            && |b| == 5 + |p| + |ModeBytes(m) + content| && b[0] == 2 && b[1..5] == U32Bytes(|p|)
            && b[5..5 + |p|] == p && b[5 + |p|..] == ModeBytes(m) + content
  {
    hide U32Bytes, Utf8, ModeBytes;
    HeaderParts(OP_WRITE_FILE, U32Bytes(|p|), p, ModeBytes(m) + content);
    assert Prefixed(p) == U32Bytes(|p|) + p;
    var head, mode := [OP_WRITE_FILE] + Prefixed(p), ModeBytes(m);
    Regrouped(head, mode, content);
  }

  lemma Regrouped(a: Bytes, b: Bytes, c: Bytes)
    ensures a + b + c == a + (b + c)
  {
  }

  lemma WrittenByteByByte(p: Bytes, m: Option<nat>, content: Bytes)
    requires |p| < TWO_TO_THE_32 && (m.Some? ==> m.value < TWO_TO_THE_32) && Utf8(p)
    ensures IsWrite(Encode(WriteFile(p, m, content)), p, m, content) && IsText(p)
    ensures m.Some? ==> Encode(WriteFile(p, m, content))[5 + |p|] == 1
  {
    hide U32Bytes, Utf8, Says, IsText, Encode;
    Utf8IsText(p);
    WriteParts(p, m, content);
    U32Says(|p|);
    var b := Encode(WriteFile(p, m, content));
    if m.Some? {
      U32Says(m.value);
      ModeParts(b, 5 + |p|, 1, U32Bytes(m.value), content);
    } else {
      assert [0 as byte] + content == [0] + [] + content;
      ModeParts(b, 5 + |p|, 0, [], content);
    }
  }

  /** One request per stream: no two requests with short paths look the same. */
  lemma EncodingIsInjective(r: Request, r': Request)
    requires Sendable(r) && Sendable(r') && |PathOf(r)| < TWO_TO_THE_32 && |PathOf(r')| < TWO_TO_THE_32
    requires Encode(r) == Encode(r')
    ensures r == r'
  {
    RequestRoundTrip(r);
    RequestRoundTrip(r');
  }

  // ---------- Replies ----------

  datatype Reply = Done(content: Bytes) | Refused(message: Bytes)

  function EncodeReply(r: Reply): Bytes {
    match r
    case Done(content) => [1 as byte] + content
    case Refused(message) => [0 as byte] + Prefixed(message)
  }

  /** What the client makes of a reply; an ill-formed refusal is still a failure. */
  function ParseReply(b: Bytes): Option<Bytes> {
    match ParseU8(b)
    case Malformed => None
    case Parsed(ok, rest) => if ok == 0 then None else Some(rest)
  }

  lemma ReplyRoundTrip(r: Reply)
    ensures ParseReply(EncodeReply(r)) == if r.Done? then Some(r.content) else None
  {
  }

  /** The replies byte by byte: 1 and the content, or 0, the length of the message and
      the message. Any other first byte but 0 is taken for success too. */
  lemma RepliesByteByByte(content: Bytes, message: Bytes, b: Bytes)
    ensures EncodeReply(Done(content)) == [1] + content
    ensures var r := EncodeReply(Refused(message));
            && |r| == 5 + |message| && r[0] == 0 && r[5..] == message
            && (|message| < 0x1_0000_0000 ==> Says(r[1..5], |message|))
    ensures ParseReply(b) == if b == [] || b[0] == 0 then None else Some(b[1..])
  {
    hide U32Bytes, Says;
    var r := EncodeReply(Refused(message));
    U32Says(|message| % TWO_TO_THE_32);
    assert r[1..5] == U32Bytes(|message| % TWO_TO_THE_32) && r[5..] == message;
  }
}
