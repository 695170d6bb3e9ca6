/** ISO 13400-2 packet framing over a byte stream (`protocol/doip.rs`). */
module DoIp {
  import opened Basics

  const DOIP_HEADER_LEN := 8
  const DOIP_MAX_PAYLOAD_LEN: u32 := 16 * 1024 * 1024
  const DOIP_VERSION_DEFAULT: byte := 0x02

  datatype PayloadType =
    | GenericNegativeAck
    | VehicleIdentificationRequest
    | VehicleIdentificationRequestWithEid
    | VehicleIdentificationRequestWithVin
    | VehicleAnnouncement
    | RoutingActivationRequest
    | RoutingActivationResponse
    | AliveCheckRequest
    | AliveCheckResponse
    | EntityStatusRequest
    | EntityStatusResponse
    | DiagnosticPowerModeRequest
    | DiagnosticPowerModeResponse
    | DiagnosticMessage
    | DiagnosticPositiveAck
    | DiagnosticNegativeAck
    | Unknown(code: u16)

  function TypeFromU16(value: u16): PayloadType {
    match value
    case 0x0000 => GenericNegativeAck
    case 0x0001 => VehicleIdentificationRequest
    case 0x0002 => VehicleIdentificationRequestWithEid
    case 0x0003 => VehicleIdentificationRequestWithVin
    case 0x0004 => VehicleAnnouncement
    case 0x0005 => RoutingActivationRequest
    case 0x0006 => RoutingActivationResponse
    case 0x0007 => AliveCheckRequest
    case 0x0008 => AliveCheckResponse
    case 0x4001 => EntityStatusRequest
    case 0x4002 => EntityStatusResponse
    case 0x4003 => DiagnosticPowerModeRequest
    case 0x4004 => DiagnosticPowerModeResponse
    case 0x8001 => DiagnosticMessage
    case 0x8002 => DiagnosticPositiveAck
    case 0x8003 => DiagnosticNegativeAck
    case other => Unknown(other)
  }

  function TypeAsU16(t: PayloadType): u16 {
    match t
    case GenericNegativeAck => 0x0000
    case VehicleIdentificationRequest => 0x0001
    case VehicleIdentificationRequestWithEid => 0x0002
    case VehicleIdentificationRequestWithVin => 0x0003
    case VehicleAnnouncement => 0x0004
    case RoutingActivationRequest => 0x0005
    case RoutingActivationResponse => 0x0006
    case AliveCheckRequest => 0x0007
    case AliveCheckResponse => 0x0008
    case EntityStatusRequest => 0x4001
    case EntityStatusResponse => 0x4002
    case DiagnosticPowerModeRequest => 0x4003
    case DiagnosticPowerModeResponse => 0x4004
    case DiagnosticMessage => 0x8001
    case DiagnosticPositiveAck => 0x8002
    case DiagnosticNegativeAck => 0x8003
    case Unknown(value) => value
  }

  /** Payload types other than `Unknown` values that have a name of their own. */
  predicate Canonical(t: PayloadType) {
    TypeFromU16(TypeAsU16(t)) == t
  }

  lemma TypesAreCanonical(t: PayloadType, value: u16)
    ensures TypeAsU16(TypeFromU16(value)) == value
    ensures !t.Unknown? ==> Canonical(t)
  {
  }

  datatype Header = Header(
    protocolVersion: byte, inverseProtocolVersion: byte, payloadType: PayloadType, payloadLength: u32)

  datatype Message = Message(header: Header, payload: seq<byte>)

  /** `DoIpHeader::with_version`. */
  function NewHeader(version: byte, payloadType: PayloadType, payloadLength: u32): Result<Header> {
    if payloadLength > DOIP_MAX_PAYLOAD_LEN then Err(ParseError)
    else Ok(Header(version, 255 - version, payloadType, payloadLength))
  }

  /** `DoIpMessage::with_version`. */
  function NewMessage(version: byte, payloadType: PayloadType, payload: seq<byte>): Result<Message> {
    if |payload| >= 0x1_0000_0000 then Err(ParseError) else
      var header := NewHeader(version, payloadType, |payload|);
      if header.Err? then Err(header.error) else Ok(Message(header.value, payload))
  }

  function U16FromBytes(b: seq<byte>): u16
    requires |b| == 2
  {
    b[0] as int * 0x100 + b[1] as int
  }

  function U16Bytes(n: u16): (b: seq<byte>)
    ensures |b| == 2 && U16FromBytes(b) == n
  {
    [n / 0x100, n % 0x100]
  }

  function U32FromBytes(b: seq<byte>): u32
    requires |b| == 4
  {
    U16FromBytes(b[..2]) as int * 0x1_0000 + U16FromBytes(b[2..]) as int
  }

  function U32Bytes(n: u32): (b: seq<byte>)
    ensures |b| == 4 && U32FromBytes(b) == n
  {
    var (hi, lo) := (U16Bytes(n / 0x1_0000), U16Bytes(n % 0x1_0000));
    assert (hi + lo)[..2] == hi && (hi + lo)[2..] == lo;
    hi + lo
  }

  function ParseHeader(bytes: seq<byte>): (r: Result<Header>)
    ensures r.Err? ==> r.error == ParseError
  {
    if |bytes| < DOIP_HEADER_LEN || bytes[1] as int != 255 - bytes[0] as int then Err(ParseError) else
      var payloadLength := U32FromBytes(bytes[4..8]);
      if payloadLength > DOIP_MAX_PAYLOAD_LEN then Err(ParseError)
      else Ok(Header(bytes[0], bytes[1], TypeFromU16(U16FromBytes(bytes[2..4])), payloadLength))
  }

  function EncodeHeader(h: Header): (b: seq<byte>)
    ensures |b| == DOIP_HEADER_LEN
  {
    [h.protocolVersion, h.inverseProtocolVersion] + U16Bytes(TypeAsU16(h.payloadType)) + U32Bytes(h.payloadLength)
  }

  /** `DoIpMessage::parse`: exactly one packet. */
  function Parse(bytes: seq<byte>): Result<Message> {
    var header := ParseHeader(bytes);
    if header.Err? then Err(header.error)
    else if |bytes| != DOIP_HEADER_LEN + header.value.payloadLength then Err(ParseError)
    else Ok(Message(header.value, bytes[DOIP_HEADER_LEN..]))
  }

  /** `DoIpMessage::parse_prefix`: a packet and its length, or None if more bytes are needed. */
  function ParsePrefix(bytes: seq<byte>): (r: Result<Option<(Message, nat)>>)
    ensures r.Ok? && r.value.Some? ==> DOIP_HEADER_LEN <= r.value.value.1 <= |bytes|
    ensures r.Err? ==> r.error == ParseError
  {
    if |bytes| < DOIP_HEADER_LEN then Ok(None) else
      var header := ParseHeader(bytes);
      if header.Err? then Err(header.error) else
        var total := DOIP_HEADER_LEN + header.value.payloadLength;
        if |bytes| < total then Ok(None)
        else Ok(Some((Message(header.value, bytes[DOIP_HEADER_LEN..total]), total)))
  }

  function Encode(m: Message): seq<byte> {
    EncodeHeader(m.header) + m.payload
  }

  /** The messages `with_version` constructs with a payload type that survives the wire. */
  ghost predicate Constructible(m: Message) {
    && Canonical(m.header.payloadType)
    && NewMessage(m.header.protocolVersion, m.header.payloadType, m.payload) == Ok(m)
  }

  // ---- One packet ----

  lemma HeaderRoundTrip(h: Header, rest: seq<byte>)
    requires h.inverseProtocolVersion == 255 - h.protocolVersion
    requires Canonical(h.payloadType) && h.payloadLength <= DOIP_MAX_PAYLOAD_LEN
    ensures ParseHeader(EncodeHeader(h) + rest) == Ok(h)
  {
    hide U16Bytes, U32Bytes, U16FromBytes, U32FromBytes, TypeFromU16, TypeAsU16;
    var bytes := EncodeHeader(h) + rest;
    assert bytes[2..4] == U16Bytes(TypeAsU16(h.payloadType));
    assert bytes[4..8] == U32Bytes(h.payloadLength);
  }

  /** A message at the front of a stream is parsed back, with the length it took, exactly if it is constructible. */
  lemma PrefixRoundTrip(m: Message, rest: seq<byte>)
    ensures ParsePrefix(Encode(m) + rest) == Ok(Some((m, |Encode(m)|))) <==> Constructible(m)
  {
    hide ParseHeader, EncodeHeader, Canonical;
    var bytes := Encode(m) + rest;
    assert bytes == EncodeHeader(m.header) + (m.payload + rest);
    assert bytes[8..8 + |m.payload|] == m.payload;
    if Constructible(m) {
      HeaderRoundTrip(m.header, m.payload + rest);
    }
    ParsedHeaderIsSound(bytes);
  }

  lemma ParsedHeaderIsSound(bytes: seq<byte>)
    ensures
      var h := ParseHeader(bytes);
      h.Ok? ==> NewHeader(h.value.protocolVersion, h.value.payloadType, h.value.payloadLength) == h
                && Canonical(h.value.payloadType)
  {
    hide U16FromBytes, U32FromBytes;
  }

  /** Complete packets and malformed headers stay what they are when more bytes arrive. */
  lemma PrefixStable(bytes: seq<byte>, more: seq<byte>)
    ensures ParsePrefix(bytes) != Ok(None) ==> ParsePrefix(bytes + more) == ParsePrefix(bytes)
    ensures ParsePrefix(bytes + more) == Ok(None) ==> ParsePrefix(bytes) == Ok(None)
  {
    if |bytes| >= 8 {
      HeaderStable(bytes, more);
      hide ParseHeader;
      var header := ParseHeader(bytes);
      if header.Ok? && 8 + header.value.payloadLength <= |bytes| {
        assert (bytes + more)[8..8 + header.value.payloadLength] == bytes[8..8 + header.value.payloadLength];
      }
    }
  }

  lemma HeaderStable(bytes: seq<byte>, more: seq<byte>)
    requires |bytes| >= 8
    ensures ParseHeader(bytes + more) == ParseHeader(bytes)
  {
    assert (bytes + more)[2..4] == bytes[2..4] && (bytes + more)[4..8] == bytes[4..8];
  }

  /** `parse` accepts a buffer exactly when `parse_prefix` consumes all of it, with the same message. */
  lemma ParseAgreesWithPrefix(bytes: seq<byte>, m: Message)
    ensures Parse(bytes) == Ok(m) <==> ParsePrefix(bytes) == Ok(Some((m, |bytes|)))
  {
    hide ParseHeader;
    var header := ParseHeader(bytes);
    if header.Ok? && |bytes| == 8 + header.value.payloadLength {
      assert bytes[8..|bytes|] == bytes[8..];
    }
  }

  // ---- Streams ----

  /** All complete packets at the front of a buffer, and the tail that remains. */
  function Drain(buffer: seq<byte>): (r: Result<(seq<Message>, seq<byte>)>)
    ensures r.Err? ==> r.error == ParseError
  {
    var front := ParsePrefix(buffer);
    if front.Err? then Err(front.error)
    else if front.value.None? then Ok(([], buffer))
    else
      var (m, n) := front.value.value;
      var rest := Drain(buffer[n..]);
      if rest.Err? then rest else Ok(([m] + rest.value.0, rest.value.1))
  }

  function Drained(messages: seq<Message>, r: Result<(seq<Message>, seq<byte>)>): Result<(seq<Message>, seq<byte>)> {
    if r.Err? then r else Ok((messages + r.value.0, r.value.1))
  }

  /** A reader that appends each chunk to its buffer and takes the complete packets off the front. */
  function Feed(chunks: seq<seq<byte>>): Result<(seq<Message>, seq<byte>)> {
    if chunks == [] then Ok(([], [])) else
      var before := Feed(chunks[..|chunks| - 1]);
      if before.Err? then before
      else Drained(before.value.0, Drain(before.value.1 + chunks[|chunks| - 1]))
  }

  function Concat(chunks: seq<seq<byte>>): seq<byte> {
    if chunks == [] then [] else Concat(chunks[..|chunks| - 1]) + chunks[|chunks| - 1]
  }

  lemma {:induction false} DrainExtends(buffer: seq<byte>, more: seq<byte>)
    ensures
      var front := Drain(buffer);
      Drain(buffer + more) ==
      if front.Err? then front else Drained(front.value.0, Drain(front.value.1 + more))
    decreases |buffer|
  {
    hide ParsePrefix;
    PrefixStable(buffer, more);
    var front := ParsePrefix(buffer);
    if front.Ok? {
      if front.value.None? {
        DrainedNothing(Drain(buffer + more));
      } else {
        var (m, n) := front.value.value;
        assert (buffer + more)[n..] == buffer[n..] + more;
        DrainExtends(buffer[n..], more);
        var rest := Drain(buffer[n..]);
        if rest.Ok? {
          DrainedJoins([m], rest.value.0, Drain(rest.value.1 + more));
        }
      }
    }
  }

  lemma DrainedNothing(r: Result<(seq<Message>, seq<byte>)>)
    ensures Drained([], r) == r
  {
    if r.Ok? {
      assert [] + r.value.0 == r.value.0;
    }
  }

  lemma DrainedJoins(a: seq<Message>, b: seq<Message>, r: Result<(seq<Message>, seq<byte>)>)
    ensures Drained(a, Drained(b, r)) == Drained(a + b, r)
  {
    if r.Ok? {
      assert a + (b + r.value.0) == a + b + r.value.0;
    }
  }

  /** On any byte stream at all, any split into chunks yields what the whole stream yields. */
  lemma {:induction false} ChunkingIrrelevant(chunks: seq<seq<byte>>)
    ensures Feed(chunks) == Drain(Concat(chunks))
  {
    hide ParsePrefix;
    if chunks != [] {
      var front := chunks[..|chunks| - 1];
      ChunkingIrrelevant(front);
      DrainExtends(Concat(front), chunks[|chunks| - 1]);
    } else {
      assert ParsePrefix([]) == Ok(None) by {
        EmptyNeedsMore();
      }
    }
  }

  lemma EmptyNeedsMore()
    ensures ParsePrefix([]) == Ok(None)
  {
  }

  function EncodeAll(messages: seq<Message>): seq<byte> {
    if messages == [] then [] else Encode(messages[0]) + EncodeAll(messages[1..])
  }

  /**
    Constructible messages with canonical payload types, their encodings concatenated,
    followed by an incomplete tail and split anywhere, are decoded to exactly those
    messages with the tail kept.
   */
  lemma {:induction false} StreamRoundTrip(messages: seq<Message>, tail: seq<byte>, chunks: seq<seq<byte>>)
    requires forall i :: 0 <= i < |messages| ==> Constructible(messages[i])
    requires ParsePrefix(tail) == Ok(None)
    requires Concat(chunks) == EncodeAll(messages) + tail
    ensures Feed(chunks) == Ok((messages, tail))
  {
    ChunkingIrrelevant(chunks);
    DrainsEncodings(messages, tail);
  }

  lemma {:induction false} DrainsEncodings(messages: seq<Message>, tail: seq<byte>)
    requires forall i :: 0 <= i < |messages| ==> Constructible(messages[i])
    requires ParsePrefix(tail) == Ok(None)
    ensures Drain(EncodeAll(messages) + tail) == Ok((messages, tail))
  {
    hide ParsePrefix, Encode, Constructible;
    if messages == [] {
      assert [] + tail == tail;
    } else {
      var m := messages[0];
      var rest := EncodeAll(messages[1..]) + tail;
      assert EncodeAll(messages) + tail == Encode(m) + rest;
      assert Constructible(m);
      PrefixRoundTrip(m, rest);
      assert (Encode(m) + rest)[|Encode(m)|..] == rest;
      DrainsEncodings(messages[1..], tail);
      assert messages == [m] + messages[1..];
    }
  }

  // ---- Header-then-body reading ----

  /** `read_exact` of `n` bytes: end of stream is a transport error. */
  function ReadExact(stream: seq<byte>, n: nat): (Result<seq<byte>>, seq<byte>) {
    if |stream| < n then (Err(Error.Transport), []) else (Ok(stream[..n]), stream[n..])
  }

  /** `DoIpStreamTransport::recv` as a function of the remaining stream. */
  function Receive(stream: seq<byte>): (Result<Message>, seq<byte>) {
    var (head, rest) := ReadExact(stream, DOIP_HEADER_LEN);
    if head.Err? then (Err(head.error), rest) else
      var header := ParseHeader(head.value);
      if header.Err? then (Err(header.error), rest) else
        var (payload, rest') := ReadExact(rest, header.value.payloadLength);
        if payload.Err? then (Err(payload.error), rest') else (Ok(Message(header.value, payload.value)), rest')
  }

  /** A byte stream takes `room` more bytes before a write fails (any number if None), and its flush may fail. */
  class DoIpStreamTransport {
    var input: seq<byte>
    var output: seq<byte>
    var room: Option<nat>
    var flushFails: bool

    constructor (input: seq<byte>, room: Option<nat>, flushFails: bool)
      ensures this.input == input && output == [] && this.room == room && this.flushFails == flushFails
    {
      this.input, output, this.room, this.flushFails := input, [], room, flushFails;
    }

    /** `write_all`: a failing write leaves the bytes the stream took. */
    method WriteAll(bytes: seq<byte>) returns (r: Result<()>)
      modifies this`output, this`room
      ensures r == if old(room) == None || |bytes| <= old(room).value then Ok(()) else Err(Error.Transport)
      ensures output == old(output) + if r.Ok? then bytes else bytes[..old(room).value]
      ensures room == if old(room) == None then None else if r.Ok? then Some(old(room).value - |bytes|) else Some(0)
    {
      if room == None {
        output := output + bytes;
        return Ok(());
      }
      if |bytes| <= room.value {
        output, room := output + bytes, Some(room.value - |bytes|);
        return Ok(());
      }
      output, room := output + bytes[..room.value], Some(0);
      return Err(Error.Transport);
    }

    /** What reaches the stream is always a front of the encoding, and all of it exactly if both writes fit. */
    method Send(message: Message) returns (r: Result<()>)
      modifies this`output, this`room
      ensures
        var fits := old(room) == None || |Encode(message)| <= old(room).value;
        && output == old(output) + (if fits then Encode(message) else Encode(message)[..old(room).value])
        && r == if fits && !flushFails then Ok(()) else Err(Error.Transport)
    {
      var head := EncodeHeader(message.header);
      ghost var before := output;
      r := WriteAll(head);
      if r.Err? {
        assert Encode(message)[..old(room).value] == head[..old(room).value];
        return;
      }
      r := WriteAll(message.payload);
      assert before + head + message.payload == before + Encode(message);
      if r.Err? {
        assert before + head + message.payload[..old(room).value - |head|] ==
               before + Encode(message)[..old(room).value];
        return;
      }
      if flushFails {
        return Err(Error.Transport);
      }
      return Ok(());
    }

    method ReadBytes(n: nat) returns (r: Result<seq<byte>>)
      modifies this`input
      ensures (r, input) == ReadExact(old(input), n)
    {
      if |input| < n {
        input := [];
        return Err(Error.Transport);
      }
      r := Ok(input[..n]);
      input := input[n..];
    }

    method Recv() returns (r: Result<Message>)
      modifies this`input
      ensures (r, input) == Receive(old(input))
    {
      var headerBytes := ReadBytes(DOIP_HEADER_LEN);
      if headerBytes.Err? {
        return Err(headerBytes.error);
      }
      var header := ParseHeader(headerBytes.value);
      if header.Err? {
        return Err(header.error);
      }
      var payload := ReadBytes(header.value.payloadLength);
      if payload.Err? {
        return Err(payload.error);
      }
      return Ok(Message(header.value, payload.value));
    }
  }

  /** `recv` and `parse_prefix` agree on every stream: message, malformed header, or not enough bytes. */
  lemma ReceiveAgreesWithPrefix(stream: seq<byte>)
    ensures
      match ParsePrefix(stream)
      case Ok(Some((m, n))) => Receive(stream) == (Ok(m), stream[n..])
      case Ok(None) => Receive(stream).0 == Err(Error.Transport)
      case Err(error) => Receive(stream).0 == Err(error)
  {
    if |stream| >= 8 {
      assert stream[..8] + stream[8..] == stream;
      HeaderStable(stream[..8], stream[8..]);
      hide ParseHeader;
      var header := ParseHeader(stream);
      if header.Ok? && 8 + header.value.payloadLength <= |stream| {
        var k := header.value.payloadLength;
        assert stream[8..][..k] == stream[8..8 + k] && stream[8..][k..] == stream[8 + k..];
      }
    }
  }

  /** Messages sent are the messages received, over the byte stream between two transports. */
  lemma {:induction false} ReceivesWhatWasSent(messages: seq<Message>, k: nat)
    requires forall i :: 0 <= i < |messages| ==> Constructible(messages[i])
    requires k < |messages|
    ensures Receive(EncodeAll(messages[k..])) == (Ok(messages[k]), EncodeAll(messages[k + 1..]))
  {
    hide ParsePrefix, Receive, Encode, Constructible;
    var rest := messages[k..];
    assert Constructible(messages[k]);
    assert rest[1..] == messages[k + 1..];
    PrefixRoundTrip(messages[k], EncodeAll(rest[1..]));
    ReceiveAgreesWithPrefix(EncodeAll(rest));
    assert (Encode(rest[0]) + EncodeAll(rest[1..]))[|Encode(rest[0])|..] == EncodeAll(rest[1..]);
  }
}
