/** The diagnostic exchange and routing activation of `DoIpClient` (`protocol/doip.rs`). */
module DoIpClient {
  import opened Basics
  import opened DoIp

  const DOIP_MAX_DIAGNOSTIC_EVENTS: nat := 16

  /** What the transport's `recv` yields. */
  datatype Incoming = Arrives(message: Message) | Fails(error: Error)

  datatype Diagnostic = Diagnostic(source: u16, target: u16, userData: seq<byte>)

  /** `DoIpDiagnosticMessage::parse`. */
  function ParseDiagnostic(payload: seq<byte>): Result<Diagnostic> {
    if |payload| < 4 then Err(ParseError)
    else Ok(Diagnostic(U16FromBytes(payload[..2]), U16FromBytes(payload[2..4]), payload[4..]))
  }

  function DiagnosticPayload(d: Diagnostic): seq<byte> {
    U16Bytes(d.source) + U16Bytes(d.target) + d.userData
  }

  lemma DiagnosticRoundTrip(d: Diagnostic, payload: seq<byte>)
    ensures ParseDiagnostic(DiagnosticPayload(d)) == Ok(d)
    ensures ParseDiagnostic(payload).Ok? ==> DiagnosticPayload(ParseDiagnostic(payload).value) == payload
  {
    var bytes := DiagnosticPayload(d);
    assert bytes[..2] == U16Bytes(d.source) && bytes[2..4] == U16Bytes(d.target) && bytes[4..] == d.userData;
    if |payload| >= 4 {
      BytesOfU16(payload[..2]);
      BytesOfU16(payload[2..4]);
      assert payload == payload[..2] + payload[2..4] + payload[4..];
    }
  }

  lemma BytesOfU16(b: seq<byte>)
    requires |b| == 2
    ensures U16Bytes(U16FromBytes(b)) == b
  {
    assert b == [b[0], b[1]];
  }

  datatype Ack = Ack(source: u16, target: u16, ackCode: byte, previous: seq<byte>)

  /** `DoIpDiagnosticAck::parse`. */
  function ParseAck(payload: seq<byte>): Result<Ack> {
    if |payload| < 5 then Err(ParseError)
    else Ok(Ack(U16FromBytes(payload[..2]), U16FromBytes(payload[2..4]), payload[4], payload[5..]))
  }

  datatype Activation = Activation(testerAddress: u16, entityAddress: u16, responseCode: byte, reserved: seq<byte>)

  /** `DoIpRoutingActivationResponse::parse`. */
  function ParseActivation(payload: seq<byte>): Result<Activation> {
    if |payload| != 9 && |payload| != 13 then Err(ParseError)
    else Ok(Activation(U16FromBytes(payload[..2]), U16FromBytes(payload[2..4]), payload[4], payload[5..]))
  }

  /** `DoIpRoutingActivationRequest::new(...).to_payload()`. */
  function ActivationRequestPayload(tester: u16, activationType: byte): (p: seq<byte>)
    ensures |p| == 7
  {
    U16Bytes(tester) + [activationType, 0, 0, 0, 0]
  }

  /** `doip_generic_nack_error`. */
  function GenericNackError(payload: seq<byte>): Error {
    if |payload| != 1 then ParseError else Error.Transport
  }

  /** What one received message means to a running diagnostic exchange. */
  datatype Verdict = Answer(data: seq<byte>) | Acknowledged | Refused(error: Error)

  function Judge(tester: u16, entity: u16, incoming: Incoming): Verdict {
    match incoming
    case Fails(error) => Refused(error)
    case Arrives(message) =>
      match message.header.payloadType
      case DiagnosticMessage => (
        var d := ParseDiagnostic(message.payload);
        if d.Err? || d.value.source != entity || d.value.target != tester then Refused(ParseError)
        else Answer(d.value.userData))
      case DiagnosticPositiveAck => (
        var a := ParseAck(message.payload);
        if a.Err? || a.value.source != entity || a.value.target != tester then Refused(ParseError) else Acknowledged)
      case DiagnosticNegativeAck => (
        var a := ParseAck(message.payload);
        if a.Err? || a.value.source != entity || a.value.target != tester then Refused(ParseError)
        else Refused(Error.Transport))
      case GenericNegativeAck => Refused(GenericNackError(message.payload))
      case _ => Refused(ParseError)
  }

  /** The receive loop with `events` turns left. */
  function AwaitAnswer(tester: u16, entity: u16, inbox: seq<Incoming>, events: nat): (Result<seq<byte>>, seq<Incoming>)
    decreases events
  {
    if events == 0 then (Err(Timeout), inbox)
    else if inbox == [] then (Err(Error.Transport), inbox)
    else
      match Judge(tester, entity, inbox[0])
      case Answer(data) => (Ok(data), inbox[1..])
      case Acknowledged => AwaitAnswer(tester, entity, inbox[1..], events - 1)
      case Refused(error) => (Err(error), inbox[1..])
  }

  class DoIpClient {
    var inbox: seq<Incoming>
    var outbox: seq<Message>
    var sendFaults: seq<bool>
    const testerAddress: u16
    var entityAddress: u16

    constructor (inbox: seq<Incoming>, sendFaults: seq<bool>, testerAddress: u16, entityAddress: u16)
      ensures this.inbox == inbox && outbox == [] && this.sendFaults == sendFaults
      ensures this.testerAddress == testerAddress && this.entityAddress == entityAddress
    {
      this.inbox, this.outbox, this.sendFaults := inbox, [], sendFaults;
      this.testerAddress, this.entityAddress := testerAddress, entityAddress;
    }

    predicate SendFails()
      reads this
    {
      sendFaults != [] && sendFaults[0]
    }

    method Send(message: Message) returns (r: Result<()>)
      modifies this`outbox, this`sendFaults
      ensures r == if old(SendFails()) then Err(Error.Transport) else Ok(())
      ensures outbox == if old(SendFails()) then old(outbox) else old(outbox) + [message]
    {
      var fails := SendFails();
      if sendFaults != [] {
        sendFaults := sendFaults[1..];
      }
      if fails {
        return Err(Error.Transport);
      }
      outbox := outbox + [message];
      return Ok(());
    }

    method Recv() returns (r: Incoming)
      modifies this`inbox
      ensures old(inbox) == [] ==> r == Fails(Error.Transport) && inbox == []
      ensures old(inbox) != [] ==> r == old(inbox)[0] && inbox == old(inbox)[1..]
    {
      if inbox == [] {
        return Fails(Error.Transport);
      }
      r := inbox[0];
      inbox := inbox[1..];
    }

    /** The request goes out once, and only then is the inbox read. */
    method SendDiagnostic(userData: seq<byte>) returns (r: Result<seq<byte>>)
      modifies this`inbox, this`outbox, this`sendFaults
      ensures
        var payload := DiagnosticPayload(Diagnostic(testerAddress, entityAddress, userData));
        var request := NewMessage(DOIP_VERSION_DEFAULT, DiagnosticMessage, payload);
        if userData == [] || request.Err? then
          r == Err(ParseError) && outbox == old(outbox) && inbox == old(inbox)
        else if old(SendFails()) then
          r == Err(Error.Transport) && outbox == old(outbox) && inbox == old(inbox)
        else
          && outbox == old(outbox) + [request.value]
          && (r, inbox) == AwaitAnswer(testerAddress, entityAddress, old(inbox), DOIP_MAX_DIAGNOSTIC_EVENTS)
    {
      if userData == [] {
        return Err(ParseError);
      }
      var payload := DiagnosticPayload(Diagnostic(testerAddress, entityAddress, userData));
      var request := NewMessage(DOIP_VERSION_DEFAULT, DiagnosticMessage, payload);
      if request.Err? {
        return Err(request.error);
      }
      var sent := Send(request.value);
      if sent.Err? {
        return Err(sent.error);
      }
      var i := 0;
      while i < DOIP_MAX_DIAGNOSTIC_EVENTS
        invariant 0 <= i <= DOIP_MAX_DIAGNOSTIC_EVENTS
        invariant outbox == old(outbox) + [request.value]
        invariant AwaitAnswer(testerAddress, entityAddress, old(inbox), DOIP_MAX_DIAGNOSTIC_EVENTS) ==
                  AwaitAnswer(testerAddress, entityAddress, inbox, DOIP_MAX_DIAGNOSTIC_EVENTS - i)
      {
        var incoming := Recv();
        if incoming.Fails? {
          return Err(incoming.error);
        }
        var response := incoming.message;
        match response.header.payloadType {
          case DiagnosticMessage =>
            var diag := ParseDiagnostic(response.payload);
            if diag.Err? {
              return Err(diag.error);
            }
            if diag.value.source != entityAddress || diag.value.target != testerAddress {
              return Err(ParseError);
            }
            return Ok(diag.value.userData);
          case DiagnosticPositiveAck =>
            var ack := ParseAck(response.payload);
            if ack.Err? {
              return Err(ack.error);
            }
            if ack.value.source != entityAddress || ack.value.target != testerAddress {
              return Err(ParseError);
            }
          case DiagnosticNegativeAck =>
            var ack := ParseAck(response.payload);
            if ack.Err? {
              return Err(ack.error);
            }
            if ack.value.source != entityAddress || ack.value.target != testerAddress {
              return Err(ParseError);
            }
            return Err(Error.Transport);
          case GenericNegativeAck =>
            return Err(GenericNackError(response.payload));
          case _ =>
            return Err(ParseError);
        }
        i := i + 1;
      }
      return Err(Timeout);
    }

    /**
      The client adopts the entity address exactly of a well-formed response addressed to it,
      whatever its response code; on any error the address stays.
     */
    method RoutingActivation(activationType: byte) returns (r: Result<Activation>)
      modifies this
      ensures entityAddress == if r.Ok? then r.value.entityAddress else old(entityAddress)
      ensures
        var payload := ActivationRequestPayload(testerAddress, activationType);
        var request := NewMessage(DOIP_VERSION_DEFAULT, RoutingActivationRequest, payload);
        && request.Ok?
        && outbox == (if old(SendFails()) then old(outbox) else old(outbox) + [request.value])
        && inbox == if old(SendFails()) || old(inbox) == [] then old(inbox) else old(inbox)[1..]
      ensures forall a :: r == Ok(a) <==>
        && !old(SendFails()) && old(inbox) != [] && old(inbox)[0].Arrives?
        && old(inbox)[0].message.header.payloadType.RoutingActivationResponse?
        && ParseActivation(old(inbox)[0].message.payload) == Ok(a)
        && a.testerAddress == testerAddress
    {
      var message := NewMessage(DOIP_VERSION_DEFAULT, RoutingActivationRequest,
        ActivationRequestPayload(testerAddress, activationType));
      var sent := Send(message.value);
      if sent.Err? {
        return Err(sent.error);
      }
      var incoming := Recv();
      if incoming.Fails? {
        return Err(incoming.error);
      }
      var response := incoming.message;
      if response.header.payloadType == GenericNegativeAck {
        return Err(GenericNackError(response.payload));
      }
      if response.header.payloadType != RoutingActivationResponse {
        return Err(ParseError);
      }
      var activation := ParseActivation(response.payload);
      if activation.Err? {
        return activation;
      }
      if activation.value.testerAddress != testerAddress {
        return Err(ParseError);
      }
      entityAddress := activation.value.entityAddress;
      return activation;
    }
  }

  // ---- The exchange over any message sequence ----

  /** A well-formed diagnostic message from the entity to the tester, carrying `data`. */
  predicate CarriesAnswer(tester: u16, entity: u16, incoming: Incoming, data: seq<byte>) {
    && incoming.Arrives? && incoming.message.header.payloadType.DiagnosticMessage?
    && incoming.message.payload == DiagnosticPayload(Diagnostic(entity, tester, data))
  }

  /** A well-formed positive acknowledgement from the entity to the tester. */
  predicate PositivelyAcknowledges(tester: u16, entity: u16, incoming: Incoming) {
    && incoming.Arrives? && incoming.message.header.payloadType.DiagnosticPositiveAck?
    && |incoming.message.payload| >= 5
    && incoming.message.payload[..4] == U16Bytes(entity) + U16Bytes(tester)
  }

  lemma JudgesByTheWire(tester: u16, entity: u16, incoming: Incoming, data: seq<byte>)
    ensures Judge(tester, entity, incoming) == Answer(data) <==> CarriesAnswer(tester, entity, incoming, data)
    ensures Judge(tester, entity, incoming) == Acknowledged <==> PositivelyAcknowledges(tester, entity, incoming)
  {
    if incoming.Arrives? {
      var payload := incoming.message.payload;
      DiagnosticRoundTrip(Diagnostic(entity, tester, data), payload);
      if |payload| >= 4 {
        BytesOfU16(payload[..2]);
        BytesOfU16(payload[2..4]);
        assert payload[..4] == payload[..2] + payload[2..4];
        var expected := U16Bytes(entity) + U16Bytes(tester);
        assert expected[..2] == U16Bytes(entity) && expected[2..] == U16Bytes(tester);
        assert payload[..4][..2] == payload[..2] && payload[..4][2..] == payload[2..4];
      }
    }
  }

  /** Message `k` is the answer, after nothing but positive acknowledgements. */
  ghost predicate AnsweredAt(tester: u16, entity: u16, inbox: seq<Incoming>, k: nat, data: seq<byte>) {
    && k < |inbox| && CarriesAnswer(tester, entity, inbox[k], data)
    && forall i :: 0 <= i < k ==> PositivelyAcknowledges(tester, entity, inbox[i])
  }

  lemma {:induction false} AnswerIffAnswered(
    tester: u16, entity: u16, inbox: seq<Incoming>, events: nat, data: seq<byte>)
    ensures
      var (r, rest) := AwaitAnswer(tester, entity, inbox, events);
      && (r == Ok(data) <==> exists k :: 0 <= k < events && AnsweredAt(tester, entity, inbox, k, data))
      && 0 <= |inbox| - |rest| <= events && rest == inbox[|inbox| - |rest|..]
    decreases events
  {
    hide Judge, CarriesAnswer, PositivelyAcknowledges;
    if events > 0 && inbox != [] {
      JudgesByTheWire(tester, entity, inbox[0], data);
      var tail := inbox[1..];
      match Judge(tester, entity, inbox[0])
      case Answer(other) =>
        JudgesByTheWire(tester, entity, inbox[0], other);
        assert AnsweredAt(tester, entity, inbox, 0, other);
      case Acknowledged =>
        AnswerIffAnswered(tester, entity, tail, events - 1, data);
        forall k | 0 <= k < events && AnsweredAt(tester, entity, inbox, k, data)
          ensures k > 0 && AnsweredAt(tester, entity, tail, k - 1, data)
        {
          assert forall i :: 0 <= i < k - 1 ==> tail[i] == inbox[i + 1];
        }
        forall k | 0 <= k < events - 1 && AnsweredAt(tester, entity, tail, k, data)
          ensures AnsweredAt(tester, entity, inbox, k + 1, data)
        {
          assert forall i :: 1 <= i < k + 1 ==> inbox[i] == tail[i - 1];
        }
      case Refused(_) =>
    }
  }

  /**
    Over any sequence of received messages, the exchange returns Ok(d) exactly when, within
    the first 16, a run of positive acknowledgements from the entity is followed by a diagnostic
    message from the entity carrying d; it never reads more than 16.
   */
  lemma DiagnosticExchangeExactly(tester: u16, entity: u16, inbox: seq<Incoming>, data: seq<byte>)
    ensures
      var (r, rest) := AwaitAnswer(tester, entity, inbox, DOIP_MAX_DIAGNOSTIC_EVENTS);
      && (r == Ok(data) <==> exists k :: 0 <= k < 16 && AnsweredAt(tester, entity, inbox, k, data))
      && |inbox| - |rest| <= 16
  {
    AnswerIffAnswered(tester, entity, inbox, DOIP_MAX_DIAGNOSTIC_EVENTS, data);
  }
}
