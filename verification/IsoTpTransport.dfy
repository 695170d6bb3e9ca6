/** The ISO-TP transport object (`IsoTpTransport`) over a queue-like CAN link. */
module IsoTpTransport {
  import opened Basics
  import opened IsoTp

  /** A raw CAN link: an inbound queue that may fail, and a record of what was sent. */
  class CanFrameIo {
    var rx: seq<Received>
    var tx: seq<CanDataFrame>
    var sendFaults: seq<bool>

    constructor (rx: seq<Received>, sendFaults: seq<bool>)
      ensures State() == Link(rx, [], sendFaults)
    {
      this.rx, this.tx, this.sendFaults := rx, [], sendFaults;
    }

    function State(): Link
      reads this
    {
      Link(rx, tx, sendFaults)
    }

    method SendFrame(frame: CanDataFrame) returns (r: Result<()>)
      modifies this
      ensures (r, State()) == LinkSend(frame, old(State()))
    {
      var fails := false;
      if sendFaults != [] {
        fails, sendFaults := sendFaults[0], sendFaults[1..];
      }
      if fails {
        return Err(Error.Transport);
      }
      tx := tx + [frame];
      return Ok(());
    }

    method RecvFrame() returns (r: Result<CanDataFrame>)
      modifies this`rx
      ensures old(rx) == [] ==> r == Err(Timeout) && rx == []
      ensures old(rx) != [] ==> rx == old(rx)[1..]
      ensures old(rx) != [] ==> r == match old(rx)[0] case Got(frame) => Ok(frame) case LinkFault(error) => Err(error)
    {
      if rx == [] {
        return Err(Timeout);
      }
      var item := rx[0];
      rx := rx[1..];
      match item {
        case Got(frame) => r := Ok(frame);
        case LinkFault(error) => r := Err(error);
      }
    }
  }

  /** The endpoint state in which a finished call leaves the automaton. */
  function SendOutcome(r: Result<()>): Endpoint {
    if r.Ok? then Sent else Failed(r.error)
  }

  function ReceiveOutcome(r: Result<seq<byte>>): Endpoint {
    if r.Ok? then Delivered(r.value) else Failed(r.error)
  }

  const MAX_RESPONSE_PENDING_FRAMES: nat := 8

  /** `is_response_pending_for`. */
  predicate IsResponsePendingFor(serviceId: byte, pdu: seq<byte>) {
    pdu == [0x7F, serviceId, 0x78]
  }

  /** `strip_response_for_request`. */
  function StripResponse(serviceId: byte, pdu: seq<byte>): Result<seq<byte>> {
    if pdu == [] then Err(ParseError)
    else if pdu[0] == 0x7F then
      if |pdu| < 3 then Err(ParseError) else Err(Error.NegativeResponse(pdu[1], pdu[2]))
    else if serviceId as int + 0x40 > 255 || pdu[0] as int != serviceId as int + 0x40 then Err(ParseError)
    else Ok(pdu[1..])
  }

  /** The PDU (or the error) that one `recv_pdu` takes from the link. */
  function ReceivePdu(cfg: IsoTpConfig, link: Link): (r: (Result<seq<byte>>, Link)) {
    var (e, link') := Run(cfg, StartReceive, link);
    (if e.Delivered? then Ok(e.pdu) else if e.Failed? then Err(e.error) else Err(ParseError), link')
  }

  /** The receive half of `exchange`: skip at most `pending` response-pending PDUs. */
  function ReceiveFinal(cfg: IsoTpConfig, serviceId: byte, link: Link, pending: nat): (r: (Result<seq<byte>>, Link))
    decreases pending
  {
    var (pdu, link') := ReceivePdu(cfg, link);
    if pdu.Err? then (pdu, link')
    else if !IsResponsePendingFor(serviceId, pdu.value) then (StripResponse(serviceId, pdu.value), link')
    else if pending == 0 then (Err(Timeout), link')
    else ReceiveFinal(cfg, serviceId, link', pending - 1)
  }

  /** `exchange` as a function of the link. */
  function Exchanged(cfg: IsoTpConfig, request: seq<byte>, link: Link): (Result<seq<byte>>, Link) {
    if request == [] || |request| > cfg.maxPayloadLen then (Err(ParseError), link) else
      var (e, link') := Run(cfg, StartSend(request), link);
      if e.Failed? then (Err(e.error), link')
      else ReceiveFinal(cfg, request[0], link', MAX_RESPONSE_PENDING_FRAMES)
  }

  /** `exchange_pdu` as a function of the link. */
  function ExchangedPdu(cfg: IsoTpConfig, request: seq<byte>, link: Link): (Result<seq<byte>>, Link) {
    if request == [] || |request| > cfg.maxPayloadLen then (Err(ParseError), link) else
      var (e, link') := Run(cfg, StartSend(request), link);
      if e.Failed? then (Err(e.error), link')
      else ReceivePdu(cfg, link')
  }

  class IsoTpTransport {
    const io: CanFrameIo
    const config: IsoTpConfig

    constructor (io: CanFrameIo, config: IsoTpConfig)
      ensures this.io == io && this.config == config
    {
      this.io, this.config := io, config;
    }

    method ExchangePdu(request: seq<byte>) returns (r: Result<seq<byte>>)
      modifies io
      ensures (r, io.State()) == ExchangedPdu(config, request, old(io.State()))
    {
      if request == [] || |request| > config.maxPayloadLen {
        return Err(ParseError);
      }
      var sent := SendPdu(request);
      if sent.Err? {
        return Err(sent.error);
      }
      r := RecvPdu();
    }

    method Exchange(request: seq<byte>) returns (r: Result<seq<byte>>)
      modifies io
      ensures (r, io.State()) == Exchanged(config, request, old(io.State()))
    {
      if request == [] || |request| > config.maxPayloadLen {
        return Err(ParseError);
      }
      var serviceId := request[0];
      var sent := SendPdu(request);
      if sent.Err? {
        return Err(sent.error);
      }
      ghost var start := io.State();
      var response := RecvPdu();
      if response.Err? {
        return response;
      }
      var i := 0;
      while i < MAX_RESPONSE_PENDING_FRAMES
        invariant 0 <= i <= MAX_RESPONSE_PENDING_FRAMES
        invariant response.Ok?
        invariant ReceiveFinal(config, serviceId, start, MAX_RESPONSE_PENDING_FRAMES) ==
                  AfterPdu(config, serviceId, response, io.State(), MAX_RESPONSE_PENDING_FRAMES - i)
      {
        if !IsResponsePendingFor(serviceId, response.value) {
          return StripResponse(serviceId, response.value);
        }
        response := RecvPdu();
        if response.Err? {
          return response;
        }
        i := i + 1;
      }
      if IsResponsePendingFor(serviceId, response.value) {
        return Err(Timeout);
      }
      return StripResponse(serviceId, response.value);
    }

    method SendPdu(pdu: seq<byte>) returns (r: Result<()>)
      modifies io
      ensures (SendOutcome(r), io.State()) == Run(config, StartSend(pdu), old(io.State()))
    {
      if |pdu| <= 7 {
        r := SendFrameData([|pdu|] + pdu);
      } else {
        r := SendMultiFramePdu(pdu);
      }
    }

    method SendMultiFramePdu(pdu: seq<byte>) returns (r: Result<()>)
      requires |pdu| > 7
      modifies io
      ensures (SendOutcome(r), io.State()) == Run(config, StartSend(pdu), old(io.State()))
    {
      hide Run, Transmit, AwaitContinue;
      if |pdu| > MAX_CLASSIC_ISOTP_PAYLOAD {
        RunFinished(config, StartSend(pdu), io.State());
        return Err(ParseError);
      }
      RunEmits(config, StartSend(pdu), io.State());
      r := SendFrameData([0x10 + |pdu| / 0x100, |pdu| % 0x100] + pdu[..6]);
      if r.Err? {
        return;
      }
      ghost var waiting := AwaitingFlowControl(pdu, 6, 1, 0, 0);
      RunAwaitsContinue(config, waiting, io.State());
      var fc := WaitForContinueToSend();
      if fc.Err? {
        return Err(fc.error);
      }
      var offset, sequence: byte, sentInBlock: byte := 6, 1, 0;
      var blockSize := fc.value.blockSize;
      while offset < |pdu|
        invariant 6 <= offset <= |pdu| && sequence < 16
        invariant Run(config, StartSend(pdu), old(io.State())) ==
                  Run(config,
                      if offset < |pdu| then SendingConsecutive(pdu, offset, sequence, sentInBlock, blockSize)
                        else Sent,
                      io.State())
      {
        RunEmits(config, SendingConsecutive(pdu, offset, sequence, sentInBlock, blockSize), io.State());
        var chunkLen := Min(|pdu| - offset, 7);
        r := SendFrameData([0x20 + sequence] + pdu[offset..offset + chunkLen]);
        if r.Err? {
          return;
        }
        offset := offset + chunkLen;
        sequence := (sequence + 1) % 16;
        sentInBlock := SaturatingInc(sentInBlock);

        if blockSize != 0 && sentInBlock >= blockSize && offset < |pdu| {
          RunAwaitsContinue(config, AwaitingFlowControl(pdu, offset, sequence, 0, 0), io.State());
          fc := WaitForContinueToSend();
          if fc.Err? {
            return Err(fc.error);
          }
          blockSize := fc.value.blockSize;
          sentInBlock := 0;
        }
      }
      RunFinished(config, Sent, io.State());
      return Ok(());
    }

    method RecvPdu() returns (r: Result<seq<byte>>)
      modifies io
      ensures (ReceiveOutcome(r), io.State()) == Run(config, StartReceive, old(io.State()))
    {
      RunReadsMatching(config, StartReceive, io.State());
      var frame := ReadMatchingFrame();
      if frame.Err? {
        return Err(frame.error);
      }
      var data := frame.value.data;
      match data[0] / 16 {
        case 0 => r := DecodeSingle(data);
        case 1 => r := RecvMultiFramePdu(data);
        case _ => r := Err(ParseError);
      }
    }

    method RecvMultiFramePdu(first: seq<byte>) returns (r: Result<seq<byte>>)
      requires 0 < |first| <= 8
      modifies io
      ensures (ReceiveOutcome(r), io.State()) == Run(config, OnFirstFrame(config, first), old(io.State()))
    {
      hide Run, Transmit, ReadMatching;
      if OnFirstFrame(config, first).Failed? {
        RunFinished(config, OnFirstFrame(config, first), io.State());
      } else {
        RunEmits(config, OnFirstFrame(config, first), io.State());
      }
      if |first| < 2 {
        return Err(ParseError);
      }
      var declared: nat := first[0] as int % 16 * 0x100 + first[1] as int;
      if declared <= 7 || declared > config.maxPayloadLen {
        return Err(ParseError);
      }
      var pdu := first[2..2 + Min(declared, |first| - 2)];
      var sent := SendFlowControl();
      if sent.Err? {
        return Err(sent.error);
      }
      var expected: byte, receivedInBlock: byte := 1, 0;
      while |pdu| < declared
        invariant |pdu| <= declared && expected < 16
        invariant Run(config, OnFirstFrame(config, first), old(io.State())) ==
                  Run(config,
                      if |pdu| < declared then AwaitingConsecutive(declared, pdu, expected, receivedInBlock, 0)
                      else Delivered(pdu),
                      io.State())
        decreases declared - |pdu|
      {
        ghost var waiting := AwaitingConsecutive(declared, pdu, expected, receivedInBlock, 0);
        RunReadsMatching(config, waiting, io.State());
        var frame := ReadMatchingFrame();
        if frame.Err? {
          return Err(frame.error);
        }
        var data := frame.value.data;
        ghost var next := OnConsecutive(config, waiting, data);
        if next.Failed? {
          RunFinished(config, next, io.State());
        } else if next.SendingFlowControl? {
          RunEmits(config, next, io.State());
        }
        if data[0] / 16 != 2 {
          return Err(ParseError);
        }
        if data[0] % 16 != expected {
          return Err(ParseError);
        }
        var available := |data| - 1;
        if available == 0 {
          return Err(ParseError);
        }
        var take := Min(declared - |pdu|, available);
        pdu := pdu + data[1..1 + take];
        expected := (expected + 1) % 16;
        receivedInBlock := SaturatingInc(receivedInBlock);

        if config.blockSize != 0 && receivedInBlock >= config.blockSize && |pdu| < declared {
          sent := SendFlowControl();
          if sent.Err? {
            return Err(sent.error);
          }
          receivedInBlock := 0;
        }
      }
      RunFinished(config, Delivered(pdu), io.State());
      return Ok(pdu);
    }

    method DecodeSingle(data: seq<byte>) returns (r: Result<seq<byte>>)
      requires |data| > 0
      ensures r == DecodeSingleFrame(config, data)
    {
      var len := data[0] % 16;
      if |data| < len + 1 {
        return Err(ParseError);
      }
      if len > config.maxPayloadLen {
        return Err(ParseError);
      }
      return Ok(data[1..1 + len]);
    }

    method WaitForContinueToSend() returns (r: Result<FlowControlFrame>)
      modifies io`rx
      ensures (r, io.rx) == AwaitContinue(config, old(io.rx), 0)
    {
      var waitFrames := 0;
      while true
        invariant 0 <= waitFrames
        invariant AwaitContinue(config, old(io.rx), 0) == AwaitContinue(config, io.rx, waitFrames)
        decreases |io.rx|
      {
        var fc := ReadFlowControl();
        if fc.Err? {
          return fc;
        }
        match fc.value.status {
          case ContinueToSend =>
            return fc;
          case Wait =>
            waitFrames := waitFrames + 1;
            if waitFrames > config.maxFlowControlWaitFrames {
              return Err(Timeout);
            }
          case Overflow =>
            return Err(ParseError);
        }
      }
    }

    method ReadFlowControl() returns (r: Result<FlowControlFrame>)
      modifies io`rx
      ensures
        var (frame, rest) := ReadMatching(config, old(io.rx), 0);
        io.rx == rest && r == if frame.Ok? then DecodeFlowControl(frame.value.data) else Err(frame.error)
    {
      var frame := ReadMatchingFrame();
      if frame.Err? {
        return Err(frame.error);
      }
      return DecodeFlowControl(frame.value.data);
    }

    method ReadMatchingFrame() returns (r: Result<CanDataFrame>)
      modifies io`rx
      ensures (r, io.rx) == ReadMatching(config, old(io.rx), 0)
    {
      var unrelated := 0;
      while true
        invariant 0 <= unrelated
        invariant ReadMatching(config, old(io.rx), 0) == ReadMatching(config, io.rx, unrelated)
        decreases |io.rx|
      {
        var frame := io.RecvFrame();
        if frame.Err? {
          return frame;
        }
        if !ValidFrame(frame.value) {
          return Err(ParseError);
        }
        if frame.value.id == config.responseId {
          return frame;
        }
        unrelated := unrelated + 1;
        if unrelated > config.maxUnrelatedFrames {
          return Err(ParseError);
        }
      }
    }

    method SendFlowControl() returns (r: Result<()>)
      modifies io
      ensures (r, io.State()) == Transmit(config, FlowControlData(config), old(io.State()))
    {
      r := SendFrameData([0x30, config.blockSize, config.stMin]);
    }

    method SendFrameData(data: seq<byte>) returns (r: Result<()>)
      modifies io
      ensures (r, io.State()) == Transmit(config, data, old(io.State()))
    {
      if |data| > 8 {
        return Err(ParseError);
      }
      var padded := data;
      if config.txPadding.Some? {
        while |padded| < 8
          invariant |data| <= |padded| <= 8 && data <= padded
          invariant forall i :: |data| <= i < |padded| ==> padded[i] == config.txPadding.value
        {
          padded := padded + [config.txPadding.value];
        }
      }
      assert padded == Padded(config.txPadding, data);
      var frame := NewFrame(config.requestId, padded);
      if frame.Err? {
        return Err(frame.error);
      }
      r := io.SendFrame(frame.value);
    }
  }

  /** `ReceiveFinal` continued from a PDU already taken off the link. */
  ghost function AfterPdu(cfg: IsoTpConfig, serviceId: byte, pdu: Result<seq<byte>>, link: Link, pending: nat):
    (Result<seq<byte>>, Link)
  {
    if pdu.Err? then (pdu, link)
    else if !IsResponsePendingFor(serviceId, pdu.value) then (StripResponse(serviceId, pdu.value), link)
    else if pending == 0 then (Err(Timeout), link)
    else ReceiveFinal(cfg, serviceId, link, pending - 1)
  }
}
