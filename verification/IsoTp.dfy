/**
  ISO 15765-2 segmentation, reassembly and flow control (`transport/isotp.rs`),
  as an endpoint automaton.

  An asynchronous send or receive only ever stops at a frame it must put on the
  link or a frame it must wait for, so its progress is one value of `Endpoint`
  and its behaviour is one transition per frame. `Run` drives that automaton over
  a whole link history; the methods of `IsoTpTransport` are proved to compute `Run`.
 */
module IsoTp {
  import opened Basics

  const MAX_CLASSIC_ISOTP_PAYLOAD := 4095
  const MAX_CAN_ID := 0x1FFF_FFFF

  datatype CanDataFrame = CanDataFrame(id: u32, data: seq<byte>, isExtendedId: bool)

  /** `CanDataFrame::new`. */
  function NewFrame(id: u32, data: seq<byte>): Result<CanDataFrame> {
    if id > MAX_CAN_ID || |data| > 8 then Err(ParseError)
    else Ok(CanDataFrame(id, data, id > 0x7FF))
  }

  datatype IsoTpConfig = IsoTpConfig(
    requestId: u32,
    responseId: u32,
    blockSize: byte,
    stMin: byte,
    txPadding: Option<byte>,
    maxPayloadLen: nat,
    maxUnrelatedFrames: nat,
    maxFlowControlWaitFrames: nat)

  datatype FlowStatus = ContinueToSend | Wait | Overflow

  datatype FlowControlFrame = FlowControlFrame(status: FlowStatus, blockSize: byte, stMin: byte)

  /** What one `recv_frame` yields: a frame, or the error of a failing link. */
  datatype Received = Got(frame: CanDataFrame) | LinkFault(error: Error)

  /**
    The frame link: what will be received, what has been sent, and whether each coming
    send fails (the link stays up once that script is used up). An empty `rx` times out.
   */
  datatype Link = Link(rx: seq<Received>, tx: seq<CanDataFrame>, sendFaults: seq<bool>)

  // ---- Sending one frame ----

  /** `while data.len() < 8 { data.push(pad) }`. */
  function Padded(padding: Option<byte>, data: seq<byte>): (r: seq<byte>)
    ensures data <= r
    ensures |r| == if padding.Some? && |data| < 8 then 8 else |data|
    ensures forall i :: |data| <= i < |r| ==> Some(r[i]) == padding
  {
    if padding.Some? && |data| < 8 then data + seq(8 - |data|, _ => padding.value) else data
  }

  function LinkSend(frame: CanDataFrame, link: Link): (Result<()>, Link) {
    var faults := if link.sendFaults == [] then [] else link.sendFaults[1..];
    if link.sendFaults != [] && link.sendFaults[0] then
      (Err(Error.Transport), link.(sendFaults := faults))
    else
      (Ok(()), link.(tx := link.tx + [frame], sendFaults := faults))
  }

  /** `send_frame_data`. */
  function Transmit(cfg: IsoTpConfig, data: seq<byte>, link: Link): (Result<()>, Link) {
    if |data| > 8 then (Err(ParseError), link) else
      var frame := NewFrame(cfg.requestId, Padded(cfg.txPadding, data));
      if frame.Err? then (Err(frame.error), link) else LinkSend(frame.value, link)
  }

  // ---- The endpoint automaton ----

  datatype Endpoint =
    | SendingSingle(pdu: seq<byte>)
    | SendingFirst(pdu: seq<byte>)
    | AwaitingFlowControl(pdu: seq<byte>, offset: nat, sequence: byte, waits: nat, unrelated: nat)
    | SendingConsecutive(pdu: seq<byte>, offset: nat, sequence: byte, sentInBlock: byte, blockSize: byte)
    | Sent
    | AwaitingPdu(unrelated: nat)
    | SendingFlowControl(declared: nat, pdu: seq<byte>, expected: byte)
    | AwaitingConsecutive(declared: nat, pdu: seq<byte>, expected: byte, receivedInBlock: byte, unrelated: nat)
    | Delivered(pdu: seq<byte>)
    | Failed(error: Error)
  {
    /** The states in which the code is about to put a frame on the link. */
    predicate Emits() {
      SendingSingle? || SendingFirst? || SendingConsecutive? || SendingFlowControl?
    }

    /** The states in which the code is blocked on `recv_frame`. */
    predicate Awaits() {
      AwaitingFlowControl? || AwaitingPdu? || AwaitingConsecutive?
    }

    predicate Finished() {
      Sent? || Delivered? || Failed?
    }

    ghost predicate Wf() {
      match this
      case SendingSingle(pdu) => |pdu| <= 7
      case SendingFirst(pdu) => 8 <= |pdu| <= MAX_CLASSIC_ISOTP_PAYLOAD
      case AwaitingFlowControl(pdu, offset, sequence, _, _) =>
        6 <= offset < |pdu| <= MAX_CLASSIC_ISOTP_PAYLOAD && sequence < 16
      case SendingConsecutive(pdu, offset, sequence, _, _) =>
        6 <= offset < |pdu| <= MAX_CLASSIC_ISOTP_PAYLOAD && sequence < 16
      case SendingFlowControl(declared, pdu, expected) => |pdu| < declared && expected < 16
      case AwaitingConsecutive(declared, pdu, expected, _, _) => |pdu| < declared && expected < 16
      case _ => true
    }
  }

  /** Entry of `send_pdu`. */
  function StartSend(pdu: seq<byte>): (e: Endpoint)
    ensures e.Wf()
  {
    if |pdu| <= 7 then SendingSingle(pdu)
    else if |pdu| > MAX_CLASSIC_ISOTP_PAYLOAD then Failed(ParseError)
    else SendingFirst(pdu)
  }

  /** Entry of `recv_pdu`. */
  const StartReceive: Endpoint := AwaitingPdu(0)

  function FlowControlData(cfg: IsoTpConfig): seq<byte> {
    [0x30, cfg.blockSize, cfg.stMin]
  }

  /** The unpadded bytes an emitting endpoint puts into its next frame. */
  function Payload(cfg: IsoTpConfig, e: Endpoint): (data: seq<byte>)
    requires e.Wf() && e.Emits()
    ensures |data| <= 8
  {
    match e
    case SendingSingle(pdu) => [|pdu|] + pdu
    case SendingFirst(pdu) => [0x10 + |pdu| / 0x100, |pdu| % 0x100] + pdu[..6]
    case SendingConsecutive(pdu, offset, sequence, _, _) =>
      [0x20 + sequence] + pdu[offset..Min(offset + 7, |pdu|)]
    case SendingFlowControl(_, _, _) => FlowControlData(cfg)
  }

  /** Where an emitting endpoint continues once its frame is on the link. */
  function AfterSend(e: Endpoint): (e': Endpoint)
    requires e.Wf() && e.Emits()
    ensures e'.Wf()
  {
    match e
    case SendingSingle(_) => Sent
    case SendingFirst(pdu) => AwaitingFlowControl(pdu, 6, 1, 0, 0)
    case SendingConsecutive(pdu, offset, sequence, sentInBlock, blockSize) =>
      var offset' := Min(offset + 7, |pdu|);
      var sequence' := (sequence + 1) % 16;
      var sent' := SaturatingInc(sentInBlock);
      if offset' == |pdu| then Sent
      else if blockSize != 0 && sent' >= blockSize then AwaitingFlowControl(pdu, offset', sequence', 0, 0)
      else SendingConsecutive(pdu, offset', sequence', sent', blockSize)
    case SendingFlowControl(declared, pdu, expected) => AwaitingConsecutive(declared, pdu, expected, 0, 0)
  }

  /** `validate_can_frame`. */
  predicate ValidFrame(frame: CanDataFrame) {
    0 < |frame.data| <= 8
  }

  /** `read_flow_control` once the matching frame is in hand. */
  function DecodeFlowControl(data: seq<byte>): Result<FlowControlFrame> {
    if |data| < 3 || data[0] / 16 != 3 then Err(ParseError)
    else match data[0] % 16
      case 0 => Ok(FlowControlFrame(ContinueToSend, data[1], data[2]))
      case 1 => Ok(FlowControlFrame(Wait, data[1], data[2]))
      case 2 => Ok(FlowControlFrame(Overflow, data[1], data[2]))
      case _ => Err(ParseError)
  }

  /** `decode_single_frame`. */
  function DecodeSingleFrame(cfg: IsoTpConfig, data: seq<byte>): Result<seq<byte>>
    requires |data| > 0
  {
    var len := data[0] % 16;
    if |data| < len + 1 || len > cfg.maxPayloadLen then Err(ParseError)
    else Ok(data[1..1 + len])
  }

  /** `recv_multi_frame_pdu` up to its first flow-control frame. */
  function OnFirstFrame(cfg: IsoTpConfig, data: seq<byte>): (e: Endpoint)
    requires 0 < |data| <= 8
    ensures e.Wf()
  {
    if |data| < 2 then Failed(ParseError) else
      var declared: nat := data[0] as int % 16 * 0x100 + data[1] as int;
      if declared <= 7 || declared > cfg.maxPayloadLen then Failed(ParseError)
      else SendingFlowControl(declared, data[2..2 + Min(declared, |data| - 2)], 1)
  }

  /** One turn of the reassembly loop, given a matching frame. */
  function OnConsecutive(cfg: IsoTpConfig, e: Endpoint, data: seq<byte>): (e': Endpoint)
    requires e.AwaitingConsecutive? && e.Wf() && 0 < |data| <= 8
    ensures e'.Wf()
  {
    if data[0] / 16 != 2 || data[0] % 16 != e.expected || |data| == 1 then Failed(ParseError) else
      var pdu' := e.pdu + data[1..1 + Min(e.declared - |e.pdu|, |data| - 1)];
      var expected' := (e.expected + 1) % 16;
      var received' := SaturatingInc(e.receivedInBlock);
      if |pdu'| == e.declared then Delivered(pdu')
      else if cfg.blockSize != 0 && received' >= cfg.blockSize then
        SendingFlowControl(e.declared, pdu', expected')
      else AwaitingConsecutive(e.declared, pdu', expected', received', 0)
  }

  /** Reaction to a frame that carries the awaited identifier. */
  function OnMatching(cfg: IsoTpConfig, e: Endpoint, data: seq<byte>): (e': Endpoint)
    requires e.Wf() && e.Awaits() && 0 < |data| <= 8
    ensures e'.Wf()
  {
    match e
    case AwaitingFlowControl(pdu, offset, sequence, waits, _) => (
      var fc := DecodeFlowControl(data);
      if fc.Err? then Failed(fc.error) else match fc.value.status
        case ContinueToSend => SendingConsecutive(pdu, offset, sequence, 0, fc.value.blockSize)
        case Wait =>
          if waits + 1 > cfg.maxFlowControlWaitFrames then Failed(Timeout)
          else AwaitingFlowControl(pdu, offset, sequence, waits + 1, 0)
        case Overflow => Failed(ParseError))
    case AwaitingPdu(_) => (
      match data[0] / 16
      case 0 => (
        var r := DecodeSingleFrame(cfg, data);
        if r.Ok? then Delivered(r.value) else Failed(r.error))
      case 1 => OnFirstFrame(cfg, data)
      case _ => Failed(ParseError))
    case AwaitingConsecutive(_, _, _, _, _) => OnConsecutive(cfg, e, data)
  }

  /** Reaction to whatever `recv_frame` yields, with the unrelated-frame budget. */
  function OnReceived(cfg: IsoTpConfig, e: Endpoint, item: Received): (e': Endpoint)
    requires e.Wf() && e.Awaits()
    ensures e'.Wf()
  {
    match item
    case LinkFault(error) => Failed(error)
    case Got(frame) =>
      if !ValidFrame(frame) then Failed(ParseError)
      else if frame.id == cfg.responseId then OnMatching(cfg, e, frame.data)
      else if e.unrelated + 1 > cfg.maxUnrelatedFrames then Failed(ParseError)
      else e.(unrelated := e.unrelated + 1)
  }

  /** One action of an unfinished endpoint on its link. */
  function Step(cfg: IsoTpConfig, e: Endpoint, link: Link): (r: (Endpoint, Link))
    requires e.Wf() && !e.Finished()
    ensures r.0.Wf()
  {
    if e.Emits() then
      var (sent, link') := Transmit(cfg, Payload(cfg, e), link);
      (if sent.Err? then Failed(sent.error) else AfterSend(e), link')
    else if link.rx == [] then (Failed(Timeout), link)
    else (OnReceived(cfg, e, link.rx[0]), link.(rx := link.rx[1..]))
  }

  /** Frames an endpoint may still emit before it must receive. */
  ghost function Backlog(e: Endpoint): nat
    requires e.Wf()
  {
    match e
    case SendingConsecutive(pdu, offset, _, _, _) => 2 + |pdu| - offset
    case SendingSingle(_) => 2
    case SendingFirst(_) => 2
    case SendingFlowControl(_, _, _) => 2
    case AwaitingFlowControl(_, _, _, _, _) => 1
    case AwaitingPdu(_) => 1
    case AwaitingConsecutive(_, _, _, _, _) => 1
    case _ => 0
  }

  lemma EmitLowersBacklog(e: Endpoint)
    requires e.Wf() && e.Emits()
    ensures Backlog(AfterSend(e)) < Backlog(e)
  {
  }

  /** The endpoint run to its end: its final state and the link it leaves behind. */
  function Run(cfg: IsoTpConfig, e: Endpoint, link: Link): (r: (Endpoint, Link))
    requires e.Wf()
    ensures r.0.Finished() && r.0.Wf()
    decreases |link.rx|, Backlog(e)
  {
    if e.Finished() then (e, link) else
      var (e', link') := Step(cfg, e, link);
      Run(cfg, e', link')
  }

  /** A finished endpoint leaves its link alone. */
  lemma RunFinished(cfg: IsoTpConfig, e: Endpoint, link: Link)
    requires e.Finished()
    ensures e.Wf() && Run(cfg, e, link) == (e, link)
  {
  }

  /** An emitting endpoint runs on exactly as `send_frame_data` lets it. */
  lemma RunEmits(cfg: IsoTpConfig, e: Endpoint, link: Link)
    requires e.Wf() && e.Emits()
    ensures
      var (sent, link') := Transmit(cfg, Payload(cfg, e), link);
      Run(cfg, e, link) ==
      if sent.Err? then (Failed(sent.error), link') else Run(cfg, AfterSend(e), link')
  {
    hide OnReceived;
    var (sent, link') := Transmit(cfg, Payload(cfg, e), link);
    if sent.Err? {
      RunFinished(cfg, Failed(sent.error), link');
    }
  }

  // ---- The receive loops as functions of the inbound queue ----

  /** `read_matching_frame`, entered after `unrelated` foreign frames. */
  function ReadMatching(cfg: IsoTpConfig, rx: seq<Received>, unrelated: nat): (r: (Result<CanDataFrame>, seq<Received>))
    ensures r.0.Ok? ==> ValidFrame(r.0.value) && r.0.value.id == cfg.responseId && |r.1| < |rx|
  {
    if rx == [] then (Err(Timeout), rx) else
      match rx[0]
      case LinkFault(error) => (Err(error), rx[1..])
      case Got(frame) =>
        if !ValidFrame(frame) then (Err(ParseError), rx[1..])
        else if frame.id == cfg.responseId then (Ok(frame), rx[1..])
        else if unrelated + 1 > cfg.maxUnrelatedFrames then (Err(ParseError), rx[1..])
        else ReadMatching(cfg, rx[1..], unrelated + 1)
  }

  /** `wait_for_continue_to_send`, entered after `waits` WAIT frames. */
  function AwaitContinue(
    cfg: IsoTpConfig, rx: seq<Received>, waits: nat): (r: (Result<FlowControlFrame>, seq<Received>))
    ensures r.0.Ok? ==> |r.1| < |rx|
    decreases |rx|
  {
    var (frame, rest) := ReadMatching(cfg, rx, 0);
    if frame.Err? then (Err(frame.error), rest) else
      var fc := DecodeFlowControl(frame.value.data);
      if fc.Err? then (fc, rest) else
        match fc.value.status
        case ContinueToSend => (fc, rest)
        case Wait =>
          if waits + 1 > cfg.maxFlowControlWaitFrames then (Err(Timeout), rest)
          else AwaitContinue(cfg, rest, waits + 1)
        case Overflow => (Err(ParseError), rest)
  }

  /** A blocked endpoint runs on exactly as `read_matching_frame` lets it. */
  lemma {:induction false} RunReadsMatching(cfg: IsoTpConfig, e: Endpoint, link: Link)
    requires e.Wf() && e.Awaits()
    ensures
      var (frame, rest) := ReadMatching(cfg, link.rx, e.unrelated);
      Run(cfg, e, link) ==
      if frame.Err? then (Failed(frame.error), link.(rx := rest))
      else Run(cfg, OnMatching(cfg, e, frame.value.data), link.(rx := rest))
    decreases |link.rx|
  {
    hide OnMatching, Payload, Transmit, AfterSend;
    if link.rx != [] {
      var item := link.rx[0];
      if item.Got? && ValidFrame(item.frame) && item.frame.id != cfg.responseId
         && e.unrelated + 1 <= cfg.maxUnrelatedFrames {
        var e' := e.(unrelated := e.unrelated + 1);
        var link' := link.(rx := link.rx[1..]);
        RunReadsMatching(cfg, e', link');
        var data := ReadMatching(cfg, link'.rx, e'.unrelated).0;
        if data.Ok? {
          OnMatchingForgetsUnrelated(cfg, e, e'.unrelated, data.value.data);
        }
      }
    }
  }

  lemma OnMatchingForgetsUnrelated(cfg: IsoTpConfig, e: Endpoint, unrelated: nat, data: seq<byte>)
    requires e.Wf() && e.Awaits() && 0 < |data| <= 8
    ensures OnMatching(cfg, e.(unrelated := unrelated), data) == OnMatching(cfg, e, data)
  {
  }

  /** A sender waiting for flow control runs on exactly as `wait_for_continue_to_send` lets it. */
  lemma {:induction false} RunAwaitsContinue(cfg: IsoTpConfig, e: Endpoint, link: Link)
    requires e.Wf() && e.AwaitingFlowControl? && e.unrelated == 0
    ensures
      var (fc, rest) := AwaitContinue(cfg, link.rx, e.waits);
      Run(cfg, e, link) ==
      if fc.Err? then (Failed(fc.error), link.(rx := rest))
      else Run(cfg, SendingConsecutive(e.pdu, e.offset, e.sequence, 0, fc.value.blockSize), link.(rx := rest))
    decreases |link.rx|
  {
    hide Run, ReadMatching, OnFirstFrame, OnConsecutive, DecodeSingleFrame, DecodeFlowControl;
    RunReadsMatching(cfg, e, link);
    var (frame, rest) := ReadMatching(cfg, link.rx, 0);
    if frame.Ok? {
      var next := OnMatching(cfg, e, frame.value.data);
      if next.Failed? {
        RunFinished(cfg, next, link.(rx := rest));
      }
      var fc := DecodeFlowControl(frame.value.data);
      if fc.Ok? && fc.value.status.Wait? && e.waits + 1 <= cfg.maxFlowControlWaitFrames {
        RunAwaitsContinue(cfg, e.(waits := e.waits + 1), link.(rx := rest));
      }
    }
  }
}
