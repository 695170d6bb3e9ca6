/**
  Two ISO-TP endpoints with swapped identifiers on one bus: `send_pdu` on the one,
  `recv_pdu` on the other, under every interleaving of their actions.

  The reachable states are exactly the images (`Shape`) of a small set of phases;
  each enabled action maps a legal phase to a legal phase, which is the invariant
  from which delivery, absence of deadlock and the frame counts follow.
 */
module IsoTpDuplex {
  import opened Basics
  import opened IsoTp

  datatype Turn = Sender | Receiver

  /**
    Both endpoints, the frames in flight each way, and the frames each has ever sent.
   */
  datatype Bus = Bus(
    a: Endpoint, b: Endpoint,
    ab: seq<CanDataFrame>, ba: seq<CanDataFrame>,
    logA: seq<CanDataFrame>, logB: seq<CanDataFrame>)
  {
    ghost predicate Wf() {
      a.Wf() && b.Wf()
    }

    predicate Enabled(turn: Turn) {
      match turn
      case Sender => a.Emits() || (a.Awaits() && ba != [])
      case Receiver => b.Emits() || (b.Awaits() && ab != [])
    }
  }

  /** One action of an endpoint with an inbox: its next state, inbox and sent frames. */
  function Act(
    cfg: IsoTpConfig, e: Endpoint, inbox: seq<CanDataFrame>): (r: (Endpoint, seq<CanDataFrame>, seq<CanDataFrame>))
    requires e.Wf() && (e.Emits() || (e.Awaits() && inbox != []))
    ensures r.0.Wf()
  {
    if e.Emits() then
      var (e', link) := Step(cfg, e, Link([], [], []));
      (e', inbox, link.tx)
    else
      (OnReceived(cfg, e, Got(inbox[0])), inbox[1..], [])
  }

  function Move(cfgA: IsoTpConfig, cfgB: IsoTpConfig, bus: Bus, turn: Turn): (bus': Bus)
    requires bus.Wf() && bus.Enabled(turn)
    ensures bus'.Wf()
  {
    match turn
    case Sender =>
      var (a, ba, out) := Act(cfgA, bus.a, bus.ba);
      bus.(a := a, ba := ba, ab := bus.ab + out, logA := bus.logA + out)
    case Receiver =>
      var (b, ab, out) := Act(cfgB, bus.b, bus.ab);
      bus.(b := b, ab := ab, ba := bus.ba + out, logB := bus.logB + out)
  }

  /** The bus after a schedule, or None if the schedule picks an action that is not enabled. */
  function Execute(cfgA: IsoTpConfig, cfgB: IsoTpConfig, bus: Bus, schedule: seq<Turn>): (r: Option<Bus>)
    requires bus.Wf()
    ensures r.Some? ==> r.value.Wf()
    decreases |schedule|
  {
    if schedule == [] then Some(bus) else
      var k := |schedule| - 1;
      var before := Execute(cfgA, cfgB, bus, schedule[..k]);
      if before.None? || !before.value.Enabled(schedule[k]) then None
      else Some(Move(cfgA, cfgB, before.value, schedule[k]))
  }

  function Initial(pdu: seq<byte>): (bus: Bus)
    ensures bus.Wf()
  {
    Bus(StartSend(pdu), StartReceive, [], [], [], [])
  }

  /** Swapped identifiers, and a PDU that both classic ISO-TP and the receiver admit. */
  predicate Compatible(cfgA: IsoTpConfig, cfgB: IsoTpConfig, pdu: seq<byte>) {
    && cfgA.requestId == cfgB.responseId <= MAX_CAN_ID
    && cfgB.requestId == cfgA.responseId <= MAX_CAN_ID
    && |pdu| <= MAX_CLASSIC_ISOTP_PAYLOAD
    && |pdu| <= cfgB.maxPayloadLen
  }

  // ---- The frames of a segmented PDU ----

  function Framed(cfg: IsoTpConfig, data: seq<byte>): CanDataFrame {
    CanDataFrame(cfg.requestId, Padded(cfg.txPadding, data), cfg.requestId > 0x7FF)
  }

  function SingleFrame(cfg: IsoTpConfig, pdu: seq<byte>): CanDataFrame
    requires |pdu| <= 7
  {
    Framed(cfg, [|pdu|] + pdu)
  }

  function FirstFrame(cfg: IsoTpConfig, pdu: seq<byte>): CanDataFrame
    requires 8 <= |pdu| <= MAX_CLASSIC_ISOTP_PAYLOAD
  {
    Framed(cfg, [0x10 + |pdu| / 0x100, |pdu| % 0x100] + pdu[..6])
  }

  /** Bytes of `pdu` carried by the first frame and `k` consecutive frames. */
  function Offset(pdu: seq<byte>, k: nat): (o: nat)
    ensures o <= |pdu|
    ensures |pdu| > 7 && k < ConsecutiveCount(|pdu|) ==> 6 <= o < |pdu|
  {
    Min(6 + 7 * k, |pdu|)
  }

  /** How many consecutive frames a PDU of `n` bytes takes: ceil((n - 6) / 7). */
  function ConsecutiveCount(n: nat): (m: nat)
    ensures n <= 6 ==> m == 0
    ensures n > 6 ==> m > 0 && 6 + 7 * (m - 1) < n <= 6 + 7 * m
  {
    if n <= 6 then 0 else DivCeilUnique(n - 6, 7, DivCeil(n - 6, 7)); DivCeil(n - 6, 7)
  }

  /** The `j`-th consecutive frame, counted from 1. */
  function ConsecutiveFrame(cfg: IsoTpConfig, pdu: seq<byte>, j: nat): CanDataFrame
    requires j >= 1
  {
    Framed(cfg, [0x20 + j % 16] + pdu[Offset(pdu, j - 1)..Offset(pdu, j)])
  }

  /** Consecutive frames `lo + 1` to `hi`. */
  function ConsecutiveFrames(cfg: IsoTpConfig, pdu: seq<byte>, lo: nat, hi: nat): (s: seq<CanDataFrame>)
    requires lo <= hi
    ensures |s| == hi - lo
    ensures forall i :: 0 <= i < |s| ==> s[i] == ConsecutiveFrame(cfg, pdu, lo + i + 1)
  {
    seq(hi - lo, i requires 0 <= i < hi - lo => ConsecutiveFrame(cfg, pdu, lo + i + 1))
  }

  /** Everything the sender puts on the bus for `pdu`. */
  function Segments(cfg: IsoTpConfig, pdu: seq<byte>): seq<CanDataFrame>
    requires |pdu| <= MAX_CLASSIC_ISOTP_PAYLOAD
  {
    if |pdu| <= 7 then [SingleFrame(cfg, pdu)]
    else [FirstFrame(cfg, pdu)] + ConsecutiveFrames(cfg, pdu, 0, ConsecutiveCount(|pdu|))
  }

  function FlowControls(cfg: IsoTpConfig, count: nat): (s: seq<CanDataFrame>)
    ensures |s| == count
  {
    seq(count, _ => Framed(cfg, FlowControlData(cfg)))
  }

  /** Flow-control frames a PDU of `n` bytes costs a receiver with block size `bs`. */
  function FlowControlCount(n: nat, bs: byte): nat {
    if n <= 7 then 0 else if bs == 0 then 1 else DivCeil(ConsecutiveCount(n), bs)
  }

  // ---- Phases ----

  /**
    `f` counts the flow-control frames sent so far, `base` the consecutive frames received
    when the latest was sent, `k` and `r` the consecutive frames sent and received.
   */
  datatype Phase =
    | Start
    | SingleInFlight
    | SingleDelivered
    | FirstInFlight
    | FlowControlDue(k: nat, f: nat)
    | FlowControlInFlight(k: nat, f: nat)
    | Streaming(base: nat, r: nat, k: nat, f: nat)
    | BlockEnd(base: nat, r: nat, f: nat)
    | Draining(base: nat, r: nat, f: nat)
    | Complete(f: nat)

  /** After `f` flow-control frames, the latest went out when `base` frames had been received. */
  ghost predicate Blocks(bs: byte, base: nat, f: nat) {
    f >= 1 && base == (if bs == 0 then 0 else (f - 1) * bs) && (bs == 0 ==> f == 1)
  }

  ghost predicate Legal(cfgB: IsoTpConfig, pdu: seq<byte>, p: Phase) {
    var m := ConsecutiveCount(|pdu|);
    var bs := cfgB.blockSize;
    match p
    case Start => true
    case SingleInFlight => |pdu| <= 7
    case SingleDelivered => |pdu| <= 7
    case FirstInFlight => |pdu| > 7
    case FlowControlDue(k, f) => |pdu| > 7 && k < m && Blocks(bs, k, f + 1)
    case FlowControlInFlight(k, f) => |pdu| > 7 && k < m && Blocks(bs, k, f)
    case Streaming(base, r, k, f) =>
      |pdu| > 7 && Blocks(bs, base, f) && base <= r <= k < m && (bs != 0 ==> k - base < bs)
    case BlockEnd(base, r, f) =>
      |pdu| > 7 && Blocks(bs, base, f) && bs != 0 && base <= r < base + bs < m
    case Draining(base, r, f) =>
      |pdu| > 7 && Blocks(bs, base, f) && base <= r < m && (bs != 0 ==> m <= base + bs)
    case Complete(f) => |pdu| > 7 && f == FlowControlCount(|pdu|, bs)
  }

  function Next(k: nat): (sequence: byte)
    ensures sequence < 16
  {
    (k + 1) % 16
  }

  function AwaitingFcAt(pdu: seq<byte>, k: nat): (e: Endpoint)
    ensures 7 < |pdu| <= MAX_CLASSIC_ISOTP_PAYLOAD && k < ConsecutiveCount(|pdu|) ==> e.Wf()
  {
    AwaitingFlowControl(pdu, Offset(pdu, k), Next(k), 0, 0)
  }

  function AwaitingCfAt(pdu: seq<byte>, base: nat, r: nat): (e: Endpoint)
    requires base <= r
    ensures |pdu| > 7 && r < ConsecutiveCount(|pdu|) ==> e.Wf()
  {
    AwaitingConsecutive(|pdu|, pdu[..Offset(pdu, r)], Next(r), Min(r - base, 255), 0)
  }

  /** The bus in a phase. */
  ghost function Shape(cfgA: IsoTpConfig, cfgB: IsoTpConfig, pdu: seq<byte>, p: Phase): Bus
    requires |pdu| <= MAX_CLASSIC_ISOTP_PAYLOAD && Legal(cfgB, pdu, p)
  {
    var m := ConsecutiveCount(|pdu|);
    match p
    case Start => Initial(pdu)
    case SingleInFlight =>
      var sf := [SingleFrame(cfgA, pdu)];
      Bus(Sent, StartReceive, sf, [], sf, [])
    case SingleDelivered => Bus(Sent, Delivered(pdu), [], [], [SingleFrame(cfgA, pdu)], [])
    case FirstInFlight =>
      var ff := [FirstFrame(cfgA, pdu)];
      Bus(AwaitingFcAt(pdu, 0), StartReceive, ff, [], ff, [])
    case FlowControlDue(k, f) =>
      Bus(AwaitingFcAt(pdu, k), SendingFlowControl(|pdu|, pdu[..Offset(pdu, k)], Next(k)),
          [], [], [FirstFrame(cfgA, pdu)] + ConsecutiveFrames(cfgA, pdu, 0, k), FlowControls(cfgB, f))
    case FlowControlInFlight(k, f) =>
      Bus(AwaitingFcAt(pdu, k), AwaitingCfAt(pdu, k, k),
          [], FlowControls(cfgB, 1),
          [FirstFrame(cfgA, pdu)] + ConsecutiveFrames(cfgA, pdu, 0, k), FlowControls(cfgB, f))
    case Streaming(base, r, k, f) =>
      Bus(SendingConsecutive(pdu, Offset(pdu, k), Next(k), Min(k - base, 255), cfgB.blockSize),
          AwaitingCfAt(pdu, base, r),
          ConsecutiveFrames(cfgA, pdu, r, k), [],
          [FirstFrame(cfgA, pdu)] + ConsecutiveFrames(cfgA, pdu, 0, k), FlowControls(cfgB, f))
    case BlockEnd(base, r, f) =>
      var k := base + cfgB.blockSize;
      Bus(AwaitingFcAt(pdu, k), AwaitingCfAt(pdu, base, r),
          ConsecutiveFrames(cfgA, pdu, r, k), [],
          [FirstFrame(cfgA, pdu)] + ConsecutiveFrames(cfgA, pdu, 0, k), FlowControls(cfgB, f))
    case Draining(base, r, f) =>
      Bus(Sent, AwaitingCfAt(pdu, base, r),
          ConsecutiveFrames(cfgA, pdu, r, m), [], Segments(cfgA, pdu), FlowControls(cfgB, f))
    case Complete(f) =>
      Bus(Sent, Delivered(pdu), [], [], Segments(cfgA, pdu), FlowControls(cfgB, f))
  }

  // ---- What each frame does to its receiver ----

  lemma SingleFrameDelivers(cfgA: IsoTpConfig, cfgB: IsoTpConfig, pdu: seq<byte>)
    requires Compatible(cfgA, cfgB, pdu) && |pdu| <= 7
    ensures OnReceived(cfgB, StartReceive, Got(SingleFrame(cfgA, pdu))) == Delivered(pdu)
  {
    var data := SingleFrame(cfgA, pdu).data;
    assert data[1..1 + |pdu|] == pdu;
  }

  lemma FirstFrameOpens(cfgA: IsoTpConfig, cfgB: IsoTpConfig, pdu: seq<byte>)
    requires Compatible(cfgA, cfgB, pdu) && |pdu| > 7
    ensures OnReceived(cfgB, StartReceive, Got(FirstFrame(cfgA, pdu))) == SendingFlowControl(|pdu|, pdu[..6], 1)
  {
    var data := FirstFrame(cfgA, pdu).data;
    assert data[2..8] == pdu[..6];
    assert |pdu| == |pdu| / 0x100 * 0x100 + |pdu| % 0x100;
    assert data[0] as int / 16 == 1 && data[0] as int % 16 == |pdu| / 0x100;
  }

  lemma FlowControlReleases(cfgA: IsoTpConfig, cfgB: IsoTpConfig, pdu: seq<byte>, k: nat)
    requires Compatible(cfgA, cfgB, pdu) && k < ConsecutiveCount(|pdu|)
    ensures AwaitingFcAt(pdu, k).Wf()
    ensures OnReceived(cfgA, AwaitingFcAt(pdu, k), Got(Framed(cfgB, FlowControlData(cfgB)))) ==
            SendingConsecutive(pdu, Offset(pdu, k), Next(k), 0, cfgB.blockSize)
  {
    var data := Framed(cfgB, FlowControlData(cfgB)).data;
    assert data[0] == 0x30 && data[1] == cfgB.blockSize && data[2] == cfgB.stMin;
    hide OnFirstFrame, OnConsecutive, DecodeSingleFrame;
  }

  /** The share of `pdu` in consecutive frame `number`. */
  function Share(pdu: seq<byte>, number: nat): seq<byte>
    requires number >= 1
  {
    pdu[Offset(pdu, number - 1)..Offset(pdu, number)]
  }

  lemma CopyContents(cfgA: IsoTpConfig, cfgB: IsoTpConfig, pdu: seq<byte>, e: Endpoint, number: nat)
    requires Compatible(cfgA, cfgB, pdu) && e.Wf() && e.AwaitingConsecutive?
    requires 1 <= number <= ConsecutiveCount(|pdu|)
    ensures
      var data := ConsecutiveFrame(cfgA, pdu, number).data;
      var share := Share(pdu, number);
      && 2 <= 1 + |share| <= |data| <= 8
      && data[0] as int / 16 == 2 && data[0] as int % 16 == number % 16 && data[1..1 + |share|] == share
      && OnReceived(cfgB, e, Got(ConsecutiveFrame(cfgA, pdu, number))) == OnConsecutive(cfgB, e, data)
  {
    hide OnFirstFrame, DecodeFlowControl, DecodeSingleFrame, OnConsecutive;
    assert ConsecutiveFrame(cfgA, pdu, number).data[0] == 0x20 + number % 16;
  }

  /** The receiver takes exactly its share of a consecutive frame, padding or not. */
  lemma ConsecutiveFrameAdvances(cfgA: IsoTpConfig, cfgB: IsoTpConfig, pdu: seq<byte>, base: nat, r: nat)
    requires Compatible(cfgA, cfgB, pdu) && |pdu| > 7 && base <= r < ConsecutiveCount(|pdu|)
    ensures AwaitingCfAt(pdu, base, r).Wf()
    ensures
      OnReceived(cfgB, AwaitingCfAt(pdu, base, r), Got(ConsecutiveFrame(cfgA, pdu, r + 1))) ==
      if r + 1 == ConsecutiveCount(|pdu|) then Delivered(pdu)
      else if cfgB.blockSize != 0 && Min(r + 1 - base, 255) >= cfgB.blockSize then
        SendingFlowControl(|pdu|, pdu[..Offset(pdu, r + 1)], Next(r + 1))
      else AwaitingCfAt(pdu, base, r + 1)
  {
    hide OnReceived, OnConsecutive, ConsecutiveFrame, ConsecutiveCount, Share, Offset, SaturatingInc;
    var e := AwaitingCfAt(pdu, base, r);
    var data := ConsecutiveFrame(cfgA, pdu, r + 1).data;
    ShareExtends(pdu, r);
    CopyContents(cfgA, cfgB, pdu, e, r + 1);
    TakesShare(cfgB, e, data, Share(pdu, r + 1));
    NextCounts(base, r);
  }

  lemma NextCounts(base: nat, r: nat)
    requires base <= r
    ensures (Next(r) + 1) % 16 == Next(r + 1) && SaturatingInc(Min(r - base, 255)) == Min(r + 1 - base, 255)
  {
  }

  lemma ShareExtends(pdu: seq<byte>, r: nat)
    requires |pdu| > 7 && r < ConsecutiveCount(|pdu|)
    ensures pdu[..Offset(pdu, r)] + Share(pdu, r + 1) == pdu[..Offset(pdu, r + 1)]
    ensures |Share(pdu, r + 1)| == Min(|pdu| - Offset(pdu, r), 7) > 0
    ensures Offset(pdu, r + 1) == |pdu| <==> r + 1 == ConsecutiveCount(|pdu|)
    ensures pdu[..|pdu|] == pdu
  {
  }

  /** The loop takes from a consecutive frame in sequence what it still needs. */
  lemma TakesShare(cfg: IsoTpConfig, e: Endpoint, data: seq<byte>, share: seq<byte>)
    requires e.Wf() && e.AwaitingConsecutive? && 2 <= 1 + |share| <= |data| <= 8
    requires data[0] as int / 16 == 2 && data[0] as int % 16 == e.expected && data[1..1 + |share|] == share
    requires |share| == Min(e.declared - |e.pdu|, 7)
    ensures
      OnConsecutive(cfg, e, data) ==
      if |e.pdu + share| == e.declared then Delivered(e.pdu + share)
      else if cfg.blockSize != 0 && SaturatingInc(e.receivedInBlock) >= cfg.blockSize then
        SendingFlowControl(e.declared, e.pdu + share, (e.expected + 1) % 16)
      else AwaitingConsecutive(e.declared, e.pdu + share, (e.expected + 1) % 16, SaturatingInc(e.receivedInBlock), 0)
  {
  }

  lemma TransmitsFramed(cfg: IsoTpConfig, data: seq<byte>)
    requires cfg.requestId <= MAX_CAN_ID && |data| <= 8
    ensures Transmit(cfg, data, Link([], [], [])) == (Ok(()), Link([], [Framed(cfg, data)], []))
  {
    assert [] + [Framed(cfg, data)] == [Framed(cfg, data)];
  }

  // ---- Phase transitions ----

  ghost function AfterSender(cfgB: IsoTpConfig, pdu: seq<byte>, p: Phase): Phase {
    var bs := cfgB.blockSize;
    match p
    case Start => if |pdu| <= 7 then SingleInFlight else FirstInFlight
    case FlowControlInFlight(k, f) => Streaming(k, k, k, f)
    case Streaming(base, r, k, f) =>
      if k + 1 == ConsecutiveCount(|pdu|) then Draining(base, r, f)
      else if bs != 0 && k + 1 - base == bs then BlockEnd(base, r, f)
      else Streaming(base, r, k + 1, f)
    case _ => p
  }

  ghost function AfterReceiver(cfgB: IsoTpConfig, pdu: seq<byte>, p: Phase): Phase {
    match p
    case SingleInFlight => SingleDelivered
    case FirstInFlight => FlowControlDue(0, 0)
    case FlowControlDue(k, f) => FlowControlInFlight(k, f + 1)
    case Streaming(base, r, k, f) => Streaming(base, r + 1, k, f)
    case BlockEnd(base, r, f) =>
      if r + 1 == base + cfgB.blockSize then FlowControlDue(r + 1, f) else BlockEnd(base, r + 1, f)
    case Draining(base, r, f) =>
      if r + 1 == ConsecutiveCount(|pdu|) then Complete(f) else Draining(base, r + 1, f)
    case _ => p
  }

  /** Sending the frame an emitting endpoint owes. */
  lemma EmitActs(cfg: IsoTpConfig, e: Endpoint, inbox: seq<CanDataFrame>)
    requires cfg.requestId <= MAX_CAN_ID && e.Wf() && e.Emits()
    ensures Act(cfg, e, inbox) == (AfterSend(e), inbox, [Framed(cfg, Payload(cfg, e))])
  {
    hide OnReceived;
    TransmitsFramed(cfg, Payload(cfg, e));
  }

  lemma SenderStarts(cfgA: IsoTpConfig, cfgB: IsoTpConfig, pdu: seq<byte>)
    requires Compatible(cfgA, cfgB, pdu)
    ensures Legal(cfgB, pdu, AfterSender(cfgB, pdu, Start))
    ensures Move(cfgA, cfgB, Shape(cfgA, cfgB, pdu, Start), Sender) ==
            Shape(cfgA, cfgB, pdu, AfterSender(cfgB, pdu, Start))
  {
    hide Act;
    EmitActs(cfgA, StartSend(pdu), []);
  }

  lemma SenderContinues(cfgA: IsoTpConfig, cfgB: IsoTpConfig, pdu: seq<byte>, p: Phase)
    requires Compatible(cfgA, cfgB, pdu) && Legal(cfgB, pdu, p) && p.FlowControlInFlight?
    ensures Legal(cfgB, pdu, AfterSender(cfgB, pdu, p))
    ensures Move(cfgA, cfgB, Shape(cfgA, cfgB, pdu, p), Sender) == Shape(cfgA, cfgB, pdu, AfterSender(cfgB, pdu, p))
  {
    hide OnReceived;
    FlowControlReleases(cfgA, cfgB, pdu, p.k);
    assert ConsecutiveFrames(cfgA, pdu, p.k, p.k) == [];
  }

  /** The streaming sender emits consecutive frame `k + 1` and moves its counters past it. */
  lemma StreamAct(cfg: IsoTpConfig, pdu: seq<byte>, k: nat, sent: byte, bs: byte)
    requires cfg.requestId <= MAX_CAN_ID && 7 < |pdu| <= MAX_CLASSIC_ISOTP_PAYLOAD && k < ConsecutiveCount(|pdu|)
    ensures
      var a := SendingConsecutive(pdu, Offset(pdu, k), Next(k), sent, bs);
      && a.Wf()
      && Act(cfg, a, []) ==
         (if k + 1 == ConsecutiveCount(|pdu|) then Sent
          else if bs != 0 && SaturatingInc(sent) >= bs then AwaitingFcAt(pdu, k + 1)
          else SendingConsecutive(pdu, Offset(pdu, k + 1), Next(k + 1), SaturatingInc(sent), bs),
          [], [ConsecutiveFrame(cfg, pdu, k + 1)])
  {
    hide Act, Framed, Payload, AfterSend, ConsecutiveFrame;
    var a := SendingConsecutive(pdu, Offset(pdu, k), Next(k), sent, bs);
    OffsetsStep(pdu, k);
    StreamPayload(cfg, pdu, k, sent, bs);
    AfterStream(pdu, k, sent, bs);
    EmitActs(cfg, a, []);
  }

  lemma OffsetsStep(pdu: seq<byte>, k: nat)
    requires |pdu| > 7 && k < ConsecutiveCount(|pdu|)
    ensures 6 <= Offset(pdu, k) < |pdu| && Offset(pdu, k + 1) == Min(Offset(pdu, k) + 7, |pdu|)
    ensures Offset(pdu, k + 1) == |pdu| <==> k + 1 == ConsecutiveCount(|pdu|)
  {
  }

  lemma StreamPayload(cfg: IsoTpConfig, pdu: seq<byte>, k: nat, sent: byte, bs: byte)
    requires 7 < |pdu| <= MAX_CLASSIC_ISOTP_PAYLOAD && k < ConsecutiveCount(|pdu|)
    ensures
      var a := SendingConsecutive(pdu, Offset(pdu, k), Next(k), sent, bs);
      a.Wf() && Framed(cfg, Payload(cfg, a)) == ConsecutiveFrame(cfg, pdu, k + 1)
  {
    hide Framed, Offset;
    OffsetsStep(pdu, k);
  }

  lemma AfterStream(pdu: seq<byte>, k: nat, sent: byte, bs: byte)
    requires 7 < |pdu| <= MAX_CLASSIC_ISOTP_PAYLOAD && k < ConsecutiveCount(|pdu|)
    ensures
      var a := SendingConsecutive(pdu, Offset(pdu, k), Next(k), sent, bs);
      && a.Wf()
      && AfterSend(a) ==
         if k + 1 == ConsecutiveCount(|pdu|) then Sent
         else if bs != 0 && SaturatingInc(sent) >= bs then AwaitingFcAt(pdu, k + 1)
         else SendingConsecutive(pdu, Offset(pdu, k + 1), Next(k + 1), SaturatingInc(sent), bs)
  {
    hide Offset, ConsecutiveCount, SaturatingInc;
    OffsetsStep(pdu, k);
    NextCounts(k, k);
  }

  lemma FramesGrow(cfg: IsoTpConfig, pdu: seq<byte>, r: nat, k: nat)
    requires r <= k && 7 < |pdu| <= MAX_CLASSIC_ISOTP_PAYLOAD
    ensures ConsecutiveFrames(cfg, pdu, r, k + 1) ==
            ConsecutiveFrames(cfg, pdu, r, k) + [ConsecutiveFrame(cfg, pdu, k + 1)]
  {
    hide ConsecutiveFrame;
  }

  lemma SenderStreams(cfgA: IsoTpConfig, cfgB: IsoTpConfig, pdu: seq<byte>, p: Phase)
    requires Compatible(cfgA, cfgB, pdu) && Legal(cfgB, pdu, p) && p.Streaming?
    ensures Legal(cfgB, pdu, AfterSender(cfgB, pdu, p))
    ensures Move(cfgA, cfgB, Shape(cfgA, cfgB, pdu, p), Sender) == Shape(cfgA, cfgB, pdu, AfterSender(cfgB, pdu, p))
  {
    hide Act, Offset, Next, AwaitingFcAt, AwaitingCfAt, ConsecutiveCount, Blocks;
    hide ConsecutiveFrame, ConsecutiveFrames, FirstFrame, FlowControls;
    var (base, r, k) := (p.base, p.r, p.k);
    StreamAct(cfgA, pdu, k, Min(k - base, 255), cfgB.blockSize);
    FramesGrow(cfgA, pdu, r, k);
    FramesGrow(cfgA, pdu, 0, k);
    var cf := ConsecutiveFrame(cfgA, pdu, k + 1);
    assert [FirstFrame(cfgA, pdu)] + ConsecutiveFrames(cfgA, pdu, 0, k + 1) ==
           [FirstFrame(cfgA, pdu)] + ConsecutiveFrames(cfgA, pdu, 0, k) + [cf];
  }

  lemma SenderMoves(cfgA: IsoTpConfig, cfgB: IsoTpConfig, pdu: seq<byte>, p: Phase)
    requires Compatible(cfgA, cfgB, pdu) && Legal(cfgB, pdu, p)
    requires Shape(cfgA, cfgB, pdu, p).Enabled(Sender)
    ensures Legal(cfgB, pdu, AfterSender(cfgB, pdu, p))
    ensures Move(cfgA, cfgB, Shape(cfgA, cfgB, pdu, p), Sender) == Shape(cfgA, cfgB, pdu, AfterSender(cfgB, pdu, p))
  {
    hide Move;
    match p
    case Start => SenderStarts(cfgA, cfgB, pdu);
    case FlowControlInFlight(_, _) => SenderContinues(cfgA, cfgB, pdu, p);
    case Streaming(_, _, _, _) => SenderStreams(cfgA, cfgB, pdu, p);
    case _ =>
  }

  lemma ReceiverAnswersFirst(cfgA: IsoTpConfig, cfgB: IsoTpConfig, pdu: seq<byte>, p: Phase)
    requires Compatible(cfgA, cfgB, pdu) && Legal(cfgB, pdu, p) && (p.SingleInFlight? || p.FirstInFlight?)
    ensures Legal(cfgB, pdu, AfterReceiver(cfgB, pdu, p))
    ensures Move(cfgA, cfgB, Shape(cfgA, cfgB, pdu, p), Receiver) == Shape(cfgA, cfgB, pdu, AfterReceiver(cfgB, pdu, p))
  {
    hide OnReceived;
    if p.SingleInFlight? {
      SingleFrameDelivers(cfgA, cfgB, pdu);
    } else {
      FirstFrameOpens(cfgA, cfgB, pdu);
      assert [FirstFrame(cfgA, pdu)] + ConsecutiveFrames(cfgA, pdu, 0, 0) == [FirstFrame(cfgA, pdu)];
    }
  }

  lemma ReceiverGrants(cfgA: IsoTpConfig, cfgB: IsoTpConfig, pdu: seq<byte>, p: Phase)
    requires Compatible(cfgA, cfgB, pdu) && Legal(cfgB, pdu, p) && p.FlowControlDue?
    ensures Legal(cfgB, pdu, AfterReceiver(cfgB, pdu, p))
    ensures Move(cfgA, cfgB, Shape(cfgA, cfgB, pdu, p), Receiver) == Shape(cfgA, cfgB, pdu, AfterReceiver(cfgB, pdu, p))
  {
    hide Act, Framed;
    var b := Shape(cfgA, cfgB, pdu, p).b;
    EmitActs(cfgB, b, []);
    assert FlowControls(cfgB, p.f + 1) == FlowControls(cfgB, p.f) + [Framed(cfgB, FlowControlData(cfgB))];
    assert [] + [Framed(cfgB, FlowControlData(cfgB))] == FlowControls(cfgB, 1);
  }

  lemma ReceiverAct(cfgA: IsoTpConfig, cfgB: IsoTpConfig, pdu: seq<byte>, base: nat, r: nat, k: nat)
    requires Compatible(cfgA, cfgB, pdu) && |pdu| > 7 && base <= r < k <= ConsecutiveCount(|pdu|)
    ensures AwaitingCfAt(pdu, base, r).Wf()
    ensures
      Act(cfgB, AwaitingCfAt(pdu, base, r), ConsecutiveFrames(cfgA, pdu, r, k)) ==
      (if r + 1 == ConsecutiveCount(|pdu|) then Delivered(pdu)
       else if cfgB.blockSize != 0 && Min(r + 1 - base, 255) >= cfgB.blockSize then
         SendingFlowControl(|pdu|, pdu[..Offset(pdu, r + 1)], Next(r + 1))
       else AwaitingCfAt(pdu, base, r + 1),
       ConsecutiveFrames(cfgA, pdu, r + 1, k), [])
  {
    hide OnReceived;
    ConsecutiveFrameAdvances(cfgA, cfgB, pdu, base, r);
    assert ConsecutiveFrames(cfgA, pdu, r, k)[1..] == ConsecutiveFrames(cfgA, pdu, r + 1, k);
  }

  /** When the last frame is in, the receiver has granted exactly ceil(m / bs) blocks. */
  lemma BlocksGranted(pdu: seq<byte>, bs: byte, base: nat, f: nat)
    requires |pdu| > 7 && Blocks(bs, base, f)
    requires base < ConsecutiveCount(|pdu|) && (bs != 0 ==> ConsecutiveCount(|pdu|) <= base + bs)
    ensures f == FlowControlCount(|pdu|, bs)
  {
    hide ConsecutiveCount;
    if bs != 0 {
      assert f * bs == (f - 1) * bs + bs;
      DivCeilUnique(ConsecutiveCount(|pdu|), bs, f);
    }
  }

  lemma ReceiverStreams(cfgA: IsoTpConfig, cfgB: IsoTpConfig, pdu: seq<byte>, p: Phase)
    requires Compatible(cfgA, cfgB, pdu) && Legal(cfgB, pdu, p) && p.Streaming? && p.r < p.k
    ensures Legal(cfgB, pdu, AfterReceiver(cfgB, pdu, p))
    ensures Move(cfgA, cfgB, Shape(cfgA, cfgB, pdu, p), Receiver) == Shape(cfgA, cfgB, pdu, AfterReceiver(cfgB, pdu, p))
  {
    hide Act, ConsecutiveCount, Offset, Next, AwaitingFcAt, AwaitingCfAt, Blocks;
    ReceiverAct(cfgA, cfgB, pdu, p.base, p.r, p.k);
  }

  lemma ReceiverEndsBlock(cfgA: IsoTpConfig, cfgB: IsoTpConfig, pdu: seq<byte>, p: Phase)
    requires Compatible(cfgA, cfgB, pdu) && Legal(cfgB, pdu, p) && p.BlockEnd?
    ensures Legal(cfgB, pdu, AfterReceiver(cfgB, pdu, p))
    ensures Move(cfgA, cfgB, Shape(cfgA, cfgB, pdu, p), Receiver) == Shape(cfgA, cfgB, pdu, AfterReceiver(cfgB, pdu, p))
  {
    hide Act, ConsecutiveCount, Framed, Offset, Next, AwaitingFcAt, AwaitingCfAt;
    ReceiverAct(cfgA, cfgB, pdu, p.base, p.r, p.base + cfgB.blockSize);
    assert p.f * cfgB.blockSize == (p.f - 1) * cfgB.blockSize + cfgB.blockSize;
  }

  lemma ReceiverDrains(cfgA: IsoTpConfig, cfgB: IsoTpConfig, pdu: seq<byte>, p: Phase)
    requires Compatible(cfgA, cfgB, pdu) && Legal(cfgB, pdu, p) && p.Draining?
    ensures Legal(cfgB, pdu, AfterReceiver(cfgB, pdu, p))
    ensures Move(cfgA, cfgB, Shape(cfgA, cfgB, pdu, p), Receiver) == Shape(cfgA, cfgB, pdu, AfterReceiver(cfgB, pdu, p))
  {
    hide Act, ConsecutiveCount, Framed, Offset, Next, AwaitingFcAt, AwaitingCfAt;
    ReceiverAct(cfgA, cfgB, pdu, p.base, p.r, ConsecutiveCount(|pdu|));
    if p.r + 1 == ConsecutiveCount(|pdu|) {
      BlocksGranted(pdu, cfgB.blockSize, p.base, p.f);
    }
  }

  lemma ReceiverMoves(cfgA: IsoTpConfig, cfgB: IsoTpConfig, pdu: seq<byte>, p: Phase)
    requires Compatible(cfgA, cfgB, pdu) && Legal(cfgB, pdu, p)
    requires Shape(cfgA, cfgB, pdu, p).Enabled(Receiver)
    ensures Legal(cfgB, pdu, AfterReceiver(cfgB, pdu, p))
    ensures Move(cfgA, cfgB, Shape(cfgA, cfgB, pdu, p), Receiver) == Shape(cfgA, cfgB, pdu, AfterReceiver(cfgB, pdu, p))
  {
    hide Move;
    match p
    case SingleInFlight => ReceiverAnswersFirst(cfgA, cfgB, pdu, p);
    case FirstInFlight => ReceiverAnswersFirst(cfgA, cfgB, pdu, p);
    case FlowControlDue(_, _) => ReceiverGrants(cfgA, cfgB, pdu, p);
    case Streaming(_, _, _, _) => ReceiverStreams(cfgA, cfgB, pdu, p);
    case BlockEnd(_, _, _) => ReceiverEndsBlock(cfgA, cfgB, pdu, p);
    case Draining(_, _, _) => ReceiverDrains(cfgA, cfgB, pdu, p);
    case _ =>
  }

  // ---- Whole runs ----

  /** Every reachable state is the shape of a legal phase. */
  lemma {:induction false} ReachablePhase(
    cfgA: IsoTpConfig, cfgB: IsoTpConfig, pdu: seq<byte>, schedule: seq<Turn>) returns (p: Phase)
    requires Compatible(cfgA, cfgB, pdu)
    requires Execute(cfgA, cfgB, Initial(pdu), schedule).Some?
    ensures Legal(cfgB, pdu, p)
    ensures Execute(cfgA, cfgB, Initial(pdu), schedule) == Some(Shape(cfgA, cfgB, pdu, p))
    decreases |schedule|
  {
    hide Move;
    if schedule == [] {
      p := Start;
    } else {
      var k := |schedule| - 1;
      p := ReachablePhase(cfgA, cfgB, pdu, schedule[..k]);
      match schedule[k] {
        case Sender =>
          SenderMoves(cfgA, cfgB, pdu, p);
          p := AfterSender(cfgB, pdu, p);
        case Receiver =>
          ReceiverMoves(cfgA, cfgB, pdu, p);
          p := AfterReceiver(cfgB, pdu, p);
      }
    }
  }

  /** Each action puts one frame on the bus or takes one off it. */
  lemma {:induction false} ActionsCountFrames(cfgA: IsoTpConfig, cfgB: IsoTpConfig, pdu: seq<byte>, schedule: seq<Turn>)
    requires Compatible(cfgA, cfgB, pdu)
    requires Execute(cfgA, cfgB, Initial(pdu), schedule).Some?
    ensures
      var bus := Execute(cfgA, cfgB, Initial(pdu), schedule).value;
      |schedule| == 2 * |bus.logA| - |bus.ab| + 2 * |bus.logB| - |bus.ba|
    decreases |schedule|
  {
    if schedule != [] {
      var k := |schedule| - 1;
      ActionsCountFrames(cfgA, cfgB, pdu, schedule[..k]);
      var bus := Execute(cfgA, cfgB, Initial(pdu), schedule[..k]).value;
      hide Act;
      ActCounts(cfgA, bus.a, bus.ba, schedule[k] == Sender);
      ActCounts(cfgB, bus.b, bus.ab, schedule[k] == Receiver);
    }
  }

  lemma ActCounts(cfg: IsoTpConfig, e: Endpoint, inbox: seq<CanDataFrame>, moves: bool)
    requires cfg.requestId <= MAX_CAN_ID && e.Wf() && (moves ==> e.Emits() || (e.Awaits() && inbox != []))
    ensures moves ==>
      var (_, inbox', out) := Act(cfg, e, inbox);
      |out| + |inbox| - |inbox'| == 1
  {
    if moves && e.Emits() {
      EmitActs(cfg, e, inbox);
    }
  }

  predicate Stuck(bus: Bus) {
    !bus.Enabled(Sender) && !bus.Enabled(Receiver)
  }

  /**
    Exact delivery without deadlock. Under every schedule of enabled actions the run
    is no longer than two actions a frame, and a bus on which neither side can act is one
    where the sender returned Ok, the receiver returned exactly the PDU, no frame is left
    in flight, the sender emitted exactly the segments of the PDU and the receiver exactly
    ceil(ceil((n - 6) / 7) / BS) flow-control frames (one if BS is 0).
   */
  lemma DeliversWithoutDeadlock(cfgA: IsoTpConfig, cfgB: IsoTpConfig, pdu: seq<byte>, schedule: seq<Turn>)
    requires Compatible(cfgA, cfgB, pdu)
    requires Execute(cfgA, cfgB, Initial(pdu), schedule).Some?
    ensures
      var bus := Execute(cfgA, cfgB, Initial(pdu), schedule).value;
      var frames := |Segments(cfgA, pdu)| + FlowControlCount(|pdu|, cfgB.blockSize);
      && |schedule| <= 2 * frames
      && (Stuck(bus) <==> |schedule| == 2 * frames)
      && (Stuck(bus) ==>
            bus == Bus(Sent, Delivered(pdu), [], [], Segments(cfgA, pdu),
                       FlowControls(cfgB, FlowControlCount(|pdu|, cfgB.blockSize))))
  {
    var p := ReachablePhase(cfgA, cfgB, pdu, schedule);
    ActionsCountFrames(cfgA, cfgB, pdu, schedule);
    FramesBound(cfgA, cfgB, pdu, p);
  }

  /** Short of the end there is work left to do, and someone can do it. */
  lemma FramesBound(cfgA: IsoTpConfig, cfgB: IsoTpConfig, pdu: seq<byte>, p: Phase)
    requires Compatible(cfgA, cfgB, pdu) && Legal(cfgB, pdu, p)
    ensures
      var bus := Shape(cfgA, cfgB, pdu, p);
      var frames := |Segments(cfgA, pdu)| + FlowControlCount(|pdu|, cfgB.blockSize);
      var done := 2 * |bus.logA| - |bus.ab| + 2 * |bus.logB| - |bus.ba|;
      && (Stuck(bus) <==> p.SingleDelivered? || p.Complete?)
      && done <= 2 * frames
      && (Stuck(bus) <==> done == 2 * frames)
  {
    hide ConsecutiveCount, Offset, Next, Blocks;
    var bs := cfgB.blockSize;
    match p
    case FlowControlDue(k, f) => GrantsBound(pdu, bs, k, f + 1);
    case FlowControlInFlight(k, f) => GrantsBound(pdu, bs, k, f);
    case Streaming(base, r, k, f) => GrantsBound(pdu, bs, base, f);
    case BlockEnd(base, r, f) => GrantsBound(pdu, bs, base, f);
    case Draining(base, r, f) => GrantsBound(pdu, bs, base, f);
    case _ =>
  }

  lemma GrantsBound(pdu: seq<byte>, bs: byte, base: nat, f: nat)
    requires |pdu| > 7 && Blocks(bs, base, f) && base < ConsecutiveCount(|pdu|)
    ensures f <= FlowControlCount(|pdu|, bs)
  {
    hide ConsecutiveCount;
    if bs != 0 {
      DivCeilAbove(ConsecutiveCount(|pdu|), bs, f - 1);
    }
  }

  // ---- From interleaved actions back to blocking calls ----

  function Inbound(frames: seq<CanDataFrame>): (rx: seq<Received>)
    ensures |rx| == |frames|
  {
    seq(|frames|, i requires 0 <= i < |frames| => Got(frames[i]))
  }

  /** One action is one stretch of the blocking call on the same frames. */
  lemma ActRuns(
    cfg: IsoTpConfig, e: Endpoint, inbox: seq<CanDataFrame>, later: seq<CanDataFrame>, log: seq<CanDataFrame>)
    requires cfg.requestId <= MAX_CAN_ID && e.Wf() && (e.Emits() || (e.Awaits() && inbox != []))
    ensures
      var (e', inbox', out) := Act(cfg, e, inbox);
      Run(cfg, e, Link(Inbound(inbox + later), log, [])) == Run(cfg, e', Link(Inbound(inbox' + later), log + out, []))
  {
    hide OnReceived, AfterSend, Payload;
    var link := Link(Inbound(inbox + later), log, []);
    if e.Emits() {
      EmitActs(cfg, e, inbox);
      RunEmits(cfg, e, link);
    } else {
      assert (inbox + later)[1..] == inbox[1..] + later;
      assert link.rx[1..] == Inbound(inbox[1..] + later);
      assert log + [] == log;
    }
  }

  /** Whatever the schedule, each endpoint is where its call would be on the frames it was sent. */
  lemma {:induction false} CallsFollowSchedule(
    cfgA: IsoTpConfig, cfgB: IsoTpConfig, pdu: seq<byte>, schedule: seq<Turn>,
    laterA: seq<CanDataFrame>, laterB: seq<CanDataFrame>)
    requires Compatible(cfgA, cfgB, pdu)
    requires Execute(cfgA, cfgB, Initial(pdu), schedule).Some?
    ensures
      var bus := Execute(cfgA, cfgB, Initial(pdu), schedule).value;
      && Run(cfgA, StartSend(pdu), Link(Inbound(bus.logB + laterA), [], [])) ==
         Run(cfgA, bus.a, Link(Inbound(bus.ba + laterA), bus.logA, []))
      && Run(cfgB, StartReceive, Link(Inbound(bus.logA + laterB), [], [])) ==
         Run(cfgB, bus.b, Link(Inbound(bus.ab + laterB), bus.logB, []))
    decreases |schedule|
  {
    hide Act, Run;
    if schedule != [] {
      var k := |schedule| - 1;
      var bus := Execute(cfgA, cfgB, Initial(pdu), schedule[..k]).value;
      match schedule[k] {
        case Sender =>
          var (_, _, out) := Act(cfgA, bus.a, bus.ba);
          CallsFollowSchedule(cfgA, cfgB, pdu, schedule[..k], laterA, out + laterB);
          ActRuns(cfgA, bus.a, bus.ba, laterA, bus.logA);
          assert bus.logA + (out + laterB) == bus.logA + out + laterB;
          assert bus.ab + (out + laterB) == bus.ab + out + laterB;
        case Receiver =>
          var (_, _, out) := Act(cfgB, bus.b, bus.ab);
          CallsFollowSchedule(cfgA, cfgB, pdu, schedule[..k], out + laterA, laterB);
          ActRuns(cfgB, bus.b, bus.ab, laterB, bus.logB);
          assert bus.logB + (out + laterA) == bus.logB + out + laterA;
          assert bus.ba + (out + laterA) == bus.ba + out + laterA;
      }
    }
  }

  /** Every run can be carried on to a stuck bus. */
  lemma {:induction false} RunsToTheEnd(cfgA: IsoTpConfig, cfgB: IsoTpConfig, pdu: seq<byte>, schedule: seq<Turn>)
    returns (full: seq<Turn>)
    requires Compatible(cfgA, cfgB, pdu)
    requires Execute(cfgA, cfgB, Initial(pdu), schedule).Some?
    ensures schedule <= full && Execute(cfgA, cfgB, Initial(pdu), full).Some?
    ensures Stuck(Execute(cfgA, cfgB, Initial(pdu), full).value)
    decreases 2 * (|Segments(cfgA, pdu)| + FlowControlCount(|pdu|, cfgB.blockSize)) - |schedule|
  {
    hide Move, FlowControlCount, Segments;
    DeliversWithoutDeadlock(cfgA, cfgB, pdu, schedule);
    var bus := Execute(cfgA, cfgB, Initial(pdu), schedule).value;
    if Stuck(bus) {
      full := schedule;
    } else {
      var turn := if bus.Enabled(Sender) then Sender else Receiver;
      assert (schedule + [turn])[..|schedule|] == schedule;
      DeliversWithoutDeadlock(cfgA, cfgB, pdu, schedule + [turn]);
      full := RunsToTheEnd(cfgA, cfgB, pdu, schedule + [turn]);
    }
  }

  /**
    The round trip of the blocking calls: fed the receiver's flow control, `send_pdu` succeeds
    and emits exactly the segments; fed those segments, `recv_pdu` returns exactly the PDU.
   */
  lemma SegmentsReassemble(cfgA: IsoTpConfig, cfgB: IsoTpConfig, pdu: seq<byte>)
    requires Compatible(cfgA, cfgB, pdu)
    ensures
      var grants := FlowControls(cfgB, FlowControlCount(|pdu|, cfgB.blockSize));
      && Run(cfgA, StartSend(pdu), Link(Inbound(grants), [], [])) == (Sent, Link([], Segments(cfgA, pdu), []))
      && Run(cfgB, StartReceive, Link(Inbound(Segments(cfgA, pdu)), [], [])) == (Delivered(pdu), Link([], grants, []))
  {
    hide Move, Segments;
    var full := RunsToTheEnd(cfgA, cfgB, pdu, []);
    DeliversWithoutDeadlock(cfgA, cfgB, pdu, full);
    CallsFollowSchedule(cfgA, cfgB, pdu, full, [], []);
    var grants := FlowControls(cfgB, FlowControlCount(|pdu|, cfgB.blockSize));
    assert grants + [] == grants && Segments(cfgA, pdu) + [] == Segments(cfgA, pdu);
    assert Inbound([]) == [];
  }
}
