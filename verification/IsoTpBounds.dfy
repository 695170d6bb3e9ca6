/** Flow-control obedience and resource bounds of ISO-TP calls on an arbitrary, hostile link. */
module IsoTpBounds {
  import opened Basics
  import opened IsoTp
  import opened IsoTpTransport
  import opened IsoTpDuplex

  // ---- What an observer of the wire sees ----

  datatype WireEvent = Emitted(frame: CanDataFrame) | Arrived(item: Received)

  /** The frames an endpoint sends and receives, in order, until it finishes. */
  function Wire(cfg: IsoTpConfig, e: Endpoint, link: Link): seq<WireEvent>
    requires e.Wf()
    decreases |link.rx|, Backlog(e)
  {
    if e.Finished() then [] else
      var (e', link') := Step(cfg, e, link);
      (if |link'.tx| > |link.tx| then [Emitted(link'.tx[|link'.tx| - 1])]
       else if e.Awaits() && link.rx != [] then [Arrived(link.rx[0])]
       else [])
      + Wire(cfg, e', link')
  }

  predicate IsConsecutive(frame: CanDataFrame) {
    frame.data != [] && frame.data[0] / 16 == 2
  }

  /** The block size granted by an arriving ContinueToSend, if it is one. */
  function Grant(cfg: IsoTpConfig, item: Received): Option<byte> {
    if item.Got? && ValidFrame(item.frame) && item.frame.id == cfg.responseId then
      var fc := DecodeFlowControl(item.frame.data);
      if fc.Ok? && fc.value.status.ContinueToSend? then Some(fc.value.blockSize) else None
    else None
  }

  /** How many consecutive frames the peer currently admits. */
  datatype Credit = Unlimited | Limited(frames: nat)

  /**
    No consecutive frame without credit, where each ContinueToSend replaces the
    credit by its own block size (none if it is 0).
   */
  predicate Obeys(cfg: IsoTpConfig, wire: seq<WireEvent>, credit: Credit) {
    wire == [] ||
    match wire[0]
    case Emitted(frame) =>
      if !IsConsecutive(frame) then Obeys(cfg, wire[1..], credit)
      else if credit.Unlimited? then Obeys(cfg, wire[1..], credit)
      else credit.frames > 0 && Obeys(cfg, wire[1..], Limited(credit.frames - 1))
    case Arrived(item) =>
      var grant := Grant(cfg, item);
      Obeys(cfg, wire[1..],
            if grant.None? then credit
            else if grant.value == 0 then Unlimited else Limited(grant.value))
  }

  /** The credit a sender's own counters stand for. */
  ghost predicate CreditMatches(e: Endpoint, credit: Credit) {
    match e
    case SendingConsecutive(_, _, _, sentInBlock, blockSize) =>
      if blockSize == 0 then credit.Unlimited?
      else sentInBlock < blockSize && credit == Limited(blockSize - sentInBlock)
    case SendingSingle(_) => true
    case SendingFirst(_) => true
    case AwaitingFlowControl(_, _, _, _, _) => true
    case _ => e.Finished()
  }

  ghost function Spend(cfg: IsoTpConfig, event: WireEvent, credit: Credit): Credit {
    match event
    case Emitted(frame) =>
      if IsConsecutive(frame) && credit.Limited? && credit.frames > 0 then Limited(credit.frames - 1) else credit
    case Arrived(item) =>
      var grant := Grant(cfg, item);
      if grant.None? then credit else if grant.value == 0 then Unlimited else Limited(grant.value)
  }

  lemma EmitSpends(cfg: IsoTpConfig, e: Endpoint, link: Link, credit: Credit)
    requires e.Wf() && e.Emits() && CreditMatches(e, credit)
    ensures
      var (e', link') := Step(cfg, e, link);
      && link'.rx == link.rx
      && (link'.tx == link.tx ==> e'.Failed?)
      && (link'.tx != link.tx ==>
            && |link'.tx| == |link.tx| + 1
            && var event := Emitted(link'.tx[|link.tx|]);
               && (IsConsecutive(event.frame) ==> credit != Limited(0))
               && CreditMatches(e', Spend(cfg, event, credit)))
  {
    hide OnReceived;
    var data := Payload(cfg, e);
    var (sent, link') := Transmit(cfg, data, link);
    if sent.Ok? {
      assert link'.tx[|link.tx|].data[0] == data[0];
    }
  }

  lemma ArrivalGrants(cfg: IsoTpConfig, e: Endpoint, item: Received, credit: Credit)
    requires e.Wf() && e.AwaitingFlowControl?
    ensures CreditMatches(OnReceived(cfg, e, item), Spend(cfg, Arrived(item), credit))
  {
    hide OnFirstFrame, OnConsecutive, DecodeSingleFrame;
  }

  lemma {:induction false} RunObeys(cfg: IsoTpConfig, e: Endpoint, link: Link, credit: Credit)
    requires e.Wf() && CreditMatches(e, credit)
    ensures Obeys(cfg, Wire(cfg, e, link), credit)
    decreases |link.rx|, Backlog(e)
  {
    hide OnReceived, Transmit, AfterSend, Payload, DecodeFlowControl;
    if !e.Finished() {
      var (e', link') := Step(cfg, e, link);
      if e.Emits() {
        EmitSpends(cfg, e, link, credit);
        if link'.tx == link.tx {
          assert Wire(cfg, e', link') == [];
        } else {
          var event := Emitted(link'.tx[|link.tx|]);
          EmitLowersBacklog(e);
          RunObeys(cfg, e', link', Spend(cfg, event, credit));
          assert Wire(cfg, e, link)[1..] == Wire(cfg, e', link');
        }
      } else if link.rx != [] {
        ArrivalGrants(cfg, e, link.rx[0], credit);
        RunObeys(cfg, e', link', Spend(cfg, Arrived(link.rx[0]), credit));
        assert Wire(cfg, e, link)[1..] == Wire(cfg, e', link');
      }
    }
  }

  /**
    On any link, whatever flow control arrives, `send_pdu` emits no consecutive frame before the
    first ContinueToSend and never more than the latest nonzero block size since the latest one.
   */
  lemma SenderObeysBlocks(cfg: IsoTpConfig, pdu: seq<byte>, link: Link)
    ensures Obeys(cfg, Wire(cfg, StartSend(pdu), link), Limited(0))
  {
    RunObeys(cfg, StartSend(pdu), link, Limited(0));
  }

  // ---- Bounded reception ----

  /** Consecutive frames a sender at `offset` still owes. */
  ghost function Owed(pdu: seq<byte>, offset: nat): (c: nat)
    requires 6 <= offset < |pdu|
    ensures c > 0
  {
    DivCeilUnique(|pdu| - offset, 7, DivCeil(|pdu| - offset, 7));
    DivCeil(|pdu| - offset, 7)
  }

  /** Receptions one wait for a matching frame, or for a ContinueToSend, can cost. */
  ghost function FrameCost(cfg: IsoTpConfig): (k: nat)
    ensures k == cfg.maxUnrelatedFrames + 1
  {
    cfg.maxUnrelatedFrames + 1
  }

  ghost function GrantCost(cfg: IsoTpConfig): nat {
    (cfg.maxFlowControlWaitFrames + 1) * FrameCost(cfg)
  }

  /** The longest PDU a receiver accepts. */
  ghost function LongestPdu(cfg: IsoTpConfig): nat {
    Min(MAX_CLASSIC_ISOTP_PAYLOAD, cfg.maxPayloadLen)
  }

  ghost function PduCost(cfg: IsoTpConfig): nat {
    (1 + LongestPdu(cfg)) * FrameCost(cfg)
  }

  ghost function SendCost(cfg: IsoTpConfig, n: nat): nat {
    ConsecutiveCount(n) * GrantCost(cfg)
  }

  /** Receptions an endpoint may still make. */
  ghost function Potential(cfg: IsoTpConfig, e: Endpoint): int
    requires e.Wf()
  {
    match e
    case SendingFirst(pdu) => SendCost(cfg, |pdu|)
    case AwaitingFlowControl(pdu, offset, _, waits, unrelated) =>
      Owed(pdu, offset) * GrantCost(cfg) - waits * FrameCost(cfg) - unrelated
    case SendingConsecutive(pdu, offset, _, _, _) => (Owed(pdu, offset) - 1) * GrantCost(cfg)
    case AwaitingPdu(unrelated) => PduCost(cfg) - unrelated
    case SendingFlowControl(declared, pdu, _) => (declared - |pdu|) * FrameCost(cfg)
    case AwaitingConsecutive(declared, pdu, _, _, unrelated) => (declared - |pdu|) * FrameCost(cfg) - unrelated
    case _ => 0
  }

  ghost predicate WithinBudgets(cfg: IsoTpConfig, e: Endpoint) {
    match e
    case AwaitingFlowControl(_, _, _, waits, unrelated) =>
      waits <= cfg.maxFlowControlWaitFrames && unrelated <= cfg.maxUnrelatedFrames
    case AwaitingPdu(unrelated) => unrelated <= cfg.maxUnrelatedFrames
    case AwaitingConsecutive(declared, _, _, _, unrelated) => unrelated <= cfg.maxUnrelatedFrames
    case _ => true
  }

  lemma GrantCostCovers(cfg: IsoTpConfig, waits: nat, c: nat)
    requires waits <= cfg.maxFlowControlWaitFrames && c > 0
    ensures (waits + 1) * FrameCost(cfg) == waits * FrameCost(cfg) + FrameCost(cfg)
    ensures (waits + 1) * FrameCost(cfg) <= GrantCost(cfg)
    ensures c * GrantCost(cfg) == (c - 1) * GrantCost(cfg) + GrantCost(cfg)
    ensures (c - 1) * GrantCost(cfg) >= 0
  {
    var (f, g) := (FrameCost(cfg), GrantCost(cfg));
    hide FrameCost, GrantCost;
    Distributes(waits, 1, f);
    Distributes(waits + 1, cfg.maxFlowControlWaitFrames - waits, f);
    Distributes(c - 1, 1, g);
    assert g == (cfg.maxFlowControlWaitFrames + 1) * f by {
      GrantCostIs(cfg);
    }
  }

  lemma GrantCostIs(cfg: IsoTpConfig)
    ensures GrantCost(cfg) == (cfg.maxFlowControlWaitFrames + 1) * FrameCost(cfg)
  {
  }

  lemma Distributes(a: nat, b: nat, k: nat)
    ensures (a + b) * k == a * k + b * k && b * k >= 0 && a * k >= 0
  {
  }

  lemma EmitKeepsPotential(cfg: IsoTpConfig, e: Endpoint)
    requires e.Wf() && e.Emits() && WithinBudgets(cfg, e)
    ensures var e' := AfterSend(e);
            WithinBudgets(cfg, e') && Potential(cfg, e') <= Potential(cfg, e)
  {
    match e
    case SendingConsecutive(pdu, offset, _, _, _) =>
      GrantCostCovers(cfg, 0, Owed(pdu, offset));
      if offset + 7 < |pdu| {
        assert Owed(pdu, offset) == Owed(pdu, offset + 7) + 1;
        GrantCostCovers(cfg, 0, Owed(pdu, offset + 7));
      }
    case _ =>
  }

  lemma OneUnit(d: int, d': int, k: nat)
    requires d' < d
    ensures d' * k + k <= d * k
    decreases d - d'
  {
    if d' + 1 < d {
      OneUnit(d - 1, d', k);
    }
    assert d * k == (d - 1) * k + k;
  }

  lemma PotentialPositive(cfg: IsoTpConfig, e: Endpoint)
    requires e.Wf() && WithinBudgets(cfg, e)
    ensures Potential(cfg, e) >= if e.Awaits() then 1 else 0
  {
    hide GrantCost, Owed, LongestPdu, ConsecutiveCount;
    match e
    case AwaitingFlowControl(pdu, offset, _, waits, _) => GrantCostCovers(cfg, waits, Owed(pdu, offset));
    case SendingConsecutive(pdu, offset, _, _, _) => GrantCostCovers(cfg, 0, Owed(pdu, offset));
    case SendingFlowControl(declared, pdu, _) => OneUnit(declared - |pdu|, 0, FrameCost(cfg));
    case AwaitingConsecutive(declared, pdu, _, _, _) => OneUnit(declared - |pdu|, 0, FrameCost(cfg));
    case AwaitingPdu(_) => OneUnit(1 + LongestPdu(cfg), 0, FrameCost(cfg));
    case _ =>
  }

  lemma GrantLowersPotential(cfg: IsoTpConfig, e: Endpoint, data: seq<byte>)
    requires e.Wf() && e.AwaitingFlowControl? && WithinBudgets(cfg, e) && 0 < |data| <= 8
    ensures var e' := OnMatching(cfg, e, data);
            WithinBudgets(cfg, e') && Potential(cfg, e') < Potential(cfg, e)
  {
    hide DecodeFlowControl, GrantCost, FrameCost;
    PotentialPositive(cfg, e);
    GrantCostCovers(cfg, e.waits, Owed(e.pdu, e.offset));
    assert FrameCost(cfg) == cfg.maxUnrelatedFrames + 1;
  }

  lemma OpeningLowersPotential(cfg: IsoTpConfig, e: Endpoint, data: seq<byte>)
    requires e.Wf() && e.AwaitingPdu? && WithinBudgets(cfg, e) && 0 < |data| <= 8
    ensures var e' := OnMatching(cfg, e, data);
            WithinBudgets(cfg, e') && Potential(cfg, e') < Potential(cfg, e)
  {
    hide DecodeSingleFrame, GrantCost, Owed;
    PotentialPositive(cfg, e);
    var e' := OnMatching(cfg, e, data);
    if e'.SendingFlowControl? {
      OneUnit(1 + LongestPdu(cfg), e'.declared - |e'.pdu|, FrameCost(cfg));
    }
  }

  /** The reassembly measure strictly falls because empty consecutive frames are refused. */
  lemma ConsecutiveLowersPotential(cfg: IsoTpConfig, e: Endpoint, data: seq<byte>)
    requires e.Wf() && e.AwaitingConsecutive? && WithinBudgets(cfg, e) && 0 < |data| <= 8
    ensures var e' := OnMatching(cfg, e, data);
            WithinBudgets(cfg, e') && Potential(cfg, e') < Potential(cfg, e)
  {
    hide GrantCost, Owed, LongestPdu;
    PotentialPositive(cfg, e);
    var e' := OnMatching(cfg, e, data);
    if e'.SendingFlowControl? || e'.AwaitingConsecutive? {
      OneUnit(e.declared - |e.pdu|, e'.declared - |e'.pdu|, FrameCost(cfg));
    }
  }

  lemma ReceptionLowersPotential(cfg: IsoTpConfig, e: Endpoint, item: Received)
    requires e.Wf() && e.Awaits() && WithinBudgets(cfg, e)
    ensures var e' := OnReceived(cfg, e, item);
            WithinBudgets(cfg, e') && Potential(cfg, e') < Potential(cfg, e)
  {
    hide OnMatching, Owed, GrantCost, FrameCost, PduCost;
    PotentialPositive(cfg, e);
    if item.Got? && ValidFrame(item.frame) && item.frame.id == cfg.responseId {
      match e
      case AwaitingFlowControl(_, _, _, _, _) => GrantLowersPotential(cfg, e, item.frame.data);
      case AwaitingPdu(_) => OpeningLowersPotential(cfg, e, item.frame.data);
      case AwaitingConsecutive(_, _, _, _, _) => ConsecutiveLowersPotential(cfg, e, item.frame.data);
    }
  }

  lemma TransmitKeepsInbound(cfg: IsoTpConfig, data: seq<byte>, link: Link)
    ensures Transmit(cfg, data, link).1.rx == link.rx
  {
  }

  lemma {:induction false} RunReceivesAtMost(cfg: IsoTpConfig, e: Endpoint, link: Link)
    requires e.Wf() && WithinBudgets(cfg, e)
    ensures 0 <= |link.rx| - |Run(cfg, e, link).1.rx| <= Potential(cfg, e)
    decreases |link.rx|, Backlog(e)
  {
    hide OnReceived, AfterSend, Payload, Transmit, Potential;
    PotentialPositive(cfg, e);
    if !e.Finished() {
      var (e', link') := Step(cfg, e, link);
      if e.Emits() {
        EmitKeepsPotential(cfg, e);
        TransmitKeepsInbound(cfg, Payload(cfg, e), link);
        if !e'.Failed? {
          EmitLowersBacklog(e);
          RunReceivesAtMost(cfg, e', link');
        }
      } else if link.rx != [] {
        ReceptionLowersPotential(cfg, e, link.rx[0]);
        RunReceivesAtMost(cfg, e', link');
      }
    }
  }

  lemma {:induction false} ReceiveFinalBounded(cfg: IsoTpConfig, serviceId: byte, link: Link, pending: nat)
    ensures 0 <= |link.rx| - |ReceiveFinal(cfg, serviceId, link, pending).1.rx| <= (pending + 1) * PduCost(cfg)
    decreases pending
  {
    hide Run, PduCost;
    RunReceivesAtMost(cfg, StartReceive, link);
    var (pdu, link') := ReceivePdu(cfg, link);
    assert (pending + 1) * PduCost(cfg) == pending * PduCost(cfg) + PduCost(cfg);
    if pdu.Ok? && IsResponsePendingFor(serviceId, pdu.value) && pending > 0 {
      ReceiveFinalBounded(cfg, serviceId, link', pending - 1);
    }
  }

  /** The link when `exchange` has sent its request, or failed to. */
  function AfterRequest(cfg: IsoTpConfig, request: seq<byte>, link: Link): Link {
    if request == [] || |request| > cfg.maxPayloadLen then link else Run(cfg, StartSend(request), link).1
  }

  /**
    Every `exchange` takes at most m(W+1)(U+1) frames off the link while it sends a
    request of m consecutive frames, and at most 9 PDUs of (1 + D)(U+1) frames each
    after that, where D is the longest PDU the configuration admits.
   */
  lemma ExchangeIsBounded(cfg: IsoTpConfig, request: seq<byte>, link: Link)
    ensures
      var W := cfg.maxFlowControlWaitFrames;
      var U := cfg.maxUnrelatedFrames;
      var D := Min(MAX_CLASSIC_ISOTP_PAYLOAD, cfg.maxPayloadLen);
      var sent := AfterRequest(cfg, request, link);
      && 0 <= |link.rx| - |sent.rx| <= ConsecutiveCount(|request|) * ((W + 1) * (U + 1))
      && 0 <= |sent.rx| - |Exchanged(cfg, request, link).1.rx| <= 9 * ((1 + D) * (U + 1))
  {
    hide Run, ReceiveFinal, ConsecutiveCount;
    assert ConsecutiveCount(|request|) * GrantCost(cfg) >= 0;
    if request != [] && |request| <= cfg.maxPayloadLen {
      RunReceivesAtMost(cfg, StartSend(request), link);
      ReceiveFinalBounded(cfg, request[0], Run(cfg, StartSend(request), link).1, MAX_RESPONSE_PENDING_FRAMES);
    }
  }

  // ---- Response-pending PDUs ----

  /** The link after `count` response-pending PDUs in a row, or None if there are not that many. */
  function AfterPending(cfg: IsoTpConfig, serviceId: byte, link: Link, count: nat): Option<Link>
    decreases count
  {
    if count == 0 then Some(link) else
      var (pdu, link') := ReceivePdu(cfg, link);
      if pdu.Ok? && IsResponsePendingFor(serviceId, pdu.value) then AfterPending(cfg, serviceId, link', count - 1)
      else None
  }

  lemma {:induction false} SkipsPending(cfg: IsoTpConfig, serviceId: byte, link: Link, pending: nat, count: nat)
    requires AfterPending(cfg, serviceId, link, count).Some?
    ensures count <= pending ==>
      ReceiveFinal(cfg, serviceId, link, pending) ==
      ReceiveFinal(cfg, serviceId, AfterPending(cfg, serviceId, link, count).value, pending - count)
    ensures count == pending + 1 ==>
      ReceiveFinal(cfg, serviceId, link, pending) == (Err(Timeout), AfterPending(cfg, serviceId, link, count).value)
    decreases count
  {
    hide Run;
    if 0 < count <= pending + 1 && pending > 0 {
      SkipsPending(cfg, serviceId, ReceivePdu(cfg, link).1, pending - 1, count - 1);
    }
  }

  /**
    Exactly eight response-pending PDUs are tolerated: with up to eight in front, the
    exchange ends with the first other PDU (or receive error); a ninth is a timeout.
   */
  lemma ToleratesExactlyEightPending(cfg: IsoTpConfig, serviceId: byte, link: Link, count: nat)
    requires AfterPending(cfg, serviceId, link, count).Some?
    ensures
      var end := ReceiveFinal(cfg, serviceId, link, MAX_RESPONSE_PENDING_FRAMES);
      var (pdu, link') := ReceivePdu(cfg, AfterPending(cfg, serviceId, link, count).value);
      && (count <= 8 && pdu.Ok? && !IsResponsePendingFor(serviceId, pdu.value) ==>
            end == (StripResponse(serviceId, pdu.value), link'))
      && (count <= 8 && pdu.Err? ==> end == (pdu, link'))
      && (count == 9 ==> end == (Err(Timeout), AfterPending(cfg, serviceId, link, count).value))
  {
    hide Run;
    if count <= 9 {
      SkipsPending(cfg, serviceId, link, 8, count);
    }
  }
}
