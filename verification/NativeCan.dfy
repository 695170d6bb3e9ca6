/**
  The filtering CAN channel (`adapter/native_can.rs`, `adapter/backend.rs`) and its
  transparency: ISO-TP above it, or above foreign traffic, behaves as on a clean link.
 */
module NativeCan {
  import opened Basics
  import opened IsoTp
  import opened IsoTpTransport
  import opened IsoTpDuplex

  datatype CanIdentifier = Standard(id: u32) | Extended(id: u32)

  datatype CanRouteFilter = CanRouteFilter(id: CanIdentifier, mask: CanIdentifier) {
    /** `CanRouteFilter::matches`. */
    predicate Matches(frameId: CanIdentifier) {
      && frameId.Standard? == id.Standard?
      && (frameId.id as bv32 & mask.id as bv32) == (id.id as bv32 & mask.id as bv32)
    }
  }

  type CanFilterSet = seq<CanRouteFilter>

  /** `CanFilterSet::accepts`: an empty set accepts everything. */
  predicate Accepts(filters: CanFilterSet, frameId: CanIdentifier) {
    filters == [] || exists i :: 0 <= i < |filters| && filters[i].Matches(frameId)
  }

  /** `frame_identifier`. */
  function FrameIdentifier(frame: CanDataFrame): Result<CanIdentifier> {
    if frame.isExtendedId then
      if frame.id <= MAX_CAN_ID then Ok(Extended(frame.id)) else Err(Error.Adapter)
    else if frame.id <= 0x7FF then Ok(Standard(frame.id))
    else Err(Error.Adapter)
  }

  /** One `recv_frame` of the channel with `budget` reads of the underlying link left. */
  function ChannelReceive(
    filters: CanFilterSet, rx: seq<Received>, budget: nat): (r: (Result<CanDataFrame>, seq<Received>))
    ensures |r.1| <= |rx| && (budget > 0 && rx != [] ==> |r.1| < |rx|)
    decreases budget
  {
    if budget == 0 || rx == [] then (Err(Timeout), rx) else
      match rx[0]
      case LinkFault(error) => (Err(error), rx[1..])
      case Got(frame) =>
        var identifier := FrameIdentifier(frame);
        if identifier.Err? then (Err(identifier.error), rx[1..])
        else if Accepts(filters, identifier.value) then (Ok(frame), rx[1..])
        else ChannelReceive(filters, rx[1..], budget - 1)
  }

  /** `send_frame` of a channel on a classical route. */
  function ChannelSend(frame: CanDataFrame, link: Link): (Result<()>, Link) {
    if FrameIdentifier(frame).Err? then (Err(FrameIdentifier(frame).error), link) else LinkSend(frame, link)
  }

  class NativeCanChannel {
    const io: CanFrameIo
    const filters: CanFilterSet
    const isFd: bool
    const maxUnrelatedFrames: nat

    constructor (io: CanFrameIo, filters: CanFilterSet, isFd: bool, maxUnrelatedFrames: nat)
      ensures this.io == io && this.filters == filters
      ensures this.isFd == isFd && this.maxUnrelatedFrames == maxUnrelatedFrames
    {
      this.io, this.filters, this.isFd, this.maxUnrelatedFrames := io, filters, isFd, maxUnrelatedFrames;
    }

    method SendFrame(frame: CanDataFrame) returns (r: Result<()>)
      modifies io
      ensures (r, io.State()) ==
        if isFd then (Err(Error.Adapter), old(io.State())) else ChannelSend(frame, old(io.State()))
    {
      if isFd {
        return Err(Error.Adapter);
      }
      var identifier := FrameIdentifier(frame);
      if identifier.Err? {
        return Err(identifier.error);
      }
      r := io.SendFrame(frame);
    }

    method RecvFrame() returns (r: Result<CanDataFrame>)
      modifies io`rx
      ensures (r, io.rx) == ChannelReceive(filters, old(io.rx), maxUnrelatedFrames + 1)
    {
      var attempts := 0;
      while attempts <= maxUnrelatedFrames
        invariant 0 <= attempts <= maxUnrelatedFrames + 1
        invariant ChannelReceive(filters, old(io.rx), maxUnrelatedFrames + 1) ==
                  ChannelReceive(filters, io.rx, maxUnrelatedFrames + 1 - attempts)
      {
        var frame := io.RecvFrame();
        if frame.Err? {
          return frame;
        }
        var identifier := FrameIdentifier(frame.value);
        if identifier.Err? {
          return Err(identifier.error);
        }
        if Accepts(filters, identifier.value) {
          return frame;
        }
        attempts := attempts + 1;
      }
      return Err(Timeout);
    }
  }

  function Item(r: Result<CanDataFrame>): Received {
    match r
    case Ok(frame) => Got(frame)
    case Err(error) => LinkFault(error)
  }

  /** What repeated `recv_frame` calls on the channel yield. */
  function Through(filters: CanFilterSet, budget: nat, rx: seq<Received>): seq<Received>
    requires budget > 0
    decreases |rx|
  {
    if rx == [] then [] else
      var (r, rest) := ChannelReceive(filters, rx, budget);
      [Item(r)] + Through(filters, budget, rest)
  }

  // ---- Foreign traffic ----

  predicate IsForeign(cfg: IsoTpConfig, item: Received) {
    item.Got? && item.frame.id != cfg.responseId
  }

  /** The inbound items without the foreign frames. */
  function Strip(cfg: IsoTpConfig, rx: seq<Received>): (s: seq<Received>)
  {
    if rx == [] then []
    else if IsForeign(cfg, rx[0]) then Strip(cfg, rx[1..])
    else [rx[0]] + Strip(cfg, rx[1..])
  }

  /** No more than `limit` foreign frames in a row, `run` of them already behind us. */
  predicate GapsWithin(cfg: IsoTpConfig, rx: seq<Received>, limit: nat, run: nat) {
    rx == [] ||
    if IsForeign(cfg, rx[0]) then run + 1 <= limit && GapsWithin(cfg, rx[1..], limit, run + 1)
    else GapsWithin(cfg, rx[1..], limit, 0)
  }

  predicate AllValid(rx: seq<Received>) {
    forall i :: 0 <= i < |rx| && rx[i].Got? ==> ValidFrame(rx[i].frame)
  }

  /** What a call reports and sends: everything but the inbound leftovers. */
  function Outcome(cfg: IsoTpConfig, e: Endpoint, link: Link): (Endpoint, seq<CanDataFrame>, seq<bool>)
    requires e.Wf()
  {
    var (end, link') := Run(cfg, e, link);
    (end, link'.tx, link'.sendFaults)
  }

  function Reset(e: Endpoint): (e': Endpoint)
    ensures e.Wf() ==> e'.Wf()
  {
    if e.Awaits() then e.(unrelated := 0) else e
  }

  lemma OnMatchingResets(cfg: IsoTpConfig, e: Endpoint, data: seq<byte>)
    requires e.Wf() && e.Awaits() && 0 < |data| <= 8
    ensures var e' := OnMatching(cfg, e, data);
            e'.Awaits() ==> e'.unrelated == 0
  {
  }

  lemma AfterSendResets(e: Endpoint)
    requires e.Wf() && e.Emits()
    ensures AfterSend(e).Awaits() ==> AfterSend(e).unrelated == 0
  {
  }

  lemma EmitOutcome(cfg: IsoTpConfig, e: Endpoint, link: Link)
    requires e.Wf() && e.Emits()
    ensures
      var (sent, link') := Transmit(cfg, Payload(cfg, e), link);
      && link'.rx == link.rx
      && Outcome(cfg, e, link) ==
         if sent.Err? then (Failed(sent.error), link'.tx, link'.sendFaults) else Outcome(cfg, AfterSend(e), link')
  {
    hide Payload, AfterSend, Run;
    RunEmits(cfg, e, link);
  }

  /** An outcome depends on a link only through what it will receive and how it sends. */
  lemma TransmitIgnoresInbound(cfg: IsoTpConfig, data: seq<byte>, link: Link, rx: seq<Received>)
    ensures Transmit(cfg, data, link.(rx := rx)) ==
            (Transmit(cfg, data, link).0, Transmit(cfg, data, link).1.(rx := rx))
  {
  }

  /**
    Foreign frames within the unrelated-frame budget change nothing: a call on the
    noisy link reports and sends what it would on the link without them.
   */
  lemma {:induction false} ForeignFramesAreInvisible(cfg: IsoTpConfig, e: Endpoint, link: Link)
    requires e.Wf() && AllValid(link.rx)
    requires GapsWithin(cfg, link.rx, cfg.maxUnrelatedFrames, if e.Awaits() then e.unrelated else 0)
    ensures Outcome(cfg, e, link) == Outcome(cfg, Reset(e), link.(rx := Strip(cfg, link.rx)))
    decreases |link.rx|, Backlog(e)
  {
    hide OnMatching, Payload, AfterSend, Transmit;
    var clean := link.(rx := Strip(cfg, link.rx));
    if e.Emits() {
      hide Run;
      EmitOutcome(cfg, e, link);
      EmitOutcome(cfg, e, clean);
      TransmitIgnoresInbound(cfg, Payload(cfg, e), link, clean.rx);
      if Transmit(cfg, Payload(cfg, e), link).0.Ok? {
        EmitLowersBacklog(e);
        AfterSendResets(e);
        ForeignFramesAreInvisible(cfg, AfterSend(e), Transmit(cfg, Payload(cfg, e), link).1);
      }
    } else if e.Awaits() && link.rx != [] {
      ReceptionOutcome(cfg, e, link);
      hide Run;
      var e' := OnReceived(cfg, e, link.rx[0]);
      if IsForeign(cfg, link.rx[0]) {
        ForeignFramesAreInvisible(cfg, e', link.(rx := link.rx[1..]));
      } else {
        ReceptionOutcome(cfg, Reset(e), clean);
        assert clean.rx[1..] == Strip(cfg, link.rx[1..]);
        if link.rx[0].Got? {
          OnMatchingResets(cfg, e, link.rx[0].frame.data);
          OnMatchingForgetsUnrelated(cfg, e, 0, link.rx[0].frame.data);
        }
        ForeignFramesAreInvisible(cfg, e', link.(rx := link.rx[1..]));
      }
    }
  }

  lemma ReceptionOutcome(cfg: IsoTpConfig, e: Endpoint, link: Link)
    requires e.Wf() && e.Awaits()
    ensures Outcome(cfg, e, link) ==
            if link.rx == [] then (Failed(Timeout), link.tx, link.sendFaults)
            else Outcome(cfg, OnReceived(cfg, e, link.rx[0]), link.(rx := link.rx[1..]))
  {
    hide OnReceived;
    if link.rx == [] {
      RunFinished(cfg, Failed(Timeout), link);
    }
  }

  /** A timeout reported by the link is the timeout of an empty link. */
  lemma {:induction false} TimeoutAtTheEnd(cfg: IsoTpConfig, e: Endpoint, link: Link)
    requires e.Wf()
    ensures Outcome(cfg, e, link.(rx := link.rx + [LinkFault(Timeout)])) == Outcome(cfg, e, link)
    decreases |link.rx|, Backlog(e)
  {
    hide OnMatching, Payload, AfterSend, Transmit;
    var longer := link.(rx := link.rx + [LinkFault(Timeout)]);
    if e.Emits() {
      hide Run;
      EmitOutcome(cfg, e, link);
      EmitOutcome(cfg, e, longer);
      TransmitIgnoresInbound(cfg, Payload(cfg, e), link, longer.rx);
      if Transmit(cfg, Payload(cfg, e), link).0.Ok? {
        EmitLowersBacklog(e);
        TimeoutAtTheEnd(cfg, AfterSend(e), Transmit(cfg, Payload(cfg, e), link).1);
      }
    } else if e.Awaits() {
      ReceptionOutcome(cfg, e, link);
      ReceptionOutcome(cfg, e, longer);
      if link.rx != [] {
        hide Run;
        assert longer.rx[1..] == link.rx[1..] + [LinkFault(Timeout)];
        TimeoutAtTheEnd(cfg, OnReceived(cfg, e, link.rx[0]), link.(rx := link.rx[1..]));
      }
    }
  }

  // ---- The channel underneath ----

  /** The channel can name the frame's identifier, and its filters accept it if ISO-TP would take the frame. */
  predicate Harmless(cfg: IsoTpConfig, filters: CanFilterSet, frame: CanDataFrame) {
    && FrameIdentifier(frame).Ok?
    && (frame.id == cfg.responseId ==> Accepts(filters, FrameIdentifier(frame).value))
  }

  predicate AllHarmless(cfg: IsoTpConfig, filters: CanFilterSet, rx: seq<Received>) {
    forall i :: 0 <= i < |rx| && rx[i].Got? ==> Harmless(cfg, filters, rx[i].frame)
  }

  /** The two shapes the channel's view can have: a link that ran dry inside a gap reports a timeout. */
  ghost predicate SameButForTimeout(seen: seq<Received>, rx: seq<Received>) {
    seen == rx || seen == rx + [LinkFault(Timeout)]
  }

  /** What the channel's callers see from a `recv_frame` call that has skipped `run` frames. */
  function Seen(filters: CanFilterSet, max: nat, rx: seq<Received>, run: nat): seq<Received>
    requires run <= max
  {
    if rx == [] && run == 0 then [] else
      var (r, rest) := ChannelReceive(filters, rx, max + 1 - run);
      [Item(r)] + Through(filters, max + 1, rest)
  }

  /** The channel skips the first item, or hands it on. */
  predicate Skips(filters: CanFilterSet, item: Received) {
    item.Got? && FrameIdentifier(item.frame).Ok? && !Accepts(filters, FrameIdentifier(item.frame).value)
  }

  lemma SeenUnfolds(cfg: IsoTpConfig, filters: CanFilterSet, max: nat, rx: seq<Received>, run: nat)
    requires run <= max && AllHarmless(cfg, filters, rx)
    ensures Seen(filters, max, rx, 0) == Through(filters, max + 1, rx)
    ensures rx == [] ==> Seen(filters, max, rx, run) == if run == 0 then [] else [LinkFault(Timeout)]
    ensures rx != [] && Skips(filters, rx[0]) && run < max ==>
              Seen(filters, max, rx, run) == Seen(filters, max, rx[1..], run + 1)
    ensures rx != [] && !Skips(filters, rx[0]) ==>
              Seen(filters, max, rx, run) == [rx[0]] + Seen(filters, max, rx[1..], 0)
  {
    hide Accepts;
  }

  /**
    The channel only removes foreign frames, and so lengthens no gap. `run` foreign
    frames have been skipped already by the `recv_frame` call in progress.
   */
  lemma {:induction false} ChannelOnlyStrips(
    cfg: IsoTpConfig, filters: CanFilterSet, max: nat, rx: seq<Received>, run: nat, limit: nat, run': nat)
    requires AllValid(rx) && AllHarmless(cfg, filters, rx) && run <= max
    requires GapsWithin(cfg, rx, max, run) && GapsWithin(cfg, rx, limit, run')
    ensures
      var seen := Seen(filters, max, rx, run);
      && AllValid(seen) && GapsWithin(cfg, seen, limit, run')
      && SameButForTimeout(Strip(cfg, seen), Strip(cfg, rx))
    decreases |rx|
  {
    hide Accepts, Seen, FrameIdentifier;
    SeenUnfolds(cfg, filters, max, rx, run);
    if rx != [] {
      var tail := rx[1..];
      var foreign := IsForeign(cfg, rx[0]);
      if Skips(filters, rx[0]) {
        ChannelOnlyStrips(cfg, filters, max, tail, run + 1, limit, run' + 1);
        GapsShorten(cfg, Seen(filters, max, tail, run + 1), limit, run' + 1, run');
      } else {
        GapsShorten(cfg, tail, max, if foreign then run + 1 else 0, 0);
        ChannelOnlyStrips(cfg, filters, max, tail, 0, limit, if foreign then run' + 1 else 0);
        KeepsItem(cfg, rx[0], tail, Seen(filters, max, tail, 0), limit, run');
        assert [rx[0]] + tail == rx;
      }
    }
  }

  /** Prepending one item the channel lets through. */
  lemma KeepsItem(cfg: IsoTpConfig, item: Received, tail: seq<Received>, seen: seq<Received>, limit: nat, run': nat)
    requires AllValid(seen) && (item.Got? ==> ValidFrame(item.frame))
    requires IsForeign(cfg, item) ==> run' + 1 <= limit
    requires GapsWithin(cfg, seen, limit, if IsForeign(cfg, item) then run' + 1 else 0)
    requires SameButForTimeout(Strip(cfg, seen), Strip(cfg, tail))
    ensures AllValid([item] + seen) && GapsWithin(cfg, [item] + seen, limit, run')
    ensures SameButForTimeout(Strip(cfg, [item] + seen), Strip(cfg, [item] + tail))
  {
    assert ([item] + seen)[1..] == seen && ([item] + tail)[1..] == tail;
    assert [item] + Strip(cfg, tail) + [LinkFault(Timeout)] == [item] + (Strip(cfg, tail) + [LinkFault(Timeout)]);
  }

  lemma {:induction false} GapsShorten(cfg: IsoTpConfig, rx: seq<Received>, limit: nat, run: nat, run': nat)
    requires GapsWithin(cfg, rx, limit, run) && run' <= run
    ensures GapsWithin(cfg, rx, limit, run')
  {
    if rx != [] && IsForeign(cfg, rx[0]) {
      GapsShorten(cfg, rx[1..], limit, run + 1, run' + 1);
    }
  }

  // ---- ISO-TP over the channel ----

  /** `send_frame_data` with the channel as its link. */
  function ChannelTransmit(cfg: IsoTpConfig, data: seq<byte>, link: Link): (Result<()>, Link) {
    if |data| > 8 then (Err(ParseError), link) else
      var frame := NewFrame(cfg.requestId, Padded(cfg.txPadding, data));
      if frame.Err? then (Err(frame.error), link) else ChannelSend(frame.value, link)
  }

  /** The channel refuses no frame that ISO-TP builds: its width flag always agrees with its identifier. */
  lemma ChannelTransmitsAll(cfg: IsoTpConfig, data: seq<byte>, link: Link)
    ensures ChannelTransmit(cfg, data, link) == Transmit(cfg, data, link)
  {
    var frame := NewFrame(cfg.requestId, Padded(cfg.txPadding, data));
    assert frame.Ok? ==> FrameIdentifier(frame.value).Ok?;
  }

  /** An endpoint run to its end with every frame, sent or received, going through the channel. */
  function RunOverChannel(
    cfg: IsoTpConfig, filters: CanFilterSet, budget: nat, e: Endpoint, link: Link): (r: (Endpoint, Link))
    requires e.Wf() && budget > 0
    decreases |link.rx|, Backlog(e)
  {
    if e.Finished() then (e, link)
    else if e.Emits() then
      var (sent, link') := ChannelTransmit(cfg, Payload(cfg, e), link);
      ChannelTransmitsAll(cfg, Payload(cfg, e), link);
      EmitLowersBacklog(e);
      if sent.Err? then (Failed(sent.error), link') else RunOverChannel(cfg, filters, budget, AfterSend(e), link')
    else if link.rx == [] then (Failed(Timeout), link)
    else
      var (frame, rest) := ChannelReceive(filters, link.rx, budget);
      RunOverChannel(cfg, filters, budget, OnReceived(cfg, e, Item(frame)), link.(rx := rest))
  }

  /** What a call over the channel reports and puts on the bus. */
  function ChannelOutcome(
    cfg: IsoTpConfig, filters: CanFilterSet, budget: nat, e: Endpoint, link: Link)
    : (Endpoint, seq<CanDataFrame>, seq<bool>)
    requires e.Wf() && budget > 0
  {
    var (end, link') := RunOverChannel(cfg, filters, budget, e, link);
    (end, link'.tx, link'.sendFaults)
  }

  /** Calling through the channel is calling on the stream of what it hands out. */
  lemma {:induction false} ChannelFeedsThrough(
    cfg: IsoTpConfig, filters: CanFilterSet, budget: nat, e: Endpoint, link: Link)
    requires e.Wf() && budget > 0
    ensures ChannelOutcome(cfg, filters, budget, e, link) ==
            Outcome(cfg, e, link.(rx := Through(filters, budget, link.rx)))
    decreases |link.rx|, Backlog(e)
  {
    hide OnReceived, Payload, AfterSend, Transmit, ChannelTransmit, ChannelReceive, Run;
    var seen := link.(rx := Through(filters, budget, link.rx));
    if e.Finished() {
      RunFinished(cfg, e, seen);
    } else if e.Emits() {
      ChannelTransmitsAll(cfg, Payload(cfg, e), link);
      EmitOutcome(cfg, e, link);
      EmitOutcome(cfg, e, seen);
      TransmitIgnoresInbound(cfg, Payload(cfg, e), link, seen.rx);
      var (sent, link') := Transmit(cfg, Payload(cfg, e), link);
      if sent.Ok? {
        EmitLowersBacklog(e);
        ChannelFeedsThrough(cfg, filters, budget, AfterSend(e), link');
      }
    } else {
      ReceptionOutcome(cfg, e, seen);
      if link.rx != [] {
        var (frame, rest) := ChannelReceive(filters, link.rx, budget);
        assert seen.rx == [Item(frame)] + Through(filters, budget, rest);
        assert seen.rx[1..] == Through(filters, budget, rest);
        ChannelFeedsThrough(cfg, filters, budget, OnReceived(cfg, e, Item(frame)), link.(rx := rest));
      }
    }
  }

  /**
    Transparency: on a link of valid, harmless frames whose gaps stay within both budgets, ISO-TP reports and sends the
    same with the filtering channel in between, in both directions, as without it.
   */
  lemma ChannelIsTransparent(cfg: IsoTpConfig, filters: CanFilterSet, max: nat, e: Endpoint, link: Link)
    requires e.Wf() && (e.Awaits() ==> e.unrelated == 0)
    requires AllValid(link.rx) && AllHarmless(cfg, filters, link.rx)
    requires GapsWithin(cfg, link.rx, cfg.maxUnrelatedFrames, 0) && GapsWithin(cfg, link.rx, max, 0)
    ensures ChannelOutcome(cfg, filters, max + 1, e, link) == Outcome(cfg, e, link)
  {
    hide ChannelOutcome, Outcome, AllHarmless;
    ChannelFeedsThrough(cfg, filters, max + 1, e, link);
    SeenUnfolds(cfg, filters, max, link.rx, 0);
    ChannelOnlyStrips(cfg, filters, max, link.rx, 0, cfg.maxUnrelatedFrames, 0);
    var seen := Through(filters, max + 1, link.rx);
    ForeignFramesAreInvisible(cfg, e, link);
    ForeignFramesAreInvisible(cfg, e, link.(rx := seen));
    TimeoutAtTheEnd(cfg, e, link.(rx := Strip(cfg, link.rx)));
  }

  function ResponseIdentifier(cfg: IsoTpConfig): CanIdentifier {
    if cfg.responseId > 0x7FF then Extended(cfg.responseId) else Standard(cfg.responseId)
  }

  /** In particular, frames whose width flag agrees with their identifier, if the filters accept `response_id`. */
  lemma AgreeingWidthsAreHarmless(cfg: IsoTpConfig, filters: CanFilterSet, frame: CanDataFrame)
    requires frame.id <= MAX_CAN_ID && frame.isExtendedId == (frame.id > 0x7FF)
    requires Accepts(filters, ResponseIdentifier(cfg))
    ensures Harmless(cfg, filters, frame)
  {
    hide Accepts;
  }

  /** A link that brings one frame and nothing else. */
  function OneFrame(frame: CanDataFrame): Link {
    Link([Got(frame)], [], [])
  }

  /** `recv_pdu` on such a link: through the channel the frame is an error, is handed on, or is not there. */
  lemma OneFrameOverChannel(cfg: IsoTpConfig, filters: CanFilterSet, max: nat, frame: CanDataFrame)
    ensures
      var identifier := FrameIdentifier(frame);
      ChannelOutcome(cfg, filters, max + 1, StartReceive, OneFrame(frame)) ==
      if identifier.Err? then (Failed(Error.Adapter), [], [])
      else if Accepts(filters, identifier.value) then Outcome(cfg, StartReceive, OneFrame(frame))
      else (Failed(Timeout), [], [])
  {
    hide Accepts, ChannelOutcome, OnReceived, Run;
    var link := OneFrame(frame);
    ChannelFeedsThrough(cfg, filters, max + 1, StartReceive, link);
    var seen := Through(filters, max + 1, link.rx);
    OneFrameThrough(filters, max, frame);
    if seen != link.rx {
      ReceptionOutcome(cfg, StartReceive, link.(rx := seen));
      FaultEnds(cfg, seen[0].error);
      RunFinished(cfg, Failed(seen[0].error), link.(rx := []));
    }
  }

  lemma FaultEnds(cfg: IsoTpConfig, error: Error)
    ensures OnReceived(cfg, StartReceive, LinkFault(error)) == Failed(error)
  {
  }

  lemma OneFrameThrough(filters: CanFilterSet, max: nat, frame: CanDataFrame)
    ensures
      var identifier := FrameIdentifier(frame);
      Through(filters, max + 1, [Got(frame)]) ==
      if identifier.Err? then [LinkFault(Error.Adapter)]
      else if Accepts(filters, identifier.value) then [Got(frame)]
      else [LinkFault(Timeout)]
  {
    hide Accepts;
    var nothing: seq<Received> := [];
    assert [Got(frame)][1..] == nothing && ChannelReceive(filters, nothing, max) == (Err(Timeout), nothing);
    assert Through(filters, max + 1, nothing) == [];
  }

  /** On the bare link a frame with the expected number is never overlooked, and never an adapter error. */
  lemma OneFrameOnBareLink(cfg: IsoTpConfig, frame: CanDataFrame)
    requires ValidFrame(frame)
    ensures Outcome(cfg, StartReceive, OneFrame(frame)).0 != Failed(Error.Adapter)
    ensures frame.id == cfg.responseId ==> Outcome(cfg, StartReceive, OneFrame(frame)) != (Failed(Timeout), [], [])
    ensures frame.id != cfg.responseId && cfg.maxUnrelatedFrames > 0 ==>
      Outcome(cfg, StartReceive, OneFrame(frame)) == (Failed(Timeout), [], [])
  {
    hide OnFirstFrame, Run;
    var (link, e) := (OneFrame(frame), OnReceived(cfg, StartReceive, Got(frame)));
    assert link.rx[1..] == [];
    ReceptionOutcome(cfg, StartReceive, link);
    var rest := link.(rx := []);
    FirstReception(cfg, frame);
    if e.Finished() {
      RunFinished(cfg, e, rest);
    } else if e.Awaits() {
      ReceptionOutcome(cfg, e, rest);
    } else {
      EmitOutcome(cfg, e, rest);
      GrantOnEmptyLink(cfg, e, rest);
    }
  }

  lemma FirstReception(cfg: IsoTpConfig, frame: CanDataFrame)
    requires ValidFrame(frame)
    ensures
      var e := OnReceived(cfg, StartReceive, Got(frame));
      && (e.Failed? ==> e.error == ParseError)
      && (frame.id == cfg.responseId ==> e.Failed? || e.Delivered? || e.SendingFlowControl?)
      && (frame.id != cfg.responseId && cfg.maxUnrelatedFrames > 0 ==> e.Awaits())
      && (e.Finished() || e.Awaits() || e.SendingFlowControl?)
  {
  }

  /** The flow control shows, unless it cannot be framed. */
  lemma GrantOnEmptyLink(cfg: IsoTpConfig, e: Endpoint, link: Link)
    requires e.Wf() && e.SendingFlowControl? && link == Link([], [], [])
    ensures
      var (sent, link') := Transmit(cfg, Payload(cfg, e), link);
      var outcome :=
        if sent.Err? then (Failed(sent.error), link'.tx, link'.sendFaults) else Outcome(cfg, AfterSend(e), link');
      outcome.0 != Failed(Error.Adapter) && outcome != (Failed(Timeout), [], [])
  {
    hide Run;
    var (sent, link') := Transmit(cfg, Payload(cfg, e), link);
    if sent.Ok? {
      ReceptionOutcome(cfg, AfterSend(e), link');
    }
  }

  ghost predicate MadeOf(rx: seq<Received>, frames: iset<CanDataFrame>) {
    forall i :: 0 <= i < |rx| && rx[i].Got? ==> rx[i].frame in frames
  }

  /** Calls over the channel are calls on the bare link, on every link that brings only these frames within budget. */
  ghost predicate Transparent(cfg: IsoTpConfig, filters: CanFilterSet, max: nat, frames: iset<CanDataFrame>) {
    forall e: Endpoint, link: Link ::
      e.Wf() && (e.Awaits() ==> e.unrelated == 0) && MadeOf(link.rx, frames)
      && GapsWithin(cfg, link.rx, cfg.maxUnrelatedFrames, 0) && GapsWithin(cfg, link.rx, max, 0) ==>
        ChannelOutcome(cfg, filters, max + 1, e, link) == Outcome(cfg, e, link)
  }

  /** Harmless, or a foreign frame where no budget allows any. */
  predicate Tolerated(cfg: IsoTpConfig, filters: CanFilterSet, max: nat, f: CanDataFrame) {
    Harmless(cfg, filters, f) || (f.id != cfg.responseId && (max == 0 || cfg.maxUnrelatedFrames == 0))
  }

  /**
    Transparency, exactly: the channel shows on some link that brings given valid frames exactly if one of them is not
    harmless, foreign frames aside where no budget allows any.
   */
  lemma TransparentExactly(cfg: IsoTpConfig, filters: CanFilterSet, max: nat, frames: iset<CanDataFrame>)
    requires forall f :: f in frames ==> ValidFrame(f)
    ensures
      Transparent(cfg, filters, max, frames) <==> forall f :: f in frames ==> Tolerated(cfg, filters, max, f)
  {
    hide Harmless, Outcome, ChannelOutcome, ValidFrame;
    if Transparent(cfg, filters, max, frames) {
      forall f | f in frames ensures Tolerated(cfg, filters, max, f) {
        assert MadeOf(OneFrame(f).rx, frames);
        if !Tolerated(cfg, filters, max, f) {
          HarmfulShows(cfg, filters, max, f);
        }
      }
    }
    if forall f :: f in frames ==> Tolerated(cfg, filters, max, f) {
      forall e: Endpoint, link: Link |
        e.Wf() && (e.Awaits() ==> e.unrelated == 0) && MadeOf(link.rx, frames)
        && GapsWithin(cfg, link.rx, cfg.maxUnrelatedFrames, 0) && GapsWithin(cfg, link.rx, max, 0)
        ensures ChannelOutcome(cfg, filters, max + 1, e, link) == Outcome(cfg, e, link)
      {
        TransparentOnLink(cfg, filters, max, frames, e, link);
      }
    }
  }

  lemma TransparentOnLink(
    cfg: IsoTpConfig, filters: CanFilterSet, max: nat, frames: iset<CanDataFrame>, e: Endpoint, link: Link)
    requires forall f :: f in frames ==> ValidFrame(f) && Tolerated(cfg, filters, max, f)
    requires e.Wf() && (e.Awaits() ==> e.unrelated == 0) && MadeOf(link.rx, frames)
    requires GapsWithin(cfg, link.rx, cfg.maxUnrelatedFrames, 0) && GapsWithin(cfg, link.rx, max, 0)
    ensures ChannelOutcome(cfg, filters, max + 1, e, link) == Outcome(cfg, e, link)
  {
    hide Harmless, Outcome, ChannelOutcome, ValidFrame;
    forall i | 0 <= i < |link.rx| && link.rx[i].Got?
      ensures ValidFrame(link.rx[i].frame) && Harmless(cfg, filters, link.rx[i].frame)
    {
      if max == 0 || cfg.maxUnrelatedFrames == 0 {
        NoGaps(cfg, link.rx, if max == 0 then max else cfg.maxUnrelatedFrames, i);
      }
    }
    ChannelIsTransparent(cfg, filters, max, e, link);
  }

  lemma {:induction false} NoGaps(cfg: IsoTpConfig, rx: seq<Received>, limit: nat, i: nat)
    requires limit == 0 && GapsWithin(cfg, rx, limit, 0) && i < |rx| && rx[i].Got?
    ensures rx[i].frame.id == cfg.responseId
  {
    if i > 0 {
      NoGaps(cfg, rx[1..], limit, i - 1);
    }
  }

  lemma HarmfulShows(cfg: IsoTpConfig, filters: CanFilterSet, max: nat, frame: CanDataFrame)
    requires ValidFrame(frame) && !Tolerated(cfg, filters, max, frame)
    ensures
      var link := OneFrame(frame);
      && GapsWithin(cfg, link.rx, cfg.maxUnrelatedFrames, 0) && GapsWithin(cfg, link.rx, max, 0)
      && ChannelOutcome(cfg, filters, max + 1, StartReceive, link) != Outcome(cfg, StartReceive, link)
  {
    hide Outcome, ChannelOutcome, Accepts;
    OneFrameOverChannel(cfg, filters, max, frame);
    OneFrameOnBareLink(cfg, frame);
    assert OneFrame(frame).rx[1..] == [];
  }

  /** A single frame with the expected number, of either width, is delivered on the bare link. */
  lemma SingleFrameAlone(cfg: IsoTpConfig, value: byte, isExtendedId: bool)
    requires cfg.maxPayloadLen > 0
    ensures Outcome(cfg, StartReceive, OneFrame(CanDataFrame(cfg.responseId, [0x01, value], isExtendedId))) ==
            (Delivered([value]), [], [])
  {
    hide Run, OnFirstFrame;
    var frame := CanDataFrame(cfg.responseId, [0x01, value], isExtendedId);
    ReceptionOutcome(cfg, StartReceive, OneFrame(frame));
    assert frame.data[1..2] == [value] && OneFrame(frame).rx[1..] == [];
    assert OnReceived(cfg, StartReceive, Got(frame)) == Delivered([value]);
    RunFinished(cfg, Delivered([value]), OneFrame(frame).(rx := []));
  }

  /** A 29-bit frame whose number is that of an 11-bit `response_id`: taken on the bare link, dropped by the channel. */
  lemma OtherWidthIsDropped(cfg: IsoTpConfig, max: nat, value: byte)
    requires cfg.responseId == 0x7E8 && cfg.maxPayloadLen > 0
    ensures
      var frame := CanDataFrame(0x7E8, [0x01, value], true);
      var filters := [CanRouteFilter(Standard(0x7E8), Standard(0x7FF))];
      && Outcome(cfg, StartReceive, OneFrame(frame)) == (Delivered([value]), [], [])
      && ChannelOutcome(cfg, filters, max + 1, StartReceive, OneFrame(frame)) == (Failed(Timeout), [], [])
  {
    hide Outcome, ChannelOutcome;
    var filters := [CanRouteFilter(Standard(0x7E8), Standard(0x7FF))];
    SingleFrameAlone(cfg, value, true);
    assert !filters[0].Matches(Extended(0x7E8));
    OneFrameOverChannel(cfg, filters, max, CanDataFrame(0x7E8, [0x01, value], true));
  }

  /**
    Delivery in traffic: with any budgeted foreign frames between the segments of a PDU, seen
    through the channel, `recv_pdu` still returns exactly the PDU and sends the same flow control.
   */
  lemma NoisySegmentsReassemble(
    cfgA: IsoTpConfig, cfgB: IsoTpConfig, filters: CanFilterSet, max: nat, pdu: seq<byte>, rx: seq<Received>)
    requires Compatible(cfgA, cfgB, pdu)
    requires AllValid(rx) && AllHarmless(cfgB, filters, rx)
    requires GapsWithin(cfgB, rx, cfgB.maxUnrelatedFrames, 0) && GapsWithin(cfgB, rx, max, 0)
    requires Strip(cfgB, rx) == Inbound(Segments(cfgA, pdu))
    ensures ChannelOutcome(cfgB, filters, max + 1, StartReceive, Link(rx, [], [])) ==
            (Delivered(pdu), FlowControls(cfgB, FlowControlCount(|pdu|, cfgB.blockSize)), [])
  {
    hide Run, RunOverChannel, AllHarmless, Segments;
    ChannelIsTransparent(cfgB, filters, max, StartReceive, Link(rx, [], []));
    ForeignFramesAreInvisible(cfgB, StartReceive, Link(rx, [], []));
    SegmentsReassemble(cfgA, cfgB, pdu);
  }
}
