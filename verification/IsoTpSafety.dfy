/**
  Reassembly of a damaged stream: frames of a segmented PDU that were lost, repeated
  or reordered on the way never make `recv_pdu` return a wrong PDU, as long as no frame
  arrives 16 or more places from where it belongs.
 */
module IsoTpSafety {
  import opened Basics
  import opened IsoTp
  import opened IsoTpDuplex

  /** Copies of the consecutive frames numbered `p[0]`, `p[1]`, ... (from 1). */
  function Copies(cfg: IsoTpConfig, pdu: seq<byte>, p: seq<nat>): (s: seq<CanDataFrame>)
    requires forall i :: 0 <= i < |p| ==> p[i] >= 1
    ensures |s| == |p|
  {
    seq(|p|, i requires 0 <= i < |p| => ConsecutiveFrame(cfg, pdu, p[i]))
  }

  ghost predicate Numbers(pdu: seq<byte>, p: seq<nat>) {
    forall i :: 0 <= i < |p| ==> 1 <= p[i] <= ConsecutiveCount(|pdu|)
  }

  /** The reassembly loop after `j` accepted consecutive frames. */
  ghost predicate After(pdu: seq<byte>, e: Endpoint, j: nat) {
    && e.Wf() && (e.AwaitingConsecutive? || e.SendingFlowControl?)
    && e.declared == |pdu| && e.expected == (j + 1) % 16 && |e.pdu| <= 6 + 7 * j
    && (e.AwaitingConsecutive? ==> e.unrelated == 0)
  }

  /** One copy of consecutive frame `number`, offered to the loop after `j` others. */
  lemma OfferCopy(cfgA: IsoTpConfig, cfgB: IsoTpConfig, pdu: seq<byte>, e: Endpoint, j: nat, number: nat)
    requires Compatible(cfgA, cfgB, pdu) && |pdu| > 7 && After(pdu, e, j) && e.AwaitingConsecutive?
    requires 1 <= number <= ConsecutiveCount(|pdu|)
    ensures
      var e' := OnReceived(cfgB, e, Got(ConsecutiveFrame(cfgA, pdu, number)));
      if number % 16 != (j + 1) % 16 then e'.Failed?
      else
        && (e'.Delivered? || After(pdu, e', j + 1))
        && e.pdu <= e'.pdu && |e'.pdu| <= 6 + 7 * (j + 1)
        && (e'.Delivered? ==> |e'.pdu| == |pdu|)
  {
    assert e.Wf();
    hide OnReceived, ConsecutiveFrame, OnConsecutive, ConsecutiveCount, Share, After;
    var data := ConsecutiveFrame(cfgA, pdu, number).data;
    CopyContents(cfgA, cfgB, pdu, e, number);
    GrowsAfter(cfgB, pdu, e, j, data);
  }

  lemma NextInSequence(j: nat)
    ensures ((j + 1) % 16 + 1) % 16 == (j + 2) % 16
  {
    var (q, r) := ((j + 1) / 16, (j + 1) % 16);
    assert j + 2 == if r == 15 then 16 * (q + 1) else 16 * q + (r + 1);
  }

  /** A consecutive frame of any content, offered to the loop after `j` others. */
  lemma GrowsAfter(cfg: IsoTpConfig, pdu: seq<byte>, e: Endpoint, j: nat, data: seq<byte>)
    requires After(pdu, e, j) && e.AwaitingConsecutive? && 2 <= |data| <= 8 && data[0] as int / 16 == 2
    ensures
      var e' := OnConsecutive(cfg, e, data);
      if data[0] as int % 16 != (j + 1) % 16 then e'.Failed?
      else
        && (e'.Delivered? || After(pdu, e', j + 1))
        && e.pdu <= e'.pdu && |e'.pdu| <= 6 + 7 * (j + 1)
        && (e'.Delivered? ==> |e'.pdu| == |pdu|)
  {
    assert e.Wf() && e.declared == |pdu| && e.expected == (j + 1) % 16 && |e.pdu| <= 6 + 7 * j;
    hide OnConsecutive;
    NextInSequence(j);
    ConsecutiveGrows(cfg, e, data);
  }

  /** The right copy contributes exactly its share, padded or not. */
  lemma OfferRightCopy(cfgA: IsoTpConfig, cfgB: IsoTpConfig, pdu: seq<byte>, e: Endpoint, j: nat)
    requires Compatible(cfgA, cfgB, pdu) && |pdu| > 7 && After(pdu, e, j) && e.AwaitingConsecutive?
    requires j + 1 <= ConsecutiveCount(|pdu|) && |e.pdu| == Offset(pdu, j)
    ensures
      var e' := OnReceived(cfgB, e, Got(ConsecutiveFrame(cfgA, pdu, j + 1)));
      (e'.Delivered? || After(pdu, e', j + 1)) && e'.pdu == e.pdu + Share(pdu, j + 1)
  {
    hide OnReceived, ConsecutiveFrame, OnConsecutive, ConsecutiveCount;
    CopyContents(cfgA, cfgB, pdu, e, j + 1);
    var data := ConsecutiveFrame(cfgA, pdu, j + 1).data;
    ConsecutiveGrows(cfgB, e, data);
    OfferCopy(cfgA, cfgB, pdu, e, j, j + 1);
    assert Min(e.declared - |e.pdu|, |data| - 1) == |Share(pdu, j + 1)|;
  }

  /** The loop accepts a consecutive frame by its sequence nibble alone. */
  lemma ConsecutiveGrows(cfg: IsoTpConfig, e: Endpoint, data: seq<byte>)
    requires e.Wf() && e.AwaitingConsecutive? && 2 <= |data| <= 8 && data[0] as int / 16 == 2
    ensures
      var e' := OnConsecutive(cfg, e, data);
      if data[0] as int % 16 != e.expected then e'.Failed?
      else
        && e'.pdu == e.pdu + data[1..1 + Min(e.declared - |e.pdu|, |data| - 1)]
        && (e'.Delivered? <==> |e'.pdu| == e.declared)
        && (!e'.Delivered? ==>
              && (e'.AwaitingConsecutive? || e'.SendingFlowControl?)
              && e'.declared == e.declared && e'.expected == (e.expected + 1) % 16
              && (e'.AwaitingConsecutive? ==> e'.unrelated == 0))
  {
  }

  /** The loop on a damaged stream: it times out at the end of it, or takes one more copy. */
  lemma TakesCopy(cfgA: IsoTpConfig, cfgB: IsoTpConfig, pdu: seq<byte>, p: seq<nat>, e: Endpoint, j: nat, link: Link)
    requires Compatible(cfgA, cfgB, pdu) && |pdu| > 7 && Numbers(pdu, p) && j <= |p|
    requires After(pdu, e, j) && e.AwaitingConsecutive? && link.rx == Inbound(Copies(cfgA, pdu, p[j..]))
    ensures j == |p| ==> Run(cfgB, e, link).0.Failed?
    ensures j < |p| ==>
      var e' := OnReceived(cfgB, e, Got(ConsecutiveFrame(cfgA, pdu, p[j])));
      var link' := link.(rx := Inbound(Copies(cfgA, pdu, p[j + 1..])));
      Run(cfgB, e, link) == if e'.Finished() then (e', link') else Run(cfgB, e', link')
  {
    hide OnReceived;
    if j < |p| {
      assert link.rx[0] == Got(ConsecutiveFrame(cfgA, pdu, p[j]));
      assert link.rx[1..] == Inbound(Copies(cfgA, pdu, p[j + 1..]));
    }
  }

  /** What one accepted copy contributes to that. */
  lemma CopyCounts(cfgA: IsoTpConfig, cfgB: IsoTpConfig, pdu: seq<byte>, e: Endpoint, j: nat, number: nat)
    requires Compatible(cfgA, cfgB, pdu) && |pdu| > 7 && After(pdu, e, j) && e.AwaitingConsecutive?
    requires 1 <= number <= ConsecutiveCount(|pdu|)
    ensures
      var e' := OnReceived(cfgB, e, Got(ConsecutiveFrame(cfgA, pdu, number)));
      && (e'.Failed? || number % 16 == (j + 1) % 16)
      && (e'.Delivered? ==> ConsecutiveCount(|pdu|) <= j + 1)
      && (!e'.Finished() ==> After(pdu, e', j + 1))
      && (e.pdu == pdu[..Offset(pdu, j)] ==> j < ConsecutiveCount(|pdu|))
      && (e.pdu == pdu[..Offset(pdu, j)] && number == j + 1 ==>
            e'.pdu == pdu[..Offset(pdu, j + 1)] && (e'.Delivered? ==> e'.pdu == pdu))
  {
    hide OnReceived, ConsecutiveFrame, Compatible;
    OfferCopy(cfgA, cfgB, pdu, e, j, number);
    if e.pdu == pdu[..Offset(pdu, j)] && number == j + 1 {
      OfferRightCopy(cfgA, cfgB, pdu, e, j);
      assert pdu[..Offset(pdu, j)] + Share(pdu, j + 1) == pdu[..Offset(pdu, j + 1)];
      assert pdu[..|pdu|] == pdu;
    }
  }

  /**
    What acceptance implies, whatever was copied: the loop consumed at least as many frames
    as the PDU has, each congruent modulo 16 to its place; and if each was the right one,
    the result is the PDU.
   */
  lemma {:induction false} AcceptanceImpliesCongruence(
    cfgA: IsoTpConfig, cfgB: IsoTpConfig, pdu: seq<byte>, p: seq<nat>, e: Endpoint, j: nat, link: Link)
    requires Compatible(cfgA, cfgB, pdu) && |pdu| > 7 && Numbers(pdu, p) && j <= |p|
    requires After(pdu, e, j) && link.rx == Inbound(Copies(cfgA, pdu, p[j..]))
    ensures
      var (end, rest) := Run(cfgB, e, link);
      end.Delivered? ==>
        var used := |p| - |rest.rx|;
        && ConsecutiveCount(|pdu|) <= used <= |p|
        && (forall i :: j <= i < used ==> p[i] % 16 == (i + 1) % 16)
        && (e.pdu == pdu[..Offset(pdu, j)] && (forall i :: j <= i < used ==> p[i] == i + 1) ==> end.pdu == pdu)
    decreases |p| - j, e.SendingFlowControl?
  {
    hide OnReceived, Transmit, Run, ConsecutiveFrame, Compatible, ConsecutiveCount, Offset;
    if e.SendingFlowControl? {
      SendsFlowControl(cfgB, e, link);
      var (sent, link') := Transmit(cfgB, FlowControlData(cfgB), link);
      if sent.Ok? {
        var e' := AwaitingConsecutive(e.declared, e.pdu, e.expected, 0, 0);
        AcceptanceImpliesCongruence(cfgA, cfgB, pdu, p, e', j, link');
      }
    } else {
      TakesCopy(cfgA, cfgB, pdu, p, e, j, link);
      if j < |p| {
        CopyCounts(cfgA, cfgB, pdu, e, j, p[j]);
        var e' := OnReceived(cfgB, e, Got(ConsecutiveFrame(cfgA, pdu, p[j])));
        var link' := link.(rx := Inbound(Copies(cfgA, pdu, p[j + 1..])));
        if !e'.Finished() {
          AcceptanceImpliesCongruence(cfgA, cfgB, pdu, p, e', j + 1, link');
        }
      }
    }
  }

  lemma SendsFlowControl(cfg: IsoTpConfig, e: Endpoint, link: Link)
    requires e.Wf() && e.SendingFlowControl?
    ensures
      var (sent, link') := Transmit(cfg, FlowControlData(cfg), link);
      && link'.rx == link.rx
      && Run(cfg, e, link) ==
         if sent.Err? then (Failed(sent.error), link')
         else Run(cfg, AwaitingConsecutive(e.declared, e.pdu, e.expected, 0, 0), link')
  {
    hide OnReceived, Run;
    RunEmits(cfg, e, link);
  }

  /** The first frame followed by copies of consecutive frames. */
  function Stream(cfg: IsoTpConfig, pdu: seq<byte>, p: seq<nat>): seq<CanDataFrame>
    requires 7 < |pdu| <= MAX_CLASSIC_ISOTP_PAYLOAD && Numbers(pdu, p)
  {
    [FirstFrame(cfg, pdu)] + Copies(cfg, pdu, p)
  }

  lemma OpensStream(cfgA: IsoTpConfig, cfgB: IsoTpConfig, pdu: seq<byte>, p: seq<nat>, link: Link)
    requires Compatible(cfgA, cfgB, pdu) && |pdu| > 7 && Numbers(pdu, p)
    requires link.rx == Inbound(Stream(cfgA, pdu, p))
    ensures
      var e := SendingFlowControl(|pdu|, pdu[..Offset(pdu, 0)], 1);
      var link' := link.(rx := Inbound(Copies(cfgA, pdu, p)));
      After(pdu, e, 0) && Run(cfgB, StartReceive, link) == Run(cfgB, e, link')
  {
    hide OnReceived;
    FirstFrameOpens(cfgA, cfgB, pdu);
    assert link.rx[1..] == Inbound(Copies(cfgA, pdu, p));
  }

  /** The frames of a segmented PDU at the positions in `kept`. */
  function Select(frames: seq<CanDataFrame>, kept: seq<nat>): (s: seq<CanDataFrame>)
    requires forall i :: 0 <= i < |kept| ==> kept[i] < |frames|
    ensures |s| == |kept|
  {
    seq(|kept|, i requires 0 <= i < |kept| => frames[kept[i]])
  }

  ghost predicate Increasing(p: seq<nat>) {
    forall i, k :: 0 <= i < k < |p| ==> p[i] < p[k]
  }

  lemma LossAfterFirst(cfgA: IsoTpConfig, cfgB: IsoTpConfig, pdu: seq<byte>, p: seq<nat>, link: Link)
    requires Compatible(cfgA, cfgB, pdu) && |pdu| > 7 && Numbers(pdu, p) && Increasing(p)
    requires link.rx == Inbound(Stream(cfgA, pdu, p))
    ensures
      var end := Run(cfgB, StartReceive, link).0;
      end.Delivered? ==> end.pdu == pdu && |p| == ConsecutiveCount(|pdu|)
  {
    OpensStream(cfgA, cfgB, pdu, p, link);
    hide Run, ConsecutiveCount;
    var e := SendingFlowControl(|pdu|, pdu[..Offset(pdu, 0)], 1);
    assert p[0..] == p;
    AcceptanceImpliesCongruence(cfgA, cfgB, pdu, p, e, 0, link.(rx := Inbound(Copies(cfgA, pdu, p))));
    if Run(cfgB, StartReceive, link).0.Delivered? {
      IncreasingIsIdentity(p, ConsecutiveCount(|pdu|));
    }
  }

  /**
    Loss: deliver any part of what the sender emitted, in order. If `recv_pdu` still
    returns Ok, it returns the PDU, and nothing was lost. The link's sends may fail.
   */
  lemma LossIsDetected(cfgA: IsoTpConfig, cfgB: IsoTpConfig, pdu: seq<byte>, kept: seq<nat>, link: Link)
    requires Compatible(cfgA, cfgB, pdu) && Increasing(kept)
    requires forall i :: 0 <= i < |kept| ==> kept[i] < |Segments(cfgA, pdu)|
    requires link.rx == Inbound(Select(Segments(cfgA, pdu), kept))
    ensures
      var end := Run(cfgB, StartReceive, link).0;
      end.Delivered? ==> end.pdu == pdu && |kept| == |Segments(cfgA, pdu)|
  {
    if kept != [] {
      hide Run, Select, Segments, Stream;
      if |pdu| <= 7 {
        SingleFrameKept(cfgA, cfgB, pdu, kept, link);
      } else if kept[0] != 0 {
        LosingFirstFails(cfgA, cfgB, pdu, kept, link);
      } else {
        KeptIsStream(cfgA, pdu, kept);
        LossAfterFirst(cfgA, cfgB, pdu, kept[1..], link);
      }
    }
  }

  lemma {:induction false} IncreasingAbove(p: seq<nat>, i: nat)
    requires Increasing(p) && i < |p|
    ensures p[i] >= i
  {
    if i > 0 {
      IncreasingAbove(p, i - 1);
    }
  }

  lemma SingleFrameKept(cfgA: IsoTpConfig, cfgB: IsoTpConfig, pdu: seq<byte>, kept: seq<nat>, link: Link)
    requires Compatible(cfgA, cfgB, pdu) && |pdu| <= 7 && kept != [] && Increasing(kept)
    requires forall i :: 0 <= i < |kept| ==> kept[i] < |Segments(cfgA, pdu)|
    requires link.rx == Inbound(Select(Segments(cfgA, pdu), kept))
    ensures |kept| == 1 == |Segments(cfgA, pdu)| && Run(cfgB, StartReceive, link).0 == Delivered(pdu)
  {
    hide OnReceived, SingleFrame;
    IncreasingAbove(kept, |kept| - 1);
    SingleFrameDelivers(cfgA, cfgB, pdu);
  }

  lemma LosingFirstFails(cfgA: IsoTpConfig, cfgB: IsoTpConfig, pdu: seq<byte>, kept: seq<nat>, link: Link)
    requires Compatible(cfgA, cfgB, pdu) && |pdu| > 7 && kept != [] && kept[0] != 0
    requires forall i :: 0 <= i < |kept| ==> kept[i] < |Segments(cfgA, pdu)|
    requires link.rx == Inbound(Select(Segments(cfgA, pdu), kept))
    ensures Run(cfgB, StartReceive, link).0.Failed?
  {
    hide OnReceived, ConsecutiveFrame, FirstFrame, ConsecutiveCount;
    ConsecutiveCannotOpen(cfgA, cfgB, pdu, kept[0]);
    assert link.rx[0] == Got(ConsecutiveFrame(cfgA, pdu, kept[0]));
  }

  lemma KeptIsStream(cfg: IsoTpConfig, pdu: seq<byte>, kept: seq<nat>)
    requires 7 < |pdu| <= MAX_CLASSIC_ISOTP_PAYLOAD && kept != [] && kept[0] == 0 && Increasing(kept)
    requires forall i :: 0 <= i < |kept| ==> kept[i] < |Segments(cfg, pdu)|
    ensures
      var p := kept[1..];
      && Numbers(pdu, p) && Increasing(p) && Select(Segments(cfg, pdu), kept) == Stream(cfg, pdu, p)
      && |Segments(cfg, pdu)| == 1 + ConsecutiveCount(|pdu|)
  {
    hide ConsecutiveFrame, FirstFrame, ConsecutiveCount;
    assert forall i :: 0 <= i < |kept[1..]| ==> kept[0] < kept[1..][i];
  }

  lemma ConsecutiveCannotOpen(cfgA: IsoTpConfig, cfgB: IsoTpConfig, pdu: seq<byte>, j: nat)
    requires Compatible(cfgA, cfgB, pdu) && 1 <= j <= ConsecutiveCount(|pdu|)
    ensures OnReceived(cfgB, StartReceive, Got(ConsecutiveFrame(cfgA, pdu, j))).Failed?
  {
    hide OnFirstFrame, OnConsecutive, DecodeFlowControl, DecodeSingleFrame;
    assert ConsecutiveFrame(cfgA, pdu, j).data[0] == 0x20 + j % 16;
  }

  lemma {:induction false} IncreasingIsIdentity(p: seq<nat>, m: nat)
    requires |p| >= m && forall i :: 0 <= i < |p| ==> 1 <= p[i] <= m
    requires Increasing(p)
    ensures |p| == m && forall i :: 0 <= i < m ==> p[i] == i + 1
  {
    assert |p| > 0 ==> 1 <= p[0] <= m;
    if m > 0 {
      var k := |p| - 1;
      forall i | 0 <= i < k ensures p[..k][i] <= m - 1 {
        assert p[i] < p[k];
      }
      IncreasingIsIdentity(p[..k], m - 1);
      assert k > 0 ==> p[k - 1] < p[k];
    }
  }

  /**
    Duplication and reordering: if each consecutive frame received is a copy of one sent fewer
    than 16 places away, Ok means every frame was in its place and the result is the PDU.
   */
  lemma ReorderingIsDetected(cfgA: IsoTpConfig, cfgB: IsoTpConfig, pdu: seq<byte>, p: seq<nat>, link: Link)
    requires Compatible(cfgA, cfgB, pdu) && |pdu| > 7 && Numbers(pdu, p)
    requires forall i :: 0 <= i < |p| ==> -16 < p[i] - (i + 1) < 16
    requires link.rx == Inbound(Stream(cfgA, pdu, p))
    ensures
      var (end, rest) := Run(cfgB, StartReceive, link);
      end.Delivered? ==>
        && end.pdu == pdu
        && |p| - |rest.rx| == ConsecutiveCount(|pdu|)
        && forall i :: 0 <= i < |p| - |rest.rx| ==> p[i] == i + 1
  {
    hide Run, Stream, ConsecutiveCount;
    OpensStream(cfgA, cfgB, pdu, p, link);
    var e := SendingFlowControl(|pdu|, pdu[..Offset(pdu, 0)], 1);
    assert p[0..] == p;
    AcceptanceImpliesCongruence(cfgA, cfgB, pdu, p, e, 0, link.(rx := Inbound(Copies(cfgA, pdu, p))));
    var (end, rest) := Run(cfgB, StartReceive, link);
    if end.Delivered? {
      var used := |p| - |rest.rx|;
      forall i | 0 <= i < used ensures p[i] == i + 1 {
        assert p[i] % 16 == (i + 1) % 16;
        SmallMultiple(p[i], i + 1);
      }
      assert p[used - 1] == used;
    }
  }

  lemma SmallMultiple(a: nat, b: nat)
    requires a % 16 == b % 16 && -16 < a - b < 16
    ensures a == b
  {
  }

  /** In-place frames complete whatever prefix of the right length the loop holds. */
  lemma {:induction false} TailCompletes(
    cfgA: IsoTpConfig, cfgB: IsoTpConfig, pdu: seq<byte>, p: seq<nat>, e: Endpoint, j: nat, link: Link)
    requires Compatible(cfgA, cfgB, pdu) && |pdu| > 7 && |p| == ConsecutiveCount(|pdu|) && Numbers(pdu, p) && j < |p|
    requires forall i :: j <= i < |p| ==> p[i] == i + 1
    requires After(pdu, e, j) && |e.pdu| == Offset(pdu, j)
    requires link.rx == Inbound(Copies(cfgA, pdu, p[j..])) && link.sendFaults == []
    requires cfgB.requestId <= MAX_CAN_ID
    ensures Run(cfgB, e, link).0 == Delivered(e.pdu + pdu[Offset(pdu, j)..])
    decreases |p| - j, e.SendingFlowControl?
  {
    hide OnReceived, Run, ConsecutiveFrame;
    if e.SendingFlowControl? {
      SendsFlowControl(cfgB, e, link);
      var link' := Transmit(cfgB, FlowControlData(cfgB), link).1;
      TailCompletes(cfgA, cfgB, pdu, p, AwaitingConsecutive(e.declared, e.pdu, e.expected, 0, 0), j, link');
    } else {
      TakesCopy(cfgA, cfgB, pdu, p, e, j, link);
      OfferCopy(cfgA, cfgB, pdu, e, j, p[j]);
      var e' := OnReceived(cfgB, e, Got(ConsecutiveFrame(cfgA, pdu, p[j])));
      var link' := link.(rx := Inbound(Copies(cfgA, pdu, p[j + 1..])));
      OfferRightCopy(cfgA, cfgB, pdu, e, j);
      assert e'.pdu + pdu[Offset(pdu, j + 1)..] == e.pdu + pdu[Offset(pdu, j)..];
      if e'.Delivered? {
        assert pdu[Offset(pdu, j + 1)..] == [];
      } else {
        TailCompletes(cfgA, cfgB, pdu, p, e', j + 1, link');
      }
    }
  }

  /**
    The window of 16 is sharp: put a copy of consecutive frame 17 in the place of
    the first one, and the call returns Ok with that frame's bytes twice.
   */
  lemma SixteenPlacesOffIsAccepted(cfgA: IsoTpConfig, cfgB: IsoTpConfig, pdu: seq<byte>, p: seq<nat>, link: Link)
    requires Compatible(cfgA, cfgB, pdu) && |pdu| >= 6 + 7 * 17
    requires |p| == ConsecutiveCount(|pdu|) && Numbers(pdu, p)
    requires p[0] == 17 && forall i :: 1 <= i < |p| ==> p[i] == i + 1
    requires link.rx == Inbound(Stream(cfgA, pdu, p)) && link.sendFaults == []
    ensures Run(cfgB, StartReceive, link).0 == Delivered(pdu[..6] + pdu[118..125] + pdu[13..])
  {
    hide OnReceived, Payload, AfterSend;
    OpensStream(cfgA, cfgB, pdu, p, link);
    var e := SendingFlowControl(|pdu|, pdu[..Offset(pdu, 0)], 1);
    var link0 := link.(rx := Inbound(Copies(cfgA, pdu, p)));
    SendsFlowControl(cfgB, e, link0);
    var link1 := Transmit(cfgB, FlowControlData(cfgB), link0).1;
    var waiting := AwaitingConsecutive(|pdu|, e.pdu, 1, 0, 0);
    AcceptsAlias(cfgA, cfgB, pdu, waiting);
    var e' := OnReceived(cfgB, waiting, link1.rx[0]);
    var link2 := link1.(rx := link1.rx[1..]);
    assert link2.rx == Inbound(Copies(cfgA, pdu, p[1..]));
    assert Run(cfgB, waiting, link1) == Run(cfgB, e', link2);
    TailCompletes(cfgA, cfgB, pdu, p, e', 1, link2);
  }

  lemma AcceptsAlias(cfgA: IsoTpConfig, cfgB: IsoTpConfig, pdu: seq<byte>, e: Endpoint)
    requires Compatible(cfgA, cfgB, pdu) && |pdu| >= 6 + 7 * 17
    requires e == AwaitingConsecutive(|pdu|, pdu[..6], 1, 0, 0)
    ensures
      var e' := OnReceived(cfgB, e, Got(ConsecutiveFrame(cfgA, pdu, 17)));
      After(pdu, e', 1) && e'.pdu == pdu[..6] + pdu[118..125]
  {
    hide OnFirstFrame, DecodeFlowControl, DecodeSingleFrame;
    var data := ConsecutiveFrame(cfgA, pdu, 17).data;
    assert data[0] == 0x21 && data[1..8] == pdu[118..125];
  }

  /** No misplacement by fewer than `window` places makes the call return Ok with another PDU. */
  ghost predicate Detects(cfgA: IsoTpConfig, cfgB: IsoTpConfig, pdu: seq<byte>, window: nat)
    requires Compatible(cfgA, cfgB, pdu) && |pdu| > 7
  {
    forall p: seq<nat>, link: Link ::
      Numbers(pdu, p) && (forall i :: 0 <= i < |p| ==> p[i] - (i + 1) < window && (i + 1) - p[i] < window)
      && link.rx == Inbound(Stream(cfgA, pdu, p)) ==>
        var end := Run(cfgB, StartReceive, link).0;
        end.Delivered? ==> end.pdu == pdu
  }

  /** The window is 16 exactly, for every PDU whose first and seventeenth consecutive frames differ. */
  lemma WindowIsSixteen(cfgA: IsoTpConfig, cfgB: IsoTpConfig, pdu: seq<byte>, window: nat)
    requires Compatible(cfgA, cfgB, pdu) && |pdu| >= 6 + 7 * 17 && pdu[118..125] != pdu[6..13]
    ensures Detects(cfgA, cfgB, pdu, window) <==> window <= 16
  {
    hide Run;
    if window <= 16 {
      forall p: seq<nat>, link: Link |
        Numbers(pdu, p) && (forall i :: 0 <= i < |p| ==> p[i] - (i + 1) < window && (i + 1) - p[i] < window)
        && link.rx == Inbound(Stream(cfgA, pdu, p))
        ensures var end := Run(cfgB, StartReceive, link).0; end.Delivered? ==> end.pdu == pdu
      {
        ReorderingIsDetected(cfgA, cfgB, pdu, p, link);
      }
    } else {
      var p: seq<nat> := [17] + seq(ConsecutiveCount(|pdu|) - 1, i requires 0 <= i => i + 2);
      var link := Link(Inbound(Stream(cfgA, pdu, p)), [], []);
      SixteenPlacesOffIsAccepted(cfgA, cfgB, pdu, p, link);
      var got := pdu[..6] + pdu[118..125] + pdu[13..];
      assert got[6..13] == pdu[118..125];
      assert !Detects(cfgA, cfgB, pdu, window);
    }
  }
}
