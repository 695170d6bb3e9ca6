/**
  What `recv_pdu` returns for a stream of copies, whatever was copied where: the exact bytes, and exactly
  when they are the PDU.
 */
module IsoTpCopies {
  import opened Basics
  import opened IsoTp
  import opened IsoTpDuplex
  import opened IsoTpSafety

  /** The data bytes of a consecutive frame, padding included. */
  function Carried(cfg: IsoTpConfig, pdu: seq<byte>, number: nat): seq<byte>
    requires number >= 1
  {
    var data := ConsecutiveFrame(cfg, pdu, number).data;
    if data == [] then [] else data[1..]
  }

  /** What copies of the frames numbered `p[0]`, `p[1]`, ... carry together. */
  function Joined(cfg: IsoTpConfig, pdu: seq<byte>, p: seq<nat>): seq<byte>
    requires forall i :: 0 <= i < |p| ==> p[i] >= 1
  {
    if p == [] then [] else Joined(cfg, pdu, p[..|p| - 1]) + Carried(cfg, pdu, p[|p| - 1])
  }

  /** One copy in sequence: the loop takes what it carries, up to the declared length. */
  lemma OfferedJoins(cfgA: IsoTpConfig, cfgB: IsoTpConfig, pdu: seq<byte>, e: Endpoint, j: nat, number: nat)
    requires Compatible(cfgA, cfgB, pdu) && |pdu| > 7 && After(pdu, e, j) && e.AwaitingConsecutive?
    requires 1 <= number <= ConsecutiveCount(|pdu|) && number % 16 == (j + 1) % 16
    ensures
      var e' := OnReceived(cfgB, e, Got(ConsecutiveFrame(cfgA, pdu, number)));
      var joined := e.pdu + Carried(cfgA, pdu, number);
      && (e'.Delivered? || After(pdu, e', j + 1))
      && e'.pdu == joined[..Min(|joined|, |pdu|)] && (e'.Delivered? <==> |joined| >= |pdu|)
  {
    hide OnReceived, ConsecutiveFrame, OnConsecutive, ConsecutiveCount, Share;
    OfferCopy(cfgA, cfgB, pdu, e, j, number);
    CopyContents(cfgA, cfgB, pdu, e, number);
    var data := ConsecutiveFrame(cfgA, pdu, number).data;
    ConsecutiveGrows(cfgB, e, data);
    var taken := Min(e.declared - |e.pdu|, |data| - 1);
    assert data[1..1 + taken] == data[1..][..taken];
    assert (e.pdu + data[1..])[..|e.pdu| + taken] == e.pdu + data[1..][..taken];
  }

  /** The result of a call that used `used` copies: what they carry, the last one needed, cut at the declared length. */
  predicate IsJoined(cfg: IsoTpConfig, pdu: seq<byte>, p: seq<nat>, used: int, result: seq<byte>)
    requires |pdu| > 7 && forall i :: 0 <= i < |p| ==> p[i] >= 1
  {
    && 0 < used <= |p|
    && |pdu[..6] + Joined(cfg, pdu, p[..used - 1])| < |pdu| <= |pdu[..6] + Joined(cfg, pdu, p[..used])|
    && result == (pdu[..6] + Joined(cfg, pdu, p[..used]))[..|pdu|]
  }

  lemma LastCopyJoins(cfg: IsoTpConfig, pdu: seq<byte>, p: seq<nat>, j: nat, result: seq<byte>)
    requires |pdu| > 7 && j < |p| && forall i :: 0 <= i < |p| ==> p[i] >= 1
    requires
      var before := pdu[..6] + Joined(cfg, pdu, p[..j]);
      var joined := before + Carried(cfg, pdu, p[j]);
      |before| < |pdu| <= |joined| && result == joined[..|pdu|]
    ensures IsJoined(cfg, pdu, p, j + 1, result)
  {
    hide Carried;
    JoinedNext(cfg, pdu, p, j);
  }

  lemma {:induction false} AcceptedJoins(
    cfgA: IsoTpConfig, cfgB: IsoTpConfig, pdu: seq<byte>, p: seq<nat>, e: Endpoint, j: nat, link: Link)
    requires Compatible(cfgA, cfgB, pdu) && |pdu| > 7 && Numbers(pdu, p) && j <= |p|
    requires After(pdu, e, j) && link.rx == Inbound(Copies(cfgA, pdu, p[j..]))
    requires e.pdu == pdu[..6] + Joined(cfgA, pdu, p[..j]) && |e.pdu| < |pdu|
    ensures
      var (end, rest) := Run(cfgB, e, link);
      end.Delivered? ==>
        IsJoined(cfgA, pdu, p, |p| - |rest.rx|, end.pdu)
    decreases |p| - j, e.SendingFlowControl?
  {
    hide OnReceived, Transmit, Run, Carried, Joined, IsJoined, ConsecutiveFrame, Compatible;
    if e.SendingFlowControl? {
      SendsFlowControl(cfgB, e, link);
      var (sent, link') := Transmit(cfgB, FlowControlData(cfgB), link);
      if sent.Ok? {
        var waiting := AwaitingConsecutive(e.declared, e.pdu, e.expected, 0, 0);
        AcceptedJoins(cfgA, cfgB, pdu, p, waiting, j, link');
      }
    } else {
      TakesCopy(cfgA, cfgB, pdu, p, e, j, link);
      if j < |p| {
        OfferCopy(cfgA, cfgB, pdu, e, j, p[j]);
        var e' := OnReceived(cfgB, e, Got(ConsecutiveFrame(cfgA, pdu, p[j])));
        var link' := link.(rx := Inbound(Copies(cfgA, pdu, p[j + 1..])));
        if !e'.Failed? {
          OfferedJoins(cfgA, cfgB, pdu, e, j, p[j]);
          JoinedNext(cfgA, pdu, p, j);
          if e'.Delivered? {
            assert |link'.rx| == |p| - (j + 1);
            LastCopyJoins(cfgA, pdu, p, j, e'.pdu);
          } else {
            AcceptedJoins(cfgA, cfgB, pdu, p, e', j + 1, link');
          }
        }
      }
    }
  }

  lemma JoinedNext(cfg: IsoTpConfig, pdu: seq<byte>, p: seq<nat>, j: nat)
    requires j < |p| && forall i :: 0 <= i < |p| ==> p[i] >= 1
    ensures Joined(cfg, pdu, p[..j + 1]) == Joined(cfg, pdu, p[..j]) + Carried(cfg, pdu, p[j])
    ensures pdu[..Min(6, |pdu|)] + Joined(cfg, pdu, p[..j + 1]) ==
            (pdu[..Min(6, |pdu|)] + Joined(cfg, pdu, p[..j])) + Carried(cfg, pdu, p[j])
  {
    hide Carried;
    assert p[..j + 1][..j] == p[..j];
  }

  /** Short of the last place, every copy fills its place: always so with padding. */
  ghost predicate FillsPlaces(cfg: IsoTpConfig, pdu: seq<byte>, p: seq<nat>) {
    Numbers(pdu, p) &&
    forall i :: 0 <= i < |p| && i + 1 < ConsecutiveCount(|pdu|) ==> |Carried(cfg, pdu, p[i])| == 7
  }

  lemma PaddingFillsPlaces(cfg: IsoTpConfig, pdu: seq<byte>, p: seq<nat>)
    requires cfg.txPadding.Some? && Numbers(pdu, p)
    ensures FillsPlaces(cfg, pdu, p)
  {
  }

  /** The copy at place `k` carries what belongs there. */
  predicate CarriesShare(cfg: IsoTpConfig, pdu: seq<byte>, number: nat, place: nat)
    requires number >= 1 && place >= 1
  {
    Share(pdu, place) <= Carried(cfg, pdu, number)
  }

  /** No frame carries less than the last share. */
  lemma CarriesEnough(cfg: IsoTpConfig, pdu: seq<byte>, number: nat)
    requires |pdu| > 7 && 1 <= number <= ConsecutiveCount(|pdu|)
    ensures |Share(pdu, ConsecutiveCount(|pdu|))| <= |Carried(cfg, pdu, number)| <= 7
  {
  }

  /** The first `k` places hold the PDU's bytes exactly if each copy carries its share. */
  lemma {:induction false} PlacesExactly(cfg: IsoTpConfig, pdu: seq<byte>, p: seq<nat>, k: nat)
    requires |pdu| > 7 && FillsPlaces(cfg, pdu, p) && k <= |p| && k <= ConsecutiveCount(|pdu|)
    ensures k < ConsecutiveCount(|pdu|) ==> |Joined(cfg, pdu, p[..k])| == 7 * k
    ensures
      var joined := pdu[..6] + Joined(cfg, pdu, p[..k]);
      && Offset(pdu, k) <= |joined|
      && (joined[..Offset(pdu, k)] == pdu[..Offset(pdu, k)] <==>
          forall i :: 0 <= i < k ==> CarriesShare(cfg, pdu, p[i], i + 1))
  {
    hide Carried, CarriesShare, ConsecutiveCount;
    if k > 0 {
      hide Joined, Offset;
      PlacesExactly(cfg, pdu, p, k - 1);
      JoinedNext(cfg, pdu, p, k - 1);
      CarriesEnough(cfg, pdu, p[k - 1]);
      var before := pdu[..6] + Joined(cfg, pdu, p[..k - 1]);
      PlaceExactly(cfg, pdu, before, p[k - 1], k);
    } else {
      assert p[..0] == [] && pdu[..6] + [] == pdu[..6];
    }
  }

  lemma PlaceExactly(cfg: IsoTpConfig, pdu: seq<byte>, before: seq<byte>, number: nat, k: nat)
    requires |pdu| > 7 && 1 <= number && 1 <= k <= ConsecutiveCount(|pdu|) && |before| == 6 + 7 * (k - 1)
    requires |Carried(cfg, pdu, number)| >= |Share(pdu, k)|
    ensures
      var joined := before + Carried(cfg, pdu, number);
      && Offset(pdu, k - 1) == |before| <= Offset(pdu, k) <= |joined|
      && (joined[..Offset(pdu, k)] == pdu[..Offset(pdu, k)] <==>
          before == pdu[..|before|] && CarriesShare(cfg, pdu, number, k))
  {
    hide Carried, ConsecutiveCount;
    ShareExtends(pdu, k - 1);
    var (carried, n) := (Carried(cfg, pdu, number), |Share(pdu, k)|);
    var joined := before + carried;
    assert joined[..Offset(pdu, k)] == before + carried[..n];
    assert pdu[..Offset(pdu, k)] == pdu[..|before|] + Share(pdu, k);
    assert Share(pdu, k) <= carried <==> carried[..n] == Share(pdu, k);
    assert (before + carried[..n])[..|before|] == before && (before + carried[..n])[|before|..] == carried[..n];
    assert (pdu[..|before|] + Share(pdu, k))[..|before|] == pdu[..|before|];
    assert (pdu[..|before|] + Share(pdu, k))[|before|..] == Share(pdu, k);
  }

  /**
    The result, exactly, for every stream that is accepted: the first frame's bytes and those of the copies used, cut
    at the declared length. With padding, or if every copy fills its place without it, the call uses one copy for
    each place, and the result is the PDU exactly if each of them carries the share of its place.
   */
  lemma AcceptedStreamExactly(cfgA: IsoTpConfig, cfgB: IsoTpConfig, pdu: seq<byte>, p: seq<nat>, link: Link)
    requires Compatible(cfgA, cfgB, pdu) && |pdu| > 7 && Numbers(pdu, p)
    requires link.rx == Inbound(Stream(cfgA, pdu, p))
    ensures
      var (end, rest) := Run(cfgB, StartReceive, link);
      end.Delivered? ==>
        var used := |p| - |rest.rx|;
        && 0 < used <= |p|
        && |pdu| <= |pdu[..6] + Joined(cfgA, pdu, p[..used])|
        && end.pdu == (pdu[..6] + Joined(cfgA, pdu, p[..used]))[..|pdu|]
        && (cfgA.txPadding.Some? || FillsPlaces(cfgA, pdu, p) ==>
              && used == ConsecutiveCount(|pdu|)
              && (end.pdu == pdu <==> forall i :: 0 <= i < used ==> CarriesShare(cfgA, pdu, p[i], i + 1)))
  {
    hide Run, ConsecutiveCount, Carried, CarriesShare, FillsPlaces, Joined, Stream;
    var (end, rest) := Run(cfgB, StartReceive, link);
    StreamJoins(cfgA, cfgB, pdu, p, link);
    if cfgA.txPadding.Some? {
      PaddingFillsPlaces(cfgA, pdu, p);
    }
    if end.Delivered? && FillsPlaces(cfgA, pdu, p) {
      FilledExactly(cfgA, pdu, p, |p| - |rest.rx|, end.pdu);
    }
  }

  lemma StreamJoins(cfgA: IsoTpConfig, cfgB: IsoTpConfig, pdu: seq<byte>, p: seq<nat>, link: Link)
    requires Compatible(cfgA, cfgB, pdu) && |pdu| > 7 && Numbers(pdu, p)
    requires link.rx == Inbound(Stream(cfgA, pdu, p))
    ensures
      var (end, rest) := Run(cfgB, StartReceive, link);
      end.Delivered? ==>
        IsJoined(cfgA, pdu, p, |p| - |rest.rx|, end.pdu) && ConsecutiveCount(|pdu|) <= |p| - |rest.rx|
  {
    hide Run, ConsecutiveCount, Carried, IsJoined, Copies, Inbound, Stream, Compatible, After;
    OpensStream(cfgA, cfgB, pdu, p, link);
    var e := SendingFlowControl(|pdu|, pdu[..Offset(pdu, 0)], 1);
    assert p[0..] == p && p[..0] == [] && pdu[..6] + [] == pdu[..6];
    var link0 := link.(rx := Inbound(Copies(cfgA, pdu, p)));
    AcceptedJoins(cfgA, cfgB, pdu, p, e, 0, link0);
    AcceptanceImpliesCongruence(cfgA, cfgB, pdu, p, e, 0, link0);
  }

  lemma FilledExactly(cfg: IsoTpConfig, pdu: seq<byte>, p: seq<nat>, used: nat, result: seq<byte>)
    requires |pdu| > 7 && FillsPlaces(cfg, pdu, p) && ConsecutiveCount(|pdu|) <= used <= |p| && used > 0
    requires IsJoined(cfg, pdu, p, used, result)
    ensures used == ConsecutiveCount(|pdu|)
    ensures result == pdu <==>
            forall i :: 0 <= i < used ==> CarriesShare(cfg, pdu, p[i], i + 1)
  {
    hide Carried, CarriesShare, FillsPlaces, Joined;
    var m := ConsecutiveCount(|pdu|);
    PlacesExactly(cfg, pdu, p, m);
    assert Offset(pdu, m) == |pdu| && pdu[..|pdu|] == pdu;
    FillsAreNumbers(cfg, pdu, p);
    if used > m {
      JoinedGrows(cfg, pdu, p, m, used - 1);
    }
  }

  lemma FillsAreNumbers(cfg: IsoTpConfig, pdu: seq<byte>, p: seq<nat>)
    requires FillsPlaces(cfg, pdu, p)
    ensures Numbers(pdu, p)
  {
  }

  lemma {:induction false} JoinedGrows(cfg: IsoTpConfig, pdu: seq<byte>, p: seq<nat>, i: nat, j: nat)
    requires i <= j <= |p| && forall k :: 0 <= k < |p| ==> p[k] >= 1
    ensures |Joined(cfg, pdu, p[..i])| <= |Joined(cfg, pdu, p[..j])|
  {
    hide Carried;
    if i < j {
      JoinedGrows(cfg, pdu, p, i, j - 1);
      JoinedNext(cfg, pdu, p, j - 1);
    }
  }
}
