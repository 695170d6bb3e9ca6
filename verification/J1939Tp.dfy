/** SAE J1939-21 transport-protocol reassembly (`TpReassembler` in `protocol/j1939.rs`). */
module J1939Tp {
  import opened Basics

  const TP_PACKET_DATA_LEN := 7
  const TP_MAX_MESSAGE_SIZE := 1785

  datatype TpControlMessage =
    | BroadcastAnnounce(messageSize: u16, packets: byte, pgn: u32)
    | RequestToSend(messageSize: u16, packets: byte, maxPacketsPerCts: byte, pgn: u32)
    | OtherControl(control: byte)

  datatype TpDataTransfer = TpDataTransfer(sequence: byte, data: seq<byte>) {
    /** The data field is an array of seven bytes. */
    predicate Wf() {
      |data| == TP_PACKET_DATA_LEN
    }
  }

  datatype J1939Message = J1939Message(source: byte, destination: Option<byte>, pgn: u32, payload: seq<byte>)

  /** `TpDataTransfer::parse`. */
  function ParsePacket(payload: seq<byte>): (r: Result<TpDataTransfer>)
    ensures r.Ok? ==> r.value.Wf()
  {
    if |payload| < 8 then Err(ParseError) else Ok(TpDataTransfer(payload[0], payload[1..8]))
  }

  /** `TpDataTransfer::to_payload`. */
  function PacketPayload(packet: TpDataTransfer): seq<byte> {
    [packet.sequence] + packet.data
  }

  lemma PacketRoundTrip(packet: TpDataTransfer)
    requires packet.Wf()
    ensures ParsePacket(PacketPayload(packet)) == Ok(packet)
  {
    assert PacketPayload(packet)[1..8] == packet.data;
  }

  /** `validate_tp_size`. */
  predicate ValidSize(messageSize: nat, packets: byte) {
    0 < messageSize <= TP_MAX_MESSAGE_SIZE && DivCeil(messageSize, TP_PACKET_DATA_LEN) == packets
  }

  /** The state of one reassembly. */
  datatype Transfer = Transfer(
    source: byte,
    destination: Option<byte>,
    pgn: u32,
    expectedSize: nat,
    expectedPackets: byte,
    nextSequence: byte,
    payload: seq<byte>)

  /** `TpReassembler::start`. */
  function Start(source: byte, destination: Option<byte>, control: TpControlMessage): Result<Transfer> {
    if control.OtherControl? || !ValidSize(control.messageSize, control.packets) then Err(ParseError)
    else Ok(Transfer(source, destination, control.pgn, control.messageSize, control.packets, 1, []))
  }

  /** `TpReassembler::accept_dt`: the outcome and the state it leaves. */
  function Accept(t: Transfer, packet: TpDataTransfer): (Result<Option<J1939Message>>, Transfer)
    requires packet.Wf()
  {
    if packet.sequence != t.nextSequence || packet.sequence > t.expectedPackets then (Err(ParseError), t) else
      var remaining := if |t.payload| <= t.expectedSize then t.expectedSize - |t.payload| else 0;
      var payload := t.payload + packet.data[..Min(remaining, TP_PACKET_DATA_LEN)];
      var next := SaturatingInc(t.nextSequence);
      if |payload| == t.expectedSize then
        (Ok(Some(J1939Message(t.source, t.destination, t.pgn, payload))), t.(nextSequence := next, payload := []))
      else
        (Ok(None), t.(nextSequence := next, payload := payload))
  }

  class TpReassembler {
    const source: byte
    const destination: Option<byte>
    const pgn: u32
    const expectedSize: nat
    const expectedPackets: byte
    var nextSequence: byte
    var payload: seq<byte>

    function State(): Transfer
      reads this
    {
      Transfer(source, destination, pgn, expectedSize, expectedPackets, nextSequence, payload)
    }

    constructor Start(t: Transfer)
      ensures State() == t
    {
      source, destination, pgn := t.source, t.destination, t.pgn;
      expectedSize, expectedPackets := t.expectedSize, t.expectedPackets;
      nextSequence, payload := t.nextSequence, t.payload;
    }

    method AcceptDt(packet: TpDataTransfer) returns (r: Result<Option<J1939Message>>)
      requires packet.Wf()
      modifies this
      ensures (r, State()) == Accept(old(State()), packet)
      ensures r.Err? ==> State() == old(State())
    {
      if packet.sequence != nextSequence {
        return Err(ParseError);
      }
      if packet.sequence > expectedPackets {
        return Err(ParseError);
      }
      var remaining := if |payload| <= expectedSize then expectedSize - |payload| else 0;
      var take := Min(remaining, TP_PACKET_DATA_LEN);
      payload := payload + packet.data[..take];
      nextSequence := SaturatingInc(nextSequence);

      if |payload| == expectedSize {
        var message := J1939Message(source, destination, pgn, payload);
        payload := [];
        return Ok(Some(message));
      }
      return Ok(None);
    }
  }

  // ---- Whole transfers ----

  ghost predicate AllWf(packets: seq<TpDataTransfer>) {
    forall i :: 0 <= i < |packets| ==> packets[i].Wf()
  }

  /** The state after a run of packets, whatever each was answered. */
  function After(t: Transfer, packets: seq<TpDataTransfer>): Transfer
    requires AllWf(packets)
  {
    if packets == [] then t
    else Accept(After(t, packets[..|packets| - 1]), packets[|packets| - 1]).1
  }

  /** The answer to the last packet of a run. */
  function Answer(t: Transfer, packets: seq<TpDataTransfer>): Result<Option<J1939Message>>
    requires AllWf(packets) && packets != []
  {
    Accept(After(t, packets[..|packets| - 1]), packets[|packets| - 1]).0
  }

  /** No packet of the run completed a message. */
  ghost predicate Incomplete(t: Transfer, packets: seq<TpDataTransfer>)
    requires AllWf(packets)
  {
    forall k :: 0 < k <= |packets| ==> Answer(t, packets[..k]).Err? || Answer(t, packets[..k]) == Ok(None)
  }

  /** The data of the packets of a run that were accepted, in order. */
  function AcceptedData(t: Transfer, packets: seq<TpDataTransfer>): seq<byte>
    requires AllWf(packets)
  {
    if packets == [] then [] else
      var last := packets[|packets| - 1];
      AcceptedData(t, packets[..|packets| - 1]) + if Answer(t, packets).Ok? then last.data else []
  }

  ghost predicate Fresh(t: Transfer) {
    ValidSize(t.expectedSize, t.expectedPackets) && t.nextSequence == 1 && t.payload == []
  }

  lemma StartIsFresh(source: byte, destination: Option<byte>, control: TpControlMessage)
    ensures var t := Start(source, destination, control);
            t.Ok? ==> Fresh(t.value)
  {
  }

  /** The parts of a transfer that packets do not change. */
  ghost predicate SameTransfer(t: Transfer, u: Transfer) {
    u == t.(nextSequence := u.nextSequence, payload := u.payload)
  }

  lemma {:induction false} PrefixIncomplete(t: Transfer, packets: seq<TpDataTransfer>)
    requires AllWf(packets) && packets != [] && Incomplete(t, packets)
    ensures Incomplete(t, packets[..|packets| - 1])
    ensures Answer(t, packets).Err? || Answer(t, packets) == Ok(None)
  {
    var before := packets[..|packets| - 1];
    forall k | 0 < k <= |before| ensures Answer(t, before[..k]).Err? || Answer(t, before[..k]) == Ok(None) {
      assert before[..k] == packets[..k];
    }
    assert packets[..|packets|] == packets;
  }

  lemma PacketCount(size: nat, packets: byte)
    requires ValidSize(size, packets)
    ensures 7 * (packets - 1) < size <= 7 * packets && packets >= 1
  {
    DivCeilUnique(size, 7, packets);
  }

  /**
    In every state reachable before completion, by any packets at all, the buffer is the
    first min(7 * (next_sequence - 1), size) bytes of the data accepted so far, and is short of the message.
   */
  lemma {:induction false} BufferInvariant(t: Transfer, packets: seq<TpDataTransfer>)
    requires Fresh(t) && AllWf(packets) && Incomplete(t, packets)
    ensures
      var u := After(t, packets);
      var data := AcceptedData(t, packets);
      && SameTransfer(t, u) && 1 <= u.nextSequence <= t.expectedPackets
      && |data| == 7 * (u.nextSequence - 1) < t.expectedSize
      && u.payload == data[..Min(7 * (u.nextSequence - 1), t.expectedSize)]
  {
    hide Incomplete, Accept;
    PacketCount(t.expectedSize, t.expectedPackets);
    if packets != [] {
      hide ValidSize;
      var before := packets[..|packets| - 1];
      PrefixIncomplete(t, packets);
      BufferInvariant(t, before);
      var data := AcceptedData(t, before);
      assert Buffered(t, After(t, before), data);
      OnePacket(t, After(t, before), data, packets[|packets| - 1]);
    }
  }

  /** Transfer `t` under way as `u`: its buffer is all the data accepted so far, and short of the message. */
  ghost predicate Buffered(t: Transfer, u: Transfer, data: seq<byte>) {
    && 7 * (t.expectedPackets - 1) < t.expectedSize <= 7 * t.expectedPackets
    && SameTransfer(t, u) && 1 <= u.nextSequence <= t.expectedPackets
    && |data| == 7 * (u.nextSequence - 1) < t.expectedSize && u.payload == data
  }

  /** What one packet does to a transfer under way. */
  lemma OnePacket(t: Transfer, u: Transfer, data: seq<byte>, packet: TpDataTransfer)
    requires Buffered(t, u, data) && packet.Wf()
    ensures
      var (answer, next) := Accept(u, packet);
      if packet.sequence != u.nextSequence then answer.Err? && next == u
      else if packet.sequence < t.expectedPackets then
        answer == Ok(None) && Buffered(t, next, data + packet.data) && next.nextSequence == u.nextSequence + 1
      else
        && t.expectedSize <= |data + packet.data|
        && answer == Ok(Some(J1939Message(t.source, t.destination, t.pgn, (data + packet.data)[..t.expectedSize])))
        && next == t.(nextSequence := SaturatingInc(t.expectedPackets), payload := [])
  {
    if packet.sequence == u.nextSequence {
      var taken := Min(t.expectedSize - |data|, 7);
      assert (data + packet.data)[..|data| + taken] == data + packet.data[..taken];
      if packet.sequence < t.expectedPackets {
        assert taken == 7 && packet.data[..7] == packet.data;
      }
    }
  }

  /**
    Completion happens exactly when packet number `expected_packets` is accepted, and the
    message is then the first `size` bytes of the accepted data.
   */
  lemma CompletesAtLastPacket(t: Transfer, packets: seq<TpDataTransfer>)
    requires Fresh(t) && AllWf(packets) && packets != [] && Incomplete(t, packets[..|packets| - 1])
    ensures
      var last := packets[|packets| - 1];
      var u := After(t, packets[..|packets| - 1]);
      var answer := Answer(t, packets);
      && (answer.Ok? <==> last.sequence == u.nextSequence)
      && (answer.Ok? && answer.value.Some? <==> last.sequence == u.nextSequence == t.expectedPackets)
      && (answer.Ok? && answer.value.Some? ==>
            && t.expectedSize <= |AcceptedData(t, packets)|
            && answer.value.value ==
               J1939Message(t.source, t.destination, t.pgn, AcceptedData(t, packets)[..t.expectedSize])
            && After(t, packets) == t.(nextSequence := SaturatingInc(t.expectedPackets), payload := []))
  {
    hide Incomplete, ValidSize, Accept;
    var before := packets[..|packets| - 1];
    PacketCount(t.expectedSize, t.expectedPackets);
    BufferInvariant(t, before);
    var data := AcceptedData(t, before);
    assert Buffered(t, After(t, before), data);
    OnePacket(t, After(t, before), data, packets[|packets| - 1]);
  }

  // ---- The sender's packets ----

  /** Packet `k` (from 1) of a message, its last packet filled up with 0xFF. */
  function Packet(message: seq<byte>, k: nat): (p: TpDataTransfer)
    requires 1 <= k <= 255 && 7 * (k - 1) < |message|
    ensures p.Wf()
  {
    var chunk := message[7 * (k - 1)..Min(7 * k, |message|)];
    TpDataTransfer(k, chunk + seq(7 - |chunk|, _ => 0xFF))
  }

  function Packets(message: seq<byte>, n: nat): (s: seq<TpDataTransfer>)
    requires n <= 255 && 7 * (n - 1) < |message|
    ensures |s| == n && AllWf(s)
  {
    seq(n, i requires 0 <= i < n => Packet(message, i + 1))
  }

  lemma PacketCarries(message: seq<byte>, n: nat)
    requires 1 <= n <= 255 && 7 * (n - 1) < |message|
    ensures
      var packet := Packet(message, n);
      && packet.sequence == n
      && packet.data[..Min(|message| - 7 * (n - 1), 7)] == message[7 * (n - 1)..Min(7 * n, |message|)]
  {
  }

  lemma {:induction false} PacketsRebuild(t: Transfer, message: seq<byte>, n: nat)
    requires Fresh(t) && |message| == t.expectedSize && n <= t.expectedPackets && 7 * (n - 1) < |message|
    ensures n < t.expectedPackets ==>
      && After(t, Packets(message, n)) == t.(nextSequence := n + 1, payload := message[..Min(7 * n, |message|)])
      && (n > 0 ==> Answer(t, Packets(message, n)) == Ok(None))
    ensures n == t.expectedPackets ==>
      && After(t, Packets(message, n)) == t.(nextSequence := SaturatingInc(n), payload := [])
      && Answer(t, Packets(message, n)) == Ok(Some(J1939Message(t.source, t.destination, t.pgn, message)))
  {
    hide ValidSize, Packet, Packets, Accept;
    PacketCount(t.expectedSize, t.expectedPackets);
    if n == 0 {
      assert message[..0] == [];
    } else {
      PacketsGrow(message, n);
      PacketsRebuild(t, message, n - 1);
      OneOwnPacket(t, message, n);
    }
  }

  lemma PacketsGrow(message: seq<byte>, n: nat)
    requires 1 <= n <= 255 && 7 * (n - 1) < |message|
    ensures Packets(message, n)[..n - 1] == Packets(message, n - 1)
    ensures Packets(message, n)[n - 1] == Packet(message, n)
  {
  }

  /** The step of the rebuilding: the sender's packet `n` onto the first n - 1. */
  lemma OneOwnPacket(t: Transfer, message: seq<byte>, n: nat)
    requires 7 * (t.expectedPackets - 1) < t.expectedSize <= 7 * t.expectedPackets
    requires |message| == t.expectedSize && 1 <= n <= t.expectedPackets
    ensures
      var (answer, next) := Accept(t.(nextSequence := n, payload := message[..7 * (n - 1)]), Packet(message, n));
      if n < t.expectedPackets then
        answer == Ok(None) && next == t.(nextSequence := n + 1, payload := message[..Min(7 * n, |message|)])
      else
        && answer == Ok(Some(J1939Message(t.source, t.destination, t.pgn, message)))
        && next == t.(nextSequence := SaturatingInc(n), payload := [])
  {
    hide Packet;
    var taken := Min(|message| - 7 * (n - 1), 7);
    PacketCarries(message, n);
    assert message[..7 * (n - 1)] + message[7 * (n - 1)..Min(7 * n, |message|)] == message[..Min(7 * n, |message|)];
    assert message[..|message|] == message;
  }

  /**
    For every message of 1 to 1785 bytes, its numbered 7-byte packets rebuild it
    exactly at the last packet and never earlier.
   */
  lemma MessageReassembles(source: byte, destination: Option<byte>, pgn: u32, message: seq<byte>, n: nat)
    requires 1 <= |message| <= TP_MAX_MESSAGE_SIZE
    requires 1 <= n <= DivCeil(|message|, 7)
    ensures
      var packets := DivCeil(|message|, 7);
      && packets <= 255 && 7 * (n - 1) < |message|
      && var t := Start(source, destination, BroadcastAnnounce(|message|, packets, pgn));
      && t.Ok?
      && Answer(t.value, Packets(message, n)) ==
         Ok(if n == packets then Some(J1939Message(source, destination, pgn, message)) else None)
  {
    DivCeilUnique(|message|, 7, DivCeil(|message|, 7));
    var t := Start(source, destination, BroadcastAnnounce(|message|, DivCeil(|message|, 7), pgn)).value;
    PacketsRebuild(t, message, n);
  }

  /** The state a completed transfer is left in. */
  ghost predicate Completed(t: Transfer) {
    && ValidSize(t.expectedSize, t.expectedPackets)
    && t.nextSequence == SaturatingInc(t.expectedPackets) && t.payload == []
  }

  /**
    After completion every later packet is rejected exactly when the transfer took fewer than
    255 packets: at 255 the saturating sequence counter stays on the last packet's number, and a
    repetition of that packet is accepted into an empty buffer.
   */
  lemma LatePacketsRejected(t: Transfer)
    requires Completed(t)
    ensures (forall packet: TpDataTransfer :: packet.Wf() ==> Accept(t, packet) == (Err(ParseError), t))
            <==> t.expectedPackets < 255
  {
    if t.expectedPackets == 255 {
      PacketCount(t.expectedSize, t.expectedPackets);
      var repeated := TpDataTransfer(255, seq(7, _ => 0));
      assert repeated.Wf() && Accept(t, repeated).0.Ok?;
    }
  }

  /** So a short transfer stays completed for ever. */
  lemma {:induction false} CompletedForEver(t: Transfer, packets: seq<TpDataTransfer>)
    requires Completed(t) && t.expectedPackets < 255 && AllWf(packets)
    ensures After(t, packets) == t && AcceptedData(t, packets) == []
  {
    LatePacketsRejected(t);
    if packets != [] {
      CompletedForEver(t, packets[..|packets| - 1]);
    }
  }

  /**
    The same over whole transfers: the run that completes a message leaves the transfer completed, and every later
    packet is then rejected, for ever, exactly when it took fewer than 255 packets.
   */
  lemma RunEndsCompleted(t: Transfer, packets: seq<TpDataTransfer>)
    requires Fresh(t) && AllWf(packets) && packets != [] && Incomplete(t, packets[..|packets| - 1])
    requires Answer(t, packets).Ok? && Answer(t, packets).value.Some?
    ensures Completed(After(t, packets))
    ensures (forall late: seq<TpDataTransfer> :: AllWf(late) ==> After(After(t, packets), late) == After(t, packets))
            <==> t.expectedPackets < 255
  {
    hide Incomplete, Answer, After, AcceptedData;
    CompletesAtLastPacket(t, packets);
    var end := After(t, packets);
    if t.expectedPackets < 255 {
      forall late: seq<TpDataTransfer> | AllWf(late) ensures After(end, late) == end {
        CompletedForEver(end, late);
      }
    } else {
      var repeated := TpDataTransfer(255, seq(7, _ => 0));
      AcceptedChanges(end, repeated);
      assert AllWf([repeated]) && After(end, [repeated]) != end;
    }
  }

  lemma AcceptedAgain(t: Transfer, packet: TpDataTransfer)
    requires Completed(t) && t.expectedPackets == 255 && packet.Wf() && packet.sequence == 255
    ensures Accept(t, packet) == (Ok(None), t.(payload := packet.data))
  {
    PacketCount(t.expectedSize, t.expectedPackets);
    assert [] + packet.data[..7] == packet.data;
  }

  lemma AcceptedChanges(t: Transfer, packet: TpDataTransfer)
    requires Completed(t) && t.expectedPackets == 255 && packet.Wf() && packet.sequence == 255
    ensures After(t, [packet]) == t.(payload := packet.data)
  {
    AcceptedAgain(t, packet);
    assert [packet][..0] == [] && After(t, []) == t;
  }

  /** The data of the packets of a run, whether accepted or not. */
  function DataOf(packets: seq<TpDataTransfer>): seq<byte> {
    if packets == [] then [] else DataOf(packets[..|packets| - 1]) + packets[|packets| - 1].data
  }

  /**
    The counter stays at 255, so after a transfer of 255 packets every further packet with that number is accepted. The
    255th of them completes a message that nobody sent, made of their data, and leaves the transfer as it was.
   */
  lemma {:induction false} LatePacketsMakeMessage(t: Transfer, packets: seq<TpDataTransfer>)
    requires Completed(t) && t.expectedPackets == 255 && AllWf(packets) && |packets| <= 255
    requires forall i :: 0 <= i < |packets| ==> packets[i].sequence == 255
    ensures |DataOf(packets)| == 7 * |packets|
    ensures |packets| < 255 ==>
      && After(t, packets) == t.(payload := DataOf(packets)) && (packets != [] ==> Answer(t, packets) == Ok(None))
    ensures |packets| == 255 ==>
      && After(t, packets) == t && t.expectedSize <= |DataOf(packets)|
      && Answer(t, packets) ==
         Ok(Some(J1939Message(t.source, t.destination, t.pgn, DataOf(packets)[..t.expectedSize])))
  {
    hide Accept, ValidSize;
    PacketCount(t.expectedSize, t.expectedPackets);
    if packets != [] {
      var (before, last) := (packets[..|packets| - 1], packets[|packets| - 1]);
      LatePacketsMakeMessage(t, before);
      LatePacket(t, DataOf(before), last);
    }
  }

  lemma LatePacket(t: Transfer, data: seq<byte>, packet: TpDataTransfer)
    requires 7 * 254 < t.expectedSize <= 7 * 255 && t.expectedPackets == 255 && t.nextSequence == 255 && t.payload == []
    requires packet.Wf() && packet.sequence == 255 && |data| % 7 == 0 && |data| <= 7 * 254
    ensures
      Accept(t.(payload := data), packet) ==
      if |data| < 7 * 254 then (Ok(None), t.(payload := data + packet.data))
      else (Ok(Some(J1939Message(t.source, t.destination, t.pgn, (data + packet.data)[..t.expectedSize]))), t)
  {
    var taken := Min(t.expectedSize - |data|, 7);
    assert |data| < 7 * 254 ==> |data| <= 7 * 253;
    assert (data + packet.data)[..|data| + taken] == data + packet.data[..taken];
    assert packet.data[..7] == packet.data;
  }

  lemma LongestRun(source: byte, destination: Option<byte>, pgn: u32, message: seq<byte>)
    requires |message| == TP_MAX_MESSAGE_SIZE
    ensures
      var (t, last) := (Start(source, destination, BroadcastAnnounce(1785, 255, pgn)), Packet(message, 255));
      && last.sequence == 255 && last.data == message[1778..]
      && t.Ok?
      && var end := After(t.value, Packets(message, 255));
      && Completed(end) && end.expectedSize == 1785 && end.expectedPackets == 255
      && end.source == source && end.destination == destination && end.pgn == pgn
      && Answer(t.value, Packets(message, 255)) == Ok(Some(J1939Message(source, destination, pgn, message)))
  {
    DivCeilUnique(1785, 7, 255);
    var t := Start(source, destination, BroadcastAnnounce(1785, 255, pgn)).value;
    assert Fresh(t);
    hide Start, Packet, Packets, After, Answer, ValidSize, DivCeil;
    PacketsRebuild(t, message, 255);
    PacketCarries(message, 255);
    var last := Packet(message, 255);
    assert last.data == last.data[..7] == message[1778..];
  }

  /** The longest message, run to its end, and then its last packet again: it is accepted, into an empty buffer. */
  lemma LongestMessageAcceptsRepetition(source: byte, destination: Option<byte>, pgn: u32, message: seq<byte>)
    requires |message| == TP_MAX_MESSAGE_SIZE
    ensures
      var t := Start(source, destination, BroadcastAnnounce(1785, 255, pgn));
      && t.Ok?
      && var end := After(t.value, Packets(message, 255));
      && Answer(t.value, Packets(message, 255)) == Ok(Some(J1939Message(source, destination, pgn, message)))
      && Accept(end, Packet(message, 255)) == (Ok(None), end.(payload := message[1778..]))
  {
    hide Start, Packet, Packets, After, Answer, Accept;
    LongestRun(source, destination, pgn, message);
    var t := Start(source, destination, BroadcastAnnounce(1785, 255, pgn)).value;
    AcceptedAgain(After(t, Packets(message, 255)), Packet(message, 255));
  }

  /** So 255 repetitions of that packet deliver its seven bytes 255 times as a second message. */
  lemma RepetitionsMakeMessage(source: byte, destination: Option<byte>, pgn: u32, message: seq<byte>)
    requires |message| == TP_MAX_MESSAGE_SIZE
    ensures
      var t := Start(source, destination, BroadcastAnnounce(1785, 255, pgn));
      && t.Ok?
      && var end := After(t.value, Packets(message, 255));
      && var repeated := seq(255, _ => Packet(message, 255));
      && AllWf(repeated)
      && After(end, repeated) == end
      && Answer(end, repeated) == Ok(Some(J1939Message(source, destination, pgn, Times(message[1778..], 255))))
  {
    hide Start, Packet, Packets, After, Answer, Accept;
    LongestRun(source, destination, pgn, message);
    var t := Start(source, destination, BroadcastAnnounce(1785, 255, pgn)).value;
    var (end, last) := (After(t, Packets(message, 255)), Packet(message, 255));
    LatePacketsMakeMessage(end, seq(255, _ => last));
    DataOfRepetitions(last, 255);
    assert Times(message[1778..], 255)[..1785] == Times(message[1778..], 255);
  }

  function Times(data: seq<byte>, n: nat): (r: seq<byte>)
    ensures |r| == n * |data|
  {
    if n == 0 then [] else
      assert n * |data| == (n - 1) * |data| + |data|;
      Times(data, n - 1) + data
  }

  lemma {:induction false} DataOfRepetitions(packet: TpDataTransfer, n: nat)
    ensures DataOf(seq(n, _ => packet)) == Times(packet.data, n)
  {
    if n > 0 {
      assert seq(n, _ => packet)[..n - 1] == seq(n - 1, _ => packet);
      DataOfRepetitions(packet, n - 1);
    }
  }
}
