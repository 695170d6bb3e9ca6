/** SAE J1939-73 DM1 and DM2: lamp status and a list of trouble codes (`protocol/j1939.rs`). */
module J1939Dm1 {
  import opened Basics
  import opened J1939Dm

  // ---- Lamps ----

  datatype LampStatus = Off | On | ReservedStatus | StatusNotAvailable

  datatype LampFlash = SlowFlash | FastFlash | ReservedFlash | FlashNotAvailable

  function StatusFromBits(bits: nat): LampStatus {
    match bits % 4
    case 0 => Off
    case 1 => On
    case 2 => ReservedStatus
    case _ => StatusNotAvailable
  }

  function StatusBits(s: LampStatus): (b: byte)
    ensures b < 4
  {
    match s
    case Off => 0
    case On => 1
    case ReservedStatus => 2
    case StatusNotAvailable => 3
  }

  function FlashFromBits(bits: nat): LampFlash {
    match bits % 4
    case 0 => SlowFlash
    case 1 => FastFlash
    case 2 => ReservedFlash
    case _ => FlashNotAvailable
  }

  function FlashBits(f: LampFlash): (b: byte)
    ensures b < 4
  {
    match f
    case SlowFlash => 0
    case FastFlash => 1
    case ReservedFlash => 2
    case FlashNotAvailable => 3
  }

  /** The two raw bytes and the four legislated lamps decoded from them. */
  datatype DmLampStatus = DmLampStatus(
    rawStatus: byte,
    rawFlash: byte,
    protect: LampStatus,
    amberWarning: LampStatus,
    redStop: LampStatus,
    malfunctionIndicator: LampStatus,
    protectFlash: LampFlash,
    amberWarningFlash: LampFlash,
    redStopFlash: LampFlash,
    malfunctionIndicatorFlash: LampFlash)

  /** `DmLampStatus::parse`. */
  function ParseLamps(status: byte, flash: byte): DmLampStatus {
    DmLampStatus(
      status, flash,
      StatusFromBits(status), StatusFromBits(status / 4), StatusFromBits(status / 16), StatusFromBits(status / 64),
      FlashFromBits(flash), FlashFromBits(flash / 4), FlashFromBits(flash / 16), FlashFromBits(flash / 64))
  }

  /** `DmLampStatus::to_bytes`: the decoded fields, not the raw bytes. */
  function LampBytes(lamps: DmLampStatus): (b: seq<byte>)
    ensures |b| == 2
  {
    [StatusBits(lamps.protect) + 4 * StatusBits(lamps.amberWarning)
     + 16 * StatusBits(lamps.redStop) + 64 * StatusBits(lamps.malfunctionIndicator),
     FlashBits(lamps.protectFlash) + 4 * FlashBits(lamps.amberWarningFlash)
     + 16 * FlashBits(lamps.redStopFlash) + 64 * FlashBits(lamps.malfunctionIndicatorFlash)]
  }

  /** The raw bytes agree with the decoded fields. */
  predicate LampsAgree(lamps: DmLampStatus) {
    LampBytes(lamps) == [lamps.rawStatus, lamps.rawFlash]
  }

  lemma StatusByteRoundTrip(a: LampStatus, b: LampStatus, c: LampStatus, d: LampStatus)
    ensures
      var x := StatusBits(a) + 4 * StatusBits(b) + 16 * StatusBits(c) + 64 * StatusBits(d);
      && StatusFromBits(x) == a && StatusFromBits(x / 4) == b
      && StatusFromBits(x / 16) == c && StatusFromBits(x / 64) == d
  {
    hide StatusBits, StatusFromBits;
    TwoBitFields(StatusBits(a), StatusBits(b), StatusBits(c), StatusBits(d));
    StatusInverts(StatusBits(a) + 4 * StatusBits(b) + 16 * StatusBits(c) + 64 * StatusBits(d), a, b, c, d);
  }

  lemma StatusInverts(x: nat, a: LampStatus, b: LampStatus, c: LampStatus, d: LampStatus)
    requires x % 4 == StatusBits(a) && x / 4 % 4 == StatusBits(b) && x / 16 % 4 == StatusBits(c)
    requires x / 64 % 4 == StatusBits(d)
    ensures StatusFromBits(x) == a && StatusFromBits(x / 4) == b
    ensures StatusFromBits(x / 16) == c && StatusFromBits(x / 64) == d
  {
  }

  lemma FlashByteRoundTrip(a: LampFlash, b: LampFlash, c: LampFlash, d: LampFlash)
    ensures
      var x := FlashBits(a) + 4 * FlashBits(b) + 16 * FlashBits(c) + 64 * FlashBits(d);
      && FlashFromBits(x) == a && FlashFromBits(x / 4) == b && FlashFromBits(x / 16) == c && FlashFromBits(x / 64) == d
  {
    hide FlashBits, FlashFromBits;
    TwoBitFields(FlashBits(a), FlashBits(b), FlashBits(c), FlashBits(d));
    FlashInverts(FlashBits(a) + 4 * FlashBits(b) + 16 * FlashBits(c) + 64 * FlashBits(d), a, b, c, d);
  }

  lemma FlashInverts(x: nat, a: LampFlash, b: LampFlash, c: LampFlash, d: LampFlash)
    requires x % 4 == FlashBits(a) && x / 4 % 4 == FlashBits(b) && x / 16 % 4 == FlashBits(c)
    requires x / 64 % 4 == FlashBits(d)
    ensures FlashFromBits(x) == a && FlashFromBits(x / 4) == b
    ensures FlashFromBits(x / 16) == c && FlashFromBits(x / 64) == d
  {
  }

  lemma TwoBitFields(a: nat, b: nat, c: nat, d: nat)
    requires a < 4 && b < 4 && c < 4 && d < 4
    ensures
      var x := a + 4 * b + 16 * c + 64 * d;
      x % 4 == a && x / 4 % 4 == b && x / 16 % 4 == c && x / 64 % 4 == d
  {
    var x := a + 4 * b + 16 * c + 64 * d;
    assert x / 4 == b + 4 * c + 16 * d && x / 16 == c + 4 * d && x / 64 == d;
  }

  lemma QuarterBytes(x: byte)
    ensures x == x % 4 + 4 * (x / 4 % 4) + 16 * (x / 16 % 4) + 64 * (x / 64 % 4)
  {
    assert x / 16 == x / 4 / 4 && x / 64 == x / 16 / 4 && x / 64 < 4;
  }

  lemma BitsInvert(x: nat)
    ensures StatusBits(StatusFromBits(x)) == x % 4 && FlashBits(FlashFromBits(x)) == x % 4
  {
  }

  lemma QuartersRejoin(x: byte)
    ensures StatusBits(StatusFromBits(x)) + 4 * StatusBits(StatusFromBits(x / 4))
            + 16 * StatusBits(StatusFromBits(x / 16)) + 64 * StatusBits(StatusFromBits(x / 64)) == x
    ensures FlashBits(FlashFromBits(x)) + 4 * FlashBits(FlashFromBits(x / 4))
            + 16 * FlashBits(FlashFromBits(x / 16)) + 64 * FlashBits(FlashFromBits(x / 64)) == x
  {
    hide StatusBits, StatusFromBits, FlashBits, FlashFromBits;
    QuarterBytes(x);
    BitsInvert(x);
    BitsInvert(x / 4);
    BitsInvert(x / 16);
    BitsInvert(x / 64);
  }

  /** Decoding the raw bytes always yields lamps that agree with them. */
  lemma ParsedLampsAgree(status: byte, flash: byte)
    ensures LampBytes(ParseLamps(status, flash)) == [status, flash]
  {
    hide StatusBits, StatusFromBits, FlashBits, FlashFromBits;
    QuartersRejoin(status);
    QuartersRejoin(flash);
  }

  /** Lamps parse back from their wire form exactly when their raw bytes agree with it. */
  lemma LampRoundTrip(lamps: DmLampStatus)
    ensures LampsAgree(lamps) <==> ParseLamps(LampBytes(lamps)[0], LampBytes(lamps)[1]) == lamps
  {
    hide StatusBits, StatusFromBits, FlashBits, FlashFromBits;
    StatusByteRoundTrip(lamps.protect, lamps.amberWarning, lamps.redStop, lamps.malfunctionIndicator);
    FlashByteRoundTrip(
      lamps.protectFlash, lamps.amberWarningFlash, lamps.redStopFlash, lamps.malfunctionIndicatorFlash);
  }

  // ---- Messages ----

  datatype DmDtcMessage = DmDtcMessage(lamps: DmLampStatus, dtcs: seq<J1939Dtc>)

  function PrintDtcs(dtcs: seq<J1939Dtc>): (r: Result<seq<byte>>)
    ensures r.Ok? ==> |r.value| == 4 * |dtcs|
    ensures r.Err? ==> r.error == ParseError
  {
    if dtcs == [] then Ok([]) else
      var front := PrintDtcs(dtcs[..|dtcs| - 1]);
      if front.Err? then front else
        var last := DtcToBytes(dtcs[|dtcs| - 1]);
        if last.Err? then last else Ok(front.value + last.value)
  }

  /** `DmDtcMessage::to_payload`. */
  function PrintMessage(message: DmDtcMessage): Result<seq<byte>> {
    var dtcs := PrintDtcs(message.dtcs);
    if dtcs.Err? then dtcs else Ok(LampBytes(message.lamps) + dtcs.value)
  }

  /** The trouble codes in whole groups of four bytes, padding groups skipped. */
  function ParseGroups(data: seq<byte>): seq<J1939Dtc> {
    if |data| < 4 then [] else
      (if IsPadding(data[..4]) then [] else [DtcFromBytes(data[..4])]) + ParseGroups(data[4..])
  }

  function Remainder(data: seq<byte>): (r: seq<byte>)
    ensures |r| == |data| % 4
  {
    data[|data| - |data| % 4..]
  }

  /** `parse_dm_dtc_message`. */
  function ParseMessage(data: seq<byte>): Result<DmDtcMessage> {
    if |data| < 2 || !IsPadding(Remainder(data[2..])) then Err(ParseError)
    else Ok(DmDtcMessage(ParseLamps(data[0], data[1]), ParseGroups(data[2..])))
  }

  lemma GroupStep(dtcs: seq<J1939Dtc>, body: seq<byte>, offset: nat)
    requires offset + 4 <= |body|
    ensures
      var chunk := body[offset..offset + 4];
      dtcs + ParseGroups(body[offset..]) ==
      (if IsPadding(chunk) then dtcs else dtcs + [DtcFromBytes(chunk)]) + ParseGroups(body[offset + 4..])
  {
    hide IsPadding, DtcFromBytes;
    var (chunk, rest) := (body[offset..offset + 4], body[offset + 4..]);
    assert body[offset..][..4] == chunk && body[offset..][4..] == rest;
    assert dtcs + ([DtcFromBytes(chunk)] + ParseGroups(rest)) == dtcs + [DtcFromBytes(chunk)] + ParseGroups(rest);
    assert [] + ParseGroups(rest) == ParseGroups(rest);
  }

  method ParseDmDtcMessage(data: seq<byte>) returns (r: Result<DmDtcMessage>)
    ensures r == ParseMessage(data)
  {
    hide ParseLamps, DtcFromBytes;
    if |data| < 2 {
      return Err(ParseError);
    }
    var body := data[2..];
    var remainder := body[|body| - |body| % 4..];
    if remainder != [] && !IsPadding(remainder) {
      return Err(ParseError);
    }
    var dtcs := [];
    var offset := 0;
    assert body[0..] == body;
    while offset + 4 <= |body|
      invariant 0 <= offset <= |body|
      invariant ParseGroups(body) == dtcs + ParseGroups(body[offset..])
    {
      var chunk := body[offset..offset + 4];
      hide IsPadding, ParseGroups;
      GroupStep(dtcs, body, offset);
      if !IsPadding(chunk) {
        dtcs := dtcs + [DtcFromBytes(chunk)];
      }
      offset := offset + 4;
    }
    assert dtcs + [] == dtcs;
    return Ok(DmDtcMessage(ParseLamps(data[0], data[1]), dtcs));
  }

  method DmDtcMessageToPayload(message: DmDtcMessage) returns (r: Result<seq<byte>>)
    ensures r == PrintMessage(message)
  {
    var payload := LampBytes(message.lamps);
    ghost var printed := [];
    var dtcs := message.dtcs;
    for i := 0 to |dtcs|
      invariant PrintDtcs(dtcs[..i]) == Ok(printed)
      invariant payload == LampBytes(message.lamps) + printed
    {
      assert dtcs[..i + 1][..i] == dtcs[..i];
      var dtc := DtcToBytes(dtcs[i]);
      if dtc.Err? {
        PrintDtcsFails(dtcs, i);
        return dtc;
      }
      payload := payload + dtc.value;
      printed := printed + dtc.value;
    }
    assert dtcs[..|dtcs|] == dtcs;
    return Ok(payload);
  }

  lemma {:induction false} PrintDtcsFails(dtcs: seq<J1939Dtc>, i: nat)
    requires i < |dtcs| && DtcToBytes(dtcs[i]).Err?
    ensures PrintDtcs(dtcs) == Err(ParseError)
    decreases |dtcs|
  {
    var front := dtcs[..|dtcs| - 1];
    if i < |front| {
      PrintDtcsFails(front, i);
    } else {
      assert dtcs[i] == dtcs[|dtcs| - 1];
    }
  }

  /** The wire form of a code is one of the two padding groups. */
  predicate PrintsAsPadding(dtc: J1939Dtc) {
    DtcToBytes(dtc).Ok? && IsPadding(DtcToBytes(dtc).value)
  }

  function DropPadding(dtcs: seq<J1939Dtc>): (kept: seq<J1939Dtc>)
    ensures |kept| <= |dtcs|
  {
    if dtcs == [] then [] else
      (if PrintsAsPadding(dtcs[0]) then [] else [dtcs[0]]) + DropPadding(dtcs[1..])
  }

  lemma {:induction false} DropPaddingKeepsAll(dtcs: seq<J1939Dtc>)
    ensures DropPadding(dtcs) == dtcs <==> forall i :: 0 <= i < |dtcs| ==> !PrintsAsPadding(dtcs[i])
  {
    if dtcs != [] {
      DropPaddingKeepsAll(dtcs[1..]);
      assert dtcs == [dtcs[0]] + dtcs[1..];
      if DropPadding(dtcs) == dtcs {
        assert DropPadding(dtcs)[1..] == DropPadding(dtcs[1..]);
        assert forall i :: 1 <= i < |dtcs| ==> dtcs[i] == dtcs[1..][i - 1];
      } else if DropPadding(dtcs[1..]) != dtcs[1..] {
        var i :| 0 <= i < |dtcs[1..]| && PrintsAsPadding(dtcs[1..][i]);
        assert PrintsAsPadding(dtcs[i + 1]);
      }
    }
  }

  lemma {:induction false} PrintDtcsFirst(first: J1939Dtc, rest: seq<J1939Dtc>)
    requires InRange(first) && PrintDtcs(rest).Ok?
    ensures PrintDtcs([first] + rest) == Ok(DtcToBytes(first).value + PrintDtcs(rest).value)
  {
    hide DtcToBytes;
    var dtcs := [first] + rest;
    var b := DtcToBytes(first).value;
    if rest == [] {
      assert dtcs[..0] == [] && [] + b == b + [];
    } else {
      var front := rest[..|rest| - 1];
      assert dtcs[..|dtcs| - 1] == [first] + front;
      PrintDtcsFirst(first, front);
      var (c, d) := (PrintDtcs(front).value, DtcToBytes(rest[|rest| - 1]).value);
      assert b + c + d == b + (c + d);
    }
  }

  lemma {:induction false} PrintableDtcs(dtcs: seq<J1939Dtc>)
    ensures PrintDtcs(dtcs).Ok? <==> forall i :: 0 <= i < |dtcs| ==> InRange(dtcs[i])
  {
    if dtcs != [] {
      var k := |dtcs| - 1;
      PrintableDtcs(dtcs[..k]);
      if PrintDtcs(dtcs).Ok? {
        forall i | 0 <= i < |dtcs| ensures InRange(dtcs[i]) {
          assert i < k ==> dtcs[..k][i] == dtcs[i];
        }
      }
    }
  }

  lemma {:induction false} PaddingHasNoGroups(pad: seq<byte>)
    requires IsPadding(pad)
    ensures ParseGroups(pad) == [] && IsPadding(Remainder(pad))
  {
    if |pad| >= 4 {
      PaddingHasNoGroups(pad[4..]);
    }
  }

  /** Printed codes parse back in order, except those that print as padding. */
  lemma {:induction false} GroupsInvertPrint(dtcs: seq<J1939Dtc>, pad: seq<byte>)
    requires PrintDtcs(dtcs).Ok? && IsPadding(pad)
    ensures ParseGroups(PrintDtcs(dtcs).value + pad) == DropPadding(dtcs)
    decreases |dtcs|
  {
    hide DtcToBytes, DtcFromBytes, IsPadding;
    PrintableDtcs(dtcs);
    if dtcs == [] {
      assert [] + pad == pad;
      PaddingHasNoGroups(pad);
    } else {
      var (first, rest) := (dtcs[0], dtcs[1..]);
      assert dtcs == [first] + rest;
      PrintableDtcs(rest);
      PrintDtcsFirst(first, rest);
      GroupsInvertPrint(rest, pad);
      DtcRoundTrip(first);
      var data := PrintDtcs(dtcs).value + pad;
      assert data[..4] == DtcToBytes(first).value;
      assert data[4..] == PrintDtcs(rest).value + pad;
    }
  }

  /**
    DM1/DM2 print then parse. For in-range codes and uniform padding of any length, the
    message comes back exactly when its raw lamp bytes agree with the decoded lamps and no code's
    wire form is all zeros or all 0xFF.
   */
  lemma ParseInvertsPrintExactly(message: DmDtcMessage, pad: seq<byte>)
    requires PrintMessage(message).Ok? && IsPadding(pad)
    ensures
      ParseMessage(PrintMessage(message).value + pad) == Ok(message) <==>
      LampsAgree(message.lamps) && forall i :: 0 <= i < |message.dtcs| ==> !PrintsAsPadding(message.dtcs[i])
  {
    hide LampBytes, ParseLamps, IsPadding, DtcToBytes;
    var printed := PrintDtcs(message.dtcs).value;
    var data := PrintMessage(message).value + pad;
    assert data[2..] == printed + pad;
    assert Remainder(printed + pad) == Remainder(pad);
    PaddingHasNoGroups(pad);
    GroupsInvertPrint(message.dtcs, pad);
    DropPaddingKeepsAll(message.dtcs);
    LampRoundTrip(message.lamps);
    assert data[0] == LampBytes(message.lamps)[0] && data[1] == LampBytes(message.lamps)[1];
  }

  /** The bytes of the whole groups that are not padding. */
  function KeptGroups(data: seq<byte>): seq<byte> {
    if |data| < 4 then [] else
      (if IsPadding(data[..4]) then [] else data[..4]) + KeptGroups(data[4..])
  }

  lemma {:induction false} PrintInvertsGroups(data: seq<byte>)
    ensures PrintDtcs(ParseGroups(data)) == Ok(KeptGroups(data))
    decreases |data|
  {
    if |data| >= 4 {
      hide DtcToBytes, DtcFromBytes, IsPadding;
      PrintInvertsGroups(data[4..]);
      BytesRoundTrip(data[..4]);
      if !IsPadding(data[..4]) {
        assert InRange(DtcFromBytes(data[..4]));
        PrintDtcsFirst(DtcFromBytes(data[..4]), ParseGroups(data[4..]));
      } else {
        assert [] + ParseGroups(data[4..]) == ParseGroups(data[4..]);
        assert [] + KeptGroups(data[4..]) == KeptGroups(data[4..]);
      }
    }
  }

  /** DM1/DM2 parse then print: the input with its padding groups removed. */
  lemma PrintInvertsParse(data: seq<byte>)
    requires ParseMessage(data).Ok?
    ensures PrintMessage(ParseMessage(data).value) == Ok(data[..2] + KeptGroups(data[2..]))
  {
    hide LampBytes, ParseLamps, IsPadding;
    PrintInvertsGroups(data[2..]);
    ParsedLampsAgree(data[0], data[1]);
    assert data[..2] == [data[0], data[1]];
  }

  /** A message whose one code is all zeros: it prints, and the code does not come back. */
  lemma ZeroCodeIsLost(lamps: DmLampStatus)
    requires LampsAgree(lamps)
    ensures
      var message := DmDtcMessage(lamps, [J1939Dtc(0, 0, 0, 0)]);
      && PrintMessage(message) == Ok(LampBytes(lamps) + [0, 0, 0, 0])
      && ParseMessage(PrintMessage(message).value) == Ok(DmDtcMessage(lamps, []))
  {
    var code := J1939Dtc(0, 0, 0, 0);
    assert DtcToBytes(code) == Ok([0, 0, 0, 0]);
    PaddingCodeIsLost(lamps, code, [0, 0, 0, 0]);
  }

  /** A message whose one code is saturated: it prints as 0xFF throughout, and does not come back either. */
  lemma SaturatedCodeIsLost(lamps: DmLampStatus)
    requires LampsAgree(lamps)
    ensures
      var message := DmDtcMessage(lamps, [J1939Dtc(MAX_SPN, 31, 127, 1)]);
      && PrintMessage(message) == Ok(LampBytes(lamps) + [0xFF, 0xFF, 0xFF, 0xFF])
      && ParseMessage(PrintMessage(message).value) == Ok(DmDtcMessage(lamps, []))
  {
    var code := J1939Dtc(MAX_SPN, 31, 127, 1);
    var bytes: seq<byte> := [0xFF, 0xFF, 0xFF, 0xFF];
    assert DtcToBytes(code) == Ok(bytes);
    PaddingCodeIsLost(lamps, code, bytes);
  }

  lemma PaddingCodeIsLost(lamps: DmLampStatus, code: J1939Dtc, bytes: seq<byte>)
    requires LampsAgree(lamps) && DtcToBytes(code) == Ok(bytes) && IsPadding(bytes)
    ensures
      var message := DmDtcMessage(lamps, [code]);
      && PrintMessage(message) == Ok(LampBytes(lamps) + bytes)
      && ParseMessage(PrintMessage(message).value) == Ok(DmDtcMessage(lamps, []))
  {
    hide IsPadding, DtcToBytes;
    assert [code][..0] == [] && PrintDtcs([code][..0]) == Ok([]) && [] + bytes == bytes;
    assert PrintDtcs([code]) == Ok(bytes);
    LampRoundTrip(lamps);
    var body := (LampBytes(lamps) + bytes)[2..];
    assert body == bytes && body[..4] == bytes && body[4..] == [];
    assert ParseGroups(body) == [] + ParseGroups(body[4..]) == [];
    assert Remainder(body) == [] && IsPadding(Remainder(body)) by {
      NothingIsPadding();
    }
  }

  lemma NothingIsPadding()
    ensures IsPadding([])
  {
  }

  /**
    Lamps all off whose raw status byte says otherwise: printed from the fields, they come back with another raw
    byte.
   */
  lemma DisagreeingLampsChange(raw: byte)
    requires raw != 0
    ensures
      var lamps := ParseLamps(0, 0).(rawStatus := raw);
      && PrintMessage(DmDtcMessage(lamps, [])) == Ok([0, 0])
      && ParseMessage([0, 0]) == Ok(DmDtcMessage(ParseLamps(0, 0), []))
      && ParseLamps(0, 0) != lamps
  {
    hide LampBytes, ParseLamps, IsPadding, ParseGroups, Remainder;
    var none: seq<byte> := [0, 0];
    ParsedLampsAgree(0, 0);
    RawBytesAreKept(0, 0);
    RawStatusIsNotPrinted(ParseLamps(0, 0), raw);
    assert none[2..] == [] && none + [] == none;
    NothingToParse();
    NothingIsPadding();
  }

  lemma RawBytesAreKept(status: byte, flash: byte)
    ensures ParseLamps(status, flash).rawStatus == status && ParseLamps(status, flash).rawFlash == flash
  {
  }

  lemma NothingToParse()
    ensures ParseGroups([]) == [] && Remainder([]) == []
  {
  }

  lemma RawStatusIsNotPrinted(lamps: DmLampStatus, raw: byte)
    ensures LampBytes(lamps.(rawStatus := raw)) == LampBytes(lamps)
  {
  }
}
