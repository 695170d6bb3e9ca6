/** SAE J1939-73 diagnostic messages: trouble codes, DM1/DM2 and DM25 (`protocol/j1939.rs`). */
module J1939Dm {
  import opened Basics

  const MAX_SPN: nat := 0x07_FFFF

  // ---- Trouble codes ----

  datatype J1939Dtc = J1939Dtc(spn: u32, fmi: byte, occurrenceCount: byte, conversionMethod: byte)

  /** The ranges `to_bytes` checks. */
  predicate InRange(dtc: J1939Dtc) {
    dtc.spn <= MAX_SPN && dtc.fmi <= 31 && dtc.occurrenceCount <= 127 && dtc.conversionMethod <= 1
  }

  /** `J1939Dtc::from_bytes` on (at least) four bytes. */
  function DtcFromBytes(data: seq<byte>): (dtc: J1939Dtc)
    requires |data| >= 4
    ensures InRange(dtc)
  {
    J1939Dtc(
      data[0] as int + 0x100 * data[1] as int + 0x1_0000 * (data[2] as int / 0x20),
      data[2] % 0x20, data[3] % 0x80, data[3] / 0x80)
  }

  /** `J1939Dtc::to_bytes`. */
  function DtcToBytes(dtc: J1939Dtc): (r: Result<seq<byte>>)
    ensures r.Ok? <==> InRange(dtc)
    ensures r.Ok? ==> |r.value| == 4
  {
    if !InRange(dtc) then Err(ParseError)
    else Ok([dtc.spn % 0x100, dtc.spn / 0x100 % 0x100, dtc.spn / 0x1_0000 * 0x20 + dtc.fmi,
             dtc.conversionMethod * 0x80 + dtc.occurrenceCount])
  }

  lemma DtcRoundTrip(dtc: J1939Dtc)
    requires InRange(dtc)
    ensures DtcFromBytes(DtcToBytes(dtc).value) == dtc
  {
    var b := DtcToBytes(dtc).value;
    assert b[2] as int / 0x20 == dtc.spn / 0x1_0000 && b[2] as int % 0x20 == dtc.fmi;
    assert b[3] as int / 0x80 == dtc.conversionMethod && b[3] as int % 0x80 == dtc.occurrenceCount;
    assert dtc.spn == dtc.spn % 0x100 + 0x100 * (dtc.spn / 0x100 % 0x100) + 0x1_0000 * (dtc.spn / 0x1_0000);
  }

  lemma SpnFields(spn: nat, low: byte, middle: byte, high: nat)
    requires spn == low as int + 0x100 * middle as int + 0x1_0000 * high
    ensures spn % 0x100 == low && spn / 0x100 % 0x100 == middle && spn / 0x1_0000 == high
  {
    assert spn / 0x100 == middle as int + 0x100 * high;
  }

  lemma BytesRoundTrip(data: seq<byte>)
    requires |data| == 4
    ensures DtcToBytes(DtcFromBytes(data)) == Ok(data)
  {
    var dtc := DtcFromBytes(data);
    SpnFields(dtc.spn, data[0], data[1], data[2] as int / 0x20);
    assert data[2] as int / 0x20 * 0x20 + data[2] as int % 0x20 == data[2] as int;
    assert data[3] as int / 0x80 * 0x80 + data[3] as int % 0x80 == data[3] as int;
    hide DtcFromBytes, InRange;
    assert DtcToBytes(dtc).value == [data[0], data[1], data[2], data[3]] == data;
  }

  // ---- Padding ----

  predicate All(data: seq<byte>, b: byte) {
    forall i :: 0 <= i < |data| ==> data[i] == b
  }

  /** `is_padding_bytes`. */
  predicate IsPadding(data: seq<byte>) {
    All(data, 0xFF) || All(data, 0)
  }

  // ---- DM25: expanded freeze frames ----

  datatype FreezeFrame = FreezeFrame(length: byte, dtc: J1939Dtc, data: seq<byte>)

  /** The frames `Dm25FreezeFrame::to_payload` prints. */
  predicate WellFormed(frame: FreezeFrame) {
    4 + |frame.data| == frame.length && InRange(frame.dtc)
  }

  function PrintFrame(frame: FreezeFrame): (r: Result<seq<byte>>)
    ensures r.Ok? <==> WellFormed(frame)
    ensures r.Ok? ==> |r.value| == 1 + frame.length && r.value[0] == frame.length
  {
    if 4 + |frame.data| > 255 || 4 + |frame.data| != frame.length || DtcToBytes(frame.dtc).Err? then Err(ParseError)
    else Ok([frame.length] + DtcToBytes(frame.dtc).value + frame.data)
  }

  /** `Dm25::to_payload`. */
  function PrintDm25(frames: seq<FreezeFrame>): Result<seq<byte>> {
    if frames == [] then Ok([]) else
      var front := PrintDm25(frames[..|frames| - 1]);
      if front.Err? then front else
        var last := PrintFrame(frames[|frames| - 1]);
        if last.Err? then last else Ok(front.value + last.value)
  }

  /** `parse_dm25` on the bytes from `offset` on. */
  function ParseDm25(data: seq<byte>): (r: Result<seq<FreezeFrame>>) {
    if data == [] || All(data, 0xFF) || data[0] == 0 then Ok([])
    else if data[0] < 4 || 1 + data[0] as int > |data| then Err(ParseError)
    else
      var end: nat := 1 + data[0] as int;
      var rest := ParseDm25(data[end..]);
      if rest.Err? then rest
      else Ok([FreezeFrame(data[0], DtcFromBytes(data[1..5]), data[5..end])] + rest.value)
  }

  method ParseDm25Message(data: seq<byte>) returns (r: Result<seq<FreezeFrame>>)
    ensures r == ParseDm25(data)
  {
    var frames := [];
    var offset := 0;
    assert data[0..] == data;
    PrependNothing(ParseDm25(data));
    while offset < |data|
      invariant 0 <= offset <= |data|
      invariant ParseDm25(data) == Prepend(frames, ParseDm25(data[offset..]))
    {
      if All(data[offset..], 0xFF) {
        break;
      }
      var length := data[offset];
      if length == 0 {
        break;
      }
      if length < 4 {
        return Err(ParseError);
      }
      var end := offset + 1 + length;
      if end > |data| {
        return Err(ParseError);
      }
      var dtc := DtcFromBytes(data[offset + 1..offset + 5]);
      var frame := FreezeFrame(length, dtc, data[offset + 5..end]);
      ghost var here := data[offset..];
      assert here[1 + length..] == data[end..];
      assert here[1..5] == data[offset + 1..offset + 5] && here[5..1 + length] == data[offset + 5..end];
      PrependJoins(frames, [frame], ParseDm25(data[end..]));
      frames := frames + [frame];
      offset := end;
    }
    assert frames + [] == frames;
    return Ok(frames);
  }

  method Dm25ToPayload(frames: seq<FreezeFrame>) returns (r: Result<seq<byte>>)
    ensures r == PrintDm25(frames)
  {
    var payload := [];
    for i := 0 to |frames|
      invariant PrintDm25(frames[..i]) == Ok(payload)
    {
      assert frames[..i + 1][..i] == frames[..i];
      var frame := PrintFrame(frames[i]);
      if frame.Err? {
        PrintFails(frames, i);
        return frame;
      }
      payload := payload + frame.value;
    }
    assert frames[..|frames|] == frames;
    return Ok(payload);
  }

  lemma {:induction false} PrintFails(frames: seq<FreezeFrame>, i: nat)
    requires i < |frames| && PrintFrame(frames[i]).Err?
    ensures PrintDm25(frames) == Err(ParseError)
    decreases |frames|
  {
    var front := frames[..|frames| - 1];
    if i < |front| {
      PrintFails(front, i);
    } else if PrintDm25(front).Err? {
      assert frames[i] == frames[|frames| - 1];
      PrintErrorKind(front);
    }
  }

  lemma PrintErrorKind(frames: seq<FreezeFrame>)
    ensures PrintDm25(frames).Err? ==> PrintDm25(frames) == Err(ParseError)
  {
  }

  /** Printing splits off the first frame as well as the last. */
  lemma {:induction false} PrintFirst(first: FreezeFrame, rest: seq<FreezeFrame>)
    requires WellFormed(first) && PrintDm25(rest).Ok?
    ensures PrintDm25([first] + rest) == Ok(PrintFrame(first).value + PrintDm25(rest).value)
  {
    hide PrintFrame;
    var frames := [first] + rest;
    var k := |frames| - 1;
    if rest == [] {
      assert frames[..k] == [];
      assert PrintFrame(first).value + [] == PrintFrame(first).value == [] + PrintFrame(first).value;
    } else {
      var front := rest[..|rest| - 1];
      assert frames[..k] == [first] + front;
      PrintFirst(first, front);
      var (a, b, c) := (PrintFrame(first).value, PrintDm25(front).value, PrintFrame(rest[|rest| - 1]).value);
      assert a + b + c == a + (b + c);
    }
  }

  lemma {:induction false} PrintsWhenWellFormed(frames: seq<FreezeFrame>)
    ensures PrintDm25(frames).Ok? <==> forall i :: 0 <= i < |frames| ==> WellFormed(frames[i])
  {
    if frames != [] {
      var k := |frames| - 1;
      PrintsWhenWellFormed(frames[..k]);
      if PrintDm25(frames).Ok? {
        forall i | 0 <= i < |frames| ensures WellFormed(frames[i]) {
          assert i < k ==> frames[..k][i] == frames[i];
        }
      }
    }
  }

  /** One step of the parser over a printed frame. */
  lemma ParsesPrintedFrame(frame: FreezeFrame, tail: seq<byte>)
    requires WellFormed(frame) && !All(PrintFrame(frame).value + tail, 0xFF)
    ensures ParseDm25(PrintFrame(frame).value + tail) == Prepend([frame], ParseDm25(tail))
  {
    var data := PrintFrame(frame).value + tail;
    DtcRoundTrip(frame.dtc);
    assert data[1..5] == DtcToBytes(frame.dtc).value;
    assert data[5..1 + frame.length] == frame.data;
    assert data[1 + frame.length..] == tail;
  }

  lemma AllSplits(front: seq<byte>, back: seq<byte>, b: byte)
    ensures All(front + back, b) <==> All(front, b) && All(back, b)
  {
    if All(front + back, b) {
      assert forall i :: 0 <= i < |front| ==> front[i] == (front + back)[i];
      assert forall i :: 0 <= i < |back| ==> back[i] == (front + back)[|front| + i];
    }
  }

  lemma PaddingParsesToNothing(pad: seq<byte>)
    requires IsPadding(pad)
    ensures ParseDm25(pad) == Ok([])
  {
  }

  lemma {:induction false} ParseInvertsPrint(frames: seq<FreezeFrame>, pad: seq<byte>)
    requires PrintDm25(frames).Ok? && IsPadding(pad)
    requires frames != [] ==> !All(PrintFrame(frames[|frames| - 1]).value + pad, 0xFF)
    ensures ParseDm25(PrintDm25(frames).value + pad) == Ok(frames)
    decreases |frames|
  {
    hide PrintFrame, ParseDm25;
    PrintsWhenWellFormed(frames);
    if frames == [] {
      assert [] + pad == pad;
      PaddingParsesToNothing(pad);
    } else {
      var (first, rest) := (frames[0], frames[1..]);
      assert frames == [first] + rest;
      PrintsWhenWellFormed(rest);
      PrintFirst(first, rest);
      ParseInvertsPrint(rest, pad);
      var tail := PrintDm25(rest).value + pad;
      assert PrintDm25(frames).value + pad == PrintFrame(first).value + tail;
      AllSplits(PrintFrame(first).value, tail, 0xFF);
      if rest == [] {
        assert tail == pad;
      } else {
        TailNotAllFf(rest, pad);
      }
      ParsesPrintedFrame(first, tail);
    }
  }

  lemma TailNotAllFf(frames: seq<FreezeFrame>, pad: seq<byte>)
    requires frames != [] && PrintDm25(frames).Ok? && !All(PrintFrame(frames[|frames| - 1]).value + pad, 0xFF)
    ensures !All(PrintDm25(frames).value + pad, 0xFF)
  {
    hide PrintFrame, ParseDm25, All, WellFormed;
    PrintsWhenWellFormed(frames);
    var k := |frames| - 1;
    PrintsWhenWellFormed(frames[..k]);
    var (front, last) := (PrintDm25(frames[..k]).value, PrintFrame(frames[k]).value);
    assert PrintDm25(frames).value + pad == front + (last + pad);
    AllSplits(front, last + pad, 0xFF);
  }

  lemma {:induction false} SwallowedTail(frames: seq<FreezeFrame>, pad: seq<byte>)
    requires frames != [] && PrintDm25(frames).Ok? && All(PrintFrame(frames[|frames| - 1]).value + pad, 0xFF)
    ensures var r := ParseDm25(PrintDm25(frames).value + pad);
            r.Ok? && |r.value| < |frames|
    decreases |frames|
  {
    hide PrintFrame, ParseDm25;
    PrintsWhenWellFormed(frames);
    var (first, rest) := (frames[0], frames[1..]);
    assert frames == [first] + rest;
    PrintsWhenWellFormed(rest);
    PrintFirst(first, rest);
    var tail := PrintDm25(rest).value + pad;
    assert PrintDm25(frames).value + pad == PrintFrame(first).value + tail;
    assert [] + pad == pad;
    if All(PrintFrame(first).value + tail, 0xFF) {
      PaddingParsesToNothing(PrintFrame(first).value + tail);
    } else if rest != [] {
      SwallowedTail(rest, pad);
      ParsesPrintedFrame(first, tail);
    }
  }

  /**
    DM25 print then parse. For printable frames and any all-0xFF or all-0x00 padding, the
    frames come back exactly unless the last frame and the padding are 0xFF throughout: such a frame
    (255 bytes long, every field saturated) is itself taken for padding.
   */
  lemma Dm25ParseInvertsPrintExactly(frames: seq<FreezeFrame>, pad: seq<byte>)
    requires PrintDm25(frames).Ok? && IsPadding(pad)
    ensures ParseDm25(PrintDm25(frames).value + pad) == Ok(frames) <==>
            frames == [] || !(PrintsAllFf(frames[|frames| - 1]) && All(pad, 0xFF))
  {
    PrintsWhenWellFormed(frames);
    if frames != [] {
      AllSplits(PrintFrame(frames[|frames| - 1]).value, pad, 0xFF);
      if All(PrintFrame(frames[|frames| - 1]).value + pad, 0xFF) {
        SwallowedTail(frames, pad);
      } else {
        ParseInvertsPrint(frames, pad);
      }
    } else {
      ParseInvertsPrint(frames, pad);
    }
  }

  predicate PrintsAllFf(frame: FreezeFrame) {
    PrintFrame(frame).Ok? && All(PrintFrame(frame).value, 0xFF)
  }

  /**
    DM25 parse then print. Whatever parses prints to a prefix of its input, and what is
    left over is empty, all 0xFF, or starts with a zero length.
   */
  lemma {:induction false} Dm25PrintInvertsParse(data: seq<byte>)
    requires ParseDm25(data).Ok?
    ensures
      var printed := PrintDm25(ParseDm25(data).value);
      && printed.Ok? && printed.value <= data
      && var rest := data[|printed.value|..];
      rest == [] || All(rest, 0xFF) || rest[0] == 0
    decreases |data|
  {
    if data == [] || All(data, 0xFF) || data[0] == 0 {
      assert data[0..] == data;
    } else {
      var end: nat := 1 + data[0] as int;
      var frame := FreezeFrame(data[0], DtcFromBytes(data[1..5]), data[5..end]);
      var tail := data[end..];
      assert ParseDm25(data).value == [frame] + ParseDm25(tail).value;
      hide ParseDm25, All, DtcFromBytes, PrintFrame, PrintDm25;
      Dm25PrintInvertsParse(tail);
      PrintsParsedFrame(data);
      PrintFirst(frame, ParseDm25(tail).value);
      PrefixSplits(data, end, PrintDm25(ParseDm25(tail).value).value);
    }
  }

  lemma PrefixSplits(data: seq<byte>, end: nat, printed: seq<byte>)
    requires end <= |data| && printed <= data[end..]
    ensures data[..end] + printed <= data
    ensures data[|data[..end] + printed|..] == data[end..][|printed|..]
  {
    assert data == data[..end] + data[end..];
  }

  lemma PrintsParsedFrame(data: seq<byte>)
    requires data != [] && data[0] >= 4 && 1 + data[0] as int <= |data|
    ensures
      var end := 1 + data[0] as int;
      PrintFrame(FreezeFrame(data[0], DtcFromBytes(data[1..5]), data[5..end])) == Ok(data[..end])
  {
    var end := 1 + data[0] as int;
    BytesRoundTrip(data[1..5]);
    assert [data[0]] + data[1..5] + data[5..end] == data[..end];
  }

  /** The saturated frame, printed without padding: the parser takes all of it for padding. */
  lemma SaturatedFrameIsSwallowed()
    ensures
      var frame := FreezeFrame(255, J1939Dtc(MAX_SPN, 31, 127, 1), seq(251, _ => 0xFF));
      && PrintDm25([frame]) == Ok(seq(256, _ => 0xFF))
      && ParseDm25(PrintDm25([frame]).value) == Ok([])
  {
    var frame := FreezeFrame(255, J1939Dtc(MAX_SPN, 31, 127, 1), seq(251, _ => 0xFF));
    assert DtcToBytes(frame.dtc) == Ok([0xFF, 0xFF, 0xFF, 0xFF]);
    assert PrintFrame(frame).value == seq(256, _ => 0xFF);
    assert [frame][..0] == [] && [] + PrintFrame(frame).value == PrintFrame(frame).value;
  }
}
