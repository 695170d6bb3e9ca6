/** What a routed ELM327 command returns for the replies of a vehicle (`adapter/elm327.rs`, `adapter/elm_codec.rs`). */
module RoutedReplies {
  import opened Basics
  import opened Hex
  import opened ElmCodec
  import opened Elm327
  import opened ReplyDigits

  /** The text of a command reads back as its service and data. */
  lemma CommandReadsBack(service: byte, data: seq<byte>)
    ensures HexPairs(Squeeze(CommandText(service, data))) == Ok([service] + data)
  {
    hide HexPairs, Squeeze, RenderHex;
    CommandIsSqueezed([service] + data);
    CompactPairs([service] + data);
  }

  /** The bytes that a response to the request starts with. */
  function Repeated(service: byte, data: seq<byte>): (prefix: seq<byte>)
    requires |data| + 1 >= SkipBytes(service)
    ensures |prefix| == SkipBytes(service)
  {
    [(service as int + 0x40) % 0x100] + data[..SkipBytes(service) - 1]
  }

  lemma PrefixIsRepeated(service: byte, data: seq<byte>)
    ensures
      ExpectedPrefix(CommandText(service, data), SkipBytes(service)) ==
      if |data| + 1 >= SkipBytes(service) then Some(Repeated(service, data)) else None
  {
    hide HexPairs, Squeeze, CommandText;
    CommandReadsBack(service, data);
    if |data| + 1 >= SkipBytes(service) {
      var prefix := ExpectedPrefix(CommandText(service, data), SkipBytes(service)).value;
      assert forall i :: 1 <= i < |prefix| ==> prefix[i] == ([service] + data)[i] == Repeated(service, data)[i];
      assert prefix == Repeated(service, data);
    }
  }

  // ---- The error that a reply reports ----

  /** `check_response_error` on the bytes of a reply that holds no adapter message, and the parse error otherwise. */
  function Verdict(heard: seq<byte>): (r: Result<seq<byte>>)
    ensures r.Err?
  {
    if |heard| < 3 || heard[0] != 0x7F || LastNrc(heard, 2).None? then Err(ParseError)
    else Err(Error.NegativeResponse(heard[1], LastNrc(heard, 2).value))
  }

  /** Of two parts, the later one decides if it holds a known code. */
  lemma {:induction false} LastNrcOfTwo(front: seq<byte>, back: seq<byte>, from: nat)
    requires from <= |front|
    ensures LastNrc(front + back, from) ==
            if LastNrc(back, 0).Some? then LastNrc(back, 0) else LastNrc(front, from)
    decreases |back|
  {
    hide IsNrc;
    if back == [] {
      assert front + back == front;
    } else {
      assert (front + back)[..|front + back| - 1] == front + back[..|back| - 1];
      LastNrcOfTwo(front, back[..|back| - 1], from);
    }
  }

  lemma {:induction false} Misses(s: string, part: string, c: char)
    requires c in part && c !in s
    ensures !Contains(s, part)
    decreases |s|
  {
    if s != "" {
      assert s == [s[0]] + s[1..];
      Misses(s[1..], part, c);
    }
    var k :| 0 <= k < |part| && part[k] == c;
    assert k < |s| ==> s[k] != part[k];
  }

  lemma {:induction false} TrimKeepsWordless(s: string)
    ensures forall c :: c in Trim(s) ==> c in s
  {
    TrimStartIsPart(s);
    TrimEndIsPart(TrimStart(s));
  }

  lemma {:induction false} TrimStartIsPart(s: string)
    ensures forall c :: c in TrimStart(s) ==> c in s
  {
    if s != "" && IsSpace(s[0]) {
      TrimStartIsPart(s[1..]);
    }
  }

  lemma {:induction false} TrimEndIsPart(s: string)
    ensures forall c :: c in TrimEnd(s) ==> c in s
  {
    if s != "" && IsSpace(s[|s| - 1]) {
      TrimEndIsPart(s[..|s| - 1]);
    }
  }

  lemma WordlessReports(reply: string)
    requires Wordless(reply)
    ensures
      var verdict := Verdict(Paired(Digits(reply)));
      ReplyError(reply) == if verdict == Err(ParseError) then None else Some(verdict.error)
  {
    hide Contains, DigitBytes, Digits, Paired, Trim, IsNrc;
    var text := Trim(reply);
    TrimKeepsWordless(reply);
    assert Wordless(text);
    Misses(text, "NO DATA", "NO DATA"[1]);
    Misses(text, "UNABLE TO CONNECT", "UNABLE TO CONNECT"[0]);
    Misses(text, "BUS INIT", "BUS INIT"[1]);
    Misses(text, "CAN ERROR", "CAN ERROR"[7]);
    assert text != "?" by {
      assert '?' in "?";
    }
    TrimKeepsDigits(reply);
    DigitBytesPairs(text, None);
    assert [] + Digits(text) == Digits(text);
  }

  // ---- Replies ----

  /** A reply of these lines, as a command with the bytes `prefix` repeated gets it. */
  ghost predicate IsReply(reply: string, lines: seq<ReplyLine>, prefix: seq<byte>) {
    && (forall i :: 0 <= i < |lines| ==> OneLine(lines[i]))
    && exists breaks: seq<char> ::
         && |breaks| + 1 == |lines| && (forall i :: 0 <= i < |breaks| ==> IsBreak(breaks[i]))
         && reply == Join(Texts(lines, prefix), breaks)
  }

  /** Without a response to the command, what it would repeat is not in the text. */
  lemma PrefixUnused(lines: seq<ReplyLine>, prefix: seq<byte>)
    requires forall i :: 0 <= i < |lines| ==> !lines[i].PayloadLine?
    ensures Texts(lines, prefix) == Texts(lines, [])
  {
  }

  lemma {:induction false} UnmatchedIsAnswerless(lines: seq<ReplyLine>, request: seq<byte>, prefix: seq<byte>)
    requires Admissible(lines, RenderHex(request, false), prefix, false) && Payloads(lines) == []
    ensures Answerless(lines, request) && forall i :: 0 <= i < |lines| ==> !lines[i].PayloadLine?
  {
    hide Tokens, Clean, IsEcho, RenderHex;
    if lines != [] {
      assert lines == [lines[0]] + lines[1..];
      UnmatchedIsAnswerless(lines[1..], request, prefix);
    }
  }

  /**
    A routed command, exactly, on every reply of one or more ECUs to a request as long as the part its responses
    repeat: the first payload, truncated for a known PID; and without one, the error named by the digits of the reply.
   */
  lemma RepliesDecode(service: byte, data: seq<byte>, lines: seq<ReplyLine>, reply: string, tables: Tables)
    requires |data| + 1 >= SkipBytes(service) && IsReply(reply, lines, Repeated(service, data))
    requires Admissible(lines, CommandText(service, data), Repeated(service, data), false)
    ensures
      DecodeReply(service, data, reply, tables) ==
      if Payloads(lines) != [] then Ok(Truncated(service, data, Payloads(lines)[0], tables))
      else Verdict(Heard(lines, [service] + data))
  {
    hide DecodeResponse, CommandText, Join, Texts, Squeeze, HexPairs, ReplyError, Truncated;
    hide Admissible, OneLine, Verdict;
    var prefix := Repeated(service, data);
    PrefixIsRepeated(service, data);
    CommandReadsBack(service, data);
    var breaks: seq<char> :|
      && |breaks| + 1 == |lines| && (forall i :: 0 <= i < |breaks| ==> IsBreak(breaks[i]))
      && reply == Join(Texts(lines, prefix), breaks);
    DecodeInvertsRendering(lines, breaks, CommandText(service, data), SkipBytes(service), tables.headersOn);
    if Payloads(lines) == [] {
      AnswerlessReports(service, data, lines, breaks, prefix);
    }
  }

  lemma AnswerlessReports(
    service: byte, data: seq<byte>, lines: seq<ReplyLine>, breaks: seq<char>, prefix: seq<byte>)
    requires |breaks| + 1 == |lines| && (forall i :: 0 <= i < |breaks| ==> IsBreak(breaks[i]))
    requires Admissible(lines, CommandText(service, data), prefix, false) && Payloads(lines) == []
    ensures
      var verdict := Verdict(Heard(lines, [service] + data));
      ReplyError(Join(Texts(lines, prefix), breaks)) == if verdict == Err(ParseError) then None else Some(verdict.error)
  {
    hide Join, Texts, ReplyError, Admissible, Verdict, Wordless, Payloads, Answerless;
    UnmatchedIsAnswerless(lines, [service] + data, prefix);
    PrefixUnused(lines, prefix);
    JoinedReads(lines, breaks, [service] + data);
    WordlessReports(Join(Texts(lines, []), breaks));
  }

  /**
    A request too short to tell its responses by takes every response line for one payload, negative ones included.
   */
  lemma ShortRequestTakesAll(service: byte, data: seq<byte>, lines: seq<ReplyLine>, reply: string, tables: Tables)
    requires |data| + 1 < SkipBytes(service) && IsReply(reply, lines, [])
    requires Undistinguished(lines, CommandText(service, data))
    ensures
      DecodeReply(service, data, reply, tables) ==
      if Trailing(lines) != [] then Ok(Trailing(lines)) else Verdict(Heard(lines, [service] + data))
  {
    hide CommandText, Join, Texts, ReplyError, OneLine, Verdict, Undistinguished, Answerless, Wordless;
    hide Decode, SplitLines;
    PrefixIsRepeated(service, data);
    var breaks: seq<char> :|
      && |breaks| + 1 == |lines| && (forall i :: 0 <= i < |breaks| ==> IsBreak(breaks[i]))
      && reply == Join(Texts(lines, []), breaks);
    SplitsTexts(lines, breaks, []);
    DecodesAsOne(lines, CommandText(service, data), SkipBytes(service), tables.headersOn, []);
    assert [] + Trailing(lines) == Trailing(lines);
    if Trailing(lines) == [] {
      UndistinguishedIsAnswerless(lines, service, data);
      JoinedReads(lines, breaks, [service] + data);
      WordlessReports(reply);
    }
  }

  lemma UndistinguishedIsAnswerless(lines: seq<ReplyLine>, service: byte, data: seq<byte>)
    requires Undistinguished(lines, CommandText(service, data))
    ensures Answerless(lines, [service] + data)
  {
    hide Tokens, Clean, IsEcho, RenderHex;
  }

  // ---- One negative response ----

  /** Blank, search and echo lines only. */
  ghost predicate Silent(lines: seq<ReplyLine>, request: seq<byte>) {
    Answerless(lines, request) && forall i :: 0 <= i < |lines| ==> !lines[i].OtherLine?
  }

  /** No hexadecimal digit in the lines: neither an echo nor a search message. */
  predicate AllBlank(lines: seq<ReplyLine>) {
    forall i :: 0 <= i < |lines| ==> lines[i].Blank?
  }

  lemma {:induction false} DigitsOfJoin(front: seq<ReplyLine>, back: seq<ReplyLine>, request: seq<byte>)
    ensures DigitsOf(front + back, request) == DigitsOf(front, request) + DigitsOf(back, request)
  {
    hide LineDigits;
    if front == [] {
      assert front + back == back;
    } else {
      assert (front + back)[1..] == front[1..] + back;
      DigitsOfJoin(front[1..], back, request);
    }
  }

  lemma {:induction false} BlankDigits(lines: seq<ReplyLine>, request: seq<byte>)
    requires AllBlank(lines)
    ensures DigitsOf(lines, request) == []
  {
    if lines != [] {
      BlankDigits(lines[1..], request);
    }
  }

  /** Among echo and search lines, the first byte heard is the service or 0xEA. */
  lemma {:induction false} SilentDigits(lines: seq<ReplyLine>, service: byte, data: seq<byte>, rest: seq<nibble>)
    requires Silent(lines, [service] + data) && !AllBlank(lines)
    ensures
      var heard := Paired(DigitsOf(lines, [service] + data) + rest);
      heard != [] && (heard[0] == service || heard[0] == 0xEA)
  {
    hide Tokens, Clean, IsEcho, RenderHex;
    var (request, first, later) := ([service] + data, lines[0], lines[1..]);
    assert lines == [first] + later;
    var more := DigitsOf(later, request) + rest;
    assert LineDigits(first, request) + DigitsOf(later, request) + rest == LineDigits(first, request) + more;
    match first
    case Blank(_) =>
      assert [] + DigitsOf(later, request) == DigitsOf(later, request);
      SilentDigits(later, service, data, rest);
    case Searching =>
      assert LineDigits(first, request) + more == [0xE, 0xA] + ([0xC] + more);
      PairsFirst(0xE, 0xA, [0xC] + more);
    case EchoLine(_) =>
      PairedBytes(request, more);
    case _ =>
  }

  /** What the check hears when one response stands among silent lines. */
  lemma HeardAround(
    service: byte, data: seq<byte>, before: seq<ReplyLine>, line: ReplyLine, bytes: seq<byte>, after: seq<ReplyLine>)
    requires Silent(before, [service] + data) && LineDigits(line, [service] + data) == Nibbles(bytes)
    ensures
      var heard := Heard(before + [line] + after, [service] + data);
      if AllBlank(before) then heard == bytes + Heard(after, [service] + data)
      else heard != [] && (heard[0] == service || heard[0] == 0xEA)
  {
    hide LineDigits, Silent, AllBlank, Nibbles;
    var request := [service] + data;
    DigitsOfJoin(before + [line], after, request);
    DigitsOfJoin(before, [line], request);
    var rest := Nibbles(bytes) + DigitsOf(after, request);
    assert DigitsOf([line], request) == Nibbles(bytes) + [] by {
      assert [line][1..] == [];
    }
    assert DigitsOf(before + [line] + after, request) == DigitsOf(before, request) + rest;
    if AllBlank(before) {
      BlankDigits(before, request);
      assert [] + rest == rest;
      PairedBytes(bytes, DigitsOf(after, request));
    } else {
      SilentDigits(before, service, data, rest);
    }
  }

  /** A line of bytes that starts with 0x7F, as the decoder takes it. */
  function Taken(service: byte, data: seq<byte>, bytes: seq<byte>, spaced: bool, prompts: nat): ReplyLine {
    if service == 0x3F && bytes != [] then PayloadLine(bytes[1..], spaced, prompts)
    else if IsEcho(RenderHex(bytes, spaced), CommandText(service, data)) then
      EchoLine(RenderHex(bytes, spaced) + seq(prompts, _ => '>'))
    else OtherLine(bytes, spaced, prompts)
  }

  lemma EchoIsRequest(service: byte, data: seq<byte>, bytes: seq<byte>, spaced: bool)
    requires IsEcho(RenderHex(bytes, spaced), CommandText(service, data))
    ensures Nibbles(bytes) == Nibbles([service] + data) && (bytes != [] ==> bytes[0] == service)
  {
    hide IsEcho, RenderHex;
    EchoIsHex(RenderHex(bytes, spaced), [service] + data);
    DigitsOfRendering(bytes, spaced);
    if bytes != [] {
      assert Nibbles(bytes)[0] == bytes[0] / 16 && Nibbles(bytes)[1] == bytes[0] % 16;
    }
  }

  lemma TakenReads(service: byte, data: seq<byte>, bytes: seq<byte>, spaced: bool, prompts: nat, prefix: seq<byte>)
    requires bytes != [] && bytes[0] == 0x7F && (service == 0x3F ==> prefix == [0x7F])
    ensures
      var line := Taken(service, data, bytes, spaced, prompts);
      var text := RenderHex(bytes, spaced) + seq(prompts, _ => '>');
      && LineText(line, prefix) == text == LineText(OtherLine(bytes, spaced, prompts), prefix) && OneLine(line)
      && (!line.PayloadLine? ==> LineDigits(line, [service] + data) == Nibbles(bytes))
      && (line.EchoLine? ==> IsEcho(Clean(text), CommandText(service, data)))
  {
    hide RenderHex, IsEcho, IsBreak, Clean, CommandText;
    var line := Taken(service, data, bytes, spaced, prompts);
    CleanKeepsRendering(bytes, spaced, prompts);
    if line.PayloadLine? {
      assert [0x7F] + bytes[1..] == bytes;
    } else if line.EchoLine? {
      EchoIsRequest(service, data, bytes, spaced);
      forall i | 0 <= i < |line.raw| ensures !IsBreak(line.raw[i]) {
        TextsHaveNoBreaks([OtherLine(bytes, spaced, prompts)], prefix, 0, i);
      }
    }
  }

  lemma {:induction false} SilentAddsNothing(
    lines: seq<ReplyLine>, rest: seq<ReplyLine>, request: seq<byte>, prefix: seq<byte>, matched: bool)
    requires Silent(lines, request)
    ensures Payloads(lines + rest) == Payloads(rest) && Trailing(lines + rest) == Trailing(rest)
    ensures Admissible(rest, RenderHex(request, false), prefix, matched) ==>
            Admissible(lines + rest, RenderHex(request, false), prefix, matched)
  {
    hide Tokens, Clean, IsEcho, RenderHex, IsStatusNoise;
    if lines == [] {
      assert lines + rest == rest;
    } else {
      assert lines == [lines[0]] + lines[1..];
      assert (lines + rest)[1..] == lines[1..] + rest && (lines + rest)[0] == lines[0];
      SilentAddsNothing(lines[1..], rest, request, prefix, matched);
      assert [] + Payloads(rest) == Payloads(rest) && [] + Trailing(rest) == Trailing(rest);
    }
  }

  /** A reply whose one response line is a negative one. */
  ghost predicate NegativeReply(
    reply: string, service: byte, data: seq<byte>, before: seq<ReplyLine>, bytes: seq<byte>, spaced: bool, prompts: nat,
    after: seq<ReplyLine>)
  {
    && |bytes| >= 3 && bytes[0] == 0x7F
    && Silent(before, [service] + data) && Silent(after, [service] + data)
    && IsReply(reply, before + [OtherLine(bytes, spaced, prompts)] + after, [])
  }

  /** The lines as the decoder takes them make the same reply. */
  lemma TakenReply(
    service: byte, data: seq<byte>, before: seq<ReplyLine>, bytes: seq<byte>, spaced: bool, prompts: nat,
    after: seq<ReplyLine>, reply: string, prefix: seq<byte>)
    requires NegativeReply(reply, service, data, before, bytes, spaced, prompts, after)
    requires service == 0x3F ==> prefix == [0x7F]
    ensures IsReply(reply, before + [Taken(service, data, bytes, spaced, prompts)] + after, prefix)
  {
    hide RenderHex, IsEcho, Clean, Tokens, Join, Taken, LineText;
    var (line, other) := (Taken(service, data, bytes, spaced, prompts), OtherLine(bytes, spaced, prompts));
    var (lines, given) := (before + [line] + after, before + [other] + after);
    TakenReads(service, data, bytes, spaced, prompts, prefix);
    SilentTexts(before, [service] + data, prefix);
    SilentTexts(after, [service] + data, prefix);
    OtherText(bytes, spaced, prompts, prefix);
    forall i | 0 <= i < |lines| ensures OneLine(lines[i]) && LineText(lines[i], prefix) == LineText(given[i], []) {
      assert i != |before| ==> lines[i] == given[i];
      if i < |before| {
        assert lines[i] == before[i];
      } else if i > |before| {
        assert lines[i] == after[i - |before| - 1];
      }
    }
    assert Texts(lines, prefix) == Texts(given, []);
  }

  lemma OtherText(bytes: seq<byte>, spaced: bool, prompts: nat, prefix: seq<byte>)
    ensures LineText(OtherLine(bytes, spaced, prompts), prefix) == LineText(OtherLine(bytes, spaced, prompts), [])
  {
  }

  lemma SilentTexts(lines: seq<ReplyLine>, request: seq<byte>, prefix: seq<byte>)
    requires Silent(lines, request)
    ensures forall i :: 0 <= i < |lines| ==> LineText(lines[i], prefix) == LineText(lines[i], [])
  {
  }

  /** How the decoder and the payloads see it, for a request that its responses can be told by. */
  lemma TakenDecodes(
    service: byte, data: seq<byte>, before: seq<ReplyLine>, bytes: seq<byte>, spaced: bool, prompts: nat,
    after: seq<ReplyLine>)
    requires |data| + 1 >= SkipBytes(service) && |bytes| >= 3 && bytes[0] == 0x7F
    requires Silent(before, [service] + data) && Silent(after, [service] + data)
    ensures
      var lines := before + [Taken(service, data, bytes, spaced, prompts)] + after;
      && Admissible(lines, CommandText(service, data), Repeated(service, data), false)
      && Payloads(lines) == if service == 0x3F then [bytes[1..]] else []
  {
    hide RenderHex, IsEcho, Clean, Tokens, Taken, Silent, Admissible, Repeated, Payloads, Trailing;
    var (request, prefix) := ([service] + data, Repeated(service, data));
    var line := Taken(service, data, bytes, spaced, prompts);
    SilentAddsNothing(after, [], request, prefix, line.PayloadLine?);
    NothingLeft(request, prefix, line.PayloadLine?);
    assert after + [] == after;
    TakenFirst(service, data, bytes, spaced, prompts, after);
    SilentAddsNothing(before, [line] + after, request, prefix, false);
    assert before + ([line] + after) == before + [line] + after;
  }

  lemma NothingLeft(request: seq<byte>, prefix: seq<byte>, matched: bool)
    ensures Admissible([], RenderHex(request, false), prefix, matched) && Payloads([]) == [] && Trailing([]) == []
  {
  }

  lemma TakenFirst(service: byte, data: seq<byte>, bytes: seq<byte>, spaced: bool, prompts: nat, after: seq<ReplyLine>)
    requires |data| + 1 >= SkipBytes(service) && |bytes| >= 3 && bytes[0] == 0x7F
    requires Payloads(after) == [] && Trailing(after) == []
    ensures
      var (line, prefix) := (Taken(service, data, bytes, spaced, prompts), Repeated(service, data));
      && Payloads([line] + after) == (if service == 0x3F then [bytes[1..]] else [])
      && (Admissible(after, CommandText(service, data), prefix, line.PayloadLine?) ==>
            Admissible([line] + after, CommandText(service, data), prefix, false))
  {
    hide RenderHex, IsEcho, Clean, Tokens, IsStatusNoise, CommandText;
    var (line, prefix) := (Taken(service, data, bytes, spaced, prompts), Repeated(service, data));
    TakenReads(service, data, bytes, spaced, prompts, prefix);
    assert ([line] + after)[1..] == after && bytes[1..] + [] == bytes[1..];
    assert prefix[0] == (service as int + 0x40) % 0x100;
  }

  lemma NegativeTakenAsPayload(
    service: byte, data: seq<byte>, before: seq<ReplyLine>, bytes: seq<byte>, spaced: bool, prompts: nat,
    after: seq<ReplyLine>, reply: string, tables: Tables)
    requires |data| + 1 < SkipBytes(service)
    requires NegativeReply(reply, service, data, before, bytes, spaced, prompts, after)
    ensures DecodeReply(service, data, reply, tables) == Ok(bytes)
  {
    hide DecodeReply, RenderHex, IsReply, IsEcho, CommandText, Silent, Undistinguished, Payloads, Trailing;
    var (request, command) := ([service] + data, CommandText(service, data));
    var other := OtherLine(bytes, spaced, prompts);
    if IsEcho(RenderHex(bytes, spaced), command) {
      EchoIsRequest(service, data, bytes, spaced);
      assert false;
    }
    SilentIsUndistinguished(before, service, data);
    SilentIsUndistinguished(after, service, data);
    OtherIsUndistinguished(other, command);
    UndistinguishedJoin(before, [other], command);
    UndistinguishedJoin(before + [other], after, command);
    TrailsAround(before, other, after, request);
    ShortRequestTakesAll(service, data, before + [other] + after, reply, tables);
  }

  lemma SilentIsUndistinguished(lines: seq<ReplyLine>, service: byte, data: seq<byte>)
    requires Silent(lines, [service] + data)
    ensures Undistinguished(lines, CommandText(service, data))
  {
    hide Tokens, Clean, IsEcho, RenderHex;
  }

  lemma OtherIsUndistinguished(line: ReplyLine, command: string)
    requires line.OtherLine? && line.bytes != [] && line.bytes[0] == 0x7F
    requires !IsEcho(RenderHex(line.bytes, line.spaced), command)
    ensures Undistinguished([line], command)
  {
    hide RenderHex, IsEcho;
  }

  lemma UndistinguishedJoin(front: seq<ReplyLine>, back: seq<ReplyLine>, command: string)
    requires Undistinguished(front, command) && Undistinguished(back, command)
    ensures Undistinguished(front + back, command)
  {
    hide Tokens, Clean, IsEcho, RenderHex;
  }

  /** Among silent lines, what trails is the one response. */
  lemma TrailsAround(before: seq<ReplyLine>, other: ReplyLine, after: seq<ReplyLine>, request: seq<byte>)
    requires Silent(before, request) && other.OtherLine? && Silent(after, request)
    ensures Trailing(before + [other] + after) == other.bytes
  {
    hide RenderHex, Silent, Admissible;
    SilentAddsNothing(after, [], request, [], true);
    assert after + [] == after;
    assert ([other] + after)[1..] == after && other.bytes + [] == other.bytes;
    SilentAddsNothing(before, [other] + after, request, [], true);
    assert before + ([other] + after) == before + [other] + after;
  }

  lemma NegativeDecodes(
    service: byte, data: seq<byte>, before: seq<ReplyLine>, bytes: seq<byte>, spaced: bool, prompts: nat,
    after: seq<ReplyLine>, reply: string, tables: Tables)
    requires |data| + 1 >= SkipBytes(service)
    requires NegativeReply(reply, service, data, before, bytes, spaced, prompts, after)
    ensures
      DecodeReply(service, data, reply, tables) ==
      if service == 0x3F then Ok(bytes[1..])
      else if AllBlank(before) then Verdict(bytes + Heard(after, [service] + data))
      else if service != 0x7F then Err(ParseError)
      else Verdict(Heard(before + [OtherLine(bytes, spaced, prompts)] + after, [service] + data))
  {
    hide DecodeReply, IsReply, Admissible, Silent, Payloads, LineDigits, Heard, AllBlank, OneLine, LineText;
    var (request, prefix) := ([service] + data, Repeated(service, data));
    var (line, other) := (Taken(service, data, bytes, spaced, prompts), OtherLine(bytes, spaced, prompts));
    var lines := before + [line] + after;
    assert service == 0x3F ==> prefix == [0x7F];
    TakenReply(service, data, before, bytes, spaced, prompts, after, reply, prefix);
    TakenDecodes(service, data, before, bytes, spaced, prompts, after);
    RepliesDecode(service, data, lines, reply, tables);
    if service != 0x3F {
      TakenReads(service, data, bytes, spaced, prompts, prefix);
      OtherDigits(bytes, spaced, prompts, request);
      SameHeard(before, line, other, after, request);
      HeardAround(service, data, before, line, bytes, after);
    }
  }

  lemma OtherDigits(bytes: seq<byte>, spaced: bool, prompts: nat, request: seq<byte>)
    ensures LineDigits(OtherLine(bytes, spaced, prompts), request) == Nibbles(bytes)
  {
  }

  lemma SameHeard(
    before: seq<ReplyLine>, line: ReplyLine, other: ReplyLine, after: seq<ReplyLine>, request: seq<byte>)
    requires LineDigits(line, request) == LineDigits(other, request)
    ensures Heard(before + [line] + after, request) == Heard(before + [other] + after, request)
  {
    hide LineDigits;
    DigitsOfJoin(before + [line], after, request);
    DigitsOfJoin(before, [line], request);
    DigitsOfJoin(before + [other], after, request);
    DigitsOfJoin(before, [other], request);
    assert [line][1..] == [] == [other][1..];
  }

  /**
    A negative response, exactly, among blank, search and echo lines and with any number of prompts. A request shorter
    than the part its responses repeat takes it for a payload; so does service 0x3F, whose responses start with the very
    byte that marks a negative one. Otherwise the error check reads all hexadecimal digits of the reply in pairs: it
    finds nothing if an echo or the letters of a search message come first, and without them names the service in the
    response and the last known code in it or after it.
   */
  lemma NegativeResponseExactly(
    service: byte, data: seq<byte>, before: seq<ReplyLine>, bytes: seq<byte>, spaced: bool, prompts: nat,
    after: seq<ReplyLine>, reply: string, tables: Tables)
    requires NegativeReply(reply, service, data, before, bytes, spaced, prompts, after)
    ensures
      DecodeReply(service, data, reply, tables) ==
      if |data| + 1 < SkipBytes(service) then Ok(bytes)
      else if service == 0x3F then Ok(bytes[1..])
      else if AllBlank(before) then Verdict(bytes + Heard(after, [service] + data))
      else if service != 0x7F then Err(ParseError)
      else Verdict(Heard(before + [OtherLine(bytes, spaced, prompts)] + after, [service] + data))
  {
    hide DecodeReply, NegativeReply, Taken, LineDigits, Heard, Silent, AllBlank, SkipBytes, Nibbles;
    if |data| + 1 < SkipBytes(service) {
      NegativeTakenAsPayload(service, data, before, bytes, spaced, prompts, after, reply, tables);
    } else {
      NegativeDecodes(service, data, before, bytes, spaced, prompts, after, reply, tables);
    }
  }

  /**
    So the error that the response names is reported exactly if the request is long enough and its service is not 0x3F,
    no hexadecimal digit precedes the response, and no other known code comes last after it.
   */
  lemma NamedErrorExactly(
    service: byte, data: seq<byte>, before: seq<ReplyLine>, bytes: seq<byte>, spaced: bool, prompts: nat,
    after: seq<ReplyLine>, reply: string, tables: Tables)
    requires NegativeReply(reply, service, data, before, bytes, spaced, prompts, after)
    requires service != 0x7F || AllBlank(before)
    ensures
      var (named, later) := (LastNrc(bytes, 2), LastNrc(Heard(after, [service] + data), 0));
      named.Some? ==>
        (DecodeReply(service, data, reply, tables) == Err(Error.NegativeResponse(bytes[1], named.value)) <==>
         && |data| + 1 >= SkipBytes(service) && service != 0x3F
         && AllBlank(before) && (later == None || later == named))
    ensures LastNrc(bytes, 2).None? && |data| + 1 >= SkipBytes(service) && service != 0x3F && AllBlank(after) ==>
      DecodeReply(service, data, reply, tables) == Err(ParseError)
  {
    hide DecodeReply, IsReply, Silent, LineDigits, IsNrc, SkipBytes, AllBlank;
    NegativeResponseExactly(service, data, before, bytes, spaced, prompts, after, reply, tables);
    LastNrcOfTwo(bytes, Heard(after, [service] + data), 2);
    assert |bytes + Heard(after, [service] + data)| >= 3;
    if AllBlank(after) {
      BlankDigits(after, [service] + data);
    }
  }

  // ---- Several responses ----

  /** Other responses and blank lines are heard byte for byte. */
  lemma {:induction false} HeardIsTrailing(lines: seq<ReplyLine>, request: seq<byte>)
    requires forall i :: 0 <= i < |lines| ==> lines[i].OtherLine? || lines[i].Blank?
    ensures Heard(lines, request) == Trailing(lines)
  {
    if lines != [] {
      hide Nibbles, Paired;
      HeardIsTrailing(lines[1..], request);
      var rest := DigitsOf(lines[1..], request);
      if lines[0].OtherLine? {
        PairedBytes(lines[0].bytes, rest);
      } else {
        assert [] + rest == rest && [] + Trailing(lines[1..]) == Trailing(lines[1..]);
      }
    }
  }

  /**
    Several ECUs that all refuse, with no echo and no search message: the error names the service in the first
    response and the last known code in all of them.
   */
  lemma SeveralNegativesReportLast(
    service: byte, data: seq<byte>, lines: seq<ReplyLine>, reply: string, tables: Tables)
    requires |data| + 1 >= SkipBytes(service) && IsReply(reply, lines, Repeated(service, data))
    requires Admissible(lines, CommandText(service, data), Repeated(service, data), false)
    requires forall i :: 0 <= i < |lines| ==> lines[i].OtherLine? || lines[i].Blank?
    ensures DecodeReply(service, data, reply, tables) == Verdict(Trailing(lines))
  {
    hide DecodeReply, IsReply, Admissible, Verdict, SkipBytes;
    RepliesDecode(service, data, lines, reply, tables);
    HeardIsTrailing(lines, [service] + data);
    NoPayloads(lines);
  }

  lemma {:induction false} NoPayloads(lines: seq<ReplyLine>)
    requires forall i :: 0 <= i < |lines| ==> !lines[i].PayloadLine?
    ensures Payloads(lines) == []
  {
    if lines != [] {
      NoPayloads(lines[1..]);
    }
  }

  lemma {:induction false} FirstPayload(lines: seq<ReplyLine>, k: nat)
    requires k < |lines| && lines[k].PayloadLine? && forall i :: 0 <= i < k ==> !lines[i].PayloadLine?
    ensures Payloads(lines) != [] && Payloads(lines)[0] == lines[k].payload + Trailing(lines[k + 1..])
    decreases k
  {
    if k > 0 {
      FirstPayload(lines[1..], k - 1);
      assert lines[1..][k..] == lines[k + 1..];
      assert [] + Payloads(lines[1..]) == Payloads(lines[1..]);
    }
  }

  /**
    A refusal after a payload, exactly. The responses that follow the first payload are appended to it, so the caller
    gets what the first ECU answered exactly if there is none, or truncation for a known PID cuts them off again.
   */
  lemma RefusalAfterPayloadExactly(
    service: byte, data: seq<byte>, lines: seq<ReplyLine>, k: nat, reply: string, tables: Tables)
    requires |data| + 1 >= SkipBytes(service) && IsReply(reply, lines, Repeated(service, data))
    requires Admissible(lines, CommandText(service, data), Repeated(service, data), false)
    requires k < |lines| && lines[k].PayloadLine? && forall i :: 0 <= i < k ==> !lines[i].PayloadLine?
    ensures
      var (first, later) := (lines[k].payload, Trailing(lines[k + 1..]));
      var r := DecodeReply(service, data, reply, tables);
      && r == Ok(Truncated(service, data, first + later, tables))
      && (r == Ok(Truncated(service, data, first, tables)) <==>
          later == [] || (service in {0x01, 0x02} && data != [] && tables.responseBytes(data[0]) <= |first|))
  {
    hide DecodeReply, IsReply, Admissible, SkipBytes, Truncated, Trailing, Payloads;
    RepliesDecode(service, data, lines, reply, tables);
    FirstPayload(lines, k);
    TruncatesAlike(service, data, lines[k].payload, Trailing(lines[k + 1..]), tables);
  }

  lemma TruncatesAlike(service: byte, data: seq<byte>, first: seq<byte>, later: seq<byte>, tables: Tables)
    ensures
      Truncated(service, data, first + later, tables) == Truncated(service, data, first, tables) <==>
      later == [] || (service in {0x01, 0x02} && data != [] && tables.responseBytes(data[0]) <= |first|)
  {
    var n := if service in {0x01, 0x02} && data != [] then tables.responseBytes(data[0]) else |first + later|;
    var (whole, alone) := (Truncated(service, data, first + later, tables), Truncated(service, data, first, tables));
    assert whole == (first + later)[..Min(|first + later|, n)] && alone == first[..Min(|first|, n)];
    if n <= |first| {
      assert (first + later)[..n] == first[..n];
    } else if later == [] {
      assert first + later == first;
    } else {
      assert |whole| > |first| >= |alone|;
    }
  }

  // ---- Inputs ----

  lemma ThreeByteText(a: byte, b: byte, c: byte)
    ensures RenderHex([a, b, c], false) == ByteText(a) + (ByteText(b) + ByteText(c))
  {
    hide ByteText;
    assert RenderHex([b, c], false) == ByteText(b) + "" + ByteText(c);
  }

  /** The usual reply: one response, a carriage return and the prompt. */
  function Usual(bytes: seq<byte>): string {
    RenderHex(bytes, false) + "\r>"
  }

  lemma PromptIsBlank()
    ensures Tokens(Clean(">")) == [] && OneLine(Blank(">"))
  {
    assert TrimPrompts(">") == TrimPrompts("");
  }

  lemma UsualIsReply(service: byte, data: seq<byte>, bytes: seq<byte>)
    requires |bytes| >= 3 && bytes[0] == 0x7F
    ensures NegativeReply(Usual(bytes), service, data, [], bytes, false, 0, [Blank(">")])
  {
    hide RenderHex, Clean, Tokens;
    PromptIsBlank();
    var lines := [] + [OtherLine(bytes, false, 0)] + [Blank(">")];
    assert lines == [OtherLine(bytes, false, 0), Blank(">")];
    var breaks: seq<char> := ['\r'];
    assert RenderHex(bytes, false) + seq(0, _ => '>') == RenderHex(bytes, false);
    assert Texts(lines, [])[1..] == [">"] && breaks[1..] == [];
    assert Join(Texts(lines, []), breaks) == Usual(bytes);
  }

  /** The negative response as it usually comes, spelled out. */
  lemma UsualNegative(service: byte, data: seq<byte>, bytes: seq<byte>, tables: Tables)
    requires |bytes| >= 3 && bytes[0] == 0x7F
    ensures
      DecodeReply(service, data, Usual(bytes), tables) ==
      if |data| + 1 < SkipBytes(service) then Ok(bytes)
      else if service == 0x3F then Ok(bytes[1..])
      else Verdict(bytes)
  {
    hide DecodeReply, RenderHex, Verdict, NegativeReply, SkipBytes;
    UsualIsReply(service, data, bytes);
    NegativeResponseExactly(service, data, [], bytes, false, 0, [Blank(">")], Usual(bytes), tables);
    BlankDigits([Blank(">")], [service] + data);
    assert bytes + [] == bytes;
  }

  /** A response in its usual form, the longer form of some ECUs among them, names its error. */
  lemma UsualNegativesAreNamed(tables: Tables)
    ensures Usual([0x7F, 0x22, 0x31]) == "7F2231\r>"
    ensures DecodeReply(0x22, [0xF1, 0x90], "7F2231\r>", tables) == Err(Error.NegativeResponse(0x22, 0x31))
    ensures DecodeReply(0x22, [0x16, 0x2F], Usual([0x7F, 0x22, 0x16, 0x2F, 0x12]), tables) ==
            Err(Error.NegativeResponse(0x22, 0x12))
  {
    hide DecodeReply, RenderHex;
    SpelledOut();
    UsualNegative(0x22, [0xF1, 0x90], [0x7F, 0x22, 0x31], tables);
    UsualNegative(0x22, [0x16, 0x2F], [0x7F, 0x22, 0x16, 0x2F, 0x12], tables);
  }

  /** The failing cases of a single line: service 0x3F, a request without its identifier, a code that is not known. */
  lemma NegativeResponsesLost(tables: Tables)
    ensures DecodeReply(0x3F, [], Usual([0x7F, 0x3F, 0x31]), tables) == Ok([0x3F, 0x31])
    ensures DecodeReply(0x22, [0xF1], Usual([0x7F, 0x22, 0x31]), tables) == Ok([0x7F, 0x22, 0x31])
    ensures DecodeReply(0x22, [0xF1, 0x90], Usual([0x7F, 0x22, 0x7F]), tables) == Err(ParseError)
  {
    hide DecodeReply, RenderHex;
    UsualNegative(0x3F, [], [0x7F, 0x3F, 0x31], tables);
    UsualNegative(0x22, [0xF1], [0x7F, 0x22, 0x31], tables);
    UsualNegative(0x22, [0xF1, 0x90], [0x7F, 0x22, 0x7F], tables);
  }

  /** A reply of two lines before the prompt. */
  function TwoLines(first: string, second: string): string {
    first + "\r" + (second + "\r>")
  }

  lemma TwoLinesAreReply(first: ReplyLine, second: ReplyLine, prefix: seq<byte>)
    requires OneLine(first) && OneLine(second)
    ensures IsReply(TwoLines(LineText(first, prefix), LineText(second, prefix)), [first, second, Blank(">")], prefix)
  {
    hide RenderHex, LineText;
    PromptIsBlank();
    BlankText(prefix);
    var lines := [first, second, Blank(">")];
    var breaks: seq<char> := ['\r', '\r'];
    var texts := Texts(lines, prefix);
    assert texts == [LineText(first, prefix), LineText(second, prefix), ">"];
    assert texts[1..][1..] == [">"] && breaks[1..] == ['\r'] && breaks[1..][1..] == [];
    assert Join(texts[1..], breaks[1..]) == LineText(second, prefix) + "\r>";
    assert Join(texts, breaks) == TwoLines(LineText(first, prefix), LineText(second, prefix));
  }

  lemma BlankText(prefix: seq<byte>)
    ensures LineText(Blank(">"), prefix) == ">"
  {
  }

  /** The text of an unspaced line. */
  lemma CompactText(bytes: seq<byte>, prefix: seq<byte>)
    ensures LineText(OtherLine(bytes, false, 0), prefix) == RenderHex(bytes, false)
  {
    hide RenderHex;
    assert RenderHex(bytes, false) + seq(0, _ => '>') == RenderHex(bytes, false);
  }

  lemma OwnEcho(service: byte, data: seq<byte>)
    ensures
      var text := CommandText(service, data);
      IsEcho(Clean(text), text) && OneLine(EchoLine(text)) && Squeeze(text) != ""
  {
    hide RenderHex, Clean, IsBreak;
    var text := CommandText(service, data);
    CleanKeepsRendering([service] + data, false, 0);
    assert text + seq(0, _ => '>') == text;
    CommandIsSqueezed([service] + data);
    RenderedStart([service] + data, false);
    CompactText([service] + data, []);
    forall i | 0 <= i < |text| ensures !IsBreak(text[i]) {
      TextsHaveNoBreaks([OtherLine([service] + data, false, 0)], [], 0, i);
    }
  }

  /** A search message in front: nothing is found in the response. */
  lemma NegativeAfterSearchIsLost(service: byte, data: seq<byte>, bytes: seq<byte>, tables: Tables)
    requires |data| + 1 >= SkipBytes(service) && service != 0x3F && service != 0x7F && |bytes| >= 3 && bytes[0] == 0x7F
    ensures DecodeReply(service, data, TwoLines("SEARCHING...", RenderHex(bytes, false)), tables) == Err(ParseError)
  {
    hide DecodeReply, RenderHex, IsEcho, Clean, SkipBytes, Tokens, CommandText, TwoLines, IsReply;
    var (line, reply) := (OtherLine(bytes, false, 0), TwoLines("SEARCHING...", RenderHex(bytes, false)));
    CompactText(bytes, []);
    TwoLinesAreReply(Searching, line, []);
    PromptIsBlank();
    assert [Searching] + [line] + [Blank(">")] == [Searching, line, Blank(">")];
    assert LineText(Searching, []) == "SEARCHING...";
    NegativeResponseExactly(service, data, [Searching], bytes, false, 0, [Blank(">")], reply, tables);
    assert ![Searching][0].Blank?;
  }

  /** So is one behind the echo of the command. */
  lemma NegativeAfterEchoIsLost(service: byte, data: seq<byte>, bytes: seq<byte>, tables: Tables)
    requires |data| + 1 >= SkipBytes(service) && service != 0x3F && service != 0x7F && |bytes| >= 3 && bytes[0] == 0x7F
    ensures
      var reply := TwoLines(CommandText(service, data), RenderHex(bytes, false));
      DecodeReply(service, data, reply, tables) == Err(ParseError)
  {
    hide DecodeReply, RenderHex, IsEcho, Clean, SkipBytes, Tokens, CommandText, TwoLines, IsReply;
    var (text, line) := (CommandText(service, data), OtherLine(bytes, false, 0));
    var reply := TwoLines(text, RenderHex(bytes, false));
    OwnEcho(service, data);
    CompactText(bytes, []);
    TwoLinesAreReply(EchoLine(text), line, []);
    assert [EchoLine(text)] + [line] + [Blank(">")] == [EchoLine(text), line, Blank(">")];
    EchoIsSilent(service, data);
    NegativeResponseExactly(service, data, [EchoLine(text)], bytes, false, 0, [Blank(">")], reply, tables);
    assert ![EchoLine(text)][0].Blank?;
  }

  lemma EchoIsSilent(service: byte, data: seq<byte>)
    ensures Silent([EchoLine(CommandText(service, data))], [service] + data) && Silent([Blank(">")], [service] + data)
  {
    hide RenderHex, IsEcho, Clean, Tokens;
    OwnEcho(service, data);
    PromptIsBlank();
  }

  /** An echo behind the response is searched for known codes, too. */
  lemma EchoAfterNegativeIsSearched(service: byte, data: seq<byte>, bytes: seq<byte>, tables: Tables)
    requires |data| + 1 >= SkipBytes(service) && service != 0x3F && |bytes| >= 3 && bytes[0] == 0x7F
    ensures
      var reply := TwoLines(RenderHex(bytes, false), CommandText(service, data));
      DecodeReply(service, data, reply, tables) == Verdict(bytes + ([service] + data))
  {
    hide DecodeReply, RenderHex, IsEcho, Clean, SkipBytes, Tokens, CommandText, TwoLines, IsReply, Answerless, Verdict;
    var (text, request) := (CommandText(service, data), [service] + data);
    var (line, echo, end) := (OtherLine(bytes, false, 0), EchoLine(text), [Blank(">")]);
    OwnEcho(service, data);
    CompactText(bytes, []);
    TwoLinesAreReply(line, echo, []);
    assert [] + [line] + [echo, end[0]] == [line, echo, end[0]];
    EchoIsSilent(service, data);
    SilentTogether([echo], end, request);
    assert [echo] + end == [echo, end[0]];
    NegativeResponseExactly(
      service, data, [], bytes, false, 0, [echo] + end, TwoLines(RenderHex(bytes, false), text), tables);
    EchoHeard(service, data, text);
  }

  lemma SilentTogether(front: seq<ReplyLine>, back: seq<ReplyLine>, request: seq<byte>)
    requires Silent(front, request) && Silent(back, request)
    ensures Silent(front + back, request) && Silent([], request)
  {
    hide RenderHex, IsEcho, Clean, Tokens;
  }

  lemma EchoHeard(service: byte, data: seq<byte>, raw: string)
    ensures Heard([EchoLine(raw)] + [Blank(">")], [service] + data) == [service] + data
  {
    hide Nibbles, Paired;
    var request := [service] + data;
    var lines := [EchoLine(raw)] + [Blank(">")];
    assert lines[1..] == [Blank(">")] && lines[1..][1..] == [];
    BlankDigits(lines[1..], request);
    PairedBytes(request, []);
    assert DigitsOf(lines, request) == LineDigits(lines[0], request) + [];
    NothingPaired();
    assert request + [] == request;
  }

  lemma NothingPaired()
    ensures Paired([]) == []
  {
  }

  lemma OtherIsAdmissible(service: byte, data: seq<byte>, bytes: seq<byte>, rest: seq<ReplyLine>, matched: bool)
    requires |data| + 1 >= SkipBytes(service) && service != 0x3F && service != 0x7F && |bytes| >= 3 && bytes[0] == 0x7F
    ensures Admissible([Blank(">")], CommandText(service, data), Repeated(service, data), matched)
    ensures Admissible(rest, CommandText(service, data), Repeated(service, data), matched) ==>
      Admissible([OtherLine(bytes, false, 0)] + rest, CommandText(service, data), Repeated(service, data), matched)
  {
    hide RenderHex, IsEcho, Clean, Tokens, CommandText;
    PromptIsBlank();
    if IsEcho(RenderHex(bytes, false), CommandText(service, data)) {
      EchoIsRequest(service, data, bytes, false);
    }
    assert Repeated(service, data)[0] == (service as int + 0x40) % 0x100;
    assert ([OtherLine(bytes, false, 0)] + rest)[1..] == rest;
  }

  /** Two refusals: the last known code in either. */
  lemma SecondRefusalIsSearched(service: byte, data: seq<byte>, first: seq<byte>, second: seq<byte>, tables: Tables)
    requires |data| + 1 >= SkipBytes(service) && service != 0x3F && service != 0x7F
    requires |first| >= 3 && first[0] == 0x7F && |second| >= 3 && second[0] == 0x7F
    ensures
      var reply := TwoLines(RenderHex(first, false), RenderHex(second, false));
      DecodeReply(service, data, reply, tables) == Verdict(first + second)
  {
    hide DecodeReply, RenderHex, SkipBytes, CommandText, Admissible, TwoLines, IsReply, Verdict, Repeated;
    var prefix := Repeated(service, data);
    var (line, next, end) := (OtherLine(first, false, 0), OtherLine(second, false, 0), [Blank(">")]);
    CompactText(first, prefix);
    CompactText(second, prefix);
    TwoLinesAreReply(line, next, prefix);
    OtherIsAdmissible(service, data, second, end, false);
    OtherIsAdmissible(service, data, first, [next] + end, false);
    assert [line] + ([next] + end) == [line, next, end[0]];
    SeveralNegativesReportLast(
      service, data, [line, next, end[0]], TwoLines(RenderHex(first, false), RenderHex(second, false)), tables);
    TwoTrail(line, next);
  }

  lemma TwoTrail(line: ReplyLine, next: ReplyLine)
    requires line.OtherLine? && next.OtherLine?
    ensures Trailing([line, next, Blank(">")]) == line.bytes + next.bytes && Trailing([next, Blank(">")]) == next.bytes
  {
    var end := [Blank(">")];
    assert [line, next, end[0]][1..] == [next, end[0]] && [next, end[0]][1..] == end && end[1..] == [];
    assert Trailing(end) == [] + [] == [] && Trailing([next, end[0]]) == next.bytes + [] == next.bytes;
  }

  /** A refusal behind a payload is appended to it, for services whose payloads are not truncated. */
  lemma RefusalJoinsPayload(service: byte, data: seq<byte>, payload: seq<byte>, bytes: seq<byte>, tables: Tables)
    requires |data| + 1 >= SkipBytes(service) && service != 0x3F && service != 0x7F && service !in {0x01, 0x02}
    requires payload != [] && |bytes| >= 3 && bytes[0] == 0x7F
    ensures
      var reply := TwoLines(RenderHex(Repeated(service, data) + payload, false), RenderHex(bytes, false));
      DecodeReply(service, data, reply, tables) == Ok(payload + bytes)
  {
    hide DecodeReply, RenderHex, SkipBytes, CommandText, Admissible, TwoLines, IsReply, Repeated, Trailing;
    var prefix := Repeated(service, data);
    var (line, next, end) := (PayloadLine(payload, false, 0), OtherLine(bytes, false, 0), [Blank(">")]);
    CompactText(prefix + payload, prefix);
    CompactText(bytes, prefix);
    TwoLinesAreReply(line, next, prefix);
    OtherIsAdmissible(service, data, bytes, end, true);
    var lines := [line, next, end[0]];
    assert lines[1..] == [next] + end == [next, end[0]];
    PayloadIsAdmissible(lines, CommandText(service, data), prefix);
    RefusalAfterPayloadExactly(
      service, data, lines, 0, TwoLines(RenderHex(prefix + payload, false), RenderHex(bytes, false)), tables);
    TwoTrail(next, next);
  }

  lemma PayloadIsAdmissible(lines: seq<ReplyLine>, command: string, prefix: seq<byte>)
    requires lines != [] && lines[0].PayloadLine? && lines[0].payload != []
    ensures Admissible(lines, command, prefix, false) <==> Admissible(lines[1..], command, prefix, true)
  {
  }

  /**
    A known code, 0x31, in a reply of two lines, lost or replaced: a search message first, an echo first, an echo
    after it, whose first byte happens to be a known code, a second refusal, and a payload of another ECU first.
   */
  lemma NegativesLostAmongLines(tables: Tables)
    ensures
      var (data, bytes) := ([0xF1, 0x90], [0x7F, 0x22, 0x31]);
      var (line, echo) := (RenderHex(bytes, false), CommandText(0x22, data));
      && DecodeReply(0x22, data, TwoLines("SEARCHING...", line), tables) == Err(ParseError)
      && DecodeReply(0x22, data, TwoLines(echo, line), tables) == Err(ParseError)
      && DecodeReply(0x22, data, TwoLines(line, echo), tables) == Err(Error.NegativeResponse(0x22, 0x22))
      && DecodeReply(0x22, data, TwoLines(line, RenderHex([0x7F, 0x22, 0x78], false)), tables) ==
         Err(Error.NegativeResponse(0x22, 0x78))
      && DecodeReply(0x22, data, TwoLines(RenderHex([0x62, 0xF1, 0x90, 0xAA], false), line), tables) ==
         Ok([0xAA, 0x7F, 0x22, 0x31])
  {
    hide DecodeReply, RenderHex, TwoLines, CommandText;
    var data, bytes: seq<byte> := [0xF1, 0x90], [0x7F, 0x22, 0x31];
    var second, other: seq<byte> := [0x7F, 0x22, 0x78], [0xAA];
    NegativeAfterSearchIsLost(0x22, data, bytes, tables);
    NegativeAfterEchoIsLost(0x22, data, bytes, tables);
    EchoAfterNegativeIsSearched(0x22, data, bytes, tables);
    var searched: seq<byte> := [0x7F, 0x22, 0x31, 0x22, 0xF1, 0x90];
    assert bytes + ([0x22] + data) == searched;
    assert searched[..5][..4] == [0x7F, 0x22, 0x31, 0x22] && LastNrc(searched[..5], 2) == Some(0x22);
    SecondRefusalIsSearched(0x22, data, bytes, second, tables);
    assert bytes + second == [0x7F, 0x22, 0x31, 0x7F, 0x22, 0x78];
    RefusalJoinsPayload(0x22, data, other, bytes, tables);
    assert Repeated(0x22, data) + other == [0x62, 0xF1, 0x90, 0xAA];
    assert other + bytes == [0xAA, 0x7F, 0x22, 0x31];
  }

  /** The texts of these replies. */
  lemma TextsSpelledOut()
    ensures TwoLines("SEARCHING...", RenderHex([0x7F, 0x22, 0x31], false)) == "SEARCHING...\r7F2231\r>"
    ensures TwoLines(CommandText(0x22, [0xF1, 0x90]), RenderHex([0x7F, 0x22, 0x31], false)) == "22F190\r7F2231\r>"
  {
    hide RenderHex;
    SpelledOut();
    assert [0x22] + [0xF1, 0x90] == [0x22, 0xF1, 0x90];
  }

  lemma SpelledOut()
    ensures RenderHex([0x7F, 0x22, 0x31], false) == "7F2231" && RenderHex([0x22, 0xF1, 0x90], false) == "22F190"
  {
    hide RenderHex, ByteText;
    ThreeByteText(0x7F, 0x22, 0x31);
    ThreeByteText(0x22, 0xF1, 0x90);
    ByteTexts();
  }

  lemma ByteTexts()
    ensures ByteText(0x7F) == "7F" && ByteText(0x22) == "22" && ByteText(0x31) == "31"
    ensures ByteText(0xF1) == "F1" && ByteText(0x90) == "90"
  {
  }
}
