/** Decoding of ELM327 replies from several ECUs (`adapter/elm_codec.rs`). */
module ElmCodec {
  import opened Basics
  import opened Hex

  // ---- Lines ----

  predicate IsBreak(c: char) {
    c == '\r' || c == '\n'
  }

  function LineLength(s: string): (n: nat)
    ensures n <= |s| && (forall i :: 0 <= i < n ==> !IsBreak(s[i])) && (n < |s| ==> IsBreak(s[n]))
  {
    if s == "" || IsBreak(s[0]) then 0 else LineLength(s[1..]) + 1
  }

  /** `response.split(['\r', '\n'])`. */
  function SplitLines(response: string): (lines: seq<string>)
    ensures lines != []
    decreases |response|
  {
    var n := LineLength(response);
    if n == |response| then [response] else [response[..n]] + SplitLines(response[n + 1..])
  }

  function TrimStart(s: string): string {
    if s != "" && IsSpace(s[0]) then TrimStart(s[1..]) else s
  }

  function TrimEnd(s: string): string {
    if s != "" && IsSpace(s[|s| - 1]) then TrimEnd(s[..|s| - 1]) else s
  }

  function TrimPrompts(s: string): string {
    if s != "" && s[|s| - 1] == '>' then TrimPrompts(s[..|s| - 1]) else s
  }

  /** `raw_line.trim().trim_end_matches('>')`. */
  function Clean(raw: string): string {
    TrimPrompts(TrimEnd(TrimStart(raw)))
  }

  function Lower(c: char): char {
    if 'A' <= c <= 'Z' then (c as int + 32) as char else c
  }

  predicate SameIgnoringCase(a: string, b: string) {
    |a| == |b| && forall i :: 0 <= i < |a| ==> Lower(a[i]) == Lower(b[i])
  }

  /** A line that repeats the command, up to ASCII white space and case. */
  predicate IsEcho(line: string, command: string) {
    Squeeze(line) != "" && SameIgnoringCase(Squeeze(line), Squeeze(command))
  }

  lemma SqueezesNext(line: string, i: nat)
    requires i <= |line|
    ensures i == |line| ==> Squeeze(line[i..]) == ""
    ensures i < |line| ==>
      Squeeze(line[i..]) ==
      if IsAsciiSpace(line[i]) then Squeeze(line[i + 1..]) else [line[i]] + Squeeze(line[i + 1..])
  {
    if i < |line| {
      assert line[i..][1..] == line[i + 1..];
      assert "" + Squeeze(line[i + 1..]) == Squeeze(line[i + 1..]);
    }
  }

  /** `line_matches_command_echo`. */
  method LineMatchesCommandEcho(line: string, command: string) returns (matches: bool)
    ensures matches == IsEcho(line, command)
  {
    hide Squeeze, Lower, IsAsciiSpace;
    var expected := Squeeze(command);
    var next := 0;
    assert line[0..] == line;
    SqueezesNext(line, |line|);
    for i := 0 to |line|
      invariant next <= |expected| && next + |Squeeze(line[i..])| == |Squeeze(line)|
      invariant Squeeze(line)[next..] == Squeeze(line[i..])
      invariant forall k :: 0 <= k < next ==> Lower(Squeeze(line)[k]) == Lower(expected[k])
    {
      SqueezesNext(line, i);
      if IsAsciiSpace(line[i]) {
        continue;
      }
      assert Squeeze(line)[next] == line[i];
      if next == |expected| || Lower(line[i]) != Lower(expected[next]) {
        return false;
      }
      assert Squeeze(line)[next + 1..] == Squeeze(line)[next..][1..];
      next := next + 1;
    }
    return next > 0 && next == |expected|;
  }

  /** `is_status_noise_line`. */
  predicate IsStatusNoise(line: string) {
    line == "NO DATA" || line == "STOPPED" || line == "BUS BUSY"
  }

  // ---- Decoding ----

  /** `expected_response_prefix`. */
  function ExpectedPrefix(command: string, skip: nat): (p: Option<seq<byte>>)
    ensures p.Some? ==> skip > 0 && |p.value| == skip
    ensures
      var request := HexPairs(Squeeze(command));
      && (p.Some? <==> skip > 0 && request.Ok? && |request.value| >= skip)
      && (p.Some? ==> forall i :: 0 <= i < skip ==>
            p.value[i] == if i == 0 then (request.value[0] as int + 0x40) % 0x100 else request.value[i])
  {
    var request := HexPairs(Squeeze(command));
    if skip == 0 || request.Err? || |request.value| < skip then None
    else Some([(request.value[0] as int + 0x40) % 0x100] + request.value[1..skip])
  }

  predicate IsLikelyResponseService(service: byte) {
    service in {0x41, 0x42, 0x43, 0x44, 0x45, 0x46, 0x47, 0x49, 0x4A, 0x61, 0x62, 0x7F}
  }

  /** `should_treat_as_headers_off`. */
  predicate TreatAsHeadersOff(bytes: seq<byte>, skip: nat, prefix: Option<seq<byte>>) {
    (prefix.Some? && prefix.value <= bytes) || (skip > 0 && bytes != [] && IsLikelyResponseService(bytes[0]))
  }

  /**
    `decode_line`. `headersOn` stands for what the bus family makes of a line that is
    not recognised as sent with headers off.
   */
  function DecodeLine(
    line: string, skip: nat, prefix: Option<seq<byte>>, headersOn: string -> Result<seq<byte>>): Result<seq<byte>>
  {
    var bytes := ParseHexLine(line);
    if bytes.Ok? && TreatAsHeadersOff(bytes.value, skip, prefix) then bytes else headersOn(line)
  }

  /** The line is skipped: nothing in it, a search message, an echo, or noise after a match. */
  predicate Ignored(line: string, prefix: Option<seq<byte>>, echo: Option<string>, matched: bool) {
    || line == "" || line == "SEARCHING..."
    || (echo.Some? && IsEcho(line, echo.value))
    || Tokens(line) == []
    || (matched && prefix.Some? && IsStatusNoise(line))
  }

  /** The decoder's loop over the remaining lines. */
  function Decode(
    lines: seq<string>, skip: nat, prefix: Option<seq<byte>>, echo: Option<string>,
    headersOn: string -> Result<seq<byte>>,
    matched: bool, payloads: seq<seq<byte>>, current: seq<byte>): (r: Result<seq<seq<byte>>>)
    ensures r.Ok? ==> r.value != []
  {
    if lines == [] then
      var all := if current != [] then payloads + [current] else payloads;
      if all == [] then Err(ParseError) else Ok(all)
    else
      var (line, rest) := (Clean(lines[0]), lines[1..]);
      if Ignored(line, prefix, echo, matched) then
        Decode(rest, skip, prefix, echo, headersOn, matched, payloads, current)
      else
        var decoded := DecodeLine(line, skip, prefix, headersOn);
        if decoded.Err? then Err(decoded.error)
        else if prefix.None? then
          Decode(rest, skip, prefix, echo, headersOn, matched, payloads, current + decoded.value)
        else if prefix.value <= decoded.value then
          var done := matched && current != [];
          Decode(rest, skip, prefix, echo, headersOn, true,
                 if done then payloads + [current] else payloads,
                 (if done then [] else current) + decoded.value[|prefix.value|..])
        else
          Decode(rest, skip, prefix, echo, headersOn, matched, payloads,
                 if matched then current + decoded.value else current)
  }

  /** `decode_elm_response_payloads_for_command` as a function of the response. */
  function DecodeResponse(response: string, skip: nat, echo: Option<string>, headersOn: string -> Result<seq<byte>>):
    Result<seq<seq<byte>>>
  {
    var prefix := if echo.Some? then ExpectedPrefix(echo.value, skip) else None;
    Decode(SplitLines(response), skip, prefix, echo, headersOn, prefix.None?, [], [])
  }

  /** `decode_elm_response_payload_for_command`: the first payload, less `skip` bytes if no prefix was asked for. */
  function DecodeFirst(
    response: string, skip: nat, echo: Option<string>, headersOn: string -> Result<seq<byte>>): Result<seq<byte>>
  {
    var payloads := DecodeResponse(response, skip, echo, headersOn);
    if payloads.Err? then Err(payloads.error)
    else
      var first := payloads.value[0];
      if echo.Some? && skip > 0 then Ok(first) else Ok(if skip >= |first| then [] else first[skip..])
  }

  method DecodePayloadsForCommand(
    response: string, skip: nat, echo: Option<string>, headersOn: string -> Result<seq<byte>>)
    returns (r: Result<seq<seq<byte>>>)
    ensures r == DecodeResponse(response, skip, echo, headersOn)
  {
    var prefix := if echo.Some? then ExpectedPrefix(echo.value, skip) else None;
    var matched := prefix.None?;
    var payloads: seq<seq<byte>> := [];
    var current: seq<byte> := [];
    var lines := SplitLines(response);
    assert lines[0..] == lines;
    for i := 0 to |lines|
      invariant Decode(lines, skip, prefix, echo, headersOn, prefix.None?, [], []) ==
                Decode(lines[i..], skip, prefix, echo, headersOn, matched, payloads, current)
    {
      hide Clean, IsEcho, DecodeLine, IsStatusNoise, Tokens;
      assert lines[i..][1..] == lines[i + 1..];
      var line := Clean(lines[i]);
      if line == "" || line == "SEARCHING..." {
        continue;
      }
      if echo.Some? {
        var echoes := LineMatchesCommandEcho(line, echo.value);
        if echoes {
          continue;
        }
      }
      if Tokens(line) == [] {
        continue;
      }
      if matched && prefix.Some? && IsStatusNoise(line) {
        continue;
      }
      var decoded := DecodeLine(line, skip, prefix, headersOn);
      if decoded.Err? {
        return Err(decoded.error);
      }
      if prefix.Some? {
        if prefix.value <= decoded.value {
          if matched && current != [] {
            payloads := payloads + [current];
            current := [];
          }
          current := current + decoded.value[|prefix.value|..];
          matched := true;
        } else if matched {
          current := current + decoded.value;
        }
      } else {
        current := current + decoded.value;
      }
    }
    if current != [] {
      payloads := payloads + [current];
    }
    if payloads == [] {
      return Err(ParseError);
    }
    return Ok(payloads);
  }

  // ---- Rendering of a multi-ECU reply ----

  /**
    A line of a reply: a response to the command, another response (a negative one, say), nothing, a search message,
    an echo, or status noise.
   */
  datatype ReplyLine =
    | PayloadLine(payload: seq<byte>, spaced: bool, prompts: nat)
    | OtherLine(bytes: seq<byte>, spaced: bool, prompts: nat)
    | Blank(raw: string)
    | Searching
    | EchoLine(raw: string)
    | Status(raw: string)

  /** The text of a line, for a command whose responses start with `prefix`. */
  function LineText(line: ReplyLine, prefix: seq<byte>): string {
    match line
    case PayloadLine(payload, spaced, prompts) => RenderHex(prefix + payload, spaced) + seq(prompts, _ => '>')
    case OtherLine(bytes, spaced, prompts) => RenderHex(bytes, spaced) + seq(prompts, _ => '>')
    case Blank(raw) => raw
    case Searching => "SEARCHING..."
    case EchoLine(raw) => raw
    case Status(raw) => raw
  }

  function Texts(lines: seq<ReplyLine>, prefix: seq<byte>): (texts: seq<string>)
    ensures |texts| == |lines|
  {
    seq(|lines|, i requires 0 <= i < |lines| => LineText(lines[i], prefix))
  }

  /** The bytes of the other responses up to the next response to the command. */
  function Trailing(lines: seq<ReplyLine>): seq<byte> {
    if lines == [] || lines[0].PayloadLine? then []
    else (if lines[0].OtherLine? then lines[0].bytes else []) + Trailing(lines[1..])
  }

  /** The payloads of a reply: each takes in the other responses that follow it, which read as its continuation. */
  function Payloads(lines: seq<ReplyLine>): seq<seq<byte>> {
    if lines == [] then []
    else (if lines[0].PayloadLine? then [lines[0].payload + Trailing(lines[1..])] else []) + Payloads(lines[1..])
  }

  /** Each line is what its kind says; status noise comes only after a payload. */
  ghost predicate Admissible(lines: seq<ReplyLine>, command: string, prefix: seq<byte>, matched: bool) {
    lines == [] || (
      && (match lines[0]
          case PayloadLine(payload, _, _) => payload != []
          case OtherLine(bytes, spaced, _) =>
            && bytes != [] && IsLikelyResponseService(bytes[0]) && !(prefix <= bytes)
            && !IsEcho(RenderHex(bytes, spaced), command)
          case Blank(raw) => Tokens(Clean(raw)) == []
          case Searching => true
          case EchoLine(raw) => IsEcho(Clean(raw), command)
          case Status(raw) => matched && IsStatusNoise(Clean(raw)))
      && Admissible(lines[1..], command, prefix, matched || lines[0].PayloadLine?))
  }

  lemma {:induction false} TrimsPrompts(s: string, n: nat)
    requires s != "" && s[|s| - 1] != '>'
    ensures TrimPrompts(s + seq(n, _ => '>')) == s
  {
    var text := s + seq(n, _ => '>');
    if n == 0 {
      assert text == s;
    } else {
      assert text[..|text| - 1] == s + seq(n - 1, _ => '>');
      TrimsPrompts(s, n - 1);
    }
  }

  lemma CleanKeepsRendering(bytes: seq<byte>, spaced: bool, prompts: nat)
    requires bytes != []
    ensures Clean(RenderHex(bytes, spaced) + seq(prompts, _ => '>')) == RenderHex(bytes, spaced)
  {
    RenderedStart(bytes, spaced);
    RenderedEnd(bytes, spaced);
    assert RenderHex(bytes, spaced)[0] == RenderHex(bytes, spaced)[..2][0] == ByteText(bytes[0])[0];
    PromptsOnly(RenderHex(bytes, spaced), prompts);
  }

  /** Only the prompts go from a text that begins and ends neither with white space nor with a prompt. */
  lemma PromptsOnly(s: string, n: nat)
    requires s != "" && !IsSpace(s[0]) && !IsSpace(s[|s| - 1]) && s[|s| - 1] != '>'
    ensures Clean(s + seq(n, _ => '>')) == s
  {
    var text := s + seq(n, _ => '>');
    assert text[0] == s[0] && TrimStart(text) == text;
    assert !IsSpace(text[|text| - 1]);
    TrimsPrompts(s, n);
  }

  lemma LowerKeepsNibble(c: char, d: char)
    requires Lower(c) == Lower(d)
    ensures HexNibble(c) == HexNibble(d)
  {
  }

  lemma PairsStart(text: string)
    requires HexPairs(text).Ok? && HexPairs(text).value != []
    ensures
      && |text| >= 2 && HexNibble(text[0]).Some? && HexNibble(text[1]).Some?
      && HexPairs(text).value[0] == 16 * HexNibble(text[0]).value + HexNibble(text[1]).value
  {
    hide HexNibble;
  }

  lemma StartsWithByte(bytes: seq<byte>, spaced: bool)
    requires bytes != []
    ensures
      var text := Squeeze(RenderHex(bytes, spaced));
      && |text| >= 2 && HexNibble(text[0]) == Some(bytes[0] / 16) && HexNibble(text[1]) == Some(bytes[0] % 16)
  {
    hide RenderHex, HexNibble, Squeeze;
    RenderedStart(bytes, spaced);
    var text := Squeeze(RenderHex(bytes, spaced));
    assert text[0] == text[..2][0] == Digit(bytes[0] / 16) && text[1] == text[..2][1] == Digit(bytes[0] % 16);
  }

  /** A response never reads as an echo: its first byte is not the request's. */
  lemma RenderingIsNoEcho(command: string, skip: nat, payload: seq<byte>, spaced: bool)
    requires ExpectedPrefix(command, skip).Some?
    ensures !IsEcho(RenderHex(ExpectedPrefix(command, skip).value + payload, spaced), command)
  {
    hide RenderHex, HexNibble, Lower, Squeeze, ByteText;
    var bytes := ExpectedPrefix(command, skip).value + payload;
    var (text, asked) := (Squeeze(RenderHex(bytes, spaced)), Squeeze(command));
    PairsStart(asked);
    StartsWithByte(bytes, spaced);
    if SameIgnoringCase(text, asked) {
      LowerKeepsNibble(text[0], asked[0]);
      LowerKeepsNibble(text[1], asked[1]);
    }
  }

  /** A rendered payload line is decoded as the prefix and the payload. */
  lemma RenderingDecodes(
    command: string, skip: nat, payload: seq<byte>, spaced: bool, prompts: nat, matched: bool,
    headersOn: string -> Result<seq<byte>>)
    requires ExpectedPrefix(command, skip).Some?
    ensures
      var prefix := ExpectedPrefix(command, skip);
      var line := Clean(LineText(PayloadLine(payload, spaced, prompts), prefix.value));
      && !Ignored(line, prefix, Some(command), matched)
      && DecodeLine(line, skip, prefix, headersOn) == Ok(prefix.value + payload)
  {
    var prefix := ExpectedPrefix(command, skip).value;
    CleanKeepsRendering(prefix + payload, spaced, prompts);
    ParsesRendered(prefix + payload, spaced);
    RenderingIsNoEcho(command, skip, payload, spaced);
    RenderingIsNoMessage(prefix + payload, spaced);
  }

  lemma RenderingIsNoMessage(bytes: seq<byte>, spaced: bool)
    requires bytes != []
    ensures
      var text := RenderHex(bytes, spaced);
      text != "" && text != "SEARCHING..." && !IsStatusNoise(text) && Tokens(text) != []
  {
    RenderedStart(bytes, spaced);
    hide RenderHex, Tokens, IsStatusNoise, Squeeze, HexNibble;
    var text := RenderHex(bytes, spaced);
    assert text[0] == text[..2][0] == Digit(bytes[0] / 16) && text[1] == text[..2][1] == Digit(bytes[0] % 16);
    TwoDigitsAreNoMessage(text);
  }

  lemma TwoDigitsAreNoMessage(text: string)
    requires |text| >= 2 && HexNibble(text[0]).Some? && HexNibble(text[1]).Some? && !IsSpace(text[0])
    ensures text != "SEARCHING..." && !IsStatusNoise(text) && Tokens(text) != []
  {
    assert HexNibble('S').None? && HexNibble('N').None? && HexNibble('U').None?;
    assert "BUS BUSY"[1] == 'U' && "NO DATA"[0] == 'N' && "STOPPED"[0] == 'S' && "SEARCHING..."[0] == 'S';
  }

  lemma QuietLineIgnored(line: ReplyLine, command: string, prefix: Option<seq<byte>>, matched: bool)
    requires prefix.Some? && !line.PayloadLine? && !line.OtherLine?
    requires Admissible([line], command, prefix.value, matched)
    ensures Ignored(Clean(LineText(line, prefix.value)), prefix, Some(command), matched)
  {
    if line.Searching? {
      SearchingIsClean();
    }
  }

  lemma SearchingIsClean()
    ensures Clean("SEARCHING...") == "SEARCHING..."
  {
    var text := "SEARCHING...";
    assert text[0] == 'S' && text[|text| - 1] == '.';
  }

  /** A line that holds a response: the payload in progress is complete, and this one begins. */
  lemma DecodesPayload(
    line: ReplyLine, rest: seq<ReplyLine>, command: string, skip: nat, headersOn: string -> Result<seq<byte>>,
    matched: bool, payloads: seq<seq<byte>>, current: seq<byte>)
    requires ExpectedPrefix(command, skip).Some? && line.PayloadLine? && (matched <==> current != [])
    ensures
      var prefix := ExpectedPrefix(command, skip);
      Decode(Texts([line] + rest, prefix.value), skip, prefix, Some(command), headersOn, matched, payloads, current) ==
      Decode(Texts(rest, prefix.value), skip, prefix, Some(command), headersOn, true,
             if matched then payloads + [current] else payloads, line.payload)
  {
    hide Clean, Ignored, DecodeLine, LineText, ExpectedPrefix;
    var prefix := ExpectedPrefix(command, skip);
    RenderingDecodes(command, skip, line.payload, line.spaced, line.prompts, matched, headersOn);
    assert line == PayloadLine(line.payload, line.spaced, line.prompts);
    assert Texts([line] + rest, prefix.value)[0] == LineText(line, prefix.value);
    assert Texts([line] + rest, prefix.value)[1..] == Texts(rest, prefix.value);
    assert (prefix.value + line.payload)[|prefix.value|..] == line.payload;
    assert [] + line.payload == line.payload;
  }

  lemma SkipsQuietLine(
    line: ReplyLine, rest: seq<ReplyLine>, command: string, skip: nat, headersOn: string -> Result<seq<byte>>,
    matched: bool, payloads: seq<seq<byte>>, current: seq<byte>)
    requires ExpectedPrefix(command, skip).Some? && !line.PayloadLine? && !line.OtherLine?
    requires Admissible([line] + rest, command, ExpectedPrefix(command, skip).value, matched)
    ensures
      var prefix := ExpectedPrefix(command, skip);
      Decode(Texts([line] + rest, prefix.value), skip, prefix, Some(command), headersOn, matched, payloads, current) ==
      Decode(Texts(rest, prefix.value), skip, prefix, Some(command), headersOn, matched, payloads, current)
  {
    hide Clean, Ignored, DecodeLine, LineText, ExpectedPrefix;
    var prefix := ExpectedPrefix(command, skip);
    QuietLineIgnored(line, command, prefix, matched);
    assert Texts([line] + rest, prefix.value)[0] == LineText(line, prefix.value);
    assert Texts([line] + rest, prefix.value)[1..] == Texts(rest, prefix.value);
  }

  /** Another response: a continuation of the payload in progress if there is one, and nothing otherwise. */
  lemma DecodesOther(
    line: ReplyLine, rest: seq<ReplyLine>, command: string, skip: nat, headersOn: string -> Result<seq<byte>>,
    matched: bool, payloads: seq<seq<byte>>, current: seq<byte>)
    requires ExpectedPrefix(command, skip).Some? && line.OtherLine?
    requires Admissible([line] + rest, command, ExpectedPrefix(command, skip).value, matched)
    ensures
      var prefix := ExpectedPrefix(command, skip);
      Decode(Texts([line] + rest, prefix.value), skip, prefix, Some(command), headersOn, matched, payloads, current) ==
      Decode(Texts(rest, prefix.value), skip, prefix, Some(command), headersOn, matched, payloads,
             if matched then current + line.bytes else current)
  {
    hide Clean, Ignored, DecodeLine, LineText, ExpectedPrefix;
    var prefix := ExpectedPrefix(command, skip);
    OtherDecodes(line, command, skip, prefix, matched, headersOn);
    assert Texts([line] + rest, prefix.value)[0] == LineText(line, prefix.value);
    assert Texts([line] + rest, prefix.value)[1..] == Texts(rest, prefix.value);
  }

  lemma OtherDecodes(
    line: ReplyLine, command: string, skip: nat, prefix: Option<seq<byte>>, matched: bool,
    headersOn: string -> Result<seq<byte>>)
    requires line.OtherLine? && line.bytes != [] && skip > 0 && IsLikelyResponseService(line.bytes[0])
    requires !IsEcho(RenderHex(line.bytes, line.spaced), command)
    ensures
      var text := Clean(LineText(line, if prefix.Some? then prefix.value else []));
      !Ignored(text, prefix, Some(command), matched) && DecodeLine(text, skip, prefix, headersOn) == Ok(line.bytes)
  {
    hide Clean, IsEcho, IsStatusNoise, Tokens, RenderHex;
    CleanKeepsRendering(line.bytes, line.spaced, line.prompts);
    ParsesRendered(line.bytes, line.spaced);
    RenderingIsNoMessage(line.bytes, line.spaced);
  }

  /** What the first line adds. */
  lemma FirstLineOf(line: ReplyLine, rest: seq<ReplyLine>, command: string, prefix: seq<byte>, matched: bool)
    requires Admissible([line] + rest, command, prefix, matched)
    ensures Admissible(rest, command, prefix, matched || line.PayloadLine?)
    ensures line.PayloadLine? ==> line.payload != []
    ensures Payloads([line] + rest) ==
            if line.PayloadLine? then [line.payload + Trailing(rest)] + Payloads(rest) else Payloads(rest)
    ensures Trailing([line] + rest) ==
            if line.PayloadLine? then [] else if line.OtherLine? then line.bytes + Trailing(rest) else Trailing(rest)
  {
    assert ([line] + rest)[1..] == rest;
    assert [] + Payloads(rest) == Payloads(rest) && [] + Trailing(rest) == Trailing(rest);
  }

  lemma CountsOn<T>(done: seq<T>, matched: bool, current: T, next: T, later: seq<T>)
    ensures (if matched then done + [current] else done) + [next] + later ==
            done + (if matched then [current] else []) + ([next] + later)
  {
  }

  lemma DecodesNothing(
    command: string, skip: nat, headersOn: string -> Result<seq<byte>>,
    matched: bool, payloads: seq<seq<byte>>, current: seq<byte>)
    requires ExpectedPrefix(command, skip).Some? && (matched <==> current != []) && (!matched ==> payloads == [])
    ensures
      var (prefix, all) := (ExpectedPrefix(command, skip), Gathered(payloads, matched, current, []));
      Decode(Texts([], prefix.value), skip, prefix, Some(command), headersOn, matched, payloads, current) ==
      if all == [] then Err(ParseError) else Ok(all)
  {
    hide ExpectedPrefix;
    assert current + [] == current;
    assert payloads + [current] + [] == payloads + [current] && payloads + [] + [] == payloads;
  }

  /** The payloads completed, the one in progress with what follows it, and those to come. */
  function Gathered(payloads: seq<seq<byte>>, matched: bool, current: seq<byte>, lines: seq<ReplyLine>)
    : seq<seq<byte>>
  {
    payloads + (if matched then [current + Trailing(lines)] else []) + Payloads(lines)
  }

  /** How one line moves what is gathered. */
  lemma GathersOn(
    line: ReplyLine, rest: seq<ReplyLine>, payloads: seq<seq<byte>>, matched: bool, current: seq<byte>,
    command: string, prefix: seq<byte>)
    requires Admissible([line] + rest, command, prefix, matched)
    ensures
      Gathered(payloads, matched, current, [line] + rest) ==
      if line.PayloadLine? then Gathered(if matched then payloads + [current] else payloads, true, line.payload, rest)
      else if line.OtherLine? && matched then Gathered(payloads, true, current + line.bytes, rest)
      else Gathered(payloads, matched, current, rest)
  {
    hide Admissible, Trailing, Payloads;
    FirstLineOf(line, rest, command, prefix, matched);
    if line.PayloadLine? {
      assert current + [] == current;
      CountsOn(payloads, matched, current, line.payload + Trailing(rest), Payloads(rest));
    } else if line.OtherLine? {
      assert current + line.bytes + Trailing(rest) == current + (line.bytes + Trailing(rest));
    }
  }

  lemma {:induction false} DecodesLines(
    lines: seq<ReplyLine>, command: string, skip: nat, headersOn: string -> Result<seq<byte>>,
    matched: bool, payloads: seq<seq<byte>>, current: seq<byte>)
    requires ExpectedPrefix(command, skip).Some?
    requires Admissible(lines, command, ExpectedPrefix(command, skip).value, matched)
    requires matched <==> current != []
    requires !matched ==> payloads == []
    ensures
      var (prefix, all) := (ExpectedPrefix(command, skip), Gathered(payloads, matched, current, lines));
      Decode(Texts(lines, prefix.value), skip, prefix, Some(command), headersOn, matched, payloads, current) ==
      if all == [] then Err(ParseError) else Ok(all)
    decreases |lines|
  {
    hide Decode, ExpectedPrefix, Texts, Gathered, Admissible;
    if lines == [] {
      DecodesNothing(command, skip, headersOn, matched, payloads, current);
    } else {
      var (line, rest) := (lines[0], lines[1..]);
      assert [line] + rest == lines;
      var prefix := ExpectedPrefix(command, skip).value;
      FirstLineOf(line, rest, command, prefix, matched);
      GathersOn(line, rest, payloads, matched, current, command, prefix);
      if line.PayloadLine? {
        DecodesPayload(line, rest, command, skip, headersOn, matched, payloads, current);
        DecodesLines(
          rest, command, skip, headersOn, true, if matched then payloads + [current] else payloads, line.payload);
      } else if line.OtherLine? {
        DecodesOther(line, rest, command, skip, headersOn, matched, payloads, current);
        DecodesLines(
          rest, command, skip, headersOn, matched, payloads, if matched then current + line.bytes else current);
      } else {
        SkipsQuietLine(line, rest, command, skip, headersOn, matched, payloads, current);
        DecodesLines(rest, command, skip, headersOn, matched, payloads, current);
      }
    }
  }

  // ---- A command too short to tell its responses by ----

  /** No response to the command is told apart: every response line belongs to the one payload. */
  ghost predicate Undistinguished(lines: seq<ReplyLine>, command: string) {
    forall i :: 0 <= i < |lines| ==>
      match lines[i]
      case OtherLine(bytes, spaced, _) =>
        bytes != [] && IsLikelyResponseService(bytes[0]) && !IsEcho(RenderHex(bytes, spaced), command)
      case Blank(raw) => Tokens(Clean(raw)) == []
      case Searching => true
      case EchoLine(raw) => IsEcho(Clean(raw), command)
      case _ => false
  }

  lemma DecodesUndistinguished(
    line: ReplyLine, rest: seq<ReplyLine>, command: string, skip: nat, headersOn: string -> Result<seq<byte>>,
    current: seq<byte>)
    requires Undistinguished([line] + rest, command) && skip > 0
    ensures
      Decode(Texts([line] + rest, []), skip, None, Some(command), headersOn, true, [], current) ==
      Decode(Texts(rest, []), skip, None, Some(command), headersOn, true, [],
             if line.OtherLine? then current + line.bytes else current)
  {
    hide Clean, Ignored, DecodeLine, LineText;
    assert ([line] + rest)[0] == line;
    if line.OtherLine? {
      OtherDecodes(line, command, skip, None, true, headersOn);
    } else {
      UndistinguishedIgnored(line, command);
    }
    assert Texts([line] + rest, [])[0] == LineText(line, []);
    assert Texts([line] + rest, [])[1..] == Texts(rest, []);
  }

  lemma UndistinguishedIgnored(line: ReplyLine, command: string)
    requires Undistinguished([line], command) && !line.OtherLine?
    ensures Ignored(Clean(LineText(line, [])), None, Some(command), true)
  {
    assert [line][0] == line;
    if line.Searching? {
      SearchingIsClean();
    }
  }

  lemma UndistinguishedRest(line: ReplyLine, rest: seq<ReplyLine>, command: string)
    requires Undistinguished([line] + rest, command)
    ensures Undistinguished(rest, command)
    ensures Trailing([line] + rest) == if line.OtherLine? then line.bytes + Trailing(rest) else Trailing(rest)
  {
    assert ([line] + rest)[0] == line && ([line] + rest)[1..] == rest;
    assert forall i :: 0 <= i < |rest| ==> ([line] + rest)[i + 1] == rest[i];
    assert [] + Trailing(rest) == Trailing(rest);
  }

  lemma DecodesNothingAsOne(command: string, skip: nat, headersOn: string -> Result<seq<byte>>, current: seq<byte>)
    ensures
      Decode(Texts([], []), skip, None, Some(command), headersOn, true, [], current) ==
      if current == [] then Err(ParseError) else Ok([current])
    ensures current + Trailing([]) == current
  {
    assert [] + [current] == [current];
  }

  lemma {:induction false} DecodesAsOne(
    lines: seq<ReplyLine>, command: string, skip: nat, headersOn: string -> Result<seq<byte>>, current: seq<byte>)
    requires Undistinguished(lines, command) && skip > 0
    ensures
      var all := current + Trailing(lines);
      Decode(Texts(lines, []), skip, None, Some(command), headersOn, true, [], current) ==
      if all == [] then Err(ParseError) else Ok([all])
    decreases |lines|
  {
    hide Decode, Texts, Undistinguished, Trailing;
    if lines == [] {
      DecodesNothingAsOne(command, skip, headersOn, current);
    } else {
      var (line, rest) := (lines[0], lines[1..]);
      assert [line] + rest == lines;
      UndistinguishedRest(line, rest, command);
      DecodesUndistinguished(line, rest, command, skip, headersOn, current);
      DecodesAsOne(rest, command, skip, headersOn, if line.OtherLine? then current + line.bytes else current);
      if line.OtherLine? {
        assert current + line.bytes + Trailing(rest) == current + (line.bytes + Trailing(rest));
      }
    }
  }

  /** Lines joined by carriage returns or line feeds. */
  function Join(lines: seq<string>, breaks: seq<char>): string
    requires |breaks| + 1 == |lines|
  {
    if breaks == [] then lines[0] else lines[0] + [breaks[0]] + Join(lines[1..], breaks[1..])
  }

  lemma {:induction false} LineEnds(line: string, rest: string)
    requires forall i :: 0 <= i < |line| ==> !IsBreak(line[i])
    requires rest == "" || IsBreak(rest[0])
    ensures LineLength(line + rest) == |line|
  {
    if line == "" {
      assert "" + rest == rest;
    } else {
      assert (line + rest)[1..] == line[1..] + rest;
      LineEnds(line[1..], rest);
    }
  }

  lemma SplitsLine(line: string)
    requires forall i :: 0 <= i < |line| ==> !IsBreak(line[i])
    ensures SplitLines(line) == [line]
  {
    LineEnds(line, "");
    assert line + "" == line;
  }

  lemma SplitsFirst(line: string, c: char, rest: string)
    requires IsBreak(c) && forall i :: 0 <= i < |line| ==> !IsBreak(line[i])
    ensures SplitLines(line + [c] + rest) == [line] + SplitLines(rest)
  {
    hide IsBreak;
    LineEnds(line, [c] + rest);
    var text := line + [c] + rest;
    assert text == line + ([c] + rest);
    assert text[..|line|] == line && text[|line| + 1..] == rest;
  }

  /** Splitting a response undoes joining its lines. */
  lemma {:induction false} SplitInvertsJoin(lines: seq<string>, breaks: seq<char>)
    requires |breaks| + 1 == |lines|
    requires forall i :: 0 <= i < |breaks| ==> IsBreak(breaks[i])
    requires forall k, i :: 0 <= k < |lines| && 0 <= i < |lines[k]| ==> !IsBreak(lines[k][i])
    ensures SplitLines(Join(lines, breaks)) == lines
    decreases |lines|
  {
    hide SplitLines, IsBreak;
    if breaks == [] {
      SplitsLine(lines[0]);
    } else {
      assert forall i :: 0 <= i < |breaks| - 1 ==> breaks[1..][i] == breaks[i + 1];
      assert forall k :: 0 <= k < |lines| - 1 ==> lines[1..][k] == lines[k + 1];
      SplitsFirst(lines[0], breaks[0], Join(lines[1..], breaks[1..]));
      SplitInvertsJoin(lines[1..], breaks[1..]);
    }
  }

  lemma TextsHaveNoBreaks(lines: seq<ReplyLine>, prefix: seq<byte>, k: nat, i: nat)
    requires k < |lines| && i < |LineText(lines[k], prefix)| && OneLine(lines[k])
    ensures !IsBreak(LineText(lines[k], prefix)[i])
  {
    var line := lines[k];
    if line.PayloadLine? || line.OtherLine? {
      var bytes := if line.PayloadLine? then prefix + line.payload else line.bytes;
      var text := RenderHex(bytes, line.spaced);
      RenderedIsOneLine(bytes, line.spaced);
      assert LineText(line, prefix) == text + seq(line.prompts, _ => '>');
      if i < |text| {
        assert text[i] in text;
      } else {
        assert LineText(line, prefix)[i] == seq(line.prompts, _ => '>')[i - |text|] == '>';
      }
    } else if line.Searching? {
      assert forall j :: 0 <= j < |"SEARCHING..."| ==> !IsBreak("SEARCHING..."[j]);
    }
  }

  /** The text kept verbatim in a reply line holds no line break. */
  predicate OneLine(line: ReplyLine) {
    line.PayloadLine? || line.OtherLine? || line.Searching? || forall i :: 0 <= i < |line.raw| ==> !IsBreak(line.raw[i])
  }

  /** A reply is split into the lines it was joined from. */
  lemma SplitsTexts(lines: seq<ReplyLine>, breaks: seq<char>, prefix: seq<byte>)
    requires |breaks| + 1 == |lines| && (forall i :: 0 <= i < |breaks| ==> IsBreak(breaks[i]))
    requires forall i :: 0 <= i < |lines| ==> OneLine(lines[i])
    ensures SplitLines(Join(Texts(lines, prefix), breaks)) == Texts(lines, prefix)
  {
    hide IsBreak, LineText, OneLine, SplitLines, Join;
    var texts := Texts(lines, prefix);
    forall k, i | 0 <= k < |lines| && 0 <= i < |texts[k]| ensures !IsBreak(texts[k][i]) {
      TextsHaveNoBreaks(lines, prefix, k, i);
    }
    SplitInvertsJoin(texts, breaks);
  }

  /**
    Decoding inverts rendering. For a command of at least `skip` >= 1 bytes and any reply whose lines are rendered
    responses (spaced or compact, each payload nonempty), with blank, echo and search lines anywhere, status noise after
    the first payload, and other responses anywhere, the decoder returns exactly the payloads in order, whatever the bus
    family makes of other lines. An other response before the first payload is dropped; one after it is appended to the
    payload in progress.
   */
  lemma DecodeInvertsRendering(
    lines: seq<ReplyLine>, breaks: seq<char>, command: string, skip: nat, headersOn: string -> Result<seq<byte>>)
    requires skip >= 1 && HexPairs(Squeeze(command)).Ok? && |HexPairs(Squeeze(command)).value| >= skip
    requires |breaks| + 1 == |lines| && (forall i :: 0 <= i < |breaks| ==> IsBreak(breaks[i]))
    requires forall i :: 0 <= i < |lines| ==> OneLine(lines[i])
    requires Admissible(lines, command, ExpectedPrefix(command, skip).value, false)
    ensures DecodeResponse(
              Join(Texts(lines, ExpectedPrefix(command, skip).value), breaks), skip, Some(command), headersOn)
            == if Payloads(lines) == [] then Err(ParseError) else Ok(Payloads(lines))
  {
    hide Admissible, Payloads, Decode, Texts, Join;
    SplitsTexts(lines, breaks, ExpectedPrefix(command, skip).value);
    DecodesLines(lines, command, skip, headersOn, false, [], []);
    assert [] + [] + Payloads(lines) == Payloads(lines);
  }
}
