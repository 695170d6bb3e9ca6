/**
  The raw-capture file (`transport/logging.rs`): its byte escaping, the logging
  transport that writes it, and the parser that turns it back into a conversation.
 */
module CaptureLog {
  import opened Basics
  import opened Hex

  // ---- Escaping ----

  function EscapeByte(b: byte): string {
    if b == 0x0D then "\\r"
    else if b == 0x0A then "\\n"
    else if b == 0x09 then "\\t"
    else if b == 0x5C then "\\\\"
    else if 0x20 <= b <= 0x7E then [b as char]
    else ['\\', 'x', Digit(b / 16), Digit(b % 16)]
  }

  function Escape(data: seq<byte>): string {
    if data == [] then "" else Escape(data[..|data| - 1]) + EscapeByte(data[|data| - 1])
  }

  method EscapeBytes(data: seq<byte>) returns (out: string)
    ensures out == Escape(data)
  {
    out := "";
    for i := 0 to |data|
      invariant out == Escape(data[..i])
    {
      assert data[..i + 1][..i] == data[..i];
      out := out + EscapeByte(data[i]);
    }
    assert data[..|data|] == data;
  }

  /** The UTF-8 encoding of a character. */
  function Utf8(c: char): seq<byte> {
    var n := c as int;
    if n < 0x80 then [n]
    else if n < 0x800 then [0xC0 + n / 0x40, 0x80 + n % 0x40]
    else if n < 0x1_0000 then [0xE0 + n / 0x1000, 0x80 + n / 0x40 % 0x40, 0x80 + n % 0x40]
    else [0xF0 + n / 0x4_0000, 0x80 + n / 0x1000 % 0x40, 0x80 + n / 0x40 % 0x40, 0x80 + n % 0x40]
  }

  /** `u8::from_str_radix(&[hi, lo], 16).unwrap_or(0)`, which admits a leading plus sign. */
  function HexPair(hi: char, lo: char): byte {
    if HexNibble(lo).None? then 0
    else if hi == '+' then HexNibble(lo).value
    else if HexNibble(hi).None? then 0
    else 16 * HexNibble(hi).value + HexNibble(lo).value
  }

  /** The value of two hexadecimal digits, zero if either is not one. */
  function TwoDigits(hi: char, lo: char): byte {
    if HexNibble(hi).None? || HexNibble(lo).None? then 0 else 16 * HexNibble(hi).value + HexNibble(lo).value
  }

  /** The radix parser reads the two digits, except after a plus sign: exactly then a single digit counts. */
  lemma HexPairExactly(hi: char, lo: char)
    ensures HexPair(hi, lo) == TwoDigits(hi, lo) <==>
            !(hi == '+' && HexNibble(lo).Some? && HexNibble(lo).value != 0)
  {
    hide HexNibble;
    assert HexNibble('+').None? by {
      PlusIsNoDigit();
    }
  }

  lemma PlusIsNoDigit()
    ensures HexNibble('+').None?
  {
  }

  /** A text that escaping never produces, and the byte it is read as. */
  lemma PlusSignIsRead()
    ensures Unescape("\\x+5") == [5]
    ensures forall data: seq<byte> :: Escape(data) != "\\x+5"
  {
    var text := "\\x+5";
    assert UnescapeFirst(text) == ([5], 4) && text[4..] == "";
    assert Unescape("") == [] && [5] + [] == [5];
    assert [5][..0] == [] && Escape([5]) == "" + EscapeByte(5) == EscapeByte(5);
    assert Escape([5])[2] == Digit(0) == '0' && text[2] == '+';
    forall data: seq<byte> ensures Escape(data) != text {
      UnescapeInvertsEscape(data);
    }
  }

  /** One turn of the unescaping loop: the bytes it pushes and the characters it consumes. */
  function UnescapeFirst(s: string): (r: (seq<byte>, nat))
    requires s != ""
    ensures 1 <= r.1 <= |s|
  {
    if s[0] != '\\' then (Utf8(s[0]), 1)
    else if |s| == 1 then ([0x5C], 1)
    else match s[1]
      case 'r' => ([0x0D], 2)
      case 'n' => ([0x0A], 2)
      case 't' => ([0x09], 2)
      case '\\' => ([0x5C], 2)
      case 'x' =>
        ([HexPair(if |s| > 2 then s[2] else '0', if |s| > 3 then s[3] else '0')], Min(4, |s|))
      case other => ([0x5C] + Utf8(other), 2)
  }

  function Unescape(s: string): seq<byte> {
    if s == "" then [] else
      var (bytes, n) := UnescapeFirst(s);
      bytes + Unescape(s[n..])
  }

  lemma UnescapeStep(s: string, i: nat)
    requires i < |s|
    ensures
      var (bytes, n) := UnescapeFirst(s[i..]);
      i + n <= |s| && Unescape(s[i..]) == bytes + Unescape(s[i + n..])
  {
    hide UnescapeFirst;
    var n := UnescapeFirst(s[i..]).1;
    assert s[i..][n..] == s[i + n..];
  }

  method UnescapeStr(s: string) returns (out: seq<byte>)
    ensures out == Unescape(s)
  {
    hide UnescapeFirst;
    out := [];
    var i := 0;
    assert s[0..] == s;
    while i < |s|
      invariant 0 <= i <= |s|
      invariant Unescape(s) == out + Unescape(s[i..])
    {
      hide Unescape;
      UnescapeStep(s, i);
      var pushed;
      pushed, i := UnescapeOne(s, i);
      assert out + (pushed + Unescape(s[i..])) == out + pushed + Unescape(s[i..]);
      out := out + pushed;
    }
    assert out + [] == out;
  }

  /** The body of the unescaping loop, drawing characters from position `start`. */
  method UnescapeOne(s: string, start: nat) returns (pushed: seq<byte>, i: nat)
    requires start < |s|
    ensures start < i <= |s| && (pushed, i - start) == UnescapeFirst(s[start..])
  {
    var c := s[start];
    i := start + 1;
    if c != '\\' {
      return Utf8(c), i;
    }
    if i == |s| {
      return [0x5C], i;
    }
    var code := s[i];
    i := i + 1;
    match code {
      case 'r' => pushed := [0x0D];
      case 'n' => pushed := [0x0A];
      case 't' => pushed := [0x09];
      case '\\' => pushed := [0x5C];
      case 'x' =>
        var hi, lo := '0', '0';
        if i < |s| {
          hi := s[i];
          i := i + 1;
        }
        if i < |s| {
          lo := s[i];
          i := i + 1;
        }
        pushed := [HexPair(hi, lo)];
      case other =>
        pushed := [0x5C] + Utf8(other);
    }
  }

  lemma UnescapesByte(b: byte, rest: string)
    ensures EscapeByte(b) + rest != "" && UnescapeFirst(EscapeByte(b) + rest) == ([b], |EscapeByte(b)|)
  {
    hide Digit, HexPair, Utf8;
    var text := EscapeByte(b) + rest;
    HexPairValue(b);
    PrintableUtf8(b);
    assert text[0] == EscapeByte(b)[0];
    if |EscapeByte(b)| > 1 {
      assert text[1] == EscapeByte(b)[1];
      if |EscapeByte(b)| > 2 {
        assert text[2] == Digit(b / 16) && text[3] == Digit(b % 16);
      }
    }
  }

  lemma UnescapesFront(b: byte, rest: string)
    ensures Unescape(EscapeByte(b) + rest) == [b] + Unescape(rest)
  {
    hide EscapeByte, UnescapeFirst;
    UnescapesByte(b, rest);
    assert (EscapeByte(b) + rest)[|EscapeByte(b)|..] == rest;
  }

  lemma PrintableUtf8(b: byte)
    ensures b < 0x80 ==> Utf8(b as char) == [b]
  {
  }

  lemma HexPairValue(b: byte)
    ensures HexPair(Digit(b / 16), Digit(b % 16)) == b
  {
    hide Digit, HexNibble;
    PlusIsNoDigit();
  }

  /** Every byte string survives escaping and unescaping. */
  lemma {:induction false} UnescapeInvertsEscape(data: seq<byte>)
    ensures Unescape(Escape(data)) == data
  {
    UnescapeEscaped(data, "");
    assert Escape(data) + "" == Escape(data);
    assert data + [] == data;
  }

  lemma {:induction false} UnescapeEscaped(data: seq<byte>, rest: string)
    ensures Unescape(Escape(data) + rest) == data + Unescape(rest)
    decreases |data|
  {
    hide EscapeByte, Unescape;
    if data == [] {
      assert Escape(data) + rest == rest && [] + Unescape(rest) == Unescape(rest);
    } else {
      var (front, b) := (data[..|data| - 1], data[|data| - 1]);
      UnescapeEscaped(front, EscapeByte(b) + rest);
      UnescapesFront(b, rest);
      assert Escape(data) + rest == Escape(front) + (EscapeByte(b) + rest);
      assert front + ([b] + Unescape(rest)) == data + Unescape(rest);
    }
  }

  /** No line break of either kind. */
  predicate OneLine(s: string) {
    forall i :: 0 <= i < |s| ==> s[i] != '\n' && s[i] != '\r'
  }

  lemma {:induction false} EscapedIsOneLine(data: seq<byte>)
    ensures OneLine(Escape(data))
  {
    hide EscapeByte;
    if data != [] {
      EscapedIsOneLine(data[..|data| - 1]);
      EscapedByteIsOneLine(data[|data| - 1]);
    }
  }

  lemma EscapedByteIsOneLine(b: byte)
    ensures OneLine(EscapeByte(b))
  {
  }

  // ---- The log ----

  /** A formatted time stamp, as far as the parser can tell one. */
  predicate IsStamp(ts: string) {
    ts != "" && ts[0] != '#' && OneLine(ts) && ' ' !in ts
  }

  type Stamp = ts: string | IsStamp(ts) witness "0.000"

  function Line(ts: Stamp, tag: string, text: string): string {
    ts + " " + tag + " " + text + "\n"
  }

  datatype Chunk = Chunk(ts: Stamp, data: seq<byte>)

  /** What is logged: a write, a read with the chunks that made it up, or an annotation. */
  datatype Entry =
    | Wrote(ts: Stamp, data: seq<byte>)
    | ReadBack(ts: Stamp, chunks: seq<Chunk>, data: seq<byte>)
    | Noted(ts: Stamp, note: string)

  function RenderChunks(chunks: seq<Chunk>): string {
    if chunks == [] then "" else Line(chunks[0].ts, "R.chunk", Escape(chunks[0].data)) + RenderChunks(chunks[1..])
  }

  function RenderEntry(entry: Entry): string {
    match entry
    case Wrote(ts, data) => Line(ts, "W", Escape(data))
    case ReadBack(ts, chunks, data) => RenderChunks(chunks) + Line(ts, "R", Escape(data))
    case Noted(ts, note) => Line(ts, "N", note)
  }

  function Render(entries: seq<Entry>): string {
    if entries == [] then "" else RenderEntry(entries[0]) + Render(entries[1..])
  }

  lemma {:induction false} RenderAppends(entries: seq<Entry>, entry: Entry)
    ensures Render(entries + [entry]) == Render(entries) + RenderEntry(entry)
  {
    hide RenderEntry;
    if entries == [] {
      assert entries + [entry] == [entry];
      assert Render([entry]) == RenderEntry(entry) + Render([]);
    } else {
      assert (entries + [entry])[1..] == entries[1..] + [entry];
      RenderAppends(entries[1..], entry);
      var (first, middle, last) := (RenderEntry(entries[0]), Render(entries[1..]), RenderEntry(entry));
      assert first + (middle + last) == (first + middle) + last;
    }
  }

  lemma FileGrows(header: string, entries: seq<Entry>, entry: Entry)
    ensures header + Render(entries) + RenderEntry(entry) == header + Render(entries + [entry])
  {
    hide RenderEntry, Render;
    RenderAppends(entries, entry);
    assert header + Render(entries) + RenderEntry(entry) == header + (Render(entries) + RenderEntry(entry));
  }

  lemma FileGrowsByRead(header: string, entries: seq<Entry>, ts: Stamp, chunks: seq<Chunk>, data: seq<byte>)
    ensures header + Render(entries) + RenderChunks(chunks) + Line(ts, "R", Escape(data)) ==
            header + Render(entries + [ReadBack(ts, chunks, data)])
  {
    hide Line, RenderChunks, Render, Escape;
    var (start, middle, last) := (header + Render(entries), RenderChunks(chunks), Line(ts, "R", Escape(data)));
    FileGrows(header, entries, ReadBack(ts, chunks, data));
    assert start + middle + last == start + (middle + last);
  }

  /** A link that delivers scripted reads, reporting the chunks each was made of. */
  datatype LinkRead = Bytes(data: seq<byte>, chunks: seq<Chunk>) | ReadFault(chunks: seq<Chunk>)

  class LoggingTransport {
    var inbound: seq<LinkRead>
    var written: seq<seq<byte>>
    var writeFaults: seq<bool>
    var capturing: bool
    var header: string
    var file: string
    var chunkBuf: seq<Chunk>
    ghost var entries: seq<Entry>

    ghost predicate Valid()
      reads this
    {
      capturing ==> file == header + Render(entries)
    }

    constructor (inbound: seq<LinkRead>, writeFaults: seq<bool>)
      ensures Valid() && !capturing && chunkBuf == [] && entries == []
      ensures this.inbound == inbound && this.writeFaults == writeFaults && written == []
    {
      this.inbound, this.writeFaults, written := inbound, writeFaults, [];
      capturing, header, file, chunkBuf, entries := false, "", "", [], [];
    }

    method StartCapture(header: string)
      modifies this`capturing, this`header, this`file, this`entries
      ensures Valid() && capturing && this.header == header && file == header && entries == []
    {
      capturing, this.header, file, entries := true, header, header, [];
      assert header + "" == header;
    }

    /** A write is logged before it is attempted, so a failing one is logged too. */
    method Write(ts: Stamp, data: seq<byte>) returns (r: Result<()>)
      requires Valid()
      modifies this`file, this`entries, this`written, this`writeFaults
      ensures Valid()
      ensures entries == if capturing then old(entries) + [Wrote(ts, data)] else old(entries)
      ensures r.Ok? <==> (old(writeFaults) == [] || !old(writeFaults)[0])
      ensures written == if r.Ok? then old(written) + [data] else old(written)
    {
      LogLine(ts, "W", data);
      if capturing {
        FileGrows(header, entries, Wrote(ts, data));
        entries := entries + [Wrote(ts, data)];
      }
      var fails := false;
      if writeFaults != [] {
        fails, writeFaults := writeFaults[0], writeFaults[1..];
      }
      if fails {
        return Err(Error.Transport);
      }
      written := written + [data];
      return Ok(());
    }

    /** A failing read logs nothing; its chunks wait for the next successful one. */
    method Read(ts: Stamp) returns (r: Result<seq<byte>>)
      requires Valid()
      modifies this`file, this`entries, this`inbound, this`chunkBuf
      ensures Valid()
      ensures old(inbound) == [] ==> r.Err? && inbound == [] && entries == old(entries) && chunkBuf == old(chunkBuf)
      ensures old(inbound) != [] ==>
        var step := old(inbound)[0];
        var seen := if capturing then old(chunkBuf) + step.chunks else old(chunkBuf);
        && inbound == old(inbound)[1..]
        && (step.ReadFault? ==> r.Err? && entries == old(entries) && chunkBuf == seen)
        && (step.Bytes? ==>
              && r == Ok(step.data)
              && chunkBuf == (if capturing then [] else seen)
              && entries == if capturing then old(entries) + [ReadBack(ts, seen, step.data)] else old(entries))
    {
      hide Line, RenderChunks, RenderEntry, Render, Escape;
      if inbound == [] {
        return Err(Error.Transport);
      }
      var step := inbound[0];
      inbound := inbound[1..];
      if capturing {
        chunkBuf := chunkBuf + step.chunks;
      }
      if step.ReadFault? {
        return Err(Error.Transport);
      }
      ghost var chunks := chunkBuf;
      FlushChunks();
      LogLine(ts, "R", step.data);
      if capturing {
        FileGrowsByRead(header, entries, ts, chunks, step.data);
        entries := entries + [ReadBack(ts, chunks, step.data)];
      }
      return Ok(step.data);
    }

    method Annotate(ts: Stamp, note: string)
      requires Valid()
      modifies this`file, this`entries
      ensures Valid()
      ensures entries == if capturing then old(entries) + [Noted(ts, note)] else old(entries)
    {
      if capturing {
        FileGrows(header, entries, Noted(ts, note));
        file := file + Line(ts, "N", note);
        entries := entries + [Noted(ts, note)];
      }
    }

    method LogLine(ts: Stamp, tag: string, data: seq<byte>)
      modifies this`file
      ensures file == if capturing then old(file) + Line(ts, tag, Escape(data)) else old(file)
    {
      if capturing {
        var text := EscapeBytes(data);
        file := file + Line(ts, tag, text);
      }
    }

    method FlushChunks()
      modifies this`file, this`chunkBuf
      ensures file == if capturing then old(file) + RenderChunks(old(chunkBuf)) else old(file)
      ensures chunkBuf == if capturing then [] else old(chunkBuf)
    {
      hide Line, Escape;
      if capturing {
        assert file + RenderChunks(chunkBuf) == file + RenderChunks(chunkBuf);
        while chunkBuf != []
          invariant old(file) + RenderChunks(old(chunkBuf)) == file + RenderChunks(chunkBuf)
          decreases |chunkBuf|
        {
          var chunk := chunkBuf[0];
          ghost var rest := RenderChunks(chunkBuf[1..]);
          var text := EscapeBytes(chunk.data);
          assert file + (Line(chunk.ts, "R.chunk", text) + rest) == file + Line(chunk.ts, "R.chunk", text) + rest;
          file := file + Line(chunk.ts, "R.chunk", text);
          chunkBuf := chunkBuf[1..];
        }
        assert file + "" == file;
      }
    }
  }

  // ---- Parsing ----

  /** Position of the first `c` in `s`, or `|s|`. */
  function Find(s: string, c: char): (i: nat)
    ensures i <= |s| && c !in s[..i] && (i < |s| ==> s[i] == c)
  {
    if s == "" || s[0] == c then 0 else
      var i := Find(s[1..], c) + 1;
      assert s[..i] == [s[0]] + s[1..][..i - 1];
      i
  }

  lemma {:induction false} FindUnique(s: string, c: char, i: nat)
    requires i < |s| && s[i] == c && c !in s[..i]
    ensures Find(s, c) == i
  {
    if i > 0 {
      assert s[..i][0] == s[0] && s[1..][..i - 1] == s[..i][1..];
      FindUnique(s[1..], c, i - 1);
    }
  }

  /** `str::lines`: split at line feeds, dropping one carriage return before each. */
  function Lines(content: string): seq<string> {
    if content == "" then [] else
      var i := Find(content, '\n');
      var line := content[..i];
      [if i < |content| then WithoutCr(line) else line] + if i < |content| then Lines(content[i + 1..]) else []
  }

  /** `line.splitn(3, ' ')`: stamp, direction and payload, as far as present. */
  function SplitLine(line: string): (Option<string>, string) {
    var i := Find(line, ' ');
    if i == |line| then (None, "") else
      var rest := line[i + 1..];
      var j := Find(rest, ' ');
      (Some(rest[..j]), if j < |rest| then rest[j + 1..] else "")
  }

  function WithoutTrailingCr(data: seq<byte>): seq<byte> {
    if data != [] && data[|data| - 1] == 0x0D then data[..|data| - 1] else data
  }

  type Pair = (seq<byte>, seq<byte>)

  /** The parser's loop over the remaining lines. */
  function ParseLines(lines: seq<string>, pending: Option<seq<byte>>): seq<Pair> {
    if lines == [] then [] else
      var line := lines[0];
      if line == "" || line[0] == '#' then ParseLines(lines[1..], pending) else
        var (direction, payload) := SplitLine(line);
        if direction == Some("W") then ParseLines(lines[1..], Some(WithoutTrailingCr(Unescape(payload))))
        else if direction == Some("R") && pending.Some? then
          [(pending.value, Unescape(payload))] + ParseLines(lines[1..], None)
        else ParseLines(lines[1..], pending)
  }

  lemma ParsesNext(lines: seq<string>, i: nat, pending: Option<seq<byte>>)
    requires i <= |lines|
    ensures i == |lines| ==> ParseLines(lines[i..], pending) == []
    ensures i < |lines| ==>
      var (line, rest) := (lines[i], lines[i + 1..]);
      var (direction, payload) := SplitLine(line);
      ParseLines(lines[i..], pending) ==
      if line == "" || line[0] == '#' then ParseLines(rest, pending)
      else if direction == Some("W") then ParseLines(rest, Some(WithoutTrailingCr(Unescape(payload))))
      else if direction == Some("R") && pending.Some? then
        [(pending.value, Unescape(payload))] + ParseLines(rest, None)
      else ParseLines(rest, pending)
  {
    hide SplitLine, Unescape, WithoutTrailingCr;
    assert i < |lines| ==> lines[i..][1..] == lines[i + 1..];
  }

  method ParseRawCapture(content: string) returns (pairs: seq<Pair>)
    ensures pairs == ParseLines(Lines(content), None)
  {
    hide Lines, ParseLines, SplitLine, Unescape, WithoutTrailingCr;
    var lines := Lines(content);
    pairs := [];
    var pendingWrite: Option<seq<byte>> := None;
    assert lines[0..] == lines;
    for i := 0 to |lines|
      invariant ParseLines(lines, None) == pairs + ParseLines(lines[i..], pendingWrite)
    {
      var line := lines[i];
      ParsesNext(lines, i, pendingWrite);
      if line == "" || line[0] == '#' {
        continue;
      }
      var (direction, payload) := SplitLine(line);
      if direction == Some("W") {
        var raw := UnescapeStr(payload);
        pendingWrite := Some(WithoutTrailingCr(raw));
      } else if direction == Some("R") {
        if pendingWrite.Some? {
          var raw := UnescapeStr(payload);
          pairs := pairs + [(pendingWrite.value, raw)];
          pendingWrite := None;
        }
      }
    }
    ParsesNext(lines, |lines|, pendingWrite);
    assert pairs + [] == pairs;
  }

  // ---- The conversation a log stands for ----

  /** Each read answers the latest write that has not been answered yet. */
  function Conversation(entries: seq<Entry>, pending: Option<seq<byte>>): seq<Pair> {
    if entries == [] then [] else
      match entries[0]
      case Wrote(_, data) => Conversation(entries[1..], Some(WithoutTrailingCr(data)))
      case ReadBack(_, _, data) =>
        if pending.Some? then [(pending.value, data)] + Conversation(entries[1..], None)
        else Conversation(entries[1..], None)
      case Noted(_, _) => Conversation(entries[1..], pending)
  }

  /** What `str::lines` drops at the end of a line. */
  function WithoutCr(line: string): string {
    if line != "" && line[|line| - 1] == '\r' then line[..|line| - 1] else line
  }

  lemma FirstLine(line: string, rest: string)
    requires '\n' !in line
    ensures Lines(line + "\n" + rest) == [WithoutCr(line)] + Lines(rest)
  {
    var content := line + "\n" + rest;
    assert content[..|line|] == line && content[|line|] == '\n';
    FindUnique(content, '\n', |line|);
    assert content[|line| + 1..] == rest;
  }

  lemma SplitsLine(ts: Stamp, tag: string, text: string)
    requires ' ' !in tag
    ensures SplitLine(ts + " " + tag + " " + text) == (Some(tag), text)
  {
    var line := ts + " " + tag + " " + text;
    assert line[..|ts|] == ts && line[|ts|] == ' ';
    FindUnique(line, ' ', |ts|);
    var rest := line[|ts| + 1..];
    assert rest == tag + " " + text;
    assert rest[..|tag|] == tag && rest[|tag|] == ' ';
    FindUnique(rest, ' ', |tag|);
    assert rest[|tag| + 1..] == text;
  }

  /** One line of the log, followed by the rest of the file; a carriage return at its end is not part of it. */
  lemma ParsesLine(ts: Stamp, tag: string, text: string, rest: string, pending: Option<seq<byte>>)
    requires '\n' !in tag && ' ' !in tag && '\n' !in text
    ensures
      ParseLines(Lines(Line(ts, tag, text) + rest), pending) ==
      if tag == "W" then ParseLines(Lines(rest), Some(WithoutTrailingCr(Unescape(WithoutCr(text)))))
      else if tag == "R" && pending.Some? then
        [(pending.value, Unescape(WithoutCr(text)))] + ParseLines(Lines(rest), None)
      else ParseLines(Lines(rest), pending)
  {
    hide Unescape, SplitLine, Lines;
    var (line, kept) := (ts + " " + tag + " " + text, ts + " " + tag + " " + WithoutCr(text));
    assert Line(ts, tag, text) + rest == line + "\n" + rest;
    assert '\n' !in ts;
    FirstLine(line, rest);
    assert WithoutCr(line) == kept by {
      if text != "" {
        assert line[|line| - 1] == text[|text| - 1];
      } else {
        assert line[|line| - 1] == ' ';
      }
    }
    SplitsLine(ts, tag, WithoutCr(text));
    assert kept[0] == ts[0];
    assert ([kept] + Lines(rest))[1..] == Lines(rest);
  }

  lemma EscapedHasNoBreak(data: seq<byte>)
    ensures '\n' !in Escape(data) && WithoutCr(Escape(data)) == Escape(data)
  {
    EscapedIsOneLine(data);
  }

  lemma {:induction false} SkipsChunks(chunks: seq<Chunk>, rest: string, pending: Option<seq<byte>>)
    ensures ParseLines(Lines(RenderChunks(chunks) + rest), pending) == ParseLines(Lines(rest), pending)
  {
    hide Lines, ParseLines, Line;
    if chunks == [] {
      assert "" + rest == rest;
    } else {
      var (chunk, later) := (chunks[0], RenderChunks(chunks[1..]) + rest);
      EscapedHasNoBreak(chunk.data);
      assert RenderChunks(chunks) + rest == Line(chunk.ts, "R.chunk", Escape(chunk.data)) + later;
      ParsesLine(chunk.ts, "R.chunk", Escape(chunk.data), later, pending);
      SkipsChunks(chunks[1..], rest, pending);
    }
  }

  /** A line that the parser skips. */
  predicate IsQuiet(line: string) {
    line == "" || line[0] == '#' || (SplitLine(line).0 != Some("W") && SplitLine(line).0 != Some("R"))
  }

  /** The lines of a note after its first. */
  function LaterLines(note: string): seq<string> {
    var i := Find(note, '\n');
    if i == |note| then [] else Lines(note[i + 1..] + "\n")
  }

  lemma {:induction false} LinesJoin(front: string, back: string)
    ensures Lines(front + "\n" + back) == Lines(front + "\n") + Lines(back)
    decreases |front|
  {
    hide Lines, WithoutCr;
    NoLines(None);
    var i := Find(front, '\n');
    var (line, rest) := (front[..i], if i < |front| then front[i + 1..] else "");
    if i < |front| {
      LinesJoin(rest, back);
      assert front + "\n" + back == line + "\n" + (rest + "\n" + back);
      assert front + "\n" == line + "\n" + (rest + "\n");
      FirstLine(line, rest + "\n" + back);
      FirstLine(line, rest + "\n");
      var (first, middle, last) := (WithoutCr(line), Lines(rest + "\n"), Lines(back));
      assert [first] + (middle + last) == [first] + middle + last;
    } else {
      assert front == line && line + "\n" + "" == line + "\n";
      FirstLine(line, back);
      FirstLine(line, "");
    }
  }

  /** An annotation is its first line, which is skipped, and the lines after that. */
  lemma NoteLines(ts: Stamp, note: string, rest: string)
    ensures exists first ::
              IsQuiet(first) && Lines(Line(ts, "N", note) + rest) == [first] + LaterLines(note) + Lines(rest)
  {
    hide IsQuiet, Lines, WithoutCr;
    var i := Find(note, '\n');
    var (head, text) := (ts + " " + "N" + " " + note[..i], ts + " " + "N" + " " + note);
    assert Line(ts, "N", note) + rest == text + "\n" + rest;
    LinesJoin(text, rest);
    FirstNoteLine(ts, note[..i]);
    if i < |note| {
      assert note == note[..i] + "\n" + note[i + 1..];
      assert text + "\n" == head + "\n" + (note[i + 1..] + "\n");
      FirstLine(head, note[i + 1..] + "\n");
    } else {
      assert note[..i] == note && text + "\n" == head + "\n" + "";
      FirstLine(head, "");
      assert Lines("") == [] by {
        NoLines(None);
      }
    }
    assert Lines(text + "\n") == [WithoutCr(head)] + LaterLines(note);
  }

  lemma FirstNoteLine(ts: Stamp, text: string)
    requires '\n' !in text
    ensures var head := ts + " " + "N" + " " + text; '\n' !in head && IsQuiet(WithoutCr(head))
  {
    hide SplitLine;
    var (head, kept) := (ts + " " + "N" + " " + text, ts + " " + "N" + " " + WithoutCr(text));
    assert '\n' !in ts && head[0] == kept[0] == ts[0];
    assert WithoutCr(head) == kept by {
      if text != "" {
        assert head[|head| - 1] == text[|text| - 1];
      } else {
        assert head[|head| - 1] == ' ';
      }
    }
    SplitsLine(ts, "N", WithoutCr(text));
  }

  lemma {:induction false} SkipsQuiet(lines: seq<string>, more: seq<string>, pending: Option<seq<byte>>)
    requires forall i :: 0 <= i < |lines| ==> IsQuiet(lines[i])
    ensures ParseLines(lines + more, pending) == ParseLines(more, pending)
  {
    hide Unescape, SplitLine;
    if lines == [] {
      assert [] + more == more;
    } else {
      assert (lines + more)[1..] == lines[1..] + more;
      SkipsQuiet(lines[1..], more, pending);
    }
  }

  predicate Asks(line: string) {
    line != "" && line[0] != '#' && SplitLine(line).0 == Some("W")
  }

  predicate Answers(line: string) {
    line != "" && line[0] != '#' && SplitLine(line).0 == Some("R")
  }

  /** A pending write is answered by the first read line, whichever it is by then. */
  lemma {:induction false} AnswerShows(lines: seq<string>, pending: Option<seq<byte>>)
    requires exists i :: 0 <= i < |lines| && Answers(lines[i])
    requires
      || pending.Some?
      || (exists i :: 0 <= i < |lines| && Asks(lines[i]) && forall j :: 0 <= j < i ==> !Answers(lines[j]))
    ensures ParseLines(lines, pending) != []
    decreases |lines|
  {
    hide Unescape, SplitLine;
    var line := lines[0];
    if !(Answers(line) && pending.Some?) {
      assert !Answers(line) by {
        if pending.None? {
          var i :| 0 <= i < |lines| && Asks(lines[i]) && forall j :: 0 <= j < i ==> !Answers(lines[j]);
        }
      }
      var i :| 0 <= i < |lines| && Answers(lines[i]);
      assert lines[1..][i - 1] == lines[i];
      if pending.None? && !Asks(line) {
        var k :| 0 <= k < |lines| && Asks(lines[k]) && forall j :: 0 <= j < k ==> !Answers(lines[j]);
        assert lines[1..][k - 1] == lines[k];
        AnswerShows(lines[1..], pending);
      } else {
        AnswerShows(lines[1..], if Asks(line) then Some(WithoutTrailingCr(Unescape(SplitLine(line).1))) else pending);
      }
    }
  }

  /**
    Notes, exactly. An annotation leaves the conversation around it alone, whatever that is, exactly if none of the
    lines after its first reads as a write or as a read.
   */
  lemma NoteIsHarmlessExactly(ts: Stamp, note: string)
    ensures
      (forall rest, pending ::
         ParseLines(Lines(Line(ts, "N", note) + rest), pending) == ParseLines(Lines(rest), pending))
      <==> forall i :: 0 <= i < |LaterLines(note)| ==> IsQuiet(LaterLines(note)[i])
  {
    hide Lines, ParseLines, Line, LaterLines, IsQuiet, Asks, Answers;
    var lines := LaterLines(note);
    if forall i :: 0 <= i < |lines| ==> IsQuiet(lines[i]) {
      forall rest, pending
        ensures ParseLines(Lines(Line(ts, "N", note) + rest), pending) == ParseLines(Lines(rest), pending)
      {
        NoteSkipped(ts, note, rest, pending);
      }
    } else {
      LoudNoteShows(ts, note);
    }
  }

  lemma NoteSkipped(ts: Stamp, note: string, rest: string, pending: Option<seq<byte>>)
    ensures ParseLines(Lines(Line(ts, "N", note) + rest), pending) ==
            ParseLines(LaterLines(note) + Lines(rest), pending)
    ensures (forall i :: 0 <= i < |LaterLines(note)| ==> IsQuiet(LaterLines(note)[i])) ==>
            ParseLines(Lines(Line(ts, "N", note) + rest), pending) == ParseLines(Lines(rest), pending)
  {
    hide Lines, ParseLines, Line, LaterLines, IsQuiet;
    NoteLines(ts, note, rest);
    var first :| IsQuiet(first) && Lines(Line(ts, "N", note) + rest) == [first] + LaterLines(note) + Lines(rest);
    var later := LaterLines(note) + Lines(rest);
    assert [first] + LaterLines(note) + Lines(rest) == [first] + later;
    SkipsQuiet([first], later, pending);
    if forall i :: 0 <= i < |LaterLines(note)| ==> IsQuiet(LaterLines(note)[i]) {
      SkipsQuiet(LaterLines(note), Lines(rest), pending);
    }
  }

  lemma LoudNoteShows(ts: Stamp, note: string)
    requires exists i :: 0 <= i < |LaterLines(note)| && !IsQuiet(LaterLines(note)[i])
    ensures exists rest, pending ::
      ParseLines(Lines(Line(ts, "N", note) + rest), pending) != ParseLines(Lines(rest), pending)
  {
    hide Lines, ParseLines, Line, LaterLines, SplitLine;
    var lines := LaterLines(note);
    var loud :| 0 <= loud < |lines| && !IsQuiet(lines[loud]);
    assert Asks(lines[loud]) || Answers(lines[loud]);
    NoLines(Some([]));
    if i :| 0 <= i < |lines| && Answers(lines[i]) {
      NoteSkipped(ts, note, "", Some([]));
      assert Lines("") == [] && lines + [] == lines;
      AnswerShows(lines, Some([]));
    } else {
      var answer := Line(ts, "R", "");
      LoneAnswer(ts);
      NoteSkipped(ts, note, answer, None);
      var all := lines + Lines(answer);
      assert Asks(all[loud]) && forall j :: 0 <= j < loud ==> !Answers(all[j]);
      assert Answers(all[|lines|]);
      AnswerShows(all, None);
    }
  }

  lemma LoneAnswer(ts: Stamp)
    ensures
      var lines := Lines(Line(ts, "R", ""));
      |lines| == 1 && Answers(lines[0]) && ParseLines(lines, None) == []
  {
    hide Unescape, SplitLine, Lines, WithoutCr;
    var line := ts + " " + "R" + " " + "";
    NoLines(None);
    assert line + "\n" + "" == Line(ts, "R", "") && '\n' !in line;
    FirstLine(line, "");
    EndsWithSpace(line);
    SplitsLine(ts, "R", "");
    assert line[0] == ts[0];
    ParsesLine(ts, "R", "", "", None);
    assert Line(ts, "R", "") + "" == Line(ts, "R", "");
  }

  lemma EndsWithSpace(line: string)
    requires line != "" && line[|line| - 1] == ' '
    ensures WithoutCr(line) == line
  {
  }

  /** No note holds a later line that reads as a write or as a read; a note of one line never does. */
  ghost predicate NotesAreQuiet(entries: seq<Entry>) {
    forall i, k :: 0 <= i < |entries| && entries[i].Noted? && 0 <= k < |LaterLines(entries[i].note)| ==>
                   IsQuiet(LaterLines(entries[i].note)[k])
  }

  lemma ParsesEntry(entry: Entry, rest: string, pending: Option<seq<byte>>)
    requires entry.Noted? ==> forall k :: 0 <= k < |LaterLines(entry.note)| ==> IsQuiet(LaterLines(entry.note)[k])
    ensures
      ParseLines(Lines(RenderEntry(entry) + rest), pending) ==
      if entry.Wrote? then ParseLines(Lines(rest), Some(WithoutTrailingCr(entry.data)))
      else if entry.ReadBack? then
        (if pending.Some? then [(pending.value, entry.data)] else []) + ParseLines(Lines(rest), None)
      else ParseLines(Lines(rest), pending)
  {
    hide Lines, ParseLines, Line, Escape, Unescape, WithoutCr, WithoutTrailingCr;
    match entry
    case Wrote(ts, data) =>
      EscapedHasNoBreak(data);
      UnescapeInvertsEscape(data);
      ParsesLine(ts, "W", Escape(data), rest, pending);
    case ReadBack(ts, chunks, data) =>
      EscapedHasNoBreak(data);
      UnescapeInvertsEscape(data);
      var line := Line(ts, "R", Escape(data));
      assert RenderEntry(entry) + rest == RenderChunks(chunks) + (line + rest);
      SkipsChunks(chunks, line + rest, pending);
      ParsesLine(ts, "R", Escape(data), rest, pending);
      assert [] + ParseLines(Lines(rest), None) == ParseLines(Lines(rest), None);
    case Noted(ts, note) =>
      NoteSkipped(ts, note, rest, pending);
  }

  lemma {:induction false} ParseInvertsRender(entries: seq<Entry>, pending: Option<seq<byte>>)
    requires NotesAreQuiet(entries)
    ensures ParseLines(Lines(Render(entries)), pending) == Conversation(entries, pending)
  {
    hide Lines, ParseLines, RenderEntry;
    if entries == [] {
      NoLines(pending);
    } else {
      var (entry, rest) := (entries[0], entries[1..]);
      ParsesEntry(entry, Render(rest), pending);
      forall p ensures ParseLines(Lines(Render(rest)), p) == Conversation(rest, p) {
        ParseInvertsRender(rest, p);
      }
    }
  }

  lemma NoLines(pending: Option<seq<byte>>)
    ensures Lines("") == [] && ParseLines(Lines(""), pending) == []
  {
  }

  /** Comment lines, each ended by a line feed. */
  function RenderHeader(comments: seq<string>): string {
    if comments == [] then "" else "#" + comments[0] + "\n" + RenderHeader(comments[1..])
  }

  lemma {:induction false} SkipsHeader(comments: seq<string>, rest: string, pending: Option<seq<byte>>)
    requires forall i :: 0 <= i < |comments| ==> '\n' !in comments[i]
    ensures ParseLines(Lines(RenderHeader(comments) + rest), pending) == ParseLines(Lines(rest), pending)
  {
    hide Lines;
    if comments == [] {
      assert "" + rest == rest;
    } else {
      var line := "#" + comments[0];
      var later := RenderHeader(comments[1..]) + rest;
      assert RenderHeader(comments) + rest == line + "\n" + later;
      FirstLine(line, later);
      assert WithoutCr(line)[0] == '#' && ([WithoutCr(line)] + Lines(later))[1..] == Lines(later);
      SkipsHeader(comments[1..], rest, pending);
    }
  }

  /**
    Whatever was logged — any writes, reads, chunk lines and annotations whose later lines are quiet,
    in any order — parsing the file yields the conversation: each read paired with the latest
    unanswered write, byte for byte, the write without one trailing carriage return.
   */
  lemma CaptureRoundTrip(comments: seq<string>, entries: seq<Entry>)
    requires forall i :: 0 <= i < |comments| ==> '\n' !in comments[i]
    requires NotesAreQuiet(entries)
    ensures ParseLines(Lines(RenderHeader(comments) + Render(entries)), None) == Conversation(entries, None)
  {
    hide Lines, ParseLines;
    SkipsHeader(comments, Render(entries), None);
    ParseInvertsRender(entries, None);
  }

  /** An annotation whose second line reads as a response: it is taken for the answer to the write before it. */
  lemma NoteReadAsAnswer(ts: Stamp, command: seq<byte>, response: seq<byte>)
    ensures
      var entries := [Wrote(ts, command), Noted(ts, "fault\n" + (ts + " R " + Escape(response)))];
      && ParseLines(Lines(Render(entries)), None) == [(WithoutTrailingCr(command), response)]
      && Conversation(entries, None) == []
  {
    hide Lines, ParseLines, Line, Escape, Unescape;
    var note := "fault\n" + (ts + " R " + Escape(response));
    var (first, second) := (Wrote(ts, command), Noted(ts, note));
    assert [first, second][1..] == [second] && [second][1..] == [];
    assert Render([second]) == Line(ts, "N", note) + "";
    assert Render([first, second]) == RenderEntry(first) + Render([second]);
    ParsesEntry(first, Render([second]), None);
    NoteAnswers(ts, WithoutTrailingCr(command), response);
    assert Conversation([second], Some(WithoutTrailingCr(command))) == [];
  }

  lemma NoteAnswers(ts: Stamp, command: seq<byte>, response: seq<byte>)
    ensures
      var note := "fault\n" + (ts + " R " + Escape(response));
      ParseLines(Lines(Line(ts, "N", note) + ""), Some(command)) == [(command, response)]
  {
    hide Lines, ParseLines, Escape, Unescape, LaterLines;
    var answer := ts + " R " + Escape(response);
    NoLines(None);
    NoteSkipped(ts, "fault\n" + answer, "", Some(command));
    LaterLineOf("fault", answer);
    assert "fault" + "\n" + answer == "fault\n" + answer;
    EscapedHasNoBreak(response);
    UnescapeInvertsEscape(response);
    ParsesLine(ts, "R", Escape(response), "", Some(command));
    assert Line(ts, "R", Escape(response)) + "" == answer + "\n";
    var lines := LaterLines("fault\n" + answer);
    assert lines + Lines("") == lines == Lines(answer + "\n");
  }

  lemma LaterLineOf(first: string, later: string)
    requires '\n' !in first
    ensures LaterLines(first + "\n" + later) == Lines(later + "\n")
  {
    hide Lines;
    var note := first + "\n" + later;
    assert note[..|first|] == first && note[|first|] == '\n';
    FindUnique(note, '\n', |first|);
    assert note[|first| + 1..] == later;
  }

  /** The entries other than annotations. */
  function Traffic(entries: seq<Entry>): seq<Entry> {
    if entries == [] then []
    else (if entries[0].Noted? then [] else [entries[0]]) + Traffic(entries[1..])
  }

  /** Turn `i` writes the command and then reads the response. */
  predicate IsTurn(t: seq<Entry>, i: nat, command: seq<byte>, response: seq<byte>)
    requires 2 * i + 1 < |t|
  {
    t[2 * i].Wrote? && t[2 * i].data == command && t[2 * i + 1].ReadBack? && t[2 * i + 1].data == response
  }

  ghost predicate AreTurns(t: seq<Entry>, commands: seq<seq<byte>>, responses: seq<seq<byte>>) {
    && |t| == 2 * |commands| && |responses| == |commands|
    && forall i :: 0 <= i < |commands| ==> IsTurn(t, i, commands[i], responses[i])
  }

  /** `commands[i]` was written and then `responses[i]` read, in turn, with any annotations between. */
  ghost predicate Alternates(entries: seq<Entry>, commands: seq<seq<byte>>, responses: seq<seq<byte>>) {
    AreTurns(Traffic(entries), commands, responses)
  }

  function Zip(commands: seq<seq<byte>>, responses: seq<seq<byte>>): (pairs: seq<Pair>)
    requires |commands| == |responses|
  {
    seq(|commands|, i requires 0 <= i < |commands| => (WithoutTrailingCr(commands[i]), responses[i]))
  }

  lemma {:induction false} AnnotationsAreSilent(entries: seq<Entry>, pending: Option<seq<byte>>)
    ensures Conversation(entries, pending) == Conversation(Traffic(entries), pending)
  {
    if entries != [] {
      var rest := entries[1..];
      forall p ensures Conversation(rest, p) == Conversation(Traffic(rest), p) {
        AnnotationsAreSilent(rest, p);
      }
      if entries[0].Noted? {
        assert [] + Traffic(rest) == Traffic(rest);
      } else {
        assert ([entries[0]] + Traffic(rest))[1..] == Traffic(rest);
      }
    }
  }

  lemma {:induction false} TurnsZip(t: seq<Entry>, commands: seq<seq<byte>>, responses: seq<seq<byte>>)
    requires AreTurns(t, commands, responses)
    ensures Conversation(t, None) == Zip(commands, responses)
  {
    hide WithoutTrailingCr;
    if commands != [] {
      assert IsTurn(t, 0, commands[0], responses[0]);
      var rest := t[2..];
      assert t[1..][1..] == rest;
      LaterTurns(t, commands, responses);
      TurnsZip(rest, commands[1..], responses[1..]);
      assert Conversation(t[1..], Some(WithoutTrailingCr(commands[0]))) ==
             [(WithoutTrailingCr(commands[0]), responses[0])] + Conversation(rest, None);
      assert Zip(commands, responses) ==
             [(WithoutTrailingCr(commands[0]), responses[0])] + Zip(commands[1..], responses[1..]);
    }
  }

  lemma LaterTurns(t: seq<Entry>, commands: seq<seq<byte>>, responses: seq<seq<byte>>)
    requires AreTurns(t, commands, responses) && commands != []
    ensures AreTurns(t[2..], commands[1..], responses[1..])
  {
    forall i | 0 <= i < |commands[1..]| ensures IsTurn(t[2..], i, commands[1..][i], responses[1..][i]) {
      assert IsTurn(t, i + 1, commands[i + 1], responses[i + 1]);
      assert t[2..][2 * i] == t[2 * (i + 1)] && t[2..][2 * i + 1] == t[2 * (i + 1) + 1];
    }
  }

  /** For an alternating run of writes and reads, the parser returns exactly the pairs, in order. */
  lemma AlternatingRoundTrip(
    comments: seq<string>, entries: seq<Entry>, commands: seq<seq<byte>>, responses: seq<seq<byte>>)
    requires forall i :: 0 <= i < |comments| ==> '\n' !in comments[i]
    requires NotesAreQuiet(entries) && Alternates(entries, commands, responses)
    ensures ParseLines(Lines(RenderHeader(comments) + Render(entries)), None) == Zip(commands, responses)
  {
    hide Lines, ParseLines;
    CaptureRoundTrip(comments, entries);
    AnnotationsAreSilent(entries, None);
    TurnsZip(Traffic(entries), commands, responses);
  }
}
