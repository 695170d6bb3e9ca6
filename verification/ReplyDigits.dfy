/** The hexadecimal digits that `check_response_error` takes from a whole reply (`adapter/elm327.rs`). */
module ReplyDigits {
  import opened Basics
  import opened Hex
  import opened ElmCodec
  import opened Elm327

  type nibble = n: int | 0 <= n < 16

  function Digits(s: string): seq<nibble> {
    if s == "" then []
    else (if HexNibble(s[0]).Some? then [HexNibble(s[0]).value] else []) + Digits(s[1..])
  }

  /** Digits in pairs; an odd one at the end is dropped. */
  function Paired(digits: seq<nibble>): seq<byte> {
    if |digits| < 2 then [] else [16 * digits[0] as int + digits[1] as int] + Paired(digits[2..])
  }

  function Nibbles(bytes: seq<byte>): seq<nibble> {
    if bytes == [] then [] else [bytes[0] / 16, bytes[0] % 16] + Nibbles(bytes[1..])
  }

  /** The pending high digit of the code's loop is the digit before the text. */
  lemma {:induction false} DigitBytesPairs(s: string, high: Option<nat>)
    requires high.Some? ==> high.value < 16
    ensures DigitBytes(s, high) == Paired((if high.Some? then [high.value] else []) + Digits(s))
  {
    hide HexNibble, Paired, Digits;
    DigitsFirst(s);
    var pending: seq<nibble> := if high.Some? then [high.value] else [];
    if s == "" {
      FewPaired(pending);
      assert pending + [] == pending;
    } else {
      var (nibble, rest) := (HexNibble(s[0]), Digits(s[1..]));
      if nibble.None? {
        DigitBytesPairs(s[1..], high);
      } else if high.None? {
        DigitBytesPairs(s[1..], nibble);
        assert [] + ([nibble.value] + rest) == [nibble.value] + rest;
      } else {
        DigitBytesPairs(s[1..], None);
        PairsFirst(high.value, nibble.value, rest);
        assert [high.value] + ([nibble.value] + rest) == [high.value, nibble.value] + rest;
        assert [] + rest == rest;
      }
    }
  }

  lemma DigitsFirst(s: string)
    ensures
      Digits(s) ==
      if s == "" then []
      else if HexNibble(s[0]).Some? then [HexNibble(s[0]).value] + Digits(s[1..])
      else Digits(s[1..])
  {
    hide HexNibble;
    assert s != "" ==> [] + Digits(s[1..]) == Digits(s[1..]);
  }

  lemma FewPaired(digits: seq<nibble>)
    requires |digits| < 2
    ensures Paired(digits) == []
  {
  }

  lemma {:induction false} DigitsJoin(a: string, b: string)
    ensures Digits(a + b) == Digits(a) + Digits(b)
  {
    hide HexNibble, Digits;
    DigitsFirst(a);
    DigitsFirst(a + b);
    if a == "" {
      assert a + b == b && [] + Digits(b) == Digits(b);
    } else {
      assert (a + b)[0] == a[0] && (a + b)[1..] == a[1..] + b;
      DigitsJoin(a[1..], b);
      var (x, y) := (Digits(a[1..]), Digits(b));
      if HexNibble(a[0]).Some? {
        assert [HexNibble(a[0]).value] + (x + y) == [HexNibble(a[0]).value] + x + y;
      }
    }
  }

  lemma {:induction false} NoDigits(s: string)
    requires forall i :: 0 <= i < |s| ==> HexNibble(s[i]).None?
    ensures Digits(s) == []
  {
    hide HexNibble;
    if s != "" {
      NoDigits(s[1..]);
    }
  }

  lemma {:induction false} PairedBytes(bytes: seq<byte>, rest: seq<nibble>)
    ensures Paired(Nibbles(bytes) + rest) == bytes + Paired(rest)
  {
    hide Nibbles, Paired;
    NibblesFirst(bytes);
    if bytes == [] {
      assert Nibbles(bytes) + rest == rest && bytes + Paired(rest) == Paired(rest);
    } else {
      PairedBytes(bytes[1..], rest);
      var (high, low, more) := (bytes[0] / 16, bytes[0] % 16, Nibbles(bytes[1..]));
      assert [high, low] + more + rest == [high, low] + (more + rest);
      PairsFirst(high, low, more + rest);
      assert 16 * high + low == bytes[0] && bytes == [bytes[0]] + bytes[1..];
      assert [bytes[0]] + (bytes[1..] + Paired(rest)) == bytes + Paired(rest);
    }
  }

  lemma NibblesFirst(bytes: seq<byte>)
    ensures Nibbles(bytes) == if bytes == [] then [] else [bytes[0] / 16, bytes[0] % 16] + Nibbles(bytes[1..])
  {
  }

  lemma PairsFirst(high: nibble, low: nibble, rest: seq<nibble>)
    ensures Paired([high, low] + rest) == [16 * high as int + low as int] + Paired(rest)
  {
    assert ([high, low] + rest)[2..] == rest;
  }

  lemma DigitsOfByte(b: byte)
    ensures Digits(ByteText(b)) == [b / 16, b % 16]
  {
    hide Digit, HexNibble;
    var text := ByteText(b);
    assert text[1..] == [Digit(b % 16)] && text[1..][1..] == "";
    assert Digits(text[1..]) == [b % 16] + Digits("");
  }

  lemma {:induction false} DigitsOfRendering(bytes: seq<byte>, spaced: bool)
    ensures Digits(RenderHex(bytes, spaced)) == Nibbles(bytes)
  {
    hide ByteText, Digits;
    if bytes == [] {
      NoDigits("");
    } else {
      DigitsOfByte(bytes[0]);
      if |bytes| > 1 {
        var (separator, rest) := (if spaced then " " else "", RenderHex(bytes[1..], spaced));
        DigitsOfRendering(bytes[1..], spaced);
        NoDigits(separator);
        DigitsJoin(ByteText(bytes[0]) + separator, rest);
        DigitsJoin(ByteText(bytes[0]), separator);
      }
    }
  }

  // ---- What trimming and squeezing leave alone ----

  lemma {:induction false} TrimStartKeepsDigits(s: string)
    ensures Digits(TrimStart(s)) == Digits(s) && forall c :: c in s ==> c in TrimStart(s) || IsSpace(c)
  {
    if s != "" && IsSpace(s[0]) {
      TrimStartKeepsDigits(s[1..]);
      assert s == [s[0]] + s[1..];
    }
  }

  lemma DropsLast(s: string)
    requires s != "" && HexNibble(s[|s| - 1]).None?
    ensures Digits(s[..|s| - 1]) == Digits(s)
    ensures forall c :: c in s ==> c in s[..|s| - 1] || c == s[|s| - 1]
  {
    var (front, last) := (s[..|s| - 1], s[|s| - 1..]);
    assert s == front + last;
    NoDigits(last);
    DigitsJoin(front, last);
  }

  lemma {:induction false} TrimEndKeepsDigits(s: string)
    ensures Digits(TrimEnd(s)) == Digits(s) && forall c :: c in s ==> c in TrimEnd(s) || IsSpace(c)
  {
    if s != "" && IsSpace(s[|s| - 1]) {
      DropsLast(s);
      TrimEndKeepsDigits(s[..|s| - 1]);
    }
  }

  lemma {:induction false} TrimPromptsKeepsDigits(s: string)
    ensures Digits(TrimPrompts(s)) == Digits(s) && forall c :: c in s ==> c in TrimPrompts(s) || c == '>'
  {
    if s != "" && s[|s| - 1] == '>' {
      DropsLast(s);
      TrimPromptsKeepsDigits(s[..|s| - 1]);
    }
  }

  lemma CleanKeepsDigits(raw: string)
    ensures Digits(Clean(raw)) == Digits(raw)
    ensures forall c :: c in raw ==> c in Clean(raw) || IsSpace(c) || c == '>'
  {
    hide Digits, IsSpace, TrimStart, TrimEnd, TrimPrompts;
    TrimStartKeepsDigits(raw);
    TrimEndKeepsDigits(TrimStart(raw));
    TrimPromptsKeepsDigits(TrimEnd(TrimStart(raw)));
  }

  lemma TrimKeepsDigits(s: string)
    ensures Digits(Trim(s)) == Digits(s)
  {
    hide Digits, IsSpace, TrimStart, TrimEnd;
    TrimStartKeepsDigits(s);
    TrimEndKeepsDigits(TrimStart(s));
  }

  lemma {:induction false} SqueezeKeepsDigits(s: string)
    ensures Digits(Squeeze(s)) == Digits(s) && forall c :: c in s ==> c in Squeeze(s) || IsAsciiSpace(c)
  {
    if s != "" {
      SqueezeKeepsDigits(s[1..]);
      assert s == [s[0]] + s[1..];
      DigitsJoin(if IsAsciiSpace(s[0]) then "" else [s[0]], Squeeze(s[1..]));
      DigitsJoin([s[0]], s[1..]);
      if IsAsciiSpace(s[0]) {
        NoDigits([s[0]]);
      }
    }
  }

  lemma {:induction false} SameDigits(a: string, b: string)
    requires SameIgnoringCase(a, b)
    ensures Digits(a) == Digits(b)
  {
    if a != "" {
      LowerKeepsNibble(a[0], b[0]);
      SameDigits(a[1..], b[1..]);
    }
  }

  // ---- Lines ----

  /** None of the letters by which the code tells an adapter's message from a vehicle's response. */
  predicate Wordless(s: string) {
    'O' !in s && 'U' !in s && '?' !in s
  }

  lemma {:induction false} BlankIsSpace(s: string)
    requires Tokens(s) == []
    ensures forall i :: 0 <= i < |s| ==> IsSpace(s[i])
  {
    if s != "" {
      BlankIsSpace(s[1..]);
    }
  }

  lemma BlankLine(raw: string)
    requires Tokens(Clean(raw)) == []
    ensures Digits(raw) == [] && Wordless(raw)
  {
    hide Clean, Tokens;
    BlankIsSpace(Clean(raw));
    CleanKeepsDigits(raw);
    NoDigits(Clean(raw));
  }

  lemma {:induction false} HexIsWordless(s: string)
    requires forall i :: 0 <= i < |s| ==> HexNibble(s[i]).Some?
    ensures Wordless(s)
  {
  }

  lemma {:induction false} RenderingIsHex(bytes: seq<byte>)
    ensures forall i :: 0 <= i < |RenderHex(bytes, false)| ==> HexNibble(RenderHex(bytes, false)[i]).Some?
  {
    if |bytes| > 1 {
      RenderingIsHex(bytes[1..]);
    }
  }

  lemma EchoIsHex(line: string, request: seq<byte>)
    requires IsEcho(line, RenderHex(request, false))
    ensures Digits(line) == Nibbles(request)
    ensures forall i :: 0 <= i < |Squeeze(line)| ==> HexNibble(Squeeze(line)[i]).Some?
  {
    hide RenderHex, HexNibble, Squeeze, Digits;
    var (text, asked) := (Squeeze(line), Squeeze(RenderHex(request, false)));
    SqueezeKeepsDigits(line);
    CommandIsSqueezed(request);
    SameDigits(text, asked);
    DigitsOfRendering(request, false);
    RenderingIsHex(request);
    forall i | 0 <= i < |text| ensures HexNibble(text[i]).Some? {
      LowerKeepsNibble(text[i], asked[i]);
    }
  }

  lemma EchoLineReads(raw: string, request: seq<byte>)
    requires IsEcho(Clean(raw), RenderHex(request, false))
    ensures Digits(raw) == Nibbles(request) && Wordless(raw)
  {
    hide RenderHex, HexNibble, Squeeze, Clean, Digits, IsEcho;
    EchoIsHex(Clean(raw), request);
    CleanKeepsDigits(raw);
    SqueezeKeepsDigits(Clean(raw));
    HexIsWordless(Squeeze(Clean(raw)));
    assert forall c :: c in raw ==> c in Squeeze(Clean(raw)) || IsSpace(c) || c == '>';
  }

  lemma {:induction false} SqueezeKeeps(s: string)
    requires forall i :: 0 <= i < |s| ==> !IsAsciiSpace(s[i])
    ensures Squeeze(s) == s
  {
    if s != "" {
      SqueezeKeeps(s[1..]);
      assert s == [s[0]] + s[1..];
    }
  }

  lemma CommandIsSqueezed(request: seq<byte>)
    ensures Squeeze(RenderHex(request, false)) == RenderHex(request, false)
  {
    hide RenderHex;
    RenderingIsHex(request);
    SqueezeKeeps(RenderHex(request, false));
  }

  lemma {:induction false} RenderingIsWordless(bytes: seq<byte>, spaced: bool)
    ensures Wordless(RenderHex(bytes, spaced))
  {
    if |bytes| > 1 {
      RenderingIsWordless(bytes[1..], spaced);
    }
  }

  lemma OtherLineReads(bytes: seq<byte>, spaced: bool, prompts: nat)
    ensures
      var text := RenderHex(bytes, spaced) + seq(prompts, _ => '>');
      Digits(text) == Nibbles(bytes) && Wordless(text)
  {
    hide RenderHex, Digits;
    var end := seq(prompts, _ => '>');
    DigitsOfRendering(bytes, spaced);
    RenderingIsWordless(bytes, spaced);
    NoDigits(end);
    DigitsJoin(RenderHex(bytes, spaced), end);
  }

  lemma SearchingReads()
    ensures Digits("SEARCHING...") == [0xE, 0xA, 0xC] && Wordless("SEARCHING...")
  {
    hide Digits;
    var (before, between, after) := ("S", "R", "HING...");
    NoDigits(before);
    NoDigits(between);
    NoDigits(after);
    ReadsTwo('E', 'A');
    ReadsOne('C');
    DigitsJoin(before, ['E', 'A'] + (between + (['C'] + after)));
    DigitsJoin(['E', 'A'], between + (['C'] + after));
    DigitsJoin(between, ['C'] + after);
    DigitsJoin(['C'], after);
    assert "SEARCHING..." == before + (['E', 'A'] + (between + (['C'] + after)));
  }

  lemma ReadsOne(c: char)
    requires HexNibble(c).Some?
    ensures Digits([c]) == [HexNibble(c).value]
  {
    assert [c][1..] == "";
  }

  lemma ReadsTwo(c: char, d: char)
    requires HexNibble(c).Some? && HexNibble(d).Some?
    ensures Digits([c, d]) == [HexNibble(c).value, HexNibble(d).value]
  {
    ReadsOne(c);
    ReadsOne(d);
    DigitsJoin([c], [d]);
    assert [c] + [d] == [c, d];
  }

  /** The digits a line holds, for a command that asks with the bytes `request`. */
  function LineDigits(line: ReplyLine, request: seq<byte>): seq<nibble> {
    match line
    case OtherLine(bytes, _, _) => Nibbles(bytes)
    case EchoLine(_) => Nibbles(request)
    case Searching => [0xE, 0xA, 0xC]
    case _ => []
  }

  function DigitsOf(lines: seq<ReplyLine>, request: seq<byte>): seq<nibble> {
    if lines == [] then [] else LineDigits(lines[0], request) + DigitsOf(lines[1..], request)
  }

  /** The bytes that the error check sees in a reply. */
  function Heard(lines: seq<ReplyLine>, request: seq<byte>): seq<byte> {
    Paired(DigitsOf(lines, request))
  }

  /** No response to the command among the lines, and each is what its kind says. */
  ghost predicate Answerless(lines: seq<ReplyLine>, request: seq<byte>) {
    forall i :: 0 <= i < |lines| ==>
      match lines[i]
      case OtherLine(_, _, _) => true
      case Blank(raw) => Tokens(Clean(raw)) == []
      case Searching => true
      case EchoLine(raw) => IsEcho(Clean(raw), RenderHex(request, false))
      case _ => false
  }

  lemma LineReads(line: ReplyLine, request: seq<byte>)
    requires Answerless([line], request)
    ensures Digits(LineText(line, [])) == LineDigits(line, request) && Wordless(LineText(line, []))
  {
    hide Digits, RenderHex, Clean, Tokens, IsEcho, Wordless;
    assert [line][0] == line;
    match line
    case OtherLine(bytes, spaced, prompts) => OtherLineReads(bytes, spaced, prompts);
    case Blank(raw) => BlankLine(raw);
    case Searching => SearchingReads();
    case EchoLine(raw) => EchoLineReads(raw, request);
    case _ =>
  }

  lemma {:induction false} JoinedReads(lines: seq<ReplyLine>, breaks: seq<char>, request: seq<byte>)
    requires Answerless(lines, request)
    requires |breaks| + 1 == |lines| && forall i :: 0 <= i < |breaks| ==> IsBreak(breaks[i])
    ensures
      var reply := Join(Texts(lines, []), breaks);
      Digits(reply) == DigitsOf(lines, request) && Wordless(reply)
    decreases |lines|
  {
    hide Digits, LineDigits, LineText, IsEcho, Clean, Tokens, HexNibble;
    var (line, rest) := (lines[0], lines[1..]);
    assert [line][0] == lines[0];
    LineReads(line, request);
    if breaks == [] {
      assert rest == [] && DigitsOf(lines, request) == LineDigits(line, request) + [];
    } else {
      assert forall i :: 0 <= i < |rest| ==> rest[i] == lines[i + 1];
      assert Texts(lines, [])[1..] == Texts(rest, []);
      JoinedReads(rest, breaks[1..], request);
      var (text, later) := (LineText(line, []), Join(Texts(rest, []), breaks[1..]));
      BreakReads(text, breaks[0], later);
    }
  }

  lemma BreakReads(text: string, c: char, later: string)
    requires IsBreak(c)
    ensures Digits(text + [c] + later) == Digits(text) + Digits(later)
    ensures Wordless(text) && Wordless(later) ==> Wordless(text + [c] + later)
  {
    hide Digits;
    DigitsJoin(text + [c], later);
    DigitsJoin(text, [c]);
    NoDigits([c]);
    assert Digits(text) + [] + Digits(later) == Digits(text) + Digits(later);
  }
}
