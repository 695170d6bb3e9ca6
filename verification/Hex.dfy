/** Hexadecimal text (`protocol/hex.rs`) and the string operations it rests on. */
module Hex {
  import opened Basics

  /** The Unicode white space that `trim` and `split_whitespace` recognise. */
  predicate IsSpace(c: char) {
    var n := c as int;
    || 0x09 <= n <= 0x0D || n == 0x20 || n == 0x85 || n == 0xA0 || n == 0x1680
    || 0x2000 <= n <= 0x200A || n == 0x2028 || n == 0x2029 || n == 0x202F || n == 0x205F || n == 0x3000
  }

  predicate IsAsciiSpace(c: char) {
    c == ' ' || c == '\t' || c == '\n' || c == '\r' || c as int == 0x0C
  }

  /** `hex_nibble`. */
  function HexNibble(c: char): (v: Option<nat>)
    ensures v.Some? ==> v.value < 16
  {
    if '0' <= c <= '9' then Some(c as int - '0' as int)
    else if 'a' <= c <= 'f' then Some(c as int - 'a' as int + 10)
    else if 'A' <= c <= 'F' then Some(c as int - 'A' as int + 10)
    else None
  }

  /** The bytes of a text of paired hexadecimal digits. */
  function HexPairs(text: string): (r: Result<seq<byte>>)
    ensures r.Err? ==> r.error == ParseError
    ensures r.Ok? ==> |text| == 2 * |r.value|
  {
    if text == "" then Ok([])
    else if |text| == 1 then Err(ParseError)
    else
      var (high, low, rest) := (HexNibble(text[0]), HexNibble(text[1]), HexPairs(text[2..]));
      if high.None? || low.None? || rest.Err? then Err(ParseError)
      else Ok([16 * high.value + low.value] + rest.value)
  }

  /** Length of the token at the front of a text. */
  function TokenLength(s: string): (n: nat)
    ensures n <= |s| && (s != "" && !IsSpace(s[0]) ==> n > 0)
    ensures forall i :: 0 <= i < n ==> !IsSpace(s[i])
    ensures n < |s| ==> IsSpace(s[n])
  {
    if s == "" || IsSpace(s[0]) then 0 else TokenLength(s[1..]) + 1
  }

  /** `split_whitespace`. */
  function Tokens(s: string): (tokens: seq<string>)
    ensures forall i :: 0 <= i < |tokens| ==> tokens[i] != ""
  {
    if s == "" then []
    else if IsSpace(s[0]) then Tokens(s[1..])
    else
      var n := TokenLength(s);
      [s[..n]] + Tokens(s[n..])
  }

  function ParseTokens(tokens: seq<string>): (r: Result<seq<byte>>)
    ensures r.Err? ==> r.error == ParseError
  {
    if tokens == [] then Ok([]) else
      var (first, rest) := (HexPairs(tokens[0]), ParseTokens(tokens[1..]));
      if first.Err? || rest.Err? then Err(ParseError) else Ok(first.value + rest.value)
  }

  /** `parse_hex_line`. */
  function ParseHexLine(line: string): Result<seq<byte>> {
    ParseTokens(Tokens(line))
  }

  method ParseHexTokens(tokens: seq<string>) returns (r: Result<seq<byte>>)
    ensures r == ParseTokens(tokens)
  {
    var bytes: seq<byte> := [];
    PrependNothing(ParseTokens(tokens));
    assert tokens[0..] == tokens;
    for t := 0 to |tokens|
      invariant ParseTokens(tokens) == Prepend(bytes, ParseTokens(tokens[t..]))
    {
      var raw := tokens[t];
      ghost var later := ParseTokens(tokens[t + 1..]);
      assert tokens[t..][1..] == tokens[t + 1..];
      if raw == "" {
        if later.Ok? {
          assert [] + later.value == later.value;
        }
        continue;
      }
      if |raw| % 2 != 0 {
        OddIsInvalid(raw);
        return Err(ParseError);
      }
      var pairs := ParseHexToken(raw);
      if pairs.Err? {
        return pairs;
      }
      PrependJoins(bytes, pairs.value, later);
      bytes := bytes + pairs.value;
    }
    assert bytes + [] == bytes;
    return Ok(bytes);
  }

  /** The digits of one token, a pair at a time. */
  method ParseHexToken(raw: string) returns (r: Result<seq<byte>>)
    requires |raw| % 2 == 0
    ensures r == HexPairs(raw)
  {
    var bytes: seq<byte> := [];
    var i := 0;
    assert raw[0..] == raw;
    PrependNothing(HexPairs(raw));
    while i < |raw|
      invariant 0 <= i <= |raw| && i % 2 == 0
      invariant HexPairs(raw) == Prepend(bytes, HexPairs(raw[i..]))
    {
      var high := HexNibble(raw[i]);
      if high.None? {
        return Err(ParseError);
      }
      var low := HexNibble(raw[i + 1]);
      if low.None? {
        return Err(ParseError);
      }
      assert raw[i..][2..] == raw[i + 2..];
      PrependJoins(bytes, [16 * high.value + low.value], HexPairs(raw[i + 2..]));
      bytes := bytes + [16 * high.value + low.value];
      i := i + 2;
    }
    assert bytes + [] == bytes;
    return Ok(bytes);
  }

  lemma {:induction false} OddIsInvalid(text: string)
    requires |text| % 2 != 0
    ensures HexPairs(text).Err?
  {
  }

  /** A text without its ASCII white space. */
  function Squeeze(s: string): (t: string)
    ensures forall i :: 0 <= i < |t| ==> !IsAsciiSpace(t[i])
  {
    if s == "" then "" else (if IsAsciiSpace(s[0]) then "" else [s[0]]) + Squeeze(s[1..])
  }

  method ParseCompactHex(input: string) returns (r: Result<seq<byte>>)
    ensures r == HexPairs(Squeeze(input))
  {
    var bytes: seq<byte> := [];
    var high: Option<nat> := None;
    CompactIsPaired(input, None);
    PrependNothing(Compact(input, None));
    assert input[0..] == input;
    for i := 0 to |input|
      invariant high.Some? ==> high.value < 16
      invariant HexPairs(Squeeze(input)) == Prepend(bytes, Compact(input[i..], high))
    {
      var c := input[i];
      assert input[i..][1..] == input[i + 1..];
      if IsAsciiSpace(c) {
        continue;
      }
      var nibble := HexNibble(c);
      if nibble.None? {
        return Err(ParseError);
      }
      if high.Some? {
        PrependJoins(bytes, [16 * high.value + nibble.value], Compact(input[i + 1..], None));
        bytes := bytes + [16 * high.value + nibble.value];
        high := None;
      } else {
        high := nibble;
      }
    }
    if high.Some? {
      return Err(ParseError);
    }
    assert bytes + [] == bytes;
    return Ok(bytes);
  }

  /** The rest of a compact parse, with a high nibble pending or not. */
  function Compact(s: string, high: Option<nat>): Result<seq<byte>>
    requires high.Some? ==> high.value < 16
  {
    if s == "" then (if high.Some? then Err(ParseError) else Ok([]))
    else if IsAsciiSpace(s[0]) then Compact(s[1..], high)
    else
      var nibble := HexNibble(s[0]);
      if nibble.None? then Err(ParseError)
      else if high.None? then Compact(s[1..], nibble)
      else Prepend([16 * high.value + nibble.value], Compact(s[1..], None))
  }

  lemma {:induction false} CompactIsPaired(s: string, high: Option<nat>)
    requires high.Some? ==> high.value < 16
    ensures high.None? ==> Compact(s, None) == HexPairs(Squeeze(s))
    ensures high.Some? ==>
      Compact(s, high) == HexPairs([Digit(high.value)] + Squeeze(s))
  {
    hide HexNibble, IsAsciiSpace, Digit, HexPairs, Squeeze;
    SqueezesFirst(s);
    if s == "" {
      FewDigits(if high.Some? then [Digit(high.value)] else "");
      assert high.Some? ==> [Digit(high.value)] + "" == [Digit(high.value)];
    } else if IsAsciiSpace(s[0]) {
      CompactIsPaired(s[1..], high);
    } else {
      var (rest, nibble) := (Squeeze(s[1..]), HexNibble(s[0]));
      if nibble.None? {
        InvalidDigit(if high.Some? then [Digit(high.value)] else "", s[0], rest);
        assert "" + [s[0]] + rest == [s[0]] + rest;
        assert high.Some? ==> [Digit(high.value)] + [s[0]] + rest == [Digit(high.value)] + ([s[0]] + rest);
      } else if high.None? {
        CompactIsPaired(s[1..], nibble);
        SameNibble(Digit(nibble.value), s[0], rest);
      } else {
        CompactIsPaired(s[1..], None);
        PairAhead(Digit(high.value), s[0], rest);
        assert [Digit(high.value), s[0]] + rest == [Digit(high.value)] + ([s[0]] + rest);
      }
    }
  }

  lemma SqueezesFirst(s: string)
    ensures
      Squeeze(s) ==
      if s == "" then ""
      else if IsAsciiSpace(s[0]) then Squeeze(s[1..])
      else [s[0]] + Squeeze(s[1..])
  {
    assert s != "" ==> "" + Squeeze(s[1..]) == Squeeze(s[1..]);
  }

  lemma FewDigits(text: string)
    requires |text| <= 1
    ensures HexPairs(text) == if text == "" then Ok([]) else Err(ParseError)
  {
  }

  lemma PairAhead(c: char, d: char, rest: string)
    requires HexNibble(c).Some? && HexNibble(d).Some?
    ensures HexPairs([c, d] + rest) == Prepend([16 * HexNibble(c).value + HexNibble(d).value], HexPairs(rest))
  {
    hide HexNibble;
    assert ([c, d] + rest)[2..] == rest;
  }

  lemma SameNibble(c: char, d: char, rest: string)
    requires HexNibble(c) == HexNibble(d) != None
    ensures HexPairs([c] + rest) == HexPairs([d] + rest)
  {
    if rest != "" {
      assert ([c] + rest)[2..] == rest[1..] == ([d] + rest)[2..];
    }
  }

  lemma InvalidDigit(digit: string, c: char, rest: string)
    requires |digit| <= 1 && HexNibble(c).None?
    ensures HexPairs(digit + [c] + rest) == Err(ParseError)
  {
  }

  // ---- Rendering ----

  function Digit(n: nat): (c: char)
    requires n < 16
    ensures HexNibble(c) == Some(n) && !IsSpace(c) && !IsAsciiSpace(c) && c != '>'
  {
    "0123456789ABCDEF"[n]
  }

  function ByteText(b: byte): (s: string)
    ensures |s| == 2
  {
    [Digit(b / 16), Digit(b % 16)]
  }

  /** The adapter's rendering of a line of bytes, with or without spaces between them. */
  function RenderHex(bytes: seq<byte>, spaced: bool): string {
    if bytes == [] then ""
    else if |bytes| == 1 then ByteText(bytes[0])
    else ByteText(bytes[0]) + (if spaced then " " else "") + RenderHex(bytes[1..], spaced)
  }

  lemma {:induction false} CompactPairs(bytes: seq<byte>)
    ensures HexPairs(RenderHex(bytes, false)) == Ok(bytes)
  {
    hide HexNibble, IsSpace, IsAsciiSpace, Digit, HexPairs;
    if bytes == [] {
      FewDigits("");
    } else {
      var (b, rest) := (bytes[0], RenderHex(bytes[1..], false));
      CompactPairs(bytes[1..]);
      PairAhead(Digit(b / 16), Digit(b % 16), rest);
      assert RenderHex(bytes, false) == ByteText(b) + rest;
      assert 16 * (b / 16) + b % 16 == b && [b] + bytes[1..] == bytes;
    }
  }

  lemma {:induction false} CompactIsOneToken(bytes: seq<byte>)
    ensures forall c :: c in RenderHex(bytes, false) ==> !IsSpace(c)
  {
    hide HexNibble, IsSpace, IsAsciiSpace, Digit;
    if bytes != [] {
      CompactIsOneToken(bytes[1..]);
      assert RenderHex(bytes, false) == ByteText(bytes[0]) + RenderHex(bytes[1..], false);
    }
  }

  lemma {:induction false} TokenSpans(s: string, rest: string)
    requires forall c :: c in s ==> !IsSpace(c)
    requires rest == "" || IsSpace(rest[0])
    ensures TokenLength(s + rest) == |s|
  {
    if s == "" {
      assert "" + rest == rest;
    } else {
      assert s[0] in s && (s + rest)[1..] == s[1..] + rest;
      TokenSpans(s[1..], rest);
    }
  }

  lemma OneToken(s: string, rest: string)
    requires s != "" && forall c :: c in s ==> !IsSpace(c)
    requires rest == "" || IsSpace(rest[0])
    ensures Tokens(s + rest) == [s] + Tokens(rest)
  {
    TokenSpans(s, rest);
    assert s[0] in s && (s + rest)[..|s|] == s && (s + rest)[|s|..] == rest;
  }

  /** One token alone on its line. */
  lemma ParsesToken(text: string, bytes: seq<byte>)
    requires text != "" && (forall c :: c in text ==> !IsSpace(c)) && HexPairs(text) == Ok(bytes)
    ensures ParseHexLine(text) == Ok(bytes)
  {
    hide IsSpace, HexPairs;
    OneToken(text, "");
    assert text + "" == text && Tokens("") == [] && [text] + [] == [text];
    assert [text][1..] == [] && bytes + [] == bytes;
    assert ParseTokens([text][1..]) == Ok([]);
  }

  /** What the adapter renders parses back, spaced or compact. */
  lemma {:induction false} ParsesRendered(bytes: seq<byte>, spaced: bool)
    ensures ParseHexLine(RenderHex(bytes, spaced)) == Ok(bytes)
    decreases |bytes|
  {
    hide IsSpace, HexPairs, TokenLength, ByteText;
    if |bytes| == 0 {
    } else if !spaced || |bytes| == 1 {
      CompactPairs(bytes);
      CompactIsOneToken(bytes);
      assert RenderHex(bytes, spaced) == RenderHex(bytes, false);
      ParsesToken(RenderHex(bytes, false), bytes);
    } else {
      var (head, tail) := (ByteText(bytes[0]), RenderHex(bytes[1..], true));
      CompactPairs([bytes[0]]);
      CompactIsOneToken([bytes[0]]);
      assert RenderHex([bytes[0]], false) == head;
      ParsesRendered(bytes[1..], true);
      assert RenderHex(bytes, true) == head + (" " + tail);
      LeadingToken(head, tail, [bytes[0]], bytes[1..]);
      assert [bytes[0]] + bytes[1..] == bytes;
    }
  }

  lemma LeadingToken(head: string, tail: string, first: seq<byte>, rest: seq<byte>)
    requires head != "" && (forall c :: c in head ==> !IsSpace(c)) && HexPairs(head) == Ok(first)
    requires ParseHexLine(tail) == Ok(rest)
    ensures ParseHexLine(head + (" " + tail)) == Ok(first + rest)
  {
    hide HexPairs;
    OneToken(head, " " + tail);
    assert (" " + tail)[1..] == tail;
    assert ([head] + Tokens(tail))[1..] == Tokens(tail);
  }

  /** The first two digits of a rendered line are those of its first byte. */
  lemma RenderedStart(bytes: seq<byte>, spaced: bool)
    requires bytes != []
    ensures
      var text := RenderHex(bytes, spaced);
      |text| >= 2 && text[..2] == ByteText(bytes[0]) && |Squeeze(text)| >= 2 && Squeeze(text)[..2] == ByteText(bytes[0])
  {
    var text := RenderHex(bytes, spaced);
    assert text[..2] == ByteText(bytes[0]);
    assert text[0] == Digit(bytes[0] / 16) && text[1] == Digit(bytes[0] % 16);
    assert text[1..][0] == text[1];
  }

  lemma {:induction false} RenderedEnd(bytes: seq<byte>, spaced: bool)
    requires bytes != []
    ensures
      var text := RenderHex(bytes, spaced);
      |text| >= 2 && text[|text| - 1] == Digit(bytes[|bytes| - 1] % 16)
  {
    if |bytes| > 1 {
      RenderedEnd(bytes[1..], spaced);
    }
  }

  lemma {:induction false} RenderedIsOneLine(bytes: seq<byte>, spaced: bool)
    ensures forall c :: c in RenderHex(bytes, spaced) ==> c != '\r' && c != '\n'
  {
    if |bytes| > 1 {
      RenderedIsOneLine(bytes[1..], spaced);
      var text := RenderHex(bytes, spaced);
      forall c | c in text ensures c != '\r' && c != '\n' {
        var sep := if spaced then " " else "";
        assert c in ByteText(bytes[0]) || c in sep || c in RenderHex(bytes[1..], spaced);
      }
    }
  }
}
