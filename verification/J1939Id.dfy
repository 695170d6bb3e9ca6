/**
  The 29-bit J1939 identifier codec (`J1939CanId` in `protocol/j1939.rs`).

  Shifts and masks are written as multiplication, division and remainder by
  powers of two; the fields that `encode` joins with `|` occupy disjoint bits.
 */
module J1939Id {
  import opened Basics

  const MAX_PGN: u32 := 0x03_FFFF
  const MAX_IDENTIFIER: u32 := 0x1FFF_FFFF
  const GLOBAL_ADDRESS: byte := 0xFF

  datatype J1939CanId = J1939CanId(priority: byte, pgn: u32, source: byte, destination: Option<byte>)

  function PduFormat(pgn: u32): byte {
    pgn / 0x100 % 0x100
  }

  /** PDU1 parameter groups are addressed to one destination. */
  predicate IsPdu1(pgn: u32) {
    PduFormat(pgn) < 240
  }

  /** `pgn & 0x03_FF00`: the data-page and format bits. */
  function PageAndFormat(pgn: u32): (r: u32)
    ensures r <= 0x03_FF00
  {
    pgn / 0x100 % 0x400 * 0x100
  }

  function Normalized(pgn: u32): u32 {
    if IsPdu1(pgn) then PageAndFormat(pgn) else pgn % 0x4_0000
  }

  /** `J1939CanId::new`. */
  function New(priority: byte, pgn: u32, source: byte, destination: Option<byte>): Result<J1939CanId> {
    if priority > 7 || pgn > MAX_PGN || (IsPdu1(pgn) && destination.None?) then Err(ParseError)
    else Ok(J1939CanId(priority, Normalized(pgn), source, destination))
  }

  lemma PriorityBits(priority: byte)
    ensures priority * 0x400_0000 % 0x1_0000_0000 == priority % 64 * 0x400_0000
  {
    assert priority * 0x400_0000 == priority / 64 * 0x1_0000_0000 + priority % 64 * 0x400_0000;
  }

  function Encode(id: J1939CanId): u32 {
    hide PduFormat, IsPdu1, PageAndFormat, Normalized;
    PriorityBits(id.priority);
    var pgn := Normalized(id.pgn);
    var ps :=
      if IsPdu1(pgn) then (if id.destination.Some? then id.destination.value else GLOBAL_ADDRESS)
      else pgn % 0x100;
    id.priority * 0x400_0000 % 0x1_0000_0000 + PageAndFormat(pgn) * 0x100 + ps * 0x100 + id.source
  }

  function Decode(identifier: u32): Result<J1939CanId> {
    if identifier > MAX_IDENTIFIER then Err(ParseError) else
      var priority := identifier / 0x400_0000 % 8;
      var source := identifier % 0x100;
      var pf := identifier / 0x1_0000 % 0x100;
      var ps := identifier / 0x100 % 0x100;
      var rawPgn := identifier / 0x100 % 0x4_0000;
      if pf < 240 then Ok(J1939CanId(priority, PageAndFormat(rawPgn), source, Some(ps)))
      else Ok(J1939CanId(priority, rawPgn, source, None))
  }

  /** The fields of an identifier: priority, data page, format, specific byte and source. */
  lemma Fields(identifier: u32, priority: nat, page: nat, pf: byte, ps: byte, source: byte)
    requires priority < 8 && page < 4
    requires identifier == priority * 0x400_0000 + page * 0x100_0000 + pf * 0x1_0000 + ps * 0x100 + source
    ensures identifier <= MAX_IDENTIFIER
    ensures identifier / 0x400_0000 % 8 == priority
    ensures identifier / 0x1_0000 % 0x100 == pf
    ensures identifier / 0x100 % 0x100 == ps
    ensures identifier % 0x100 == source
    ensures identifier / 0x100 % 0x4_0000 == page * 0x1_0000 + pf * 0x100 + ps
  {
    var pgn := page * 0x1_0000 + pf * 0x100 + ps;
    LowByte(identifier, priority * 0x4_0000 + pgn, source);
    LowByte(priority * 0x4_0000 + pgn, priority * 0x400 + page * 0x100 + pf, ps);
    LowByte(priority * 0x400 + page * 0x100 + pf, priority * 4 + page, pf);
    TwoBytes(identifier);
    HighBits(priority, identifier - priority * 0x400_0000, pgn);
  }

  lemma TwoBytes(x: nat)
    ensures x / 0x1_0000 == x / 0x100 / 0x100
  {
  }

  lemma HighBits(priority: nat, low: nat, pgn: nat)
    requires priority < 8 && low < 0x400_0000 && pgn < 0x4_0000
    ensures (priority * 0x400_0000 + low) / 0x400_0000 % 8 == priority
    ensures (priority * 0x4_0000 + pgn) % 0x4_0000 == pgn
  {
  }

  lemma LowByte(x: nat, rest: nat, low: byte)
    requires x == rest * 0x100 + low
    ensures x / 0x100 == rest && x % 0x100 == low
  {
  }

  lemma PgnFields(pgn: u32, page: nat, pf: byte, ps: byte)
    requires page < 4 && pgn == page * 0x1_0000 + pf * 0x100 + ps
    ensures PduFormat(pgn) == pf && PageAndFormat(pgn) == page * 0x1_0000 + pf * 0x100
    ensures pgn % 0x100 == ps && pgn % 0x4_0000 == pgn
  {
    assert pgn / 0x100 == page * 0x100 + pf;
  }

  lemma EncodeFields(id: J1939CanId, page: nat, pf: byte, ps: byte)
    requires id.priority < 8 && page < 4 && id.pgn == page * 0x1_0000 + pf * 0x100 + ps
    ensures Encode(id) ==
      id.priority * 0x400_0000 + page * 0x100_0000 + pf * 0x1_0000 + id.source +
      0x100 * if pf >= 240 then ps else if id.destination.Some? then id.destination.value else GLOBAL_ADDRESS
  {
    PgnFields(id.pgn, page, pf, ps);
    PgnFields(page * 0x1_0000 + pf * 0x100, page, pf, 0);
  }

  lemma PgnParts(pgn: nat)
    ensures pgn == pgn / 0x1_0000 * 0x1_0000 + pgn / 0x100 % 0x100 * 0x100 + pgn % 0x100
  {
    TwoBytes(pgn);
    ByteAndRest(pgn);
    ByteAndRest(pgn / 0x100);
  }

  lemma DecodeFields(identifier: u32, priority: byte, page: nat, pf: byte, ps: byte, source: byte)
    requires priority < 8 && page < 4
    requires identifier == priority * 0x400_0000 + page * 0x100_0000 + pf * 0x1_0000 + ps * 0x100 + source
    ensures identifier <= MAX_IDENTIFIER
    ensures Decode(identifier) == Ok(
              if pf < 240 then J1939CanId(priority, page * 0x1_0000 + pf * 0x100, source, Some(ps))
              else J1939CanId(priority, page * 0x1_0000 + pf * 0x100 + ps, source, None))
  {
    Fields(identifier, priority, page, pf, ps, source);
    PgnFields(page * 0x1_0000 + pf * 0x100 + ps, page, pf, ps);
    hide PageAndFormat, PduFormat;
  }

  lemma Parts(identifier: u32)
    ensures identifier ==
      identifier / 0x400_0000 * 0x400_0000 + identifier / 0x100_0000 % 4 * 0x100_0000 +
      identifier / 0x1_0000 % 0x100 * 0x1_0000 + identifier / 0x100 % 0x100 * 0x100 + identifier % 0x100
  {
    var (q1, q2, q3) := (identifier / 0x100, identifier / 0x1_0000, identifier / 0x100_0000);
    TwoBytes(identifier);
    ThreeBytes(identifier);
    TopBits(identifier);
    ByteAndRest(identifier);
    ByteAndRest(q1);
    ByteAndRest(q2);
  }

  lemma ByteAndRest(x: nat)
    ensures x == x / 0x100 * 0x100 + x % 0x100
  {
  }

  lemma ThreeBytes(x: nat)
    ensures x / 0x100_0000 == x / 0x1_0000 / 0x100
  {
  }

  lemma TopBits(x: nat)
    ensures x / 0x100_0000 == x / 0x400_0000 * 4 + x / 0x100_0000 % 4
  {
  }

  /** Every 29-bit identifier survives decoding and encoding, and nothing wider is decoded. */
  lemma EncodeInvertsDecode(identifier: u32)
    ensures Decode(identifier).Ok? <==> identifier <= MAX_IDENTIFIER
    ensures Decode(identifier).Ok? ==> Encode(Decode(identifier).value) == identifier
  {
    if identifier <= MAX_IDENTIFIER {
      var priority := identifier / 0x400_0000;
      var page := identifier / 0x100_0000 % 4;
      var pf := identifier / 0x1_0000 % 0x100;
      var ps := identifier / 0x100 % 0x100;
      Parts(identifier);
      Fields(identifier, priority, page, pf, ps, identifier % 0x100);
      PgnFields(identifier / 0x100 % 0x4_0000, page, pf, ps);
      hide Encode, PduFormat, PageAndFormat;
      EncodeFields(Decode(identifier).value, page, pf, if pf < 240 then 0 else ps);
    }
  }

  /**
    An accepted identifier fits 29 bits and survives encoding and decoding exactly when it
    has a destination iff its parameter group is destination-specific: `new` refuses a PDU1 group
    without a destination, but accepts a PDU2 group with one, which the wire cannot carry.
   */
  lemma DecodeInvertsEncodeExactly(priority: byte, pgn: u32, source: byte, destination: Option<byte>)
    requires New(priority, pgn, source, destination).Ok?
    ensures
      var id := New(priority, pgn, source, destination).value;
      && Encode(id) <= MAX_IDENTIFIER
      && (Decode(Encode(id)) == Ok(id) <==> (destination.Some? <==> IsPdu1(pgn)))
  {
    var (page, pf, ps) := (pgn / 0x1_0000, pgn / 0x100 % 0x100, pgn % 0x100);
    PgnParts(pgn);
    PgnFields(pgn, page, pf, ps);
    var id := New(priority, pgn, source, destination).value;
    var wirePs := if pf >= 240 then ps else destination.value;
    hide Encode, Decode, PduFormat, PageAndFormat;
    EncodeFields(id, page, pf, if pf >= 240 then ps else 0);
    DecodeFields(Encode(id), priority, page, pf, wirePs, source);
  }

  /** The first PDU2 group with a destination: accepted, and decoded without the destination. */
  lemma AddressedPdu2IsLost()
    ensures New(0, 0xF000, 0, Some(0)) == Ok(J1939CanId(0, 0xF000, 0, Some(0)))
    ensures Decode(Encode(J1939CanId(0, 0xF000, 0, Some(0)))) == Ok(J1939CanId(0, 0xF000, 0, None))
  {
    var id := J1939CanId(0, 0xF000, 0, Some(0));
    PgnFields(0xF000, 0, 0xF0, 0);
    EncodeFields(id, 0, 0xF0, 0);
    Fields(0xF0_0000, 0, 0, 0xF0, 0, 0);
    hide Encode, PduFormat, PageAndFormat;
    assert Encode(id) == 0xF0_0000;
  }
}
