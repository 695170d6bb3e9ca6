/**
  Command routing of the ELM327 adapter (`adapter/elm327.rs`): the header cache, recovery from adapter
  faults and protocol selection, with the device it drives. Adapter events are not modelled.
 */
module Elm327 {
  import opened Basics
  import opened Hex
  import ElmCodec

  datatype KLineInit = SlowInit | FastInit

  datatype Protocol =
    | J1850Vpw | J1850Pwm | Iso9141(init: KLineInit) | Kwp2000(init: KLineInit)
    | Can11Bit500 | Can11Bit250 | Can29Bit500 | Can29Bit250 | Auto

  datatype PhysicalAddress =
    | J1850(node: byte, priority: byte, target: byte, source: byte)
    | Can11Bit(requestId: u16, responseId: u16)
    | Can29Bit(wideRequestId: u32, wideResponseId: u32)
    | J1939(sourceAddress: byte)

  datatype Target = Broadcast | Addressed(address: PhysicalAddress)

  datatype Request = Request(service: byte, data: seq<byte>, target: Target)

  // ---- Texts ----

  predicate Contains(s: string, part: string) {
    part <= s || (s != "" && Contains(s[1..], part))
  }

  /** NUL bytes on the line are dropped from every reply. */
  function Sanitize(text: string): string {
    if text == "" then "" else (if text[0] == '\0' then "" else [text[0]]) + Sanitize(text[1..])
  }

  /** The replies that call for recovery. */
  predicate IsFault(text: string) {
    Contains(text, "ERR94") || Contains(text, "LV RESET")
  }

  predicate IsOk(text: string) {
    Contains(text, "OK")
  }

  function FixedHex(n: nat, width: nat): (s: string)
    ensures |s| == width
  {
    if width == 0 then "" else FixedHex(n / 16, width - 1) + [Digit(n % 16)]
  }

  function HexBytes(a: byte, b: byte, c: byte): string {
    FixedHex(a, 2) + FixedHex(b, 2) + FixedHex(c, 2)
  }

  /** The header text of an address: `{:02X}` three times, `{:03X}` or `{:08X}`. */
  function AddressHeader(a: PhysicalAddress): Option<string> {
    match a
    case J1850(_, priority, target, source) => Some(HexBytes(priority, target, source))
    case Can11Bit(id, _) => Some(FixedHex(id, if id < 0x1000 then 3 else 4))
    case Can29Bit(id, _) => Some(FixedHex(id, 8))
    case J1939(_) => None
  }

  /** `default_broadcast_header`. */
  function BroadcastHeader(protocol: Protocol): (h: Option<string>)
    ensures h.None? <==> protocol.Auto?
  {
    match protocol
    case Auto => None
    case Can11Bit500 | Can11Bit250 => Some("7DF")
    case Can29Bit500 | Can29Bit250 => Some("18DB33F1")
    case _ => Some("686AF1")
  }

  /** The header that a request for `target` has to go out under. */
  function TargetHeader(protocol: Protocol, target: Target): Option<string> {
    match target
    case Broadcast => BroadcastHeader(protocol)
    case Addressed(a) => AddressHeader(a)
  }

  // ---- The device ----

  datatype Command = SetHeader(header: string) | Config(text: string) | Obd(service: byte, data: seq<byte>)

  /** What happens to one command: it is answered, its answer is lost, or it never reaches the device. */
  datatype Answer = Reply(text: string) | ReplyLost(text: string) | WriteFailed

  datatype Sent = Sent(command: Command, header: Option<string>)

  /**
    `header` is the last header set, `None` while the active protocol's broadcast header is in force.
    `sent` lists the commands that reached the device and the header in force for each.
   */
  datatype Device = Device(header: Option<string>, answers: seq<Answer>, sent: seq<Sent>, linkFailed: bool)

  /** A fault restores the broadcast header; only an `AT SH` that is answered OK sets one. */
  function HeaderAfter(header: Option<string>, command: Command, text: string): Option<string> {
    if IsFault(text) then None
    else if command.SetHeader? && IsOk(text) then Some(command.header)
    else header
  }

  /** Time passes: answers are used up in order and a failed link is not forgotten. */
  predicate Later(before: Device, after: Device) {
    && |after.answers| <= |before.answers|
    && after.answers == before.answers[|before.answers| - |after.answers|..]
    && (before.linkFailed ==> after.linkFailed)
  }

  /** `send_command_raw`. */
  function Exchange(d: Device, command: Command): (out: (Device, Result<string>))
    ensures Later(d, out.0) && (out.1.Err? ==> out.0.linkFailed)
  {
    if d.answers == [] then (d.(linkFailed := true), Err(Error.Transport))
    else
      var rest := d.answers[1..];
      match d.answers[0]
      case WriteFailed => (d.(answers := rest, linkFailed := true), Err(Error.Transport))
      case ReplyLost(text) =>
        (Device(HeaderAfter(d.header, command, Sanitize(text)), rest, d.sent + [Sent(command, d.header)], true),
         Err(Timeout))
      case Reply(text) =>
        (Device(HeaderAfter(d.header, command, Sanitize(text)), rest, d.sent + [Sent(command, d.header)], d.linkFailed),
         Ok(Sanitize(text)))
  }

  /** Settings sent one after another, their replies ignored, up to the first link failure. */
  function Configure(d: Device, settings: seq<string>): (out: (Device, Result<()>))
    ensures Later(d, out.0) && (out.1.Err? ==> out.0.linkFailed)
    decreases |settings|
  {
    if settings == [] then (d, Ok(()))
    else
      var (next, r) := Exchange(d, Config(settings[0]));
      if r.Err? then (next, Err(r.error)) else Configure(next, settings[1..])
  }

  /** `apply_runtime_defaults`. */
  const RUNTIME_DEFAULTS := ["ATE0", "ATL0", "ATH0", "ATS0", "ATAT1", "ATCAF1", "ATCFC1"]

  /** `apply_protocol_runtime_policy`. */
  function RuntimePolicy(protocol: Protocol): seq<string> {
    match protocol
    case Iso9141(_) => ["ATSI", "ATSW96", "ATWM686AF10100"]
    case Kwp2000(SlowInit) => ["ATSI", "ATSW96", "ATWMC133F13E"]
    case Kwp2000(FastInit) => ["ATFI", "ATSW96", "ATWMC133F13E"]
    case Can11Bit500 | Can11Bit250 | Can29Bit500 | Can29Bit250 => ["ATCAF1", "ATCFC1"]
    case _ => []
  }

  // ---- The adapter ----

  datatype Elm = Elm(cache: Option<string>, protocol: Protocol, device: Device)

  /** `recover_from_adapter_fault`: the cache is forgotten once the device has taken `ATFE`. */
  function Recover(s: Elm): (out: (Elm, Result<()>))
    ensures Later(s.device, out.0.device) && (out.1.Err? ==> out.0.device.linkFailed) && out.0.protocol == s.protocol
  {
    var (after, r) := Exchange(s.device, Config("ATFE"));
    if r.Err? then (s.(device := after), Err(r.error))
    else
      var (settled, done) := Configure(after, RUNTIME_DEFAULTS);
      (Elm(None, s.protocol, settled), done)
  }

  /** `send_command`. */
  function Send(s: Elm, command: Command): (out: (Elm, Result<string>))
    ensures Later(s.device, out.0.device) && (out.1.Err? ==> out.0.device.linkFailed) && out.0.protocol == s.protocol
  {
    var (after, r) := Exchange(s.device, command);
    if r.Err? || !IsFault(r.value) then (s.(device := after), r)
    else
      var (recovered, done) := Recover(s.(device := after));
      (recovered, if done.Err? then Err(done.error) else r)
  }

  /** An `AT SH` that must be answered OK. */
  function ForceHeader(s: Elm, header: string): (out: (Elm, Result<()>))
    ensures Later(s.device, out.0.device) && out.0.protocol == s.protocol
  {
    var (after, r) := Send(s, SetHeader(header));
    if r.Err? then (after, Err(r.error))
    else if !IsOk(r.value) then (after, Err(Error.Adapter))
    else (after.(cache := Some(header)), Ok(()))
  }

  /** `set_header`: nothing is sent for the header that the cache names. */
  function WithHeader(s: Elm, header: string): (out: (Elm, Result<()>))
    ensures Later(s.device, out.0.device) && out.0.protocol == s.protocol
  {
    if s.cache == Some(header) then (s, Ok(())) else ForceHeader(s, header)
  }

  /** `clear_targeting`. */
  function ClearTargeting(s: Elm): (out: (Elm, Result<()>))
    ensures Later(s.device, out.0.device) && out.0.protocol == s.protocol
  {
    if s.cache.None? then (s, Ok(()))
    else
      var header := BroadcastHeader(s.protocol);
      if header.None? then (s.(cache := None), Ok(())) else WithHeader(s, header.value)
  }

  /** `apply_target`. */
  function ApplyTarget(s: Elm, target: Target): (out: (Elm, Result<()>))
    ensures Later(s.device, out.0.device) && out.0.protocol == s.protocol
  {
    match target
    case Broadcast => ClearTargeting(s)
    case Addressed(a) =>
      if AddressHeader(a).None? then (s, Err(Error.Adapter)) else WithHeader(s, AddressHeader(a).value)
  }

  /** `send_routed_command` up to the decoding of the reply. */
  function Routed(s: Elm, q: Request): (out: (Elm, Result<string>))
    ensures Later(s.device, out.0.device) && out.0.protocol == s.protocol
  {
    var (aimed, r) := ApplyTarget(s, q.target);
    if r.Err? then (aimed, Err(r.error)) else Send(aimed, Obd(q.service, q.data))
  }

  function Run(s: Elm, requests: seq<Request>): (out: (Elm, seq<Result<string>>))
    ensures Later(s.device, out.0.device) && out.0.protocol == s.protocol
    decreases |requests|
  {
    if requests == [] then (s, []) else
      var (next, r) := Routed(s, requests[0]);
      var (end, more) := Run(next, requests[1..]);
      (end, [r] + more)
  }

  // ---- The reply to a routed command ----

  /** The hexadecimal text of a vehicle request. */
  function CommandText(service: byte, data: seq<byte>): string {
    RenderHex([service] + data, false)
  }

  /** How many bytes of a response repeat the request. */
  function SkipBytes(service: byte): (n: nat)
    ensures n > 0
  {
    if service in {0x01, 0x02, 0x09} then 2 else if service in {0x21, 0x22} then 3 else 1
  }

  /** What the code looks up elsewhere: headers-on lines and response lengths by PID. */
  datatype Tables = Tables(headersOn: string -> Result<seq<byte>>, responseBytes: byte -> nat)

  /** The codes that `NegativeResponse::from_byte` knows. */
  predicate IsNrc(code: byte) {
    code in {0x10, 0x11, 0x12, 0x13, 0x14, 0x22, 0x31, 0x33, 0x35, 0x36, 0x37, 0x72, 0x78}
  }

  /** `truncate_known_payload`. */
  function Truncated(service: byte, data: seq<byte>, payload: seq<byte>, tables: Tables): seq<byte> {
    if service in {0x01, 0x02} && data != [] then payload[..Min(|payload|, tables.responseBytes(data[0]))] else payload
  }

  /** `compact_response_bytes`: the hexadecimal digits of a text in pairs, everything else ignored. */
  function DigitBytes(s: string, high: Option<nat>): seq<byte>
    requires high.Some? ==> high.value < 16
  {
    if s == "" then [] else
      var nibble := HexNibble(s[0]);
      if nibble.None? then DigitBytes(s[1..], high)
      else if high.None? then DigitBytes(s[1..], nibble)
      else [16 * high.value + nibble.value] + DigitBytes(s[1..], None)
  }

  /** The last known negative-response code from position `from` on. */
  function LastNrc(bytes: seq<byte>, from: nat): Option<byte>
    requires from <= |bytes|
  {
    if |bytes| == from then None
    else if IsNrc(bytes[|bytes| - 1]) then Some(bytes[|bytes| - 1])
    else LastNrc(bytes[..|bytes| - 1], from)
  }

  /** `check_response_error`. */
  function ReplyError(reply: string): Option<Error> {
    var trimmed := Trim(reply);
    if Contains(trimmed, "NO DATA") then Some(NoData)
    else if Contains(trimmed, "UNABLE TO CONNECT") then Some(Error.Adapter)
    else if Contains(trimmed, "BUS INIT") && Contains(trimmed, "ERROR") then Some(Error.Adapter)
    else if Contains(trimmed, "CAN ERROR") then Some(Error.Adapter)
    else if trimmed == "?" then Some(Error.Adapter)
    else
      var bytes := DigitBytes(trimmed, None);
      if |bytes| < 3 || bytes[0] != 0x7F then None
      else
        var nrc := LastNrc(bytes, 2);
        if nrc.Some? then Some(Error.NegativeResponse(bytes[1], nrc.value)) else None
  }

  /** The end of `send_routed_command`: the first payload of the reply, or the error it reports. */
  function DecodeReply(service: byte, data: seq<byte>, reply: string, tables: Tables): Result<seq<byte>> {
    var payload := ElmCodec.DecodeFirst(reply, SkipBytes(service), Some(CommandText(service, data)), tables.headersOn);
    if payload.Ok? then Ok(Truncated(service, data, payload.value, tables))
    else
      var reported := ReplyError(reply);
      if reported.Some? then Err(reported.value) else payload
  }

  // ---- Protocol selection ----

  /** `parse_protocol_response`. */
  function ParseProtocol(reply: string): Protocol {
    var trimmed := Trim(WithoutPrompts(Trim(reply)));
    FromElmCode(if trimmed == "" then '0' else trimmed[|trimmed| - 1])
  }

  function Trim(s: string): string {
    ElmCodec.TrimEnd(ElmCodec.TrimStart(s))
  }

  function WithoutPrompts(s: string): string {
    if s == "" then "" else (if s[0] == '>' then "" else [s[0]]) + WithoutPrompts(s[1..])
  }

  /** `Protocol::from_elm_code`, with `Auto` for an unknown code. */
  function FromElmCode(code: char): Protocol {
    match code
    case '1' => J1850Pwm
    case '2' => J1850Vpw
    case '3' => Iso9141(SlowInit)
    case '4' => Kwp2000(SlowInit)
    case '5' => Kwp2000(FastInit)
    case '6' => Can11Bit500
    case '7' => Can29Bit500
    case '8' => Can11Bit250
    case '9' => Can29Bit250
    case _ => Auto
  }

  datatype Probe = Probe(protocol: Protocol, command: string)

  const FALLBACK_PROBE_ORDER := [
    Probe(Can11Bit500, "ATTP6"), Probe(Can29Bit500, "ATTP7"), Probe(Can11Bit250, "ATTP8"),
    Probe(Can29Bit250, "ATTP9"), Probe(J1850Vpw, "ATTP2"), Probe(J1850Pwm, "ATTP1"),
    Probe(Iso9141(SlowInit), "ATTP3"), Probe(Kwp2000(FastInit), "ATTP5"), Probe(Kwp2000(SlowInit), "ATTP4")]

  /** The vehicle answered the query for supported PIDs. */
  predicate VehicleAnswers(reply: string) {
    Contains(reply, "41 00") || Contains(reply, "4100")
  }

  const SUPPORTED_PIDS := Obd(0x01, [0x00])

  /** The probe loop over the remaining candidates. */
  function ProbeProtocols(s: Elm, order: seq<Probe>): (Elm, Result<Protocol>)
    decreases |order|
  {
    if order == [] then (s, Ok(Auto))
    else
      var (selected, r) := Send(s, Config(order[0].command));
      if r.Err? then (selected, Err(r.error))
      else
        var (asked, reply) := Send(selected, SUPPORTED_PIDS);
        if reply.Err? then (asked, Err(reply.error))
        else if VehicleAnswers(reply.value) then (asked, Ok(order[0].protocol))
        else ProbeProtocols(asked, order[1..])
  }

  /** Settings sent with fault recovery, up to the first failure. */
  function SendAll(s: Elm, settings: seq<string>): (Elm, Result<()>)
    decreases |settings|
  {
    if settings == [] then (s, Ok(()))
    else
      var (next, r) := Send(s, Config(settings[0]));
      if r.Err? then (next, Err(r.error)) else SendAll(next, settings[1..])
  }

  const RESET_SETTINGS := ["ATE0", "ATL0", "ATH0", "ATS0", "ATAT1", "ATSP0"]

  /** Reset and settings; a failing `STI` only means that the chipset is not an STN. */
  function Reset(s: Elm): (Elm, Result<()>) {
    var (reset, r) := Send(s, Config("ATZ"));
    if r.Err? then (reset, Err(r.error)) else SendAll(Send(reset, Config("STI")).0, RESET_SETTINGS)
  }

  function SelectProtocol(s: Elm): (Elm, Result<Protocol>) {
    var (asked, reply) := Send(s, SUPPORTED_PIDS);
    if reply.Err? then (asked, Err(reply.error))
    else if VehicleAnswers(reply.value) then
      var (described, code) := Send(asked, Config("ATDPN"));
      (described, Ok(if code.Ok? then ParseProtocol(code.value) else Auto))
    else ProbeProtocols(asked, FALLBACK_PROBE_ORDER)
  }

  /** `initialize` of an adapter that is not initialized. */
  function Initialized(s: Elm): (Elm, Result<Protocol>) {
    var (reset, r) := Reset(s);
    if r.Err? then (reset, Err(r.error))
    else
      var (found, p) := SelectProtocol(reset);
      if p.Err? then (found, p)
      else if p.value.Auto? then (found, Err(Error.Adapter))
      else
        var (device, done) := Configure(found.device, RuntimePolicy(p.value));
        (Elm(found.cache, p.value, device), if done.Err? then Err(done.error) else p)
  }

  // ---- The adapter as a class ----

  /** The serial link and the device behind it. */
  class ElmLink {
    var header: Option<string>
    var answers: seq<Answer>
    var sent: seq<Sent>
    var linkFailed: bool

    constructor (answers: seq<Answer>)
      ensures State() == Device(None, answers, [], false)
    {
      header, this.answers, sent, linkFailed := None, answers, [], false;
    }

    function State(): Device
      reads this
    {
      Device(header, answers, sent, linkFailed)
    }

    method WriteRead(command: Command) returns (r: Result<string>)
      modifies this
      ensures (State(), r) == Exchange(old(State()), command)
    {
      if answers == [] {
        linkFailed := true;
        return Err(Error.Transport);
      }
      var answer := answers[0];
      answers := answers[1..];
      if answer.WriteFailed? {
        linkFailed := true;
        return Err(Error.Transport);
      }
      sent := sent + [Sent(command, header)];
      header := HeaderAfter(header, command, Sanitize(answer.text));
      if answer.ReplyLost? {
        linkFailed := true;
        return Err(Timeout);
      }
      return Ok(Sanitize(answer.text));
    }
  }

  class Elm327Adapter {
    const transport: ElmLink
    var protocol: Protocol
    var initialized: bool
    var currentHeader: Option<string>

    constructor (transport: ElmLink)
      ensures this.transport == transport && !initialized
      ensures State() == Elm(None, Auto, transport.State())
    {
      this.transport, protocol, initialized, currentHeader := transport, Auto, false, None;
    }

    function State(): Elm
      reads this, transport
    {
      Elm(currentHeader, protocol, transport.State())
    }

    method RecoverFromAdapterFault() returns (r: Result<()>)
      modifies this`currentHeader, transport
      ensures (State(), r) == Recover(old(State()))
    {
      var cleared := transport.WriteRead(Config("ATFE"));
      if cleared.Err? {
        return Err(cleared.error);
      }
      currentHeader := None;
      r := ConfigureRaw(RUNTIME_DEFAULTS);
    }

    method ConfigureRaw(settings: seq<string>) returns (r: Result<()>)
      modifies transport
      ensures (transport.State(), r) == Configure(old(transport.State()), settings)
    {
      assert settings[0..] == settings;
      for i := 0 to |settings|
        invariant Configure(old(transport.State()), settings) == Configure(transport.State(), settings[i..])
      {
        assert settings[i..][1..] == settings[i + 1..];
        var reply := transport.WriteRead(Config(settings[i]));
        if reply.Err? {
          return Err(reply.error);
        }
      }
      return Ok(());
    }

    method SendCommand(command: Command) returns (r: Result<string>)
      modifies this`currentHeader, transport
      ensures (State(), r) == Send(old(State()), command)
    {
      r := transport.WriteRead(command);
      if r.Ok? && IsFault(r.value) {
        var recovered := RecoverFromAdapterFault();
        if recovered.Err? {
          return Err(recovered.error);
        }
      }
    }

    method ApplyHeader(header: string) returns (r: Result<()>)
      modifies this`currentHeader, transport
      ensures (State(), r) == WithHeader(old(State()), header)
    {
      if currentHeader == Some(header) {
        return Ok(());
      }
      var response := SendCommand(SetHeader(header));
      if response.Err? {
        return Err(response.error);
      }
      if !IsOk(response.value) {
        return Err(Error.Adapter);
      }
      currentHeader := Some(header);
      return Ok(());
    }

    method ClearTargets() returns (r: Result<()>)
      modifies this`currentHeader, transport
      ensures (State(), r) == ClearTargeting(old(State()))
    {
      if currentHeader.None? {
        return Ok(());
      }
      var header := BroadcastHeader(protocol);
      if header.None? {
        currentHeader := None;
        return Ok(());
      }
      r := ApplyHeader(header.value);
    }

    method Aim(target: Target) returns (r: Result<()>)
      modifies this`currentHeader, transport
      ensures (State(), r) == ApplyTarget(old(State()), target)
    {
      if target.Broadcast? {
        r := ClearTargets();
      } else {
        var header := AddressHeader(target.address);
        if header.None? {
          return Err(Error.Adapter);
        }
        r := ApplyHeader(header.value);
      }
    }

    /** The digits of a reply, by a loop with a pending high nibble. */
    static method CompactResponseBytes(response: string) returns (bytes: seq<byte>)
      ensures bytes == DigitBytes(response, None)
    {
      bytes := [];
      var high: Option<nat> := None;
      assert response[0..] == response;
      for i := 0 to |response|
        invariant high.Some? ==> high.value < 16
        invariant DigitBytes(response, None) == bytes + DigitBytes(response[i..], high)
      {
        assert response[i..][1..] == response[i + 1..];
        var nibble := HexNibble(response[i]);
        if nibble.None? {
          continue;
        }
        if high.Some? {
          bytes, high := bytes + [16 * high.value + nibble.value], None;
        } else {
          high := nibble;
        }
      }
      assert bytes + [] == bytes;
    }

    method SendRoutedCommand(request: Request, tables: Tables) returns (r: Result<seq<byte>>)
      modifies this`currentHeader, transport
      ensures
        var (after, reply) := Routed(old(State()), request);
        && State() == after
        && r == if reply.Err? then Err(reply.error) else DecodeReply(request.service, request.data, reply.value, tables)
    {
      var aimed := Aim(request.target);
      if aimed.Err? {
        return Err(aimed.error);
      }
      var response := SendCommand(Obd(request.service, request.data));
      if response.Err? {
        return Err(response.error);
      }
      r := DecodeReply(request.service, request.data, response.value, tables);
    }

    method SendSettings(settings: seq<string>) returns (r: Result<()>)
      modifies this`currentHeader, transport
      ensures (State(), r) == SendAll(old(State()), settings)
    {
      assert settings[0..] == settings;
      for i := 0 to |settings|
        invariant SendAll(old(State()), settings) == SendAll(State(), settings[i..])
      {
        assert settings[i..][1..] == settings[i + 1..];
        var reply := SendCommand(Config(settings[i]));
        if reply.Err? {
          return Err(reply.error);
        }
      }
      return Ok(());
    }

    method ProbeFallbacks(order: seq<Probe>) returns (r: Result<Protocol>)
      modifies this`currentHeader, transport
      ensures (State(), r) == ProbeProtocols(old(State()), order)
    {
      assert order[0..] == order;
      for i := 0 to |order|
        invariant ProbeProtocols(old(State()), order) == ProbeProtocols(State(), order[i..])
      {
        assert order[i..][1..] == order[i + 1..];
        var selected := SendCommand(Config(order[i].command));
        if selected.Err? {
          return Err(selected.error);
        }
        var reply := SendCommand(SUPPORTED_PIDS);
        if reply.Err? {
          return Err(reply.error);
        }
        if VehicleAnswers(reply.value) {
          return Ok(order[i].protocol);
        }
      }
      return Ok(Auto);
    }

    /** Protocol selection after the reset. */
    method ChooseProtocol() returns (r: Result<Protocol>)
      modifies this`currentHeader, transport
      ensures (State(), r) == SelectProtocol(old(State()))
    {
      var reply := SendCommand(SUPPORTED_PIDS);
      if reply.Err? {
        return Err(reply.error);
      }
      if !VehicleAnswers(reply.value) {
        r := ProbeFallbacks(FALLBACK_PROBE_ORDER);
        return;
      }
      r := Ok(Auto);
      var code := SendCommand(Config("ATDPN"));
      if code.Ok? {
        r := Ok(ParseProtocol(code.value));
      }
    }

    method Initialize() returns (r: Result<Protocol>)
      modifies this, transport
      ensures old(initialized) ==> r == Ok(protocol) && initialized && State() == old(State())
      ensures !old(initialized) ==> (State(), r) == Initialized(old(State())) && initialized == r.Ok?
    {
      hide Send, SendAll, SelectProtocol, Configure, RuntimePolicy, Later;
      if initialized {
        return Ok(protocol);
      }
      var reset := SendCommand(Config("ATZ"));
      if reset.Err? {
        return Err(reset.error);
      }
      var stn := SendCommand(Config("STI"));
      var settled := SendSettings(RESET_SETTINGS);
      if settled.Err? {
        return Err(settled.error);
      }
      var selected := ChooseProtocol();
      if selected.Err? {
        return selected;
      }
      if selected.value.Auto? {
        return Err(Error.Adapter);
      }
      protocol := selected.value;
      var applied := ConfigureRaw(RuntimePolicy(protocol));
      if applied.Err? {
        return Err(applied.error);
      }
      initialized := true;
      return Ok(protocol);
    }
  }
}
