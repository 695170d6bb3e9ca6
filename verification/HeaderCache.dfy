/**
  The header cache of the ELM327 adapter refines an adapter without one, which sends the target's
  header before every request (`adapter/elm327.rs`).
 */
module HeaderCache {
  import opened Basics
  import opened Hex
  import opened Elm327

  // ---- Header texts ----

  lemma {:induction false} FixedHexInjective(a: nat, b: nat, width: nat)
    requires FixedHex(a, width) == FixedHex(b, width)
    requires a < Power16(width) && b < Power16(width)
    ensures a == b
  {
    if width > 0 {
      var (s, t) := (FixedHex(a, width), FixedHex(b, width));
      assert s[width - 1] == Digit(a % 16) && t[width - 1] == Digit(b % 16);
      assert s[..width - 1] == FixedHex(a / 16, width - 1) && t[..width - 1] == FixedHex(b / 16, width - 1);
      FixedHexInjective(a / 16, b / 16, width - 1);
    }
  }

  function Power16(n: nat): nat {
    if n == 0 then 1 else 16 * Power16(n - 1)
  }

  /** What the wire header of an address carries. */
  datatype Identity = Bytes(priority: byte, target: byte, source: byte) | Narrow(id: u16) | Wide(wideId: u32)

  function HeaderIdentity(a: PhysicalAddress): Option<Identity> {
    match a
    case J1850(_, priority, target, source) => Some(Bytes(priority, target, source))
    case Can11Bit(id, _) => Some(Narrow(id))
    case Can29Bit(id, _) => Some(Wide(id))
    case J1939(_) => None
  }

  /** Two addresses share a header text only if they name the same kind of header with the same content. */
  lemma HeaderTextIdentifies(a: PhysicalAddress, b: PhysicalAddress)
    ensures AddressHeader(a) == AddressHeader(b) <==> HeaderIdentity(a) == HeaderIdentity(b)
  {
    hide FixedHex, HexBytes, Power16;
    Powers();
    HexBytesAreSix(a);
    HexBytesAreSix(b);
    if a.J1850? && b.J1850? {
      ThreeFields(a.priority, a.target, a.source, b.priority, b.target, b.source);
    } else if a.Can11Bit? && b.Can11Bit? {
      if a.requestId < 0x1000 && b.requestId < 0x1000 {
        FieldIdentifies(a.requestId, b.requestId, 3);
      } else {
        FieldIdentifies(a.requestId, b.requestId, 4);
      }
    } else if a.Can29Bit? && b.Can29Bit? {
      FieldIdentifies(a.wideRequestId, b.wideRequestId, 8);
    }
  }

  lemma HexBytesAreSix(a: PhysicalAddress)
    ensures a.J1850? ==> |AddressHeader(a).value| == 6
  {
    hide FixedHex;
  }

  lemma Powers()
    ensures Power16(2) == 0x100 && Power16(3) == 0x1000 && Power16(4) == 0x1_0000 && Power16(8) == 0x1_0000_0000
  {
    assert Power16(8) == 16 * Power16(7) && Power16(7) == 16 * Power16(6);
    assert Power16(6) == 16 * Power16(5) && Power16(5) == 16 * Power16(4);
  }

  lemma FieldIdentifies(a: nat, b: nat, width: nat)
    requires a < Power16(width) && b < Power16(width)
    ensures FixedHex(a, width) == FixedHex(b, width) <==> a == b
  {
    if FixedHex(a, width) == FixedHex(b, width) {
      FixedHexInjective(a, b, width);
    }
  }

  lemma ThreeFields(a: byte, b: byte, c: byte, a': byte, b': byte, c': byte)
    ensures
      HexBytes(a, b, c) == HexBytes(a', b', c') <==> a == a' && b == b' && c == c'
  {
    hide FixedHex;
    SameParts(FixedHex(a, 2), FixedHex(b, 2), FixedHex(c, 2), FixedHex(a', 2), FixedHex(b', 2), FixedHex(c', 2));
    TwoDigits(a, a');
    TwoDigits(b, b');
    TwoDigits(c, c');
  }

  lemma TwoDigits(a: byte, b: byte)
    ensures FixedHex(a, 2) == FixedHex(b, 2) <==> a == b
  {
    Powers();
    FieldIdentifies(a, b, 2);
  }

  lemma SameParts(a: string, b: string, c: string, a': string, b': string, c': string)
    requires |a| == |a'| && |b| == |b'|
    ensures a + b + c == a' + b' + c' <==> a == a' && b == b' && c == c'
  {
    var (s, t) := (a + b + c, a' + b' + c');
    assert s[..|a|] == a && s[|a|..|a + b|] == b && s[|a + b|..] == c;
    assert t[..|a|] == a' && t[|a|..|a + b|] == b' && t[|a + b|..] == c';
  }

  // ---- The adapter without a cache ----

  /** A request that is always preceded by the target's header. */
  function Unoptimized(u: Elm, q: Request): (Elm, Result<string>) {
    var header := TargetHeader(u.protocol, q.target);
    if header.None? then (u, Err(Error.Adapter))
    else
      var (aimed, r) := ForceHeader(u, header.value);
      if r.Err? then (aimed, Err(r.error)) else Send(aimed, Obd(q.service, q.data))
  }

  function UnoptimizedRun(u: Elm, requests: seq<Request>): (Elm, seq<Result<string>>)
    decreases |requests|
  {
    if requests == [] then (u, []) else
      var (next, r) := Unoptimized(u, requests[0]);
      var (end, more) := UnoptimizedRun(next, requests[1..]);
      (end, [r] + more)
  }

  // ---- What the vehicle bus sees ----

  /** The header in force when none has been set is the protocol's broadcast header. */
  function InForce(header: Option<string>, protocol: Protocol): Option<string> {
    if header.Some? then header else BroadcastHeader(protocol)
  }

  datatype Telegram = Telegram(service: byte, data: seq<byte>, header: Option<string>)

  /** The vehicle requests among the commands sent, each with the header it went out under. */
  function Telegrams(sent: seq<Sent>, protocol: Protocol): seq<Telegram> {
    if sent == [] then []
    else
      var (before, last) := (sent[..|sent| - 1], sent[|sent| - 1]);
      Telegrams(before, protocol) +
      if last.command.Obd? then [Telegram(last.command.service, last.command.data, InForce(last.header, protocol))]
      else []
  }

  lemma TelegramAppended(sent: seq<Sent>, last: Sent, protocol: Protocol)
    ensures Telegrams(sent + [last], protocol) == Telegrams(sent, protocol) +
            if last.command.Obd? then
              [Telegram(last.command.service, last.command.data, InForce(last.header, protocol))]
            else []
  {
    assert (sent + [last])[..|sent|] == sent;
  }

  /** A fault reply never also says OK. */
  predicate Sane(answers: seq<Answer>) {
    forall i :: 0 <= i < |answers| && answers[i].Reply? ==>
                !(IsFault(Sanitize(answers[i].text)) && IsOk(Sanitize(answers[i].text)))
  }

  // ---- Relating the two ----

  /** The cache tells the header in force on the device. */
  predicate Synced(s: Elm) {
    && !s.protocol.Auto?
    && InForce(s.device.header, s.protocol) == (if s.cache.Some? then s.cache else BroadcastHeader(s.protocol))
  }

  /** Both adapters have shown the bus the same. */
  predicate Alike(s: Elm, u: Elm) {
    && s.protocol == u.protocol && !s.device.linkFailed && !u.device.linkFailed
    && Telegrams(s.device.sent, s.protocol) == Telegrams(u.device.sent, u.protocol)
  }

  function Taken(before: Device, after: Device): seq<Answer>
    requires Later(before, after)
  {
    before.answers[..|before.answers| - |after.answers|]
  }

  lemma LaterTrans(a: Device, b: Device, c: Device)
    requires Later(a, b) && Later(b, c)
    ensures Later(a, c) && Taken(a, c) == Taken(a, b) + Taken(b, c)
  {
  }

  lemma ExchangeLocal(d: Device, u: Device, command: Command, tail: seq<Answer>, protocol: Protocol)
    requires !u.linkFailed && !Exchange(d, command).0.linkFailed
    requires u.answers == Taken(d, Exchange(d, command).0) + tail
    requires Telegrams(d.sent, protocol) == Telegrams(u.sent, protocol)
    requires command.Obd? ==> InForce(d.header, protocol) == InForce(u.header, protocol)
    ensures
      var (d', r) := Exchange(d, command);
      var (u', r') := Exchange(u, command);
      && r.Ok? && r' == r && u'.answers == tail && !u'.linkFailed
      && Telegrams(d'.sent, protocol) == Telegrams(u'.sent, protocol)
      && d.answers[0].Reply? && r.value == Sanitize(d.answers[0].text)
      && d'.header == HeaderAfter(d.header, command, r.value) && u'.header == HeaderAfter(u.header, command, r.value)
  {
    TelegramAppended(d.sent, Sent(command, d.header), protocol);
    TelegramAppended(u.sent, Sent(command, u.header), protocol);
    assert u.answers == [d.answers[0]] + tail;
  }

  lemma {:induction false} ConfigureLocal(
    d: Device, u: Device, settings: seq<string>, tail: seq<Answer>, protocol: Protocol)
    requires !u.linkFailed && !Configure(d, settings).0.linkFailed
    requires u.answers == Taken(d, Configure(d, settings).0) + tail
    requires Telegrams(d.sent, protocol) == Telegrams(u.sent, protocol)
    requires d.header == u.header == None
    ensures
      var (d', r) := Configure(d, settings);
      var (u', r') := Configure(u, settings);
      && r == r' == Ok(()) && u'.answers == tail && !u'.linkFailed
      && Telegrams(d'.sent, protocol) == Telegrams(u'.sent, protocol)
      && d'.header == u'.header == None
    decreases |settings|
  {
    hide Telegrams, Sanitize, IsFault, IsOk, Exchange;
    if settings == [] {
      assert u.answers == tail;
    } else {
      var next := Exchange(d, Config(settings[0])).0;
      var end := Configure(d, settings).0;
      var others := Configure(next, settings[1..]).0;
      assert !next.linkFailed by {
        assert Later(next, end);
      }
      assert end == others;
      LaterTrans(d, next, end);
      ExchangeLocal(d, u, Config(settings[0]), Taken(next, end) + tail, protocol);
      hide Later, Taken;
      ConfigureLocal(next, Exchange(u, Config(settings[0])).0, settings[1..], tail, protocol);
    }
  }

  /** The recovery after a fault, which leaves no header in force. */
  lemma RecoverLocal(s: Elm, u: Elm, tail: seq<Answer>)
    requires s.protocol == u.protocol && !u.device.linkFailed && !Recover(s).0.device.linkFailed
    requires Telegrams(s.device.sent, s.protocol) == Telegrams(u.device.sent, s.protocol)
    requires s.device.header == u.device.header == None
    requires u.device.answers == Taken(s.device, Recover(s).0.device) + tail
    ensures
      var ((s', r), (u', r')) := (Recover(s), Recover(u));
      && r == r' == Ok(()) && s'.cache == None && u'.device.answers == tail
      && !s'.device.linkFailed && !u'.device.linkFailed && s'.device.header == u'.device.header == None
      && Telegrams(s'.device.sent, s.protocol) == Telegrams(u'.device.sent, s.protocol)
      && s'.protocol == u'.protocol == s.protocol
  {
    hide Configure, Sanitize, Contains, Telegrams;
    var end := Recover(s).0.device;
    var cleared := Exchange(s.device, Config("ATFE")).0;
    LaterTrans(s.device, cleared, end);
    ExchangeLocal(s.device, u.device, Config("ATFE"), Taken(cleared, end) + tail, s.protocol);
    ConfigureLocal(cleared, Exchange(u.device, Config("ATFE")).0, RUNTIME_DEFAULTS, tail, s.protocol);
  }

  /** One command sent to either device: same reply, same traffic, and the same headers from then on. */
  lemma SendLocal(s: Elm, u: Elm, command: Command, tail: seq<Answer>)
    requires Alike(s, u) && !Send(s, command).0.device.linkFailed
    requires u.device.answers == Taken(s.device, Send(s, command).0.device) + tail
    requires command.Obd? ==> InForce(s.device.header, s.protocol) == InForce(u.device.header, s.protocol)
    ensures
      var (s', r) := Send(s, command);
      var (u', r') := Send(u, command);
      && Alike(s', u') && r.Ok? && r == r' && u'.device.answers == tail
      && s.device.answers != [] && s.device.answers[0].Reply? && r.value == Sanitize(s.device.answers[0].text)
      && s'.protocol == s.protocol
      && (if IsFault(r.value) then s'.cache.None? && s'.device.header == u'.device.header == None
          else
            && s'.cache == s.cache && s'.device.header == HeaderAfter(s.device.header, command, r.value)
            && u'.device.header == HeaderAfter(u.device.header, command, r.value))
  {
    hide Configure, Sanitize, Telegrams, InForce, IsFault, Recover;
    var (d, end) := (s.device, Send(s, command).0.device);
    var (after, r) := Exchange(d, command);
    if r.Ok? && IsFault(r.value) {
      LaterTrans(d, after, end);
      ExchangeLocal(d, u.device, command, Taken(after, end) + tail, s.protocol);
      var asked := Exchange(u.device, command).0;
      RecoverLocal(s.(device := after), u.(device := asked), tail);
    } else {
      ExchangeLocal(d, u.device, command, tail, s.protocol);
    }
  }

  /** The request finds its header already in force as far as the cache can tell. */
  predicate Elides(s: Elm, q: Request) {
    var header := TargetHeader(s.protocol, q.target);
    header.Some? && (s.cache == header || (q.target.Broadcast? && s.cache.None?))
  }

  /** The answers with which the adapter without a cache sees the same run. */
  function Expanded(s: Elm, q: Request): seq<Answer> {
    (if Elides(s, q) then [Reply("OK")] else []) + Taken(s.device, Routed(s, q).0.device)
  }

  function ExpandedRun(s: Elm, requests: seq<Request>): seq<Answer>
    decreases |requests|
  {
    if requests == [] then [] else Expanded(s, requests[0]) + ExpandedRun(Routed(s, requests[0]).0, requests[1..])
  }

  lemma OkIsOk()
    ensures Sanitize("OK") == "OK" && IsOk("OK") && !IsFault("OK")
  {
    assert "OK"[1..] == "K" && "K"[1..] == "";
    assert Sanitize("K") == "K";
    assert "OK" == ['O'] + "K";
    assert !Contains("", "ERR94") && !Contains("K", "ERR94") && !Contains("OK", "ERR94");
    assert !Contains("", "LV RESET") && !Contains("K", "LV RESET") && !Contains("OK", "LV RESET");
  }

  /** An extra `AT SH` answered OK puts the header in force and shows the bus nothing. */
  lemma ForcedOk(u: Elm, header: string, tail: seq<Answer>)
    requires u.device.answers == [Reply("OK")] + tail && !u.device.linkFailed
    ensures
      var (u', r) := ForceHeader(u, header);
      && r == Ok(()) && u'.protocol == u.protocol && u'.device.answers == tail && !u'.device.linkFailed
      && u'.device.header == Some(header)
      && Telegrams(u'.device.sent, u.protocol) == Telegrams(u.device.sent, u.protocol)
  {
    hide Sanitize, Contains, Telegrams;
    OkIsOk();
    TelegramAppended(u.device.sent, Sent(SetHeader(header), u.device.header), u.protocol);
  }

  /** One request: same outcome, same traffic, and the cache still tells the header in force. */
  lemma RequestRefines(s: Elm, u: Elm, q: Request, tail: seq<Answer>)
    requires Synced(s) && Alike(s, u) && Sane(s.device.answers)
    requires !Routed(s, q).0.device.linkFailed
    requires u.device.answers == Expanded(s, q) + tail
    ensures
      var (s', r) := Routed(s, q);
      var (u', r') := Unoptimized(u, q);
      Synced(s') && Alike(s', u') && r == r' && u'.device.answers == tail
  {
    hide Send, Telegrams, AddressHeader, Synced, Alike, Sane;
    var target := TargetHeader(s.protocol, q.target);
    ProtocolKnown(s, u);
    if target.None? {
      assert Routed(s, q) == (s, Err(Error.Adapter)) && Unoptimized(u, q) == (u, Err(Error.Adapter));
      assert Expanded(s, q) + tail == tail;
    } else if Elides(s, q) {
      HeaderElided(s, u, q, tail);
    } else {
      var (aimed, r) := ForceHeader(s, target.value);
      assert ApplyTarget(s, q.target) == (aimed, r);
      HeaderSent(s, u, q, aimed, tail);
    }
  }

  lemma ProtocolKnown(s: Elm, u: Elm)
    requires Synced(s) && Alike(s, u)
    ensures !s.protocol.Auto? && u.protocol == s.protocol
  {
  }

  lemma HeaderElided(s: Elm, u: Elm, q: Request, tail: seq<Answer>)
    requires Synced(s) && Alike(s, u) && Elides(s, q)
    requires !Routed(s, q).0.device.linkFailed
    requires u.device.answers == Expanded(s, q) + tail
    ensures
      var (s', r) := Routed(s, q);
      var (u', r') := Unoptimized(u, q);
      Synced(s') && Alike(s', u') && r == r' && u'.device.answers == tail
  {
    hide Send, Sanitize, IsFault, IsOk, Telegrams, AddressHeader, ForceHeader;
    var target := TargetHeader(s.protocol, q.target);
    var end := Routed(s, q).0;
    assert ApplyTarget(s, q.target) == (s, Ok(()));
    assert Routed(s, q) == Send(s, Obd(q.service, q.data));
    var mid := Taken(s.device, end.device) + tail;
    assert u.device.answers == [Reply("OK")] + mid;
    ForcedOk(u, target.value, mid);
    SendLocal(s, ForceHeader(u, target.value).0, Obd(q.service, q.data), tail);
  }

  lemma HeaderSent(s: Elm, u: Elm, q: Request, aimed: Elm, tail: seq<Answer>)
    requires Synced(s) && Alike(s, u) && Sane(s.device.answers)
    requires !Routed(s, q).0.device.linkFailed && !Elides(s, q)
    requires TargetHeader(s.protocol, q.target).Some?
    requires aimed == ForceHeader(s, TargetHeader(s.protocol, q.target).value).0
    requires ApplyTarget(s, q.target) == ForceHeader(s, TargetHeader(s.protocol, q.target).value)
    requires u.device.answers == Taken(s.device, Routed(s, q).0.device) + tail
    ensures
      var (s', r) := Routed(s, q);
      var (u', r') := Unoptimized(u, q);
      Synced(s') && Alike(s', u') && r == r' && u'.device.answers == tail
  {
    hide Send, Sanitize, Contains, Telegrams, AddressHeader, TargetHeader, ApplyTarget;
    var header := TargetHeader(s.protocol, q.target).value;
    var end := Routed(s, q).0;
    var sending := Send(s, SetHeader(header));
    LaterTrans(s.device, aimed.device, end.device);
    assert aimed.device == sending.0.device;
    SendLocal(s, u, SetHeader(header), Taken(aimed.device, end.device) + tail);
    var aimedToo := ForceHeader(u, header).0;
    if IsOk(sending.1.value) {
      assert !IsFault(sending.1.value);
      assert Synced(aimed) && Alike(aimed, aimedToo);
      SendLocal(aimed, aimedToo, Obd(q.service, q.data), tail);
    }
  }

  lemma {:induction false} RunRefines(s: Elm, u: Elm, requests: seq<Request>)
    requires Synced(s) && Alike(s, u) && Sane(s.device.answers)
    requires !Run(s, requests).0.device.linkFailed
    requires u.device.answers == ExpandedRun(s, requests)
    ensures
      var (s', results) := Run(s, requests);
      var (u', results') := UnoptimizedRun(u, requests);
      Synced(s') && Alike(s', u') && results == results'
    decreases |requests|
  {
    hide Routed, Unoptimized, Sanitize, Contains, Telegrams;
    if requests != [] {
      var (q, rest) := (requests[0], requests[1..]);
      var next := Routed(s, q).0;
      assert Later(next.device, Run(next, rest).0.device) && Run(s, requests).0 == Run(next, rest).0;
      RequestRefines(s, u, q, ExpandedRun(next, rest));
      RunRefines(next, Unoptimized(u, q).0, rest);
    }
  }

  // ---- After initialization ----

  /** No header has been set. */
  predicate Untouched(s: Elm) {
    s.cache.None? && s.device.header.None?
  }

  lemma {:induction false} ConfigureTouchesNothing(d: Device, settings: seq<string>)
    requires d.header.None?
    ensures Configure(d, settings).0.header.None?
    decreases |settings|
  {
    if settings != [] {
      ConfigureTouchesNothing(Exchange(d, Config(settings[0])).0, settings[1..]);
    }
  }

  lemma SendTouchesNothing(s: Elm, command: Command)
    requires Untouched(s) && !command.SetHeader?
    ensures Untouched(Send(s, command).0)
  {
    hide Configure, IsFault, IsOk, Sanitize, Later;
    var after := Exchange(s.device, command).0;
    ConfigureTouchesNothing(Exchange(after, Config("ATFE")).0, RUNTIME_DEFAULTS);
  }

  lemma {:induction false} SettingsTouchNothing(s: Elm, settings: seq<string>)
    requires Untouched(s)
    ensures Untouched(SendAll(s, settings).0)
    decreases |settings|
  {
    if settings != [] {
      SendTouchesNothing(s, Config(settings[0]));
      SettingsTouchNothing(Send(s, Config(settings[0])).0, settings[1..]);
    }
  }

  lemma {:induction false} ProbingTouchesNothing(s: Elm, order: seq<Probe>)
    requires Untouched(s)
    ensures Untouched(ProbeProtocols(s, order).0)
    decreases |order|
  {
    if order != [] {
      var selected := Send(s, Config(order[0].command)).0;
      SendTouchesNothing(s, Config(order[0].command));
      SendTouchesNothing(selected, SUPPORTED_PIDS);
      ProbingTouchesNothing(Send(selected, SUPPORTED_PIDS).0, order[1..]);
    }
  }

  /** A fresh adapter that initializes has a protocol, an empty cache and no header set on its device. */
  lemma InitializeSyncs(s: Elm)
    requires Untouched(s) && Initialized(s).1.Ok?
    ensures Untouched(Initialized(s).0) && Synced(Initialized(s).0)
    ensures Initialized(s).1.value == Initialized(s).0.protocol
  {
    hide Send, SendAll, ProbeProtocols, Configure, VehicleAnswers, ParseProtocol, RuntimePolicy, Later;
    var probed := Send(s, Config("ATZ")).0;
    var described := Send(probed, Config("STI")).0;
    SendTouchesNothing(s, Config("ATZ"));
    SendTouchesNothing(probed, Config("STI"));
    SettingsTouchNothing(described, RESET_SETTINGS);
    var reset := Reset(s).0;
    var asked := Send(reset, SUPPORTED_PIDS).0;
    SendTouchesNothing(reset, SUPPORTED_PIDS);
    SendTouchesNothing(asked, Config("ATDPN"));
    ProbingTouchesNothing(asked, FALLBACK_PROBE_ORDER);
    var (found, p) := SelectProtocol(reset);
    ConfigureTouchesNothing(found.device, RuntimePolicy(p.value));
  }

  /**
    Header cache refinement. After a fresh adapter has initialized, and on every run whose link does not fail,
    the vehicle bus sees the same requests under the same headers, and the caller the same outcomes, as with an
    adapter that sends the target's header before each request, also across fault recovery.
   */
  lemma HeaderCacheRefines(blank: Elm, requests: seq<Request>)
    requires Untouched(blank) && Initialized(blank).1.Ok?
    requires Sane(Initialized(blank).0.device.answers)
    requires !Run(Initialized(blank).0, requests).0.device.linkFailed
    ensures
      var s := Initialized(blank).0;
      var u := s.(device := s.device.(answers := ExpandedRun(s, requests)));
      var (s', results) := Run(s, requests);
      var (u', results') := UnoptimizedRun(u, requests);
      results == results' && Telegrams(s'.device.sent, s.protocol) == Telegrams(u'.device.sent, s.protocol)
  {
    hide Initialized, Run, UnoptimizedRun, Sanitize, Contains, Telegrams;
    InitializeSyncs(blank);
    var s := Initialized(blank).0;
    assert Later(s.device, Run(s, requests).0.device);
    RunRefines(s, s.(device := s.device.(answers := ExpandedRun(s, requests))), requests);
  }

  lemma SaneLater(d: Device, later: Device)
    requires Sane(d.answers) && Later(d, later)
    ensures Sane(later.answers)
  {
  }

  lemma StaysSynced(s: Elm, q: Request)
    requires Synced(s) && Sane(s.device.answers) && !Routed(s, q).0.device.linkFailed
    ensures Synced(Routed(s, q).0) && Routed(s, q).0.protocol == s.protocol
  {
    hide Routed, Unoptimized, Expanded, Sane, Synced;
    var u := s.(device := s.device.(answers := Expanded(s, q)));
    assert Expanded(s, q) + [] == Expanded(s, q);
    assert Later(s.device, Routed(s, q).0.device);
    RequestRefines(s, u, q, []);
  }
}
