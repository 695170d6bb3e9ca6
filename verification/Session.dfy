/**
  The session (`session/mod.rs`): request plumbing, diagnostic sessions and the record of ECUs observed,
  over an adapter whose answers are arbitrary.
 */
module Session {
  import opened Basics
  import opened Elm327

  type ModuleId = string

  type BusId = string

  // ---- Vehicle specification and routing (`session/discovery.rs`) ----

  datatype Module = Module(id: ModuleId, bus: BusId, address: PhysicalAddress)

  datatype Bus = Bus(id: BusId, protocol: Protocol, modules: seq<Module>)

  /**
    An ECU observed on the bus. The source names it by the text of its address; here the address stands for the text.
   */
  datatype VisibleEcu = VisibleEcu(
    address: PhysicalAddress, bus: Option<BusId>, moduleId: Option<ModuleId>, observations: nat)

  datatype Discovery = Discovery(activeBus: Option<BusId>, modules: map<ModuleId, Module>, visibleEcus: seq<VisibleEcu>)

  function BusFor(protocol: Protocol, buses: seq<Bus>): Option<BusId> {
    if buses == [] then None
    else if buses[0].protocol == protocol then Some(buses[0].id)
    else BusFor(protocol, buses[1..])
  }

  /** `resolve_active_bus`. */
  function ActiveBus(protocol: Protocol, spec: Option<seq<Bus>>): Option<BusId> {
    if spec.None? then None
    else
      var matched := BusFor(protocol, spec.value);
      if matched.None? && |spec.value| == 1 then Some(spec.value[0].id) else matched
  }

  /** `collect_modules`: a later module replaces an earlier one of the same name. */
  function Collect(modules: seq<Module>, into: map<ModuleId, Module>): map<ModuleId, Module>
    decreases |modules|
  {
    if modules == [] then into else Collect(modules[1..], into[modules[0].id := modules[0]])
  }

  /** `resolve_modules`: those of the first bus with the active id, or all of them. */
  function ResolveModules(buses: seq<Bus>, active: Option<BusId>, into: map<ModuleId, Module>): map<ModuleId, Module>
    decreases |buses|
  {
    if buses == [] then into
    else if active.None? then ResolveModules(buses[1..], active, Collect(buses[0].modules, into))
    else if buses[0].id == active.value then Collect(buses[0].modules, into)
    else ResolveModules(buses[1..], active, into)
  }

  /** `resolve_discovery_profile`. */
  function Discover(protocol: Protocol, spec: Option<seq<Bus>>, visible: seq<VisibleEcu>): Discovery {
    var active := ActiveBus(protocol, spec);
    Discovery(active, ResolveModules(if spec.Some? then spec.value else [], active, map[]), visible)
  }

  function ModuleAt(modules: seq<Module>, address: PhysicalAddress): Option<ModuleId> {
    if modules == [] then None
    else if modules[0].address == address then Some(modules[0].id)
    else ModuleAt(modules[1..], address)
  }

  /** `lookup_module_for_address`. */
  function LookupModule(buses: seq<Bus>, address: PhysicalAddress): (Option<BusId>, Option<ModuleId>) {
    if buses == [] then (None, None)
    else
      var found := ModuleAt(buses[0].modules, address);
      if found.Some? then (Some(buses[0].id), found) else LookupModule(buses[1..], address)
  }

  // ---- The adapter ----

  /** Adapter events by what they do to the connection state. */
  datatype Event = BusTrouble | AdapterFault | LowPowerAlert | ProtocolUnsupported | ProtocolSelected | OtherEvent

  /** One turn of the adapter: its answer, the events drained with it, and the protocol it then reports. */
  datatype Turn = Turn(result: Result<seq<byte>>, events: seq<Event>, protocol: Protocol)

  /** A request handed to the adapter, the module it was meant for, and how it ended. */
  datatype Logged = Logged(
    service: byte, data: seq<byte>, moduleId: Option<ModuleId>, target: Target, result: Result<seq<byte>>)

  datatype AdapterState = AdapterState(protocol: Protocol, script: seq<Turn>, log: seq<Logged>)

  function NextTurn(a: AdapterState): Turn {
    if a.script == [] then Turn(Err(Error.Transport), [], a.protocol) else a.script[0]
  }

  function AfterTurn(a: AdapterState): AdapterState {
    AdapterState(NextTurn(a).protocol, if a.script == [] then [] else a.script[1..], a.log)
  }

  // ---- Session state ----

  datatype Connection =
    | AdapterPresent | AdapterInitialized | ProtocolNegotiating | Connected
    | IgnitionOff | UnsupportedProtocol | Disconnected | Faulted

  datatype Diagnostic = Default | Extended(unlocked: seq<ModuleId>) | Programming

  datatype State = State(
    adapter: AdapterState, spec: Option<seq<Bus>>, discovery: Option<Discovery>, connection: Connection,
    diagnostic: Diagnostic, visibleEcus: seq<VisibleEcu>, initialized: bool, requestInFlight: bool)

  /** `Session::new`. */
  predicate IsNew(s: State) {
    && s.adapter.log == [] && s.spec.None? && s.discovery.None? && s.connection.AdapterPresent?
    && s.diagnostic.Default? && s.visibleEcus == [] && !s.initialized && !s.requestInFlight
  }

  function Refreshed(s: State): State {
    s.(discovery := Some(Discover(s.adapter.protocol, s.spec, s.visibleEcus)))
  }

  function ConnectionAfter(connection: Connection, event: Event): Connection {
    match event
    case BusTrouble => Faulted
    case AdapterFault => Disconnected
    case LowPowerAlert => IgnitionOff
    case ProtocolUnsupported => UnsupportedProtocol
    case ProtocolSelected => Connected
    case OtherEvent => connection
  }

  function ConnectionAfterAll(connection: Connection, events: seq<Event>): Connection
    decreases |events|
  {
    if events == [] then connection else ConnectionAfterAll(ConnectionAfter(connection, events[0]), events[1..])
  }

  /** `apply_adapter_events`. */
  function WithEvents(s: State, events: seq<Event>): State {
    var next := s.(connection := ConnectionAfterAll(s.connection, events));
    if s.initialized then Refreshed(next) else next
  }

  /** `mark_connection_active_if_recovered`. */
  function Recovered(connection: Connection): Connection {
    if connection.IgnitionOff? || connection.Disconnected? || connection.Faulted? then Connected else connection
  }

  /** `initialize`, called again or for the first time. */
  function Initialize(s: State): (State, Result<()>) {
    var turn := NextTurn(s.adapter);
    var asked := s.(connection := ProtocolNegotiating, adapter := AfterTurn(s.adapter));
    if turn.result.Err? then (asked, Err(turn.result.error))
    else (WithEvents(asked.(initialized := true), turn.events).(connection := Connected), Ok(()))
  }

  function EnsureInitialized(s: State): (State, Result<()>) {
    if s.initialized then (s, Ok(())) else Initialize(s)
  }

  /** Where an ECU stands in the list, its length if it is not there. */
  function IndexOf(visible: seq<VisibleEcu>, address: PhysicalAddress): (k: nat)
    ensures k <= |visible| && (k < |visible| ==> visible[k].address == address)
    ensures forall j :: 0 <= j < k ==> visible[j].address != address
  {
    if visible == [] || visible[0].address == address then 0 else IndexOf(visible[1..], address) + 1
  }

  /** `record_visible_target`. */
  function Record(s: State, target: Target): seq<VisibleEcu> {
    match target
    case Broadcast => s.visibleEcus
    case Addressed(a) =>
      var k := IndexOf(s.visibleEcus, a);
      if k < |s.visibleEcus| then
        s.visibleEcus[k := s.visibleEcus[k].(observations := s.visibleEcus[k].observations + 1)]
      else
        var (bus, moduleId) := LookupModule(if s.spec.Some? then s.spec.value else [], a);
        s.visibleEcus + [VisibleEcu(a, bus, moduleId, 1)]
  }

  /** `resolve_module_address`. */
  function ResolveModule(s: State, m: ModuleId): Result<PhysicalAddress> {
    if s.discovery.None? then Err(Error.Adapter)
    else
      var d := s.discovery.value;
      if m !in d.modules then Err(ModuleNotFound)
      else if d.activeBus.Some? && d.modules[m].bus != d.activeBus.value then Err(BusNotAvailable)
      else Ok(d.modules[m].address)
  }

  /** A resolved request handed to the adapter. */
  function Deliver(
    s: State, service: byte, data: seq<byte>, moduleId: Option<ModuleId>, target: Target): (State, Result<seq<byte>>)
  {
    var turn := NextTurn(s.adapter);
    var after := AfterTurn(s.adapter);
    var logged := after.(log := after.log + [Logged(service, data, moduleId, target, turn.result)]);
    var settled := WithEvents(s.(visibleEcus := Record(s, target), adapter := logged), turn.events);
    (if turn.result.Ok? then settled.(connection := Recovered(settled.connection)) else settled, turn.result)
  }

  /** `send_request`; a request without a module is broadcast. */
  function SendRequest(
    s: State, service: byte, data: seq<byte>, moduleId: Option<ModuleId>): (State, Result<seq<byte>>)
  {
    if s.requestInFlight then (s, Err(AdapterBusy))
    else if moduleId.None? then Deliver(s, service, data, None, Broadcast)
    else
      var address := ResolveModule(s, moduleId.value);
      if address.Err? then (s, Err(address.error)) else Deliver(s, service, data, moduleId, Addressed(address.value))
  }

  // ---- Operations ----

  datatype SessionKind = DefaultSession | ProgrammingSession | ExtendedSession

  datatype ActuatorCommand = ReturnToEcu | Activate | Adjust(bytes: seq<byte>)

  function SessionCode(kind: SessionKind): byte {
    match kind case DefaultSession => 1 case ProgrammingSession => 2 case ExtendedSession => 3
  }

  function DiagnosticOf(kind: SessionKind): Diagnostic {
    match kind
    case DefaultSession => Default
    case ExtendedSession => Extended([])
    case ProgrammingSession => Programming
  }

  function EnterDiagnosticSession(s: State, kind: SessionKind, m: ModuleId): (State, Result<()>) {
    var (ready, r) := EnsureInitialized(s);
    if r.Err? then (ready, r)
    else
      var (after, reply) := SendRequest(ready, 0x10, [SessionCode(kind)], Some(m));
      if reply.Err? then (after, Err(reply.error)) else (after.(diagnostic := DiagnosticOf(kind)), Ok(()))
  }

  function EndDiagnosticSession(s: State, m: ModuleId): (State, Result<()>) {
    EnterDiagnosticSession(s, DefaultSession, m)
  }

  predicate AllZero(bytes: seq<byte>) {
    forall i :: 0 <= i < |bytes| ==> bytes[i] == 0
  }

  function WithUnlocked(diagnostic: Diagnostic, m: ModuleId): Diagnostic {
    if diagnostic.Extended? then (if m in diagnostic.unlocked then diagnostic else Extended(diagnostic.unlocked + [m]))
    else Extended([m])
  }

  function SecurityAccess(s: State, m: ModuleId, key: seq<byte> -> seq<byte>): (State, Result<()>) {
    var (ready, r) := EnsureInitialized(s);
    if r.Err? then (ready, r)
    else
      var (asked, seed) := SendRequest(ready, 0x27, [0x01], Some(m));
      if seed.Err? then (asked, Err(seed.error))
      else if seed.value == [] then (asked, Err(Error.Adapter))
      else if AllZero(seed.value) then (asked, Ok(()))
      else
        var (answered, reply) := SendRequest(asked, 0x27, [0x02] + key(seed.value), Some(m));
        if reply.Err? then (answered, Err(reply.error))
        else (answered.(diagnostic := WithUnlocked(answered.diagnostic, m)), Ok(()))
  }

  predicate Unlocked(s: State, m: ModuleId) {
    s.diagnostic.Extended? && m in s.diagnostic.unlocked
  }

  function ActuatorData(did: u16, command: ActuatorCommand): seq<byte> {
    [did / 0x100, did % 0x100] +
    match command case ReturnToEcu => [0x00] case Activate => [0x03] case Adjust(bytes) => [0x03] + bytes
  }

  function ActuatorControl(s: State, did: u16, m: ModuleId, command: ActuatorCommand): (State, Result<()>) {
    var (ready, r) := EnsureInitialized(s);
    if r.Err? then (ready, r)
    else if !Unlocked(ready, m) then (ready, Err(SecurityRequired))
    else
      var (after, reply) := SendRequest(ready, 0x2F, ActuatorData(did, command), Some(m));
      (after, if reply.Err? then Err(reply.error) else Ok(()))
  }

  function ActuatorRelease(s: State, did: u16, m: ModuleId): (State, Result<()>) {
    var (ready, r) := EnsureInitialized(s);
    if r.Err? then (ready, r)
    else
      var (after, reply) := SendRequest(ready, 0x2F, [did / 0x100, did % 0x100, 0x00], Some(m));
      (after, if reply.Err? then Err(reply.error) else Ok(()))
  }

  /** `raw_request`, of which the reading operations and the tester-present keepalive are instances. */
  function RawRequest(
    s: State, service: byte, data: seq<byte>, moduleId: Option<ModuleId>): (State, Result<seq<byte>>)
  {
    var (ready, r) := EnsureInitialized(s);
    if r.Err? then (ready, Err(r.error)) else SendRequest(ready, service, data, moduleId)
  }

  function RawPhysicalRequest(
    s: State, service: byte, data: seq<byte>, address: PhysicalAddress): (State, Result<seq<byte>>)
  {
    var (ready, r) := EnsureInitialized(s);
    if r.Err? then (ready, Err(r.error))
    else if ready.requestInFlight then (ready, Err(AdapterBusy))
    else Deliver(ready, service, data, None, Addressed(address))
  }

  /** `battery_voltage`, with the adapter's answer as its payload. */
  function BatteryVoltage(s: State): (State, Result<seq<byte>>) {
    var (ready, r) := EnsureInitialized(s);
    if r.Err? then (ready, Err(r.error))
    else if ready.requestInFlight then (ready, Err(AdapterBusy))
    else
      var turn := NextTurn(ready.adapter);
      var settled := WithEvents(ready.(adapter := AfterTurn(ready.adapter)), turn.events);
      (if turn.result.Ok? then settled.(connection := Recovered(settled.connection)) else settled, turn.result)
  }

  // ---- The session as a class ----

  class ScriptedAdapter {
    var protocol: Protocol
    var script: seq<Turn>
    var log: seq<Logged>

    constructor (script: seq<Turn>)
      ensures Value() == AdapterState(Auto, script, [])
    {
      protocol, this.script, log := Auto, script, [];
    }

    function Value(): AdapterState
      reads this
    {
      AdapterState(protocol, script, log)
    }

    method TakeTurn() returns (turn: Turn)
      modifies this`protocol, this`script
      ensures turn == NextTurn(old(Value())) && Value() == AfterTurn(old(Value()))
    {
      turn := NextTurn(Value());
      if script != [] {
        script := script[1..];
      }
      protocol := turn.protocol;
    }

    method RoutedRequest(
      service: byte, data: seq<byte>, moduleId: Option<ModuleId>, target: Target) returns (turn: Turn)
      modifies this
      ensures turn == NextTurn(old(Value()))
      ensures Value() ==
              AfterTurn(old(Value())).(log := old(log) + [Logged(service, data, moduleId, target, turn.result)])
    {
      turn := TakeTurn();
      log := log + [Logged(service, data, moduleId, target, turn.result)];
    }
  }

  class Session {
    const adapter: ScriptedAdapter
    var spec: Option<seq<Bus>>
    var discovery: Option<Discovery>
    var connection: Connection
    var diagnostic: Diagnostic
    var visibleEcus: seq<VisibleEcu>
    var initialized: bool
    var requestInFlight: bool

    constructor (adapter: ScriptedAdapter)
      requires adapter.log == []
      ensures this.adapter == adapter && IsNew(Value())
    {
      this.adapter, spec, discovery, connection := adapter, None, None, AdapterPresent;
      diagnostic, visibleEcus, initialized, requestInFlight := Default, [], false, false;
    }

    function Value(): State
      reads this, adapter
    {
      State(adapter.Value(), spec, discovery, connection, diagnostic, visibleEcus, initialized, requestInFlight)
    }

    method RefreshDiscoveryProfile()
      modifies this`discovery
      ensures Value() == Refreshed(old(Value()))
    {
      discovery := Some(Discover(adapter.protocol, spec, visibleEcus));
    }

    method ApplyAdapterEvents(events: seq<Event>)
      modifies this`connection, this`discovery
      ensures Value() == WithEvents(old(Value()), events)
    {
      assert events[0..] == events;
      for i := 0 to |events|
        invariant ConnectionAfterAll(connection, events[i..]) == ConnectionAfterAll(old(connection), events)
        invariant discovery == old(discovery)
      {
        assert events[i..][1..] == events[i + 1..];
        match events[i] {
          case BusTrouble => connection := Faulted;
          case AdapterFault => connection := Disconnected;
          case LowPowerAlert => connection := IgnitionOff;
          case ProtocolUnsupported => connection := UnsupportedProtocol;
          case ProtocolSelected => connection := Connected;
          case OtherEvent =>
        }
      }
      if initialized {
        RefreshDiscoveryProfile();
      }
    }

    method RunInitialize() returns (r: Result<()>)
      modifies this, adapter
      ensures (Value(), r) == Initialize(old(Value()))
    {
      connection := ProtocolNegotiating;
      var turn := adapter.TakeTurn();
      if turn.result.Err? {
        return Err(turn.result.error);
      }
      initialized := true;
      connection := AdapterInitialized;
      ApplyAdapterEvents(turn.events);
      connection := Connected;
      RefreshDiscoveryProfile();
      return Ok(());
    }

    method Ensure() returns (r: Result<()>)
      modifies this, adapter
      ensures (Value(), r) == EnsureInitialized(old(Value()))
    {
      if initialized {
        return Ok(());
      }
      r := RunInitialize();
    }

    method RecordVisibleTarget(target: Target)
      modifies this`visibleEcus
      ensures visibleEcus == Record(old(Value()), target)
    {
      if target.Broadcast? {
        return;
      }
      var k := 0;
      assert visibleEcus[0..] == visibleEcus;
      while k < |visibleEcus| && visibleEcus[k].address != target.address
        invariant 0 <= k <= |visibleEcus| && visibleEcus == old(visibleEcus)
        invariant IndexOf(visibleEcus, target.address) == k + IndexOf(visibleEcus[k..], target.address)
      {
        assert visibleEcus[k..][1..] == visibleEcus[k + 1..];
        k := k + 1;
      }
      if k < |visibleEcus| {
        var existing := visibleEcus[k];
        visibleEcus := visibleEcus[k := existing.(observations := existing.observations + 1)];
        return;
      }
      var (bus, moduleId) := LookupModule(if spec.Some? then spec.value else [], target.address);
      visibleEcus := visibleEcus + [VisibleEcu(target.address, bus, moduleId, 1)];
    }

    method Hand(
      service: byte, data: seq<byte>, moduleId: Option<ModuleId>, target: Target) returns (r: Result<seq<byte>>)
      requires !requestInFlight
      modifies this, adapter
      ensures (Value(), r) == Deliver(old(Value()), service, data, moduleId, target)
    {
      hide IndexOf, LookupModule, WithEvents, NextTurn;
      requestInFlight := true;
      RecordVisibleTarget(target);
      var turn := adapter.RoutedRequest(service, data, moduleId, target);
      requestInFlight := false;
      ApplyAdapterEvents(turn.events);
      if turn.result.Ok? && (connection.IgnitionOff? || connection.Disconnected? || connection.Faulted?) {
        connection := Connected;
      }
      return turn.result;
    }

    method Send(service: byte, data: seq<byte>, moduleId: Option<ModuleId>) returns (r: Result<seq<byte>>)
      modifies this, adapter
      ensures (Value(), r) == SendRequest(old(Value()), service, data, moduleId)
    {
      if requestInFlight {
        return Err(AdapterBusy);
      }
      if moduleId.None? {
        r := Hand(service, data, None, Broadcast);
        return;
      }
      var address := ResolveModule(Value(), moduleId.value);
      if address.Err? {
        return Err(address.error);
      }
      r := Hand(service, data, moduleId, Addressed(address.value));
    }

    method Enter(kind: SessionKind, m: ModuleId) returns (r: Result<()>)
      modifies this, adapter
      ensures (Value(), r) == EnterDiagnosticSession(old(Value()), kind, m)
    {
      hide SendRequest, EnsureInitialized;
      r := Ensure();
      if r.Err? {
        return;
      }
      var reply := Send(0x10, [SessionCode(kind)], Some(m));
      if reply.Err? {
        return Err(reply.error);
      }
      diagnostic := DiagnosticOf(kind);
      return Ok(());
    }

    method Unlock(m: ModuleId, key: seq<byte> -> seq<byte>) returns (r: Result<()>)
      modifies this, adapter
      ensures (Value(), r) == SecurityAccess(old(Value()), m, key)
    {
      hide SendRequest, EnsureInitialized;
      r := Ensure();
      if r.Err? {
        return;
      }
      var seed := Send(0x27, [0x01], Some(m));
      if seed.Err? {
        return Err(seed.error);
      }
      if seed.value == [] {
        return Err(Error.Adapter);
      }
      if AllZero(seed.value) {
        return Ok(());
      }
      var reply := Send(0x27, [0x02] + key(seed.value), Some(m));
      if reply.Err? {
        return Err(reply.error);
      }
      if diagnostic.Extended? {
        if m !in diagnostic.unlocked {
          diagnostic := Extended(diagnostic.unlocked + [m]);
        }
      } else {
        diagnostic := Extended([m]);
      }
      return Ok(());
    }

    method Control(did: u16, m: ModuleId, command: ActuatorCommand) returns (r: Result<()>)
      modifies this, adapter
      ensures (Value(), r) == ActuatorControl(old(Value()), did, m, command)
    {
      hide SendRequest, EnsureInitialized;
      r := Ensure();
      if r.Err? {
        return;
      }
      if !diagnostic.Extended? || m !in diagnostic.unlocked {
        return Err(SecurityRequired);
      }
      var data := [did / 0x100, did % 0x100];
      match command {
        case ReturnToEcu => data := data + [0x00];
        case Activate => data := data + [0x03];
        case Adjust(bytes) =>
          data := data + [0x03];
          data := data + bytes;
      }
      assert data == ActuatorData(did, command);
      var reply := Send(0x2F, data, Some(m));
      if reply.Err? {
        return Err(reply.error);
      }
      return Ok(());
    }

    method Release(did: u16, m: ModuleId) returns (r: Result<()>)
      modifies this, adapter
      ensures (Value(), r) == ActuatorRelease(old(Value()), did, m)
    {
      hide SendRequest, EnsureInitialized;
      r := Ensure();
      if r.Err? {
        return;
      }
      var reply := Send(0x2F, [did / 0x100, did % 0x100, 0x00], Some(m));
      if reply.Err? {
        return Err(reply.error);
      }
      return Ok(());
    }

    method Raw(service: byte, data: seq<byte>, moduleId: Option<ModuleId>) returns (r: Result<seq<byte>>)
      modifies this, adapter
      ensures (Value(), r) == RawRequest(old(Value()), service, data, moduleId)
    {
      hide SendRequest, EnsureInitialized;
      var ready := Ensure();
      if ready.Err? {
        return Err(ready.error);
      }
      r := Send(service, data, moduleId);
    }

    method RawPhysical(service: byte, data: seq<byte>, address: PhysicalAddress) returns (r: Result<seq<byte>>)
      modifies this, adapter
      ensures (Value(), r) == RawPhysicalRequest(old(Value()), service, data, address)
    {
      hide Deliver, EnsureInitialized;
      var ready := Ensure();
      if ready.Err? {
        return Err(ready.error);
      }
      if requestInFlight {
        return Err(AdapterBusy);
      }
      r := Hand(service, data, None, Addressed(address));
    }

    method Voltage() returns (r: Result<seq<byte>>)
      modifies this, adapter
      ensures (Value(), r) == BatteryVoltage(old(Value()))
    {
      hide EnsureInitialized, WithEvents, NextTurn;
      var ready := Ensure();
      if ready.Err? {
        return Err(ready.error);
      }
      if requestInFlight {
        return Err(AdapterBusy);
      }
      requestInFlight := true;
      var turn := adapter.TakeTurn();
      requestInFlight := false;
      ApplyAdapterEvents(turn.events);
      if turn.result.Ok? && (connection.IgnitionOff? || connection.Disconnected? || connection.Faulted?) {
        connection := Connected;
      }
      return turn.result;
    }

    /** The end of `identify_vehicle`: the specification matched by the VIN is adopted. */
    method AdoptSpec(matched: Option<seq<Bus>>)
      modifies this`spec, this`discovery
      ensures Value() == Refreshed(old(Value()).(spec := matched))
    {
      spec := matched;
      RefreshDiscoveryProfile();
    }
  }
}
