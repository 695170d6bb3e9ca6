/** Whole runs of a session: its public operations in any order, whatever the adapter answers. */
module SessionRuns {
  import opened Basics
  import opened Elm327
  import opened Session

  datatype Op =
    | Init
    | Enter(kind: SessionKind, m: ModuleId)
    | End(m: ModuleId)
    | Unlock(m: ModuleId, key: seq<byte> -> seq<byte>)
    | Control(did: u16, m: ModuleId, command: ActuatorCommand)
    | Release(did: u16, m: ModuleId)
    | Raw(service: byte, data: seq<byte>, moduleId: Option<ModuleId>)
    | RawPhysical(service: byte, data: seq<byte>, address: PhysicalAddress)
    | Voltage
    | Adopt(spec: Option<seq<Bus>>)

  function Perform(s: State, op: Op): State {
    match op
    case Init => Initialize(s).0
    case Enter(kind, m) => EnterDiagnosticSession(s, kind, m).0
    case End(m) => EndDiagnosticSession(s, m).0
    case Unlock(m, key) => SecurityAccess(s, m, key).0
    case Control(did, m, command) => ActuatorControl(s, did, m, command).0
    case Release(did, m) => ActuatorRelease(s, did, m).0
    case Raw(service, data, moduleId) => RawRequest(s, service, data, moduleId).0
    case RawPhysical(service, data, address) => RawPhysicalRequest(s, service, data, address).0
    case Voltage => BatteryVoltage(s).0
    case Adopt(spec) => if s.initialized then Refreshed(s.(spec := spec)) else s
  }

  function RunAll(s: State, ops: seq<Op>): State {
    if ops == [] then s else Perform(RunAll(s, ops[..|ops| - 1]), ops[|ops| - 1])
  }

  // ---- One request ----

  /** The log afterwards: at most one entry more, and that one tells how the request ended. */
  predicate Grows(
    before: seq<Logged>, after: seq<Logged>, service: byte,
    data: seq<byte>, moduleId: Option<ModuleId>, r: Result<seq<byte>>)
  {
    || (after == before && r.Err?)
    || (|after| == |before| + 1 && after[..|before|] == before
        && var e := after[|before|]; e.service == service && e.data == data && e.moduleId == moduleId && e.result == r)
  }

  lemma SendEffect(s: State, service: byte, data: seq<byte>, moduleId: Option<ModuleId>)
    ensures
      var (s', r) := SendRequest(s, service, data, moduleId);
      && Grows(s.adapter.log, s'.adapter.log, service, data, moduleId, r)
      && s'.diagnostic == s.diagnostic && s'.initialized == s.initialized && s'.requestInFlight == s.requestInFlight
  {
    hide Discover, Record, ResolveModule;
  }

  lemma InitializeEffect(s: State)
    ensures
      var (s', r) := EnsureInitialized(s);
      && s'.adapter.log == s.adapter.log && s'.diagnostic == s.diagnostic && s'.visibleEcus == s.visibleEcus
      && s'.requestInFlight == s.requestInFlight && (s'.initialized <==> r.Ok?)
  {
  }

  /** Operations that hand no request to the adapter and leave the diagnostic session alone. */
  lemma QuietEffect(s: State, op: Op)
    requires op.Init? || op.Voltage? || op.Adopt?
    ensures
      var s' := Perform(s, op);
      && s'.adapter.log == s.adapter.log && s'.diagnostic == s.diagnostic
      && s'.visibleEcus == s.visibleEcus && s'.requestInFlight == s.requestInFlight
  {
    hide Discover;
  }
}
