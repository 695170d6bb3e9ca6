/** The record of ECUs observed, the discovery profile and routing, over whole runs of a session. */
module SessionObservations {
  import opened Basics
  import opened Elm327
  import opened Session
  import opened SessionRuns
  import opened SessionSafety
  import opened SessionRouting

  // ---- ECU observations ----

  /** How many requests to the address were handed to the adapter. */
  function Addressees(log: seq<Logged>, a: PhysicalAddress): nat {
    if log == [] then 0
    else Addressees(log[..|log| - 1], a) + if log[|log| - 1].target == Addressed(a) then 1 else 0
  }

  function Observations(visible: seq<VisibleEcu>, a: PhysicalAddress): nat {
    var k := IndexOf(visible, a);
    if k < |visible| then visible[k].observations else 0
  }

  ghost predicate Distinct(visible: seq<VisibleEcu>) {
    forall i, j :: 0 <= i < j < |visible| ==> visible[i].address != visible[j].address
  }

  /**
    The accounting: distinct ECUs, each counted once for every request to it that was handed to the adapter, the
    list in the discovery profile, and no request left in flight.
   */
  ghost predicate Conserved(s: State) {
    && Distinct(s.visibleEcus)
    && (forall i :: 0 <= i < |s.visibleEcus| ==> s.visibleEcus[i].observations > 0)
    && (forall a :: Observations(s.visibleEcus, a) == Addressees(s.adapter.log, a))
    && !s.requestInFlight
    && (s.initialized ==> s.discovery.Some? && s.discovery.value.visibleEcus == s.visibleEcus)
  }

  lemma RecordCountsFor(s: State, target: PhysicalAddress, a: PhysicalAddress)
    requires Distinct(s.visibleEcus)
    ensures Observations(Record(s, Addressed(target)), a) ==
            Observations(s.visibleEcus, a) + if target == a then 1 else 0
  {
    hide IndexOf, LookupModule;
    var (visible, next) := (s.visibleEcus, Record(s, Addressed(target)));
    var (i, j) := (IndexOf(visible, a), IndexOf(next, a));
    assert forall n :: 0 <= n < |visible| ==> next[n].address == visible[n].address;
    if i < |visible| {
      assert next[i].address == a && j <= i;
      assert visible[j].address == next[j].address;
      assert i == j;
    } else {
      assert forall n :: 0 <= n < |visible| ==> next[n].address != a;
      assert j >= |visible|;
      if a == target {
        assert next[|visible|].address == a && j == |visible|;
      }
    }
  }

  lemma RecordCounts(s: State, target: Target)
    requires Distinct(s.visibleEcus)
    ensures Distinct(Record(s, target))
    ensures (forall i :: 0 <= i < |s.visibleEcus| ==> s.visibleEcus[i].observations > 0) ==>
            forall i :: 0 <= i < |Record(s, target)| ==> Record(s, target)[i].observations > 0
    ensures forall a :: Observations(Record(s, target), a) ==
                        Observations(s.visibleEcus, a) + if target == Addressed(a) then 1 else 0
  {
    var (visible, next) := (s.visibleEcus, Record(s, target));
    if target.Addressed? {
      forall a ensures Observations(next, a) == Observations(visible, a) + if target == Addressed(a) then 1 else 0 {
        RecordCountsFor(s, target.address, a);
      }
    }
  }

  lemma AddresseesAfter(log: seq<Logged>, e: Logged, a: PhysicalAddress)
    ensures Addressees(log + [e], a) == Addressees(log, a) + if e.target == Addressed(a) then 1 else 0
  {
    assert (log + [e])[..|log|] == log;
  }

  lemma DeliverConserves(s: State, service: byte, data: seq<byte>, moduleId: Option<ModuleId>, target: Target)
    requires Conserved(s) && s.initialized
    ensures Conserved(Deliver(s, service, data, moduleId, target).0)
    ensures Deliver(s, service, data, moduleId, target).0.initialized
  {
    hide Record, ActiveBus, ResolveModules, Observations, Addressees, Distinct;
    var s' := Deliver(s, service, data, moduleId, target).0;
    RecordCounts(s, target);
    var e := Logged(service, data, moduleId, target, NextTurn(s.adapter).result);
    forall a ensures Observations(s'.visibleEcus, a) == Addressees(s'.adapter.log, a) {
      AddresseesAfter(s.adapter.log, e, a);
    }
  }

  lemma SendConserves(s: State, service: byte, data: seq<byte>, moduleId: Option<ModuleId>)
    requires Conserved(s) && s.initialized
    ensures Conserved(SendRequest(s, service, data, moduleId).0)
            && SendRequest(s, service, data, moduleId).0.initialized
  {
    hide Deliver, Conserved;
    if moduleId.None? {
      DeliverConserves(s, service, data, None, Broadcast);
    } else if ResolveModule(s, moduleId.value).Ok? {
      DeliverConserves(s, service, data, moduleId, Addressed(ResolveModule(s, moduleId.value).value));
    }
  }

  lemma RestartConserves(s: State)
    requires Conserved(s)
    ensures Conserved(Initialize(s).0)
  {
    hide ActiveBus, ResolveModules, Observations, Addressees, Distinct;
  }

  lemma DiagnosticIsNoObservation(s: State, d: Diagnostic)
    requires Conserved(s)
    ensures Conserved(s.(diagnostic := d))
  {
  }

  lemma StepConserves(s: State, op: Op)
    requires Conserved(s)
    ensures Conserved(Perform(s, op))
  {
    hide SendRequest, Initialize, Deliver, Conserved;
    RestartConserves(s);
    InitializeEffect(s);
    var (ready, r) := EnsureInitialized(s);
    if op.Adopt? || op.Voltage? {
      QuietConserves(s, op);
    } else if r.Ok? {
      match op
      case Init =>
      case Enter(kind, m) =>
        SendConserves(ready, 0x10, [SessionCode(kind)], Some(m));
        DiagnosticIsNoObservation(SendRequest(ready, 0x10, [SessionCode(kind)], Some(m)).0, DiagnosticOf(kind));
      case End(m) =>
        SendConserves(ready, 0x10, [0x01], Some(m));
        DiagnosticIsNoObservation(SendRequest(ready, 0x10, [0x01], Some(m)).0, Default);
      case Unlock(m, key) =>
        var (asked, seed) := SendRequest(ready, 0x27, [0x01], Some(m));
        SendConserves(ready, 0x27, [0x01], Some(m));
        if seed.Ok? {
          var data := [0x02] + key(seed.value);
          var answered := SendRequest(asked, 0x27, data, Some(m)).0;
          SendConserves(asked, 0x27, data, Some(m));
          DiagnosticIsNoObservation(answered, WithUnlocked(answered.diagnostic, m));
        }
      case Control(did, m, command) => SendConserves(ready, 0x2F, ActuatorData(did, command), Some(m));
      case Release(did, m) => SendConserves(ready, 0x2F, [did / 0x100, did % 0x100, 0x00], Some(m));
      case Raw(service, data, moduleId) => SendConserves(ready, service, data, moduleId);
      case RawPhysical(service, data, address) => DeliverConserves(ready, service, data, None, Addressed(address));
    }
  }

  lemma QuietConserves(s: State, op: Op)
    requires Conserved(s) && (op.Adopt? || op.Voltage?)
    ensures Conserved(Perform(s, op))
  {
    hide ActiveBus, ResolveModules, Observations, Addressees, Distinct;
  }

  lemma {:induction false} ConservedThroughRun(s: State, ops: seq<Op>)
    requires Conserved(s)
    ensures Conserved(RunAll(s, ops))
  {
    hide Conserved, Perform;
    if ops != [] {
      ConservedThroughRun(s, ops[..|ops| - 1]);
      StepConserves(RunAll(s, ops[..|ops| - 1]), ops[|ops| - 1]);
    }
  }

  /**
    Conservation of observations. Over every run of a new session the visible ECUs are pairwise distinct, each
    has been counted once for every request to it that was handed to the adapter, failed ones included, an address
    is listed exactly if there was one, the discovery profile shows the live list, and no request is left in flight.
   */
  lemma ObservationsAreConserved(s: State, ops: seq<Op>)
    requires IsNew(s)
    ensures
      var end := RunAll(s, ops);
      var visible := end.visibleEcus;
      && (forall i, j :: 0 <= i < j < |visible| ==> visible[i].address != visible[j].address)
      && (forall i :: 0 <= i < |visible| ==> visible[i].observations == Addressees(end.adapter.log, visible[i].address))
      && (forall a :: Addressees(end.adapter.log, a) > 0 <==> exists i :: 0 <= i < |visible| && visible[i].address == a)
      && (end.initialized ==> end.discovery.Some? && end.discovery.value.visibleEcus == visible)
      && !end.requestInFlight
  {
    hide RunAll;
    assert Conserved(s);
    ConservedThroughRun(s, ops);
    var end := RunAll(s, ops);
    var visible := end.visibleEcus;
    forall i | 0 <= i < |visible| ensures Observations(visible, visible[i].address) == visible[i].observations {
      assert IndexOf(visible, visible[i].address) == i;
    }
    forall a ensures Addressees(end.adapter.log, a) > 0 <==> exists i :: 0 <= i < |visible| && visible[i].address == a {
      assert Observations(visible, a) == Addressees(end.adapter.log, a);
    }
  }

  // ---- The discovery profile ----

  /** The profile is what specification and live list resolve to under protocol `p`. */
  ghost predicate ProfileFor(s: State, p: Protocol) {
    s.initialized ==> s.discovery == Some(Discover(p, s.spec, s.visibleEcus))
  }

  /** The adapter refuses to be initialized again. */
  predicate FailsToRestart(s: State, op: Op) {
    op.Init? && s.initialized && NextTurn(s.adapter).result.Err?
  }

  /** The operation takes an adapter turn or a specification, and with it a fresh profile. */
  predicate Refreshes(s: State, op: Op) {
    !s.initialized || (op.Init? && !FailsToRestart(s, op)) || op.Voltage? || op.Adopt? || Handovers(s, op) != []
  }

  /** The protocol under which the profile was resolved last. */
  function ProfileProtocol(s: State, ops: seq<Op>): Protocol {
    if ops == [] then s.adapter.protocol else
      var (before, op) := (ops[..|ops| - 1], ops[|ops| - 1]);
      if Refreshes(RunAll(s, before), op) then RunAll(s, ops).adapter.protocol else ProfileProtocol(s, before)
  }

  lemma SendRefreshes(s: State, service: byte, data: seq<byte>, moduleId: Option<ModuleId>)
    requires s.initialized
    ensures
      var s' := SendRequest(s, service, data, moduleId).0;
      if Handover(s, moduleId) == [] then s' == s else s'.initialized && ProfileFor(s', s'.adapter.protocol)
  {
    hide ActiveBus, ResolveModules, Record;
  }

  lemma UnlockRefreshes(s: State, m: ModuleId, key: seq<byte> -> seq<byte>)
    ensures
      var ((ready, r), s') := (EnsureInitialized(s), SecurityAccess(s, m, key).0);
      if r.Err? then s' == ready
      else
        s'.initialized
        && if UnlockHandovers(ready, m) != [] then ProfileFor(s', s'.adapter.protocol)
           else
             && s'.discovery == ready.discovery && s'.spec == ready.spec && s'.visibleEcus == ready.visibleEcus
             && s'.adapter.protocol == ready.adapter.protocol
  {
    hide SendRequest, Handover, Discover, AllZero;
    var (ready, r) := EnsureInitialized(s);
    if r.Err? {
      return;
    }
    var (asked, seed) := SendRequest(ready, 0x27, [0x01], Some(m));
    SendRefreshes(ready, 0x27, [0x01], Some(m));
    SendEffect(ready, 0x27, [0x01], Some(m));
    NoHandoverFails(ready, 0x27, [0x01], Some(m));
    if seed.Ok? {
      SendRefreshes(asked, 0x27, [0x02] + key(seed.value), Some(m));
    }
  }

  lemma QuietRefreshes(s: State, op: Op)
    requires op.Init? || op.Voltage? || op.Adopt?
    requires !s.requestInFlight
    ensures
      var s' := Perform(s, op);
      if Refreshes(s, op) then ProfileFor(s', s'.adapter.protocol)
      else
        && s'.discovery == s.discovery && s'.spec == s.spec && s'.visibleEcus == s.visibleEcus
        && s.initialized && s'.initialized
        && s'.adapter.protocol == if FailsToRestart(s, op) then NextTurn(s.adapter).protocol else s.adapter.protocol
  {
    hide Discover;
  }

  /** The exact step: a fresh profile, or the one before with nothing changed but, at most, the protocol reported. */
  lemma StepRefreshes(s: State, op: Op)
    requires !s.requestInFlight
    ensures
      var s' := Perform(s, op);
      if Refreshes(s, op) then ProfileFor(s', s'.adapter.protocol)
      else
        && s'.discovery == s.discovery && s'.spec == s.spec && s'.visibleEcus == s.visibleEcus
        && s.initialized && s'.initialized
        && s'.adapter.protocol == if FailsToRestart(s, op) then NextTurn(s.adapter).protocol else s.adapter.protocol
  {
    hide SendRequest, Handover, Discover, SecurityAccess, UnlockHandovers, ActuatorData, EnsureInitialized, Deliver;
    var (ready, r) := EnsureInitialized(s);
    ReadyRefreshes(s);
    match op
    case Init | Voltage | Adopt(_) => QuietRefreshes(s, op);
    case Enter(kind, m) => if r.Ok? { SendRefreshes(ready, 0x10, [SessionCode(kind)], Some(m)); }
    case End(m) => if r.Ok? { SendRefreshes(ready, 0x10, [0x01], Some(m)); }
    case Unlock(m, key) => UnlockRefreshes(s, m, key);
    case Control(did, m, command) => if r.Ok? { SendRefreshes(ready, 0x2F, ActuatorData(did, command), Some(m)); }
    case Release(did, m) => if r.Ok? { SendRefreshes(ready, 0x2F, [did / 0x100, did % 0x100, 0x00], Some(m)); }
    case Raw(service, data, moduleId) => if r.Ok? { SendRefreshes(ready, service, data, moduleId); }
    case RawPhysical(service, data, address) => if r.Ok? { DeliverRefreshes(ready, service, data, address); }
  }

  /** The session before the operation proper: as it was, or freshly initialized, or not initialized. */
  lemma ReadyRefreshes(s: State)
    ensures
      var (ready, r) := EnsureInitialized(s);
      && (s.initialized ==> ready == s && r.Ok?)
      && (r.Ok? <==> ready.initialized) && (!s.initialized ==> ProfileFor(ready, ready.adapter.protocol))
      && ready.requestInFlight == s.requestInFlight
  {
    hide Discover;
  }

  lemma DeliverRefreshes(s: State, service: byte, data: seq<byte>, address: PhysicalAddress)
    requires s.initialized
    ensures
      var s' := Deliver(s, service, data, None, Addressed(address)).0;
      s'.initialized && ProfileFor(s', s'.adapter.protocol)
  {
    hide Discover, Record;
  }

  lemma NoHandoverFails(s: State, service: byte, data: seq<byte>, moduleId: Option<ModuleId>)
    ensures Handover(s, moduleId) == [] ==> SendRequest(s, service, data, moduleId).1.Err?
  {
  }

  /**
    The profile, exactly. In every run of a new session it is what the current specification and the live list resolve
    to under the protocol of the last refresh; so it is up to date exactly if they resolve to the same under the
    protocol reported now. Only a refused re-initialization can make these two protocols differ.
   */
  lemma {:induction false} ProfileExactly(s: State, ops: seq<Op>)
    requires IsNew(s)
    ensures ProfileFor(RunAll(s, ops), ProfileProtocol(s, ops))
    ensures (forall i :: 0 <= i < |ops| ==> !FailsToRestart(RunAll(s, ops[..i]), ops[i])) ==>
            ProfileProtocol(s, ops) == RunAll(s, ops).adapter.protocol
    ensures
      var end := RunAll(s, ops);
      end.initialized ==>
        (ProfileFor(end, end.adapter.protocol) <==>
         Discover(end.adapter.protocol, end.spec, end.visibleEcus) ==
           Discover(ProfileProtocol(s, ops), end.spec, end.visibleEcus))
  {
    hide Perform, Refreshes, FailsToRestart, Discover;
    if ops != [] {
      var (before, op) := (ops[..|ops| - 1], ops[|ops| - 1]);
      ProfileExactly(s, before);
      NeverInFlight(s, before);
      StepRefreshes(RunAll(s, before), op);
      assert forall i :: 0 <= i < |before| ==> before[..i] == ops[..i] && before[i] == ops[i];
      assert ops[..|before|] == before;
    }
  }

  /**
    A run in which the profile falls behind: the adapter, asked to initialize again, refuses and reports another
    protocol, under which another bus would be active.
   */
  lemma RefusedRestartLeavesProfile(s: State, p: Protocol, other: Protocol)
    requires IsNew(s) && p != other
    requires s.adapter.script == [Turn(Ok([]), [], p), Turn(Err(Error.Adapter), [], other)]
    ensures
      var end := RunAll(s, [Init, Adopt(Some([Bus("one", p, []), Bus("two", other, [])])), Init]);
      && end.initialized && end.adapter.protocol == other && end.discovery.Some?
      && end.discovery.value.activeBus == Some("one")
      && Discover(end.adapter.protocol, end.spec, end.visibleEcus).activeBus == Some("two")
  {
    hide ResolveModules, RunAll;
    var spec := Some([Bus("one", p, []), Bus("two", other, [])]);
    ThreeUnfold(s, Init, Adopt(spec), Init);
    var ready := Perform(s, Init);
    assert s.adapter.script[1..] == [Turn(Err(Error.Adapter), [], other)];
    var adopted := Perform(ready, Adopt(spec));
    assert spec.value[1..] == [Bus("two", other, [])];
    assert BusFor(p, spec.value) == Some("one") && BusFor(other, spec.value[1..]) == Some("two");
  }

  lemma ThreeUnfold(s: State, first: Op, second: Op, third: Op)
    ensures RunAll(s, [first, second, third]) == Perform(Perform(Perform(s, first), second), third)
  {
    hide Perform;
    var ops := [first, second, third];
    RunUnfolds(s, ops, 0);
    RunUnfolds(s, ops, 1);
    RunUnfolds(s, ops, 2);
    assert ops[..3] == ops;
  }

  // ---- Routing ----

  /** Module `m` is declared at `address` on the active bus, or on any bus if none is active. */
  ghost predicate Declared(buses: seq<Bus>, active: Option<BusId>, m: Module) {
    exists b, k :: 0 <= b < |buses| && 0 <= k < |buses[b].modules| && buses[b].modules[k] == m
                   && (active.Some? ==> buses[b].id == active.value)
  }

  lemma {:induction false} CollectsDeclared(modules: seq<Module>, into: map<ModuleId, Module>, m: ModuleId)
    requires m in Collect(modules, into)
    ensures
      var found := Collect(modules, into)[m];
      (m in into && found == into[m]) || (found.id == m && exists k :: 0 <= k < |modules| && modules[k] == found)
    decreases |modules|
  {
    if modules != [] {
      CollectsDeclared(modules[1..], into[modules[0].id := modules[0]], m);
      var found := Collect(modules, into)[m];
      if k :| 0 <= k < |modules[1..]| && modules[1..][k] == found {
        assert modules[k + 1] == found;
      }
    }
  }

  lemma {:induction false} ResolvesDeclared(
    buses: seq<Bus>, active: Option<BusId>, into: map<ModuleId, Module>, m: ModuleId)
    requires m in ResolveModules(buses, active, into)
    ensures
      var found := ResolveModules(buses, active, into)[m];
      (m in into && found == into[m]) || (found.id == m && Declared(buses, active, found))
    decreases |buses|
  {
    if buses != [] {
      var (first, rest) := (buses[0], buses[1..]);
      var found := ResolveModules(buses, active, into)[m];
      var collects := active.None? || first.id == active.value;
      var next := if collects then Collect(first.modules, into) else into;
      if !collects || active.None? {
        ResolvesDeclared(rest, active, next, m);
        if Declared(rest, active, found) {
          var b, k :| 0 <= b < |rest| && 0 <= k < |rest[b].modules| && rest[b].modules[k] == found
                      && (active.Some? ==> rest[b].id == active.value);
          assert buses[b + 1].modules[k] == found;
        }
      }
      if collects && m in next && found == next[m] {
        CollectsDeclared(first.modules, into, m);
        if k :| 0 <= k < |first.modules| && first.modules[k] == found {
          assert buses[0].modules[k] == found;
        }
      }
    }
  }

  /**
    Routing. A module request that is handed to the adapter goes to an address the current specification declares for
    that module, on the bus that is active under the protocol of the profile.
   */
  lemma RequestsGoToDeclaredModules(s: State, p: Protocol, m: ModuleId)
    requires s.initialized && ProfileFor(s, p) && ResolveModule(s, m).Ok?
    ensures s.spec.Some?
    ensures
      var active := ActiveBus(p, s.spec);
      exists declared: Module ::
        && declared.id == m && declared.address == ResolveModule(s, m).value
        && Declared(s.spec.value, active, declared)
        && (active.Some? ==> declared.bus == active.value)
  {
    var buses := if s.spec.Some? then s.spec.value else [];
    ResolvesDeclared(buses, ActiveBus(p, s.spec), map[], m);
  }
}
