/** Where the requests of a session go: module names and physical addresses over whole runs. */
module SessionRouting {
  import opened Basics
  import opened Elm327
  import opened Session
  import opened SessionRuns
  import opened SessionSafety

  // ---- The moments at which requests are handed to the adapter ----

  /** The state in which `SendRequest` hands its request over, if it does. */
  function Handover(s: State, moduleId: Option<ModuleId>): seq<State> {
    if s.requestInFlight || (moduleId.Some? && ResolveModule(s, moduleId.value).Err?) then [] else [s]
  }

  /** The states in which an operation hands over its requests, in order. */
  function Handovers(s: State, op: Op): seq<State> {
    var (ready, r) := EnsureInitialized(s);
    if r.Err? then [] else
      match op
      case Enter(_, m) => Handover(ready, Some(m))
      case End(m) => Handover(ready, Some(m))
      case Unlock(m, _) => UnlockHandovers(ready, m)
      case Control(_, m, _) => if Unlocked(ready, m) then Handover(ready, Some(m)) else []
      case Release(_, m) => Handover(ready, Some(m))
      case Raw(_, _, moduleId) => Handover(ready, moduleId)
      case RawPhysical(_, _, _) => if ready.requestInFlight then [] else [ready]
      case Init | Voltage | Adopt(_) => []
  }

  /** The seed request, and the key if the seed calls for one. */
  function UnlockHandovers(ready: State, m: ModuleId): seq<State> {
    var (asked, seed) := SendRequest(ready, 0x27, [0x01], Some(m));
    Handover(ready, Some(m)) +
    if seed.Ok? && seed.value != [] && !AllZero(seed.value) then Handover(asked, Some(m)) else []
  }

  /** The states in which a run hands over its requests: one for each entry it adds to the log. */
  function Moments(s: State, ops: seq<Op>): seq<State> {
    if ops == [] then [] else
      var before := ops[..|ops| - 1];
      Moments(s, before) + Handovers(RunAll(s, before), ops[|ops| - 1])
  }

  /** A request for a module goes to the address that the module resolves to at its moment. */
  ghost predicate GoesWhereResolved(e: Logged, moment: State) {
    e.moduleId.Some? ==>
      && ResolveModule(moment, e.moduleId.value).Ok?
      && e.target == Addressed(ResolveModule(moment, e.moduleId.value).value)
  }

  /** The log from position `from` on, and the moments of its entries. */
  ghost predicate Matches(log: seq<Logged>, from: nat, moments: seq<State>) {
    |log| == from + |moments| && forall k :: 0 <= k < |moments| ==> GoesWhereResolved(log[from + k], moments[k])
  }

  lemma SendMatches(s: State, service: byte, data: seq<byte>, moduleId: Option<ModuleId>)
    ensures
      var s' := SendRequest(s, service, data, moduleId).0;
      s.adapter.log <= s'.adapter.log && Matches(s'.adapter.log, |s.adapter.log|, Handover(s, moduleId))
  {
    hide Discover, Record, ResolveModule;
  }

  lemma Joins(a: seq<Logged>, b: seq<Logged>, c: seq<Logged>, first: seq<State>, second: seq<State>)
    requires a <= b <= c && Matches(b, |a|, first) && Matches(c, |b|, second)
    ensures Matches(c, |a|, first + second)
  {
    forall k | 0 <= k < |first + second| ensures GoesWhereResolved(c[|a| + k], (first + second)[k]) {
      if k < |first| {
        assert c[|a| + k] == b[|a| + k];
      } else {
        assert c[|a| + k] == c[|b| + (k - |first|)];
      }
    }
  }

  lemma StepMatches(s: State, op: Op)
    ensures
      var s' := Perform(s, op);
      s.adapter.log <= s'.adapter.log && Matches(s'.adapter.log, |s.adapter.log|, Handovers(s, op))
  {
    hide SendRequest, EnsureInitialized, Handover, AllZero, ActuatorData;
    InitializeEffect(s);
    var (ready, r) := EnsureInitialized(s);
    match op
    case Init | Voltage | Adopt(_) => QuietEffect(s, op);
    case Enter(kind, m) => SendMatches(ready, 0x10, [SessionCode(kind)], Some(m));
    case End(m) => SendMatches(ready, 0x10, [0x01], Some(m));
    case Unlock(m, key) => UnlockMatches(s, m, key);
    case Control(did, m, command) => SendMatches(ready, 0x2F, ActuatorData(did, command), Some(m));
    case Release(did, m) => SendMatches(ready, 0x2F, [did / 0x100, did % 0x100, 0x00], Some(m));
    case Raw(service, data, moduleId) => SendMatches(ready, service, data, moduleId);
    case RawPhysical(service, data, address) => PhysicalMatches(ready, service, data, address);
  }

  lemma PhysicalMatches(s: State, service: byte, data: seq<byte>, address: PhysicalAddress)
    ensures
      var s' := Deliver(s, service, data, None, Addressed(address)).0;
      s.adapter.log <= s'.adapter.log && Matches(s'.adapter.log, |s.adapter.log|, [s])
  {
    hide Discover, Record;
  }

  lemma UnlockMatches(s: State, m: ModuleId, key: seq<byte> -> seq<byte>)
    ensures
      var s' := SecurityAccess(s, m, key).0;
      s.adapter.log <= s'.adapter.log && Matches(s'.adapter.log, |s.adapter.log|, Handovers(s, Unlock(m, key)))
  {
    hide SendRequest, EnsureInitialized, Handover, AllZero, Matches;
    InitializeEffect(s);
    var (ready, r) := EnsureInitialized(s);
    if r.Ok? {
      var (asked, seed) := SendRequest(ready, 0x27, [0x01], Some(m));
      SendMatches(ready, 0x27, [0x01], Some(m));
      var first := Handover(ready, Some(m));
      assert first + [] == first;
      if seed.Ok? && seed.value != [] && !AllZero(seed.value) {
        var data := [0x02] + key(seed.value);
        SendMatches(asked, 0x27, data, Some(m));
        Joins(s.adapter.log, asked.adapter.log, SendRequest(asked, 0x27, data, Some(m)).0.adapter.log, first,
          Handover(asked, Some(m)));
      }
    } else {
      NothingMatches(s.adapter.log);
    }
  }

  lemma NothingMatches(log: seq<Logged>)
    ensures Matches(log, |log|, [])
  {
  }

  lemma {:induction false} RunMatches(s: State, ops: seq<Op>)
    ensures
      s.adapter.log <= RunAll(s, ops).adapter.log
      && Matches(RunAll(s, ops).adapter.log, |s.adapter.log|, Moments(s, ops))
  {
    hide Perform, Handovers, Matches;
    if ops == [] {
      NothingMatches(s.adapter.log);
    } else {
      var before := ops[..|ops| - 1];
      var s1 := RunAll(s, before);
      RunMatches(s, before);
      StepMatches(s1, ops[|ops| - 1]);
      Joins(s.adapter.log, s1.adapter.log, RunAll(s, ops).adapter.log, Moments(s, before),
        Handovers(s1, ops[|ops| - 1]));
    }
  }

  // ---- Unlocked name, unlocked address ----

  /** Entry `i` is the accepted key for which `log[k]` counts its module as unlocked. */
  ghost predicate EarnedBy(log: seq<Logged>, k: nat, i: nat, m: ModuleId) {
    && i < k <= |log| && KeyAccepted(log[..k], i, m)
    && forall j :: i < j < k ==> !ChangesSession(log[j])
  }

  /**
    Actuator safety by address. In every run of a new session, a driving command for module m is backed by a key
    accepted for m with no session change since; and it goes to the address at which that key was accepted exactly
    if m resolves to the same address at both moments. The key's moment lies inside `security_access`; the seed's,
    just before it, is the state in which that call begins, and if both went to one address it serves as well.
   */
  lemma DrivesUnlockedAddressExactly(s: State, ops: seq<Op>, k: nat)
    requires IsNew(s) && (forall i :: 0 <= i < |ops| ==> Plain(ops[i]))
    requires k < |RunAll(s, ops).adapter.log| && Drives(RunAll(s, ops).adapter.log[k])
    ensures
      var (log, moments) := (RunAll(s, ops).adapter.log, Moments(s, ops));
      && |moments| == |log| && log[k].moduleId.Some?
      && var m := log[k].moduleId.value;
      && (exists i: nat :: EarnedBy(log, k, i, m))
      && forall i: nat :: EarnedBy(log, k, i, m) ==>
           && (log[k].target == log[i].target <==> ResolveModule(moments[k], m) == ResolveModule(moments[i], m))
           && (log[i].target == log[i - 1].target <==> ResolveModule(moments[i], m) == ResolveModule(moments[i - 1], m))
  {
    hide RunAll, Moments, Plain, Drives;
    ActuatorsAreGated(s, ops);
    RunMatches(s, ops);
    var (log, moments) := (RunAll(s, ops).adapter.log, Moments(s, ops));
    var m := log[k].moduleId.value;
    EarnedIsBacked(log, k, m);
    forall i: nat | EarnedBy(log, k, i, m)
      ensures log[k].target == log[i].target <==> ResolveModule(moments[k], m) == ResolveModule(moments[i], m)
      ensures log[i].target == log[i - 1].target <==> ResolveModule(moments[i], m) == ResolveModule(moments[i - 1], m)
    {
      assert log[i] == log[..k][i] && log[i].moduleId == Some(m);
      assert log[i - 1] == log[..k][i - 1] && log[i - 1].moduleId == Some(m);
      assert GoesWhereResolved(log[0 + (i - 1)], moments[i - 1]);
      assert GoesWhereResolved(log[0 + i], moments[i]) && GoesWhereResolved(log[0 + k], moments[k]);
    }
  }

  lemma EarnedIsBacked(log: seq<Logged>, k: nat, m: ModuleId)
    requires k <= |log| && Earned(log[..k], m)
    ensures exists i: nat :: EarnedBy(log, k, i, m)
  {
    var i: nat :| KeyAccepted(log[..k], i, m) && forall j :: i < j < k ==> !ChangesSession(log[..k][j]);
    assert forall j :: i < j < k ==> log[..k][j] == log[j];
    assert EarnedBy(log, k, i, m);
  }

  // ---- What the profile tells before a call ----

  /** Where seed and key of an accepted exchange go: each to the address its module resolves to just then. */
  lemma ExchangeTargets(s: State, m: ModuleId, key: seq<byte> -> seq<byte>)
    requires Exchanges(s, Unlock(m, key), m)
    ensures
      var ready := EnsureInitialized(s).0;
      var asked := SendRequest(ready, 0x27, [0x01], Some(m)).0;
      var (log, after) := (s.adapter.log, Perform(s, Unlock(m, key)));
      && after.initialized && |after.adapter.log| == |log| + 2 && after.adapter.log[..|log|] == log
      && KeyAccepted(after.adapter.log, |log| + 1, m)
      && GoesWhereResolved(after.adapter.log[|log|], ready) && GoesWhereResolved(after.adapter.log[|log| + 1], asked)
  {
    hide SendRequest, EnsureInitialized, AllZero, ResolveModule;
    InitializeEffect(s);
    var (ready, r) := EnsureInitialized(s);
    var (asked, seed) := SendRequest(ready, 0x27, [0x01], Some(m));
    var data := [0x02] + key(seed.value);
    SendEffect(ready, 0x27, [0x01], Some(m));
    SendEffect(asked, 0x27, data, Some(m));
    SendGoes(ready, 0x27, [0x01], Some(m));
    SendGoes(asked, 0x27, data, Some(m));
  }

  lemma SendGoes(s: State, service: byte, data: seq<byte>, moduleId: Option<ModuleId>)
    ensures
      var (s', r) := SendRequest(s, service, data, moduleId);
      r.Ok? ==> |s'.adapter.log| == |s.adapter.log| + 1 && GoesWhereResolved(s'.adapter.log[|s.adapter.log|], s)
  {
    hide Discover, Record, ResolveModule;
  }

  /**
    Seed and key of an accepted exchange go to one address exactly if the profile that the seed's turn leaves behind
    resolves the module as the profile did when the call began.
   */
  lemma SeedAndKeyTogetherExactly(s: State, m: ModuleId, key: seq<byte> -> seq<byte>)
    requires Exchanges(s, Unlock(m, key), m)
    ensures
      var ready := EnsureInitialized(s).0;
      var asked := SendRequest(ready, 0x27, [0x01], Some(m)).0;
      var (log, n) := (Perform(s, Unlock(m, key)).adapter.log, |s.adapter.log|);
      |log| == n + 2 && (log[n].target == log[n + 1].target <==> ResolveModule(ready, m) == ResolveModule(asked, m))
  {
    hide Perform, SendRequest, EnsureInitialized, ResolveModule, Exchanges;
    ExchangeTargets(s, m, key);
  }

  /**
    Actuator safety by the profiles a caller can read. In any run of a new session, raw requests included: after an
    exchange on m whose seed and key went to one address, and no session change since, `actuator_control` drives the
    address that was unlocked exactly if the profile before it resolves m as the one before `security_access` did.
   */
  lemma ControlDrivesUnlockedExactly(s0: State, ops: seq<Op>, i: nat, did: u16, command: ActuatorCommand)
    requires IsNew(s0) && i < |ops| && ops[i].Unlock? && ExchangedAt(s0, ops, i, ops[i].m)
    requires forall j :: i < j < |ops| ==> !ChangedAt(s0, ops, j)
    requires
      var (n, log) := (|RunAll(s0, ops[..i]).adapter.log|, RunAll(s0, ops[..i + 1]).adapter.log);
      |log| == n + 2 ==> log[n].target == log[n + 1].target
    ensures
      var m := ops[i].m;
      var (unlocking, s) := (EnsureInitialized(RunAll(s0, ops[..i])).0, RunAll(s0, ops));
      var (before, unlocked) := (RunAll(s0, ops[..i]).adapter.log, RunAll(s0, ops[..i + 1]).adapter.log);
      var log := ActuatorControl(s, did, m, command).0.adapter.log;
      && s.initialized && |unlocked| == |before| + 2 && KeyAccepted(unlocked, |before| + 1, m)
      && (|log| > |s.adapter.log| <==> ResolveModule(s, m).Ok?)
      && (|log| > |s.adapter.log| ==>
            && log[|s.adapter.log|].data == ActuatorData(did, command)
            && (log[|s.adapter.log|].target == unlocked[|before| + 1].target <==>
                ResolveModule(s, m) == ResolveModule(unlocking, m)))
  {
    hide RunAll, Perform, SendRequest, EnsureInitialized, ResolveModule, Exchanges, Changes, ActuatorControl;
    var (m, s) := (ops[i].m, RunAll(s0, ops));
    RunUnfolds(s0, ops, i);
    ExchangeTargets(RunAll(s0, ops[..i]), m, ops[i].key);
    StaysInitialized(s0, ops, i + 1);
    UnlockedIffExchanged(s0, ops, m);
    NeverInFlight(s0, ops);
    AlreadyInitialized(s);
    ControlExactly(s, did, m, command);
  }

  lemma AlreadyInitialized(s: State)
    requires s.initialized
    ensures EnsureInitialized(s) == (s, Ok(()))
  {
  }

  lemma StepStaysInitialized(s: State, op: Op)
    requires s.initialized
    ensures Perform(s, op).initialized
  {
    hide SendRequest, AllZero, ActuatorData, ResolveModule, Discover, Record;
    match op
    case Init | Voltage | Adopt(_) =>
    case Enter(kind, m) => SendEffect(s, 0x10, [SessionCode(kind)], Some(m));
    case End(m) => SendEffect(s, 0x10, [0x01], Some(m));
    case Unlock(m, key) =>
      var (asked, seed) := SendRequest(s, 0x27, [0x01], Some(m));
      SendEffect(s, 0x27, [0x01], Some(m));
      if seed.Ok? {
        SendEffect(asked, 0x27, [0x02] + key(seed.value), Some(m));
      }
    case Control(did, m, command) => SendEffect(s, 0x2F, ActuatorData(did, command), Some(m));
    case Release(did, m) => SendEffect(s, 0x2F, [did / 0x100, did % 0x100, 0x00], Some(m));
    case Raw(service, data, moduleId) => SendEffect(s, service, data, moduleId);
    case RawPhysical(_, _, _) =>
  }

  lemma {:induction false} StaysInitialized(s: State, ops: seq<Op>, i: nat)
    requires i <= |ops| && RunAll(s, ops[..i]).initialized
    ensures RunAll(s, ops).initialized
  {
    hide Perform;
    if i < |ops| {
      var before := ops[..|ops| - 1];
      assert before[..i] == ops[..i];
      StaysInitialized(s, before, i);
      StepStaysInitialized(RunAll(s, before), ops[|ops| - 1]);
    } else {
      assert ops[..i] == ops;
    }
  }

  /** A specification that declares a module on two buses. */
  function TwoBuses(p: Protocol, q: Protocol, m: ModuleId, a: PhysicalAddress, b: PhysicalAddress): Option<seq<Bus>> {
    Some([Bus("one", p, [Module(m, "one", a)]), Bus("two", q, [Module(m, "two", b)])])
  }

  lemma TwoBusesResolve(s: State, p: Protocol, q: Protocol, m: ModuleId, a: PhysicalAddress, b: PhysicalAddress)
    requires p != q && s.adapter.protocol in {p, q} && s.discovery.Some?
    requires s.discovery == Some(Discover(s.adapter.protocol, TwoBuses(p, q, m, a, b), s.discovery.value.visibleEcus))
    ensures ResolveModule(s, m) == Ok(if s.adapter.protocol == p then a else b)
  {
    var buses := TwoBuses(p, q, m, a, b).value;
    var (one, two) := (Module(m, "one", a), Module(m, "two", b));
    assert buses[1..] == [Bus("two", q, [two])];
    assert BusFor(q, buses[1..]) == Some("two");
    assert ActiveBus(s.adapter.protocol, Some(buses)) == Some(if s.adapter.protocol == p then "one" else "two");
    assert Collect([one], map[]) == Collect([one][1..], map[m := one]) == map[m := one];
    assert Collect([two], map[]) == Collect([two][1..], map[m := two]) == map[m := two];
    assert ResolveModules(buses[1..], Some("two"), map[]) == map[m := two];
    assert ResolveModules(buses, Some("one"), map[]) == map[m := one];
    assert ResolveModules(buses, Some("two"), map[]) == map[m := two];
  }

  /**
    A run in which seed and key part: from a new session, the adapter reports another protocol with the seed's answer,
    and the key is accepted at an address that the profile before the call does not name.
   */
  lemma SeedAndKeyPart(
    s: State, m: ModuleId, a: PhysicalAddress, b: PhysicalAddress, p: Protocol, q: Protocol,
    key: seq<byte> -> seq<byte>)
    requires IsNew(s) && a != b && p != q
    requires s.adapter.script == [Turn(Ok([]), [], p), Turn(Ok([0x01]), [], q), Turn(Ok([]), [], q)]
    ensures
      var ops := [Init, Adopt(TwoBuses(p, q, m, a, b)), Unlock(m, key)];
      var log := RunAll(s, ops).adapter.log;
      && ResolveModule(RunAll(s, ops[..2]), m) == Ok(a)
      && |log| == 2 && log[0].target == Addressed(a) && log[1].target == Addressed(b) && KeyAccepted(log, 1, m)
  {
    hide RunAll, Perform, TwoBuses, KeyAccepted, ResolveModule;
    var ops := [Init, Adopt(TwoBuses(p, q, m, a, b)), Unlock(m, key)];
    RunUnfolds(s, ops, 0);
    RunUnfolds(s, ops, 1);
    RunUnfolds(s, ops, 2);
    assert ops[..3] == ops;
    Adopted(s, TwoBuses(p, q, m, a, b), p, [Turn(Ok([0x01]), [], q), Turn(Ok([]), [], q)]);
    var ready := RunAll(s, ops[..2]);
    TwoBusesResolve(ready, p, q, m, a, b);
    UnlocksAcross(ready, m, a, b, p, q, key);
  }

  lemma Adopted(s: State, spec: Option<seq<Bus>>, p: Protocol, rest: seq<Turn>)
    requires IsNew(s) && s.adapter.script == [Turn(Ok([]), [], p)] + rest
    ensures
      var t := Perform(Perform(s, Init), Adopt(spec));
      && t.initialized && !t.requestInFlight && t.spec == spec && t.adapter == AdapterState(p, rest, [])
      && t.discovery == Some(Discover(p, spec, t.visibleEcus)) && t.discovery.value.visibleEcus == t.visibleEcus
  {
    hide ActiveBus, ResolveModules;
    assert s.adapter.script[1..] == rest;
  }

  lemma UnlocksAcross(
    s: State, m: ModuleId, a: PhysicalAddress, b: PhysicalAddress, p: Protocol, q: Protocol,
    key: seq<byte> -> seq<byte>)
    requires s.initialized && !s.requestInFlight && p != q && s.adapter.log == []
    requires ResolveModule(s, m) == Ok(a) && s.spec == TwoBuses(p, q, m, a, b)
    requires s.adapter.script == [Turn(Ok([0x01]), [], q), Turn(Ok([]), [], q)]
    ensures
      var log := Perform(s, Unlock(m, key)).adapter.log;
      |log| == 2 && log[0].target == Addressed(a) && log[1].target == Addressed(b) && KeyAccepted(log, 1, m)
  {
    hide Discover, ResolveModule, TwoBuses, SendRequest;
    var later := [Turn(Ok([]), [], q)];
    AnsweredSend(s, 0x27, [0x01], Some(m), Addressed(a), q, [0x01], later);
    var asked := SendRequest(s, 0x27, [0x01], Some(m)).0;
    DiscoversVisible(q, TwoBuses(p, q, m, a, b), asked.visibleEcus);
    TwoBusesResolve(asked, p, q, m, a, b);
    assert later == [Turn(Ok([]), [], q)] + [];
    AnsweredSend(asked, 0x27, [0x02] + key([0x01]), Some(m), Addressed(b), q, [], []);
    var seed: seq<byte> := [0x01];
    assert seed[0] == 1 && !AllZero(seed);
  }

  // ---- As long as specification and protocol stay ----

  /** The profile resolves the specification `spec` under protocol `p`, and the adapter goes on reporting `p`. */
  ghost predicate Steady(s: State, p: Protocol, spec: Option<seq<Bus>>) {
    && s.initialized && s.spec == spec && s.adapter.protocol == p
    && s.discovery == Some(Discover(p, spec, s.visibleEcus))
    && forall i :: 0 <= i < |s.adapter.script| ==> s.adapter.script[i].protocol == p
  }

  lemma TurnStaysSteady(s: State, p: Protocol, spec: Option<seq<Bus>>)
    requires Steady(s, p, spec)
    ensures NextTurn(s.adapter).protocol == p && AfterTurn(s.adapter).protocol == p
    ensures forall i :: 0 <= i < |AfterTurn(s.adapter).script| ==> AfterTurn(s.adapter).script[i].protocol == p
  {
  }

  lemma SendStaysSteady(
    s: State, service: byte, data: seq<byte>, moduleId: Option<ModuleId>, p: Protocol, spec: Option<seq<Bus>>)
    requires Steady(s, p, spec)
    ensures Steady(SendRequest(s, service, data, moduleId).0, p, spec)
    ensures forall t :: t in Handover(s, moduleId) ==> t == s
  {
    hide Discover, Record, ResolveModule, NextTurn, AfterTurn;
    TurnStaysSteady(s, p, spec);
    assert AfterTurn(s.adapter).log == s.adapter.log by {
      AfterTurnKeepsLog(s.adapter);
    }
  }

  lemma AfterTurnKeepsLog(a: AdapterState)
    ensures AfterTurn(a).log == a.log
  {
  }

  lemma StepStaysSteady(s: State, op: Op, p: Protocol, spec: Option<seq<Bus>>)
    requires Steady(s, p, spec) && !op.Adopt?
    ensures Steady(Perform(s, op), p, spec)
    ensures forall t :: t in Handovers(s, op) ==> Steady(t, p, spec)
  {
    hide Discover, Record, ResolveModule, NextTurn, AfterTurn, Handover, SendRequest, AllZero, ActuatorData;
    TurnStaysSteady(s, p, spec);
    match op
    case Init | Voltage => assert Handovers(s, op) == [];
    case Enter(kind, m) => SendStaysSteady(s, 0x10, [SessionCode(kind)], Some(m), p, spec);
    case End(m) => SendStaysSteady(s, 0x10, [0x01], Some(m), p, spec);
    case Unlock(m, key) =>
      var (asked, seed) := SendRequest(s, 0x27, [0x01], Some(m));
      SendStaysSteady(s, 0x27, [0x01], Some(m), p, spec);
      if seed.Ok? {
        SendStaysSteady(asked, 0x27, [0x02] + key(seed.value), Some(m), p, spec);
      }
    case Control(did, m, command) => SendStaysSteady(s, 0x2F, ActuatorData(did, command), Some(m), p, spec);
    case Release(did, m) => SendStaysSteady(s, 0x2F, [did / 0x100, did % 0x100, 0x00], Some(m), p, spec);
    case Raw(service, data, moduleId) => SendStaysSteady(s, service, data, moduleId, p, spec);
    case RawPhysical(service, data, address) => PhysicalStaysSteady(s, service, data, address, p, spec);
  }

  lemma PhysicalStaysSteady(
    s: State, service: byte, data: seq<byte>, address: PhysicalAddress, p: Protocol, spec: Option<seq<Bus>>)
    requires Steady(s, p, spec)
    ensures Steady(Deliver(s, service, data, None, Addressed(address)).0, p, spec)
  {
    hide Discover, Record, NextTurn, AfterTurn;
    TurnStaysSteady(s, p, spec);
  }

  lemma {:induction false} MomentsStaySteady(s: State, ops: seq<Op>, p: Protocol, spec: Option<seq<Bus>>)
    requires Steady(s, p, spec) && forall i :: 0 <= i < |ops| ==> !ops[i].Adopt?
    ensures Steady(RunAll(s, ops), p, spec)
    ensures forall k :: 0 <= k < |Moments(s, ops)| ==> Steady(Moments(s, ops)[k], p, spec)
  {
    hide Perform, Handovers, Steady;
    if ops != [] {
      var before := ops[..|ops| - 1];
      MomentsStaySteady(s, before, p, spec);
      StepStaysSteady(RunAll(s, before), ops[|ops| - 1], p, spec);
    }
  }

  /**
    While neither the specification nor the reported protocol changes, every request for a module goes to one and
    the same address, so a command drives the very address that was unlocked.
   */
  lemma SteadyRunsKeepAddresses(s: State, ops: seq<Op>, p: Protocol, m: ModuleId)
    requires Steady(s, p, s.spec) && forall i :: 0 <= i < |ops| ==> !ops[i].Adopt?
    ensures
      var log := RunAll(s, ops).adapter.log;
      && |s.adapter.log| <= |log|
      && forall k :: |s.adapter.log| <= k < |log| && log[k].moduleId == Some(m) ==>
           ResolveModule(s, m).Ok? && log[k].target == Addressed(ResolveModule(s, m).value)
  {
    hide RunAll, Moments, Steady, ResolveModule;
    RunMatches(s, ops);
    MomentsStaySteady(s, ops, p, s.spec);
    var (log, from, moments) := (RunAll(s, ops).adapter.log, |s.adapter.log|, Moments(s, ops));
    forall k | from <= k < |log| && log[k].moduleId == Some(m)
      ensures ResolveModule(s, m).Ok? && log[k].target == Addressed(ResolveModule(s, m).value)
    {
      assert GoesWhereResolved(log[from + (k - from)], moments[k - from]);
      SteadyResolve(s, moments[k - from], p, s.spec, m);
    }
  }

  lemma SteadyResolve(s: State, t: State, p: Protocol, spec: Option<seq<Bus>>, m: ModuleId)
    requires Steady(s, p, spec) && Steady(t, p, spec)
    ensures ResolveModule(s, m) == ResolveModule(t, m)
  {
    hide ActiveBus, ResolveModules;
  }

  // ---- A run in which an unlock moves ----

  /** A specification with one bus and one module. */
  function OneModule(protocol: Protocol, m: ModuleId, address: PhysicalAddress): Option<seq<Bus>> {
    Some([Bus("can", protocol, [Module(m, "can", address)])])
  }

  lemma OneModuleResolves(s: State, p: Protocol, m: ModuleId, address: PhysicalAddress)
    requires s.discovery.Some?
    requires s.discovery == Some(Discover(s.adapter.protocol, OneModule(p, m, address), s.discovery.value.visibleEcus))
    ensures ResolveModule(s, m) == Ok(address)
  {
    var declared := Module(m, "can", address);
    var buses := OneModule(p, m, address).value;
    assert BusFor(s.adapter.protocol, buses[1..]) == None;
    assert ActiveBus(s.adapter.protocol, Some(buses)) == Some("can");
    assert Collect([declared], map[]) == Collect([declared][1..], map[m := declared]) == map[m := declared];
    assert ResolveModules(buses, Some("can"), map[]) == map[m := declared];
  }

  /** A request answered without events. */
  lemma AnsweredSend(
    s: State, service: byte, data: seq<byte>, moduleId: Option<ModuleId>,
    target: Target, p: Protocol, value: seq<byte>, rest: seq<Turn>)
    requires s.initialized && !s.requestInFlight
    requires s.adapter.script == [Turn(Ok(value), [], p)] + rest
    requires if moduleId.None? then target == Broadcast
             else ResolveModule(s, moduleId.value).Ok? && target == Addressed(ResolveModule(s, moduleId.value).value)
    ensures
      var (s', r) := SendRequest(s, service, data, moduleId);
      && r == Ok(value)
      && s'.adapter == AdapterState(p, rest, s.adapter.log + [Logged(service, data, moduleId, target, r)])
      && s'.spec == s.spec && s'.diagnostic == s.diagnostic && s'.initialized && !s'.requestInFlight
      && s'.discovery == Some(Discover(p, s.spec, s'.visibleEcus))
  {
    hide Discover, Record, ResolveModule;
    assert s.adapter.script[1..] == rest;
  }

  /** One unlocked module, another specification, and a driving command to the address that one declares. */
  lemma AdoptMovesUnlock(s: State, did: u16, m: ModuleId, b: PhysicalAddress, p: Protocol)
    requires s.initialized && !s.requestInFlight && Unlocked(s, m)
    ensures
      var log := Perform(Perform(s, Adopt(OneModule(p, m, b))), Control(did, m, Activate)).adapter.log;
      && |log| == |s.adapter.log| + 1 && log[..|s.adapter.log|] == s.adapter.log
      && var e := log[|s.adapter.log|];
         Drives(e) && e.moduleId == Some(m) && e.target == Addressed(b)
  {
    hide Discover, Record, ResolveModule, OneModule;
    var adopted := Perform(s, Adopt(OneModule(p, m, b)));
    assert adopted.discovery.value.visibleEcus == s.visibleEcus by {
      DiscoversVisible(s.adapter.protocol, OneModule(p, m, b), s.visibleEcus);
    }
    OneModuleResolves(adopted, p, m, b);
    ControlExactly(adopted, did, m, Activate);
  }

  lemma DiscoversVisible(p: Protocol, spec: Option<seq<Bus>>, visible: seq<VisibleEcu>)
    ensures Discover(p, spec, visible).visibleEcus == visible
  {
  }

  /** The identification of a vehicle, then its module unlocked; another vehicle identified, then its module driven. */
  function MovingRun(
    did: u16, m: ModuleId, a: PhysicalAddress, b: PhysicalAddress, p: Protocol, key: seq<byte> -> seq<byte>): seq<Op>
  {
    [Raw(0x09, [0x02], None), Adopt(OneModule(p, m, a)), Unlock(m, key),
     Raw(0x09, [0x02], None), Adopt(OneModule(p, m, b)), Control(did, m, Activate)]
  }

  /**
    From a new session: the module is unlocked at one address and driven at another, to which nothing was sent before.
   */
  lemma UnlockMoves(
    s: State, did: u16, m: ModuleId, a: PhysicalAddress, b: PhysicalAddress,
    p: Protocol, key: seq<byte> -> seq<byte>, vin: seq<byte>)
    requires IsNew(s) && a != b
    requires s.adapter.script ==
             [Turn(Ok([]), [], p), Turn(Ok(vin), [], p),
              Turn(Ok([0x01]), [], p), Turn(Ok([]), [], p), Turn(Ok(vin), [], p)]
    ensures
      var log := RunAll(s, MovingRun(did, m, a, b, p, key)).adapter.log;
      && |log| == 5
      && log[1].target == log[2].target == Addressed(a) && KeyAccepted(log, 2, m)
      && Drives(log[4]) && log[4].moduleId == Some(m) && log[4].target == Addressed(b)
      && forall i :: 0 <= i < 4 ==> log[i].target != Addressed(b)
  {
    hide RunAll, MovingRun, Perform, KeyAccepted, Drives, OneModule, ResolveModule;
    MovingRunUnfolds(s, did, m, a, b, p, key);
    var identified := Perform(Perform(s, Raw(0x09, [0x02], None)), Adopt(OneModule(p, m, a)));
    FirstVehicle(s, m, a, p, vin);
    var unlocked := Perform(identified, Unlock(m, key));
    Unlocks(identified, m, a, p, key, vin);
    var elsewhere := Perform(unlocked, Raw(0x09, [0x02], None));
    SecondVehicle(unlocked, p, vin);
    AdoptMovesUnlock(elsewhere, did, m, b, p);
    SeedAndKey(RunAll(s, MovingRun(did, m, a, b, p, key)).adapter.log, m, a, key);
  }

  lemma MovingRunUnfolds(
    s: State, did: u16, m: ModuleId, a: PhysicalAddress, b: PhysicalAddress, p: Protocol, key: seq<byte> -> seq<byte>)
    ensures
      var unlocked := Perform(Perform(Perform(s, Raw(0x09, [0x02], None)), Adopt(OneModule(p, m, a))), Unlock(m, key));
      RunAll(s, MovingRun(did, m, a, b, p, key)) ==
      Perform(Perform(Perform(unlocked, Raw(0x09, [0x02], None)), Adopt(OneModule(p, m, b))), Control(did, m, Activate))
  {
    hide RunAll, Perform, OneModule;
    var ops := MovingRun(did, m, a, b, p, key);
    RunUnfolds(s, ops, 0);
    RunUnfolds(s, ops, 1);
    RunUnfolds(s, ops, 2);
    RunUnfolds(s, ops, 3);
    RunUnfolds(s, ops, 4);
    RunUnfolds(s, ops, 5);
    assert ops[..6] == ops;
  }

  lemma SeedAndKey(log: seq<Logged>, m: ModuleId, a: PhysicalAddress, key: seq<byte> -> seq<byte>)
    requires |log| > 2 && log[1] == Logged(0x27, [0x01], Some(m), Addressed(a), Ok([0x01]))
    requires log[2] == Logged(0x27, [0x02] + key([0x01]), Some(m), Addressed(a), Ok([]))
    ensures KeyAccepted(log, 2, m)
  {
    var seed: seq<byte> := [0x01];
    assert seed[0] == 1 && !AllZero(seed);
  }

  lemma RunUnfolds(s: State, ops: seq<Op>, k: nat)
    requires k < |ops|
    ensures RunAll(s, ops[..k + 1]) == Perform(RunAll(s, ops[..k]), ops[k]) && RunAll(s, ops[..0]) == s
  {
    hide Perform;
    assert ops[..k + 1][..k] == ops[..k];
  }

  lemma FirstVehicle(s: State, m: ModuleId, a: PhysicalAddress, p: Protocol, vin: seq<byte>)
    requires IsNew(s)
    requires s.adapter.script ==
             [Turn(Ok([]), [], p), Turn(Ok(vin), [], p),
              Turn(Ok([0x01]), [], p), Turn(Ok([]), [], p), Turn(Ok(vin), [], p)]
    ensures
      var t := Perform(Perform(s, Raw(0x09, [0x02], None)), Adopt(OneModule(p, m, a)));
      && t.initialized && !t.requestInFlight && ResolveModule(t, m) == Ok(a) && t.spec == OneModule(p, m, a)
      && t.adapter == AdapterState(p, [Turn(Ok([0x01]), [], p), Turn(Ok([]), [], p), Turn(Ok(vin), [], p)],
                                   [Logged(0x09, [0x02], None, Broadcast, Ok(vin))])
  {
    hide Discover, ResolveModule, OneModule;
    var ready := EnsureInitialized(s).0;
    var rest := [Turn(Ok([0x01]), [], p), Turn(Ok([]), [], p), Turn(Ok(vin), [], p)];
    assert s.adapter.script[1..] == [Turn(Ok(vin), [], p)] + rest;
    AnsweredSend(ready, 0x09, [0x02], None, Broadcast, p, vin, rest);
    var t := Perform(Perform(s, Raw(0x09, [0x02], None)), Adopt(OneModule(p, m, a)));
    DiscoversVisible(p, OneModule(p, m, a), t.visibleEcus);
    OneModuleResolves(t, p, m, a);
  }

  lemma Unlocks(s: State, m: ModuleId, a: PhysicalAddress, p: Protocol, key: seq<byte> -> seq<byte>, vin: seq<byte>)
    requires s.initialized && !s.requestInFlight && ResolveModule(s, m) == Ok(a) && s.spec == OneModule(p, m, a)
    requires s.adapter.script == [Turn(Ok([0x01]), [], p), Turn(Ok([]), [], p), Turn(Ok(vin), [], p)]
    ensures
      var t := Perform(s, Unlock(m, key));
      && t.initialized && !t.requestInFlight && Unlocked(t, m)
      && t.adapter == AdapterState(p, [Turn(Ok(vin), [], p)],
           s.adapter.log + [Logged(0x27, [0x01], Some(m), Addressed(a), Ok([0x01])),
                            Logged(0x27, [0x02] + key([0x01]), Some(m), Addressed(a), Ok([]))])
  {
    hide Discover, ResolveModule, OneModule, SendRequest;
    var rest := [Turn(Ok(vin), [], p)];
    var later := [Turn(Ok([]), [], p)] + rest;
    AnsweredSend(s, 0x27, [0x01], Some(m), Addressed(a), p, [0x01], later);
    var asked := SendRequest(s, 0x27, [0x01], Some(m)).0;
    DiscoversVisible(p, OneModule(p, m, a), asked.visibleEcus);
    OneModuleResolves(asked, p, m, a);
    AnsweredSend(asked, 0x27, [0x02] + key([0x01]), Some(m), Addressed(a), p, [], rest);
    var seed: seq<byte> := [0x01];
    assert seed[0] == 1 && !AllZero(seed);
  }

  lemma SecondVehicle(s: State, p: Protocol, vin: seq<byte>)
    requires s.initialized && !s.requestInFlight && s.adapter.script == [Turn(Ok(vin), [], p)]
    ensures
      var t := Perform(s, Raw(0x09, [0x02], None));
      && t.initialized && !t.requestInFlight && t.diagnostic == s.diagnostic
      && t.adapter.log == s.adapter.log + [Logged(0x09, [0x02], None, Broadcast, Ok(vin))]
  {
    hide SendRequest;
    assert s.adapter.script == [Turn(Ok(vin), [], p)] + [];
    AnsweredSend(s, 0x09, [0x02], None, Broadcast, p, vin, []);
  }
}
