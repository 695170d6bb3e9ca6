/** Which actuator commands a session sends, over whole runs and whatever the adapter answers. */
module SessionSafety {
  import opened Basics
  import opened Elm327
  import opened Session
  import opened SessionRuns

  // ---- The gate in terms of operations ----

  /** `security_access` on `m` goes through to an accepted key. */
  predicate Exchanges(s: State, op: Op, m: ModuleId) {
    op.Unlock? && op.m == m &&
    var (ready, r) := EnsureInitialized(s);
    r.Ok? &&
    var (asked, seed) := SendRequest(ready, 0x27, [0x01], Some(m));
    seed.Ok? && seed.value != [] && !AllZero(seed.value)
    && SendRequest(asked, 0x27, [0x02] + op.key(seed.value), Some(m)).1.Ok?
  }

  /** A diagnostic session is entered or ended, on any module. */
  predicate Changes(s: State, op: Op) {
    (op.Enter? && EnterDiagnosticSession(s, op.kind, op.m).1.Ok?) || (op.End? && EndDiagnosticSession(s, op.m).1.Ok?)
  }

  /** The exact step, for every operation, raw requests included. */
  lemma UnlockedExactly(s: State, op: Op, m: ModuleId)
    ensures Unlocked(Perform(s, op), m) <==> Exchanges(s, op, m) || (Unlocked(s, m) && !Changes(s, op))
  {
    hide SendRequest, EnsureInitialized, AllZero;
    InitializeEffect(s);
    var (ready, r) := EnsureInitialized(s);
    match op
    case Init | Voltage | Adopt(_) => QuietEffect(s, op);
    case Enter(kind, other) => SendEffect(ready, 0x10, [SessionCode(kind)], Some(other));
    case End(other) => SendEffect(ready, 0x10, [0x01], Some(other));
    case Unlock(other, key) => UnlockExactly(s, other, key, m);
    case Control(did, other, command) => SendEffect(ready, 0x2F, ActuatorData(did, command), Some(other));
    case Release(did, other) => SendEffect(ready, 0x2F, [did / 0x100, did % 0x100, 0x00], Some(other));
    case Raw(service, data, moduleId) => SendEffect(ready, service, data, moduleId);
    case RawPhysical(_, _, _) =>
  }

  lemma UnlockExactly(s: State, other: ModuleId, key: seq<byte> -> seq<byte>, m: ModuleId)
    ensures Unlocked(SecurityAccess(s, other, key).0, m) <==> Exchanges(s, Unlock(other, key), m) || Unlocked(s, m)
  {
    hide SendRequest, EnsureInitialized, AllZero;
    InitializeEffect(s);
    var (ready, r) := EnsureInitialized(s);
    var (asked, seed) := SendRequest(ready, 0x27, [0x01], Some(other));
    SendEffect(ready, 0x27, [0x01], Some(other));
    if seed.Ok? {
      SendEffect(asked, 0x27, [0x02] + key(seed.value), Some(other));
    }
  }

  /** A seed/key exchange on `m` succeeded in the run, and no later operation entered or ended a diagnostic session. */
  ghost predicate Exchanged(s: State, ops: seq<Op>, m: ModuleId) {
    exists i: nat :: i < |ops| && ExchangedAt(s, ops, i, m)
                     && forall j :: i < j < |ops| ==> !ChangedAt(s, ops, j)
  }

  predicate ExchangedAt(s: State, ops: seq<Op>, i: nat, m: ModuleId)
    requires i < |ops|
  {
    Exchanges(RunAll(s, ops[..i]), ops[i], m)
  }

  predicate ChangedAt(s: State, ops: seq<Op>, j: nat)
    requires j < |ops|
  {
    Changes(RunAll(s, ops[..j]), ops[j])
  }

  /**
    The gate over operations. In every run of a new session, of any operations and whatever the adapter answers, a
    module is unlocked exactly if a seed/key exchange on it succeeded with no diagnostic session entered or ended since.
   */
  lemma {:induction false} UnlockedIffExchanged(s: State, ops: seq<Op>, m: ModuleId)
    requires IsNew(s)
    ensures Unlocked(RunAll(s, ops), m) <==> Exchanged(s, ops, m)
  {
    hide Perform, Exchanges, Changes;
    if ops != [] {
      var (before, op) := (ops[..|ops| - 1], ops[|ops| - 1]);
      UnlockedIffExchanged(s, before, m);
      UnlockedExactly(RunAll(s, before), op, m);
      ExchangedExtends(s, before, op, m);
      assert ops == before + [op];
    }
  }

  lemma ExchangedExtends(s: State, before: seq<Op>, op: Op, m: ModuleId)
    ensures Exchanged(s, before + [op], m) <==>
            Exchanges(RunAll(s, before), op, m) || (Exchanged(s, before, m) && !Changes(RunAll(s, before), op))
  {
    hide RunAll, Exchanges, Changes;
    var (ops, k) := (before + [op], |before|);
    assert ops[..k] == before && ops[k] == op;
    assert forall i :: 0 <= i < k ==> ops[..i] == before[..i] && ops[i] == before[i];
    assert ExchangedAt(s, ops, k, m) <==> Exchanges(RunAll(s, before), op, m);
    assert ChangedAt(s, ops, k) <==> Changes(RunAll(s, before), op);
    assert forall i :: 0 <= i < k ==> (ExchangedAt(s, ops, i, m) <==> ExchangedAt(s, before, i, m));
    assert forall j :: 0 <= j < k ==> (ChangedAt(s, ops, j) <==> ChangedAt(s, before, j));
    if Exchanged(s, before, m) && !Changes(RunAll(s, before), op) {
      var i: nat :| i < k && ExchangedAt(s, before, i, m) && forall j :: i < j < k ==> !ChangedAt(s, before, j);
      assert ExchangedAt(s, ops, i, m);
    }
    if Exchanged(s, ops, m) {
      var i: nat :| i < |ops| && ExchangedAt(s, ops, i, m) && forall j :: i < j < |ops| ==> !ChangedAt(s, ops, j);
      assert i < k ==> ExchangedAt(s, before, i, m) && !ChangedAt(s, ops, k);
    }
  }

  /** What `actuator_control` does, by whether the module is unlocked. */
  lemma ControlExactly(s: State, did: u16, m: ModuleId, command: ActuatorCommand)
    requires !s.requestInFlight
    ensures
      var (ready, init) := EnsureInitialized(s);
      var (s', r) := ActuatorControl(s, did, m, command);
      if init.Err? then r == init && s' == ready
      else if !Unlocked(s, m) then r == Err(SecurityRequired) && s' == ready
      else
        var address := ResolveModule(ready, m);
        if address.Err? then r == Err(address.error) && s' == ready
        else
          && |s'.adapter.log| == |s.adapter.log| + 1 && s'.adapter.log[..|s.adapter.log|] == s.adapter.log
          && var e := s'.adapter.log[|s.adapter.log|];
             && e.service == 0x2F && e.moduleId == Some(m) && e.target == Addressed(address.value)
             && e.data == ActuatorData(did, command)
             && (r.Ok? <==> e.result.Ok?)
  {
    hide AllZero, ActuatorData, ResolveModules, ResolveModule, Record, Discover, EnsureInitialized, NextTurn;
    InitializeEffect(s);
  }

  /**
    Actuator safety over operations. At any point of any run of a new session, raw requests included,
    `actuator_control` sends nothing and reports SecurityRequired unless a seed/key exchange on the module
    succeeded earlier with no diagnostic session entered or ended in between; and if it did, the command goes out
    as soon as the module can be routed.
   */
  lemma ControlExactlyAfterExchange(s0: State, ops: seq<Op>, did: u16, m: ModuleId, command: ActuatorCommand)
    requires IsNew(s0)
    ensures
      var s := RunAll(s0, ops);
      var (ready, init) := EnsureInitialized(s);
      var (s', r) := ActuatorControl(s, did, m, command);
      if init.Err? then r == init && s' == ready && s'.adapter.log == s.adapter.log
      else if !Exchanged(s0, ops, m) then r == Err(SecurityRequired) && s' == ready && s'.adapter.log == s.adapter.log
      else
        var address := ResolveModule(ready, m);
        if address.Err? then r == Err(address.error) && s' == ready
        else
          && |s'.adapter.log| == |s.adapter.log| + 1
          && var e := s'.adapter.log[|s.adapter.log|];
             && e.service == 0x2F && e.moduleId == Some(m) && e.target == Addressed(address.value)
             && e.data == ActuatorData(did, command)
  {
    hide RunAll, EnsureInitialized, ActuatorControl, ResolveModule, Exchanged, ActuatorData;
    var s := RunAll(s0, ops);
    UnlockedIffExchanged(s0, ops, m);
    NeverInFlight(s0, ops);
    InitializeEffect(s);
    ControlExactly(s, did, m, command);
  }

  lemma {:induction false} NeverInFlight(s: State, ops: seq<Op>)
    requires !s.requestInFlight
    ensures !RunAll(s, ops).requestInFlight
  {
    hide Perform;
    if ops != [] {
      NeverInFlight(s, ops[..|ops| - 1]);
      StepNotInFlight(RunAll(s, ops[..|ops| - 1]), ops[|ops| - 1]);
    }
  }

  lemma StepNotInFlight(s: State, op: Op)
    ensures Perform(s, op).requestInFlight == s.requestInFlight
  {
    hide SendRequest, EnsureInitialized, AllZero, ActuatorData;
    InitializeEffect(s);
    var ready := EnsureInitialized(s).0;
    match op
    case Init | Voltage | Adopt(_) => QuietEffect(s, op);
    case Enter(kind, m) => SendEffect(ready, 0x10, [SessionCode(kind)], Some(m));
    case End(m) => SendEffect(ready, 0x10, [0x01], Some(m));
    case Unlock(m, key) =>
      var (asked, seed) := SendRequest(ready, 0x27, [0x01], Some(m));
      SendEffect(ready, 0x27, [0x01], Some(m));
      if seed.Ok? {
        SendEffect(asked, 0x27, [0x02] + key(seed.value), Some(m));
      }
    case Control(did, m, command) => SendEffect(ready, 0x2F, ActuatorData(did, command), Some(m));
    case Release(did, m) => SendEffect(ready, 0x2F, [did / 0x100, did % 0x100, 0x00], Some(m));
    case Raw(service, data, moduleId) => SendEffect(ready, service, data, moduleId);
    case RawPhysical(_, _, _) =>
  }

  // ---- The gate in terms of what goes over the wire ----

  /** Entry `i` is the key of a seed/key exchange on `m` that was accepted. */
  predicate KeyAccepted(log: seq<Logged>, i: nat, m: ModuleId) {
    && 1 <= i < |log|
    && log[i - 1].service == 0x27 && log[i - 1].data == [0x01] && log[i - 1].moduleId == Some(m)
    && log[i - 1].result.Ok? && log[i - 1].result.value != [] && !AllZero(log[i - 1].result.value)
    && log[i].service == 0x27 && log[i].data != [] && log[i].data[0] == 0x02 && log[i].moduleId == Some(m)
    && log[i].result.Ok?
  }

  /** A successful entry or end of a diagnostic session, on any module. */
  predicate ChangesSession(e: Logged) {
    e.service == 0x10 && e.result.Ok?
  }

  /**
    The requests logged for module `m`, by its name, show a seed/key exchange that succeeded, and no diagnostic
    session entered or ended since.
   */
  ghost predicate Earned(log: seq<Logged>, m: ModuleId) {
    exists i: nat :: KeyAccepted(log, i, m) && forall j :: i < j < |log| ==> !ChangesSession(log[j])
  }

  /** A module is unlocked exactly when the requests logged for it have earned that. */
  ghost predicate Gate(s: State) {
    forall m :: Unlocked(s, m) <==> Earned(s.adapter.log, m)
  }

  /** A command that drives an actuator, as opposed to handing it back to the ECU. */
  predicate Drives(e: Logged) {
    e.service == 0x2F && |e.data| >= 3 && e.data[2] == 0x03
  }

  ghost predicate Safe(log: seq<Logged>) {
    forall k :: 0 <= k < |log| && Drives(log[k]) ==> log[k].moduleId.Some? && Earned(log[..k], log[k].moduleId.value)
  }

  /**
    Raw requests do not themselves change sessions, exchange keys or drive actuators. (The reading operations are
    raw requests; `read_enhanced` takes its service from the vehicle specification.)
   */
  predicate Plain(op: Op) {
    (op.Raw? || op.RawPhysical?) ==> op.service !in {0x10, 0x27, 0x2F}
  }

  lemma EarnedAfter(log: seq<Logged>, next: seq<Logged>, m: ModuleId)
    requires |next| == |log| + 1 && next[..|log|] == log
    ensures Earned(next, m) <==> !ChangesSession(next[|log|]) && (Earned(log, m) || KeyAccepted(next, |log|, m))
  {
    assert forall i :: 0 <= i < |log| ==> log[i] == next[i];
    assert forall i :: 0 <= i < |log| ==> (KeyAccepted(log, i, m) <==> KeyAccepted(next, i, m));
    if Earned(next, m) {
      var i: nat :| KeyAccepted(next, i, m) && forall j :: i < j < |next| ==> !ChangesSession(next[j]);
      assert i < |log| ==> KeyAccepted(log, i, m);
    }
    if Earned(log, m) && !ChangesSession(next[|log|]) {
      var i: nat :| KeyAccepted(log, i, m) && forall j :: i < j < |log| ==> !ChangesSession(log[j]);
      assert KeyAccepted(next, i, m);
    }
    if KeyAccepted(next, |log|, m) {
      assert !ChangesSession(next[|log|]);
    }
  }

  /** A request that neither changes the session nor completes a key exchange leaves the gate as it is. */
  lemma GateKept(s: State, s': State)
    requires Gate(s) && Safe(s.adapter.log) && s'.diagnostic == s.diagnostic
    requires
      var (log, next) := (s.adapter.log, s'.adapter.log);
      next == log ||
      (&& |next| == |log| + 1 && next[..|log|] == log
       && var e := next[|log|];
          && !ChangesSession(e) && (e.service == 0x27 ==> e.data == [0x01] || e.result.Err?)
          && (Drives(e) ==> e.moduleId.Some? && Unlocked(s, e.moduleId.value)))
    ensures Gate(s') && Safe(s'.adapter.log)
  {
    var (log, next) := (s.adapter.log, s'.adapter.log);
    if next != log {
      forall m ensures Unlocked(s', m) <==> Earned(next, m) {
        EarnedAfter(log, next, m);
        assert Unlocked(s', m) <==> Unlocked(s, m);
      }
      SafeAfter(log, next);
    }
  }

  lemma SafeAfter(log: seq<Logged>, next: seq<Logged>)
    requires Safe(log) && |next| == |log| + 1 && next[..|log|] == log
    requires var e := next[|log|]; Drives(e) ==> e.moduleId.Some? && Earned(log, e.moduleId.value)
    ensures Safe(next)
  {
    forall k | 0 <= k < |next| && Drives(next[k])
      ensures next[k].moduleId.Some? && Earned(next[..k], next[k].moduleId.value)
    {
      if k < |log| {
        assert next[k] == log[k] && next[..k] == log[..k];
      }
    }
  }

  lemma SessionChangeKeepsGate(s: State, kind: SessionKind, m: ModuleId)
    requires Gate(s) && Safe(s.adapter.log)
    ensures Gate(EnterDiagnosticSession(s, kind, m).0) && Safe(EnterDiagnosticSession(s, kind, m).0.adapter.log)
  {
    hide SendRequest, EnsureInitialized, Gate, Safe, Earned;
    InitializeEffect(s);
    var ready := EnsureInitialized(s).0;
    GateKept(s, ready);
    var (after, reply) := SendRequest(ready, 0x10, [SessionCode(kind)], Some(m));
    SendEffect(ready, 0x10, [SessionCode(kind)], Some(m));
    if EnsureInitialized(s).1.Ok? {
      if reply.Err? {
        GateKept(ready, after);
      } else {
        SessionChanged(ready.adapter.log, after.(diagnostic := DiagnosticOf(kind)));
      }
    }
  }

  lemma SessionChanged(log: seq<Logged>, s: State)
    requires Safe(log) && (s.diagnostic.Extended? ==> s.diagnostic.unlocked == [])
    requires |s.adapter.log| == |log| + 1 && s.adapter.log[..|log|] == log && ChangesSession(s.adapter.log[|log|])
    ensures Gate(s) && Safe(s.adapter.log)
  {
    forall m ensures Unlocked(s, m) <==> Earned(s.adapter.log, m) {
      EarnedAfter(log, s.adapter.log, m);
    }
    SafeAfter(log, s.adapter.log);
  }

  lemma SecurityAccessKeepsGate(s: State, m: ModuleId, key: seq<byte> -> seq<byte>)
    requires Gate(s) && Safe(s.adapter.log)
    ensures Gate(SecurityAccess(s, m, key).0) && Safe(SecurityAccess(s, m, key).0.adapter.log)
  {
    hide SendRequest, EnsureInitialized, Gate, Safe, Earned, AllZero;
    InitializeEffect(s);
    var (ready, r) := EnsureInitialized(s);
    GateKept(s, ready);
    if r.Ok? {
      var (asked, seed) := SendRequest(ready, 0x27, [0x01], Some(m));
      SendEffect(ready, 0x27, [0x01], Some(m));
      GateKept(ready, asked);
      if seed.Ok? && seed.value != [] && !AllZero(seed.value) {
        var data := [0x02] + key(seed.value);
        var (answered, reply) := SendRequest(asked, 0x27, data, Some(m));
        SendEffect(asked, 0x27, data, Some(m));
        if reply.Err? {
          GateKept(asked, answered);
        } else {
          ModuleUnlocked(asked, answered, m);
        }
      }
    }
  }

  lemma ModuleUnlocked(asked: State, answered: State, m: ModuleId)
    requires Gate(asked) && Safe(asked.adapter.log) && answered.diagnostic == asked.diagnostic
    requires |answered.adapter.log| == |asked.adapter.log| + 1
    requires answered.adapter.log[..|asked.adapter.log|] == asked.adapter.log
    requires KeyAccepted(answered.adapter.log, |asked.adapter.log|, m)
    ensures
      var s := answered.(diagnostic := WithUnlocked(answered.diagnostic, m));
      Gate(s) && Safe(s.adapter.log)
  {
    var s := answered.(diagnostic := WithUnlocked(answered.diagnostic, m));
    forall other ensures Unlocked(s, other) <==> Earned(s.adapter.log, other) {
      EarnedAfter(asked.adapter.log, s.adapter.log, other);
      assert Unlocked(s, other) <==> Unlocked(asked, other) || other == m;
    }
    SafeAfter(asked.adapter.log, s.adapter.log);
  }

  lemma ControlKeepsGate(s: State, did: u16, m: ModuleId, command: ActuatorCommand)
    requires Gate(s) && Safe(s.adapter.log)
    ensures Gate(ActuatorControl(s, did, m, command).0) && Safe(ActuatorControl(s, did, m, command).0.adapter.log)
  {
    hide SendRequest, EnsureInitialized, Gate, Safe, Earned, ActuatorData;
    InitializeEffect(s);
    var (ready, r) := EnsureInitialized(s);
    GateKept(s, ready);
    if r.Ok? && Unlocked(ready, m) {
      SendEffect(ready, 0x2F, ActuatorData(did, command), Some(m));
      GateKept(ready, SendRequest(ready, 0x2F, ActuatorData(did, command), Some(m)).0);
    }
  }

  lemma ReleaseKeepsGate(s: State, did: u16, m: ModuleId)
    requires Gate(s) && Safe(s.adapter.log)
    ensures Gate(ActuatorRelease(s, did, m).0) && Safe(ActuatorRelease(s, did, m).0.adapter.log)
  {
    hide SendRequest, EnsureInitialized, Gate, Safe, Earned;
    InitializeEffect(s);
    var (ready, r) := EnsureInitialized(s);
    GateKept(s, ready);
    if r.Ok? {
      SendEffect(ready, 0x2F, [did / 0x100, did % 0x100, 0x00], Some(m));
      GateKept(ready, SendRequest(ready, 0x2F, [did / 0x100, did % 0x100, 0x00], Some(m)).0);
    }
  }

  lemma RawKeepsGate(s: State, op: Op)
    requires Gate(s) && Safe(s.adapter.log) && Plain(op) && (op.Raw? || op.RawPhysical?)
    ensures Gate(Perform(s, op)) && Safe(Perform(s, op).adapter.log)
  {
    hide SendRequest, EnsureInitialized, Gate, Safe, Earned;
    InitializeEffect(s);
    var (ready, r) := EnsureInitialized(s);
    GateKept(s, ready);
    if op.Raw? && r.Ok? {
      SendEffect(ready, op.service, op.data, op.moduleId);
    }
    if r.Ok? {
      GateKept(ready, Perform(s, op));
    }
  }

  lemma {:induction false} GateThroughRun(s: State, ops: seq<Op>)
    requires Gate(s) && Safe(s.adapter.log)
    requires forall i :: 0 <= i < |ops| ==> Plain(ops[i])
    ensures Gate(RunAll(s, ops)) && Safe(RunAll(s, ops).adapter.log)
  {
    hide Gate, Safe, Perform, Plain;
    if ops != [] {
      var (before, op) := (ops[..|ops| - 1], ops[|ops| - 1]);
      assert Plain(op);
      GateThroughRun(s, before);
      GateStep(RunAll(s, before), op);
    }
  }

  /**
    Actuator safety. Whatever the adapter answers, over every run of a new session a driving actuator command goes
    out to a module only if a seed/key exchange on it succeeded earlier with no diagnostic session entered or ended
    since; and a module is unlocked exactly as long as that is so.
   */
  lemma ActuatorsAreGated(s: State, ops: seq<Op>)
    requires IsNew(s)
    requires forall i :: 0 <= i < |ops| ==> Plain(ops[i])
    ensures
      var end := RunAll(s, ops);
      && (forall m :: Unlocked(end, m) <==> Earned(end.adapter.log, m))
      && forall k :: 0 <= k < |end.adapter.log| && Drives(end.adapter.log[k]) ==>
                     && end.adapter.log[k].moduleId.Some?
                     && Earned(end.adapter.log[..k], end.adapter.log[k].moduleId.value)
  {
    hide RunAll, Plain;
    GateThroughRun(s, ops);
  }

  lemma GateStep(s: State, op: Op)
    requires Gate(s) && Safe(s.adapter.log) && Plain(op)
    ensures Gate(Perform(s, op)) && Safe(Perform(s, op).adapter.log)
  {
    hide Gate, Safe, EnterDiagnosticSession, SecurityAccess, ActuatorControl, ActuatorRelease, RawRequest,
      RawPhysicalRequest;
    match op
    case Init | Voltage | Adopt(_) =>
      QuietEffect(s, op);
      GateKept(s, Perform(s, op));
    case Enter(kind, m) => SessionChangeKeepsGate(s, kind, m);
    case End(m) => SessionChangeKeepsGate(s, DefaultSession, m);
    case Unlock(m, key) => SecurityAccessKeepsGate(s, m, key);
    case Control(did, m, command) => ControlKeepsGate(s, did, m, command);
    case Release(did, m) => ReleaseKeepsGate(s, did, m);
    case _ => RawKeepsGate(s, op);
  }

  /**
    The gate is exact for every actuator command, the return of control included: it is refused, with nothing
    sent, unless the exchange was earned; and if it was, the command goes out as soon as the module can be routed.
   */
  lemma ControlExactlyWhenEarned(s: State, did: u16, m: ModuleId, command: ActuatorCommand)
    requires Gate(s) && !s.requestInFlight
    ensures
      var (ready, init) := EnsureInitialized(s);
      var (s', r) := ActuatorControl(s, did, m, command);
      if init.Err? then r == init && s' == ready
      else if !Earned(s.adapter.log, m) then r == Err(SecurityRequired) && s' == ready
      else
        var address := ResolveModule(ready, m);
        if address.Err? then r == Err(address.error) && s' == ready
        else
          && |s'.adapter.log| == |s.adapter.log| + 1
          && var e := s'.adapter.log[|s.adapter.log|];
             && e.service == 0x2F && e.moduleId == Some(m) && e.target == Addressed(address.value)
             && e.data == ActuatorData(did, command)
             && (r.Ok? <==> e.result.Ok?)
  {
    hide Earned, EnsureInitialized, ActuatorControl, ResolveModule, ActuatorData;
    assert Unlocked(s, m) <==> Earned(s.adapter.log, m);
    ControlExactly(s, did, m, command);
  }

  /**
    The exact step of the gate under any request that leaves the diagnostic state alone: it holds on exactly unless
    the request changed the session of an unlocked module, or completed a key exchange for a locked one.
   */
  lemma GateKeptExactly(s: State, s': State)
    requires Gate(s) && s'.diagnostic == s.diagnostic
    requires |s'.adapter.log| == |s.adapter.log| + 1 && s'.adapter.log[..|s.adapter.log|] == s.adapter.log
    ensures
      var (next, k) := (s'.adapter.log, |s.adapter.log|);
      Gate(s') <==>
      if ChangesSession(next[k]) then forall m :: !Unlocked(s, m)
      else forall m :: KeyAccepted(next, k, m) ==> Unlocked(s, m)
  {
    hide Earned;
    var (log, next) := (s.adapter.log, s'.adapter.log);
    forall m
      ensures Unlocked(s', m) == Unlocked(s, m)
      ensures Earned(next, m) <==> !ChangesSession(next[|log|]) && (Unlocked(s, m) || KeyAccepted(next, |log|, m))
    {
      EarnedAfter(log, next, m);
      assert Unlocked(s, m) <==> Earned(log, m);
    }
  }

  /** So for raw requests, whatever their service. */
  lemma RawKeepsGateExactly(s: State, op: Op)
    requires Gate(s) && (op.Raw? || op.RawPhysical?)
    ensures
      var (log, next) := (s.adapter.log, Perform(s, op).adapter.log);
      if next == log then Gate(Perform(s, op))
      else
        && |next| == |log| + 1
        && (Gate(Perform(s, op)) <==>
            if ChangesSession(next[|log|]) then forall m :: !Unlocked(s, m)
            else forall m :: KeyAccepted(next, |log|, m) ==> Unlocked(s, m))
  {
    hide SendRequest, EnsureInitialized, Earned, KeyAccepted, Gate;
    InitializeEffect(s);
    var (ready, r) := EnsureInitialized(s);
    if op.Raw? && r.Ok? {
      SendEffect(ready, op.service, op.data, op.moduleId);
    }
    var s' := Perform(s, op);
    if s'.adapter.log == s.adapter.log {
      SameGate(s, s');
    } else {
      GateKeptExactly(s, s');
    }
  }

  lemma SameGate(s: State, s': State)
    requires Gate(s) && s'.diagnostic == s.diagnostic && s'.adapter.log == s.adapter.log
    ensures Gate(s')
  {
    hide Earned;
    forall m ensures Unlocked(s', m) <==> Earned(s'.adapter.log, m) {
      assert Unlocked(s, m) <==> Earned(s.adapter.log, m);
    }
  }

  /** Raw requests bypass the gate: a session changed by one leaves the module unlocked in the session's eyes. */
  lemma RawSessionChangeLeavesUnlocked(s: State, m: ModuleId, kind: SessionKind)
    requires Unlocked(s, m) && s.initialized && !s.requestInFlight && NextTurn(s.adapter).result.Ok?
    ensures
      var s' := RawRequest(s, 0x10, [SessionCode(kind)], None).0;
      Unlocked(s', m) && !Earned(s'.adapter.log, m)
  {
    var s' := RawRequest(s, 0x10, [SessionCode(kind)], None).0;
    SendEffect(s, 0x10, [SessionCode(kind)], None);
    EarnedAfter(s.adapter.log, s'.adapter.log, m);
  }
}
