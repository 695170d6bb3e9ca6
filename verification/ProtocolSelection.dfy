/** How the ELM327 adapter selects a protocol when it is initialized (`adapter/elm327.rs`). */
module ProtocolSelection {
  import opened Basics
  import opened Elm327

  // ---- Which protocol is selected ----

  /** The adapter after the first `k` candidates. */
  function Probed(s: Elm, order: seq<Probe>, k: nat): Elm
    requires k <= |order|
  {
    if k == 0 then s
    else Send(Send(Probed(s, order, k - 1), Config(order[k - 1].command)).0, SUPPORTED_PIDS).0
  }

  /** What candidate `k` gets in answer to the query for supported PIDs. */
  function ProbeReply(s: Elm, order: seq<Probe>, k: nat): Result<string>
    requires k < |order|
  {
    var (selected, r) := Send(Probed(s, order, k), Config(order[k].command));
    if r.Err? then r else Send(selected, SUPPORTED_PIDS).1
  }

  /** Candidate `k` is asked in vain. */
  predicate Declines(s: Elm, order: seq<Probe>, k: nat)
    requires k < |order|
  {
    var reply := ProbeReply(s, order, k);
    reply.Ok? && !VehicleAnswers(reply.value)
  }

  lemma {:induction false} ProbedNext(s: Elm, order: seq<Probe>, k: nat)
    requires order != [] && k < |order|
    ensures Probed(s, order, k + 1) == Probed(Probed(s, order, 1), order[1..], k)
  {
    hide Send;
    if k > 0 {
      ProbedNext(s, order, k - 1);
      assert order[1..][k - 1] == order[k];
    }
  }

  lemma DeclinedStep(s: Elm, order: seq<Probe>, k: nat)
    requires k < |order| && Declines(s, order, k)
    ensures ProbeProtocols(Probed(s, order, k), order[k..]) == ProbeProtocols(Probed(s, order, k + 1), order[k + 1..])
  {
    hide Send, VehicleAnswers;
    assert order[k..][0] == order[k] && order[k..][1..] == order[k + 1..];
  }

  lemma NothingProbed(s: Elm, order: seq<Probe>)
    ensures Probed(s, order, 0) == s
  {
  }

  /** The loop goes on with the candidates after those that declined. */
  lemma {:induction false} ProbesOn(s: Elm, order: seq<Probe>, k: nat)
    requires k <= |order| && forall j :: 0 <= j < k ==> Declines(s, order, j)
    ensures ProbeProtocols(s, order) == ProbeProtocols(Probed(s, order, k), order[k..])
  {
    hide ProbeProtocols, Probed, Declines;
    if k > 0 {
      ProbesOn(s, order, k - 1);
      DeclinedStep(s, order, k - 1);
    } else {
      NothingProbed(s, order);
      assert order[0..] == order;
    }
  }

  /**
    The probe loop, exactly: it selects the first candidate under which the vehicle answers, fails with the first
    link failure before that, and selects nothing exactly if every candidate declines.
   */
  lemma ProbeSelectsFirst(s: Elm, order: seq<Probe>, k: nat)
    requires k <= |order| && forall j :: 0 <= j < k ==> Declines(s, order, j)
    ensures k == |order| ==> ProbeProtocols(s, order) == (Probed(s, order, k), Ok(Auto))
    ensures k < |order| && !Declines(s, order, k) ==>
      var reply := ProbeReply(s, order, k);
      ProbeProtocols(s, order).1 == if reply.Err? then Err(reply.error) else Ok(order[k].protocol)
    ensures k < |order| && !Declines(s, order, k) && ProbeReply(s, order, k).Ok? ==>
      ProbeProtocols(s, order).0 == Probed(s, order, k + 1)
  {
    hide Send, VehicleAnswers;
    ProbesOn(s, order, k);
    if k < |order| {
      assert order[k..][0] == order[k];
    }
  }

  /** The first candidate that does not decline, or the number of candidates. */
  function FirstAnswer(s: Elm, order: seq<Probe>, from: nat): (k: nat)
    requires from <= |order|
    ensures from <= k <= |order|
    decreases |order| - from
  {
    if from == |order| || !Declines(s, order, from) then from else FirstAnswer(s, order, from + 1)
  }

  lemma {:induction false} FirstAnswerIsFirst(s: Elm, order: seq<Probe>, from: nat)
    requires from <= |order|
    ensures
      var k := FirstAnswer(s, order, from);
      (k < |order| ==> !Declines(s, order, k)) && forall j :: from <= j < k ==> Declines(s, order, j)
    decreases |order| - from
  {
    hide Declines;
    if from < |order| && Declines(s, order, from) {
      FirstAnswerIsFirst(s, order, from + 1);
    }
  }

  /** So the result is settled in every case. */
  lemma ProbeExactly(s: Elm, order: seq<Probe>)
    ensures
      var (k, result) := (FirstAnswer(s, order, 0), ProbeProtocols(s, order).1);
      if k == |order| then result == Ok(Auto)
      else if ProbeReply(s, order, k).Err? then result == Err(ProbeReply(s, order, k).error)
      else result == Ok(order[k].protocol) && VehicleAnswers(ProbeReply(s, order, k).value)
  {
    hide Send, VehicleAnswers, ProbeProtocols, ProbeReply;
    FirstAnswerIsFirst(s, order, 0);
    ProbeSelectsFirst(s, order, FirstAnswer(s, order, 0));
  }

  // ---- Initialization on a link that answers ----

  /** The next `n` commands are answered, and not by a fault. */
  ghost predicate Answered(answers: seq<Answer>, n: nat) {
    n <= |answers| && forall i :: 0 <= i < n ==> answers[i].Reply? && !IsFault(Sanitize(answers[i].text))
  }

  lemma SendAnswered(s: Elm, command: Command)
    requires Answered(s.device.answers, 1)
    ensures
      var (s', r) := Send(s, command);
      && r == Ok(Sanitize(s.device.answers[0].text)) && s'.device.answers == s.device.answers[1..]
      && s'.device.linkFailed == s.device.linkFailed
  {
    hide IsFault, Sanitize;
  }

  lemma {:induction false} SettingsAnswered(s: Elm, settings: seq<string>)
    requires Answered(s.device.answers, |settings|)
    ensures
      var (s', r) := SendAll(s, settings);
      r.Ok? && s'.device.answers == s.device.answers[|settings|..] && s'.device.linkFailed == s.device.linkFailed
    decreases |settings|
  {
    hide IsFault, Sanitize, Send, Later;
    if settings != [] {
      SendAnswered(s, Config(settings[0]));
      SettingsAnswered(Send(s, Config(settings[0])).0, settings[1..]);
    }
  }

  lemma {:induction false} ConfigureAnswered(d: Device, settings: seq<string>)
    requires |settings| <= |d.answers| && forall i :: 0 <= i < |settings| ==> d.answers[i].Reply?
    ensures
      var (d', r) := Configure(d, settings);
      r.Ok? && d'.answers == d.answers[|settings|..] && d'.linkFailed == d.linkFailed
    decreases |settings|
  {
    hide Sanitize, HeaderAfter, Later;
    if settings != [] {
      ConfigureAnswered(Exchange(d, Config(settings[0])).0, settings[1..]);
    }
  }

  lemma AnsweredInParts(answers: seq<Answer>, n: nat, m: nat)
    requires Answered(answers, n + m)
    ensures Answered(answers, n) && Answered(answers[n..], m) && answers[n..][m..] == answers[n + m..]
  {
    hide IsFault, Sanitize;
  }

  /** Each candidate takes two answers. */
  lemma {:induction false} ProbedAnswers(s: Elm, order: seq<Probe>, k: nat)
    requires k <= |order| && Answered(s.device.answers, 2 * k)
    ensures
      var t := Probed(s, order, k);
      t.device.answers == s.device.answers[2 * k..] && t.device.linkFailed == s.device.linkFailed
  {
    hide Probed, IsFault, Sanitize;
    if k == 0 {
      ProbedStep(s, order, 0);
    } else {
      ProbedAnswers(s, order, k - 1);
      AnsweredInParts(s.device.answers, 2 * (k - 1), 2);
      hide Answered;
      ProbedStep(s, order, k);
    }
  }

  lemma ProbedStep(s: Elm, order: seq<Probe>, k: nat)
    requires k <= |order|
    ensures k == 0 ==> Probed(s, order, k) == s
    ensures k > 0 ==>
      var (before, after) := (Probed(s, order, k - 1).device, Probed(s, order, k).device);
      Answered(before.answers, 2) ==> after.answers == before.answers[2..] && after.linkFailed == before.linkFailed
  {
    hide Answered, Send;
    if k > 0 {
      var before := Probed(s, order, k - 1);
      if Answered(before.device.answers, 2) {
        TwoAnswered(before, Config(order[k - 1].command));
      }
    }
  }

  lemma TwoAnswered(s: Elm, command: Command)
    requires Answered(s.device.answers, 2)
    ensures
      var (selected, r) := Send(s, command);
      var (asked, reply) := Send(selected, SUPPORTED_PIDS);
      && r.Ok? && reply == Ok(Sanitize(s.device.answers[1].text))
      && asked.device.answers == s.device.answers[2..] && asked.device.linkFailed == s.device.linkFailed
  {
    hide Send, IsFault, Sanitize;
    SendAnswered(s, command);
    SendAnswered(Send(s, command).0, SUPPORTED_PIDS);
  }

  /** The reply to candidate `k` is the second of its two answers. */
  lemma ProbeReplyAnswered(s: Elm, order: seq<Probe>, k: nat)
    requires k < |order| && Answered(s.device.answers, 2 * k + 2)
    ensures ProbeReply(s, order, k) == Ok(Sanitize(s.device.answers[2 * k + 1].text))
  {
    hide Send, IsFault, Sanitize, Probed;
    ProbedAnswers(s, order, k);
    TwoAnswered(Probed(s, order, k), Config(order[k].command));
  }

  /**
    The probe loop on a link that answers: two replies for each candidate, up to the first that the vehicle answers.
   */
  lemma ProbesAnswered(s: Elm, order: seq<Probe>, k: nat)
    requires k <= |order| && Answered(s.device.answers, 2 * Min(k + 1, |order|))
    requires forall j :: 0 <= j < k ==> !VehicleAnswers(Sanitize(s.device.answers[2 * j + 1].text))
    requires k < |order| ==> VehicleAnswers(Sanitize(s.device.answers[2 * k + 1].text))
    ensures
      var (t, r) := ProbeProtocols(s, order);
      && r == Ok(if k == |order| then Auto else order[k].protocol)
      && t.device.answers == s.device.answers[2 * Min(k + 1, |order|)..] && t.device.linkFailed == s.device.linkFailed
  {
    hide IsFault, Sanitize, Send, VehicleAnswers, ProbeProtocols, Probed, ProbeReply;
    forall j | 0 <= j < |order| && j <= k ensures Declines(s, order, j) <==> j < k {
      ProbeReplyAnswered(s, order, j);
    }
    if k < |order| {
      ProbeReplyAnswered(s, order, k);
    }
    ProbeSelectsFirst(s, order, k);
    ProbedAnswers(s, order, Min(k + 1, |order|));
  }

  /** Eight answers get the adapter reset, and the ninth is the one to the first query. */
  lemma ResetAnswered(s: Elm)
    requires Answered(s.device.answers, 9)
    ensures
      var (reset, r) := Reset(s);
      var (asked, reply) := Send(reset, SUPPORTED_PIDS);
      && r.Ok? && reply == Ok(Sanitize(s.device.answers[8].text))
      && asked.device.answers == s.device.answers[9..] && asked.device.linkFailed == s.device.linkFailed
  {
    hide IsFault, Sanitize, Send, SendAll, Later;
    var answers := s.device.answers;
    SendAnswered(s, Config("ATZ"));
    var probed := Send(s, Config("ATZ")).0;
    SendAnswered(probed, Config("STI"));
    var described := Send(probed, Config("STI")).0;
    assert described.device.answers == answers[2..];
    SettingsAnswered(described, RESET_SETTINGS);
    var reset := Reset(s).0;
    assert reset.device.answers == answers[8..];
    SendAnswered(reset, SUPPORTED_PIDS);
    assert answers[8..][1..] == answers[9..];
  }

  /** The settings of protocol `p` follow once it has been found after `taken` answers. */
  ghost predicate PolicyAnswered(answers: seq<Answer>, taken: nat, p: Protocol) {
    var n := |RuntimePolicy(p)|;
    taken + n <= |answers| && forall i :: taken <= i < taken + n ==> answers[i].Reply?
  }

  /**
    Initialization on a link that answers without faults, when the vehicle answers the first query: the tenth reply
    names the protocol, and the settings of that protocol follow.
   */
  lemma InitializesWhenAnswered(s: Elm)
    requires Answered(s.device.answers, 10) && VehicleAnswers(Sanitize(s.device.answers[8].text))
    requires PolicyAnswered(s.device.answers, 10, ParseProtocol(Sanitize(s.device.answers[9].text)))
    ensures
      var protocol := ParseProtocol(Sanitize(s.device.answers[9].text));
      var (s', r) := Initialized(s);
      if protocol.Auto? then r == Err(Error.Adapter)
      else
        && r == Ok(protocol) && s'.protocol == protocol && s'.device.linkFailed == s.device.linkFailed
        && s'.device.answers == s.device.answers[10 + |RuntimePolicy(protocol)|..]
  {
    hide IsFault, Sanitize, Send, Reset, Configure, VehicleAnswers, ParseProtocol, RuntimePolicy, Later, ProbeProtocols;
    var answers := s.device.answers;
    ResetAnswered(s);
    var reset := Reset(s).0;
    SendAnswered(Send(reset, SUPPORTED_PIDS).0, Config("ATDPN"));
    var (found, p) := SelectProtocol(reset);
    assert answers[9..][1..] == answers[10..];
    ConfigureAnswered(found.device, RuntimePolicy(p.value));
  }

  /**
    The same when it does not: two replies for each fallback candidate, and the first candidate whose second reply is
    the vehicle's is selected; an error exactly if none is.
   */
  lemma InitializesByProbing(s: Elm, k: nat)
    requires k <= |FALLBACK_PROBE_ORDER| && Answered(s.device.answers, 9 + 2 * Min(k + 1, |FALLBACK_PROBE_ORDER|))
    requires !VehicleAnswers(Sanitize(s.device.answers[8].text))
    requires forall j :: 0 <= j < k ==> !VehicleAnswers(Sanitize(s.device.answers[10 + 2 * j].text))
    requires k < |FALLBACK_PROBE_ORDER| ==>
      && VehicleAnswers(Sanitize(s.device.answers[10 + 2 * k].text))
      && PolicyAnswered(s.device.answers, 11 + 2 * k, FALLBACK_PROBE_ORDER[k].protocol)
    ensures
      var (s', r) := Initialized(s);
      if k == |FALLBACK_PROBE_ORDER| then r == Err(Error.Adapter)
      else
        var protocol := FALLBACK_PROBE_ORDER[k].protocol;
        && r == Ok(protocol) && s'.protocol == protocol && s'.device.linkFailed == s.device.linkFailed
        && s'.device.answers == s.device.answers[11 + 2 * k + |RuntimePolicy(protocol)|..]
  {
    hide IsFault, Sanitize, Send, Reset, Configure, VehicleAnswers, RuntimePolicy, Later, ProbeProtocols;
    var (answers, order) := (s.device.answers, FALLBACK_PROBE_ORDER);
    ResetAnswered(s);
    var asked := Send(Reset(s).0, SUPPORTED_PIDS).0;
    assert forall i :: 0 <= i < |asked.device.answers| ==> asked.device.answers[i] == answers[9 + i];
    ProbesAnswered(asked, order, k);
    if k < |order| {
      var found := ProbeProtocols(asked, order).0;
      assert found.device.answers == answers[11 + 2 * k..];
      FallbacksAreProtocols(k);
      ConfigureAnswered(found.device, RuntimePolicy(order[k].protocol));
    }
  }

  lemma FallbacksAreProtocols(k: nat)
    requires k < |FALLBACK_PROBE_ORDER|
    ensures !FALLBACK_PROBE_ORDER[k].protocol.Auto?
  {
  }

  lemma {:induction false} CleanText(s: string, part: string)
    requires '\0' !in s && '>' !in s && part != "" && part[0] !in s
    ensures Sanitize(s) == s && WithoutPrompts(s) == s && !Contains(s, part)
    decreases |s|
  {
    if s != "" {
      assert s == [s[0]] + s[1..];
      CleanText(s[1..], part);
    }
  }

  /** One text that serves as any of these replies. */
  lemma SuchReplyExists()
    ensures var t := Sanitize("41006"); !IsFault(t) && VehicleAnswers(t) && ParseProtocol(t) == Can11Bit500
  {
    hide Sanitize, WithoutPrompts;
    var t := "41006";
    CleanText(t, "ERR94");
    CleanText(t, "LV RESET");
    assert "4100" <= t;
    assert t[0] == '4' && t[|t| - 1] == '6' && Trim(t) == t;
  }
}
