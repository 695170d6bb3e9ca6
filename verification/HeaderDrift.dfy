/**
  Which header each request goes out under when the link fails (`adapter/elm327.rs`): exactly what puts the
  header cache out of step with the device, and what follows from that.
 */
module HeaderDrift {
  import opened Basics
  import opened Elm327
  import opened HeaderCache
  import opened ProtocolSelection

  // ---- What the bus sees of one request, on any link ----

  lemma {:induction false} ConfigureShowsNothing(d: Device, settings: seq<string>, protocol: Protocol)
    ensures Telegrams(Configure(d, settings).0.sent, protocol) == Telegrams(d.sent, protocol)
    decreases |settings|
  {
    hide Telegrams;
    if settings != [] {
      TelegramAppended(d.sent, Sent(Config(settings[0]), d.header), protocol);
      ConfigureShowsNothing(Exchange(d, Config(settings[0])).0, settings[1..], protocol);
    }
  }

  /** The next command reaches the device, whatever becomes of its reply. */
  predicate Arrives(d: Device) {
    d.answers != [] && !d.answers[0].WriteFailed?
  }

  /** A vehicle request that reaches the device shows on the bus once, under the header in force. */
  lemma SendShows(s: Elm, command: Command)
    ensures Telegrams(Send(s, command).0.device.sent, s.protocol) == Telegrams(s.device.sent, s.protocol) +
            if command.Obd? && Arrives(s.device)
            then [Telegram(command.service, command.data, InForce(s.device.header, s.protocol))] else []
  {
    hide Sanitize, IsFault, Telegrams, Configure, Later;
    var after := Exchange(s.device, command).0;
    TelegramAppended(s.device.sent, Sent(command, s.device.header), s.protocol);
    TelegramAppended(after.sent, Sent(Config("ATFE"), after.header), s.protocol);
    ConfigureShowsNothing(Exchange(after, Config("ATFE")).0, RUNTIME_DEFAULTS, s.protocol);
    assert Telegrams(s.device.sent, s.protocol) + [] == Telegrams(s.device.sent, s.protocol);
  }

  /** The request itself reaches the device. */
  predicate Reaches(s: Elm, q: Request) {
    var (aimed, r) := ApplyTarget(s, q.target);
    r.Ok? && Arrives(aimed.device)
  }

  /** The header a request goes out under: the one in force if none was sent, its own target's otherwise. */
  lemma ShownHeader(s: Elm, q: Request)
    requires !s.protocol.Auto? && Sane(s.device.answers)
    ensures
      var header := if Elides(s, q) then InForce(s.device.header, s.protocol) else TargetHeader(s.protocol, q.target);
      Telegrams(Routed(s, q).0.device.sent, s.protocol) == Telegrams(s.device.sent, s.protocol) +
      if Reaches(s, q) then [Telegram(q.service, q.data, header)] else []
  {
    hide Sanitize, IsFault, IsOk, Recover, Telegrams, Later, AddressHeader;
    var header := TargetHeader(s.protocol, q.target);
    var aimed := ApplyTarget(s, q.target).0;
    assert Telegrams(s.device.sent, s.protocol) + [] == Telegrams(s.device.sent, s.protocol);
    if header.Some? && !Elides(s, q) {
      SendShows(s, SetHeader(header.value));
    }
    SendShows(aimed, Obd(q.service, q.data));
  }

  /** The request, if it reaches the device, goes out under its own target's header. */
  predicate UnderOwnHeader(s: Elm, q: Request) {
    Telegrams(Routed(s, q).0.device.sent, s.protocol) == Telegrams(s.device.sent, s.protocol) +
    if Reaches(s, q) then [Telegram(q.service, q.data, TargetHeader(s.protocol, q.target))] else []
  }

  // ---- What puts the cache out of step ----

  /**
    One command changes the header in force without the adapter knowing: a fault or an OK to `AT SH` whose
    reply is lost, or a fault whose `ATFE` is not answered, provided the header then in force is another one.
   */
  predicate Misses(inForce: Option<string>, broadcast: Option<string>, answers: seq<Answer>, command: Command) {
    answers != [] &&
    match answers[0]
    case WriteFailed => false
    case ReplyLost(text) =>
      if IsFault(Sanitize(text)) then inForce != broadcast
      else command.SetHeader? && IsOk(Sanitize(text)) && inForce != Some(command.header)
    case Reply(text) => IsFault(Sanitize(text)) && inForce != broadcast && !(|answers| > 1 && answers[1].Reply?)
  }

  /** A request misses with its `AT SH`, or with the vehicle request after an `AT SH` answered OK. */
  predicate RequestMisses(s: Elm, q: Request) {
    var (inForce, broadcast) := (InForce(s.device.header, s.protocol), BroadcastHeader(s.protocol));
    var (header, answers, obd) := (TargetHeader(s.protocol, q.target), s.device.answers, Obd(q.service, q.data));
    header.Some? &&
    if Elides(s, q) then Misses(inForce, broadcast, answers, obd)
    else
      || Misses(inForce, broadcast, answers, SetHeader(header.value))
      || (&& answers != [] && answers[0].Reply? && IsOk(Sanitize(answers[0].text))
          && Misses(header, broadcast, answers[1..], obd))
  }

  lemma RecoveryResets(s: Elm)
    requires s.device.header.None?
    ensures
      var s' := Recover(s).0;
      && s'.device.header.None?
      && s'.cache == if s.device.answers != [] && s.device.answers[0].Reply? then None else s.cache
  {
    hide Sanitize, IsFault, IsOk, Later;
    ConfigureTouchesNothing(Exchange(s.device, Config("ATFE")).0, RUNTIME_DEFAULTS);
  }

  /** The state that one command leaves behind: what is in force, and what the cache makes of it. */
  lemma SendDrifts(s: Elm, command: Command)
    ensures
      var (s', r) := Send(s, command);
      var answers := s.device.answers;
      if answers == [] || answers[0].WriteFailed? then
        r.Err? && s'.cache == s.cache && s'.device.header == s.device.header
      else
        var text := Sanitize(answers[0].text);
        && s'.device.header == HeaderAfter(s.device.header, command, text)
        && (answers[0].ReplyLost? ==> r.Err? && s'.cache == s.cache)
        && (answers[0].Reply? ==>
              if IsFault(text) then
                s'.cache == (if |answers| > 1 && answers[1].Reply? then None else s.cache)
                && (r.Ok? ==> r.value == text)
              else s'.cache == s.cache && r == Ok(text) && s'.device.answers == answers[1..])
  {
    hide Sanitize, IsFault, IsOk, Recover, Later;
    var after := Exchange(s.device, command).0;
    if after.header.None? {
      RecoveryResets(s.(device := after));
    }
  }

  /** On any link, a synchronised cache stays so through a command that sets no header exactly unless it misses. */
  lemma ObdStaysSyncedExactly(s: Elm, command: Command)
    requires Synced(s) && command.Obd?
    ensures Synced(Send(s, command).0) <==>
            !Misses(InForce(s.device.header, s.protocol), BroadcastHeader(s.protocol), s.device.answers, command)
  {
    hide Send, Sanitize, IsFault, IsOk, Later;
    SendDrifts(s, command);
  }

  lemma ForcedStaysSyncedExactly(s: Elm, header: string)
    requires Synced(s) && Sane(s.device.answers)
    ensures
      var (s', r) := ForceHeader(s, header);
      var answers := s.device.answers;
      && (Synced(s') <==>
          !Misses(InForce(s.device.header, s.protocol), BroadcastHeader(s.protocol), answers, SetHeader(header)))
      && (r.Ok? <==> answers != [] && answers[0].Reply? && IsOk(Sanitize(answers[0].text)))
      && (r.Ok? ==>
            && Synced(s') && InForce(s'.device.header, s.protocol) == Some(header)
            && s'.device.answers == answers[1..])
  {
    hide Send, Sanitize, IsFault, IsOk, Later;
    SendDrifts(s, SetHeader(header));
  }

  /**
    The exact step. On any link, a request leaves a synchronised cache synchronised exactly unless it misses:
    the three ways in which the device can change its header behind the adapter.
   */
  lemma StaysSyncedExactly(s: Elm, q: Request)
    requires Synced(s) && Sane(s.device.answers)
    ensures Synced(Routed(s, q).0) <==> !RequestMisses(s, q)
  {
    hide Send, ForceHeader, Misses, Sanitize, IsOk, Later, AddressHeader, Sane;
    var header := TargetHeader(s.protocol, q.target);
    var obd := Obd(q.service, q.data);
    if header.None? {
      assert Routed(s, q).0 == s;
    } else if Elides(s, q) {
      assert ApplyTarget(s, q.target) == (s, Ok(()));
      ObdStaysSyncedExactly(s, obd);
    } else {
      var (aimed, r) := ForceHeader(s, header.value);
      assert ApplyTarget(s, q.target) == (aimed, r);
      ForcedStaysSyncedExactly(s, header.value);
      if r.Ok? {
        ObdStaysSyncedExactly(aimed, obd);
      }
    }
  }

  // ---- What being in step is worth ----

  /** The cache holds nothing, or the header of some target. */
  ghost predicate CacheNamesTarget(s: Elm) {
    s.cache.Some? ==> exists target :: TargetHeader(s.protocol, target) == s.cache
  }

  /** The cache is in step exactly when every header that would not be sent is already in force. */
  lemma SyncedExactly(s: Elm)
    requires !s.protocol.Auto? && CacheNamesTarget(s)
    ensures Synced(s) <==>
            forall q :: Elides(s, q) ==> InForce(s.device.header, s.protocol) == TargetHeader(s.protocol, q.target)
  {
    hide AddressHeader;
    if s.cache.None? {
      assert Elides(s, Request(0, [], Broadcast));
    } else {
      var target :| TargetHeader(s.protocol, target) == s.cache;
      assert Elides(s, Request(0, [], target));
    }
  }

  function WithAnswers(s: Elm, answers: seq<Answer>): Elm {
    s.(device := s.device.(answers := answers))
  }

  /**
    The cache is in step exactly when every request that could come next goes out under its own target's
    header, whatever the link makes of it.
   */
  lemma SyncedIffNextIsRight(s: Elm)
    requires !s.protocol.Auto? && CacheNamesTarget(s)
    ensures Synced(s) <==> forall q, answers :: Sane(answers) ==> UnderOwnHeader(WithAnswers(s, answers), q)
  {
    hide UnderOwnHeader, Sane, Synced;
    SyncedExactly(s);
    if Synced(s) {
      forall q, answers | Sane(answers) ensures UnderOwnHeader(WithAnswers(s, answers), q) {
        SyncedNextIsRight(s, q, answers);
      }
    } else {
      var q :| Elides(s, q) && InForce(s.device.header, s.protocol) != TargetHeader(s.protocol, q.target);
      DriftShows(s, q);
    }
  }

  lemma SyncedNextIsRight(s: Elm, q: Request, answers: seq<Answer>)
    requires !s.protocol.Auto? && Sane(answers)
    requires Elides(s, q) ==> InForce(s.device.header, s.protocol) == TargetHeader(s.protocol, q.target)
    ensures UnderOwnHeader(WithAnswers(s, answers), q)
  {
    hide Telegrams, Routed, Reaches, TargetHeader, Sane;
    ShownHeader(WithAnswers(s, answers), q);
  }

  lemma DriftShows(s: Elm, q: Request)
    requires !s.protocol.Auto? && Elides(s, q)
    requires InForce(s.device.header, s.protocol) != TargetHeader(s.protocol, q.target)
    ensures exists answers :: Sane(answers) && !UnderOwnHeader(WithAnswers(s, answers), q)
  {
    hide Telegrams, Routed, UnderOwnHeader, Sane, TargetHeader, InForce, Reaches;
    var answers := [Reply("")];
    QuietReplyIsSane();
    var t := WithAnswers(s, answers);
    assert Elides(t, q) && Arrives(t.device);
    ShownHeader(t, q);
    ElidedReaches(t, q);
    WrongHeaderShows(t, q);
    assert Sane(answers) && !UnderOwnHeader(WithAnswers(s, answers), q);
  }

  lemma QuietReplyIsSane()
    ensures Sane([Reply("")])
  {
    CleanText("", "ERR94");
    CleanText("", "LV RESET");
  }

  lemma ElidedReaches(t: Elm, q: Request)
    requires Elides(t, q) && !t.protocol.Auto? && Arrives(t.device)
    ensures Reaches(t, q)
  {
    hide AddressHeader, Send;
  }

  lemma WrongHeaderShows(t: Elm, q: Request)
    requires Reaches(t, q)
    requires InForce(t.device.header, t.protocol) != TargetHeader(t.protocol, q.target)
    requires Telegrams(Routed(t, q).0.device.sent, t.protocol) ==
             Telegrams(t.device.sent, t.protocol) + [Telegram(q.service, q.data, InForce(t.device.header, t.protocol))]
    ensures !UnderOwnHeader(t, q)
  {
    hide Telegrams, Routed, Reaches, TargetHeader;
    var before := Telegrams(t.device.sent, t.protocol);
    var seen := Telegram(q.service, q.data, InForce(t.device.header, t.protocol));
    var own := Telegram(q.service, q.data, TargetHeader(t.protocol, q.target));
    assert (before + [seen])[|before|] == seen && (before + [own])[|before|] == own;
  }

  // ---- Whole runs ----

  /** No request of the run misses. */
  predicate NoneMisses(s: Elm, requests: seq<Request>)
    decreases |requests|
  {
    requests == [] || (!RequestMisses(s, requests[0]) && NoneMisses(Routed(s, requests[0]).0, requests[1..]))
  }

  /** The requests of a run that reach the device, each under its own target's header. */
  function Addressings(s: Elm, requests: seq<Request>): seq<Telegram>
    decreases |requests|
  {
    if requests == [] then [] else
      var q := requests[0];
      (if Reaches(s, q) then [Telegram(q.service, q.data, TargetHeader(s.protocol, q.target))] else [])
      + Addressings(Routed(s, q).0, requests[1..])
  }

  /**
    On any link, failing ones included: as long as no request misses, each one that reaches the device goes out
    under its own target's header, never an earlier one's.
   */
  lemma {:induction false} EachUnderItsHeader(s: Elm, requests: seq<Request>)
    requires Synced(s) && Sane(s.device.answers) && NoneMisses(s, requests)
    ensures Synced(Run(s, requests).0)
    ensures Telegrams(Run(s, requests).0.device.sent, s.protocol) ==
            Telegrams(s.device.sent, s.protocol) + Addressings(s, requests)
    decreases |requests|
  {
    hide Routed, Sane, Telegrams, Reaches, RequestMisses, TargetHeader, Synced;
    if requests == [] {
      assert Telegrams(s.device.sent, s.protocol) + [] == Telegrams(s.device.sent, s.protocol);
    } else {
      var (q, rest) := (requests[0], requests[1..]);
      var next := Routed(s, q).0;
      SaneLater(s.device, next.device);
      StaysSyncedExactly(s, q);
      RequestUnderItsHeader(s, q);
      EachUnderItsHeader(next, rest);
      var here := if Reaches(s, q) then [Telegram(q.service, q.data, TargetHeader(s.protocol, q.target))] else [];
      var (before, later) := (Telegrams(s.device.sent, s.protocol), Addressings(next, rest));
      assert (before + here) + later == before + (here + later);
    }
  }

  lemma RequestUnderItsHeader(s: Elm, q: Request)
    requires Synced(s) && Sane(s.device.answers)
    ensures UnderOwnHeader(s, q)
  {
    hide Telegrams, Routed, Reaches, AddressHeader;
    ShownHeader(s, q);
  }

  /** The cache goes on naming a target. */
  lemma {:induction false} RunNamesTarget(s: Elm, requests: seq<Request>)
    requires CacheNamesTarget(s)
    ensures CacheNamesTarget(Run(s, requests).0)
    decreases |requests|
  {
    hide Routed, CacheNamesTarget;
    if requests != [] {
      RequestNamesTarget(s, requests[0]);
      RunNamesTarget(Routed(s, requests[0]).0, requests[1..]);
    }
  }

  lemma RequestNamesTarget(s: Elm, q: Request)
    requires CacheNamesTarget(s)
    ensures CacheNamesTarget(Routed(s, q).0)
  {
    hide AddressHeader, Send, Later;
    var header := TargetHeader(s.protocol, q.target);
    var (aimed, r) := ApplyTarget(s, q.target);
    if header.Some? {
      SendKeepsOrClears(s, SetHeader(header.value));
    }
    assert aimed.cache.None? || aimed.cache == s.cache || aimed.cache == header;
    SendKeepsOrClears(aimed, Obd(q.service, q.data));
  }

  lemma SendKeepsOrClears(s: Elm, command: Command)
    ensures Send(s, command).0.cache in {None, s.cache}
  {
    hide Send, Sanitize, IsFault, IsOk;
    SendDrifts(s, command);
  }

  /**
    The exact condition over runs. From an adapter in step, and as long as no request has missed, the next request
    misses exactly if it makes some request after it go out under another header than its own target's.
   */
  lemma FirstMissMisdirects(s: Elm, requests: seq<Request>, q: Request)
    requires Synced(s) && CacheNamesTarget(s) && Sane(s.device.answers) && NoneMisses(s, requests)
    ensures
      var end := Run(s, requests).0;
      RequestMisses(end, q) <==>
      exists next, answers :: Sane(answers) && !UnderOwnHeader(WithAnswers(Routed(end, q).0, answers), next)
  {
    hide Run, Routed, RequestMisses, UnderOwnHeader, Synced, CacheNamesTarget, Sane, NoneMisses;
    var end := Run(s, requests).0;
    EachUnderItsHeader(s, requests);
    RunNamesTarget(s, requests);
    SaneLater(s.device, end.device);
    StaysSyncedExactly(end, q);
    RequestNamesTarget(end, q);
    ProtocolSelected(end);
    SyncedIffNextIsRight(Routed(end, q).0);
  }

  lemma ProtocolSelected(s: Elm)
    requires Synced(s)
    ensures !s.protocol.Auto?
  {
  }

  /** A run whose link does not fail has no misses. */
  lemma {:induction false} WorkingLinkNeverMisses(s: Elm, requests: seq<Request>)
    requires Synced(s) && Sane(s.device.answers) && !Run(s, requests).0.device.linkFailed
    ensures NoneMisses(s, requests)
    decreases |requests|
  {
    hide Routed, RequestMisses, Synced, Sane;
    if requests != [] {
      var next := Routed(s, requests[0]).0;
      assert Run(s, requests).0 == Run(next, requests[1..]).0;
      assert Later(next.device, Run(next, requests[1..]).0.device);
      StaysSynced(s, requests[0]);
      StaysSyncedExactly(s, requests[0]);
      SaneLater(s.device, next.device);
      WorkingLinkNeverMisses(next, requests[1..]);
    }
  }

  // ---- Inputs on which a request is misdirected ----

  /** A second request that is sent without an `AT SH` goes out under the header that the first one left in force. */
  lemma SecondGoesUnder(s: Elm, first: Request, second: Request)
    requires !s.protocol.Auto? && Sane(s.device.answers)
    requires var s1 := Routed(s, first).0; Elides(s1, second) && Arrives(s1.device)
    ensures
      var s1 := Routed(s, first).0;
      Telegrams(Run(s, [first, second]).0.device.sent, s.protocol) ==
      Telegrams(s1.device.sent, s.protocol)
      + [Telegram(second.service, second.data, InForce(s1.device.header, s.protocol))]
  {
    hide Routed, Telegrams, Reaches, Elides, Sane, Arrives, InForce;
    var s1 := Routed(s, first).0;
    SaneLater(s.device, s1.device);
    ShownHeader(s1, second);
    ElidedReaches(s1, second);
    RunOfTwo(s, first, second);
  }

  lemma RunOfTwo(s: Elm, first: Request, second: Request)
    ensures Run(s, [first, second]).0 == Routed(Routed(s, first).0, second).0
  {
    hide Routed;
    var s1 := Routed(s, first).0;
    var rest := [second];
    assert [first, second][1..] == rest && rest[1..] == [];
    assert Run(s1, rest).0 == Run(Routed(s1, second).0, rest[1..]).0;
  }

  /**
    A lost OK to `AT SH`: the header was set, the adapter does not know, and the next broadcast goes out under
    the module's header.
   */
  lemma LostReplyMisdirects(s: Elm, a: PhysicalAddress, lost: string, q: Request, reply: string)
    requires Synced(s) && s.cache.None? && AddressHeader(a).Some?
    requires s.device.answers == [ReplyLost(lost), Reply(reply)] && Sane(s.device.answers)
    requires IsOk(Sanitize(lost)) && !IsFault(Sanitize(lost))
    ensures
      Telegrams(Run(s, [q.(target := Addressed(a)), q.(target := Broadcast)]).0.device.sent, s.protocol) ==
      Telegrams(s.device.sent, s.protocol) + [Telegram(q.service, q.data, AddressHeader(a))]
  {
    hide Sanitize, IsFault, IsOk, AddressHeader, Telegrams, Recover, Later;
    var first := q.(target := Addressed(a));
    ShownHeader(s, first);
    SecondGoesUnder(s, first, q.(target := Broadcast));
    assert Telegrams(s.device.sent, s.protocol) + [] == Telegrams(s.device.sent, s.protocol);
  }

  /**
    A fault that the adapter misses: its reply is lost, or `ATFE` is not delivered and the recovery stops before
    the cache is cleared. The next request to the same module goes out under the broadcast header.
   */
  lemma MissedFaultMisdirects(s: Elm, q: Request, fault: string, reply: string, lost: bool)
    requires Synced(s) && q.target.Addressed? && AddressHeader(q.target.address).Some?
    requires s.cache == AddressHeader(q.target.address)
    requires s.device.answers == (if lost then [ReplyLost(fault)] else [Reply(fault), WriteFailed]) + [Reply(reply)]
    requires Sane(s.device.answers) && IsFault(Sanitize(fault))
    ensures
      Telegrams(Run(s, [q, q]).0.device.sent, s.protocol) ==
      Telegrams(s.device.sent, s.protocol) +
      [Telegram(q.service, q.data, AddressHeader(q.target.address)),
       Telegram(q.service, q.data, BroadcastHeader(s.protocol))]
  {
    hide Sanitize, IsFault, IsOk, AddressHeader, Telegrams, Later;
    ShownHeader(s, q);
    var s1 := Routed(s, q).0;
    assert s1.cache == s.cache && s1.device.header.None? && s1.device.answers == [Reply(reply)];
    SecondGoesUnder(s, q, q);
  }

  /**
    Without a protocol the cache forgets a header that the device keeps. From a new adapter that has not been
    initialized, a module request and then a broadcast: the broadcast goes out under the module's header.
   */
  lemma AutoMisdirects(s: Elm, a: PhysicalAddress, ok: string, q: Request, replies: seq<string>)
    requires s.cache.None? && s.protocol.Auto? && AddressHeader(a).Some? && |replies| == 2
    requires s.device == Device(None, [Reply(ok), Reply(replies[0]), Reply(replies[1])], [], false)
    requires IsOk(Sanitize(ok)) && !IsFault(Sanitize(ok)) && !IsFault(Sanitize(replies[0]))
    ensures
      var header := AddressHeader(a);
      [Sent(SetHeader(header.value), None), Sent(Obd(q.service, q.data), header), Sent(Obd(q.service, q.data), header)]
      <= Run(s, [q.(target := Addressed(a)), q.(target := Broadcast)]).0.device.sent
  {
    hide Run, Routed, Sanitize, IsFault, IsOk, AddressHeader, Later;
    var (first, second) := (q.(target := Addressed(a)), q.(target := Broadcast));
    RunOfTwo(s, first, second);
    assert s.device.answers == [Reply(ok), Reply(replies[0])] + [Reply(replies[1])];
    PlainModuleRequest(s, first, ok, replies[0], [Reply(replies[1])]);
    var s1 := Routed(s, first).0;
    AutoBroadcastExactly(s1, second);
    ThreeInFront(s1.device.sent, Routed(s1, second).0.device.sent);
  }

  lemma ThreeInFront(front: seq<Sent>, sent: seq<Sent>)
    requires |front| == 2 < |sent| && sent[..2] == front
    ensures [front[0], front[1], sent[2]] <= sent
  {
    assert sent[0] == sent[..2][0] && sent[1] == sent[..2][1];
  }

  lemma PlainModuleRequest(s: Elm, q: Request, ok: string, reply: string, rest: seq<Answer>)
    requires s.cache.None? && q.target.Addressed? && AddressHeader(q.target.address).Some?
    requires s.device.answers == [Reply(ok), Reply(reply)] + rest
    requires IsOk(Sanitize(ok)) && !IsFault(Sanitize(ok)) && !IsFault(Sanitize(reply))
    ensures
      var header := AddressHeader(q.target.address);
      Routed(s, q).0 == Elm(header, s.protocol,
        Device(header, rest,
               s.device.sent + [Sent(SetHeader(header.value), s.device.header), Sent(Obd(q.service, q.data), header)],
               s.device.linkFailed))
  {
    hide Sanitize, IsFault, IsOk, AddressHeader, Recover, Later;
    var header := AddressHeader(q.target.address).value;
    assert s.device.answers[1..] == [Reply(reply)] + rest && s.device.answers[1..][1..] == rest;
    var aimed := ForceHeader(s, header).0;
    assert aimed == Elm(Some(header), s.protocol,
      Device(Some(header), s.device.answers[1..],
             s.device.sent + [Sent(SetHeader(header), s.device.header)], s.device.linkFailed));
    assert ApplyTarget(s, q.target).0 == aimed;
  }

  /**
    The exact case: without a protocol a broadcast that reaches the device goes out under whatever header was set
    last, so it goes out as a broadcast exactly if none has been set, or a fault has cleared it since.
   */
  lemma AutoBroadcastExactly(s: Elm, q: Request)
    requires s.protocol.Auto? && q.target.Broadcast? && Arrives(s.device)
    ensures
      var sent := Routed(s, q).0.device.sent;
      && |sent| > |s.device.sent| && sent[..|s.device.sent|] == s.device.sent
      && sent[|s.device.sent|] == Sent(Obd(q.service, q.data), s.device.header)
  {
    hide Sanitize, IsFault, IsOk, Recover, Later;
    var aimed := s.(cache := None);
    assert Routed(s, q) == Send(aimed, Obd(q.service, q.data));
    var after := Exchange(s.device, Obd(q.service, q.data)).0;
    RecoverySendsOn(aimed.(device := after));
  }

  lemma RecoverySendsOn(s: Elm)
    ensures s.device.sent <= Recover(s).0.device.sent
  {
    hide Sanitize, Later;
    ConfigureSendsOn(Exchange(s.device, Config("ATFE")).0, RUNTIME_DEFAULTS);
  }

  lemma {:induction false} ConfigureSendsOn(d: Device, settings: seq<string>)
    ensures d.sent <= Configure(d, settings).0.sent
    decreases |settings|
  {
    hide Sanitize, Later;
    if settings != [] {
      ConfigureSendsOn(Exchange(d, Config(settings[0])).0, settings[1..]);
    }
  }
}
