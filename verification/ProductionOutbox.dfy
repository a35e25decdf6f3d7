/** The outbox as it is put together: runners over the native engine's compare-and-swap
    (`src-tauri/src/persistence/engine.rs`), whose remote calls go through the native mail layer
    (`src-tauri/src/net/smtp.rs`, `imap.rs`). Every run of it is a run of `OutboxProtocol`, with
    nothing left to assume about what the remote side answers. */
module ProductionOutbox {
  import opened Base
  import opened SendIntents
  import opened PendingMutations
  import opened MutationCas
  import opened RemoteErrors
  import opened OutboxProtocol
  import opened OutboxSafety
  import opened OutboxTheorems
  import Smtp = SmtpSubmission
  import SmtpMessages
  import Imap = ImapCommands
  import ImapLines

  // ---- What a call of the native layer comes to ----

  function FailureOf(raw: Raw): Option<RemoteError> {
    if raw.Failed? then Some(raw.error) else None
  }

  function RawOf(error: Option<RemoteError>, emailId: Option<string>): Raw {
    if error.Some? then Failed(error.value) else Delivered(emailId)
  }

  /** Sending over SMTP: something was done if any byte of the message left. */
  method Send(client: Smtp.SmtpClient, user: string, request: SmtpMessages.Request, date: string, connects: bool,
              emailId: Option<string>)
    returns (raw: Raw, effect: bool)
    requires client.wire == "" && client.said == [] && request.AllBytes()
    modifies client
    ensures TellsTruth(FailureOf(raw), effect)
    ensures raw.Delivered? ==> effect
  {
    var error := client.Submit(user, request, date, connects);
    raw := RawOf(error, emailId);
    effect := client.wire != "";
  }

  /** Changing flags: something was done if a flag is not as it was. */
  method StoreFlags(connection: Imap.ImapConnection, tags: seq<string>, mailbox: string, uidValidity: nat,
                    operations: seq<(bool, string)>)
    returns (raw: Raw, effect: bool)
    requires connection.stream.Valid() && |tags| == |operations| + 1
    modifies connection, connection.stream
    ensures TellsTruth(FailureOf(raw), effect)
  {
    var before := connection.flags;
    var result := connection.StoreFlags(tags, mailbox, uidValidity, operations);
    raw := RawOf(ImapLines.ErrorOf(result), None);
    effect := connection.flags != before;
  }

  method MoveMessage(connection: Imap.ImapConnection, tags: seq<string>, mailbox: string, uidValidity: nat,
                     destination: string)
    returns (raw: Raw, effect: bool)
    requires connection.stream.Valid() && |tags| == 2
    modifies connection, connection.stream
    ensures TellsTruth(FailureOf(raw), effect)
  {
    var before := connection.moved;
    var result := connection.MoveMessage(tags, mailbox, uidValidity, destination);
    raw := RawOf(ImapLines.ErrorOf(result), None);
    effect := connection.moved != before;
  }

  // ---- The runners over the native engine ----

  /** `Step` with the native engine's calls: it refuses what its validator does not accept, and a
      refused call ends its runner. */
  function NativeStep(s: System, e: Event): System {
    match e
    case Stage(m) => if ValidNativeMutation(m) then Step(s, e) else s
    case Claim(r, at) =>
      if r !in s.runners || !s.runners[r].pc.Claiming? then s
      else
        var pc := s.runners[r].pc;
        var next := StartAttempt(pc.m);
        if next.Throw? then Goto(s, r, None)
        else
          var (rows, claimed) := NativeReplaceIfCurrent(s.rows, pc.m, next.value);
          if claimed then Goto(s.(rows := rows), r, AfterClaim(next.value, pc.prepared, at))
          else Goto(s, r, None)
    case CommitSettlement(r) =>
      if r !in s.runners || !s.runners[r].pc.Settling? then s
      else
        var pc := s.runners[r].pc;
        var (rows, settled) := NativeReplaceIfCurrent(s.rows, pc.m, pc.next);
        Goto(s.(rows := rows), r,
             if settled && pc.next.lifecycle.Confirmed? then Some(Removing(pc.next.Key())) else None)
    case _ => Step(s, e)
  }

  /** What the native engine makes of an event, in terms of the memory engine. */
  function NativeEvents(s: System, e: Event): seq<Event> {
    match e
    case Stage(m) => if ValidNativeMutation(m) then [e] else []
    case Claim(r, _) =>
      if r in s.runners && s.runners[r].pc.Claiming? && StartAttempt(s.runners[r].pc.m).Ok?
         && !(ValidNativeMutation(s.runners[r].pc.m) && ValidNativeMutation(StartAttempt(s.runners[r].pc.m).value))
      then [Crash(r)] else [e]
    case CommitSettlement(r) =>
      if r in s.runners && s.runners[r].pc.Settling?
         && !(ValidNativeMutation(s.runners[r].pc.m) && ValidNativeMutation(s.runners[r].pc.next))
      then [Crash(r)] else [e]
    case _ => [e]
  }

  lemma NoEvents(s: System)
    ensures Run(s, []) == s
  {
  }

  lemma OneEvent(s: System, e: Event)
    ensures Run(s, [e]) == Step(s, e)
  {
    RunSnoc(s, [], e);
    assert [] + [e] == [e];
  }

  /** A step over the native engine is a step over the memory engine, or its runner ends there, or
      an unusable mutation is not staged. */
  lemma NativeStepIsRun(s: System, e: Event)
    ensures NativeStep(s, e) == Run(s, NativeEvents(s, e))
  {
    NoEvents(s);
    if NativeEvents(s, e) != [] {
      OneEvent(s, NativeEvents(s, e)[0]);
    }
    match e
    case Claim(r, at) =>
      if r in s.runners && s.runners[r].pc.Claiming? && StartAttempt(s.runners[r].pc.m).Ok? {
        EnginesAgreeOnReplacement(s.rows, s.runners[r].pc.m, StartAttempt(s.runners[r].pc.m).value);
      }
    case CommitSettlement(r) =>
      if r in s.runners && s.runners[r].pc.Settling? {
        EnginesAgreeOnReplacement(s.rows, s.runners[r].pc.m, s.runners[r].pc.next);
      }
    case _ =>
  }

  // ---- Runners, engine and mail layer together ----

  /** The system, and of each remote call that came to its end, whether it did anything. */
  datatype Production = Production(system: System, ended: map<nat, bool>)

  const START := Production(INITIAL, map[])

  datatype ProductionEvent =
    | Runs(e: Event)
    | Applies(i: nat)
    | Ends(r: nat, raw: Raw, effect: bool, current: bool, at: string)

  /** A call ends once, with a report and an effect as `Send`, `StoreFlags` and `MoveMessage` give
      them; it did something if the remote applied what it asked for. */
  predicate MayEnd(p: Production, r: nat, raw: Raw, effect: bool) {
    && r in p.system.runners && p.system.runners[r].pc.Waiting? && p.system.runners[r].pc.request < |p.system.log|
    && TellsTruth(FailureOf(raw), effect)
    && var request := p.system.runners[r].pc.request;
    && request !in p.ended && (p.system.log[request].fate.Accepted? ==> effect)
  }

  /** The remote applies a request while its call goes on, or later if the call did something. */
  predicate MayApply(p: Production, i: nat) {
    i in p.ended ==> p.ended[i]
  }

  function Produce(p: Production, e: ProductionEvent): Production {
    match e
    case Runs(e) => if e.Accept? || e.Refuse? || e.Respond? then p else p.(system := NativeStep(p.system, e))
    case Applies(i) => if MayApply(p, i) then p.(system := Step(p.system, Accept(i))) else p
    case Ends(r, raw, effect, current, at) =>
      if MayEnd(p, r, raw, effect)
      then Production(Deliver(p.system, r, raw, current, at), p.ended[p.system.runners[r].pc.request := effect])
      else p
  }

  function ProduceAll(events: seq<ProductionEvent>): Production {
    if events == [] then START else Produce(ProduceAll(events[..|events| - 1]), events[|events| - 1])
  }

  // ---- It is a run of the protocol ----

  /** A call that ended without having done anything is as good as refused. */
  function Judged(log: seq<Request>, ended: map<nat, bool>): (r: seq<Request>)
    ensures |r| == |log|
    ensures forall i :: 0 <= i < |r| ==> r[i] == if i in ended && !ended[i] then log[i].(fate := Refused) else log[i]
  {
    seq(|log|, i requires 0 <= i < |log| => if i in ended && !ended[i] then log[i].(fate := Refused) else log[i])
  }

  function View(p: Production): System {
    p.system.(log := Judged(p.system.log, p.ended))
  }

  ghost predicate CallsOk(p: Production) {
    && (forall i <- p.ended :: i < |p.system.log|)
    && (forall i :: 0 <= i < |p.system.log| ==>
          !p.system.log[i].fate.Refused? && (i in p.ended && !p.ended[i] ==> !p.system.log[i].fate.Accepted?))
  }

  function ProtocolEvents(p: Production, e: ProductionEvent): seq<Event> {
    match e
    case Runs(e) => if e.Accept? || e.Refuse? || e.Respond? then [] else NativeEvents(View(p), e)
    case Applies(i) => if MayApply(p, i) then [Accept(i)] else []
    case Ends(r, raw, effect, current, at) =>
      if !MayEnd(p, r, raw, effect) then []
      else (if effect then [] else [Refuse(p.system.runners[r].pc.request)]) + [Respond(r, raw, current, at)]
  }

  /** Only sending reads or writes the record of requests; everything else goes on beside it. */
  lemma LogStandsAside(s: System, log: seq<Request>, e: Event)
    requires !(e.Accept? || e.Refuse? || e.Respond? || e.Dispatch?)
    ensures NativeStep(s.(log := log), e) == NativeStep(s, e).(log := log)
  {
    if e.Claim? {
      ClaimStandsAside(s, log, e);
    }
  }

  lemma ClaimStandsAside(s: System, log: seq<Request>, e: Event)
    requires e.Claim?
    ensures NativeStep(s.(log := log), e) == NativeStep(s, e).(log := log)
  {
  }

  lemma JudgedAppended(log: seq<Request>, request: Request, ended: map<nat, bool>)
    requires forall i <- ended :: i < |log|
    ensures Judged(log + [request], ended) == Judged(log, ended) + [request]
  {
  }

  lemma DispatchKeepsCallsOk(p: Production, e: Event)
    requires CallsOk(p) && e.Dispatch?
    ensures CallsOk(p.(system := NativeStep(p.system, e)))
  {
  }

  lemma DispatchStandsAside(p: Production, e: Event)
    requires CallsOk(p) && e.Dispatch?
    ensures View(p.(system := NativeStep(p.system, e))) == NativeStep(View(p), e)
  {
    if e.r in p.system.runners && p.system.runners[e.r].pc.Claimed? {
      var m := p.system.runners[e.r].pc.m;
      JudgedAppended(p.system.log, Request(m.Key(), m.lifecycle.attemptCount, Outstanding), p.ended);
    }
  }

  lemma RunningIsRun(p: Production, e: Event)
    requires CallsOk(p) && !(e.Accept? || e.Refuse? || e.Respond?)
    ensures CallsOk(Produce(p, Runs(e)))
    ensures View(Produce(p, Runs(e))) == Run(View(p), NativeEvents(View(p), e))
  {
    NativeStepIsRun(View(p), e);
    if e.Dispatch? {
      DispatchKeepsCallsOk(p, e);
      DispatchStandsAside(p, e);
    } else {
      LogStandsAside(p.system, Judged(p.system.log, p.ended), e);
      LogStandsAside(p.system, p.system.log, e);
      assert p.system.(log := p.system.log) == p.system;
    }
  }

  lemma JudgedApplied(log: seq<Request>, ended: map<nat, bool>, i: nat)
    requires i < |log| && (i in ended ==> ended[i])
    ensures Judged(log[i := log[i].(fate := Accepted)], ended) == Judged(log, ended)[i := log[i].(fate := Accepted)]
  {
  }

  lemma JudgedEnded(log: seq<Request>, ended: map<nat, bool>, i: nat)
    requires i < |log| && i !in ended
    ensures Judged(log, ended[i := true]) == Judged(log, ended)
    ensures Judged(log, ended[i := false]) == Judged(log, ended)[i := log[i].(fate := Refused)]
  {
  }

  lemma ApplyingKeepsCallsOk(p: Production, i: nat)
    requires CallsOk(p) && MayApply(p, i)
    ensures CallsOk(Produce(p, Applies(i)))
  {
  }

  lemma ApplyingIs(p: Production, i: nat)
    requires i < |p.system.log| && p.system.log[i].fate.Outstanding? && MayApply(p, i)
    ensures var log := p.system.log[i := p.system.log[i].(fate := Accepted)];
            Produce(p, Applies(i)) == p.(system := p.system.(log := log))
            && Step(View(p), Accept(i)) == p.system.(log := Judged(log, p.ended))
  {
    JudgedApplied(p.system.log, p.ended, i);
    assert View(p).log[i] == p.system.log[i];
  }

  lemma ApplyingIsRun(p: Production, i: nat)
    requires CallsOk(p) && MayApply(p, i)
    ensures View(Produce(p, Applies(i))) == Step(View(p), Accept(i))
  {
    if i < |p.system.log| && p.system.log[i].fate.Outstanding? {
      ApplyingIs(p, i);
    } else {
      assert Produce(p, Applies(i)) == p;
      assert i < |p.system.log| ==> View(p).log[i] == p.system.log[i];
    }
  }

  /** An answer is delivered the same whatever the record says of other requests. */
  lemma DeliveryStandsAside(s: System, log: seq<Request>, r: nat, raw: Raw, current: bool, at: string)
    ensures Deliver(s.(log := log), r, raw, current, at) == Deliver(s, r, raw, current, at).(log := log)
    ensures Deliver(s, r, raw, current, at).log == s.log
  {
  }

  lemma RefusingIs(p: Production, i: nat)
    requires i < |p.system.log| && i !in p.ended && p.system.log[i].fate.Outstanding?
    ensures Step(View(p), Refuse(i)) == p.system.(log := Judged(p.system.log, p.ended[i := false]))
  {
    JudgedEnded(p.system.log, p.ended, i);
    assert View(p).log[i] == p.system.log[i];
  }

  lemma EndedView(p: Production, r: nat, raw: Raw, effect: bool, current: bool, at: string)
    requires MayEnd(p, r, raw, effect)
    ensures var ended := p.ended[p.system.runners[r].pc.request := effect];
            View(Produce(p, Ends(r, raw, effect, current, at))) ==
            Deliver(p.system.(log := Judged(p.system.log, ended)), r, raw, current, at)
  {
    var ended := p.ended[p.system.runners[r].pc.request := effect];
    DeliveryStandsAside(p.system, Judged(p.system.log, ended), r, raw, current, at);
  }

  lemma EndedCallsOk(p: Production, r: nat, raw: Raw, effect: bool, current: bool, at: string)
    requires CallsOk(p) && MayEnd(p, r, raw, effect)
    ensures CallsOk(Produce(p, Ends(r, raw, effect, current, at)))
  {
    DeliveryStandsAside(p.system, p.system.log, r, raw, current, at);
  }

  lemma HonestWhenJudged(p: Production, r: nat, raw: Raw, effect: bool)
    requires MayEnd(p, r, raw, effect)
    ensures Honest(p.system.(log := Judged(p.system.log, p.ended[p.system.runners[r].pc.request := effect])), r, raw)
  {
  }

  lemma HonestIsDelivered(s: System, r: nat, raw: Raw, current: bool, at: string)
    requires Honest(s, r, raw)
    ensures Step(s, Respond(r, raw, current, at)) == Deliver(s, r, raw, current, at)
  {
  }

  lemma EndingIsRun(p: Production, r: nat, raw: Raw, effect: bool, current: bool, at: string)
    requires CallsOk(p) && MayEnd(p, r, raw, effect)
    ensures var p' := Produce(p, Ends(r, raw, effect, current, at));
            var request := p.system.runners[r].pc.request;
            var judged := if effect then View(p) else Step(View(p), Refuse(request));
            CallsOk(p') && View(p') == Step(judged, Respond(r, raw, current, at))
  {
    var request := p.system.runners[r].pc.request;
    EndedCallsOk(p, r, raw, effect, current, at);
    EndedView(p, r, raw, effect, current, at);
    HonestWhenJudged(p, r, raw, effect);
    HonestIsDelivered(p.system.(log := Judged(p.system.log, p.ended[request := effect])), r, raw, current, at);
    if effect {
      JudgedEnded(p.system.log, p.ended, request);
    } else {
      RefusingIs(p, request);
    }
  }

  /** Every event of the composed system is at most two events of the protocol, and honest. */
  lemma ProductionStepIsRun(p: Production, e: ProductionEvent)
    requires CallsOk(p)
    ensures CallsOk(Produce(p, e))
    ensures View(Produce(p, e)) == Run(View(p), ProtocolEvents(p, e))
  {
    NoEvents(View(p));
    match e
    case Runs(e') => if !(e'.Accept? || e'.Refuse? || e'.Respond?) { RunningIsRun(p, e'); }
    case Applies(i) =>
      if MayApply(p, i) {
        OneEvent(View(p), Accept(i));
        ApplyingKeepsCallsOk(p, i);
        ApplyingIsRun(p, i);
      }
    case Ends(r, raw, effect, current, at) =>
      if MayEnd(p, r, raw, effect) {
        EndingIsRun(p, r, raw, effect, current, at);
        var answer := Respond(r, raw, current, at);
        if effect {
          OneEvent(View(p), answer);
          assert [] + [answer] == [answer];
        } else {
          var refusal := Refuse(p.system.runners[r].pc.request);
          OneEvent(View(p), refusal);
          RunSnoc(View(p), [refusal], answer);
        }
      }
  }

  lemma {:induction false} RunAppend(s: System, first: seq<Event>, second: seq<Event>)
    ensures Run(s, first + second) == Run(Run(s, first), second)
  {
    if second == [] {
      assert first + second == first;
    } else {
      var before, last := second[..|second| - 1], second[|second| - 1];
      RunAppend(s, first, before);
      assert second == before + [last];
      assert first + second == (first + before) + [last];
      RunSnoc(s, first + before, last);
      RunSnoc(Run(s, first), before, last);
    }
  }

  function ProtocolRun(events: seq<ProductionEvent>): seq<Event> {
    if events == [] then []
    else
      var before := events[..|events| - 1];
      ProtocolRun(before) + ProtocolEvents(ProduceAll(before), events[|events| - 1])
  }

  /** So every run of it is a run of the protocol, and everything proved of those holds of it. */
  lemma {:induction false} ProductionIsRun(events: seq<ProductionEvent>)
    ensures CallsOk(ProduceAll(events))
    ensures View(ProduceAll(events)) == Run(INITIAL, ProtocolRun(events))
  {
    if events == [] {
      assert Judged([], map[]) == [];
    } else {
      var before, last := events[..|events| - 1], events[|events| - 1];
      ProductionIsRun(before);
      ProductionStepIsRun(ProduceAll(before), last);
      RunAppend(INITIAL, ProtocolRun(before), ProtocolEvents(ProduceAll(before), last));
    }
  }

  /** Over the production engine and the native mail layer, of all requests ever sent for one
      staged message at most one is applied; and if one is, every other one ended without having
      done anything. */
  lemma ProductionSendsAtMostOnce(events: seq<ProductionEvent>, i: nat, j: nat)
    requires var log := ProduceAll(events).system.log; i < |log| && j < |log| && i != j && log[i].key == log[j].key
    requires IsSend(ProduceAll(events).system, ProduceAll(events).system.log[i].key)
    ensures var p := ProduceAll(events);
            && !(p.system.log[i].fate.Accepted? && p.system.log[j].fate.Accepted?)
            && (p.system.log[i].fate.Accepted? ==> j in p.ended && !p.ended[j])
  {
    ProductionIsRun(events);
    var p := ProduceAll(events);
    var s := View(p);
    assert s.log[i].key == s.log[j].key && IsSend(s, s.log[i].key);
    if i < j {
      AtMostOnceSend(ProtocolRun(events), i, j);
    } else {
      AtMostOnceSend(ProtocolRun(events), j, i);
    }
  }
}
