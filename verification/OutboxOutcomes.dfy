/** What the outbox makes of one mutation, step by step, in terms of its row, the record of what was
    sent and the runner: which answer and which evidence lead to which lifecycle, and when an
    attempt is started at all. */
module OutboxOutcomes {
  import opened Base
  import opened SendIntents
  import opened PendingMutations
  import opened MutationCas
  import opened RemoteErrors
  import opened OutboxProtocol
  import opened OutboxSafety
  import opened OutboxTheorems

  /** Nobody has touched the row since the snapshot was taken. */
  predicate Current(s: System, m: Mutation) {
    m.Key() in s.rows && s.rows[m.Key()] == m
  }

  predicate UnderWay(m: Mutation) {
    m.lifecycle.InFlight? && 1 <= m.lifecycle.attemptCount <= MAX_SAFE_INTEGER
  }

  predicate At(s: System, r: nat, pc: Pc) {
    r in s.runners && s.runners[r].pc == pc
  }

  /** The runner is gone and nothing else happened. */
  function Left(s: System, r: nat): System {
    s.(runners := s.runners - {r})
  }

  /** The row has the new lifecycle, the runner is gone, and nothing else happened. */
  function Became(s: System, r: nat, m: Mutation, lifecycle: Lifecycle): System {
    Left(s, r).(rows := s.rows[m.Key() := m.(lifecycle := lifecycle)])
  }

  /** The row is confirmed and its runner is about to remove it. */
  function BecameConfirmed(s: System, r: nat, m: Mutation, confirmation: Option<ScopedId>): System
    requires r in s.runners
  {
    s.(rows := s.rows[m.Key() := m.(lifecycle := Confirmed(m.lifecycle.attemptCount, confirmation))],
       runners := s.runners[r := s.runners[r].(pc := Removing(m.Key()))])
  }

  // ---- Runs of a few events ----

  lemma RunOne(s: System, a: Event)
    ensures Run(s, [a]) == Step(s, a)
  {
    RunSnoc(s, [], a);
    assert [] + [a] == [a];
  }

  lemma RunTwo(s: System, a: Event, b: Event)
    ensures Run(s, [a, b]) == Step(Step(s, a), b)
  {
    RunOne(s, a);
    RunSnoc(s, [a], b);
    assert [a] + [b] == [a, b];
  }

  lemma RunThree(s: System, a: Event, b: Event, c: Event)
    ensures Run(s, [a, b, c]) == Step(Step(Step(s, a), b), c)
  {
    RunTwo(s, a, b);
    RunSnoc(s, [a, b], c);
    assert [a, b] + [c] == [a, b, c];
  }

  lemma RunFour(s: System, a: Event, b: Event, c: Event, d: Event)
    ensures Run(s, [a, b, c, d]) == Step(Step(Step(Step(s, a), b), c), d)
  {
    RunThree(s, a, b, c);
    RunSnoc(s, [a, b, c], d);
    assert [a, b, c] + [d] == [a, b, c, d];
  }

  function Settles(s: System, r: nat, m: Mutation, next: Mutation): System
    requires r in s.runners
  {
    s.(runners := s.runners[r := s.runners[r].(pc := Settling(m, next))])
  }

  /** A settlement by a transition of the very row it was made from is written. */
  lemma SettledBy(s: System, r: nat, m: Mutation, e: Event, t: Transition)
    requires r in s.runners && Current(s, m) && Advance(m, t).Ok? && Step(s, e) == Settles(s, r, m, Advance(m, t).value)
    ensures var lifecycle := Advance(m, t).value.lifecycle;
            Run(s, [e, CommitSettlement(r)]) ==
            if lifecycle.Confirmed? then BecameConfirmed(s, r, m, lifecycle.confirmation) else Became(s, r, m, lifecycle)
  {
    RunTwo(s, e, CommitSettlement(r));
    TransitionsAreReplacements(s.rows, m, t);
    OnlyLifecycleMoves(m, t);
    SettlementIsWritten(s, r, m, Advance(m, t).value);
  }

  lemma OnlyLifecycleMoves(m: Mutation, t: Transition)
    requires Advance(m, t).Ok?
    ensures var next := Advance(m, t).value;
            next == m.(lifecycle := next.lifecycle) && (next.lifecycle.Confirmed? ==> next.lifecycle.attemptCount == m.lifecycle.attemptCount)
  {
  }

  lemma SettlementIsWritten(s: System, r: nat, m: Mutation, next: Mutation)
    requires r in s.runners && ReplaceIfCurrent(s.rows, m, next) == (s.rows[m.Key() := next], true)
    ensures Step(Settles(s, r, m, next), CommitSettlement(r)) ==
            if next.lifecycle.Confirmed?
            then s.(rows := s.rows[m.Key() := next], runners := s.runners[r := s.runners[r].(pc := Removing(next.Key()))])
            else Left(s, r).(rows := s.rows[m.Key() := next])
  {
    var s1 := Settles(s, r, m, next);
    assert s1.runners - {r} == s.runners - {r};
    assert s1.runners[r := s1.runners[r].(pc := Removing(next.Key()))]
           == s.runners[r := s.runners[r].(pc := Removing(next.Key()))];
  }

  lemma NothingToCommit(s: System, r: nat)
    ensures Step(Left(s, r), CommitSettlement(r)) == Left(s, r)
  {
  }

  // ---- Reconciling what was left in flight ----

  /** An update that the remote is seen not to have applied is tried again. */
  lemma NotAppliedKeywordIsRetried(s: System, r: nat, m: Mutation, at: string)
    requires At(s, r, Reconciling(m)) && Current(s, m) && UnderWay(m) && m.payload.Keyword?
    ensures Run(s, [ReconcileWith(r, NotApplied, at), CommitSettlement(r)])
         == Became(s, r, m, Retrying(m.lifecycle.attemptCount, at))
  {
    var e := ReconcileWith(r, NotApplied, at);
    assert Step(s, e) == Settles(s, r, m, ScheduleRetry(m, at).value);
    SettledBy(s, r, m, e, Transition.Retry(at));
  }

  /** One whose email is gone is given up. */
  lemma AbsentTargetFails(s: System, r: nat, m: Mutation, at: string)
    requires At(s, r, Reconciling(m)) && Current(s, m) && UnderWay(m) && m.payload.Keyword?
    ensures Run(s, [ReconcileWith(r, TargetAbsent, at), CommitSettlement(r)])
         == Became(s, r, m, FailedTerminal(m.lifecycle.attemptCount))
  {
    var e := ReconcileWith(r, TargetAbsent, at);
    assert Step(s, e) == Settles(s, r, m, FailTerminal(m).value);
    SettledBy(s, r, m, e, Fail);
  }

  /** What the remote is seen to have applied is confirmed: an update by itself, a send by the id of
      the email that was found. */
  lemma AppliedIsConfirmed(s: System, r: nat, m: Mutation, id: string, at: string)
    requires At(s, r, Reconciling(m)) && Current(s, m) && UnderWay(m) && (m.payload.Send? ==> id != "")
    ensures Run(s, [ReconcileWith(r, Applied(id), at), CommitSettlement(r)])
         == BecameConfirmed(s, r, m, if m.payload.Send? then Some(ScopedId(m.accountKey, id)) else None)
  {
    var e := ReconcileWith(r, Applied(id), at);
    var t := if m.payload.Send? then ConfirmAsSent(ScopedId(m.accountKey, id)) else ConfirmAsUpdated;
    assert Step(s, e) == Settles(s, r, m, Advance(m, t).value);
    SettledBy(s, r, m, e, t);
  }

  /** So a keyword change left in flight is confirmed exactly when the refreshed email has every
      keyword added and none removed, tried again when it has not, and given up when it is gone. */
  lemma RefreshedKeywordIsSettled(s: System, r: nat, m: Mutation, keywords: Option<set<string>>, at: string)
    requires At(s, r, Reconciling(m)) && Current(s, m) && UnderWay(m) && m.payload.Keyword?
    ensures var (add, remove) := (m.payload.addKeywords, m.payload.removeKeywords);
      Run(s, [ReconcileWith(r, KeywordEvidence(keywords, add, remove), at), CommitSettlement(r)]) ==
      match keywords
      case None => Became(s, r, m, FailedTerminal(m.lifecycle.attemptCount))
      case Some(now) =>
        if now + add == now && now * remove == {} then BecameConfirmed(s, r, m, None)
        else Became(s, r, m, Retrying(m.lifecycle.attemptCount, at))
  {
    var (add, remove) := (m.payload.addKeywords, m.payload.removeKeywords);
    match keywords
    case None => AbsentTargetFails(s, r, m, at);
    case Some(now) =>
      assert now + add == now <==> forall k <- add :: k in now by {
        assert forall k <- add :: k in now + add;
      }
      assert now * remove == {} <==> forall k <- remove :: k !in now by {
        assert forall k <- remove :: k in now ==> k in now * remove;
      }
      AppliedIsConfirmed(s, r, m, "", at);
      NotAppliedKeywordIsRetried(s, r, m, at);
  }

  /** No other evidence settles anything: not an inconclusive one, and for sends and moves not the
      absence of an effect or of the target either. */
  lemma OtherEvidenceSettlesNothing(s: System, r: nat, m: Mutation, evidence: Evidence, at: string)
    requires At(s, r, Reconciling(m))
    requires || evidence.Inconclusive?
             || (evidence.Applied? && m.payload.Send? && evidence.emailId == "")
             || ((evidence.NotApplied? || evidence.TargetAbsent?) && !m.payload.Keyword?)
    ensures Run(s, [ReconcileWith(r, evidence, at), CommitSettlement(r)]) == Left(s, r)
  {
    RunTwo(s, ReconcileWith(r, evidence, at), CommitSettlement(r));
    NothingToCommit(s, r);
  }

  /** Whatever the evidence is, a row that somebody else has moved meanwhile stays as it is. */
  lemma OvertakenReconcilerChangesNothing(s: System, r: nat, m: Mutation, evidence: Evidence, at: string)
    requires At(s, r, Reconciling(m)) && !Current(s, m)
    ensures Run(s, [ReconcileWith(r, evidence, at), CommitSettlement(r)]) == Left(s, r)
  {
    RunTwo(s, ReconcileWith(r, evidence, at), CommitSettlement(r));
    if m.Key() in s.rows {
      MutationsEqualExact(s.rows[m.Key()], m);
    }
    var pc := AfterEvidence(m, evidence, at);
    if pc.Some? {
      assert Step(s, ReconcileWith(r, evidence, at)) == Settles(s, r, m, pc.value.next);
      assert Settles(s, r, m, pc.value.next).runners - {r} == s.runners - {r};
    } else {
      NothingToCommit(s, r);
    }
  }

  /** A confirmed row is removed by its runner. */
  lemma ConfirmedRowIsRemoved(s: System, r: nat, key: Key)
    requires At(s, r, Removing(key)) && key in s.rows && s.rows[key].lifecycle.Confirmed?
    ensures Run(s, [Remove(r)]) == Left(s, r).(rows := s.rows - {key})
  {
    RunOne(s, Remove(r));
  }

  // ---- The answer to an attempt ----

  /** The runner hears the answer: the older one always, the other while its session is current. */
  predicate Hears(s: System, r: nat, m: Mutation, current: bool) {
    && r in s.runners && s.runners[r].pc.Waiting? && s.runners[r].pc.m == m
    && (s.runners[r].legacy || current)
  }

  /** A delivered update is confirmed, and so is a delivered send with the id of its email. */
  lemma DeliveryConfirms(s: System, r: nat, m: Mutation, id: Option<string>, current: bool, at: string)
    requires Hears(s, r, m, current) && Current(s, m) && UnderWay(m)
    requires m.payload.Send? ==> id.Some? && id.value != ""
    ensures Run(s, [Respond(r, Delivered(id), current, at), CommitSettlement(r)])
         == BecameConfirmed(s, r, m, if m.payload.Send? then Some(ScopedId(m.accountKey, id.value)) else None)
  {
    var e := Respond(r, Delivered(id), current, at);
    var t := if m.payload.Send? then ConfirmAsSent(ScopedId(m.accountKey, id.value)) else ConfirmAsUpdated;
    assert Step(s, e) == Settles(s, r, m, Advance(m, t).value);
    SettledBy(s, r, m, e, t);
  }

  /** A failure that is safe to retry, known not to have been applied, is retried by both runners;
      without a known outcome only by the older one. */
  lemma SafeFailureIsRetried(s: System, r: nat, m: Mutation, e: RemoteError, current: bool, at: string)
    requires Hears(s, r, m, current) && Current(s, m) && UnderWay(m) && Honest(s, r, Failed(e))
    requires e.retry.SafeImmediate? || e.retry.SafeBackoff?
    requires e.outcome.KnownNotApplied? || (e.outcome.NotApplicable? && s.runners[r].legacy)
    ensures Run(s, [Respond(r, Failed(e), current, at), CommitSettlement(r)])
         == Became(s, r, m, Retrying(m.lifecycle.attemptCount, at))
  {
    var answer := Respond(r, Failed(e), current, at);
    assert Step(s, answer) == Settles(s, r, m, ScheduleRetry(m, at).value);
    SettledBy(s, r, m, answer, Transition.Retry(at));
  }

  /** A failure that is not to be retried, or for the newer runner names no outcome, is final. */
  lemma FinalFailureIsTerminal(s: System, r: nat, m: Mutation, e: RemoteError, current: bool, at: string)
    requires Hears(s, r, m, current) && Current(s, m) && UnderWay(m) && Honest(s, r, Failed(e))
    requires !e.outcome.Unknown?
    requires e.retry.Never?
             || (!e.retry.Reconcile? && e.outcome.NotApplicable? && !s.runners[r].legacy)
    ensures Run(s, [Respond(r, Failed(e), current, at), CommitSettlement(r)])
         == Became(s, r, m, FailedTerminal(m.lifecycle.attemptCount))
  {
    var answer := Respond(r, Failed(e), current, at);
    assert Step(s, answer) == Settles(s, r, m, FailTerminal(m).value);
    SettledBy(s, r, m, answer, Fail);
  }

  /** Every other answer leaves the row in flight, for a reconciler: an unknown outcome, a failure to
      be reconciled, an untyped throw, a send without an id, or an answer for a replaced session. */
  lemma UnclearAnswerSettlesNothing(s: System, r: nat, m: Mutation, raw: Raw, current: bool, at: string)
    requires r in s.runners && s.runners[r].pc.Waiting? && s.runners[r].pc.m == m
    requires || (!s.runners[r].legacy && !current)
             || raw.Threw?
             || (raw.Failed? && (raw.error.outcome.Unknown? || raw.error.retry.Reconcile?))
             || (raw.Delivered? && m.payload.Send? && (raw.emailId.None? || raw.emailId.value == ""))
    requires Honest(s, r, raw)
    ensures Run(s, [Respond(r, raw, current, at), CommitSettlement(r)]) == Left(s, r)
  {
    RunTwo(s, Respond(r, raw, current, at), CommitSettlement(r));
    NothingToCommit(s, r);
  }

  // ---- Starting an attempt ----

  /** Pending, or retrying with its instant passed and an attempt left. */
  predicate Startable(m: Mutation, due: bool) {
    m.lifecycle == Pending(0) || (m.lifecycle.Retrying? && due && 1 <= m.lifecycle.attemptCount < MAX_SAFE_INTEGER)
  }

  function InNextAttempt(m: Mutation): Mutation {
    m.(lifecycle := InFlight(m.lifecycle.attemptCount + 1))
  }

  /** A claim takes the row in flight, under the next attempt count, and its runner with it. */
  lemma ClaimTakesRow(s: System, r: nat, m: Mutation, at: string)
    requires At(s, r, Claiming(m, ReadyToSend)) && Current(s, m) && Startable(m, true)
    ensures Run(s, [Claim(r, at)]) ==
            s.(rows := s.rows[m.Key() := InNextAttempt(m)],
               runners := s.runners[r := s.runners[r].(pc := Claimed(InNextAttempt(m)))])
  {
    RunOne(s, Claim(r, at));
    TransitionsAreReplacements(s.rows, m, Start);
  }

  /** Without the row there is no claim, so of two runners with one snapshot one stops here. */
  lemma OvertakenClaimStops(s: System, r: nat, m: Mutation, prepared: Prepared, at: string)
    requires At(s, r, Claiming(m, prepared)) && !Current(s, m)
    ensures Run(s, [Claim(r, at)]) == Left(s, r)
  {
    RunOne(s, Claim(r, at));
    if m.Key() in s.rows {
      MutationsEqualExact(s.rows[m.Key()], m);
    }
  }

  /** A send that cannot be encrypted now is retried; one that must not be sent is given up. */
  lemma UnpreparedSendIsSettled(s: System, r: nat, m: Mutation, prepared: Prepared, at: string)
    requires At(s, r, Claiming(m, prepared)) && !prepared.ReadyToSend? && Current(s, m) && Startable(m, true)
    ensures var n := m.lifecycle.attemptCount + 1;
            Run(s, [Claim(r, at), CommitSettlement(r)]) ==
            Became(s, r, m, if prepared.E2eeUnavailable? then Retrying(n, at) else FailedTerminal(n))
  {
    var claimed := InNextAttempt(m);
    var t := if prepared.E2eeUnavailable? then Transition.Retry(at) else Fail;
    var s1 := s.(rows := s.rows[m.Key() := claimed]);
    TransitionsAreReplacements(s.rows, m, Start);
    assert Step(s, Claim(r, at)) == Settles(s1, r, claimed, Advance(claimed, t).value);
    RunTwo(s, Claim(r, at), CommitSettlement(r));
    TransitionsAreReplacements(s1.rows, claimed, t);
    SettlementIsWritten(s1, r, claimed, Advance(claimed, t).value);
  }

  /** Without a connection the newer runner schedules a retry and sends nothing. */
  lemma UnconnectedRunnerRetries(s: System, r: nat, m: Mutation, at: string)
    requires At(s, r, Claimed(m)) && !s.runners[r].legacy && Current(s, m) && UnderWay(m)
    ensures Run(s, [Dispatch(r, false, at), CommitSettlement(r)])
         == Became(s, r, m, Retrying(m.lifecycle.attemptCount, at))
  {
    var e := Dispatch(r, false, at);
    assert Step(s, e) == Settles(s, r, m, ScheduleRetry(m, at).value);
    SettledBy(s, r, m, e, Transition.Retry(at));
  }

  /** The first four stretches of the newer runner; an update needs no preparation. */
  function Attempt(r: nat, key: Key, due: bool, connected: bool, prepared: Prepared, at: string): seq<Event> {
    [Begin(r, false, key, due, connected), Prepare(r, prepared), Claim(r, at), Dispatch(r, true, at)]
  }

  /** Exactly then a runner sends, exactly one request, under the next attempt count of its row. */
  predicate Sends(s: System, key: Key, due: bool, connected: bool, prepared: Prepared) {
    && key in s.rows && connected && Startable(s.rows[key], due)
    && (s.rows[key].payload.Send? ==> prepared.ReadyToSend?)
  }

  function Sent(s: System, r: nat, key: Key, legacy: bool): System
    requires key in s.rows
  {
    var m := InNextAttempt(s.rows[key]);
    s.(rows := s.rows[key := m],
       log := s.log + [Request(key, m.lifecycle.attemptCount, Outstanding)],
       runners := s.runners[r := Runner(legacy, Waiting(m, |s.log|))])
  }

  lemma RunnerSendsIff(s: System, r: nat, key: Key, due: bool, connected: bool, prepared: Prepared, at: string)
    requires RowsOk(s) && r !in s.runners
    ensures var s' := Run(s, Attempt(r, key, due, connected, prepared, at));
            if Sends(s, key, due, connected, prepared) then s' == Sent(s, r, key, false) else s'.log == s.log
  {
    RunFour(s, Begin(r, false, key, due, connected), Prepare(r, prepared), Claim(r, at), Dispatch(r, true, at));
    if Sends(s, key, due, connected, prepared) {
      AttemptIsSent(s, r, key, due, prepared, at);
    } else {
      NotClaimed(s, r, key, due, connected, prepared, at);
    }
  }

  lemma AttemptIsSent(s: System, r: nat, key: Key, due: bool, prepared: Prepared, at: string)
    requires RowsOk(s) && r !in s.runners && Sends(s, key, due, true, prepared)
    ensures Step(Step(Step(Step(s, Begin(r, false, key, due, true)), Prepare(r, prepared)), Claim(r, at)), Dispatch(r, true, at))
         == Sent(s, r, key, false)
  {
    var m := s.rows[key];
    ReadyToClaim(s, r, key, due, prepared);
    var s2 := Step(Step(s, Begin(r, false, key, due, true)), Prepare(r, prepared));
    RunOne(s2, Claim(r, at));
    ClaimTakesRow(s2, r, m, at);
    assert s2.runners[r := Runner(false, Claimed(InNextAttempt(m)))]
           == s.runners[r := Runner(false, Claimed(InNextAttempt(m)))];
    ClaimedIsSent(s, r, m, Runner(false, Claimed(InNextAttempt(m))), at);
  }

  lemma ReadyToClaim(s: System, r: nat, key: Key, due: bool, prepared: Prepared)
    requires RowsOk(s) && r !in s.runners && Sends(s, key, due, true, prepared)
    ensures Step(Step(s, Begin(r, false, key, due, true)), Prepare(r, prepared)) ==
            s.(runners := s.runners[r := Runner(false, Claiming(s.rows[key], ReadyToSend))])
  {
    var m := s.rows[key];
    var s1 := Step(s, Begin(r, false, key, due, true));
    assert s1 == s.(runners := s.runners[r := Runner(false, if m.payload.Send? then Preparing(m) else Claiming(m, ReadyToSend))]);
  }

  lemma ClaimedIsSent(s: System, r: nat, m: Mutation, runner: Runner, at: string)
    requires Current(s, m) && runner.pc == Claimed(InNextAttempt(m))
    ensures Step(s.(rows := s.rows[m.Key() := InNextAttempt(m)], runners := s.runners[r := runner]), Dispatch(r, true, at))
         == Sent(s, r, m.Key(), runner.legacy)
  {
  }

  lemma NotClaimed(s: System, r: nat, key: Key, due: bool, connected: bool, prepared: Prepared, at: string)
    requires RowsOk(s) && r !in s.runners && !Sends(s, key, due, connected, prepared)
    ensures var s3 := Step(Step(Step(s, Begin(r, false, key, due, connected)), Prepare(r, prepared)), Claim(r, at));
            s3.log == s.log && (r in s3.runners ==> !s3.runners[r].pc.Claimed?)
  {
    var first := Opening(s.rows, key, due, connected);
    var s1 := Step(s, Begin(r, false, key, due, connected));
    if first.None? {
      assert s1 == s;
    } else {
      var pc := if first.value.Preparing? then Claiming(first.value.m, prepared) else first.value;
      assert s1 == s.(runners := s.runners[r := Runner(false, first.value)]);
      assert Step(s1, Prepare(r, prepared)).runners[r] == Runner(false, pc);
      NotClaimedFrom(Step(s1, Prepare(r, prepared)), r, pc, at);
    }
  }

  lemma NotClaimedFrom(s: System, r: nat, pc: Pc, at: string)
    requires At(s, r, pc) && !pc.Claimed?
    requires pc.Claiming? ==> !Startable(pc.m, true) || !pc.prepared.ReadyToSend?
    requires pc.Claiming? && pc.m.lifecycle.Pending? ==> pc.m.lifecycle.attemptCount == 0
    ensures var s' := Step(s, Claim(r, at));
            s'.log == s.log && (r in s'.runners ==> !s'.runners[r].pc.Claimed?)
  {
  }

  /** The older runner sends only sends, and asks for no connection. */
  lemma LegacyRunnerSendsIff(s: System, r: nat, key: Key, due: bool, connected: bool, at: string)
    requires RowsOk(s) && r !in s.runners
    ensures var s' := Run(s, [Begin(r, true, key, due, connected), Claim(r, at), Dispatch(r, true, at)]);
            if key in s.rows && s.rows[key].payload.Send? && Startable(s.rows[key], due) then s' == Sent(s, r, key, true)
            else s'.log == s.log
  {
    var (a, b, c) := (Begin(r, true, key, due, connected), Claim(r, at), Dispatch(r, true, at));
    RunThree(s, a, b, c);
    if key in s.rows && s.rows[key].payload.Send? && Startable(s.rows[key], due) {
      LegacyAttemptIsSent(s, r, key, due, connected, at);
    } else {
      NotClaimedByLegacy(s, r, key, due, connected, at);
    }
  }

  lemma LegacyAttemptIsSent(s: System, r: nat, key: Key, due: bool, connected: bool, at: string)
    requires RowsOk(s) && r !in s.runners && key in s.rows && s.rows[key].payload.Send? && Startable(s.rows[key], due)
    ensures Step(Step(Step(s, Begin(r, true, key, due, connected)), Claim(r, at)), Dispatch(r, true, at))
            == Sent(s, r, key, true)
  {
    var m := s.rows[key];
    var s1 := s.(runners := s.runners[r := Runner(true, Claiming(m, ReadyToSend))]);
    assert Step(s, Begin(r, true, key, due, connected)) == s1;
    RunOne(s1, Claim(r, at));
    ClaimTakesRow(s1, r, m, at);
    assert s1.runners[r := Runner(true, Claimed(InNextAttempt(m)))]
           == s.runners[r := Runner(true, Claimed(InNextAttempt(m)))];
    ClaimedIsSent(s, r, m, Runner(true, Claimed(InNextAttempt(m))), at);
  }

  lemma NotClaimedByLegacy(s: System, r: nat, key: Key, due: bool, connected: bool, at: string)
    requires RowsOk(s) && r !in s.runners
    requires !(key in s.rows && s.rows[key].payload.Send? && Startable(s.rows[key], due))
    ensures var s2 := Step(Step(s, Begin(r, true, key, due, connected)), Claim(r, at));
            s2.log == s.log && (r in s2.runners ==> !s2.runners[r].pc.Claimed?)
  {
  }

  /** A row in flight is only ever reconciled, a confirmed one only removed, a failed one left
      alone, whether or not there is a connection. */
  lemma SettledRowIsNotStarted(s: System, r: nat, key: Key, due: bool, connected: bool)
    requires RowsOk(s) && r !in s.runners && key in s.rows
    ensures var m := s.rows[key];
            var s' := Run(s, [Begin(r, false, key, due, connected)]);
            && (m.lifecycle.InFlight? ==> s' == s.(runners := s.runners[r := Runner(false, Reconciling(m))]))
            && (m.lifecycle.Confirmed? ==> s' == s.(runners := s.runners[r := Runner(false, Removing(key))]))
            && (m.lifecycle.FailedTerminal? ==> s' == s)
  {
    RunOne(s, Begin(r, false, key, due, connected));
  }

  /** A mutation is staged once, as pending, under a key never used before. */
  lemma StagedOnce(s: System, m: Mutation)
    ensures Run(s, [Stage(m)]) ==
            if m.lifecycle == Pending(0) && m.Key() !in s.staged
            then s.(rows := s.rows[m.Key() := m], staged := s.staged[m.Key() := m.payload]) else s
  {
    RunOne(s, Stage(m));
  }
}
