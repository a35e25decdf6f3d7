/** The outbox guarantees over whole runs, from the empty system or from any reachable one. */
module OutboxTheorems {
  import opened Base
  import opened SendIntents
  import opened PendingMutations
  import opened MutationCas
  import opened RemoteErrors
  import opened OutboxProtocol
  import opened OutboxSafety

  /** However many runners, reconciliations and crashes interleave, of all requests ever
      sent for one staged message at most one is not refused; so it is applied at most once. */
  lemma AtMostOnceSend(events: seq<Event>, i: nat, j: nat)
    requires var s := Run(INITIAL, events);
             i < j < |s.log| && s.log[i].key == s.log[j].key && IsSend(s, s.log[i].key)
    ensures var s := Run(INITIAL, events);
            && (s.log[i].fate.Refused? || s.log[j].fate.Refused?)
            && !(s.log[i].fate.Accepted? && s.log[j].fate.Accepted?)
  {
    RunKeepsInv(INITIAL, events);
  }

  /** Of any kind of mutation, each attempt is dispatched by at most one runner, once. */
  lemma EachAttemptDispatchedOnce(events: seq<Event>, i: nat, j: nat)
    requires i < j < |Run(INITIAL, events).log|
    ensures var log := Run(INITIAL, events).log;
            log[i].key == log[j].key ==> log[i].attempt != log[j].attempt
  {
    RunKeepsInv(INITIAL, events);
  }

  // ---- No snapshot recurs ----

  ghost predicate RowAdvanced(s: System, s': System, k: Key) {
    && k in s'.staged
    && (k in s'.rows ==>
          && k in s.rows
          && Rank(s.rows[k].lifecycle) <= Rank(s'.rows[k].lifecycle)
          && (Rank(s.rows[k].lifecycle) == Rank(s'.rows[k].lifecycle) ==> s.rows[k] == s'.rows[k])
          && (Terminal(s.rows[k].lifecycle) ==> s.rows[k] == s'.rows[k]))
  }

  lemma ReplacementAdvancesRow(s: System, m: Mutation, next: Mutation, k: Key)
    requires RowsOk(s)
    ensures var (rows, ok) := ReplaceIfCurrent(s.rows, m, next);
            k in rows ==>
              && k in s.rows
              && (rows[k] == s.rows[k]
                  || (Rank(s.rows[k].lifecycle) < Rank(rows[k].lifecycle) && !Terminal(s.rows[k].lifecycle)))
  {
    if ReplaceIfCurrent(s.rows, m, next).1 {
      MutationsEqualExact(s.rows[m.Key()], m);
      AcceptedReplacementAdvances(s.rows, m, next);
    }
  }

  lemma ClaimAdvancesRow(s: System, r: nat, at: string, k: Key)
    requires RowsOk(s) && k in s.staged
    ensures RowAdvanced(s, Step(s, Claim(r, at)), k)
  {
    if r in s.runners && s.runners[r].pc.Claiming? && StartAttempt(s.runners[r].pc.m).Ok? {
      ReplacementAdvancesRow(s, s.runners[r].pc.m, StartAttempt(s.runners[r].pc.m).value, k);
    }
  }

  lemma SettlementAdvancesRow(s: System, r: nat, k: Key)
    requires RowsOk(s) && k in s.staged
    ensures RowAdvanced(s, Step(s, CommitSettlement(r)), k)
  {
    if r in s.runners && s.runners[r].pc.Settling? {
      ReplacementAdvancesRow(s, s.runners[r].pc.m, s.runners[r].pc.next, k);
    }
  }

  lemma StepAdvancesRow(s: System, e: Event, k: Key)
    requires RowsOk(s) && k in s.staged
    ensures RowAdvanced(s, Step(s, e), k)
  {
    match e
    case Claim(r, at) => ClaimAdvancesRow(s, r, at, k);
    case CommitSettlement(r) => SettlementAdvancesRow(s, r, k);
    case _ =>
  }

  /** Over any run a durable row only moves forward: an equal rank means the very same
      snapshot, a terminal row never changes again, a removed one never comes back. So a
      compare-and-swap that succeeds compares with what nobody has touched since the read. */
  lemma {:induction false} NoSnapshotRecurs(s: System, events: seq<Event>, k: Key)
    requires Inv(s) && k in s.staged
    ensures RowAdvanced(s, Run(s, events), k)
  {
    if events != [] {
      var before := Run(s, events[..|events| - 1]);
      NoSnapshotRecurs(s, events[..|events| - 1], k);
      RunKeepsInv(s, events[..|events| - 1]);
      StepAdvancesRow(before, events[|events| - 1], k);
    }
  }

  // ---- An ambiguous send is never sent again ----

  /** The send is in flight and whoever started this attempt is gone. */
  ghost predicate Abandoned(s: System, k: Key) {
    && IsSend(s, k) && k in s.rows && s.rows[k].lifecycle.InFlight?
    && forall r <- s.runners :: !OwnsAttempt(s.runners[r].pc, s.rows[k])
  }

  predicate OwnsAttempt(pc: Pc, row: Mutation) {
    && (Owns(pc) || pc.Settling?)
    && pc.m.Key() == row.Key() && pc.m.lifecycle.attemptCount == row.lifecycle.attemptCount
  }

  /** Somewhere in the run a reconciler found the message delivered. */
  ghost predicate FoundDelivered(s: System, events: seq<Event>, k: Key) {
    exists i :: 0 <= i < |events| && IsFinding(Run(s, events[..i]), events[i], k)
  }

  predicate IsFinding(s: System, e: Event, k: Key) {
    && e.ReconcileWith? && e.evidence.Applied?
    && e.r in s.runners && s.runners[e.r].pc.Reconciling? && s.runners[e.r].pc.m.Key() == k
  }

  ghost predicate Frozen(s: System, k: Key, row: Mutation, sent: nat, found: bool) {
    && IsSend(s, k) && row.Key() == k && row.lifecycle.InFlight?
    && sent <= |s.log| && (forall i :: sent <= i < |s.log| ==> s.log[i].key != k)
    && (k in s.rows ==>
          s.rows[k] == row || (found && s.rows[k].lifecycle.Confirmed? && s.rows[k].lifecycle.attemptCount == row.lifecycle.attemptCount))
    && (k !in s.rows ==> found)
    && (forall r <- s.runners :: FrozenRunner(s.runners[r].pc, row, found))
  }

  predicate FrozenRunner(pc: Pc, row: Mutation, found: bool) {
    && (pc.Claimed? ==> pc.m.Key() != row.Key())
    && (OwnsAttempt(pc, row) ==> pc.Settling? && pc.next.lifecycle.Confirmed? && found)
  }

  /** Rows advance, runner `r` moves on: the two ways in which an event can touch the row. */
  lemma CommittingKeepsFrozen(s: System, r: nat, m: Mutation, next: Mutation, pc: Option<Pc>,
                              k: Key, row: Mutation, sent: nat, found: bool)
    requires Inv(s) && Frozen(s, k, row, sent, found) && r in s.runners
    requires pc.Some? ==> FrozenRunner(pc.value, row, found)
    requires s.runners[r].pc == Settling(m, next) || (s.runners[r].pc.Claiming? && StartAttempt(m) == Ok(next))
    ensures Frozen(Goto(s.(rows := ReplaceIfCurrent(s.rows, m, next).0), r, pc), k, row, sent, found)
  {
    assert FrozenRunner(s.runners[r].pc, row, found);
    if ReplaceIfCurrent(s.rows, m, next).1 {
      MutationsEqualExact(s.rows[m.Key()], m);
      AcceptedReplacementAdvances(s.rows, m, next);
    }
  }

  lemma ClaimKeepsFrozen(s: System, r: nat, at: string, k: Key, row: Mutation, sent: nat, found: bool)
    requires Inv(s) && Frozen(s, k, row, sent, found)
    ensures Frozen(Step(s, Claim(r, at)), k, row, sent, found)
  {
    if r in s.runners && s.runners[r].pc.Claiming? && StartAttempt(s.runners[r].pc.m).Ok? {
      var m, next := s.runners[r].pc.m, StartAttempt(s.runners[r].pc.m).value;
      if ReplaceIfCurrent(s.rows, m, next).1 {
        MutationsEqualExact(s.rows[m.Key()], m);
        CommittingKeepsFrozen(s, r, m, next, AfterClaim(next, s.runners[r].pc.prepared, at), k, row, sent, found);
      }
    }
  }

  lemma SettlementKeepsFrozen(s: System, r: nat, k: Key, row: Mutation, sent: nat, found: bool)
    requires Inv(s) && Frozen(s, k, row, sent, found)
    ensures Frozen(Step(s, CommitSettlement(r)), k, row, sent, found)
  {
    if r in s.runners && s.runners[r].pc.Settling? {
      var pc := s.runners[r].pc;
      CommittingKeepsFrozen(s, r, pc.m, pc.next,
                            if ReplaceIfCurrent(s.rows, pc.m, pc.next).1 && pc.next.lifecycle.Confirmed?
                            then Some(Removing(pc.next.Key())) else None, k, row, sent, found);
    }
  }

  lemma GoingKeepsFrozen(s: System, r: nat, pc: Option<Pc>, k: Key, row: Mutation, sent: nat, found: bool)
    requires Frozen(s, k, row, sent, found) && r in s.runners
    requires pc.Some? ==> FrozenRunner(pc.value, row, found)
    ensures Frozen(Goto(s, r, pc), k, row, sent, found)
  {
  }

  lemma AnswerKeepsFrozen(s: System, r: nat, raw: Raw, current: bool, at: string,
                          k: Key, row: Mutation, sent: nat, found: bool)
    requires Inv(s) && Frozen(s, k, row, sent, found)
    ensures Frozen(Step(s, Respond(r, raw, current, at)), k, row, sent, found)
  {
    if r in s.runners && s.runners[r].pc.Waiting? {
      var m := s.runners[r].pc.m;
      var pc := if s.runners[r].legacy then AfterLegacyResponse(m, raw, at) else AfterResponse(m, raw, current, at);
      assert FrozenRunner(s.runners[r].pc, row, found);
      assert pc.Some? ==> FrozenRunner(pc.value, row, found) by {
        assert pc.Some? ==> pc.value.Settling? && pc.value.m == m;
      }
      GoingKeepsFrozen(s, r, pc, k, row, sent, found);
    }
  }

  lemma SendKeepsFrozen(s: System, r: nat, connected: bool, at: string, k: Key, row: Mutation, sent: nat, found: bool)
    requires Inv(s) && Frozen(s, k, row, sent, found)
    ensures Frozen(Step(s, Dispatch(r, connected, at)), k, row, sent, found)
  {
    if r in s.runners && s.runners[r].pc.Claimed? {
      assert FrozenRunner(s.runners[r].pc, row, found);
    }
  }

  lemma FindingKeepsFrozen(s: System, r: nat, evidence: Evidence, at: string, k: Key, row: Mutation, sent: nat,
                           found: bool)
    requires Inv(s) && Frozen(s, k, row, sent, found)
    ensures Frozen(Step(s, ReconcileWith(r, evidence, at)), k, row, sent,
                   found || IsFinding(s, ReconcileWith(r, evidence, at), k))
  {
    if r in s.runners && s.runners[r].pc.Reconciling? {
      assert HeldOk(s, s.runners[r].pc);
      var found' := found || IsFinding(s, ReconcileWith(r, evidence, at), k);
      var pc := AfterEvidence(s.runners[r].pc.m, evidence, at);
      assert pc.Some? ==> FrozenRunner(pc.value, row, found');
    }
  }

  lemma StepKeepsFrozen(s: System, e: Event, k: Key, row: Mutation, sent: nat, found: bool)
    requires Inv(s) && Frozen(s, k, row, sent, found)
    ensures Frozen(Step(s, e), k, row, sent, found || IsFinding(s, e, k))
  {
    match e
    case Claim(r, at) => ClaimKeepsFrozen(s, r, at, k, row, sent, found);
    case Dispatch(r, connected, at) => SendKeepsFrozen(s, r, connected, at, k, row, sent, found);
    case Respond(r, raw, current, at) => AnswerKeepsFrozen(s, r, raw, current, at, k, row, sent, found);
    case CommitSettlement(r) => SettlementKeepsFrozen(s, r, k, row, sent, found);
    case ReconcileWith(r, evidence, at) => FindingKeepsFrozen(s, r, evidence, at, k, row, sent, found);
    case Begin(r, legacy, key, due, connected) => OpeningKeepsFrozen(s, e, k, row, sent, found);
    case Remove(r) => RemovalKeepsFrozen(s, r, k, row, sent, found);
    case _ => OthersKeepFrozen(s, e, k, row, sent, found);
  }

  lemma OpeningKeepsFrozen(s: System, e: Event, k: Key, row: Mutation, sent: nat, found: bool)
    requires Frozen(s, k, row, sent, found) && e.Begin?
    ensures Frozen(Step(s, e), k, row, sent, found)
  {
  }

  lemma RemovalKeepsFrozen(s: System, r: nat, k: Key, row: Mutation, sent: nat, found: bool)
    requires Frozen(s, k, row, sent, found)
    ensures Frozen(Step(s, Remove(r)), k, row, sent, found)
  {
  }

  lemma OthersKeepFrozen(s: System, e: Event, k: Key, row: Mutation, sent: nat, found: bool)
    requires Inv(s) && Frozen(s, k, row, sent, found)
    requires e.Stage? || e.Prepare? || e.Accept? || e.Refuse? || e.Crash?
    ensures Frozen(Step(s, e), k, row, sent, found)
  {
  }

  lemma {:induction false} RunKeepsFrozen(s: System, events: seq<Event>, k: Key, row: Mutation, sent: nat)
    requires Inv(s) && Frozen(s, k, row, sent, false)
    ensures Frozen(Run(s, events), k, row, sent, FoundDelivered(s, events, k))
  {
    if events != [] {
      var n := |events| - 1;
      var found := FoundDelivered(s, events[..n], k);
      RunKeepsFrozen(s, events[..n], k, row, sent);
      RunKeepsInv(s, events[..n]);
      StepKeepsFrozen(Run(s, events[..n]), events[n], k, row, sent, found);
      if found {
        var i :| 0 <= i < |events[..n]| && IsFinding(Run(s, events[..n][..i]), events[..n][i], k);
        assert events[..n][..i] == events[..i];
        assert IsFinding(Run(s, events[..i]), events[i], k);
      }
      assert found || IsFinding(Run(s, events[..n]), events[n], k) ==> FoundDelivered(s, events, k);
    }
  }

  /** From an abandoned attempt on, no run ever sends the message again; its row stays as
      it is until a reconciler finds the message delivered, and then it is only confirmed
      and removed. */
  lemma AbandonedSendIsNeverResent(s: System, events: seq<Event>, k: Key)
    requires Inv(s) && Abandoned(s, k)
    ensures var s' := Run(s, events);
            && |s.log| <= |s'.log| && (forall i :: |s.log| <= i < |s'.log| ==> s'.log[i].key != k)
            && (!FoundDelivered(s, events, k) ==> k in s'.rows && s'.rows[k] == s.rows[k])
            && (k in s'.rows ==> s'.rows[k] == s.rows[k] || s'.rows[k].lifecycle.Confirmed?)
  {
    forall r | r in s.runners
      ensures FrozenRunner(s.runners[r].pc, s.rows[k], false)
    {
      assert HeldOk(s, s.runners[r].pc) && SendRunnerOk(s, s.runners[r].pc);
    }
    RunKeepsFrozen(s, events, k, s.rows[k], |s.log|);
  }

  predicate AmbiguousAnswer(legacy: bool, raw: Raw, current: bool) {
    || raw.Threw?
    || (raw.Failed? && raw.error.Ambiguous())
    || (raw.Delivered? && (raw.emailId.None? || raw.emailId.value == ""))
    || (!legacy && !current)
  }

  /** An answer that does not settle the question (an ambiguous error, an untyped throw, an
      acceptance without an id, a session replaced meanwhile) abandons the attempt. */
  lemma AmbiguityAbandons(s: System, r: nat, raw: Raw, current: bool, at: string)
    requires Inv(s) && r in s.runners && s.runners[r].pc.Waiting?
    requires var m := s.runners[r].pc.m; IsSend(s, m.Key()) && m.Key() in s.rows && s.rows[m.Key()] == m
    requires AmbiguousAnswer(s.runners[r].legacy, raw, current)
    requires forall q <- s.runners :: s.runners[q].pc.Settling? && s.runners[q].pc.next.lifecycle.Confirmed?
               ==> !OwnsAttempt(s.runners[q].pc, s.runners[r].pc.m)
    ensures Abandoned(Deliver(s, r, raw, current, at), s.runners[r].pc.m.Key())
  {
    var m := s.runners[r].pc.m;
    var s' := Deliver(s, r, raw, current, at);
    assert HeldOk(s, s.runners[r].pc);
    assert s' == s.(runners := s.runners - {r});
    forall q | q in s'.runners
      ensures !OwnsAttempt(s'.runners[q].pc, m)
    {
      assert Compatible(s, s.runners[q].pc, s.runners[r].pc);
      assert HeldOk(s, s.runners[q].pc);
    }
  }

  /** Exactly these answers leave a send in flight; every other one settles it. */
  lemma LeftInFlightIff(m: Mutation, legacy: bool, raw: Raw, current: bool, at: string)
    requires m.payload.Send? && m.lifecycle.InFlight? && StartedAttemptCount(m.lifecycle.attemptCount)
    ensures (if legacy then AfterLegacyResponse(m, raw, at) else AfterResponse(m, raw, current, at)) == None
       <==> AmbiguousAnswer(legacy, raw, current)
  {
  }

  /** The two runners settle a send alike on every answer, except that a safe retry for which no
      outcome is given is retried by the older one and final for the other. */
  lemma RunnersSettleAlikeIff(m: Mutation, raw: Raw, at: string)
    requires m.payload.Send? && m.lifecycle.InFlight? && StartedAttemptCount(m.lifecycle.attemptCount)
    ensures AfterResponse(m, raw, true, at) == AfterLegacyResponse(m, raw, at)
       <==> !(raw.Failed? && raw.error.RetrySafe() && raw.error.outcome.NotApplicable?)
  {
    if raw.Failed? && raw.error.RetrySafe() && raw.error.outcome.NotApplicable? {
      assert AfterResponse(m, raw, true, at).value.next.lifecycle.FailedTerminal?;
      assert AfterLegacyResponse(m, raw, at).value.next.lifecycle.Retrying?;
    }
  }

  // ---- The assumption is needed ----

  lemma RunSnoc(s: System, events: seq<Event>, e: Event)
    ensures Run(s, events + [e]) == Step(Run(s, events), e)
  {
    assert (events + [e])[..|events + [e]| - 1] == events;
  }

  /** The five events by which a runner that was lied to sends the message a second time. */
  function Resend(r: nat, key: Key, request: nat): seq<Event> {
    [CommitSettlement(r)] + [Begin(r, true, key, true, true)] + [Claim(r, "")] + [Dispatch(r, true, "")] + [Accept(request)]
  }

  lemma ResendRun(s: System, r: nat, key: Key, request: nat)
    ensures Run(s, Resend(r, key, request)) ==
            Step(Step(Step(Step(Step(s, CommitSettlement(r)), Begin(r, true, key, true, true)), Claim(r, "")),
                      Dispatch(r, true, "")), Accept(request))
  {
    var e := Resend(r, key, request);
    RunSnoc(s, [], e[0]);
    RunSnoc(s, [e[0]], e[1]);
    RunSnoc(s, [e[0]] + [e[1]], e[2]);
    RunSnoc(s, [e[0]] + [e[1]] + [e[2]], e[3]);
    RunSnoc(s, [e[0]] + [e[1]] + [e[2]] + [e[3]], e[4]);
    assert [] + [e[0]] == [e[0]];
  }

  lemma ReleaseAndReclaim(s: System, r: nat, m: Mutation, retry: Mutation, again: Mutation, at: string)
    requires r in s.runners && s.runners[r].pc == Settling(m, retry)
    requires m.payload.Send? && m.Key() in s.rows && s.rows[m.Key()] == m
    requires m.lifecycle.InFlight? && ScheduleRetry(m, at) == Ok(retry) && StartAttempt(retry) == Ok(again)
    ensures var s3 := Step(Step(Step(s, CommitSettlement(r)), Begin(r, true, m.Key(), true, true)), Claim(r, ""));
            r in s3.runners && s3.runners[r] == Runner(true, Claimed(again)) && s3.log == s.log
  {
    TransitionsAreReplacements(s.rows, m, Transition.Retry(at));
    var s1 := Step(s, CommitSettlement(r));
    assert s1 == s.(rows := s.rows[m.Key() := retry], runners := s.runners - {r});
    var s2 := Step(s1, Begin(r, true, m.Key(), true, true));
    assert s2 == s1.(runners := s1.runners[r := Runner(true, Claiming(retry, ReadyToSend))]);
    TransitionsAreReplacements(s2.rows, retry, Start);
  }

  lemma LateAcceptance(s: System, r: nat, m: Mutation)
    requires r in s.runners && s.runners[r] == Runner(true, Claimed(m))
    ensures Step(Step(s, Dispatch(r, true, "")), Accept(|s.log|)).log
         == s.log + [Request(m.Key(), m.lifecycle.attemptCount, Accepted)]
  {
  }

  lemma ToldToRetry(s: System, r: nat, error: RemoteError, at: string)
    requires r in s.runners && s.runners[r].pc.Waiting? && ScheduleRetry(s.runners[r].pc.m, at).Ok?
    requires error.RetrySafe() && error.outcome.KnownNotApplied?
    ensures var m := s.runners[r].pc.m;
            Deliver(s, r, Failed(error), true, at) ==
            s.(runners := s.runners[r := s.runners[r].(pc := Settling(m, ScheduleRetry(m, at).value))])
  {
  }

  /** Every failure that invites a retry must be truthful: if a runner is told to retry a
      message the remote did accept, the message can be accepted twice. `toNativeRemoteError`
      answers so whenever the native call fails without a typed error. */
  lemma UntruthfulRetryDuplicates(s: System, r: nat, error: RemoteError, at: string)
    requires Inv(s) && r in s.runners && s.runners[r].pc.Waiting?
    requires var pc := s.runners[r].pc;
             && IsSend(s, pc.m.Key()) && pc.m.Key() in s.rows && s.rows[pc.m.Key()] == pc.m
             && pc.m.lifecycle.attemptCount < MAX_SAFE_INTEGER
             && s.log[pc.request].fate.Accepted?
    requires error.RetrySafe() && error.outcome.KnownNotApplied?
    ensures var pc := s.runners[r].pc;
            var log := Run(Deliver(s, r, Failed(error), true, at), Resend(r, pc.m.Key(), |s.log|)).log;
            && |log| == |s.log| + 1
            && log[pc.request].fate.Accepted? && log[|s.log|].fate.Accepted?
            && log[pc.request].key == log[|s.log|].key == pc.m.Key()
  {
    var m := s.runners[r].pc.m;
    assert HeldOk(s, s.runners[r].pc);
    var retry := ScheduleRetry(m, at).value;
    var again := StartAttempt(retry).value;
    ToldToRetry(s, r, error, at);
    var s0 := Deliver(s, r, Failed(error), true, at);
    ReleaseAndReclaim(s0, r, m, retry, again, at);
    var s3 := Step(Step(Step(s0, CommitSettlement(r)), Begin(r, true, m.Key(), true, true)), Claim(r, ""));
    LateAcceptance(s3, r, again);
    ResendRun(s0, r, m.Key(), |s.log|);
  }
}
