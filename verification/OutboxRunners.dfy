/** The runners themselves, imperatively: the methods of `src/outbox/mutation-runner.ts` and
    `src/sync/outbox.ts`, cut at their awaits, over the store, the runners' local variables
    and the record of what was sent. Each is proved to be an event of `OutboxProtocol`, so
    everything proved about runs of events holds of them. */
module OutboxRunners {
  import opened Base
  import opened SendIntents
  import opened PendingMutations
  import opened MutationCas
  import opened RemoteErrors
  import opened OutboxProtocol
  import opened OutboxSafety

  predicate AttemptUnderWay(m: Mutation) {
    m.lifecycle.InFlight? && StartedAttemptCount(m.lifecycle.attemptCount)
  }

  /** Writing `next` in place of `m` succeeds on exactly the rows that still hold `m`, and
      changes that row alone. */
  ghost predicate CommitsUnlessOvertaken(m: Mutation, next: Mutation) {
    forall rows: Rows :: ReplaceIfCurrent(rows, m, next) ==
                         if m.Key() in rows && rows[m.Key()] == m then (rows[m.Key() := next], true) else (rows, false)
  }

  lemma SettlementCommits(m: Mutation, t: Transition)
    requires Advance(m, t).Ok?
    ensures CommitsUnlessOvertaken(m, Advance(m, t).value)
  {
    forall rows: Rows
      ensures ReplaceIfCurrent(rows, m, Advance(m, t).value) ==
              if m.Key() in rows && rows[m.Key()] == m then (rows[m.Key() := Advance(m, t).value], true) else (rows, false)
    {
      if m.Key() in rows {
        MutationsEqualExact(rows[m.Key()], m);
        if rows[m.Key()] == m {
          TransitionsAreReplacements(rows, m, t);
        }
      }
    }
  }

  class Outbox {
    var rows: Rows   // the engine's, written only by its atomic calls
    var runners: map<nat, Runner>
    var log: seq<Request>
    ghost var staged: map<Key, Payload>

    constructor ()
      ensures Snapshot() == INITIAL && Inv(Snapshot())
    {
      rows, runners, log, staged := map[], map[], [], map[];
    }

    ghost function Snapshot(): System
      reads this
    {
      System(rows, staged, runners, log)
    }

    twostate predicate Did(e: Event)
      reads this
    {
      Snapshot() == Step(old(Snapshot()), e)
    }

    /** The next place where a runner waits, or its end. */
    method Proceed(r: nat, pc: Option<Pc>)
      requires r in runners
      modifies this`runners
      ensures Snapshot() == Goto(old(Snapshot()), r, pc)
    {
      if pc.None? {
        runners := runners - {r};
      } else {
        runners := runners[r := runners[r].(pc := pc.value)];
      }
    }

    /** The engine's compare-and-swap, one atomic call. */
    method ReplacePendingMutationIfCurrent(expected: Mutation, next: Mutation) returns (ok: bool)
      modifies this`rows
      ensures (rows, ok) == ReplaceIfCurrent(old(rows), expected, next)
    {
      var result := ReplaceIfCurrent(rows, expected, next);
      rows := result.0;
      ok := result.1;
    }

    // ---- What a runner does next ----

    method SettleRetry(m: Mutation, at: string) returns (pc: Option<Pc>)
      ensures pc.Some? <==> AttemptUnderWay(m)
      ensures pc.Some? ==> pc.value == Settling(m, m.(lifecycle := Retrying(m.lifecycle.attemptCount, at)))
      ensures pc.Some? ==> CommitsUnlessOvertaken(m, pc.value.next)
    {
      var next := ScheduleRetry(m, at);
      if next.Throw? {
        return None;
      }
      SettlementCommits(m, Transition.Retry(at));
      pc := Some(Settling(m, next.value));
    }

    method SettleTerminal(m: Mutation) returns (pc: Option<Pc>)
      ensures pc.Some? <==> AttemptUnderWay(m)
      ensures pc.Some? ==> pc.value == Settling(m, m.(lifecycle := FailedTerminal(m.lifecycle.attemptCount)))
      ensures pc.Some? ==> CommitsUnlessOvertaken(m, pc.value.next)
    {
      var next := FailTerminal(m);
      if next.Throw? {
        return None;
      }
      SettlementCommits(m, Fail);
      pc := Some(Settling(m, next.value));
    }

    /** A send is confirmed by the id of the sent email, an update by itself. */
    method SettleConfirmed(m: Mutation, emailId: string) returns (pc: Option<Pc>)
      ensures pc.Some? <==> AttemptUnderWay(m) && (m.payload.Send? ==> emailId != "")
      ensures var confirmation := if m.payload.Send? then Some(ScopedId(m.accountKey, emailId)) else None;
              pc.Some? ==> pc.value == Settling(m, m.(lifecycle := Confirmed(m.lifecycle.attemptCount, confirmation)))
      ensures pc.Some? ==> CommitsUnlessOvertaken(m, pc.value.next)
    {
      if m.payload.Send? && emailId == "" {
        return None;
      }
      var transition := if m.payload.Send? then ConfirmAsSent(ScopedId(m.accountKey, emailId)) else ConfirmAsUpdated;
      var next := Advance(m, transition);
      if next.Throw? {
        return None;
      }
      SettlementCommits(m, transition);
      pc := Some(Settling(m, next.value));
    }

    method SettleRemoteFailure(m: Mutation, failure: SourceFailure, at: string) returns (pc: Option<Pc>)
      ensures pc == AfterFailure(m, failure, at)
    {
      if failure.NotConnected? {
        pc := SettleRetry(m, at);
        return;
      }
      if !failure.Remote? {
        return None;
      }
      var remote := failure.error;
      if remote.outcome.Unknown? || remote.retry.Reconcile? {
        return None;
      }
      if remote.outcome.KnownNotApplied? && (remote.retry.SafeImmediate? || remote.retry.SafeBackoff?) {
        pc := SettleRetry(m, at);
        return;
      }
      pc := SettleTerminal(m);
    }

    // ---- runMutation and processSendMutation, up to the claim ----

    method RunMutation(r: nat, key: Key, due: bool, connected: bool)
      requires r !in runners
      modifies this`runners
      ensures Did(Begin(r, false, key, due, connected))
    {
      if key !in rows {
        return;
      }
      var current := rows[key];
      match current.lifecycle {
        case Confirmed(_, _) =>
          runners := runners[r := Runner(false, Removing(key))];
          return;
        case FailedTerminal(_) =>
          return;
        case InFlight(_) =>
          runners := runners[r := Runner(false, Reconciling(current))];
          return;
        case Retrying(_, _) =>
          if !due {
            return;
          }
        case Pending(_) =>
      }
      if !connected {
        return;
      }
      if current.payload.Send? {
        runners := runners[r := Runner(false, Preparing(current))];
      } else {
        runners := runners[r := Runner(false, Claiming(current, ReadyToSend))];
      }
    }

    method ProcessSendMutation(r: nat, key: Key, due: bool)
      requires r !in runners
      modifies this`runners
      ensures Did(Begin(r, true, key, due, true))
    {
      if key !in rows || !rows[key].payload.Send? {
        return;
      }
      var current := rows[key];
      if current.lifecycle.Pending? || (current.lifecycle.Retrying? && due) {
        runners := runners[r := Runner(true, Claiming(current, ReadyToSend))];
      }
    }

    method SendPrepared(r: nat, prepared: Prepared)
      requires r in runners && runners[r].pc.Preparing?
      modifies this`runners
      ensures Did(Prepare(r, prepared))
    {
      Proceed(r, Some(Claiming(runners[r].pc.m, prepared)));
    }

    method ClaimAttempt(r: nat, at: string)
      requires r in runners && runners[r].pc.Claiming?
      modifies this`runners, this`rows
      ensures Did(Claim(r, at))
    {
      var current, prepared := runners[r].pc.m, runners[r].pc.prepared;
      var inFlight := StartAttempt(current);
      if inFlight.Throw? {
        Proceed(r, None);
        return;
      }
      var claimed := ReplacePendingMutationIfCurrent(current, inFlight.value);
      var next: Option<Pc> := None;
      if claimed {
        match prepared {
          case ReadyToSend => next := Some(Claimed(inFlight.value));
          case E2eeUnavailable => next := SettleRetry(inFlight.value, at);
          case E2eeRefused => next := SettleTerminal(inFlight.value);
        }
      }
      Proceed(r, next);
    }

    // ---- The remote operation ----

    /** `executeSend`, `executeKeyword`, `executeMembership` up to their await. */
    method ExecuteRemote(r: nat, connected: bool, at: string)
      requires r in runners && runners[r].pc.Claimed?
      modifies this`runners, this`log
      ensures Did(Dispatch(r, connected, at))
    {
      var m := runners[r].pc.m;
      if !runners[r].legacy && !connected {
        var pc := SettleRemoteFailure(m, NotConnected, at);
        Proceed(r, pc);
        return;
      }
      log := log + [Request(m.Key(), m.lifecycle.attemptCount, Outstanding)];
      Proceed(r, Some(Waiting(m, |log| - 1)));
    }

    method RemoteAnswered(r: nat, raw: Raw, current: bool, at: string)
      requires r in runners && runners[r].pc.Waiting? && Honest(Snapshot(), r, raw)
      modifies this`runners
      ensures Did(Respond(r, raw, current, at))
    {
      var m, legacy := runners[r].pc.m, runners[r].legacy;
      var pc: Option<Pc> := None;
      if !legacy && !current {
        pc := SettleRemoteFailure(m, Cancelled, at);
      } else {
        match raw {
          case Delivered(id) =>
            if !m.payload.Send? || id.Some? {
              pc := SettleConfirmed(m, if id.Some? then id.value else "");
            }
          case Threw =>
          case Failed(error) =>
            if legacy {
              pc := SettleKnownFailure(m, error, at);
            } else {
              pc := SettleRemoteFailure(m, Remote(error), at);
            }
        }
      }
      Proceed(r, pc);
    }

    /** `settleKnownFailure`, unless the failure is ambiguous. */
    method SettleKnownFailure(m: Mutation, error: RemoteError, at: string) returns (pc: Option<Pc>)
      ensures pc == AfterLegacyResponse(m, Failed(error), at)
    {
      if error.retry.Reconcile? || error.outcome.Unknown? {
        return None;
      }
      if error.retry.SafeImmediate? || error.retry.SafeBackoff? {
        pc := SettleRetry(m, at);
      } else {
        pc := SettleTerminal(m);
      }
    }

    // ---- Settling ----

    /** `replace`, and the first half of `confirmAndRemove`. */
    method SettlementWritten(r: nat)
      requires r in runners && runners[r].pc.Settling?
      modifies this`runners, this`rows
      ensures Did(CommitSettlement(r))
    {
      var current, next := runners[r].pc.m, runners[r].pc.next;
      var settled := ReplacePendingMutationIfCurrent(current, next);
      Proceed(r, if settled && next.lifecycle.Confirmed? then Some(Removing(next.Key())) else None);
    }

    method ConfirmedRemoved(r: nat)
      requires r in runners && runners[r].pc.Removing?
      modifies this`runners, this`rows
      ensures Did(Remove(r))
    {
      rows := RemoveConfirmed(rows, runners[r].pc.key).0;
      Proceed(r, None);
    }

    /** `reconcile`, once the evidence is in. */
    method Reconciled(r: nat, evidence: Evidence, at: string)
      requires r in runners && runners[r].pc.Reconciling?
      modifies this`runners
      ensures Did(ReconcileWith(r, evidence, at))
    {
      var m := runners[r].pc.m;
      var pc: Option<Pc> := None;
      match evidence {
        case Inconclusive =>
        case Applied(id) => pc := SettleConfirmed(m, id);
        case NotApplied =>
          if m.payload.Keyword? {
            pc := SettleRetry(m, at);
          }
        case TargetAbsent =>
          if m.payload.Keyword? {
            pc := SettleTerminal(m);
          }
      }
      Proceed(r, pc);
    }

    /** `reconcile` of a keyword change: the account was refreshed, or could not be, and the email
        was read. */
    method KeywordReconciled(r: nat, refreshed: bool, keywords: Option<set<string>>, at: string)
      requires r in runners && runners[r].pc.Reconciling? && runners[r].pc.m.payload.Keyword?
      modifies this`runners
      ensures var change := old(runners[r]).pc.m.payload;
              Did(ReconcileWith(r, if refreshed then KeywordEvidence(keywords, change.addKeywords, change.removeKeywords)
                                   else Inconclusive, at))
    {
      var change := runners[r].pc.m.payload;
      var evidence := Inconclusive;
      if refreshed {
        if keywords.None? {
          evidence := TargetAbsent;
        } else {
          var applied := (forall k <- change.addKeywords :: k in keywords.value)
                         && (forall k <- change.removeKeywords :: k !in keywords.value);
          evidence := if applied then Applied("") else NotApplied;
        }
      }
      Reconciled(r, evidence, at);
    }
  }
}
