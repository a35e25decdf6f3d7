/** What every interleaving of runners, reconciliations and crashes keeps. */
module OutboxSafety {
  import opened Base
  import opened SendIntents
  import opened PendingMutations
  import opened MutationCas
  import opened RemoteErrors
  import opened OutboxProtocol

  // ---- The inductive invariant ----

  ghost predicate RowsOk(s: System) {
    forall k <- s.rows ::
      && k in s.staged
      && s.rows[k].Key() == k
      && s.rows[k].payload == s.staged[k]
      && (s.rows[k].lifecycle.Pending? <==> s.rows[k].lifecycle.attemptCount == 0)
  }

  ghost predicate LogOk(s: System) {
    && (forall i :: 0 <= i < |s.log| ==>
          && s.log[i].key in s.staged
          && s.log[i].attempt >= 1
          && (s.log[i].key in s.rows ==> s.log[i].attempt <= s.rows[s.log[i].key].lifecycle.attemptCount))
    && (forall i, j :: 0 <= i < j < |s.log| ==> s.log[i].key == s.log[j].key ==> s.log[i].attempt != s.log[j].attempt)
  }

  predicate HoldsAttempt(pc: Pc) {
    pc.Claimed? || pc.Waiting? || pc.Settling? || pc.Reconciling?
  }

  /** A snapshot held across an await is of a staged mutation, and never ahead of its row. */
  ghost predicate HeldOk(s: System, pc: Pc) {
    && (HoldsAttempt(pc) ==>
          && pc.m.Key() in s.staged
          && pc.m.payload == s.staged[pc.m.Key()]
          && pc.m.lifecycle.InFlight? && pc.m.lifecycle.attemptCount >= 1
          && (pc.m.Key() in s.rows ==> Rank(pc.m.lifecycle) <= Rank(s.rows[pc.m.Key()].lifecycle)))
    && (pc.Claimed? ==> NotSent(s, pc.m))
    && (pc.Waiting? ==> pc.request < |s.log| && s.log[pc.request].key == pc.m.Key()
                        && s.log[pc.request].attempt == pc.m.lifecycle.attemptCount)
  }

  ghost predicate NotSent(s: System, m: Mutation) {
    forall i :: 0 <= i < |s.log| ==> s.log[i].key == m.Key() ==> s.log[i].attempt != m.lifecycle.attemptCount
  }

  predicate IsSend(s: System, k: Key) {
    k in s.staged && s.staged[k].Send?
  }

  /** Nothing sent for `k` was or will be applied. */
  ghost predicate AllRefused(s: System, k: Key) {
    forall i :: 0 <= i < |s.log| ==> s.log[i].key == k ==> s.log[i].fate.Refused?
  }

  ghost predicate SendLogOk(s: System) {
    && (forall i :: 0 <= i < |s.log| && IsSend(s, s.log[i].key) && s.log[i].key in s.rows && !s.log[i].fate.Refused? ==>
          && s.rows[s.log[i].key].lifecycle.attemptCount == s.log[i].attempt
          && !s.rows[s.log[i].key].lifecycle.Retrying?)
    && (forall i, j :: 0 <= i < j < |s.log| ==> s.log[i].key == s.log[j].key && IsSend(s, s.log[i].key) ==>
          s.log[i].fate.Refused? || s.log[j].fate.Refused?)
  }

  /** The settlement of a send that would, if committed now, invite another attempt. */
  predicate ReleasesSend(s: System, pc: Pc) {
    && pc.Settling? && pc.next.lifecycle.Retrying? && IsSend(s, pc.m.Key())
    && pc.m.Key() in s.rows && s.rows[pc.m.Key()] == pc.m
  }

  /** A send is claimed only once all its earlier requests are refused, its row then waits
      for this claim alone, and a retry is scheduled only if nothing is left in the world. */
  ghost predicate SendRunnerOk(s: System, pc: Pc) {
    && (pc.Claimed? && IsSend(s, pc.m.Key()) ==>
          && AllRefused(s, pc.m.Key())
          && (pc.m.Key() in s.rows ==>
                var row := s.rows[pc.m.Key()];
                row == pc.m || (Terminal(row.lifecycle) && row.lifecycle.attemptCount == pc.m.lifecycle.attemptCount)))
    && (ReleasesSend(s, pc) ==> AllRefused(s, pc.m.Key()))
  }

  /** The runner that started an attempt, until it confirms it or lets go of it. */
  predicate Owns(pc: Pc) {
    pc.Claimed? || pc.Waiting? || (pc.Settling? && !pc.next.lifecycle.Confirmed?)
  }

  /** Two runners never own the same attempt, and the claim of a send stands alone. */
  predicate Compatible(s: System, pc: Pc, pc': Pc) {
    && (pc.Claimed? ==>
          && (pc'.Claimed? && pc.m.Key() == pc'.m.Key() ==>
                !IsSend(s, pc.m.Key()) && pc.m.lifecycle.attemptCount != pc'.m.lifecycle.attemptCount)
          && (ReleasesSend(s, pc') ==> pc.m.Key() != pc'.m.Key()))
    && (Owns(pc) && Owns(pc') && pc.m.Key() == pc'.m.Key() && IsSend(s, pc.m.Key()) ==>
          pc.m.lifecycle.attemptCount != pc'.m.lifecycle.attemptCount)
  }

  ghost predicate RunnersOk(s: System) {
    && (forall r <- s.runners :: HeldOk(s, s.runners[r].pc) && SendRunnerOk(s, s.runners[r].pc))
    && (forall r <- s.runners, r' <- s.runners :: r != r' ==> Compatible(s, s.runners[r].pc, s.runners[r'].pc))
  }

  ghost predicate Inv(s: System) {
    RowsOk(s) && LogOk(s) && SendLogOk(s) && RunnersOk(s)
  }

  // ---- Preservation, by what an event changes ----

  lemma LeavingKeepsInv(s: System, r: nat)
    requires Inv(s)
    ensures Inv(s.(runners := s.runners - {r}))
  {
    var s' := s.(runners := s.runners - {r});
    forall q | q in s'.runners
      ensures HeldOk(s', s'.runners[q].pc) && SendRunnerOk(s', s'.runners[q].pc)
    {
      assert HeldOk(s, s.runners[q].pc) && SendRunnerOk(s, s.runners[q].pc);
    }
    forall q, q' | q in s'.runners && q' in s'.runners && q != q'
      ensures Compatible(s', s'.runners[q].pc, s'.runners[q'].pc)
    {
      assert Compatible(s, s.runners[q].pc, s.runners[q'].pc);
    }
  }

  /** A runner moves on without claiming; the rest of the system is as it was. */
  lemma MovingKeepsInv(s: System, r: nat, runner: Runner)
    requires Inv(s)
    requires HeldOk(s, runner.pc) && SendRunnerOk(s, runner.pc)
    requires forall q <- s.runners :: q != r ==>
               Compatible(s, s.runners[q].pc, runner.pc) && Compatible(s, runner.pc, s.runners[q].pc)
    ensures Inv(s.(runners := s.runners[r := runner]))
  {
    var s' := s.(runners := s.runners[r := runner]);
    forall q | q in s'.runners
      ensures HeldOk(s', s'.runners[q].pc) && SendRunnerOk(s', s'.runners[q].pc)
    {
      assert q != r ==> HeldOk(s, s.runners[q].pc) && SendRunnerOk(s, s.runners[q].pc);
    }
    forall q, q' | q in s'.runners && q' in s'.runners && q != q'
      ensures Compatible(s', s'.runners[q].pc, s'.runners[q'].pc)
    {
      if q != r && q' != r {
        assert Compatible(s, s.runners[q].pc, s.runners[q'].pc);
      }
    }
  }

  /** A row advances under an accepted replacement. */
  lemma AdvancingKeepsInv(s: System, m: Mutation, next: Mutation)
    requires Inv(s) && ReplaceIfCurrent(s.rows, m, next).1
    requires IsSend(s, m.Key()) && next.lifecycle.Retrying? ==>
               AllRefused(s, m.Key()) && forall q <- s.runners :: s.runners[q].pc.Claimed? ==> s.runners[q].pc.m.Key() != m.Key()
    ensures ReplaceIfCurrent(s.rows, m, next).0 == s.rows[m.Key() := next]
    ensures m.Key() in s.rows && s.rows[m.Key()] == m && next.Key() == m.Key()
    ensures next.payload == m.payload && Rank(m.lifecycle) < Rank(next.lifecycle)
    ensures Inv(s.(rows := s.rows[m.Key() := next]))
  {
    MutationsEqualExact(s.rows[m.Key()], m);
    AcceptedReplacementAdvances(s.rows, m, next);
    AdvancedRunnersOk(s, m, next);
  }

  lemma AdvancedRunnersOk(s: System, m: Mutation, next: Mutation)
    requires RunnersOk(s)
    requires m.Key() in s.rows && s.rows[m.Key()] == m && next.Key() == m.Key()
    requires Rank(m.lifecycle) < Rank(next.lifecycle) && ValidTransition(m, next)
    requires IsSend(s, m.Key()) && next.lifecycle.Retrying? ==>
               forall q <- s.runners :: s.runners[q].pc.Claimed? ==> s.runners[q].pc.m.Key() != m.Key()
    ensures RunnersOk(s.(rows := s.rows[m.Key() := next]))
  {
    var s' := s.(rows := s.rows[m.Key() := next]);
    forall q | q in s'.runners
      ensures HeldOk(s', s'.runners[q].pc) && SendRunnerOk(s', s'.runners[q].pc)
    {
      var pc := s.runners[q].pc;
      assert HeldOk(s, pc) && SendRunnerOk(s, pc);
    }
    forall q, q' | q in s'.runners && q' in s'.runners && q != q'
      ensures Compatible(s', s'.runners[q].pc, s'.runners[q'].pc)
    {
      assert Compatible(s, s.runners[q].pc, s.runners[q'].pc);
      assert HeldOk(s, s.runners[q'].pc);
    }
  }

  lemma StageKeepsInv(s: System, m: Mutation)
    requires Inv(s)
    ensures Inv(Step(s, Stage(m)))
  {
    if Step(s, Stage(m)) != s {
      StagedRunnersOk(s, m);
    }
  }

  lemma StagedRunnersOk(s: System, m: Mutation)
    requires Inv(s) && m.Key() !in s.staged
    ensures RunnersOk(s.(rows := s.rows[m.Key() := m], staged := s.staged[m.Key() := m.payload]))
  {
    var s' := s.(rows := s.rows[m.Key() := m], staged := s.staged[m.Key() := m.payload]);
    forall q | q in s'.runners
      ensures HeldOk(s', s'.runners[q].pc) && SendRunnerOk(s', s'.runners[q].pc)
    {
      assert HeldOk(s, s.runners[q].pc) && SendRunnerOk(s, s.runners[q].pc);
    }
    forall q, q' | q in s'.runners && q' in s'.runners && q != q'
      ensures Compatible(s', s'.runners[q].pc, s'.runners[q'].pc)
    {
      assert Compatible(s, s.runners[q].pc, s.runners[q'].pc);
      assert HeldOk(s, s.runners[q].pc) && HeldOk(s, s.runners[q'].pc);
    }
  }

  /** While a send waits to be claimed, nothing of it is left and no one is about to send it. */
  lemma ClaimableIsQuiet(s: System, k: Key)
    requires Inv(s) && k in s.rows && IsSend(s, k)
    requires s.rows[k].lifecycle.Pending? || s.rows[k].lifecycle.Retrying?
    ensures AllRefused(s, k)
    ensures forall q <- s.runners :: s.runners[q].pc.Claimed? ==> s.runners[q].pc.m.Key() != k
  {
    forall q | q in s.runners && s.runners[q].pc.Claimed?
      ensures s.runners[q].pc.m.Key() != k
    {
      assert SendRunnerOk(s, s.runners[q].pc) && HeldOk(s, s.runners[q].pc);
    }
  }

  /** The claim takes the row in flight, ahead of every snapshot held anywhere. */
  lemma ClaimedRowKeepsInv(s: System, m: Mutation, next: Mutation)
    requires Inv(s) && StartAttempt(m) == Ok(next) && ReplaceIfCurrent(s.rows, m, next).1
    ensures m.Key() in s.rows && next.Key() == m.Key() && ReplaceIfCurrent(s.rows, m, next).0 == s.rows[m.Key() := next]
    ensures var t := s.(rows := s.rows[m.Key() := next]);
            && Inv(t) && NotSent(t, next) && HeldOk(t, Claimed(next)) && SendRunnerOk(t, Claimed(next))
            && forall q <- t.runners :: NotYetAt(t.runners[q].pc, next)
    ensures IsSend(s, m.Key()) ==> forall q <- s.runners :: s.runners[q].pc.Claimed? ==> s.runners[q].pc.m.Key() != m.Key()
  {
    AdvancingKeepsInv(s, m, next);
    if IsSend(s, m.Key()) {
      ClaimableIsQuiet(s, m.Key());
    }
    forall q | q in s.runners
      ensures NotYetAt(s.runners[q].pc, next)
    {
      assert HeldOk(s, s.runners[q].pc);
    }
  }

  predicate NotYetAt(pc: Pc, next: Mutation) {
    HoldsAttempt(pc) && pc.m.Key() == next.Key() ==> pc.m.lifecycle.attemptCount < next.lifecycle.attemptCount
  }

  lemma ClaimKeepsInv(s: System, r: nat, at: string)
    requires Inv(s)
    ensures Inv(Step(s, Claim(r, at)))
  {
    if r in s.runners && s.runners[r].pc.Claiming? {
      var pc := s.runners[r].pc;
      var next := StartAttempt(pc.m);
      LeavingKeepsInv(s, r);
      if next.Ok? && ReplaceIfCurrent(s.rows, pc.m, next.value).1 {
        ClaimedRowKeepsInv(s, pc.m, next.value);
        ClaimedKeepsInv(s.(rows := s.rows[pc.m.Key() := next.value]), r, next.value, pc.prepared, at);
      }
    }
  }

  lemma ClaimedKeepsInv(t: System, r: nat, m: Mutation, prepared: Prepared, at: string)
    requires Inv(t) && r in t.runners
    requires m.Key() in t.rows && t.rows[m.Key()] == m && m.lifecycle.InFlight?
    requires HeldOk(t, Claimed(m)) && SendRunnerOk(t, Claimed(m))
    requires forall q <- t.runners :: NotYetAt(t.runners[q].pc, m)
    requires IsSend(t, m.Key()) ==> forall q <- t.runners :: t.runners[q].pc.Claimed? ==> t.runners[q].pc.m.Key() != m.Key()
    ensures Inv(Goto(t, r, AfterClaim(m, prepared, at)))
  {
    LeavingKeepsInv(t, r);
    var pc := AfterClaim(m, prepared, at);
    if pc.Some? {
      forall q | q in t.runners && q != r
        ensures Compatible(t, t.runners[q].pc, pc.value) && Compatible(t, pc.value, t.runners[q].pc)
      {
        assert NotYetAt(t.runners[q].pc, m) && HeldOk(t, t.runners[q].pc);
      }
      MovingKeepsInv(t, r, t.runners[r].(pc := pc.value));
    }
  }

  /** One more request, for an attempt nobody else holds. */
  lemma AppendingKeepsInv(s: System, m: Mutation)
    requires Inv(s) && HeldOk(s, Claimed(m)) && SendRunnerOk(s, Claimed(m))
    requires forall q <- s.runners :: Compatible(s, Claimed(m), s.runners[q].pc)
    ensures Inv(WithRequest(s, m))
  {
    AppendedLogOk(s, m);
    AppendedRunnersOk(s, m);
  }

  lemma AppendedLogOk(s: System, m: Mutation)
    requires Inv(s) && HeldOk(s, Claimed(m)) && SendRunnerOk(s, Claimed(m))
    ensures LogOk(WithRequest(s, m)) && SendLogOk(WithRequest(s, m))
  {
  }

  function WithRequest(s: System, m: Mutation): System {
    s.(log := s.log + [Request(m.Key(), m.lifecycle.attemptCount, Outstanding)])
  }

  lemma AppendedRunnersOk(s: System, m: Mutation)
    requires RunnersOk(s)
    requires forall q <- s.runners :: Compatible(s, Claimed(m), s.runners[q].pc)
    ensures RunnersOk(WithRequest(s, m))
  {
    var s' := WithRequest(s, m);
    forall q | q in s'.runners
      ensures HeldOk(s', s'.runners[q].pc) && SendRunnerOk(s', s'.runners[q].pc)
    {
      assert HeldOk(s, s.runners[q].pc) && SendRunnerOk(s, s.runners[q].pc);
      assert Compatible(s, Claimed(m), s.runners[q].pc);
    }
    forall q, q' | q in s'.runners && q' in s'.runners && q != q'
      ensures Compatible(s', s'.runners[q].pc, s'.runners[q'].pc)
    {
      assert Compatible(s, s.runners[q].pc, s.runners[q'].pc);
    }
  }

  /** Exactly one request goes out under a claim, when all earlier ones are known refused. */
  lemma SendingKeepsInv(s: System, r: nat)
    requires Inv(s) && r in s.runners && s.runners[r].pc.Claimed?
    ensures var m := s.runners[r].pc.m;
            Inv(Goto(s.(log := s.log + [Request(m.Key(), m.lifecycle.attemptCount, Outstanding)]),
                     r, Some(Waiting(m, |s.log|))))
  {
    var m := s.runners[r].pc.m;
    var away := s.(runners := s.runners - {r});
    LeavingKeepsInv(s, r);
    forall q | q in away.runners
      ensures Compatible(away, Claimed(m), away.runners[q].pc)
    {
      assert Compatible(s, s.runners[r].pc, s.runners[q].pc);
    }
    assert HeldOk(s, s.runners[r].pc) && SendRunnerOk(s, s.runners[r].pc);
    AppendingKeepsInv(away, m);
    var sent := WithRequest(away, m);
    var waiting := s.runners[r].(pc := Waiting(m, |s.log|));
    MovingKeepsInv(sent, r, waiting);
    assert sent.runners[r := waiting] == s.runners[r := waiting];
  }

  lemma DispatchKeepsInv(s: System, r: nat, connected: bool, at: string)
    requires Inv(s)
    ensures Inv(Step(s, Dispatch(r, connected, at)))
  {
    if r in s.runners && s.runners[r].pc.Claimed? {
      var m := s.runners[r].pc.m;
      assert HeldOk(s, s.runners[r].pc) && SendRunnerOk(s, s.runners[r].pc);
      if !s.runners[r].legacy && !connected {
        LeavingKeepsInv(s, r);
        var pc := AfterFailure(m, NotConnected, at);
        if pc.Some? {
          MovingKeepsInv(s, r, s.runners[r].(pc := pc.value));
        }
      } else {
        SendingKeepsInv(s, r);
      }
    }
  }

  lemma FateKeepsInv(s: System, i: nat, fate: Fate)
    requires Inv(s) && i < |s.log| && s.log[i].fate.Outstanding?
    ensures Inv(s.(log := s.log[i := s.log[i].(fate := fate)]))
  {
    var s' := s.(log := s.log[i := s.log[i].(fate := fate)]);
    forall q | q in s'.runners
      ensures HeldOk(s', s'.runners[q].pc) && SendRunnerOk(s', s'.runners[q].pc)
    {
      assert HeldOk(s, s.runners[q].pc) && SendRunnerOk(s, s.runners[q].pc);
    }
    forall q, q' | q in s'.runners && q' in s'.runners && q != q'
      ensures Compatible(s', s'.runners[q].pc, s'.runners[q'].pc)
    {
      assert Compatible(s, s.runners[q].pc, s.runners[q'].pc);
    }
  }

  /** What runner `r` goes on with after an answer. */
  function Answered(s: System, r: nat, raw: Raw, current: bool, at: string): Option<Pc>
    requires r in s.runners && s.runners[r].pc.Waiting?
  {
    if s.runners[r].legacy then AfterLegacyResponse(s.runners[r].pc.m, raw, at)
    else AfterResponse(s.runners[r].pc.m, raw, current, at)
  }

  /** It is a settlement, and one that retries a send only if nothing of it is left. */
  lemma AnsweredPcOk(s: System, r: nat, raw: Raw, current: bool, at: string)
    requires Inv(s) && r in s.runners && s.runners[r].pc.Waiting? && Honest(s, r, raw)
    ensures var pc := Answered(s, r, raw, current, at);
            pc.Some? ==> pc.value.Settling? && pc.value.m == s.runners[r].pc.m
                         && HeldOk(s, pc.value) && SendRunnerOk(s, pc.value)
  {
    assert HeldOk(s, s.runners[r].pc);
  }

  /** A settlement by the one that waited goes with whatever the others are at. */
  lemma SettlingIsCompatible(s: System, r: nat, pc: Pc)
    requires Inv(s) && r in s.runners && s.runners[r].pc.Waiting? && pc.Settling? && pc.m == s.runners[r].pc.m
    ensures forall q <- s.runners :: q != r ==> Compatible(s, s.runners[q].pc, pc) && Compatible(s, pc, s.runners[q].pc)
  {
    assert HeldOk(s, s.runners[r].pc);
    forall q | q in s.runners && q != r
      ensures Compatible(s, s.runners[q].pc, pc) && Compatible(s, pc, s.runners[q].pc)
    {
      assert SendRunnerOk(s, s.runners[q].pc) && HeldOk(s, s.runners[q].pc);
      assert Compatible(s, s.runners[q].pc, s.runners[r].pc) && Compatible(s, s.runners[r].pc, s.runners[q].pc);
    }
  }

  /** A runner that got an honest answer may release the send for another attempt. */
  lemma RespondKeepsInv(s: System, r: nat, raw: Raw, current: bool, at: string)
    requires Inv(s)
    ensures Inv(Step(s, Respond(r, raw, current, at)))
  {
    if r in s.runners && s.runners[r].pc.Waiting? && Honest(s, r, raw) {
      var pc := Answered(s, r, raw, current, at);
      LeavingKeepsInv(s, r);
      AnsweredPcOk(s, r, raw, current, at);
      if pc.Some? {
        SettlingIsCompatible(s, r, pc.value);
        MovingKeepsInv(s, r, s.runners[r].(pc := pc.value));
      }
    }
  }

  lemma CommitKeepsInv(s: System, r: nat)
    requires Inv(s)
    ensures Inv(Step(s, CommitSettlement(r)))
  {
    if r in s.runners && s.runners[r].pc.Settling? {
      var pc := s.runners[r].pc;
      if ReplaceIfCurrent(s.rows, pc.m, pc.next).1 {
        MutationsEqualExact(s.rows[pc.m.Key()], pc.m);
        assert SendRunnerOk(s, pc);
        forall q | q in s.runners && IsSend(s, pc.m.Key()) && pc.next.lifecycle.Retrying? && s.runners[q].pc.Claimed?
          ensures s.runners[q].pc.m.Key() != pc.m.Key()
        {
          assert Compatible(s, s.runners[q].pc, s.runners[r].pc);
        }
        AdvancingKeepsInv(s, pc.m, pc.next);
        var t := s.(rows := s.rows[pc.m.Key() := pc.next]);
        LeavingKeepsInv(t, r);
        MovingKeepsInv(t, r, t.runners[r].(pc := Removing(pc.next.Key())));
      } else {
        LeavingKeepsInv(s, r);
      }
    }
  }

  lemma RemoveKeepsInv(s: System, r: nat)
    requires Inv(s)
    ensures Inv(Step(s, Remove(r)))
  {
    if r in s.runners && s.runners[r].pc.Removing? {
      var t := s.(rows := RemoveConfirmed(s.rows, s.runners[r].pc.key).0);
      forall q | q in t.runners
        ensures HeldOk(t, t.runners[q].pc) && SendRunnerOk(t, t.runners[q].pc)
      {
        assert HeldOk(s, s.runners[q].pc) && SendRunnerOk(s, s.runners[q].pc);
      }
      forall q, q' | q in t.runners && q' in t.runners && q != q'
        ensures Compatible(t, t.runners[q].pc, t.runners[q'].pc)
      {
        assert Compatible(s, s.runners[q].pc, s.runners[q'].pc);
      }
      LeavingKeepsInv(t, r);
    }
  }

  lemma ReconcileKeepsInv(s: System, r: nat, evidence: Evidence, at: string)
    requires Inv(s)
    ensures Inv(Step(s, ReconcileWith(r, evidence, at)))
  {
    if r in s.runners && s.runners[r].pc.Reconciling? {
      var pc := AfterEvidence(s.runners[r].pc.m, evidence, at);
      LeavingKeepsInv(s, r);
      assert HeldOk(s, s.runners[r].pc);
      if pc.Some? {
        MovingKeepsInv(s, r, s.runners[r].(pc := pc.value));
      }
    }
  }

  lemma BeginKeepsInv(s: System, r: nat, legacy: bool, key: Key, due: bool, connected: bool)
    requires Inv(s)
    ensures Inv(Step(s, Begin(r, legacy, key, due, connected)))
  {
    var pc := if legacy then LegacyOpening(s.rows, key, due) else Opening(s.rows, key, due, connected);
    if r !in s.runners && pc.Some? {
      MovingKeepsInv(s, r, Runner(legacy, pc.value));
    }
  }

  lemma StepKeepsInv(s: System, e: Event)
    requires Inv(s)
    ensures Inv(Step(s, e))
  {
    match e
    case Stage(m) => StageKeepsInv(s, m);
    case Begin(r, legacy, key, due, connected) => BeginKeepsInv(s, r, legacy, key, due, connected);
    case Prepare(r, prepared) =>
      if r in s.runners && s.runners[r].pc.Preparing? {
        MovingKeepsInv(s, r, s.runners[r].(pc := Claiming(s.runners[r].pc.m, prepared)));
      }
    case Claim(r, at) => ClaimKeepsInv(s, r, at);
    case Dispatch(r, connected, at) => DispatchKeepsInv(s, r, connected, at);
    case Accept(i) => if i < |s.log| && s.log[i].fate.Outstanding? { FateKeepsInv(s, i, Accepted); }
    case Refuse(i) => if i < |s.log| && s.log[i].fate.Outstanding? { FateKeepsInv(s, i, Refused); }
    case Respond(r, raw, current, at) => RespondKeepsInv(s, r, raw, current, at);
    case CommitSettlement(r) => CommitKeepsInv(s, r);
    case Remove(r) => RemoveKeepsInv(s, r);
    case ReconcileWith(r, evidence, at) => ReconcileKeepsInv(s, r, evidence, at);
    case Crash(r) => LeavingKeepsInv(s, r);
  }

  lemma {:induction false} RunKeepsInv(s: System, events: seq<Event>)
    requires Inv(s)
    ensures Inv(Run(s, events))
  {
    if events != [] {
      RunKeepsInv(s, events[..|events| - 1]);
      StepKeepsInv(Run(s, events[..|events| - 1]), events[|events| - 1]);
    }
  }
}
