/** The durable mutation record and its lifecycle: `src/domain/pending-mutation.ts`. */
module PendingMutations {
  import opened Base
  import opened SendIntents

  datatype Lifecycle =
    | Pending(attemptCount: nat)
    | InFlight(attemptCount: nat)
    | Retrying(attemptCount: nat, nextAttemptAt: string)
    | Confirmed(attemptCount: nat, confirmation: Option<ScopedId>)
    | FailedTerminal(attemptCount: nat)

  datatype Payload =
    | Send(intent: SendIntent)
    | Keyword(emailId: ScopedId, addKeywords: set<string>, removeKeywords: set<string>)
    | Membership(emailId: ScopedId, addMailboxes: seq<ScopedId>, removeMailboxes: seq<ScopedId>)

  datatype Mutation = Mutation(accountKey: string, mutationId: string, createdAt: string,
                               payload: Payload, lifecycle: Lifecycle)
  {
    function Key(): (string, string) { (accountKey, mutationId) }
  }

  predicate ValidKeywordChange(add: set<string>, remove: set<string>) {
    "" !in add + remove && add + remove != {} && add !! remove
  }

  predicate ValidMembershipChange(add: seq<ScopedId>, remove: seq<ScopedId>) {
    && (add != [] || remove != [])
    && NoDuplicates(add) && NoDuplicates(remove)
    && forall id <- add :: id !in remove
  }

  function MakeMutation(accountKey: string, mutationId: string, createdAt: string, payload: Payload): Result<Mutation> {
    var acceptable :=
      match payload
      case Send(intent) => intent.identityId.accountKey == accountKey
      case Keyword(id, add, remove) => id.accountKey == accountKey && ValidKeywordChange(add, remove)
      case Membership(id, add, remove) =>
        && id.accountKey == accountKey
        && ValidMembershipChange(add, remove)
        && forall mailbox <- add + remove :: mailbox.accountKey == accountKey;
    if acceptable then Ok(Mutation(accountKey, mutationId, createdAt, payload, Pending(0))) else Throw
  }

  ghost predicate Within(ids: seq<ScopedId>, account: string) {
    forall i :: 0 <= i < |ids| ==> ids[i].accountKey == account
  }

  ghost predicate Distinct(ids: seq<ScopedId>) {
    forall i, j :: 0 <= i < j < |ids| ==> ids[i] != ids[j]
  }

  lemma MembersWithin(add: seq<ScopedId>, remove: seq<ScopedId>, account: string)
    ensures (forall mailbox <- add + remove :: mailbox.accountKey == account)
            <==> Within(add, account) && Within(remove, account)
  {
    assert forall mailbox :: mailbox in add + remove <==> mailbox in add || mailbox in remove;
    assert forall i :: 0 <= i < |add| ==> add[i] in add + remove;
    assert forall i :: 0 <= i < |remove| ==> remove[i] in add + remove;
  }

  /** A mutation is made of exactly what concerns its own account and changes something, without
      taking back in one list what another list does; it starts pending, without an attempt. */
  lemma MadeIff(accountKey: string, mutationId: string, createdAt: string, payload: Payload)
    ensures var made := MakeMutation(accountKey, mutationId, createdAt, payload);
      && (made.Ok? <==>
            match payload
            case Send(intent) => intent.identityId.accountKey == accountKey
            case Keyword(id, add, remove) =>
              && id.accountKey == accountKey && (add != {} || remove != {})
              && forall k :: k in add || k in remove ==> k != "" && !(k in add && k in remove)
            case Membership(id, add, remove) =>
              && id.accountKey == accountKey && (add != [] || remove != []) && Within(add, accountKey)
              && Within(remove, accountKey) && Distinct(add) && Distinct(remove)
              && forall i, j :: 0 <= i < |add| && 0 <= j < |remove| ==> add[i] != remove[j])
      && (made.Ok? ==> made.value == Mutation(accountKey, mutationId, createdAt, payload, Pending(0)))
  {
    match payload
    case Send(_) =>
    case Keyword(_, add, remove) =>
      assert add + remove != {} <==> add != {} || remove != {} by {
        assert add == {} && remove == {} ==> add + remove == {};
        assert add != {} ==> exists k :: k in add && k in add + remove;
        assert remove != {} ==> exists k :: k in remove && k in add + remove;
      }
    case Membership(_, add, remove) =>
      MembersWithin(add, remove, accountKey);
      assert (forall id <- add :: id !in remove)
             <==> forall i, j :: 0 <= i < |add| && 0 <= j < |remove| ==> add[i] != remove[j] by {
        assert forall i :: 0 <= i < |add| ==> add[i] in add;
        assert forall j :: 0 <= j < |remove| ==> remove[j] in remove;
      }
  }

  predicate StartedAttemptCount(n: nat) {
    1 <= n <= MAX_SAFE_INTEGER
  }

  function StartAttempt(m: Mutation): Result<Mutation> {
    match m.lifecycle
    case Pending(n) =>
      if n != 0 then Throw else Ok(m.(lifecycle := InFlight(1)))
    case Retrying(n, _) =>
      if !StartedAttemptCount(n) || !StartedAttemptCount(n + 1) then Throw
      else Ok(m.(lifecycle := InFlight(n + 1)))
    case _ => Throw
  }

  function ScheduleRetry(m: Mutation, at: string): Result<Mutation> {
    if m.lifecycle.InFlight? && StartedAttemptCount(m.lifecycle.attemptCount)
    then Ok(m.(lifecycle := Retrying(m.lifecycle.attemptCount, at))) else Throw
  }

  function ConfirmUpdate(m: Mutation): Result<Mutation> {
    if !m.payload.Send? && m.lifecycle.InFlight? && StartedAttemptCount(m.lifecycle.attemptCount)
    then Ok(m.(lifecycle := Confirmed(m.lifecycle.attemptCount, None))) else Throw
  }

  function ConfirmSend(m: Mutation, emailId: ScopedId): Result<Mutation> {
    if m.payload.Send? && m.lifecycle.InFlight? && StartedAttemptCount(m.lifecycle.attemptCount)
       && emailId.accountKey == m.accountKey
    then Ok(m.(lifecycle := Confirmed(m.lifecycle.attemptCount, Some(emailId)))) else Throw
  }

  function FailTerminal(m: Mutation): Result<Mutation> {
    if m.lifecycle.InFlight? && StartedAttemptCount(m.lifecycle.attemptCount)
    then Ok(m.(lifecycle := FailedTerminal(m.lifecycle.attemptCount))) else Throw
  }

  datatype Transition = Start | Retry(at: string) | ConfirmAsSent(emailId: ScopedId) | ConfirmAsUpdated | Fail

  function Advance(m: Mutation, t: Transition): Result<Mutation> {
    match t
    case Start => StartAttempt(m)
    case Retry(at) => ScheduleRetry(m, at)
    case ConfirmAsSent(id) => ConfirmSend(m, id)
    case ConfirmAsUpdated => ConfirmUpdate(m)
    case Fail => FailTerminal(m)
  }

  /** A mutation after a sequence of transitions, none of which threw. */
  function Lifespan(m: Mutation, ts: seq<Transition>): Result<Mutation>
    decreases |ts|
  {
    if ts == [] then Ok(m)
    else
      var next := Advance(m, ts[0]);
      if next.Throw? then Throw else Lifespan(next.value, ts[1..])
  }
}
