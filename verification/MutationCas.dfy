/** The compare-and-swap that guards every lifecycle change: the comparison helpers of
    `src/adapters/memory/memory-sync-port.ts` and their counterparts in
    `src-tauri/src/persistence/engine.rs` and `model.rs`. */
module MutationCas {
  import opened Base
  import opened SendIntents
  import opened PendingMutations

  type Rows = map<(string, string), Mutation>

  // ---- The memory engine's field-by-field comparison ----

  predicate AddressListsEqual(left: seq<Address>, right: seq<Address>) {
    |left| == |right| &&
    forall i :: 0 <= i < |left| ==> left[i].name == right[i].name && left[i].email == right[i].email
  }

  predicate SendIntentsEqual(left: SendIntent, right: SendIntent) {
    && left.securityMode == right.securityMode
    && left.identityId == right.identityId
    && left.from.name == right.from.name && left.from.email == right.from.email
    && AddressListsEqual(left.replyTo, right.replyTo)
    && AddressListsEqual(left.to, right.to)
    && AddressListsEqual(left.cc, right.cc)
    && AddressListsEqual(left.bcc, right.bcc)
    && left.subject == right.subject
    && left.body.text == right.body.text
    && left.body.html == right.body.html
  }

  predicate LifecycleEqual(left: Lifecycle, right: Lifecycle) {
    if left.attemptCount != right.attemptCount then false
    else match (left, right)
      case (Retrying(_, at), Retrying(_, at')) => at == at'
      case (Confirmed(_, c), Confirmed(_, c')) =>
        if c.None? || c'.None? then c.None? && c'.None? else c.value == c'.value
      case (Pending(_), Pending(_)) => true
      case (InFlight(_), InFlight(_)) => true
      case (FailedTerminal(_), FailedTerminal(_)) => true
      case _ => false
  }

  predicate SetsEqual(left: set<string>, right: set<string>) {
    |left| == |right| && forall v <- left :: v in right
  }

  predicate MailboxIdsEqual(left: seq<ScopedId>, right: seq<ScopedId>) {
    |left| == |right| && forall i :: 0 <= i < |left| ==> left[i] == right[i]
  }

  predicate MutationsEqual(left: Mutation, right: Mutation) {
    && left.accountKey == right.accountKey
    && left.mutationId == right.mutationId
    && left.createdAt == right.createdAt
    && LifecycleEqual(left.lifecycle, right.lifecycle)
    && match (left.payload, right.payload)
       case (Send(i), Send(i')) => SendIntentsEqual(i, i')
       case (Keyword(id, add, remove), Keyword(id', add', remove')) =>
         id == id' && SetsEqual(add, add') && SetsEqual(remove, remove')
       case (Membership(id, add, remove), Membership(id', add', remove')) =>
         id == id' && MailboxIdsEqual(add, add') && MailboxIdsEqual(remove, remove')
       case _ => false
  }

  predicate SameImmutable(left: Mutation, right: Mutation) {
    MutationsEqual(left.(lifecycle := Pending(0)), right.(lifecycle := Pending(0)))
  }

  predicate ValidTransition(expected: Mutation, next: Mutation) {
    var from, to := expected.lifecycle, next.lifecycle;
    if from.Pending? then to.InFlight? && to.attemptCount == 1
    else if from.Retrying? then to.InFlight? && to.attemptCount == from.attemptCount + 1
    else if !from.InFlight? || to.attemptCount != from.attemptCount then false
    else to.Retrying? || to.Confirmed? || to.FailedTerminal?
  }

  /** The accepted replacement as an atomic step on the durable rows. */
  function ReplaceIfCurrent(rows: Rows, expected: Mutation, next: Mutation): (Rows, bool) {
    var key := expected.Key();
    if key !in rows || !MutationsEqual(rows[key], expected)
       || !SameImmutable(expected, next) || !ValidTransition(expected, next)
    then (rows, false)
    else (rows[key := next], true)
  }

  function RemoveConfirmed(rows: Rows, key: (string, string)): (Rows, bool) {
    if key !in rows || !rows[key].lifecycle.Confirmed? then (rows, false)
    else (rows - {key}, true)
  }

  // ---- The comparison is exact ----

  lemma SetsEqualExact(left: set<string>, right: set<string>)
    ensures SetsEqual(left, right) <==> left == right
  {
    if SetsEqual(left, right) {
      assert right == left + (right - left);
      assert |right| == |left| + |right - left|;
    }
  }

  /** The memory engine compares field by field, the native engine by derived equality:
      both decide the same thing, that the two snapshots are one value. */
  lemma MutationsEqualExact(left: Mutation, right: Mutation)
    ensures MutationsEqual(left, right) <==> left == right
  {
    match (left.payload, right.payload) {
      case (Keyword(_, add, remove), Keyword(_, add', remove')) =>
        SetsEqualExact(add, add');
        SetsEqualExact(remove, remove');
      case (Send(i), Send(i')) =>
        if SendIntentsEqual(i, i') {
          AddressListsExact(i.replyTo, i'.replyTo);
          AddressListsExact(i.to, i'.to);
          AddressListsExact(i.cc, i'.cc);
          AddressListsExact(i.bcc, i'.bcc);
        }
      case _ =>
    }
  }

  lemma AddressListsExact(left: seq<Address>, right: seq<Address>)
    requires AddressListsEqual(left, right)
    ensures left == right
  {
    forall i | 0 <= i < |left|
      ensures left[i] == right[i]
    {
    }
  }

  // ---- The native engine's side ----

  predicate ValidNativeLifecycle(l: Lifecycle) {
    if l.Pending? then l.attemptCount == 0
    else l.attemptCount > 0 && (l.Retrying? ==> l.nextAttemptAt != "")
  }

  /** `validate_mutation`, on records whose nested ids carry the record's own account
      (the native record stores the account once). */
  predicate ValidNativeMutation(m: Mutation) {
    && m.accountKey != "" && m.mutationId != "" && m.createdAt != ""
    && ValidNativeLifecycle(m.lifecycle)
    && match m.payload
       case Send(intent) =>
         && intent.identityId.jmapId != ""
         && !("*@" <= intent.from.email)
         && |intent.to| + |intent.cc| + |intent.bcc| != 0
         && (forall a <- [intent.from] + intent.replyTo + intent.to + intent.cc + intent.bcc :: UsableOutboundAddress(a))
         && (m.lifecycle.Confirmed? ==> m.lifecycle.confirmation.Some?)
       case Keyword(id, add, remove) =>
         && id.jmapId != "" && ValidKeywordChange(add, remove)
         && (m.lifecycle.Confirmed? ==> m.lifecycle.confirmation.None?)
       case Membership(id, add, remove) =>
         && id.jmapId != "" && ValidMembershipChange(add, remove)
         && forall mailbox <- add + remove :: mailbox.jmapId != ""
  }

  predicate ValidNativeTransition(a: Mutation, b: Mutation) {
    match (a.lifecycle, b.lifecycle)
    case (Pending(n), InFlight(n')) => n == 0 && n' == 1
    case (Retrying(n, _), InFlight(n')) => n > 0 && n' == n + 1
    case (InFlight(n), Retrying(n', _)) => n > 0 && n == n'
    case (InFlight(n), Confirmed(n', _)) => n > 0 && n == n'
    case (InFlight(n), FailedTerminal(n')) => n > 0 && n == n'
    case _ => false
  }

  function NativeReplaceIfCurrent(rows: Rows, expected: Mutation, next: Mutation): (Rows, bool) {
    if !ValidNativeMutation(expected) || !ValidNativeMutation(next) then (rows, false)
    else if expected.(lifecycle := next.lifecycle) != next || !ValidNativeTransition(expected, next) then (rows, false)
    else if expected.Key() !in rows || rows[expected.Key()] != expected then (rows, false)
    else (rows[expected.Key() := next], true)
  }

  /** On records the native validator accepts, the two engines are the same function;
      on any other proposal the native engine refuses. */
  lemma EnginesAgreeOnReplacement(rows: Rows, expected: Mutation, next: Mutation)
    ensures if ValidNativeMutation(expected) && ValidNativeMutation(next)
            then NativeReplaceIfCurrent(rows, expected, next) == ReplaceIfCurrent(rows, expected, next)
            else NativeReplaceIfCurrent(rows, expected, next) == (rows, false)
  {
    if expected.Key() in rows {
      MutationsEqualExact(rows[expected.Key()], expected);
    }
    MutationsEqualExact(expected.(lifecycle := Pending(0)), next.(lifecycle := Pending(0)));
  }

  // ---- Progress of an accepted replacement ----

  /** Attempt count first, then the phase within the attempt. */
  function Rank(l: Lifecycle): nat {
    4 * l.attemptCount +
    match l
    case Pending(_) => 0
    case InFlight(_) => 1
    case Retrying(_, _) => 2
    case Confirmed(_, _) => 3
    case FailedTerminal(_) => 3
  }

  predicate Terminal(l: Lifecycle) {
    l.Confirmed? || l.FailedTerminal?
  }

  /** An accepted replacement swaps exactly the row it compared, moves its lifecycle
      strictly forward, keeps everything else of it, and never leaves a terminal state. */
  lemma AcceptedReplacementAdvances(rows: Rows, expected: Mutation, next: Mutation)
    requires expected.lifecycle.Pending? ==> expected.lifecycle.attemptCount == 0
    requires ReplaceIfCurrent(rows, expected, next).1
    ensures expected.Key() in rows && rows[expected.Key()] == expected
    ensures ReplaceIfCurrent(rows, expected, next).0 == rows[expected.Key() := next]
    ensures next == expected.(lifecycle := next.lifecycle)
    ensures Rank(expected.lifecycle) < Rank(next.lifecycle)
    ensures !Terminal(expected.lifecycle)
  {
    MutationsEqualExact(rows[expected.Key()], expected);
    MutationsEqualExact(expected.(lifecycle := Pending(0)), next.(lifecycle := Pending(0)));
  }

  /** Every lifecycle function of the domain yields a replacement both engines accept. */
  lemma TransitionsAreReplacements(rows: Rows, m: Mutation, t: Transition)
    requires m.Key() in rows && rows[m.Key()] == m
    requires Advance(m, t).Ok?
    ensures ReplaceIfCurrent(rows, m, Advance(m, t).value) == (rows[m.Key() := Advance(m, t).value], true)
  {
    var next := Advance(m, t).value;
    MutationsEqualExact(rows[m.Key()], m);
    MutationsEqualExact(m.(lifecycle := Pending(0)), next.(lifecycle := Pending(0)));
  }
}
