/** Any number of mutation runners over one durable store, as a step system.

    `DefaultMutationRunner` (`src/outbox/mutation-runner.ts`) and the older `Outbox`
    (`src/sync/outbox.ts`) are asynchronous: between two awaits nothing else runs, at an
    await anything may. One event below is one such stretch, so a sequence of events is an
    interleaving. Engine calls are atomic and are the functions of `MutationCas`. An event
    that is not enabled leaves the system as it is. */
module OutboxProtocol {
  import opened Base
  import opened SendIntents
  import opened PendingMutations
  import opened MutationCas
  import opened RemoteErrors

  type Key = (string, string)

  /** What the outside world made of a request that was sent. */
  datatype Fate = Outstanding | Accepted | Refused

  /** One call of a remote mutation operation that reached the network. */
  datatype Request = Request(key: Key, attempt: nat, fate: Fate)

  datatype Prepared = ReadyToSend | E2eeUnavailable | E2eeRefused

  /** Where a runner stands: the await it is suspended at and the snapshot it holds. */
  datatype Pc =
    | Preparing(m: Mutation)
    | Claiming(m: Mutation, prepared: Prepared)
    | Claimed(m: Mutation)
    | Waiting(m: Mutation, request: nat)
    | Settling(m: Mutation, next: Mutation)
    | Removing(key: Key)
    | Reconciling(m: Mutation)

  datatype Runner = Runner(legacy: bool, pc: Pc)

  datatype System = System(
    rows: Rows,                  // durable
    staged: map<Key, Payload>,   // every mutation id ever staged, with what it asked for
    runners: map<nat, Runner>,   // volatile
    log: seq<Request>)           // everything ever sent, in order

  const INITIAL := System(map[], map[], map[], [])

  // ---- The remote side of one attempt ----

  /** How the session's remote operation ends. */
  datatype Raw = Delivered(emailId: Option<string>) | Failed(error: RemoteError) | Threw

  datatype SourceFailure = NotConnected | Cancelled | Remote(error: RemoteError) | UnexpectedFailure

  datatype SourceResult = Returned(emailId: Option<string>) | SourceThrew(failure: SourceFailure)

  /** `RemoteBodyCapabilityStore`: what the runner sees of an operation that was started;
      `current` says whether the session is still the active one when it ends. */
  function ThroughCapability(raw: Raw, current: bool): SourceResult {
    if !current then SourceThrew(Cancelled)
    else match raw
      case Delivered(id) => Returned(id)
      case Failed(e) => SourceThrew(Remote(e))
      case Threw => SourceThrew(UnexpectedFailure)
  }

  datatype Evidence = Inconclusive | Applied(emailId: string) | NotApplied | TargetAbsent

  // ---- The runners ----

  /** A throw while building the next snapshot ends the run and leaves the row alone. */
  function Settle(m: Mutation, next: Result<Mutation>): Option<Pc> {
    if next.Ok? then Some(Settling(m, next.value)) else None
  }

  function AfterDelivery(m: Mutation, emailId: Option<string>): Option<Pc> {
    if !m.payload.Send? then Settle(m, ConfirmUpdate(m))
    else if emailId.None? || emailId.value == "" then None
    else Settle(m, ConfirmSend(m, ScopedId(m.accountKey, emailId.value)))
  }

  /** `settleRemoteFailure` */
  function AfterFailure(m: Mutation, failure: SourceFailure, at: string): Option<Pc> {
    match failure
    case NotConnected => Settle(m, ScheduleRetry(m, at))
    case Cancelled => None
    case UnexpectedFailure => None
    case Remote(e) =>
      if e.Ambiguous() then None
      else if e.outcome.KnownNotApplied? && e.RetrySafe() then Settle(m, ScheduleRetry(m, at))
      else Settle(m, FailTerminal(m))
  }

  function AfterResponse(m: Mutation, raw: Raw, current: bool, at: string): Option<Pc> {
    match ThroughCapability(raw, current)
    case Returned(id) => AfterDelivery(m, id)
    case SourceThrew(f) => AfterFailure(m, f, at)
  }

  /** `processSendMutation` after `submit`, and `settleKnownFailure` */
  function AfterLegacyResponse(m: Mutation, raw: Raw, at: string): Option<Pc> {
    match raw
    case Delivered(id) => AfterDelivery(m, id)
    case Threw => None
    case Failed(e) =>
      if e.Ambiguous() then None
      else if e.RetrySafe() then Settle(m, ScheduleRetry(m, at))
      else Settle(m, FailTerminal(m))
  }

  /** The read at the start of `runMutation`, and what its lifecycle leads to. */
  function Opening(rows: Rows, key: Key, due: bool, connected: bool): Option<Pc> {
    if key !in rows then None
    else
      var m := rows[key];
      match m.lifecycle
      case Confirmed(_, _) => Some(Removing(key))
      case FailedTerminal(_) => None
      case InFlight(_) => Some(Reconciling(m))
      case _ =>
        if (m.lifecycle.Retrying? && !due) || !connected then None
        else if m.payload.Send? then Some(Preparing(m))
        else Some(Claiming(m, ReadyToSend))
  }

  /** `readCurrentSendMutation` */
  function LegacyOpening(rows: Rows, key: Key, due: bool): Option<Pc> {
    if key in rows && rows[key].payload.Send?
       && (rows[key].lifecycle.Pending? || (rows[key].lifecycle.Retrying? && due))
    then Some(Claiming(rows[key], ReadyToSend)) else None
  }

  function AfterClaim(m: Mutation, prepared: Prepared, at: string): Option<Pc> {
    match prepared
    case ReadyToSend => Some(Claimed(m))
    case E2eeUnavailable => Settle(m, ScheduleRetry(m, at))
    case E2eeRefused => Settle(m, FailTerminal(m))
  }

  function AfterEvidence(m: Mutation, evidence: Evidence, at: string): Option<Pc> {
    match evidence
    case Inconclusive => None
    case Applied(id) =>
      if !m.payload.Send? then Settle(m, ConfirmUpdate(m))
      else if id == "" then None
      else Settle(m, ConfirmSend(m, ScopedId(m.accountKey, id)))
    case NotApplied => if m.payload.Keyword? then Settle(m, ScheduleRetry(m, at)) else None
    case TargetAbsent => if m.payload.Keyword? then Settle(m, FailTerminal(m)) else None
  }

  /** What the refreshed email says of a keyword change that is left in flight; `None` if the email
      is gone. */
  function KeywordEvidence(keywords: Option<set<string>>, add: set<string>, remove: set<string>): Evidence {
    if keywords.None? then TargetAbsent
    else if (forall k <- add :: k in keywords.value) && (forall k <- remove :: k !in keywords.value) then Applied("")
    else NotApplied
  }

  // ---- Events ----

  datatype Event =
    | Stage(m: Mutation)
    | Begin(r: nat, legacy: bool, key: Key, due: bool, connected: bool)
    | Prepare(r: nat, prepared: Prepared)
    | Claim(r: nat, at: string)
    | Dispatch(r: nat, connected: bool, at: string)
    | Accept(i: nat)
    | Refuse(i: nat)
    | Respond(r: nat, raw: Raw, current: bool, at: string)
    | CommitSettlement(r: nat)
    | Remove(r: nat)
    | ReconcileWith(r: nat, evidence: Evidence, at: string)
    | Crash(r: nat)

  function Goto(s: System, r: nat, pc: Option<Pc>): System
    requires r in s.runners
  {
    if pc.None? then s.(runners := s.runners - {r})
    else s.(runners := s.runners[r := s.runners[r].(pc := pc.value)])
  }

  /** The remote answers runner `r`, with any answer whatever. */
  function Deliver(s: System, r: nat, raw: Raw, current: bool, at: string): System {
    if r !in s.runners || !s.runners[r].pc.Waiting? then s
    else
      var m := s.runners[r].pc.m;
      Goto(s, r, if s.runners[r].legacy then AfterLegacyResponse(m, raw, at)
                 else AfterResponse(m, raw, current, at))
  }

  /** The one assumption about the remote: a failure that invites a retry is reported only
      for a request that was not applied and never will be. */
  predicate Honest(s: System, r: nat, raw: Raw) {
    r in s.runners && s.runners[r].pc.Waiting? && s.runners[r].pc.request < |s.log| &&
    raw.Failed? && raw.error.InvitesRetry()
    ==> s.log[s.runners[r].pc.request].fate.Refused?
  }

  function Step(s: System, e: Event): System {
    match e
    case Stage(m) =>
      if m.lifecycle != Pending(0) || m.Key() in s.staged then s
      else s.(rows := s.rows[m.Key() := m], staged := s.staged[m.Key() := m.payload])
    case Begin(r, legacy, key, due, connected) =>
      if r in s.runners then s
      else
        var pc := if legacy then LegacyOpening(s.rows, key, due) else Opening(s.rows, key, due, connected);
        if pc.None? then s else s.(runners := s.runners[r := Runner(legacy, pc.value)])
    case Prepare(r, prepared) =>
      if r !in s.runners || !s.runners[r].pc.Preparing? then s
      else Goto(s, r, Some(Claiming(s.runners[r].pc.m, prepared)))
    case Claim(r, at) =>
      if r !in s.runners || !s.runners[r].pc.Claiming? then s
      else
        var pc := s.runners[r].pc;
        var next := StartAttempt(pc.m);
        if next.Throw? then Goto(s, r, None)
        else
          var (rows, claimed) := ReplaceIfCurrent(s.rows, pc.m, next.value);
          if claimed then Goto(s.(rows := rows), r, AfterClaim(next.value, pc.prepared, at))
          else Goto(s, r, None)
    case Dispatch(r, connected, at) =>
      if r !in s.runners || !s.runners[r].pc.Claimed? then s
      else
        var m := s.runners[r].pc.m;
        if !s.runners[r].legacy && !connected then Goto(s, r, AfterFailure(m, NotConnected, at))
        else Goto(s.(log := s.log + [Request(m.Key(), m.lifecycle.attemptCount, Outstanding)]),
                  r, Some(Waiting(m, |s.log|)))
    case Accept(i) =>
      if i < |s.log| && s.log[i].fate.Outstanding? then s.(log := s.log[i := s.log[i].(fate := Accepted)]) else s
    case Refuse(i) =>
      if i < |s.log| && s.log[i].fate.Outstanding? then s.(log := s.log[i := s.log[i].(fate := Refused)]) else s
    case Respond(r, raw, current, at) =>
      if Honest(s, r, raw) then Deliver(s, r, raw, current, at) else s
    case CommitSettlement(r) =>
      if r !in s.runners || !s.runners[r].pc.Settling? then s
      else
        var pc := s.runners[r].pc;
        var (rows, settled) := ReplaceIfCurrent(s.rows, pc.m, pc.next);
        Goto(s.(rows := rows), r,
             if settled && pc.next.lifecycle.Confirmed? then Some(Removing(pc.next.Key())) else None)
    case Remove(r) =>
      if r !in s.runners || !s.runners[r].pc.Removing? then s
      else Goto(s.(rows := RemoveConfirmed(s.rows, s.runners[r].pc.key).0), r, None)
    case ReconcileWith(r, evidence, at) =>
      if r !in s.runners || !s.runners[r].pc.Reconciling? then s
      else Goto(s, r, AfterEvidence(s.runners[r].pc.m, evidence, at))
    case Crash(r) =>
      s.(runners := s.runners - {r})
  }

  function Run(s: System, events: seq<Event>): System {
    if events == [] then s
    else Step(Run(s, events[..|events| - 1]), events[|events| - 1])
  }
}
