/** Pending mutations on their way to and from the native side: the mutation codec of
    `src/adapters/tauri/domain-ipc-codecs.ts`. A wire value is unchecked data: an id may be
    empty, a list may repeat itself, a status may be any text. */
module MutationCodec {
  import opened Base
  import opened SendIntents
  import opened PendingMutations
  import opened MutationCas

  datatype WireLifecycle = WireLifecycle(status: string, attemptCount: int, nextAttemptAt: Option<string>,
                                         confirmation: Option<ScopedId>)

  datatype WirePayload =
    | WireSend(intent: SendIntent)
    | WireKeyword(emailId: ScopedId, addKeywords: seq<string>, removeKeywords: seq<string>)
    | WireMembership(emailId: ScopedId, addMailboxes: seq<ScopedId>, removeMailboxes: seq<ScopedId>)

  datatype WireMutation = WireMutation(accountKey: string, mutationId: string, createdAt: string,
                                       payload: WirePayload, lifecycle: WireLifecycle)

  // ---- Encoding ----

  function EncodeLifecycle(l: Lifecycle): WireLifecycle {
    match l
    case Pending(_) => WireLifecycle("pending", 0, None, None)
    case InFlight(n) => WireLifecycle("inFlight", n, None, None)
    case Retrying(n, at) => WireLifecycle("retrying", n, Some(at), None)
    case Confirmed(n, confirmation) => WireLifecycle("confirmed", n, None, confirmation)
    case FailedTerminal(n) => WireLifecycle("failedTerminal", n, None, None)
  }

  /** A set is written out in some order, each element once. */
  ghost predicate Enumerates(list: seq<string>, elements: set<string>) {
    NoDuplicates(list) && forall x :: x in list <==> x in elements
  }

  ghost predicate EncodesPayload(p: Payload, w: WirePayload) {
    match (p, w)
    case (Send(intent), WireSend(intent')) => intent == intent'
    case (Keyword(id, add, remove), WireKeyword(id', add', remove')) => id == id' && Enumerates(add', add) && Enumerates(remove', remove)
    case (Membership(id, add, remove), WireMembership(id', add', remove')) => id == id' && add == add' && remove == remove'
    case _ => false
  }

  ghost predicate Encodes(m: Mutation, w: WireMutation) {
    && w.accountKey == m.accountKey && w.mutationId == m.mutationId && w.createdAt == m.createdAt
    && EncodesPayload(m.payload, w.payload)
    && w.lifecycle == EncodeLifecycle(m.lifecycle)
  }

  // ---- Decoding ----

  predicate ValidId(id: ScopedId) {
    id.accountKey != "" && id.jmapId != ""
  }

  function DecodeSendIntent(value: SendIntent): Result<SendIntent> {
    if value.from.name.None? || !ValidId(value.identityId) || value.from.email == "" then Throw
    else BuildSendIntent(value.securityMode, PersistedIdentity(value), value.to, value.cc, value.bcc, value.subject, value.body)
  }

  /** `keywordSet` */
  function DecodeKeywords(list: seq<string>): Result<set<string>> {
    if "" in list then Throw else Ok(set k | k in list)
  }

  function DecodePayload(w: WirePayload): Result<Payload> {
    match w
    case WireSend(intent) =>
      var decoded := DecodeSendIntent(intent);
      if decoded.Throw? then Throw else Ok(Send(decoded.value))
    case WireKeyword(id, add, remove) =>
      var addKeywords, removeKeywords := DecodeKeywords(add), DecodeKeywords(remove);
      if !ValidId(id) || addKeywords.Throw? || removeKeywords.Throw? then Throw
      else Ok(Keyword(id, addKeywords.value, removeKeywords.value))
    case WireMembership(id, add, remove) =>
      if !ValidId(id) || exists mailbox <- add + remove :: !ValidId(mailbox) then Throw else Ok(Membership(id, add, remove))
  }

  function DecodeLifecycle(w: WireLifecycle, owner: string, send: bool): Result<Lifecycle> {
    if w.status == "pending" then if w.attemptCount == 0 then Ok(Pending(0)) else Throw
    else if !(1 <= w.attemptCount <= MAX_SAFE_INTEGER) then Throw
    else if w.status == "retrying" then
      if w.nextAttemptAt.None? || w.nextAttemptAt.value == "" then Throw else Ok(Retrying(w.attemptCount, w.nextAttemptAt.value))
    else if w.status == "confirmed" then
      if !send then Ok(Confirmed(w.attemptCount, None))
      else if w.confirmation.None? || !ValidId(w.confirmation.value) || w.confirmation.value.accountKey != owner then Throw
      else Ok(Confirmed(w.attemptCount, w.confirmation))
    else if w.status == "inFlight" then Ok(InFlight(w.attemptCount))
    else if w.status == "failedTerminal" then Ok(FailedTerminal(w.attemptCount))
    else Throw
  }

  function Decode(w: WireMutation): Result<Mutation> {
    if w.accountKey == "" || w.mutationId == "" || w.createdAt == "" then Throw
    else
      var payload := DecodePayload(w.payload);
      if payload.Throw? then Throw
      else
        var base := MakeMutation(w.accountKey, w.mutationId, w.createdAt, payload.value);
        var lifecycle := DecodeLifecycle(w.lifecycle, w.accountKey, payload.value.Send?);
        if base.Throw? || lifecycle.Throw? then Throw else Ok(base.value.(lifecycle := lifecycle.value))
  }

  // ---- What survives the way ----

  predicate CodableLifecycle(m: Mutation) {
    match m.lifecycle
    case Pending(n) => n == 0
    case InFlight(n) => 1 <= n <= MAX_SAFE_INTEGER
    case Retrying(n, at) => 1 <= n <= MAX_SAFE_INTEGER && at != ""
    case Confirmed(n, confirmation) =>
      && 1 <= n <= MAX_SAFE_INTEGER
      && if m.payload.Send? then confirmation.Some? && ValidId(confirmation.value) && confirmation.value.accountKey == m.accountKey
         else confirmation.None?
    case FailedTerminal(n) => 1 <= n <= MAX_SAFE_INTEGER
  }

  /** What a built intent looks like from outside. */
  ghost predicate Sendable(intent: SendIntent) {
    && ValidId(intent.identityId)
    && intent.from.name.Some? && intent.from.email != "" && !("*@" <= intent.from.email)
    && |intent.to| + |intent.cc| + |intent.bcc| > 0
    && (forall a <- [intent.from] + intent.replyTo + intent.to + intent.cc + intent.bcc :: UsableOutboundAddress(a))
    && DistinctEmails(intent.bcc)
  }

  ghost predicate CodablePayload(p: Payload) {
    match p
    case Send(intent) => Sendable(intent)
    case Keyword(id, _, _) => ValidId(id)
    case Membership(id, add, remove) => ValidId(id) && forall mailbox <- add + remove :: ValidId(mailbox)
  }

  ghost predicate Codable(m: Mutation) {
    && m.accountKey != "" && m.mutationId != "" && m.createdAt != ""
    && CodablePayload(m.payload)
    && MakeMutation(m.accountKey, m.mutationId, m.createdAt, m.payload).Ok?
    && CodableLifecycle(m)
  }

  lemma IntentIsRebuiltIff(intent: SendIntent)
    ensures DecodeSendIntent(intent) == Ok(intent) <==> Sendable(intent)
  {
    assert intent.bcc + [] == intent.bcc;
    FirstPerEmailKeepsEveryEmailOnce(intent.bcc);
    if DistinctEmails(intent.bcc) {
      FirstPerEmailFixpoint(intent.bcc);
    }
  }

  lemma EnumerationIsRead(list: seq<string>, elements: set<string>)
    requires Enumerates(list, elements)
    ensures DecodeKeywords(list) == if "" in elements then Throw else Ok(elements)
  {
    assert (set k | k in list) == elements;
  }

  lemma LifecycleRoundTrip(m: Mutation)
    ensures DecodeLifecycle(EncodeLifecycle(m.lifecycle), m.accountKey, m.payload.Send?) == Ok(m.lifecycle)
            <==> CodableLifecycle(m)
  {
  }

  lemma PayloadRoundTrip(p: Payload, w: WirePayload)
    requires EncodesPayload(p, w)
    ensures p.Keyword? && "" in p.addKeywords + p.removeKeywords ==> DecodePayload(w).Throw?
    ensures !(p.Keyword? && "" in p.addKeywords + p.removeKeywords) ==> (DecodePayload(w) == Ok(p) <==> CodablePayload(p))
  {
    if p.Send? {
      IntentIsRebuiltIff(p.intent);
    } else if p.Keyword? {
      EnumerationIsRead(w.addKeywords, p.addKeywords);
      EnumerationIsRead(w.removeKeywords, p.removeKeywords);
    }
  }

  /** However its sets are written out, a mutation comes back as it was if and only if its ids
      and instants are not empty, its intent is sendable or its change is one its factory
      accepts, and its lifecycle counts attempts within the safe integers. */
  lemma RoundTripIff(m: Mutation, w: WireMutation)
    requires Encodes(m, w)
    ensures Decode(w) == Ok(m) <==> Codable(m)
  {
    PayloadRoundTrip(m.payload, w.payload);
    LifecycleRoundTrip(m);
  }

  /** Nothing decodes to a mutation that could not be sent back. */
  lemma DecodedIsCodable(w: WireMutation)
    requires Decode(w).Ok?
    ensures Codable(Decode(w).value)
  {
    match w.payload {
      case WireSend(intent) =>
        BuildIsFixpoint(intent.securityMode, PersistedIdentity(intent), intent.to, intent.cc, intent.bcc, intent.subject, intent.body);
        IntentIsRebuiltIff(DecodeSendIntent(intent).value);
      case _ =>
    }
  }

  // ---- Built mutations ----

  /** Ids, instants and confirmations that passed their factories are not empty. */
  predicate Branded(t: Transition) {
    match t
    case Retry(at) => at != ""
    case ConfirmAsSent(id) => ValidId(id)
    case _ => true
  }

  lemma {:induction false} LifespanStaysCodable(m: Mutation, ts: seq<Transition>)
    requires Codable(m) && (forall i :: 0 <= i < |ts| ==> Branded(ts[i]))
    requires Lifespan(m, ts).Ok?
    ensures Codable(Lifespan(m, ts).value)
    decreases |ts|
  {
    if ts != [] {
      LifespanStaysCodable(Advance(m, ts[0]).value, ts[1..]);
    }
  }

  /** Decoding what was encoded gives back every mutation that was built by its factory, at any
      point of its life: an intent is rebuilt from its own fields without a change. */
  lemma BuiltMutationRoundTrip(accountKey: string, mutationId: string, createdAt: string, payload: Payload,
                               ts: seq<Transition>,
                               mode: SecurityMode, identity: Identity, to: seq<Address>, cc: seq<Address>, userBcc: seq<Address>,
                               subject: string, body: SendBody, w: WireMutation)
    requires accountKey != "" && mutationId != "" && createdAt != "" && (forall i :: 0 <= i < |ts| ==> Branded(ts[i]))
    requires match payload
             case Send(intent) => ValidId(identity.id) && Ok(intent) == BuildSendIntent(mode, identity, to, cc, userBcc, subject, body)
             case Keyword(id, _, _) => ValidId(id)
             case Membership(id, add, remove) => ValidId(id) && forall mailbox <- add + remove :: ValidId(mailbox)
    requires var made := MakeMutation(accountKey, mutationId, createdAt, payload);
             made.Ok? && Lifespan(made.value, ts).Ok? && Encodes(Lifespan(made.value, ts).value, w)
    ensures Decode(w) == Lifespan(MakeMutation(accountKey, mutationId, createdAt, payload).value, ts)
  {
    var made := MakeMutation(accountKey, mutationId, createdAt, payload).value;
    if payload.Send? {
      BuildIsFixpoint(mode, identity, to, cc, userBcc, subject, body);
      assert UsableOutboundAddress(payload.intent.from);
      IntentIsRebuiltIff(payload.intent);
    }
    LifespanStaysCodable(made, ts);
    RoundTripIff(Lifespan(made, ts).value, w);
  }

  // ---- What is decoded at all ----

  const LARGEST: int := 9_007_199_254_740_991

  ghost predicate OwnId(id: ScopedId, owner: string) {
    id.accountKey == owner && |id.jmapId| > 0
  }

  ghost predicate OwnIds(ids: seq<ScopedId>, owner: string) {
    && (forall i :: 0 <= i < |ids| ==> OwnId(ids[i], owner))
    && (forall i, j :: 0 <= i < j < |ids| ==> ids[i] != ids[j])
  }

  ghost predicate ReadableIntent(intent: SendIntent, owner: string) {
    && OwnId(intent.identityId, owner) && intent.from.name.Some?
    && !(|intent.from.email| >= 2 && intent.from.email[0] == '*' && intent.from.email[1] == '@')
    && (intent.to != [] || intent.cc != [] || intent.bcc != [])
    && SendIntents.Sendable(intent.from) && (forall a <- intent.replyTo :: SendIntents.Sendable(a))
    && (forall a <- intent.to :: SendIntents.Sendable(a)) && (forall a <- intent.cc :: SendIntents.Sendable(a))
    && (forall a <- FirstPerEmail(intent.bcc) :: SendIntents.Sendable(a))
  }

  ghost predicate ReadablePayload(w: WirePayload, owner: string) {
    match w
    case WireSend(intent) => ReadableIntent(intent, owner)
    case WireKeyword(id, add, remove) =>
      && OwnId(id, owner) && (add != [] || remove != [])
      && (forall i :: 0 <= i < |add| ==> |add[i]| > 0) && (forall i :: 0 <= i < |remove| ==> |remove[i]| > 0)
      && (forall i, j :: 0 <= i < |add| && 0 <= j < |remove| ==> add[i] != remove[j])
    case WireMembership(id, add, remove) =>
      && OwnId(id, owner) && (add != [] || remove != []) && OwnIds(add, owner) && OwnIds(remove, owner)
      && (forall i, j :: 0 <= i < |add| && 0 <= j < |remove| ==> add[i] != remove[j])
  }

  ghost predicate ReadableLifecycle(w: WireLifecycle, owner: string, send: bool) {
    || (w.status == "pending" && w.attemptCount == 0)
    || (&& 1 <= w.attemptCount <= LARGEST
        && (|| w.status == "inFlight"
            || w.status == "failedTerminal"
            || (w.status == "retrying" && w.nextAttemptAt.Some? && |w.nextAttemptAt.value| > 0)
            || (w.status == "confirmed" && (send ==> w.confirmation.Some? && OwnId(w.confirmation.value, owner)))))
  }

  lemma Statuses()
    ensures "pending" != "inFlight" && "pending" != "failedTerminal" && "pending" != "retrying" && "pending" != "confirmed"
    ensures "retrying" != "inFlight" && "retrying" != "failedTerminal" && "retrying" != "confirmed"
    ensures "confirmed" != "inFlight" && "confirmed" != "failedTerminal" && "inFlight" != "failedTerminal"
  {
    assert "pending"[0] == 'p' && "inFlight"[0] == 'i' && "failedTerminal"[0] == 'f';
    assert "retrying"[0] == 'r' && "confirmed"[0] == 'c';
  }

  lemma LifecycleIsReadIff(w: WireLifecycle, owner: string, send: bool)
    requires owner != ""
    ensures DecodeLifecycle(w, owner, send).Ok? <==> ReadableLifecycle(w, owner, send)
    ensures DecodeLifecycle(w, owner, send).Ok? ==>
              DecodeLifecycle(w, owner, send).value ==
              if w.status == "pending" then Pending(0)
              else if w.status == "inFlight" then InFlight(w.attemptCount)
              else if w.status == "retrying" then Retrying(w.attemptCount, w.nextAttemptAt.value)
              else if w.status == "failedTerminal" then FailedTerminal(w.attemptCount)
              else Confirmed(w.attemptCount, if send then w.confirmation else None)
  {
    Statuses();
    assert w.nextAttemptAt.Some? ==> (w.nextAttemptAt.value == "" <==> |w.nextAttemptAt.value| == 0);
    assert w.confirmation.Some? ==> (w.confirmation.value.jmapId == "" <==> |w.confirmation.value.jmapId| == 0);
  }

  lemma IntentIsReadIff(w: WireMutation)
    requires w.payload.WireSend? && w.accountKey != "" && w.mutationId != "" && w.createdAt != ""
    ensures var payload := DecodePayload(w.payload);
      (payload.Ok? && MakeMutation(w.accountKey, w.mutationId, w.createdAt, payload.value).Ok?) <==>
      ReadablePayload(w.payload, w.accountKey)
  {
    var intent := w.payload.intent;
    IntentIsBuiltIff(intent.securityMode, PersistedIdentityOr(intent), intent.to, intent.cc, intent.bcc, intent.subject, intent.body);
    assert intent.bcc + [] == intent.bcc;
    UsableIffSendable(intent.from);
  }

  /** The identity for an intent with a named sender, and any other for the rest. */
  function PersistedIdentityOr(intent: SendIntent): Identity {
    if intent.from.name.Some? then PersistedIdentity(intent) else Identity(intent.identityId, "", "", None, None)
  }

  lemma KeywordsAreReadIff(w: WireMutation)
    requires w.payload.WireKeyword?
    ensures var payload := DecodePayload(w.payload);
      (payload.Ok? && MakeMutation(w.accountKey, w.mutationId, w.createdAt, payload.value).Ok?) <==>
      w.accountKey != "" && ReadablePayload(w.payload, w.accountKey)
  {
    var (add, remove) := (w.payload.addKeywords, w.payload.removeKeywords);
    assert "" in add <==> exists i :: 0 <= i < |add| && |add[i]| == 0;
    assert "" in remove <==> exists i :: 0 <= i < |remove| && |remove[i]| == 0;
    var (adds, removes) := (set k | k in add, set k | k in remove);
    assert add != [] ==> add[0] in adds;
    assert remove != [] ==> remove[0] in removes;
    assert (adds == {} <==> add == []) && (removes == {} <==> remove == []);
    assert forall i :: 0 <= i < |add| ==> add[i] in adds;
    assert forall i :: 0 <= i < |remove| ==> remove[i] in removes;
    var payload := DecodePayload(w.payload);
    if payload.Ok? {
      MadeIff(w.accountKey, w.mutationId, w.createdAt, payload.value);
    }
  }

  lemma MembershipsAreReadIff(w: WireMutation)
    requires w.payload.WireMembership?
    ensures var payload := DecodePayload(w.payload);
      (payload.Ok? && MakeMutation(w.accountKey, w.mutationId, w.createdAt, payload.value).Ok?) <==>
      w.accountKey != "" && ReadablePayload(w.payload, w.accountKey)
  {
    var (add, remove) := (w.payload.addMailboxes, w.payload.removeMailboxes);
    assert forall i :: 0 <= i < |add| ==> add[i] in add + remove;
    assert forall i :: 0 <= i < |remove| ==> remove[i] in add + remove;
    assert forall mailbox <- add + remove :: mailbox in add || mailbox in remove;
    var payload := DecodePayload(w.payload);
    if payload.Ok? {
      MadeIff(w.accountKey, w.mutationId, w.createdAt, payload.value);
    }
  }

  /** Exactly this is decoded, of any data whatever: named records of one account, an intent that
      may be sent or a change that changes something, and a lifecycle as a mutation can have it. */
  lemma DecodesIff(w: WireMutation)
    ensures Decode(w).Ok? <==>
      && |w.accountKey| > 0 && |w.mutationId| > 0 && |w.createdAt| > 0 && ReadablePayload(w.payload, w.accountKey)
      && ReadableLifecycle(w.lifecycle, w.accountKey, w.payload.WireSend?)
  {
    if w.accountKey != "" && w.mutationId != "" && w.createdAt != "" {
      LifecycleIsReadIff(w.lifecycle, w.accountKey, w.payload.WireSend?);
      match w.payload
      case WireSend(_) => IntentIsReadIff(w);
      case WireKeyword(_, _, _) => KeywordsAreReadIff(w);
      case WireMembership(_, _, _) => MembershipsAreReadIff(w);
    }
  }

  // ---- The native engine takes what the codec sends ----

  /** What survives the way to the native side is what its validator accepts, of this account,
      with counts that a number can hold. */
  lemma CodableIffNative(m: Mutation)
    ensures Codable(m) <==>
      && ValidNativeMutation(m) && m.lifecycle.attemptCount <= LARGEST
      && (m.lifecycle.Confirmed? ==>
            if m.payload.Send? then m.lifecycle.confirmation.Some? && OwnId(m.lifecycle.confirmation.value, m.accountKey)
            else m.lifecycle.confirmation.None?)
      && match m.payload
         case Send(intent) =>
           intent.identityId.accountKey == m.accountKey && intent.from.name.Some? && DistinctEmails(intent.bcc)
         case Keyword(id, add, remove) => id.accountKey == m.accountKey
         case Membership(id, add, remove) =>
           id.accountKey == m.accountKey && forall mailbox <- add + remove :: mailbox.accountKey == m.accountKey
  {
    match m.payload
    case Send(intent) => assert intent.from in [intent.from] + intent.replyTo + intent.to + intent.cc + intent.bcc;
    case _ =>
  }
}
