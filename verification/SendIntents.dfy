/** Frozen outbound messages: `src/domain/send-intent.ts`, with the addresses and
    identities it is built from. */
module SendIntents {
  import opened Base

  datatype ScopedId = ScopedId(accountKey: string, jmapId: string)

  datatype Address = Address(name: Option<string>, email: string)

  datatype Identity = Identity(id: ScopedId, name: string, email: string,
                               replyTo: Option<seq<Address>>, bcc: Option<seq<Address>>)

  datatype SecurityMode = Plain | BoxplotE2eeV1

  datatype SendBody = SendBody(text: string, html: Option<string>)

  datatype SendIntent = SendIntent(securityMode: SecurityMode, identityId: ScopedId, from: Address,
                                   replyTo: seq<Address>, to: seq<Address>, cc: seq<Address>, bcc: seq<Address>,
                                   subject: string, body: SendBody)

  function IndexOf(s: string, c: char): (i: int)
    ensures -1 <= i < |s|
    ensures i == -1 <==> c !in s
    ensures i >= 0 ==> s[i] == c && c !in s[..i]
  {
    if s == "" then -1
    else if s[0] == c then 0
    else
      var rest := IndexOf(s[1..], c);
      assert s == [s[0]] + s[1..];
      if rest == -1 then -1 else assert s[..rest + 1] == [s[0]] + s[1..][..rest]; rest + 1
  }

  predicate HasUnsafeHeaderCharacter(s: string) {
    '\r' in s || '\n' in s || '\0' in s
  }

  predicate UsableOutboundAddress(a: Address) {
    var at := IndexOf(a.email, '@');
    && a.email != ""
    && !HasUnsafeHeaderCharacter(a.email)
    && at > 0
    && at != |a.email| - 1
    && (a.name.Some? ==> !HasUnsafeHeaderCharacter(a.name.value))
  }

  predicate IsWildcard(identity: Identity) {
    "*@" <= identity.email
  }

  predicate Mentions(list: seq<Address>, email: string) {
    exists i :: 0 <= i < |list| && list[i].email == email
  }

  /** The addresses of a list whose email did not occur earlier in it. */
  function FirstPerEmail(list: seq<Address>): seq<Address> {
    if list == [] then []
    else
      var (before, last) := (list[..|list| - 1], list[|list| - 1]);
      if Mentions(before, last.email) then FirstPerEmail(before) else FirstPerEmail(before) + [last]
  }

  ghost predicate DistinctEmails(list: seq<Address>) {
    forall i, j :: 0 <= i < j < |list| ==> list[i].email != list[j].email
  }

  lemma MentionsOneMore(list: seq<Address>, a: Address, email: string)
    ensures Mentions(list + [a], email) <==> Mentions(list, email) || a.email == email
  {
    if Mentions(list, email) {
      var i :| 0 <= i < |list| && list[i].email == email;
      assert (list + [a])[i].email == email;
    }
    assert (list + [a])[|list|] == a;
  }

  /** What merging promises: no email twice, none lost, none invented. */
  lemma {:induction false} FirstPerEmailKeepsEveryEmailOnce(list: seq<Address>)
    ensures DistinctEmails(FirstPerEmail(list))
    ensures forall a :: a in FirstPerEmail(list) ==> a in list
    ensures forall email :: Mentions(FirstPerEmail(list), email) <==> Mentions(list, email)
  {
    if list != [] {
      var (before, last) := (list[..|list| - 1], list[|list| - 1]);
      FirstPerEmailKeepsEveryEmailOnce(before);
      assert list == before + [last];
      forall email
        ensures Mentions(FirstPerEmail(list), email) <==> Mentions(list, email)
      {
        MentionsOneMore(before, last, email);
        MentionsOneMore(FirstPerEmail(before), last, email);
      }
      if !Mentions(before, last.email) {
        StillDistinct(FirstPerEmail(before), last);
      }
    }
  }

  lemma StillDistinct(list: seq<Address>, a: Address)
    requires DistinctEmails(list) && !Mentions(list, a.email)
    ensures DistinctEmails(list + [a])
  {
  }

  lemma {:induction false} FirstPerEmailFixpoint(list: seq<Address>)
    requires DistinctEmails(list)
    ensures FirstPerEmail(list) == list
  {
    if list != [] {
      FirstPerEmailFixpoint(list[..|list| - 1]);
    }
  }

  predicate IsFirst(list: seq<Address>, i: nat)
    requires i < |list|
  {
    forall h :: 0 <= h < i ==> list[h].email != list[i].email
  }

  /** Merging keeps the addresses that come first with their email, in their order. */
  ghost predicate KeepsFirst(list: seq<Address>, kept: seq<Address>, at: seq<nat>) {
    && |at| == |kept| && (forall j :: 0 <= j < |at| ==> at[j] < |list| && kept[j] == list[at[j]])
    && (forall j, k :: 0 <= j < k < |at| ==> at[j] < at[k])
    && (forall i :: 0 <= i < |list| ==> (i in at <==> IsFirst(list, i)))
  }

  lemma {:induction false} FirstPerEmailKeepsFirst(list: seq<Address>) returns (at: seq<nat>)
    ensures KeepsFirst(list, FirstPerEmail(list), at)
  {
    if list == [] {
      at := [];
    } else {
      var (before, last) := (list[..|list| - 1], list[|list| - 1]);
      assert list == before + [last];
      at := FirstPerEmailKeepsFirst(before);
      if Mentions(before, last.email) {
        LaterIsDropped(before, last, FirstPerEmail(before), at);
      } else {
        FirstIsKept(before, last, FirstPerEmail(before), at);
        at := at + [|before|];
      }
    }
  }

  lemma FirstStaysFirst(before: seq<Address>, last: Address, i: nat)
    requires i < |before|
    ensures IsFirst(before + [last], i) <==> IsFirst(before, i)
  {
    assert forall h :: 0 <= h <= i ==> (before + [last])[h] == before[h];
  }

  lemma LastIsFirst(before: seq<Address>, last: Address)
    ensures IsFirst(before + [last], |before|) <==> !Mentions(before, last.email)
  {
    assert forall h :: 0 <= h < |before| ==> (before + [last])[h] == before[h];
  }

  lemma LaterIsDropped(before: seq<Address>, last: Address, kept: seq<Address>, at: seq<nat>)
    requires KeepsFirst(before, kept, at) && Mentions(before, last.email)
    ensures KeepsFirst(before + [last], kept, at)
  {
    var list := before + [last];
    LastIsFirst(before, last);
    forall i | 0 <= i < |list|
      ensures i in at <==> IsFirst(list, i)
    {
      if i < |before| {
        FirstStaysFirst(before, last, i);
      }
    }
  }

  lemma FirstIsKept(before: seq<Address>, last: Address, kept: seq<Address>, at: seq<nat>)
    requires KeepsFirst(before, kept, at) && !Mentions(before, last.email)
    ensures KeepsFirst(before + [last], kept + [last], at + [|before|])
  {
    var (list, at') := (before + [last], at + [|before|]);
    LastIsFirst(before, last);
    assert at'[|at|] == |before|;
    forall i | 0 <= i < |list|
      ensures i in at' <==> IsFirst(list, i)
    {
      if i < |before| {
        FirstStaysFirst(before, last, i);
      }
    }
  }

  method MergeBcc(userBcc: seq<Address>, defaultBcc: Option<seq<Address>>) returns (result: seq<Address>)
    ensures result == FirstPerEmail(userBcc + if defaultBcc.Some? then defaultBcc.value else [])
  {
    var all := userBcc + if defaultBcc.Some? then defaultBcc.value else [];
    result := [];
    var seenEmails: set<string> := {};
    for i := 0 to |all|
      invariant result == FirstPerEmail(all[..i])
      invariant forall email :: email in seenEmails <==> Mentions(all[..i], email)
    {
      assert all[..i + 1] == all[..i] + [all[i]];
      forall email
        ensures Mentions(all[..i + 1], email) <==> email in seenEmails || all[i].email == email
      {
        MentionsOneMore(all[..i], all[i], email);
      }
      if all[i].email !in seenEmails {
        seenEmails := seenEmails + {all[i].email};
        result := result + [all[i]];
      }
    }
    assert all[..|all|] == all;
  }

  function BuildSendIntent(mode: SecurityMode, identity: Identity, to: seq<Address>, cc: seq<Address>,
                           userBcc: seq<Address>, subject: string, body: SendBody): Result<SendIntent>
  {
    var from := Address(Some(identity.name), identity.email);
    var replyTo := if identity.replyTo.None? then [] else identity.replyTo.value;
    var bcc := FirstPerEmail(userBcc + if identity.bcc.Some? then identity.bcc.value else []);
    if IsWildcard(identity) then Throw
    else if |to| + |cc| + |bcc| == 0 then Throw
    else if exists a <- [from] + replyTo + to + cc + bcc :: !UsableOutboundAddress(a) then Throw
    else Ok(SendIntent(mode, identity.id, from, replyTo, to, cc, bcc, subject, body))
  }

  /** An address that may be sent to or from: its first at sign has something on both sides, and
      nothing in it breaks a header. */
  ghost predicate Sendable(a: Address) {
    && (exists i :: 0 < i < |a.email| - 1 && a.email[i] == '@' && forall j :: 0 <= j < i ==> a.email[j] != '@')
    && (forall i :: 0 <= i < |a.email| ==> a.email[i] != '\r' && a.email[i] != '\n' && a.email[i] != '\0')
    && (a.name.Some? ==>
          forall i :: 0 <= i < |a.name.value| ==> a.name.value[i] != '\r' && a.name.value[i] != '\n' && a.name.value[i] != '\0')
  }

  lemma UsableIffSendable(a: Address)
    ensures UsableOutboundAddress(a) <==> Sendable(a)
  {
    var at := IndexOf(a.email, '@');
    if Sendable(a) {
      var i :| 0 < i < |a.email| - 1 && a.email[i] == '@' && forall j :: 0 <= j < i ==> a.email[j] != '@';
      assert i == at;
    }
    if UsableOutboundAddress(a) {
      assert forall j :: 0 <= j < at ==> a.email[j] == a.email[..at][j];
    }
  }

  function OrNone(list: Option<seq<Address>>): seq<Address> {
    if list.Some? then list.value else []
  }

  /** An intent is accepted if and only if its sender is one certain address, somebody is to get it
      and every address that it names can be sent to; it then says what it was asked to say. */
  lemma IntentIsBuiltIff(mode: SecurityMode, identity: Identity, to: seq<Address>, cc: seq<Address>, userBcc: seq<Address>,
                  subject: string, body: SendBody)
    ensures var built := BuildSendIntent(mode, identity, to, cc, userBcc, subject, body);
      var bcc := FirstPerEmail(userBcc + OrNone(identity.bcc));
      && (built.Ok? <==>
            && !(|identity.email| >= 2 && identity.email[0] == '*' && identity.email[1] == '@')
            && (to != [] || cc != [] || userBcc != [] || OrNone(identity.bcc) != [])
            && Sendable(Address(Some(identity.name), identity.email))
            && (forall a <- OrNone(identity.replyTo) :: Sendable(a)) && (forall a <- to :: Sendable(a))
            && (forall a <- cc :: Sendable(a)) && (forall a <- bcc :: Sendable(a)))
      && (built.Ok? ==>
            && built.value.securityMode == mode && built.value.identityId == identity.id
            && built.value.from == Address(Some(identity.name), identity.email)
            && built.value.replyTo == OrNone(identity.replyTo) && built.value.to == to && built.value.cc == cc
            && built.value.bcc == bcc && built.value.subject == subject && built.value.body == body)
  {
    var from := Address(Some(identity.name), identity.email);
    var (replyTo, all) := (OrNone(identity.replyTo), userBcc + OrNone(identity.bcc));
    var bcc := FirstPerEmail(all);
    FirstPerEmailKeepsEveryEmailOnce(all);
    assert all != [] ==> Mentions(all, all[0].email);
    assert bcc == [] <==> all == [];
    forall a: Address
      ensures UsableOutboundAddress(a) <==> Sendable(a)
    {
      UsableIffSendable(a);
    }
    forall a
      ensures a in [from] + replyTo + to + cc + bcc <==> a == from || a in replyTo || a in to || a in cc || a in bcc
    {
    }
    assert "*@" <= identity.email <==> |identity.email| >= 2 && identity.email[0] == '*' && identity.email[1] == '@';
  }

  /** The identity from which `decodeSendIntent` rebuilds a persisted intent. */
  function PersistedIdentity(intent: SendIntent): Identity
    requires intent.from.name.Some?
  {
    Identity(intent.identityId, intent.from.name.value, intent.from.email, Some(intent.replyTo), None)
  }

  /** Rebuilding an intent from its own fields accepts it and changes nothing. */
  lemma BuildIsFixpoint(mode: SecurityMode, identity: Identity, to: seq<Address>, cc: seq<Address>,
                        userBcc: seq<Address>, subject: string, body: SendBody)
    requires BuildSendIntent(mode, identity, to, cc, userBcc, subject, body).Ok?
    ensures var v := BuildSendIntent(mode, identity, to, cc, userBcc, subject, body).value;
            && v.from.name.Some?
            && BuildSendIntent(v.securityMode, PersistedIdentity(v), v.to, v.cc, v.bcc, v.subject, v.body) == Ok(v)
  {
    var v := BuildSendIntent(mode, identity, to, cc, userBcc, subject, body).value;
    FirstPerEmailKeepsEveryEmailOnce(userBcc + if identity.bcc.Some? then identity.bcc.value else []);
    FirstPerEmailFixpoint(v.bcc);
    assert v.bcc + [] == v.bcc;
  }
}
