/** What each write of the sync port comes to, for every replica: exactly when it is accepted,
    conflicts or throws, and exactly what an accepted one leaves behind. */
module WriteOutcomes {
  import opened Base
  import opened SendIntents
  import opened Records
  import opened Collections
  import opened MailboxViews
  import opened ViewPositions
  import opened PendingMutations
  import opened MutationCas
  import opened SyncWrites
  import opened OptimisticWrites

  /** The write is accepted if and only if `ok`, and then stores exactly what `after` says and
      announces exactly `hints`; it throws if and only if `refused`, and otherwise conflicts. */
  ghost predicate ComesTo(s: Store, c: Command, ok: bool, refused: bool, after: Store, hints: seq<Hint>) {
    var w := Perform(s, c);
    && (w.outcome.Accepted? <==> ok)
    && (w.outcome.Threw? <==> refused)
    && w.store == (if ok then after else s)
    && w.batches == if ok then [hints] else []
  }

  // ---- What the factories take ----

  const LARGEST: int := 9_007_199_254_740_991

  ghost predicate Counts(n: int) {
    0 <= n <= LARGEST
  }

  /** A named mailbox, not its own parent, below one of its own account. */
  ghost predicate TakesMailbox(m: Mailbox) {
    && |m.name| > 0 && (m.role.Some? ==> |m.role.value| > 0)
    && (m.parent.Some? ==> m.parent.value != m.id && m.parent.value.accountKey == m.id.accountKey)
    && 0 <= m.sortOrder <= 2_147_483_647 && Counts(m.totalEmails) && Counts(m.unreadEmails) && m.totalEmails >= m.unreadEmails
  }

  lemma TakesMailboxIff(m: Mailbox)
    ensures UsableMailbox(m) <==> TakesMailbox(m)
  {
    assert m.role == Some("") <==> m.role.Some? && |m.role.value| == 0;
  }

  /** Blob and thread are of the email's account; instants and keywords are not empty. */
  ghost predicate TakesEmail(e: Email) {
    && e.id.accountKey == e.blobId.accountKey == e.threadId.accountKey && Counts(e.size)
    && |e.receivedAt| > 0 && (e.sentAt.Some? ==> |e.sentAt.value| > 0) && forall k <- e.keywords :: |k| > 0
  }

  lemma TakesEmailIff(e: Email)
    ensures UsableEmail(e) <==> TakesEmail(e)
  {
    assert e.sentAt == Some("") <==> e.sentAt.Some? && |e.sentAt.value| == 0;
    assert forall k <- e.keywords :: |k| == 0 <==> k == "";
  }

  /** An email with its memberships: its own, in mailboxes of its account. */
  ghost predicate TakesMemberships(r: EmailRecord) {
    forall i :: 0 <= i < |r.memberships| ==> r.memberships[i].emailId.accountKey == r.memberships[i].mailboxId.accountKey
  }

  lemma TakesRecordIff(r: EmailRecord)
    ensures UsableRecord(r) <==> TakesEmail(r.email) && TakesMemberships(r)
  {
    TakesEmailIff(r.email);
  }

  function Lowered(c: char): char {
    if 'A' <= c <= 'Z' then c + ('a' - 'A') else c
  }

  /** A single part: its type is named and is not a multipart, in capitals or not. */
  ghost predicate TakesAttachment(a: Attachment) {
    && a.blobId.accountKey == a.emailId.accountKey && |a.mediaType| > 0 && Counts(a.size)
    && !(|a.mediaType| >= 10 && forall i :: 0 <= i < 10 ==> Lowered(a.mediaType[i]) == "multipart/"[i])
  }

  lemma TakesAttachmentIff(a: Attachment)
    ensures UsableAttachment(a) <==> TakesAttachment(a)
  {
    var lower := ToLower(a.mediaType);
    assert forall i :: 0 <= i < |lower| ==> lower[i] == Lowered(a.mediaType[i]);
    assert "multipart/" <= lower <==> |lower| >= 10 && forall i :: 0 <= i < 10 ==> lower[i] == "multipart/"[i];
  }

  /** Records of the account, each once, and none of them destroyed by the same change. */
  ghost predicate Fits(ids: seq<ScopedId>, destroyed: seq<ScopedId>, account: string) {
    && (forall i :: 0 <= i < |ids| ==> ids[i].accountKey == account)
    && (forall i :: 0 <= i < |destroyed| ==> destroyed[i].accountKey == account)
    && (forall i, j :: 0 <= i < j < |ids| ==> ids[i] != ids[j])
    && (forall i, j :: 0 <= i < j < |destroyed| ==> destroyed[i] != destroyed[j])
    && (forall i, j :: 0 <= i < |ids| && 0 <= j < |destroyed| ==> ids[i] != destroyed[j])
  }

  lemma FitsIff<Rec>(c: Change<Rec>, account: string, idOf: Rec -> ScopedId)
    ensures ValidChange(c, account, idOf) <==> Fits(KeysOf(c.Records(), idOf), Destroyed(c), account)
  {
    var ids := KeysOf(c.Records(), idOf);
    assert forall i :: 0 <= i < |ids| ==> ids[i] in ids;
    if c.Delta? {
      assert forall i :: 0 <= i < |c.destroyed| ==> c.destroyed[i] in c.destroyed;
    }
  }

  /** A send is staged exactly for a registered account under a key that is free. */
  lemma SendIsStaged(s: Store, m: Mutation)
    ensures ComesTo(s, StageSend(m), m.accountKey in s.accounts && m.Key() !in s.mutations, false,
                    s.(mutations := s.mutations[m.Key() := m]), [PendingMutationsChanged(m.accountKey)])
  {
  }

  /** An account is stored once; registering it again needs the same service and remote account. */
  lemma AccountIsRegistered(s: Store, account: Account)
    ensures var known := account.key in s.accounts;
            ComesTo(s, RegisterAccount(account),
                    known ==> s.accounts[account.key].serviceKey == account.serviceKey
                              && s.accounts[account.key].jmapAccountId == account.jmapAccountId,
                    false,
                    if known then s else s.(accounts := s.accounts[account.key := account]), [AccountsChanged])
  {
  }

  lemma BodyIsCached(s: Store, body: EmailBody)
    ensures ComesTo(s, CacheEmailBody(body), body.emailId in s.emails, false, s.(bodies := s.bodies[body.emailId := body]),
                    [EmailBodyChanged(body.emailId)])
  {
  }

  /** Each attachment is of the email, and no part is listed twice. */
  ghost predicate RefsOf(refs: seq<Attachment>, id: ScopedId) {
    && (forall i :: 0 <= i < |refs| ==> refs[i].emailId == id)
    && (forall i, j :: 0 <= i < j < |refs| ==> refs[i].partId != refs[j].partId)
  }

  lemma RefsOfIff(refs: seq<Attachment>, id: ScopedId)
    ensures RefsOf(refs, id) <==> NoDuplicates(KeysOf(refs, AttachmentKey)) && forall r <- refs :: r.emailId == id
  {
    var keys := KeysOf(refs, AttachmentKey);
    assert forall i :: 0 <= i < |refs| ==> keys[i] == (refs[i].emailId, refs[i].partId);
    if NoDuplicates(keys) && forall r <- refs :: r.emailId == id {
      assert forall i :: 0 <= i < |refs| ==> refs[i].emailId == id;
    }
  }

  lemma AttachmentsAreReplaced(s: Store, id: ScopedId, refs: seq<Attachment>)
    ensures var fits := id in s.emails && RefsOf(refs, id);
            var usable := forall r <- refs :: TakesAttachment(r);
            ComesTo(s, ReplaceAttachmentRefs(id, refs), fits && usable, fits && !usable,
                    s.(attachments := s.attachments[id := refs]), [AttachmentRefsChanged(id)])
  {
    forall r: Attachment
      ensures UsableAttachment(r) <==> TakesAttachment(r)
    {
      TakesAttachmentIff(r);
    }
    RefsOfIff(refs, id);
  }

  lemma ViewIsReplaced(s: Store, view: View)
    ensures var known := view.spec.mailboxId in s.mailboxes;
            ComesTo(s, ReplaceMailboxView(view), known && Accurate(view), known && !Accurate(view),
                    s.(views := s.views[view.spec := view]), [MailboxViewChanged(view.spec)])
  {
    ViewIsValidIff(view);
  }

  /** The optimistic writes stage their mutation together with the change. */
  ghost predicate MayStageFor(s: Store, m: Mutation, id: ScopedId) {
    m.accountKey in s.accounts && m.Key() !in s.mutations && id in s.emails
  }

  /** Of an email, the keywords change and nothing else does. */
  lemma KeywordsAreChanged(s: Store, m: Mutation, id: ScopedId, add: set<string>, remove: set<string>, email: Email)
    requires StoreOk(s)
    requires id in s.emails ==> email == s.emails[id].(keywords := email.keywords)
    requires id in s.emails ==>
               forall k :: k in email.keywords <==> (k in s.emails[id].keywords || k in add) && k !in remove
    ensures var usable := "" !in add - remove;
            ComesTo(s, ApplyKeywords(m, id, add, remove), MayStageFor(s, m, id) && usable, MayStageFor(s, m, id) && !usable,
                    s.(emails := s.emails[id := email], mutations := s.mutations[m.Key() := m]),
                    [EmailsChanged(m.accountKey), PendingMutationsChanged(m.accountKey)])
  {
    var c := ApplyKeywords(m, id, add, remove);
    if MayStageFor(s, m, id) {
      assert email.keywords == s.emails[id].keywords + add - remove;
      assert email == s.emails[id].(keywords := s.emails[id].keywords + add - remove);
      assert UsableEmail(s.emails[id]);
      assert UsableEmail(email) <==> "" !in add - remove;
    } else {
      assert Perform(s, c) == Rejected(s, Conflict);
    }
  }

  ghost predicate MayMove(s: Store, m: Mutation, id: ScopedId, add: seq<ScopedId>, remove: seq<ScopedId>) {
    MayStageFor(s, m, id) && forall mailbox <- add + remove :: mailbox in s.mailboxes
  }

  ghost predicate Moved(before: seq<Membership>, after: seq<Membership>, id: ScopedId, add: seq<ScopedId>,
                        remove: seq<ScopedId>) {
    && NoDuplicates(after)
    && forall entry :: entry in after <==>
         (entry in before && entry.mailboxId !in remove) || (entry.emailId == id && entry.mailboxId in add)
  }

  /** Of an email's memberships, exactly the removed ones go and the missing ones come; the email
      has to stay in some mailbox, and every mailbox named has to exist. */
  lemma MembershipsAreChanged(s: Store, m: Mutation, id: ScopedId, add: seq<ScopedId>, remove: seq<ScopedId>)
    requires StoreOk(s) && (forall mailbox <- add :: mailbox.accountKey == id.accountKey)
    ensures var w := Perform(s, ApplyMemberships(m, id, add, remove));
            && (w.outcome.Accepted? <==>
                  && MayMove(s, m, id, add, remove)
                  && (add != [] || exists entry <- s.memberships[id] :: entry.mailboxId !in remove))
            && !w.outcome.Threw?
    ensures var w := Perform(s, ApplyMemberships(m, id, add, remove));
            w.outcome.Accepted? ==>
              && id in w.store.memberships && Moved(s.memberships[id], w.store.memberships[id], id, add, remove)
              && w.store == s.(memberships := s.memberships[id := w.store.memberships[id]],
                               mutations := s.mutations[m.Key() := m])
              && w.batches == [[EmailMembershipsChanged(m.accountKey), PendingMutationsChanged(m.accountKey)]]
  {
    if MayMove(s, m, id, add, remove) {
      assert id in s.memberships && MembershipsOk(s.memberships[id], id);
      MembershipsMove(s, m, id, add, remove);
    } else {
      assert Perform(s, ApplyMemberships(m, id, add, remove)) == Rejected(s, Conflict);
    }
  }

  lemma MembershipsMove(s: Store, m: Mutation, id: ScopedId, add: seq<ScopedId>, remove: seq<ScopedId>)
    requires MayMove(s, m, id, add, remove) && id in s.memberships && MembershipsOk(s.memberships[id], id)
    requires forall mailbox <- add :: mailbox.accountKey == id.accountKey
    ensures var w := Perform(s, ApplyMemberships(m, id, add, remove));
            if add != [] || exists entry <- s.memberships[id] :: entry.mailboxId !in remove then
              && w.outcome.Accepted? && id in w.store.memberships
              && Moved(s.memberships[id], w.store.memberships[id], id, add, remove)
              && w.store == s.(memberships := s.memberships[id := w.store.memberships[id]],
                               mutations := s.mutations[m.Key() := m])
              && w.batches == [[EmailMembershipsChanged(m.accountKey), PendingMutationsChanged(m.accountKey)]]
            else w.outcome.Conflict?
  {
    var w := Perform(s, ApplyMemberships(m, id, add, remove));
    assert w == ApplyMembershipChange(s, m, id, add, remove);
    MovingIs(s, m, id, add, remove);
    NextEntries(s.memberships[id], id, add, remove);
  }

  lemma MovingIs(s: Store, m: Mutation, id: ScopedId, add: seq<ScopedId>, remove: seq<ScopedId>)
    requires MayMove(s, m, id, add, remove) && id in s.memberships && MembershipsOk(s.memberships[id], id)
    requires forall mailbox <- add :: mailbox.accountKey == id.accountKey
    ensures var next := WithMailboxes(WithoutMailboxes(s.memberships[id], remove), id, add);
            ApplyMembershipChange(s, m, id, add, remove) ==
            if next == [] then Rejected(s, Conflict)
            else Committed(s.(memberships := s.memberships[id := next], mutations := s.mutations[m.Key() := m]),
                           [EmailMembershipsChanged(m.accountKey), PendingMutationsChanged(m.accountKey)])
  {
    NextEntries(s.memberships[id], id, add, remove);
    MembershipChangeIs(s, m, id, add, remove, WithMailboxes(WithoutMailboxes(s.memberships[id], remove), id, add));
  }

  lemma NextEntries(entries: seq<Membership>, id: ScopedId, add: seq<ScopedId>, remove: seq<ScopedId>)
    requires MembershipsOk(entries, id) && forall mailbox <- add :: mailbox.accountKey == id.accountKey
    ensures var next := WithMailboxes(WithoutMailboxes(entries, remove), id, add);
            && Moved(entries, next, id, add, remove)
            && (next != [] <==> add != [] || exists entry <- entries :: entry.mailboxId !in remove)
            && forall entry <- next :: UsableMembership(entry)
  {
    var kept := WithoutMailboxes(entries, remove);
    assert forall i :: 0 <= i < |kept| ==> kept[i] in entries;
    WithMailboxesOk(kept, id, add);
    var next := WithMailboxes(kept, id, add);
    if add != [] {
      assert Membership.Membership(id, add[0]) in next;
    }
    if entry :| entry in entries && entry.mailboxId !in remove {
      assert entry in next;
    }
    if next != [] {
      assert next[0] in next;
    }
  }

  /** An attempt begins, the first or the next; or the one under way ends. */
  ghost predicate Advances(from: Lifecycle, to: Lifecycle) {
    || (from.Pending? && to == InFlight(1))
    || (from.Retrying? && to == InFlight(from.attemptCount + 1))
    || (from.InFlight? && (to.Retrying? || to.Confirmed? || to.FailedTerminal?) && to.attemptCount == from.attemptCount)
  }

  /** A row is replaced only by an advance of the very snapshot that is stored. */
  lemma PendingIsReplaced(s: Store, expected: Mutation, next: Mutation)
    ensures ComesTo(s, ReplacePending(expected, next),
                    && expected.Key() in s.mutations && s.mutations[expected.Key()] == expected
                    && next == expected.(lifecycle := next.lifecycle) && Advances(expected.lifecycle, next.lifecycle),
                    false,
                    s.(mutations := s.mutations[expected.Key() := next]), [PendingMutationsChanged(expected.accountKey)])
  {
    if expected.Key() in s.mutations {
      MutationsEqualExact(s.mutations[expected.Key()], expected);
    }
    MutationsEqualExact(expected.(lifecycle := Pending(0)), next.(lifecycle := Pending(0)));
  }

  /** Exactly a confirmed row is removed, and then it is gone. */
  lemma ConfirmedIsRemoved(s: Store, account: string, id: string)
    ensures ComesTo(s, RemoveConfirmedMutation(account, id),
                    (account, id) in s.mutations && s.mutations[(account, id)].lifecycle.Confirmed?,
                    false,
                    s.(mutations := s.mutations - {(account, id)}), [PendingMutationsChanged(account)])
  {
  }

  // ---- Collection commits ----

  /** The commit is of the right kind, for a registered account whose cursor is the expected one. */
  predicate Expected(s: Store, commit: SyncCommit, kind: DataType) {
    var (account, key) := (commit.next.accountKey, (commit.next.accountKey, kind));
    && account in s.accounts && commit.next.dataType == kind
    && match commit.expected
       case Absent => key !in s.cursors
       case Matches(cursor) => key in s.cursors && s.cursors[key] == cursor && (cursor.accountKey, cursor.dataType) == key
  }

  lemma MailboxesAreCommitted(s: Store, commit: SyncCommit)
    requires commit.MailboxCommit?
    ensures var (c, account) := (commit.mailboxes, commit.next.accountKey);
            var fits := Expected(s, commit, MailboxData) && Fits(KeysOf(c.Records(), MailboxId), Destroyed(c), account);
            var usable := forall m <- c.Records() :: TakesMailbox(m);
            ComesTo(s, ApplyCollectionSync(commit), fits && usable, fits && !usable,
                    s.(mailboxes := Apply(s.mailboxes, c, account, MailboxId),
                       cursors := s.cursors[(account, MailboxData) := commit.next]),
                    [MailboxesChanged(account), SyncCursorChanged(account, MailboxData)])
  {
    FitsIff(commit.mailboxes, commit.next.accountKey, MailboxId);
    forall m: Mailbox
      ensures UsableMailbox(m) <==> TakesMailbox(m)
    {
      TakesMailboxIff(m);
    }
    assert MaySync(s, commit) <==> Expected(s, commit, MailboxData);
    if MaySync(s, commit) {
      MailboxSyncIs(s, commit);
    }
  }

  lemma IdentitiesAreCommitted(s: Store, commit: SyncCommit)
    requires commit.IdentityCommit?
    ensures var (c, account) := (commit.identities, commit.next.accountKey);
            var fits := Expected(s, commit, IdentityData) && Fits(KeysOf(c.Records(), IdentityId), Destroyed(c), account);
            var usable := forall i <- c.Records() :: |i.email| > 0;
            ComesTo(s, ApplyCollectionSync(commit), fits && usable, fits && !usable,
                    s.(identities := Apply(s.identities, c, account, IdentityId),
                       cursors := s.cursors[(account, IdentityData) := commit.next]),
                    [IdentitiesChanged(account), SyncCursorChanged(account, IdentityData)])
  {
    FitsIff(commit.identities, commit.next.accountKey, IdentityId);
    assert forall i <- commit.identities.Records() :: UsableIdentity(i) <==> |i.email| > 0;
    assert MaySync(s, commit) <==> Expected(s, commit, IdentityData);
    if MaySync(s, commit) {
      IdentitySyncIs(s, commit);
    }
  }

  ghost predicate Owns(r: EmailRecord) {
    && (forall i :: 0 <= i < |r.memberships| ==> r.memberships[i].emailId == r.email.id)
    && (forall i, j :: 0 <= i < j < |r.memberships| ==> r.memberships[i] != r.memberships[j])
  }

  lemma RecordsAreTaken(records: seq<EmailRecord>)
    ensures (forall r <- records :: UsableRecord(r)) <==> forall r <- records :: TakesEmail(r.email) && TakesMemberships(r)
    ensures (forall r <- records :: OwnsItsMemberships(r)) <==> forall r <- records :: Owns(r)
  {
    forall r: EmailRecord
      ensures UsableRecord(r) <==> TakesEmail(r.email) && TakesMemberships(r)
    {
      TakesRecordIff(r);
    }
  }

  /** Every record needs memberships of its own email, each once. */
  lemma EmailsAreCommitted(s: Store, commit: SyncCommit)
    requires commit.EmailCommit?
    ensures var (c, account) := (commit.emails, commit.next.accountKey);
            var fits := Expected(s, commit, EmailData) && Fits(KeysOf(c.Records(), RecordId), Destroyed(c), account)
                        && forall r <- c.Records() :: Owns(r);
            var usable := forall r <- c.Records() :: TakesEmail(r.email) && TakesMemberships(r);
            ComesTo(s, ApplyCollectionSync(commit), fits && usable, fits && !usable, SyncedEmails(s, commit),
                    [EmailsChanged(account), EmailMembershipsChanged(account), SyncCursorChanged(account, EmailData)])
  {
    var (c, account) := (commit.emails, commit.next.accountKey);
    FitsIff(c, account, RecordId);
    RecordsAreTaken(c.Records());
    EmailsComeTo(s, commit, Expected(s, commit, EmailData), ValidChange(c, account, RecordId),
                 forall r <- c.Records() :: OwnsItsMemberships(r), forall r <- c.Records() :: UsableRecord(r));
  }

  lemma EmailsComeTo(s: Store, commit: SyncCommit, expected: bool, valid: bool, owns: bool, usable: bool)
    requires commit.EmailCommit? && expected == Expected(s, commit, EmailData)
    requires valid == ValidChange(commit.emails, commit.next.accountKey, RecordId)
    requires owns == forall r <- commit.emails.Records() :: OwnsItsMemberships(r)
    requires usable == forall r <- commit.emails.Records() :: UsableRecord(r)
    ensures var (account, fits) := (commit.next.accountKey, expected && valid && owns);
            ComesTo(s, ApplyCollectionSync(commit), fits && usable, fits && !usable, SyncedEmails(s, commit),
                    [EmailsChanged(account), EmailMembershipsChanged(account), SyncCursorChanged(account, EmailData)])
  {
    assert MaySync(s, commit) <==> expected;
    if MaySync(s, commit) {
      EmailSyncIs(s, commit);
      assert Perform(s, ApplyCollectionSync(commit)) == ApplySync(s, commit);
    } else {
      assert Perform(s, ApplyCollectionSync(commit)) == Rejected(s, Conflict);
    }
  }

  /** An accepted email commit, id by id: a record's email and memberships are stored together,
      what is destroyed or not in a snapshot loses both, and all else stays. */
  lemma EmailCommittedAt(s: Store, commit: SyncCommit, id: ScopedId)
    requires StoreOk(s) && commit.EmailCommit? && Perform(s, ApplyCollectionSync(commit)).outcome.Accepted?
    ensures var (c, w) := (commit.emails, Perform(s, ApplyCollectionSync(commit)));
            && w.store == s.(emails := w.store.emails, memberships := w.store.memberships,
                             cursors := s.cursors[(commit.next.accountKey, EmailData) := commit.next])
            && (id in w.store.emails <==> id in w.store.memberships)
            && (if exists r <- c.Records() :: r.email.id == id then
                  id in w.store.emails && EmailRecord(w.store.emails[id], w.store.memberships[id]) in c.Records()
                  && w.store.emails[id].id == id
                else if id in Destroyed(c) || (c.Replace? && id.accountKey == commit.next.accountKey) then
                  id !in w.store.emails
                else
                  && (id in w.store.emails <==> id in s.emails)
                  && (id in s.emails ==> w.store.emails[id] == s.emails[id] && w.store.memberships[id] == s.memberships[id]))
  {
    EmailStoreIs(s, commit);
    RecordKeys(commit.emails.Records(), id);
    ApplyAt(Joined(s), commit.emails, commit.next.accountKey, RecordId, id);
    assert id in Joined(s) <==> id in s.emails;
  }

  lemma EmailStoreIs(s: Store, commit: SyncCommit)
    requires commit.EmailCommit? && Perform(s, ApplyCollectionSync(commit)).outcome.Accepted?
    ensures Perform(s, ApplyCollectionSync(commit)).store == SyncedEmails(s, commit)
  {
    EmailsAreCommitted(s, commit);
  }

  lemma RecordKeys(records: seq<EmailRecord>, id: ScopedId)
    ensures id in KeysOf(records, RecordId) <==> exists r <- records :: r.email.id == id
  {
    if id in KeysOf(records, RecordId) {
      var i :| 0 <= i < |records| && KeysOf(records, RecordId)[i] == id;
      assert records[i] in records;
    }
    if r :| r in records && r.email.id == id {
      var i :| 0 <= i < |records| && records[i] == r;
      assert KeysOf(records, RecordId)[i] == id;
    }
  }
}
