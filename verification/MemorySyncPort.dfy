/** The memory engine itself (`src/adapters/memory/memory-sync-port.ts`): its methods on
    mutable maps, each proved to be the write of the same name in `SyncWrites`. */
module MemorySyncPorts {
  import opened Base
  import opened SendIntents
  import opened Records
  import opened Collections
  import opened MailboxViews
  import opened PendingMutations
  import opened MutationCas
  import opened SyncWrites

  class MemoryState {
    var accounts: map<string, Account>
    var mailboxes: map<ScopedId, Mailbox>
    var identities: map<ScopedId, Identity>
    var emails: map<ScopedId, Email>
    var memberships: map<ScopedId, seq<Membership>>
    var bodies: map<ScopedId, EmailBody>
    var attachments: map<ScopedId, seq<Attachment>>
    var views: map<ViewSpec, View>
    var cursors: map<CursorKey, Cursor>
    var mutations: Rows

    constructor ()
      ensures Snapshot() == EMPTY
    {
      accounts, mailboxes, identities, emails, memberships := map[], map[], map[], map[], map[];
      bodies, attachments, views, cursors, mutations := map[], map[], map[], map[], map[];
    }

    function Snapshot(): Store
      reads this
    {
      Store(accounts, mailboxes, identities, emails, memberships, bodies, attachments, views, cursors, mutations)
    }
  }

  class MemoryChangeHub {
    var published: seq<seq<Hint>>

    constructor ()
      ensures published == []
    {
      published := [];
    }

    method Publish(hints: seq<Hint>)
      modifies this
      ensures published == old(published) + [hints]
    {
      published := published + [hints];
    }
  }

  method HasDuplicates<T, K(==)>(values: seq<T>, key: T -> K) returns (found: bool)
    ensures found <==> !NoDuplicates(KeysOf(values, key))
  {
    ghost var keys := KeysOf(values, key);
    var seen: set<K> := {};
    for i := 0 to |values|
      invariant forall j :: 0 <= j < i ==> keys[j] in seen
      invariant forall k <- seen :: k in keys[..i]
      invariant forall j, j' :: 0 <= j < j' < i ==> keys[j] != keys[j']
    {
      var current := key(values[i]);
      assert keys[i] == current && keys[..i + 1] == keys[..i] + [current];
      if current in seen {
        return true;
      }
      seen := seen + {current};
    }
    found := false;
  }

  function Itself(id: ScopedId): ScopedId { id }

  /** What the three commit validators share: scope, uniqueness, disjointness. */
  method ValidateChange<Rec>(c: Change<Rec>, account: string, idOf: Rec -> ScopedId) returns (ok: bool)
    ensures ok <==> ValidChange(c, account, idOf)
  {
    var records := c.Records();
    if exists i :: 0 <= i < |records| && idOf(records[i]).accountKey != account {
      return false;
    }
    var repeated := HasDuplicates(records, idOf);
    if repeated {
      return false;
    }
    if c.Replace? {
      return true;
    }
    var destroyed := c.destroyed;
    repeated := HasDuplicates(destroyed, Itself);
    assert KeysOf(destroyed, Itself) == destroyed;
    ok := && (forall id <- destroyed :: id.accountKey == account)
          && !repeated
          && !(exists i :: 0 <= i < |records| && idOf(records[i]) in destroyed);
    assert (exists id <- KeysOf(records, idOf) :: id in destroyed)
      <==> (exists i :: 0 <= i < |records| && idOf(records[i]) in destroyed);
  }

  /** What is left of the items while those of an account are being deleted. */
  function Remaining<T>(items: map<ScopedId, T>, pending: set<ScopedId>, account: string): map<ScopedId, T> {
    map id | id in items && (id in pending || id.accountKey != account) :: items[id]
  }

  lemma RemainingEnds<T>(items: map<ScopedId, T>, account: string)
    ensures Remaining(items, items.Keys, account) == items
    ensures Remaining(items, {}, account) == Cleared(items, true, [], account)
  {
  }

  lemma RemainingOneLess<T>(items: map<ScopedId, T>, pending: set<ScopedId>, account: string, key: ScopedId)
    requires key in pending && pending <= items.Keys
    ensures var left := Remaining(items, pending, account);
            Remaining(items, pending - {key}, account) == if key.accountKey == account then left - {key} else left
  {
  }

  lemma ClearedOneMore<T>(items: map<ScopedId, T>, destroyed: seq<ScopedId>, i: nat, account: string)
    requires i < |destroyed|
    ensures Cleared(items, false, destroyed[..i + 1], account) == Cleared(items, false, destroyed[..i], account) - {destroyed[i]}
  {
    assert destroyed[..i + 1] == destroyed[..i] + [destroyed[i]];
  }

  /** Deletes the account's values for a replacement, the destroyed ones for a delta. */
  method ClearValues<Rec>(items: map<ScopedId, Rec>, replace: bool, destroyed: seq<ScopedId>, account: string,
                          idOf: Rec -> ScopedId)
    returns (values: map<ScopedId, Rec>)
    requires forall id <- items :: idOf(items[id]) == id
    ensures values == Cleared(items, replace, destroyed, account)
  {
    values := items;
    if replace {
      var pending := items.Keys;
      RemainingEnds(items, account);
      while pending != {}
        invariant pending <= items.Keys && values == Remaining(items, pending, account)
        decreases pending
      {
        var key :| key in pending;
        RemainingOneLess(items, pending, account, key);
        if idOf(items[key]).accountKey == account {
          values := values - {key};
        }
        pending := pending - {key};
      }
    } else {
      for i := 0 to |destroyed|
        invariant values == Cleared(items, false, destroyed[..i], account)
      {
        ClearedOneMore(items, destroyed, i, account);
        values := values - {destroyed[i]};
      }
      assert destroyed[..|destroyed|] == destroyed;
    }
  }

  /** An email with its entries, if it has any, names the key it is stored under. */
  ghost predicate Owned(emails: map<ScopedId, Email>, memberships: map<ScopedId, seq<Membership>>) {
    forall key <- memberships ::
      key in emails && emails[key].id == key && (memberships[key] != [] ==> memberships[key][0].emailId == key)
  }

  lemma StoredEmailsAreOwned(s: Store)
    requires StoreOk(s)
    ensures Owned(s.emails, s.memberships)
  {
    forall key | key in s.memberships
      ensures key in s.emails && s.emails[key].id == key
      ensures s.memberships[key] != [] ==> s.memberships[key][0].emailId == key
    {
      assert MembershipsOk(s.memberships[key], key);
    }
  }

  /** The same deletion from the memberships: entries tell their email's account, an email
      without entries is looked up. */
  method ClearMemberships(emails: map<ScopedId, Email>, entries: map<ScopedId, seq<Membership>>,
                          replace: bool, destroyed: seq<ScopedId>, account: string)
    returns (memberships: map<ScopedId, seq<Membership>>)
    requires Owned(emails, entries)
    ensures memberships == Cleared(entries, replace, destroyed, account)
  {
    memberships := entries;
    if replace {
      var pending := entries.Keys;
      RemainingEnds(entries, account);
      while pending != {}
        invariant pending <= entries.Keys && memberships == Remaining(entries, pending, account)
        decreases pending
      {
        var key :| key in pending;
        var value := entries[key];
        RemainingOneLess(entries, pending, account, key);
        if (|value| > 0 && value[0].emailId.accountKey == account) || (key in emails && emails[key].id.accountKey == account) {
          memberships := memberships - {key};
        }
        pending := pending - {key};
      }
    } else {
      for i := 0 to |destroyed|
        invariant memberships == Cleared(entries, false, destroyed[..i], account)
      {
        ClearedOneMore(entries, destroyed, i, account);
        memberships := memberships - {destroyed[i]};
      }
      assert destroyed[..|destroyed|] == destroyed;
    }
  }

  lemma OneMoreRecord(cleared: map<ScopedId, EmailRecord>, records: seq<EmailRecord>, i: nat)
    requires i < |records|
    ensures var (before, after) := (PutAll(cleared, records[..i], RecordId), PutAll(cleared, records[..i + 1], RecordId));
            && EmailsOf(after) == EmailsOf(before)[records[i].email.id := records[i].email]
            && MembershipsOf(after) == MembershipsOf(before)[records[i].email.id := records[i].memberships]
  {
    assert records[..i + 1][..i] == records[..i];
  }

  /** Sets every email and its entries, unless a factory refuses one. */
  method SetEmailRecords(emails0: map<ScopedId, Email>, memberships0: map<ScopedId, seq<Membership>>,
                         records: seq<EmailRecord>,
                         ghost cleared: map<ScopedId, EmailRecord>)
    returns (threw: bool, emails: map<ScopedId, Email>, memberships: map<ScopedId, seq<Membership>>)
    requires emails0 == EmailsOf(cleared) && memberships0 == MembershipsOf(cleared)
    ensures threw <==> exists r <- records :: !UsableRecord(r)
    ensures !threw ==> emails == EmailsOf(PutAll(cleared, records, RecordId))
    ensures !threw ==> memberships == MembershipsOf(PutAll(cleared, records, RecordId))
  {
    threw, emails, memberships := false, emails0, memberships0;
    for i := 0 to |records|
      invariant emails == EmailsOf(PutAll(cleared, records[..i], RecordId))
      invariant memberships == MembershipsOf(PutAll(cleared, records[..i], RecordId))
      invariant forall j :: 0 <= j < i ==> UsableRecord(records[j])
    {
      var record := records[i];
      OneMoreRecord(cleared, records, i);
      if !UsableEmail(record.email) || exists entry <- record.memberships :: !UsableMembership(entry) {
        assert record in records && !UsableRecord(record);
        return true, emails, memberships;
      }
      emails := emails[record.email.id := record.email];
      memberships := memberships[record.email.id := record.memberships];
    }
    assert records[..|records|] == records;
  }

  /** Sets every record; `accepts` says which ones their factory clones, the first one
      refused throws and the copy made so far is dropped. */
  method SetRecords<Rec>(cleared: map<ScopedId, Rec>, records: seq<Rec>, idOf: Rec -> ScopedId, accepts: Rec -> bool)
    returns (result: Option<map<ScopedId, Rec>>)
    ensures result == if exists r <- records :: !accepts(r) then None else Some(PutAll(cleared, records, idOf))
  {
    var values := cleared;
    for i := 0 to |records|
      invariant values == PutAll(cleared, records[..i], idOf)
      invariant forall j :: 0 <= j < i ==> accepts(records[j])
    {
      if !accepts(records[i]) {
        return None;
      }
      values := values[idOf(records[i]) := records[i]];
      assert records[..i + 1][..i] == records[..i];
    }
    assert records[..|records|] == records;
    result := Some(values);
  }

  method CommitChange<Rec>(items: map<ScopedId, Rec>, c: Change<Rec>, account: string, idOf: Rec -> ScopedId,
                           accepts: Rec -> bool)
    returns (result: Option<map<ScopedId, Rec>>)
    requires forall id <- items :: idOf(items[id]) == id
    ensures result == if exists r <- c.Records() :: !accepts(r) then None else Some(Apply(items, c, account, idOf))
  {
    var values := ClearValues(items, c.Replace?, Destroyed(c), account, idOf);
    result := SetRecords(values, c.Records(), idOf, accepts);
  }

  lemma ClearedTogether(s: Store, replace: bool, destroyed: seq<ScopedId>, account: string)
    requires s.emails.Keys == s.memberships.Keys
    ensures EmailsOf(Cleared(Joined(s), replace, destroyed, account)) == Cleared(s.emails, replace, destroyed, account)
    ensures MembershipsOf(Cleared(Joined(s), replace, destroyed, account)) == Cleared(s.memberships, replace, destroyed, account)
  {
    var cleared := Cleared(Joined(s), replace, destroyed, account);
    assert EmailsOf(cleared).Keys == Cleared(s.emails, replace, destroyed, account).Keys;
    assert MembershipsOf(cleared).Keys == Cleared(s.memberships, replace, destroyed, account).Keys;
  }

  method ChangeKeywords(target: set<string>, add: set<string>, remove: set<string>) returns (keywords: set<string>)
    ensures keywords == target + add - remove
  {
    keywords := target;
    var pending := add;
    while pending != {}
      invariant pending <= add && keywords == target + (add - pending)
      decreases |pending|
    {
      var item :| item in pending;
      keywords := keywords + {item};
      pending := pending - {item};
    }
    pending := remove;
    while pending != {}
      invariant pending <= remove && keywords == target + add - (remove - pending)
      decreases |pending|
    {
      var item :| item in pending;
      keywords := keywords - {item};
      pending := pending - {item};
    }
  }

  method AddMailboxes(kept: seq<Membership>, emailId: ScopedId, add: seq<ScopedId>) returns (next: seq<Membership>)
    ensures next == WithMailboxes(kept, emailId, add)
  {
    next := kept;
    for i := 0 to |add|
      invariant next == WithMailboxes(kept, emailId, add[..i])
    {
      assert add[..i + 1][..i] == add[..i];
      if !exists entry <- next :: entry.mailboxId == add[i] {
        next := next + [Membership.Membership(emailId, add[i])];
      }
    }
    assert add[..|add|] == add;
  }

  class MemorySyncPort {
    const state: MemoryState
    const changes: MemoryChangeHub

    constructor (state: MemoryState, changes: MemoryChangeHub)
      ensures this.state == state && this.changes == changes
    {
      this.state, this.changes := state, changes;
    }

    ghost predicate Valid()
      reads state
    {
      StoreOk(state.Snapshot())
    }

    /** The engine did exactly what the write says, to its state, its answer and its listeners. */
    twostate predicate Did(c: Command, outcome: Outcome)
      reads state, changes
    {
      Wrote(Perform(old(state.Snapshot()), c), outcome)
    }

    twostate predicate Wrote(w: Write, outcome: Outcome)
      reads state, changes
    {
      && state.Snapshot() == w.store
      && outcome == w.outcome
      && changes.published == old(changes.published) + w.batches
    }

    method RegisterAccount(value: Account) returns (outcome: Outcome)
      requires Valid()
      modifies state, changes
      ensures Valid() && Did(Command.RegisterAccount(value), outcome)
    {
      ghost var was := state.Snapshot();
      outcome := StoreAccount(value);
      assert state.Snapshot() == Perform(was, Command.RegisterAccount(value)).store;
      PerformKeepsStoreOk(was, Command.RegisterAccount(value));
    }

    method StoreAccount(value: Account) returns (outcome: Outcome)
      modifies state, changes
      ensures Wrote(Register(old(state.Snapshot()), value), outcome)
    {
      if value.key in state.accounts {
        var current := state.accounts[value.key];
        if current.serviceKey != value.serviceKey || current.jmapAccountId != value.jmapAccountId {
          return Conflict;
        }
      } else {
        state.accounts := state.accounts[value.key := value];
      }
      changes.Publish([AccountsChanged]);
      outcome := Accepted;
    }

    method CursorPreconditionHolds(expected: Precondition, next: Cursor) returns (holds: bool)
      requires Valid()
      ensures holds == PreconditionHolds(state.Snapshot(), expected, next)
    {
      var key := (next.accountKey, next.dataType);
      match expected {
        case Absent => return key !in state.cursors;
        case Matches(cursor) =>
          if key !in state.cursors {
            return false;
          }
          var current := state.cursors[key];
          return && cursor.accountKey == next.accountKey
                 && cursor.dataType == next.dataType
                 && current.accountKey == cursor.accountKey
                 && current.dataType == cursor.dataType
                 && current.state == cursor.state;
      }
    }

    method ValidateEmailCommit(c: Change<EmailRecord>, account: string) returns (ok: bool)
      ensures ok <==> ValidChange(c, account, RecordId) && forall r <- c.Records() :: OwnsItsMemberships(r)
    {
      var records := c.Records();
      for i := 0 to |records|
        invariant forall j :: 0 <= j < i ==> OwnsItsMemberships(records[j])
      {
        var record := records[i];
        var repeated := HasDuplicates(record.memberships, (entry: Membership) => (entry.emailId, entry.mailboxId));
        ghost var keys := KeysOf(record.memberships, (entry: Membership) => (entry.emailId, entry.mailboxId));
        if repeated || exists entry <- record.memberships :: entry.emailId != record.email.id {
          assert !OwnsItsMemberships(record);
          return false;
        }
      }
      ok := ValidateChange(c, account, RecordId);
    }

    method CommitEmails(c: Change<EmailRecord>, account: string) returns (threw: bool)
      requires Valid()
      modifies state
      ensures threw <==> exists r <- c.Records() :: !UsableRecord(r)
      ensures var was := old(state.Snapshot());
              var records := Apply(Joined(was), c, account, RecordId);
              state.Snapshot() == if threw then was
                                  else was.(emails := EmailsOf(records), memberships := MembershipsOf(records))
    {
      ghost var was := state.Snapshot();
      StoredEmailsAreOwned(was);
      ClearedTogether(was, c.Replace?, Destroyed(c), account);
      var emails := ClearValues(state.emails, c.Replace?, Destroyed(c), account, (e: Email) => e.id);
      var memberships := ClearMemberships(state.emails, state.memberships, c.Replace?, Destroyed(c), account);
      threw, emails, memberships := SetEmailRecords(emails, memberships, c.Records(),
                                                    Cleared(Joined(was), c.Replace?, Destroyed(c), account));
      ghost var records := Apply(Joined(was), c, account, RecordId);
      assert !threw ==> emails == EmailsOf(records) && memberships == MembershipsOf(records);
      if !threw {
        state.emails := emails;
        state.memberships := memberships;
        assert state.Snapshot() == was.(emails := emails, memberships := memberships);
      }
    }

    method ApplyEmailCommit(commit: SyncCommit) returns (outcome: Outcome)
      requires Valid() && commit.EmailCommit? && MaySync(state.Snapshot(), commit)
      modifies state, changes
      ensures Wrote(ApplySync(old(state.Snapshot()), commit), outcome)
    {
      ghost var was := state.Snapshot();
      EmailSyncIs(was, commit);
      var accountKey := commit.next.accountKey;
      var valid := ValidateEmailCommit(commit.emails, accountKey);
      if !valid {
        return Conflict;
      }
      var threw := CommitEmails(commit.emails, accountKey);
      if threw {
        return Threw;
      }
      state.cursors := state.cursors[(accountKey, EmailData) := commit.next];
      assert state.Snapshot() == SyncedEmails(was, commit);
      changes.Publish(EmailHints(accountKey));
      outcome := Accepted;
    }

    method ApplyMailboxCommit(commit: SyncCommit) returns (outcome: Outcome)
      requires forall id <- state.mailboxes :: state.mailboxes[id].id == id
      requires commit.MailboxCommit? && MaySync(state.Snapshot(), commit)
      modifies state, changes
      ensures Wrote(ApplySync(old(state.Snapshot()), commit), outcome)
    {
      ghost var was := state.Snapshot();
      MailboxSyncIs(was, commit);
      var accountKey := commit.next.accountKey;
      var valid := ValidateChange(commit.mailboxes, accountKey, MailboxId);
      if !valid {
        return Conflict;
      }
      var values := CommitChange(state.mailboxes, commit.mailboxes, accountKey, MailboxId, UsableMailbox);
      if values.None? {
        return Threw;
      }
      state.mailboxes := values.value;
      state.cursors := state.cursors[(accountKey, MailboxData) := commit.next];
      changes.Publish([MailboxesChanged(accountKey), SyncCursorChanged(accountKey, MailboxData)]);
      assert state.Snapshot() == SyncedMailboxes(was, commit);
      outcome := Accepted;
    }

    method ApplyIdentityCommit(commit: SyncCommit) returns (outcome: Outcome)
      requires forall id <- state.identities :: state.identities[id].id == id
      requires commit.IdentityCommit? && MaySync(state.Snapshot(), commit)
      modifies state, changes
      ensures Wrote(ApplySync(old(state.Snapshot()), commit), outcome)
    {
      ghost var was := state.Snapshot();
      IdentitySyncIs(was, commit);
      var accountKey := commit.next.accountKey;
      var valid := ValidateChange(commit.identities, accountKey, IdentityId);
      if !valid {
        return Conflict;
      }
      var values := CommitChange(state.identities, commit.identities, accountKey, IdentityId, UsableIdentity);
      if values.None? {
        return Threw;
      }
      state.identities := values.value;
      state.cursors := state.cursors[(accountKey, IdentityData) := commit.next];
      changes.Publish([IdentitiesChanged(accountKey), SyncCursorChanged(accountKey, IdentityData)]);
      assert state.Snapshot() == SyncedIdentities(was, commit);
      outcome := Accepted;
    }

    method ApplyCollectionSync(commit: SyncCommit) returns (outcome: Outcome)
      requires Valid()
      modifies state, changes
      ensures Valid() && Did(Command.ApplyCollectionSync(commit), outcome)
    {
      SyncKeepsStoreOk(state.Snapshot(), commit);
      var holds := CursorPreconditionHolds(commit.expected, commit.next);
      if commit.next.accountKey !in state.accounts || commit.next.dataType != commit.Kind() || !holds {
        return Conflict;
      }
      match commit {
        case EmailCommit(_, _, _) => outcome := ApplyEmailCommit(commit);
        case MailboxCommit(_, _, _) => outcome := ApplyMailboxCommit(commit);
        case IdentityCommit(_, _, _) => outcome := ApplyIdentityCommit(commit);
      }
    }

    method CacheEmailBody(body: EmailBody) returns (outcome: Outcome)
      requires Valid()
      modifies state, changes
      ensures Valid() && Did(Command.CacheEmailBody(body), outcome)
    {
      ghost var was := state.Snapshot();
      outcome := StoreBody(body);
      assert state.Snapshot() == Perform(was, Command.CacheEmailBody(body)).store;
      PerformKeepsStoreOk(was, Command.CacheEmailBody(body));
    }

    method StoreBody(body: EmailBody) returns (outcome: Outcome)
      modifies state, changes
      ensures Wrote(CacheBody(old(state.Snapshot()), body), outcome)
    {
      if body.emailId !in state.emails {
        return Conflict;
      }
      state.bodies := state.bodies[body.emailId := body];
      changes.Publish([EmailBodyChanged(body.emailId)]);
      outcome := Accepted;
    }

    method ReplaceAttachmentRefs(emailId: ScopedId, refs: seq<Attachment>) returns (outcome: Outcome)
      requires Valid()
      modifies state, changes
      ensures Valid() && Did(Command.ReplaceAttachmentRefs(emailId, refs), outcome)
    {
      AttachmentsKeepStoreOk(state.Snapshot(), emailId, refs);
      outcome := WriteAttachments(emailId, refs);
    }

    method WriteAttachments(emailId: ScopedId, refs: seq<Attachment>) returns (outcome: Outcome)
      modifies state, changes
      ensures Wrote(ReplaceAttachments(old(state.Snapshot()), emailId, refs), outcome)
    {
      ghost var was := state.Snapshot();
      var repeated := HasDuplicates(refs, AttachmentKey);
      if emailId !in state.emails || (exists value <- refs :: value.emailId != emailId) || repeated {
        return Conflict;
      }
      if exists value <- refs :: !UsableAttachment(value) {
        return Threw;
      }
      state.attachments := state.attachments[emailId := refs];
      changes.Publish([AttachmentRefsChanged(emailId)]);
      assert state.Snapshot() == was.(attachments := was.attachments[emailId := refs]);
      outcome := Accepted;
    }

    method ReplaceMailboxView(view: View) returns (outcome: Outcome)
      requires Valid()
      modifies state, changes
      ensures Valid() && Did(Command.ReplaceMailboxView(view), outcome)
    {
      ghost var was := state.Snapshot();
      outcome := StoreView(view);
      assert state.Snapshot() == Perform(was, Command.ReplaceMailboxView(view)).store;
      PerformKeepsStoreOk(was, Command.ReplaceMailboxView(view));
    }

    method StoreView(view: View) returns (outcome: Outcome)
      modifies state, changes
      ensures Wrote(ReplaceView(old(state.Snapshot()), view), outcome)
    {
      if view.spec.mailboxId !in state.mailboxes {
        return Conflict;
      }
      var valid := ValidateMailboxView(view);
      if !valid {
        return Threw;
      }
      state.views := state.views[view.spec := view];
      changes.Publish([MailboxViewChanged(view.spec)]);
      outcome := Accepted;
    }

    method StageSendMutation(value: Mutation) returns (outcome: Outcome)
      requires Valid()
      modifies state, changes
      ensures Valid() && Did(Command.StageSend(value), outcome)
    {
      ghost var was := state.Snapshot();
      outcome := StoreMutation(value);
      assert state.Snapshot() == Perform(was, Command.StageSend(value)).store;
      PerformKeepsStoreOk(was, Command.StageSend(value));
    }

    method StoreMutation(value: Mutation) returns (outcome: Outcome)
      modifies state, changes
      ensures Wrote(Stage(old(state.Snapshot()), value), outcome)
    {
      if value.accountKey !in state.accounts || value.Key() in state.mutations {
        return Conflict;
      }
      state.mutations := state.mutations[value.Key() := value];
      changes.Publish([PendingMutationsChanged(value.accountKey)]);
      outcome := Accepted;
    }

    method ApplyOptimisticKeywordMutation(value: Mutation, emailId: ScopedId, add: set<string>, remove: set<string>)
      returns (outcome: Outcome)
      requires Valid()
      modifies state, changes
      ensures Valid() && Did(Command.ApplyKeywords(value, emailId, add, remove), outcome)
    {
      KeywordChangeKeepsStoreOk(state.Snapshot(), value, emailId, add, remove);
      outcome := WriteKeywords(value, emailId, add, remove);
    }

    method WriteKeywords(value: Mutation, emailId: ScopedId, add: set<string>, remove: set<string>) returns (outcome: Outcome)
      modifies state, changes
      ensures Wrote(ApplyKeywordChange(old(state.Snapshot()), value, emailId, add, remove), outcome)
    {
      if value.accountKey !in state.accounts || emailId !in state.emails || value.Key() in state.mutations {
        return Conflict;
      }
      var target := state.emails[emailId];
      var keywords := ChangeKeywords(target.keywords, add, remove);
      var next := target.(keywords := keywords);
      if !UsableEmail(next) {
        return Threw;
      }
      state.emails := state.emails[emailId := next];
      state.mutations := state.mutations[value.Key() := value];
      changes.Publish([EmailsChanged(value.accountKey), PendingMutationsChanged(value.accountKey)]);
      outcome := Accepted;
    }

    method ApplyOptimisticMailboxMembershipMutation(value: Mutation, emailId: ScopedId, add: seq<ScopedId>,
                                                    remove: seq<ScopedId>)
      returns (outcome: Outcome)
      requires Valid()
      modifies state, changes
      ensures Valid() && Did(Command.ApplyMemberships(value, emailId, add, remove), outcome)
    {
      MembershipChangeKeepsStoreOk(state.Snapshot(), value, emailId, add, remove);
      outcome := WriteMemberships(value, emailId, add, remove);
    }

    method WriteMemberships(value: Mutation, emailId: ScopedId, add: seq<ScopedId>, remove: seq<ScopedId>)
      returns (outcome: Outcome)
      modifies state, changes
      ensures Wrote(ApplyMembershipChange(old(state.Snapshot()), value, emailId, add, remove), outcome)
    {
      ghost var was := state.Snapshot();
      if value.accountKey !in state.accounts || emailId !in state.emails || value.Key() in state.mutations {
        return Conflict;
      }
      if exists id <- add + remove :: id !in state.mailboxes {
        return Conflict;
      }
      var current := if emailId in state.memberships then state.memberships[emailId] else [];
      var next := AddMailboxes(WithoutMailboxes(current, remove), emailId, add);
      if next == [] {
        return Conflict;
      }
      if exists entry <- next :: !UsableMembership(entry) {
        return Threw;
      }
      state.memberships := state.memberships[emailId := next];
      state.mutations := state.mutations[value.Key() := value];
      changes.Publish([EmailMembershipsChanged(value.accountKey), PendingMutationsChanged(value.accountKey)]);
      assert state.Snapshot() ==
             was.(memberships := was.memberships[emailId := next], mutations := was.mutations[value.Key() := value]);
      outcome := Accepted;
    }

    method ReplacePendingMutationIfCurrent(expected: Mutation, next: Mutation) returns (outcome: Outcome)
      requires Valid()
      modifies state, changes
      ensures Valid() && Did(Command.ReplacePending(expected, next), outcome)
    {
      ghost var was := state.Snapshot();
      outcome := SwapPending(expected, next);
      assert state.Snapshot() == Perform(was, Command.ReplacePending(expected, next)).store;
      PerformKeepsStoreOk(was, Command.ReplacePending(expected, next));
    }

    method SwapPending(expected: Mutation, next: Mutation) returns (outcome: Outcome)
      modifies state, changes
      ensures var was := old(state.Snapshot());
              Wrote(UpdateRows(was, expected.accountKey, ReplaceIfCurrent(was.mutations, expected, next)), outcome)
    {
      var key := expected.Key();
      if key !in state.mutations || !MutationsEqual(state.mutations[key], expected)
         || !SameImmutable(expected, next) || !ValidTransition(expected, next) {
        return Conflict;
      }
      state.mutations := state.mutations[key := next];
      changes.Publish([PendingMutationsChanged(expected.accountKey)]);
      outcome := Accepted;
    }

    method RemoveConfirmedMutation(accountKey: string, mutationId: string) returns (outcome: Outcome)
      requires Valid()
      modifies state, changes
      ensures Valid() && Did(Command.RemoveConfirmedMutation(accountKey, mutationId), outcome)
    {
      ghost var was := state.Snapshot();
      outcome := DropConfirmed(accountKey, mutationId);
      assert state.Snapshot() == Perform(was, Command.RemoveConfirmedMutation(accountKey, mutationId)).store;
      PerformKeepsStoreOk(was, Command.RemoveConfirmedMutation(accountKey, mutationId));
    }

    method DropConfirmed(accountKey: string, mutationId: string) returns (outcome: Outcome)
      modifies state, changes
      ensures var was := old(state.Snapshot());
              Wrote(UpdateRows(was, accountKey, RemoveConfirmed(was.mutations, (accountKey, mutationId))), outcome)
    {
      var key := (accountKey, mutationId);
      if key !in state.mutations || !state.mutations[key].lifecycle.Confirmed? {
        return Conflict;
      }
      state.mutations := state.mutations - {key};
      changes.Publish([PendingMutationsChanged(accountKey)]);
      outcome := Accepted;
    }
  }
}
