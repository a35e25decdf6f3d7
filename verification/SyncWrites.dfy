/** The ten writes of the sync port as functions on the whole local replica: what
    `src/adapters/memory/memory-sync-port.ts` computes, and what every sequence of such
    writes keeps. Its string-keyed maps are keyed here by the ids themselves, which
    `CompoundKeys` justifies. */
module SyncWrites {
  import opened Base
  import opened SendIntents
  import opened Records
  import opened Collections
  import opened MailboxViews
  import opened PendingMutations
  import opened MutationCas

  type CursorKey = (string, DataType)

  datatype Store = Store(
    accounts: map<string, Account>,
    mailboxes: map<ScopedId, Mailbox>,
    identities: map<ScopedId, Identity>,
    emails: map<ScopedId, Email>,
    memberships: map<ScopedId, seq<Membership>>,
    bodies: map<ScopedId, EmailBody>,
    attachments: map<ScopedId, seq<Attachment>>,
    views: map<ViewSpec, View>,
    cursors: map<CursorKey, Cursor>,
    mutations: Rows)

  const EMPTY := Store(map[], map[], map[], map[], map[], map[], map[], map[], map[], map[])

  datatype Hint =
    | AccountsChanged
    | MailboxesChanged(account: string)
    | IdentitiesChanged(account: string)
    | EmailsChanged(account: string)
    | EmailMembershipsChanged(account: string)
    | EmailBodyChanged(emailId: ScopedId)
    | AttachmentRefsChanged(emailId: ScopedId)
    | MailboxViewChanged(spec: ViewSpec)
    | SyncCursorChanged(account: string, dataType: DataType)
    | PendingMutationsChanged(account: string)

  datatype Precondition = Absent | Matches(cursor: Cursor)

  datatype EmailRecord = EmailRecord(email: Email, memberships: seq<Membership>)

  datatype SyncCommit =
    | EmailCommit(expected: Precondition, next: Cursor, emails: Change<EmailRecord>)
    | MailboxCommit(expected: Precondition, next: Cursor, mailboxes: Change<Mailbox>)
    | IdentityCommit(expected: Precondition, next: Cursor, identities: Change<Identity>)
  {
    function Kind(): DataType {
      match this
      case EmailCommit(_, _, _) => EmailData
      case MailboxCommit(_, _, _) => MailboxData
      case IdentityCommit(_, _, _) => IdentityData
    }
  }

  datatype Command =
    | RegisterAccount(account: Account)
    | ApplyCollectionSync(commit: SyncCommit)
    | CacheEmailBody(body: EmailBody)
    | ReplaceAttachmentRefs(emailId: ScopedId, refs: seq<Attachment>)
    | ReplaceMailboxView(view: View)
    | StageSend(m: Mutation)
    | ApplyKeywords(m: Mutation, emailId: ScopedId, add: set<string>, remove: set<string>)
    | ApplyMemberships(m: Mutation, emailId: ScopedId, addTo: seq<ScopedId>, removeFrom: seq<ScopedId>)
    | ReplacePending(expected: Mutation, next: Mutation)
    | RemoveConfirmedMutation(accountKey: string, mutationId: string)

  /** A conflict is answered; a record its factory refuses makes the write throw. */
  datatype Outcome = Accepted | Conflict | Threw

  datatype Write = Write(store: Store, outcome: Outcome, batches: seq<seq<Hint>>)

  function Rejected(s: Store, outcome: Outcome): Write {
    Write(s, outcome, [])
  }

  function Committed(s: Store, hints: seq<Hint>): Write {
    Write(s, Accepted, [hints])
  }

  // ---- Collection commits ----

  function MailboxId(m: Mailbox): ScopedId { m.id }

  function IdentityId(i: Identity): ScopedId { i.id }

  function RecordId(r: EmailRecord): ScopedId { r.email.id }

  predicate PreconditionHolds(s: Store, expected: Precondition, next: Cursor) {
    var key := (next.accountKey, next.dataType);
    match expected
    case Absent => key !in s.cursors
    case Matches(cursor) => cursor.accountKey == next.accountKey && cursor.dataType == next.dataType
                            && key in s.cursors && s.cursors[key] == cursor
  }

  /** An email and its memberships are one synchronized record, stored in two maps. */
  function Joined(s: Store): map<ScopedId, EmailRecord> {
    map id | id in s.emails && id in s.memberships :: EmailRecord(s.emails[id], s.memberships[id])
  }

  function EmailsOf(records: map<ScopedId, EmailRecord>): map<ScopedId, Email> {
    map id | id in records :: records[id].email
  }

  function MembershipsOf(records: map<ScopedId, EmailRecord>): map<ScopedId, seq<Membership>> {
    map id | id in records :: records[id].memberships
  }

  predicate OwnsItsMemberships(r: EmailRecord) {
    (forall i :: 0 <= i < |r.memberships| ==> r.memberships[i].emailId == r.email.id) && NoDuplicates(r.memberships)
  }

  predicate UsableRecord(r: EmailRecord) {
    UsableEmail(r.email) && forall i :: 0 <= i < |r.memberships| ==> UsableMembership(r.memberships[i])
  }

  function ApplySync(s: Store, commit: SyncCommit): Write {
    var account := commit.next.accountKey;
    var cursors := s.cursors[(account, commit.Kind()) := commit.next];
    var cursorChanged := SyncCursorChanged(account, commit.Kind());
    if account !in s.accounts || commit.next.dataType != commit.Kind()
       || !PreconditionHolds(s, commit.expected, commit.next) then Rejected(s, Conflict)
    else match commit
      case EmailCommit(_, _, c) =>
        if !ValidChange(c, account, RecordId) || exists r <- c.Records() :: !OwnsItsMemberships(r) then Rejected(s, Conflict)
        else if exists r <- c.Records() :: !UsableRecord(r) then Rejected(s, Threw)
        else
          var records := Apply(Joined(s), c, account, RecordId);
          Committed(s.(emails := EmailsOf(records), memberships := MembershipsOf(records), cursors := cursors),
                    [EmailsChanged(account), EmailMembershipsChanged(account), cursorChanged])
      case MailboxCommit(_, _, c) =>
        if !ValidChange(c, account, MailboxId) then Rejected(s, Conflict)
        else if exists m <- c.Records() :: !UsableMailbox(m) then Rejected(s, Threw)
        else Committed(s.(mailboxes := Apply(s.mailboxes, c, account, MailboxId), cursors := cursors),
                       [MailboxesChanged(account), cursorChanged])
      case IdentityCommit(_, _, c) =>
        if !ValidChange(c, account, IdentityId) then Rejected(s, Conflict)
        else if exists i <- c.Records() :: !UsableIdentity(i) then Rejected(s, Threw)
        else Committed(s.(identities := Apply(s.identities, c, account, IdentityId), cursors := cursors),
                       [IdentitiesChanged(account), cursorChanged])
  }

  /** What an accepted email commit leaves. */
  function SyncedEmails(s: Store, commit: SyncCommit): Store
    requires commit.EmailCommit?
  {
    var records := Apply(Joined(s), commit.emails, commit.next.accountKey, RecordId);
    s.(emails := EmailsOf(records), memberships := MembershipsOf(records),
       cursors := s.cursors[(commit.next.accountKey, EmailData) := commit.next])
  }

  function EmailHints(account: string): seq<Hint> {
    [EmailsChanged(account), EmailMembershipsChanged(account), SyncCursorChanged(account, EmailData)]
  }

  predicate MaySync(s: Store, commit: SyncCommit) {
    && commit.next.accountKey in s.accounts && commit.next.dataType == commit.Kind()
    && PreconditionHolds(s, commit.expected, commit.next)
  }

  lemma EmailSyncIs(s: Store, commit: SyncCommit)
    requires commit.EmailCommit? && MaySync(s, commit)
    ensures var (c, account) := (commit.emails, commit.next.accountKey);
            ApplySync(s, commit) ==
            if !ValidChange(c, account, RecordId) || exists r <- c.Records() :: !OwnsItsMemberships(r) then Rejected(s, Conflict)
            else if exists r <- c.Records() :: !UsableRecord(r) then Rejected(s, Threw)
            else Committed(SyncedEmails(s, commit), EmailHints(account))
  {
  }

  function SyncedMailboxes(s: Store, commit: SyncCommit): Store
    requires commit.MailboxCommit?
  {
    var account := commit.next.accountKey;
    s.(mailboxes := Apply(s.mailboxes, commit.mailboxes, account, MailboxId),
       cursors := s.cursors[(account, MailboxData) := commit.next])
  }

  lemma MailboxSyncIs(s: Store, commit: SyncCommit)
    requires commit.MailboxCommit? && MaySync(s, commit)
    ensures var (c, account) := (commit.mailboxes, commit.next.accountKey);
            ApplySync(s, commit) ==
            if !ValidChange(c, account, MailboxId) then Rejected(s, Conflict)
            else if exists m <- c.Records() :: !UsableMailbox(m) then Rejected(s, Threw)
            else Committed(SyncedMailboxes(s, commit), [MailboxesChanged(account), SyncCursorChanged(account, MailboxData)])
  {
  }

  function SyncedIdentities(s: Store, commit: SyncCommit): Store
    requires commit.IdentityCommit?
  {
    var account := commit.next.accountKey;
    s.(identities := Apply(s.identities, commit.identities, account, IdentityId),
       cursors := s.cursors[(account, IdentityData) := commit.next])
  }

  lemma IdentitySyncIs(s: Store, commit: SyncCommit)
    requires commit.IdentityCommit? && MaySync(s, commit)
    ensures var (c, account) := (commit.identities, commit.next.accountKey);
            ApplySync(s, commit) ==
            if !ValidChange(c, account, IdentityId) then Rejected(s, Conflict)
            else if exists i <- c.Records() :: !UsableIdentity(i) then Rejected(s, Threw)
            else Committed(SyncedIdentities(s, commit), [IdentitiesChanged(account), SyncCursorChanged(account, IdentityData)])
  {
  }

  // ---- Optimistic writes ----

  function WithoutMailboxes(entries: seq<Membership>, remove: seq<ScopedId>): (r: seq<Membership>)
    ensures forall entry :: entry in r <==> entry in entries && entry.mailboxId !in remove
    ensures NoDuplicates(entries) ==> NoDuplicates(r)
  {
    if entries == [] then []
    else
      var before, last := WithoutMailboxes(entries[..|entries| - 1], remove), entries[|entries| - 1];
      assert entries == entries[..|entries| - 1] + [last];
      if last.mailboxId in remove then before else before + [last]
  }

  function WithMailboxes(entries: seq<Membership>, emailId: ScopedId, add: seq<ScopedId>): seq<Membership> {
    if add == [] then entries
    else
      var before := WithMailboxes(entries, emailId, add[..|add| - 1]);
      if exists entry <- before :: entry.mailboxId == add[|add| - 1] then before
      else before + [Membership.Membership(emailId, add[|add| - 1])]
  }

  function ApplyKeywordChange(s: Store, m: Mutation, emailId: ScopedId, add: set<string>, remove: set<string>): Write {
    if m.accountKey !in s.accounts || emailId !in s.emails || m.Key() in s.mutations then Rejected(s, Conflict)
    else
      var next := s.emails[emailId].(keywords := s.emails[emailId].keywords + add - remove);
      if !UsableEmail(next) then Rejected(s, Threw)
      else Committed(s.(emails := s.emails[emailId := next], mutations := s.mutations[m.Key() := m]),
                     [EmailsChanged(m.accountKey), PendingMutationsChanged(m.accountKey)])
  }

  function ApplyMembershipChange(s: Store, m: Mutation, emailId: ScopedId, add: seq<ScopedId>,
                                 remove: seq<ScopedId>): Write {
    if m.accountKey !in s.accounts || emailId !in s.emails || m.Key() in s.mutations then Rejected(s, Conflict)
    else if exists id <- add + remove :: id !in s.mailboxes then Rejected(s, Conflict)
    else
      var current := if emailId in s.memberships then s.memberships[emailId] else [];
      var next := WithMailboxes(WithoutMailboxes(current, remove), emailId, add);
      if next == [] then Rejected(s, Conflict)
      else if exists entry <- next :: !UsableMembership(entry) then Rejected(s, Threw)
      else Committed(s.(memberships := s.memberships[emailId := next], mutations := s.mutations[m.Key() := m]),
                     [EmailMembershipsChanged(m.accountKey), PendingMutationsChanged(m.accountKey)])
  }

  // ---- Every write ----

  function Register(s: Store, account: Account): Write {
    if account.key in s.accounts then
      var current := s.accounts[account.key];
      if current.serviceKey != account.serviceKey || current.jmapAccountId != account.jmapAccountId
      then Rejected(s, Conflict)
      else Committed(s, [AccountsChanged])
    else Committed(s.(accounts := s.accounts[account.key := account]), [AccountsChanged])
  }

  function AttachmentKey(a: Attachment): (ScopedId, string) {
    (a.emailId, a.partId)
  }

  function CacheBody(s: Store, body: EmailBody): Write {
    if body.emailId !in s.emails then Rejected(s, Conflict)
    else Committed(s.(bodies := s.bodies[body.emailId := body]), [EmailBodyChanged(body.emailId)])
  }

  function ReplaceAttachments(s: Store, id: ScopedId, refs: seq<Attachment>): Write {
    if id !in s.emails || (exists r <- refs :: r.emailId != id) || !NoDuplicates(KeysOf(refs, AttachmentKey))
    then Rejected(s, Conflict)
    else if exists r <- refs :: !UsableAttachment(r) then Rejected(s, Threw)
    else Committed(s.(attachments := s.attachments[id := refs]), [AttachmentRefsChanged(id)])
  }

  ghost function ReplaceView(s: Store, view: View): Write {
    if view.spec.mailboxId !in s.mailboxes then Rejected(s, Conflict)
    else if !ValidView(view) then Rejected(s, Threw)
    else Committed(s.(views := s.views[view.spec := view]), [MailboxViewChanged(view.spec)])
  }

  function Stage(s: Store, m: Mutation): Write {
    if m.accountKey !in s.accounts || m.Key() in s.mutations then Rejected(s, Conflict)
    else Committed(s.(mutations := s.mutations[m.Key() := m]), [PendingMutationsChanged(m.accountKey)])
  }

  /** A compare-and-swap or a removal on the mutation rows, decided by `MutationCas`. */
  function UpdateRows(s: Store, account: string, result: (Rows, bool)): Write {
    if result.1 then Committed(s.(mutations := result.0), [PendingMutationsChanged(account)]) else Rejected(s, Conflict)
  }

  ghost function Perform(s: Store, c: Command): (w: Write)
    ensures !w.outcome.Accepted? ==> w.store == s && w.batches == []
  {
    match c
    case RegisterAccount(account) => Register(s, account)
    case ApplyCollectionSync(commit) => ApplySync(s, commit)
    case CacheEmailBody(body) => CacheBody(s, body)
    case ReplaceAttachmentRefs(id, refs) => ReplaceAttachments(s, id, refs)
    case ReplaceMailboxView(view) => ReplaceView(s, view)
    case StageSend(m) => Stage(s, m)
    case ApplyKeywords(m, id, add, remove) => ApplyKeywordChange(s, m, id, add, remove)
    case ApplyMemberships(m, id, add, remove) => ApplyMembershipChange(s, m, id, add, remove)
    case ReplacePending(expected, next) => UpdateRows(s, expected.accountKey, ReplaceIfCurrent(s.mutations, expected, next))
    case RemoveConfirmedMutation(account, id) => UpdateRows(s, account, RemoveConfirmed(s.mutations, (account, id)))
  }

  ghost function PerformAll(s: Store, commands: seq<Command>): Store {
    if commands == [] then s
    else Perform(PerformAll(s, commands[..|commands| - 1]), commands[|commands| - 1]).store
  }

  // ---- What every write keeps ----

  ghost predicate EmailsOk(accounts: set<string>, emails: map<ScopedId, Email>,
                           memberships: map<ScopedId, seq<Membership>>) {
    && emails.Keys == memberships.Keys
    && forall id <- emails ::
         emails[id].id == id && id.accountKey in accounts && UsableEmail(emails[id]) && MembershipsOk(memberships[id], id)
  }

  /** Each entry is of the email itself and of one of its account's mailboxes, none twice. */
  ghost predicate MembershipsOk(entries: seq<Membership>, id: ScopedId) {
    && (forall i :: 0 <= i < |entries| ==> entries[i].emailId == id && UsableMembership(entries[i]))
    && NoDuplicates(entries)
  }

  ghost predicate MailboxesOk(accounts: set<string>, mailboxes: map<ScopedId, Mailbox>) {
    forall id <- mailboxes :: mailboxes[id].id == id && id.accountKey in accounts && UsableMailbox(mailboxes[id])
  }

  ghost predicate IdentitiesOk(accounts: set<string>, identities: map<ScopedId, Identity>) {
    forall id <- identities :: identities[id].id == id && id.accountKey in accounts && UsableIdentity(identities[id])
  }

  ghost predicate BodiesOk(accounts: set<string>, bodies: map<ScopedId, EmailBody>) {
    forall id <- bodies :: bodies[id].emailId == id && id.accountKey in accounts
  }

  ghost predicate AttachmentsOk(accounts: set<string>, attachments: map<ScopedId, seq<Attachment>>) {
    forall id <- attachments :: id.accountKey in accounts && RefsOk(attachments[id], id)
  }

  ghost predicate RefsOk(refs: seq<Attachment>, id: ScopedId) {
    && (forall i :: 0 <= i < |refs| ==> refs[i].emailId == id && UsableAttachment(refs[i]))
    && NoDuplicates(KeysOf(refs, AttachmentKey))
  }

  ghost predicate ViewsOk(accounts: set<string>, views: map<ViewSpec, View>) {
    forall spec <- views :: views[spec].spec == spec && spec.mailboxId.accountKey in accounts && ValidView(views[spec])
  }

  ghost predicate CursorsOk(accounts: set<string>, cursors: map<CursorKey, Cursor>) {
    forall key <- cursors :: (cursors[key].accountKey, cursors[key].dataType) == key && key.0 in accounts
  }

  ghost predicate RowsOk(accounts: set<string>, rows: Rows) {
    forall key <- rows :: rows[key].Key() == key && key.0 in accounts
  }

  /** Every record sits under its own id, was accepted by its factory and belongs to a
      registered account; an email has memberships, its own and none twice, exactly while
      it exists. */
  ghost predicate StoreOk(s: Store) {
    var accounts := s.accounts.Keys;
    && (forall key <- s.accounts :: s.accounts[key].key == key)
    && EmailsOk(accounts, s.emails, s.memberships)
    && MailboxesOk(accounts, s.mailboxes)
    && IdentitiesOk(accounts, s.identities)
    && BodiesOk(accounts, s.bodies)
    && AttachmentsOk(accounts, s.attachments)
    && ViewsOk(accounts, s.views)
    && CursorsOk(accounts, s.cursors)
    && RowsOk(accounts, s.mutations)
  }

  lemma EmailCommitKeepsEmailsOk(s: Store, c: Change<EmailRecord>, account: string)
    requires StoreOk(s) && account in s.accounts && ValidChange(c, account, RecordId)
    requires forall r <- c.Records() :: OwnsItsMemberships(r) && UsableRecord(r)
    ensures var records := Apply(Joined(s), c, account, RecordId);
            EmailsOk(s.accounts.Keys, EmailsOf(records), MembershipsOf(records))
  {
    var records := Apply(Joined(s), c, account, RecordId);
    forall id | id in records
      ensures records[id].email.id == id && id.accountKey in s.accounts
      ensures UsableEmail(records[id].email) && MembershipsOk(records[id].memberships, id)
    {
      ApplyAt(Joined(s), c, account, RecordId, id);
      if id.accountKey != account {
        AppliedElsewhere(Joined(s), c, account, RecordId, id);
      }
    }
  }

  /** A change touches nothing of another account. */
  lemma AppliedElsewhere<Rec>(items: map<ScopedId, Rec>, c: Change<Rec>, account: string, idOf: Rec -> ScopedId,
                              id: ScopedId)
    requires ValidChange(c, account, idOf) && id.accountKey != account
    ensures var r := Apply(items, c, account, idOf);
            (id in r <==> id in items) && (id in items ==> r[id] == items[id])
  {
    ApplyAt(items, c, account, idOf, id);
  }

  lemma MailboxCommitKeepsMailboxesOk(s: Store, c: Change<Mailbox>, account: string)
    requires StoreOk(s) && account in s.accounts && ValidChange(c, account, MailboxId)
    requires forall m <- c.Records() :: UsableMailbox(m)
    ensures MailboxesOk(s.accounts.Keys, Apply(s.mailboxes, c, account, MailboxId))
  {
    var r := Apply(s.mailboxes, c, account, MailboxId);
    forall id | id in r
      ensures r[id].id == id && id.accountKey in s.accounts && UsableMailbox(r[id])
    {
      ApplyAt(s.mailboxes, c, account, MailboxId, id);
      if id.accountKey != account {
        AppliedElsewhere(s.mailboxes, c, account, MailboxId, id);
      }
    }
  }

  lemma IdentityCommitKeepsIdentitiesOk(s: Store, c: Change<Identity>, account: string)
    requires StoreOk(s) && account in s.accounts && ValidChange(c, account, IdentityId)
    requires forall i <- c.Records() :: UsableIdentity(i)
    ensures IdentitiesOk(s.accounts.Keys, Apply(s.identities, c, account, IdentityId))
  {
    var r := Apply(s.identities, c, account, IdentityId);
    forall id | id in r
      ensures r[id].id == id && id.accountKey in s.accounts && UsableIdentity(r[id])
    {
      ApplyAt(s.identities, c, account, IdentityId, id);
      if id.accountKey != account {
        AppliedElsewhere(s.identities, c, account, IdentityId, id);
      }
    }
  }

  lemma EmailSyncKeepsStoreOk(s: Store, commit: SyncCommit)
    requires StoreOk(s) && commit.EmailCommit? && ApplySync(s, commit).outcome.Accepted?
    ensures StoreOk(ApplySync(s, commit).store)
  {
    var account := commit.next.accountKey;
    EmailCommitKeepsEmailsOk(s, commit.emails, account);
    NewCursorOk(s, commit);
  }

  lemma MailboxSyncKeepsStoreOk(s: Store, commit: SyncCommit)
    requires StoreOk(s) && commit.MailboxCommit? && ApplySync(s, commit).outcome.Accepted?
    ensures StoreOk(ApplySync(s, commit).store)
  {
    MailboxCommitKeepsMailboxesOk(s, commit.mailboxes, commit.next.accountKey);
    NewCursorOk(s, commit);
  }

  lemma IdentitySyncKeepsStoreOk(s: Store, commit: SyncCommit)
    requires StoreOk(s) && commit.IdentityCommit? && ApplySync(s, commit).outcome.Accepted?
    ensures StoreOk(ApplySync(s, commit).store)
  {
    IdentityCommitKeepsIdentitiesOk(s, commit.identities, commit.next.accountKey);
    NewCursorOk(s, commit);
  }

  lemma NewCursorOk(s: Store, commit: SyncCommit)
    requires StoreOk(s) && commit.next.accountKey in s.accounts && commit.next.dataType == commit.Kind()
    ensures CursorsOk(s.accounts.Keys, s.cursors[(commit.next.accountKey, commit.Kind()) := commit.next])
  {
  }

  lemma SyncKeepsStoreOk(s: Store, commit: SyncCommit)
    requires StoreOk(s)
    ensures StoreOk(ApplySync(s, commit).store)
  {
    if ApplySync(s, commit).outcome.Accepted? {
      match commit {
        case EmailCommit(_, _, _) => EmailSyncKeepsStoreOk(s, commit);
        case MailboxCommit(_, _, _) => MailboxSyncKeepsStoreOk(s, commit);
        case IdentityCommit(_, _, _) => IdentitySyncKeepsStoreOk(s, commit);
      }
    }
  }

  lemma {:induction false} WithMailboxesOk(entries: seq<Membership>, emailId: ScopedId, add: seq<ScopedId>)
    requires forall i :: 0 <= i < |entries| ==> entries[i].emailId == emailId
    requires NoDuplicates(entries)
    ensures var r := WithMailboxes(entries, emailId, add);
            && NoDuplicates(r)
            && (forall i :: 0 <= i < |r| ==> r[i].emailId == emailId)
            && (forall entry :: entry in r <==> entry in entries || (entry.emailId == emailId && entry.mailboxId in add))
  {
    if add != [] {
      WithMailboxesOk(entries, emailId, add[..|add| - 1]);
      assert add == add[..|add| - 1] + [add[|add| - 1]];
    }
  }

  lemma ChangedMembershipsOk(entries: seq<Membership>, id: ScopedId, add: seq<ScopedId>, remove: seq<ScopedId>)
    requires MembershipsOk(entries, id)
    requires forall entry <- WithMailboxes(WithoutMailboxes(entries, remove), id, add) :: UsableMembership(entry)
    ensures MembershipsOk(WithMailboxes(WithoutMailboxes(entries, remove), id, add), id)
  {
    var kept := WithoutMailboxes(entries, remove);
    assert forall i :: 0 <= i < |kept| ==> kept[i] in entries;
    WithMailboxesOk(kept, id, add);
    var next := WithMailboxes(kept, id, add);
    assert forall i :: 0 <= i < |next| ==> next[i] in next;
  }

  lemma MembershipChangeKeepsStoreOk(s: Store, m: Mutation, id: ScopedId, add: seq<ScopedId>, remove: seq<ScopedId>)
    requires StoreOk(s)
    ensures StoreOk(ApplyMembershipChange(s, m, id, add, remove).store)
  {
    var w := ApplyMembershipChange(s, m, id, add, remove);
    if w.outcome.Accepted? {
      var next := WithMailboxes(WithoutMailboxes(s.memberships[id], remove), id, add);
      assert w.store == s.(memberships := s.memberships[id := next], mutations := s.mutations[m.Key() := m]);
      ChangedMembershipsOk(s.memberships[id], id, add, remove);
      StoredMembershipsOk(s, m, id, next);
    }
  }

  lemma StoredMembershipsOk(s: Store, m: Mutation, id: ScopedId, entries: seq<Membership>)
    requires StoreOk(s) && id in s.emails && m.accountKey in s.accounts && MembershipsOk(entries, id)
    ensures StoreOk(s.(memberships := s.memberships[id := entries], mutations := s.mutations[m.Key() := m]))
  {
    assert EmailsOk(s.accounts.Keys, s.emails, s.memberships[id := entries]);
    assert RowsOk(s.accounts.Keys, s.mutations[m.Key() := m]);
  }

  lemma ReplacementKeepsRowsOk(s: Store, expected: Mutation, next: Mutation)
    requires StoreOk(s)
    ensures RowsOk(s.accounts.Keys, ReplaceIfCurrent(s.mutations, expected, next).0)
  {
    if ReplaceIfCurrent(s.mutations, expected, next).1 {
      MutationsEqualExact(s.mutations[expected.Key()], expected);
      MutationsEqualExact(expected.(lifecycle := Pending(0)), next.(lifecycle := Pending(0)));
    }
  }

  lemma CollectionsStayOk(s: Store, accounts: set<string>)
    requires StoreOk(s) && s.accounts.Keys <= accounts
    ensures EmailsOk(accounts, s.emails, s.memberships) && MailboxesOk(accounts, s.mailboxes) && IdentitiesOk(accounts, s.identities)
  {
  }

  lemma CachesStayOk(s: Store, accounts: set<string>)
    requires StoreOk(s) && s.accounts.Keys <= accounts
    ensures BodiesOk(accounts, s.bodies) && AttachmentsOk(accounts, s.attachments)
    ensures CursorsOk(accounts, s.cursors) && RowsOk(accounts, s.mutations)
  {
  }

  lemma ViewsStayOk(s: Store, accounts: set<string>)
    requires StoreOk(s) && s.accounts.Keys <= accounts
    ensures ViewsOk(accounts, s.views)
  {
  }

  lemma AccountAddedStoreOk(s: Store, accounts: map<string, Account>)
    requires StoreOk(s) && s.accounts.Keys <= accounts.Keys
    requires forall key <- accounts :: accounts[key].key == key
    ensures StoreOk(s.(accounts := accounts))
  {
    CollectionsStayOk(s, accounts.Keys);
    CachesStayOk(s, accounts.Keys);
    ViewsStayOk(s, accounts.Keys);
  }

  lemma RegisterKeepsStoreOk(s: Store, account: Account)
    requires StoreOk(s)
    ensures StoreOk(Register(s, account).store)
  {
    if account.key !in s.accounts {
      AccountAddedStoreOk(s, s.accounts[account.key := account]);
    }
  }

  lemma AcceptedRefsOk(refs: seq<Attachment>, id: ScopedId)
    requires forall r <- refs :: r.emailId == id && UsableAttachment(r)
    requires NoDuplicates(KeysOf(refs, AttachmentKey))
    ensures RefsOk(refs, id)
  {
    assert forall i :: 0 <= i < |refs| ==> refs[i] in refs;
  }

  lemma StoredRefsOk(s: Store, id: ScopedId, refs: seq<Attachment>)
    requires StoreOk(s) && id in s.emails && RefsOk(refs, id)
    ensures StoreOk(s.(attachments := s.attachments[id := refs]))
  {
    assert AttachmentsOk(s.accounts.Keys, s.attachments[id := refs]);
  }

  lemma AttachmentsKeepStoreOk(s: Store, id: ScopedId, refs: seq<Attachment>)
    requires StoreOk(s)
    ensures StoreOk(ReplaceAttachments(s, id, refs).store)
  {
    if ReplaceAttachments(s, id, refs).outcome.Accepted? {
      assert ReplaceAttachments(s, id, refs).store == s.(attachments := s.attachments[id := refs]);
      AcceptedRefsOk(refs, id);
      StoredRefsOk(s, id, refs);
    }
  }

  lemma ViewKeepsStoreOk(s: Store, view: View)
    requires StoreOk(s)
    ensures StoreOk(ReplaceView(s, view).store)
  {
    if ReplaceView(s, view).outcome.Accepted? {
      assert ViewsOk(s.accounts.Keys, s.views[view.spec := view]);
    }
  }

  lemma StoredEmailOk(s: Store, m: Mutation, id: ScopedId, email: Email)
    requires StoreOk(s) && id in s.emails && m.accountKey in s.accounts && email.id == id && UsableEmail(email)
    ensures StoreOk(s.(emails := s.emails[id := email], mutations := s.mutations[m.Key() := m]))
  {
    assert EmailsOk(s.accounts.Keys, s.emails[id := email], s.memberships);
    assert RowsOk(s.accounts.Keys, s.mutations[m.Key() := m]);
  }

  lemma KeywordChangeKeepsStoreOk(s: Store, m: Mutation, id: ScopedId, add: set<string>, remove: set<string>)
    requires StoreOk(s)
    ensures StoreOk(ApplyKeywordChange(s, m, id, add, remove).store)
  {
    var w := ApplyKeywordChange(s, m, id, add, remove);
    if w.outcome.Accepted? {
      var next := s.emails[id].(keywords := s.emails[id].keywords + add - remove);
      assert w.store == s.(emails := s.emails[id := next], mutations := s.mutations[m.Key() := m]);
      StoredEmailOk(s, m, id, next);
    }
  }

  lemma RowsKeepStoreOk(s: Store, rows: Rows)
    requires StoreOk(s) && RowsOk(s.accounts.Keys, rows)
    ensures StoreOk(s.(mutations := rows))
  {
  }

  lemma BodyKeepsStoreOk(s: Store, body: EmailBody)
    requires StoreOk(s)
    ensures StoreOk(CacheBody(s, body).store)
  {
    if CacheBody(s, body).outcome.Accepted? {
      assert BodiesOk(s.accounts.Keys, s.bodies[body.emailId := body]);
    }
  }

  lemma PerformKeepsStoreOk(s: Store, c: Command)
    requires StoreOk(s)
    ensures StoreOk(Perform(s, c).store)
  {
    match c
    case RegisterAccount(account) => RegisterKeepsStoreOk(s, account);
    case ApplyCollectionSync(commit) => SyncKeepsStoreOk(s, commit);
    case CacheEmailBody(body) => BodyKeepsStoreOk(s, body);
    case ReplaceAttachmentRefs(id, refs) => AttachmentsKeepStoreOk(s, id, refs);
    case ReplaceMailboxView(view) => ViewKeepsStoreOk(s, view);
    case ApplyKeywords(m, id, add, remove) => KeywordChangeKeepsStoreOk(s, m, id, add, remove);
    case ApplyMemberships(m, id, add, remove) => MembershipChangeKeepsStoreOk(s, m, id, add, remove);
    case _ => RowWriteKeepsStoreOk(s, c);
  }

  lemma RowWriteKeepsStoreOk(s: Store, c: Command)
    requires StoreOk(s) && (c.StageSend? || c.ReplacePending? || c.RemoveConfirmedMutation?)
    ensures StoreOk(Perform(s, c).store)
  {
    match c
    case StageSend(m) => if Stage(s, m).outcome.Accepted? { RowsKeepStoreOk(s, s.mutations[m.Key() := m]); }
    case ReplacePending(expected, next) =>
      ReplacementKeepsRowsOk(s, expected, next);
      RowsKeepStoreOk(s, ReplaceIfCurrent(s.mutations, expected, next).0);
    case RemoveConfirmedMutation(account, id) =>
      RowsKeepStoreOk(s, RemoveConfirmed(s.mutations, (account, id)).0);
  }

  /** Every replica reachable through the port is well formed. */
  lemma {:induction false} ReachableStoreOk(commands: seq<Command>)
    ensures StoreOk(PerformAll(EMPTY, commands))
  {
    if commands != [] {
      ReachableStoreOk(commands[..|commands| - 1]);
      PerformKeepsStoreOk(PerformAll(EMPTY, commands[..|commands| - 1]), commands[|commands| - 1]);
    }
  }

  // ---- What a write tells its listeners ----

  predicate SameAt<K, V(==)>(left: map<K, V>, right: map<K, V>, key: K) {
    (key in left <==> key in right) && (key in left ==> left[key] == right[key])
  }

  ghost predicate CatalogsAnnounced(hints: seq<Hint>, s: Store, s': Store) {
    && (forall k :: SameAt(s.accounts, s'.accounts, k) || AccountsChanged in hints)
    && (forall k :: SameAt(s.mailboxes, s'.mailboxes, k) || MailboxesChanged(k.accountKey) in hints)
    && (forall k :: SameAt(s.identities, s'.identities, k) || IdentitiesChanged(k.accountKey) in hints)
    && (forall k :: SameAt(s.cursors, s'.cursors, k) || SyncCursorChanged(k.0, k.1) in hints)
  }

  ghost predicate EmailsAnnounced(hints: seq<Hint>, s: Store, s': Store) {
    && (forall k :: SameAt(s.emails, s'.emails, k) || EmailsChanged(k.accountKey) in hints)
    && (forall k :: SameAt(s.memberships, s'.memberships, k) || EmailMembershipsChanged(k.accountKey) in hints)
    && (forall k :: SameAt(s.mutations, s'.mutations, k) || PendingMutationsChanged(k.0) in hints)
  }

  ghost predicate CachesAnnounced(hints: seq<Hint>, s: Store, s': Store) {
    && (forall k :: SameAt(s.bodies, s'.bodies, k) || EmailBodyChanged(k) in hints)
    && (forall k :: SameAt(s.attachments, s'.attachments, k) || AttachmentRefsChanged(k) in hints)
    && (forall k :: SameAt(s.views, s'.views, k) || MailboxViewChanged(k) in hints)
  }

  /** Whatever differs between the two replicas, some hint announces. */
  ghost predicate Announces(hints: seq<Hint>, s: Store, s': Store) {
    CatalogsAnnounced(hints, s, s') && EmailsAnnounced(hints, s, s') && CachesAnnounced(hints, s, s')
  }

  ghost predicate Announced(s: Store, w: Write) {
    w.outcome.Accepted? ==> |w.batches| == 1 && Announces(w.batches[0], s, w.store)
  }

  /** The mutation factories let a mutation target only emails of its own account. */
  predicate TargetsOwnAccount(c: Command) {
    c.ApplyKeywords? || c.ApplyMemberships? ==> c.emailId.accountKey == c.m.accountKey
  }

  lemma EmailSyncAnnounced(s: Store, s': Store, commit: SyncCommit, hints: seq<Hint>)
    requires s.emails.Keys == s.memberships.Keys
    requires commit.EmailCommit? && ValidChange(commit.emails, commit.next.accountKey, RecordId)
    requires EmailsChanged(commit.next.accountKey) in hints && EmailMembershipsChanged(commit.next.accountKey) in hints
    requires var records := Apply(Joined(s), commit.emails, commit.next.accountKey, RecordId);
             s'.emails == EmailsOf(records) && s'.memberships == MembershipsOf(records) && s'.mutations == s.mutations
    ensures EmailsAnnounced(hints, s, s')
  {
    forall id: ScopedId | id.accountKey != commit.next.accountKey
      ensures SameAt(s.emails, s'.emails, id) && SameAt(s.memberships, s'.memberships, id)
    {
      AppliedElsewhere(Joined(s), commit.emails, commit.next.accountKey, RecordId, id);
    }
  }

  lemma CatalogSyncAnnounced(s: Store, s': Store, commit: SyncCommit, hints: seq<Hint>)
    requires !commit.EmailCommit? && s'.accounts == s.accounts
    requires s'.cursors == s.cursors[(commit.next.accountKey, commit.Kind()) := commit.next]
    requires SyncCursorChanged(commit.next.accountKey, commit.Kind()) in hints
    requires if commit.MailboxCommit? then
               && s'.identities == s.identities && ValidChange(commit.mailboxes, commit.next.accountKey, MailboxId)
               && s'.mailboxes == Apply(s.mailboxes, commit.mailboxes, commit.next.accountKey, MailboxId)
               && MailboxesChanged(commit.next.accountKey) in hints
             else
               && s'.mailboxes == s.mailboxes && ValidChange(commit.identities, commit.next.accountKey, IdentityId)
               && s'.identities == Apply(s.identities, commit.identities, commit.next.accountKey, IdentityId)
               && IdentitiesChanged(commit.next.accountKey) in hints
    ensures CatalogsAnnounced(hints, s, s')
  {
    forall id: ScopedId | id.accountKey != commit.next.accountKey
      ensures SameAt(s.mailboxes, s'.mailboxes, id) && SameAt(s.identities, s'.identities, id)
    {
      if commit.MailboxCommit? {
        AppliedElsewhere(s.mailboxes, commit.mailboxes, commit.next.accountKey, MailboxId, id);
      } else {
        AppliedElsewhere(s.identities, commit.identities, commit.next.accountKey, IdentityId, id);
      }
    }
  }

  lemma EmailSyncAnnounces(s: Store, commit: SyncCommit)
    requires StoreOk(s) && commit.EmailCommit? && ApplySync(s, commit).outcome.Accepted?
    ensures Announced(s, ApplySync(s, commit))
  {
    EmailSyncIs(s, commit);
    EmailSyncedAnnounced(s, commit, SyncedEmails(s, commit));
  }

  lemma EmailSyncedAnnounced(s: Store, commit: SyncCommit, s': Store)
    requires StoreOk(s) && commit.EmailCommit? && ValidChange(commit.emails, commit.next.accountKey, RecordId)
    requires s' == SyncedEmails(s, commit)
    ensures Announces(EmailHints(commit.next.accountKey), s, s')
  {
    var hints := EmailHints(commit.next.accountKey);
    assert EmailsAnnounced(hints, s, s') by {
      assert hints[0] in hints && hints[1] in hints;
      EmailSyncAnnounced(s, s', commit, hints);
    }
    assert CatalogsAnnounced(hints, s, s') by {
      assert hints[2] in hints;
      CursorAnnounced(s, s', commit, hints);
    }
    CachesUntouched(hints, s, s');
  }

  lemma CachesUntouched(hints: seq<Hint>, s: Store, s': Store)
    requires s'.bodies == s.bodies && s'.attachments == s.attachments && s'.views == s.views
    ensures CachesAnnounced(hints, s, s')
  {
  }

  lemma CatalogSyncAnnounces(s: Store, commit: SyncCommit)
    requires !commit.EmailCommit? && ApplySync(s, commit).outcome.Accepted?
    ensures Announced(s, ApplySync(s, commit))
  {
    var w := ApplySync(s, commit);
    var hints := w.batches[0];
    assert hints[0] in hints && hints[1] in hints;
    CatalogSyncAnnounced(s, w.store, commit, hints);
    assert EmailsAnnounced(hints, s, w.store);
  }

  lemma SyncAnnounces(s: Store, commit: SyncCommit)
    requires StoreOk(s)
    ensures Announced(s, ApplySync(s, commit))
  {
    if ApplySync(s, commit).outcome.Accepted? {
      if commit.EmailCommit? {
        EmailSyncAnnounces(s, commit);
      } else {
        CatalogSyncAnnounces(s, commit);
      }
    }
  }

  lemma CursorAnnounced(s: Store, s': Store, commit: SyncCommit, hints: seq<Hint>)
    requires s'.accounts == s.accounts && s'.mailboxes == s.mailboxes && s'.identities == s.identities
    requires s'.cursors == s.cursors[(commit.next.accountKey, commit.Kind()) := commit.next]
    requires SyncCursorChanged(commit.next.accountKey, commit.Kind()) in hints
    ensures CatalogsAnnounced(hints, s, s')
  {
  }

  lemma AccountAnnounced(s: Store, account: Account)
    ensures Announces([AccountsChanged], s, s)
    ensures Announces([AccountsChanged], s, s.(accounts := s.accounts[account.key := account]))
  {
  }

  lemma CacheAnnounced(s: Store, id: ScopedId, body: EmailBody, refs: seq<Attachment>)
    ensures Announces([EmailBodyChanged(id)], s, s.(bodies := s.bodies[id := body]))
    ensures Announces([AttachmentRefsChanged(id)], s, s.(attachments := s.attachments[id := refs]))
  {
  }

  lemma ViewAnnounced(s: Store, view: View)
    ensures Announces([MailboxViewChanged(view.spec)], s, s.(views := s.views[view.spec := view]))
  {
  }

  lemma RowsAnnounced(s: Store, account: string, rows: Rows)
    requires forall k :: SameAt(s.mutations, rows, k) || k.0 == account
    ensures Announces([PendingMutationsChanged(account)], s, s.(mutations := rows))
  {
  }

  lemma OptimisticAnnounced(s: Store, m: Mutation, email: Email, entries: seq<Membership>, id: ScopedId)
    requires id.accountKey == m.accountKey
    ensures Announces([EmailsChanged(m.accountKey), PendingMutationsChanged(m.accountKey)], s,
                      s.(emails := s.emails[id := email], mutations := s.mutations[m.Key() := m]))
    ensures Announces([EmailMembershipsChanged(m.accountKey), PendingMutationsChanged(m.accountKey)], s,
                      s.(memberships := s.memberships[id := entries], mutations := s.mutations[m.Key() := m]))
  {
  }

  lemma RowUpdateAnnounced(s: Store, account: string, result: (Rows, bool))
    requires forall k :: SameAt(s.mutations, result.0, k) || k.0 == account
    ensures Announced(s, UpdateRows(s, account, result))
  {
    RowsAnnounced(s, account, result.0);
  }

  lemma OptimisticWriteAnnounced(s: Store, c: Command)
    requires TargetsOwnAccount(c) && (c.ApplyKeywords? || c.ApplyMemberships?)
    ensures Announced(s, Perform(s, c))
  {
    if Perform(s, c).outcome.Accepted? {
      var s' := Perform(s, c).store;
      var entries := if c.emailId in s'.memberships then s'.memberships[c.emailId] else [];
      OptimisticAnnounced(s, c.m, s'.emails[c.emailId], entries, c.emailId);
    }
  }

  lemma CacheWriteAnnounced(s: Store, c: Command)
    requires c.RegisterAccount? || c.CacheEmailBody? || c.ReplaceAttachmentRefs? || c.ReplaceMailboxView?
    ensures Announced(s, Perform(s, c))
  {
    match c
    case RegisterAccount(account) => AccountAnnounced(s, account);
    case CacheEmailBody(body) => CacheAnnounced(s, body.emailId, body, []);
    case ReplaceAttachmentRefs(id, refs) => CacheAnnounced(s, id, EmailBody.EmailBody(id, None, None), refs);
    case ReplaceMailboxView(view) => ViewAnnounced(s, view);
  }

  lemma RowWriteAnnounced(s: Store, c: Command)
    requires c.StageSend? || c.ReplacePending? || c.RemoveConfirmedMutation?
    ensures Announced(s, Perform(s, c))
  {
    match c
    case StageSend(m) => RowsAnnounced(s, m.accountKey, s.mutations[m.Key() := m]);
    case ReplacePending(expected, next) =>
      RowUpdateAnnounced(s, expected.accountKey, ReplaceIfCurrent(s.mutations, expected, next));
    case RemoveConfirmedMutation(account, id) => RowUpdateAnnounced(s, account, RemoveConfirmed(s.mutations, (account, id)));
  }

  /** An accepted write publishes one batch, which covers everything it changed. */
  lemma AcceptedWriteAnnounces(s: Store, c: Command)
    requires StoreOk(s) && TargetsOwnAccount(c)
    ensures Announced(s, Perform(s, c))
  {
    if c.ApplyCollectionSync? {
      SyncAnnounces(s, c.commit);
    } else if c.ApplyKeywords? || c.ApplyMemberships? {
      OptimisticWriteAnnounced(s, c);
    } else if c.StageSend? || c.ReplacePending? || c.RemoveConfirmedMutation? {
      RowWriteAnnounced(s, c);
    } else {
      CacheWriteAnnounced(s, c);
    }
  }

  function AccountOf(c: Command): string {
    match c
    case RegisterAccount(account) => account.key
    case ApplyCollectionSync(commit) => commit.next.accountKey
    case CacheEmailBody(body) => body.emailId.accountKey
    case ReplaceAttachmentRefs(id, _) => id.accountKey
    case ReplaceMailboxView(view) => view.spec.mailboxId.accountKey
    case StageSend(m) => m.accountKey
    case ApplyKeywords(m, _, _, _) => m.accountKey
    case ApplyMemberships(m, _, _, _) => m.accountKey
    case ReplacePending(expected, _) => expected.accountKey
    case RemoveConfirmedMutation(account, _) => account
  }

  predicate Names(hint: Hint, account: string) {
    match hint
    case AccountsChanged => false
    case MailboxesChanged(a) => a == account
    case IdentitiesChanged(a) => a == account
    case EmailsChanged(a) => a == account
    case EmailMembershipsChanged(a) => a == account
    case EmailBodyChanged(id) => id.accountKey == account
    case AttachmentRefsChanged(id) => id.accountKey == account
    case MailboxViewChanged(spec) => spec.mailboxId.accountKey == account
    case SyncCursorChanged(a, _) => a == account
    case PendingMutationsChanged(a) => a == account
  }

  /** What two replicas hold for one account is the same. */
  ghost predicate SameFor(s: Store, s': Store, account: string) {
    && SameAt(s.accounts, s'.accounts, account)
    && (forall k: ScopedId :: k.accountKey == account ==>
          && SameAt(s.mailboxes, s'.mailboxes, k) && SameAt(s.identities, s'.identities, k)
          && SameAt(s.emails, s'.emails, k) && SameAt(s.memberships, s'.memberships, k)
          && SameAt(s.bodies, s'.bodies, k) && SameAt(s.attachments, s'.attachments, k))
    && (forall spec: ViewSpec :: spec.mailboxId.accountKey == account ==> SameAt(s.views, s'.views, spec))
    && (forall k: CursorKey :: k.0 == account ==> SameAt(s.cursors, s'.cursors, k))
    && (forall k: (string, string) :: k.0 == account ==> SameAt(s.mutations, s'.mutations, k))
  }

  lemma UnnamedIsUntouched(hints: seq<Hint>, s: Store, s': Store, account: string)
    requires Announces(hints, s, s') && SameAt(s.accounts, s'.accounts, account)
    requires forall hint <- hints :: !Names(hint, account)
    ensures SameFor(s, s', account)
  {
  }

  lemma BatchNamesOneAccount(s: Store, c: Command, other: string)
    requires other != AccountOf(c) && Perform(s, c).outcome.Accepted? && |Perform(s, c).batches| == 1
    ensures forall hint <- Perform(s, c).batches[0] :: !Names(hint, other)
    ensures SameAt(s.accounts, Perform(s, c).store.accounts, other)
  {
    if c.ApplyCollectionSync? {
      SyncBatchNamesOneAccount(s, c.commit, other);
    } else if c.ApplyKeywords? || c.ApplyMemberships? {
      OptimisticBatchNamesOneAccount(s, c, other);
    } else if c.StageSend? || c.ReplacePending? || c.RemoveConfirmedMutation? {
      RowBatchNamesOneAccount(s, c, other);
    } else {
      CacheBatchNamesOneAccount(s, c, other);
    }
  }

  lemma RowBatchNamesOneAccount(s: Store, c: Command, other: string)
    requires c.StageSend? || c.ReplacePending? || c.RemoveConfirmedMutation?
    requires other != AccountOf(c) && Perform(s, c).outcome.Accepted?
    ensures Perform(s, c).batches == [[PendingMutationsChanged(AccountOf(c))]]
    ensures Perform(s, c).store.accounts == s.accounts
  {
  }

  lemma CacheBatchNamesOneAccount(s: Store, c: Command, other: string)
    requires c.RegisterAccount? || c.CacheEmailBody? || c.ReplaceAttachmentRefs? || c.ReplaceMailboxView?
    requires other != AccountOf(c) && Perform(s, c).outcome.Accepted?
    ensures |Perform(s, c).batches| == 1 && forall hint <- Perform(s, c).batches[0] :: !Names(hint, other)
    ensures SameAt(s.accounts, Perform(s, c).store.accounts, other)
  {
    match c
    case RegisterAccount(account) => RegisterBatch(s, account, other);
    case CacheEmailBody(body) => BodyBatch(s, body);
    case ReplaceAttachmentRefs(id, refs) => AttachmentBatch(s, id, refs);
    case ReplaceMailboxView(view) => ViewBatch(s, view);
  }

  lemma RegisterBatch(s: Store, account: Account, other: string)
    requires Register(s, account).outcome.Accepted? && other != account.key
    ensures Register(s, account) == Committed(Register(s, account).store, [AccountsChanged])
    ensures SameAt(s.accounts, Register(s, account).store.accounts, other)
  {
    if account.key in s.accounts {
      assert Register(s, account) == Committed(s, [AccountsChanged]);
    } else {
      assert Register(s, account) == Committed(s.(accounts := s.accounts[account.key := account]), [AccountsChanged]);
    }
  }

  lemma BodyBatch(s: Store, body: EmailBody)
    requires CacheBody(s, body).outcome.Accepted?
    ensures CacheBody(s, body) == Committed(CacheBody(s, body).store, [EmailBodyChanged(body.emailId)])
    ensures CacheBody(s, body).store.accounts == s.accounts
  {
  }

  lemma AttachmentBatch(s: Store, id: ScopedId, refs: seq<Attachment>)
    requires ReplaceAttachments(s, id, refs).outcome.Accepted?
    ensures ReplaceAttachments(s, id, refs) == Committed(ReplaceAttachments(s, id, refs).store, [AttachmentRefsChanged(id)])
    ensures ReplaceAttachments(s, id, refs).store.accounts == s.accounts
  {
    assert ReplaceAttachments(s, id, refs) ==
           Committed(s.(attachments := s.attachments[id := refs]), [AttachmentRefsChanged(id)]);
  }

  lemma ViewBatch(s: Store, view: View)
    requires ReplaceView(s, view).outcome.Accepted?
    ensures ReplaceView(s, view) == Committed(ReplaceView(s, view).store, [MailboxViewChanged(view.spec)])
    ensures ReplaceView(s, view).store.accounts == s.accounts
  {
  }

  lemma OptimisticBatchNamesOneAccount(s: Store, c: Command, other: string)
    requires (c.ApplyKeywords? || c.ApplyMemberships?) && other != c.m.accountKey && Perform(s, c).outcome.Accepted?
    ensures forall hint <- Perform(s, c).batches[0] :: !Names(hint, other)
    ensures Perform(s, c).store.accounts == s.accounts
  {
    var hints := Perform(s, c).batches[0];
    assert !Names(hints[0], other) && !Names(hints[1], other);
  }

  lemma SyncBatchNamesOneAccount(s: Store, commit: SyncCommit, other: string)
    requires other != commit.next.accountKey && ApplySync(s, commit).outcome.Accepted?
    ensures forall hint <- ApplySync(s, commit).batches[0] :: !Names(hint, other)
    ensures ApplySync(s, commit).store.accounts == s.accounts
  {
  }

  /** A write to one account leaves every other account exactly as it was. */
  lemma OtherAccountsUntouched(s: Store, c: Command, other: string)
    requires StoreOk(s) && TargetsOwnAccount(c) && other != AccountOf(c)
    ensures SameFor(s, Perform(s, c).store, other)
  {
    if Perform(s, c).outcome.Accepted? {
      AcceptedWriteAnnounces(s, c);
      BatchNamesOneAccount(s, c, other);
      UnnamedIsUntouched(Perform(s, c).batches[0], s, Perform(s, c).store, other);
    }
  }
}
