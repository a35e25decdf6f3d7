/** The collections of the whole replica are the single collections of `CursorSync`. */
module SyncRefinement {
  import opened Base
  import opened SendIntents
  import opened Records
  import opened Collections
  import C = CursorSync
  import opened SyncWrites

  function CursorState(s: Store, account: string, dataType: DataType): Option<string> {
    if (account, dataType) in s.cursors then Some(s.cursors[(account, dataType)].state) else None
  }

  function ExpectedState(expected: Precondition): Option<string> {
    if expected.Absent? then None else Some(expected.cursor.state)
  }

  /** What the coordinator sends: its own data type, and a cursor it read for the account. */
  predicate ForItsAccount(commit: SyncCommit) {
    && commit.next.dataType == commit.Kind()
    && (commit.expected.Matches? ==>
          && commit.expected.cursor.accountKey == commit.next.accountKey
          && commit.expected.cursor.dataType == commit.Kind())
  }

  lemma PreconditionIsCursorEquality(s: Store, commit: SyncCommit)
    requires StoreOk(s) && ForItsAccount(commit)
    ensures PreconditionHolds(s, commit.expected, commit.next)
       <==> CursorState(s, commit.next.accountKey, commit.Kind()) == ExpectedState(commit.expected)
  {
    var key := (commit.next.accountKey, commit.Kind());
    if key in s.cursors && commit.expected.Matches? {
      assert (s.cursors[key].accountKey, s.cursors[key].dataType) == key;
    }
  }

  ghost predicate Refines<Rec>(s: Store, w: Write, commit: SyncCommit, result: Option<(map<ScopedId, Rec>, string)>,
                               before: map<ScopedId, Rec>, after: map<ScopedId, Rec>) {
    var cursor := CursorState(w.store, commit.next.accountKey, commit.Kind());
    if result.Some? then w.outcome.Accepted? && after == result.value.0 && cursor == Some(result.value.1)
    else w.outcome.Conflict? && after == before && cursor == CursorState(s, commit.next.accountKey, commit.Kind())
  }

  /** On records the factories accept, a collection sync is the guarded commit of `Collections`
      on the replica's own collection: the same answer, the same records, the same cursor. */
  lemma EmailSyncIsCommit(s: Store, commit: SyncCommit)
    requires StoreOk(s) && ForItsAccount(commit) && commit.EmailCommit?
    requires forall r <- commit.emails.Records() :: OwnsItsMemberships(r) && UsableRecord(r)
    ensures var account := commit.next.accountKey;
            var result := Commit(Joined(s), CursorState(s, account, EmailData), account in s.accounts, account,
                                 ExpectedState(commit.expected), commit.next.state, commit.emails, RecordId);
            Refines(s, ApplySync(s, commit), commit, result, Joined(s), Joined(ApplySync(s, commit).store))
  {
    PreconditionIsCursorEquality(s, commit);
    if MaySync(s, commit) {
      EmailSyncIs(s, commit);
      SplitAndJoined(SyncedEmails(s, commit), Apply(Joined(s), commit.emails, commit.next.accountKey, RecordId));
    } else {
      assert ApplySync(s, commit) == Rejected(s, Conflict);
    }
  }

  lemma MailboxSyncIsCommit(s: Store, commit: SyncCommit)
    requires StoreOk(s) && ForItsAccount(commit) && commit.MailboxCommit?
    requires forall m <- commit.mailboxes.Records() :: UsableMailbox(m)
    ensures var account := commit.next.accountKey;
            var result := Commit(s.mailboxes, CursorState(s, account, MailboxData), account in s.accounts, account,
                                 ExpectedState(commit.expected), commit.next.state, commit.mailboxes, MailboxId);
            Refines(s, ApplySync(s, commit), commit, result, s.mailboxes, ApplySync(s, commit).store.mailboxes)
  {
    PreconditionIsCursorEquality(s, commit);
    if MaySync(s, commit) {
      MailboxSyncIs(s, commit);
    } else {
      assert ApplySync(s, commit) == Rejected(s, Conflict);
    }
  }

  lemma IdentitySyncIsCommit(s: Store, commit: SyncCommit)
    requires StoreOk(s) && ForItsAccount(commit) && commit.IdentityCommit?
    requires forall i <- commit.identities.Records() :: UsableIdentity(i)
    ensures var account := commit.next.accountKey;
            var result := Commit(s.identities, CursorState(s, account, IdentityData), account in s.accounts, account,
                                 ExpectedState(commit.expected), commit.next.state, commit.identities, IdentityId);
            Refines(s, ApplySync(s, commit), commit, result, s.identities, ApplySync(s, commit).store.identities)
  {
    PreconditionIsCursorEquality(s, commit);
    if MaySync(s, commit) {
      IdentitySyncIs(s, commit);
    } else {
      assert ApplySync(s, commit) == Rejected(s, Conflict);
    }
  }

  lemma SplitAndJoined(s: Store, records: map<ScopedId, EmailRecord>)
    requires s.emails == EmailsOf(records) && s.memberships == MembershipsOf(records)
    ensures Joined(s) == records
  {
    assert Joined(s).Keys == records.Keys;
  }

  // ---- A mailbox that is left behind ----

  /** The lenient mapping of mailboxes, from remote records in local form: what the mailbox
      factory refuses is dropped. */
  function MailboxMapping(): C.Mapping<Mailbox, Mailbox> {
    C.Mapping((m: Mailbox) => m.id.jmapId,
              (account: string, m: Mailbox) =>
                if UsableMailbox(m.(id := ScopedId(account, m.id.jmapId)))
                then Some(m.(id := ScopedId(account, m.id.jmapId))) else None,
              (m: Mailbox) => m.id, true)
  }

  const NAMED := Mailbox.Mailbox(ScopedId("me", "a"), "Work", None, None, 0, 0, 0,
                                 MailboxRights(true, true, true, true, true, true))

  const NAMELESS := NAMED.(name := "")

  /** The remote renames its one mailbox to nothing. */
  ghost function Renaming(): C.History<Mailbox> {
    (account: string, state: string) => if state == "1" then map["a" := NAMED] else map["a" := NAMELESS]
  }

  /** A run into the condition of `CommitMaterializesIff`: a truthful delta renames a mailbox to
      a name that the factory refuses; the commit keeps the old version under the new cursor. */
  lemma NamelessMailboxStaysBehind()
    ensures var (mapping, h) := (MailboxMapping(), Renaming());
            var (items, change) := (map[NAMED.id := NAMED], C.Changes("2", [NAMELESS], []));
            && mapping.Scoped() && C.Truthful(h, mapping.rawId, "me", Some("1"), change)
            && C.Materializes(mapping, items, "me", h("me", "1"))
            && C.BuildChange(mapping, "me", Some("1"), change).Some?
            && var after := Apply(items, C.BuildChange(mapping, "me", Some("1"), change).value, "me", mapping.idOf);
            after == items && !C.Materializes(mapping, after, "me", h("me", "2"))
  {
    var (mapping, h) := (MailboxMapping(), Renaming());
    var (items, change) := (map[NAMED.id := NAMED], C.Changes("2", [NAMELESS], []));
    assert KeysOf([NAMELESS], mapping.rawId) == ["a"];
    assert C.Truthful(h, mapping.rawId, "me", Some("1"), change);
    assert C.BuildChange(mapping, "me", Some("1"), change) == Some(Delta([], [])) by {
      assert mapping.decode("me", NAMELESS) == None;
      assert [NAMELESS][..0] == [] && C.DecodeAll(mapping, "me", [NAMELESS]) == Some([]);
      assert LocalIds("me", []) == [];
    }
    assert Apply(items, Delta([], []), "me", mapping.idOf) == items;
    assert !C.AgreesAt(mapping, items, "me", h("me", "2"), "a");
  }
}
