/** The loop of one coordinator, `syncCollection` of `src/sync/coordinator.ts`: read the cursor,
    ask the remote, commit under that cursor, and try once more if it has moved. */
module Coordinators {
  import opened Base
  import opened SendIntents
  import opened Collections
  import opened CursorSync

  /** The local store at one moment; between two moments anybody may have written to it. */
  datatype Moment<Rec> = Moment(items: map<ScopedId, Rec>, cursors: map<string, string>, registered: set<string>)
  {
    function Cursor(account: string): Option<string> {
      if account in cursors then Some(cursors[account]) else None
    }
  }

  /** What one attempt finds: the store when the cursor is read, the remote's answer, and the
      store when the commit arrives. */
  datatype Attempt<!Raw(!new), !Rec> = Attempt(read: Moment<Rec>, answer: RemoteChange<Raw>, committing: Moment<Rec>)
  {
    predicate CursorMoved(account: string) {
      read.Cursor(account) != committing.Cursor(account)
    }

    /** The answer is one that a commit can be built of. */
    ghost predicate Usable(mapping: Mapping<Raw, Rec>, account: string) {
      Buildable(mapping, account, read.Cursor(account), answer)
    }
  }

  datatype Sync<Rec> = Committed(attempt: nat, after: Moment<Rec>) | AccountAbsent | BuildFailed | ConflictPersisted

  /** The remote is truthful, the store is sound when the commit arrives, and accounts stay. */
  ghost predicate Fair<Raw(!new), Rec(!new)>(mapping: Mapping<Raw, Rec>, h: History<Raw>, account: string,
                                             a: Attempt<Raw, Rec>) {
    && Truthful(h, mapping.rawId, account, a.read.Cursor(account), a.answer)
    && (account in a.committing.cursors ==>
          Materializes(mapping, a.committing.items, account, h(account, a.committing.cursors[account])))
    && (account in a.read.registered ==> account in a.committing.registered)
  }

  /** A commit lands on the very cursor it was built from, leaves the account a faithful copy of
      the state the remote answered with, and names that state; nothing else moves. */
  ghost predicate Landed<Raw(!new), Rec(!new)>(mapping: Mapping<Raw, Rec>, h: History<Raw>, account: string,
                                               a: Attempt<Raw, Rec>, after: Moment<Rec>) {
    && !a.CursorMoved(account)
    && Materializes(mapping, after.items, account, h(account, a.answer.state))
    && after.cursors == a.committing.cursors[account := a.answer.state]
    && after.registered == a.committing.registered
    && forall id: ScopedId :: id.accountKey != account ==>
         (id in after.items <==> id in a.committing.items) && (id in after.items ==> after.items[id] == a.committing.items[id])
  }

  lemma CommitLands<Raw(!new), Rec(!new)>(mapping: Mapping<Raw, Rec>, h: History<Raw>, account: string,
                                          a: Attempt<Raw, Rec>)
    requires mapping.Scoped() && Lossless(mapping, h) && Fair(mapping, h, account, a)
    requires account in a.committing.registered && !a.CursorMoved(account)
    requires BuildChange(mapping, account, a.read.Cursor(account), a.answer).Some?
    ensures var c := BuildChange(mapping, account, a.read.Cursor(account), a.answer).value;
            && ValidChange(c, account, mapping.idOf)
            && Landed(mapping, h, account, a, Moment(Apply(a.committing.items, c, account, mapping.idOf),
                                                     a.committing.cursors[account := a.answer.state], a.committing.registered))
  {
    var base := a.read.Cursor(account);
    var c := BuildChange(mapping, account, base, a.answer).value;
    BuiltIsValid(mapping, h, account, base, a.answer);
    forall id
      ensures !StaleAt(mapping, a.committing.items, account, a.answer, id)
    {
      LosslessNeverStale(mapping, h, a.committing.items, account, base, a.answer, id);
    }
    CommitMaterializesIff(mapping, h, a.committing.items, account, base, a.answer);
    forall id: ScopedId | id.accountKey != account
      ensures var r := Apply(a.committing.items, c, account, mapping.idOf);
              (id in r <==> id in a.committing.items) && (id in r ==> r[id] == a.committing.items[id])
    {
      ApplyAt(a.committing.items, c, account, mapping.idOf, id);
    }
  }

  ghost predicate AlwaysUsable<Raw(!new), Rec>(mapping: Mapping<Raw, Rec>, account: string,
                                               attempts: seq<Attempt<Raw, Rec>>) {
    forall a <- attempts :: account in a.read.registered && a.Usable(mapping, account)
  }

  predicate SometimesUnmoved<Raw(!new), Rec>(account: string, attempts: seq<Attempt<Raw, Rec>>) {
    exists i :: 0 <= i < |attempts| && !attempts[i].CursorMoved(account)
  }

  method SyncCollection<Raw(!new), Rec(!new)>(mapping: Mapping<Raw, Rec>, ghost h: History<Raw>, account: string,
                                              attempts: seq<Attempt<Raw, Rec>>)
    returns (result: Sync<Rec>)
    requires mapping.Scoped() && Lossless(mapping, h) && |attempts| == MAX_ATTEMPTS
    requires forall i :: 0 <= i < MAX_ATTEMPTS ==> Fair(mapping, h, account, attempts[i])
    ensures result.Committed? ==> result.attempt < MAX_ATTEMPTS && Landed(mapping, h, account, attempts[result.attempt], result.after)
    ensures result.Committed? ==> forall i :: 0 <= i < result.attempt ==> attempts[i].CursorMoved(account)
    ensures result.ConflictPersisted? ==> forall i :: 0 <= i < MAX_ATTEMPTS ==> attempts[i].CursorMoved(account)
    ensures result.AccountAbsent? ==> exists i :: 0 <= i < MAX_ATTEMPTS && account !in attempts[i].read.registered
    ensures result.BuildFailed? ==> exists i :: 0 <= i < MAX_ATTEMPTS && !attempts[i].Usable(mapping, account)
    ensures AlwaysUsable(mapping, account, attempts) && SometimesUnmoved(account, attempts) ==> result.Committed?
  {
    for attempt := 0 to MAX_ATTEMPTS
      invariant forall i :: 0 <= i < attempt ==> attempts[i].CursorMoved(account)
    {
      var a := attempts[attempt];
      if account !in a.read.registered {
        return AccountAbsent;
      }
      var previous := a.read.Cursor(account);
      var change := BuildChange(mapping, account, previous, a.answer);
      BuildsIff(mapping, account, previous, a.answer);
      if change.None? {
        return BuildFailed;
      }
      BuiltIsValid(mapping, h, account, previous, a.answer);
      var written := Commit(a.committing.items, a.committing.Cursor(account), account in a.committing.registered, account,
                            previous, a.answer.state, change.value, mapping.idOf);
      if written.Some? {
        CommitLands(mapping, h, account, a);
        return Committed(attempt, Moment(written.value.0, a.committing.cursors[account := written.value.1], a.committing.registered));
      }
    }
    result := ConflictPersisted;
  }
}
