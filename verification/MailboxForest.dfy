/** The mailbox tree of the native engine: `validate_mailbox_catalog` and the two mailbox
    commits it guards, in `src-tauri/src/persistence/engine.rs`. */
module MailboxForest {
  import opened Base
  import opened SendIntents
  import opened Records
  import opened Collections
  import SyncWrites

  type Parents = map<ScopedId, Option<ScopedId>>

  /** The `n`-th ancestor; a parent that is not in the catalog ends the chain after itself. */
  function Ancestor(parents: Parents, start: ScopedId, n: nat): Option<ScopedId> {
    if n == 0 then Some(start)
    else
      var below := Ancestor(parents, start, n - 1);
      if below.Some? && below.value in parents then parents[below.value] else None
  }

  /** No mailbox is its own ancestor. */
  ghost predicate Acyclic(parents: Parents) {
    forall id, n: nat :: id in parents && n > 0 ==> Ancestor(parents, id, n) != Some(id)
  }

  lemma {:induction false} AncestorOfAncestor(parents: Parents, start: ScopedId, i: nat, n: nat)
    requires Ancestor(parents, start, i).Some?
    ensures Ancestor(parents, start, i + n) == Ancestor(parents, Ancestor(parents, start, i).value, n)
  {
    if n > 0 {
      AncestorOfAncestor(parents, start, i, n - 1);
    }
  }

  lemma {:induction false} NothingAfterTheEnd(parents: Parents, start: ScopedId, i: nat, n: nat)
    requires Ancestor(parents, start, i).None?
    ensures Ancestor(parents, start, i + n).None?
  {
    if n > 0 {
      NothingAfterTheEnd(parents, start, i, n - 1);
    }
  }

  /** On a cycle the chain has no end. */
  lemma {:induction false} CycleNeverEnds(parents: Parents, id: ScopedId, n: nat, k: nat)
    requires n > 0 && Ancestor(parents, id, n) == Some(id)
    ensures Ancestor(parents, id, k).Some?
    decreases k
  {
    if k < n {
      if Ancestor(parents, id, k).None? {
        NothingAfterTheEnd(parents, id, k, n - k);
      }
    } else {
      AncestorOfAncestor(parents, id, n, k - n);
      CycleNeverEnds(parents, id, n, k - n);
    }
  }

  /** A chain that comes by the same mailbox twice has found a cycle. */
  lemma RepeatIsCycle(parents: Parents, start: ScopedId, i: nat, j: nat)
    requires i < j && Ancestor(parents, start, i).Some? && Ancestor(parents, start, j) == Ancestor(parents, start, i)
    ensures !Acyclic(parents)
  {
    var id := Ancestor(parents, start, i).value;
    AncestorOfAncestor(parents, start, i, j - i);
    if Ancestor(parents, start, i + 1).None? {
      NothingAfterTheEnd(parents, start, i + 1, j - (i + 1));
    }
    assert id in parents && Ancestor(parents, id, j - i) == Some(id);
  }

  /** Follows the chain from every mailbox; each step sees a new mailbox or ends. */
  method ValidateMailboxCatalog(parents: Parents) returns (ok: bool)
    ensures ok <==> Acyclic(parents)
  {
    var starts := parents.Keys;
    while starts != {}
      invariant starts <= parents.Keys
      invariant forall id :: id in parents && id !in starts ==> exists k :: Ancestor(parents, id, k).None?
      decreases |starts|
    {
      var start :| start in starts;
      var ended := ChainEnds(parents, start);
      if !ended {
        return false;
      }
      starts := starts - {start};
    }
    forall id, n: nat | id in parents && n > 0
      ensures Ancestor(parents, id, n) != Some(id)
    {
      var k :| Ancestor(parents, id, k).None?;
      if Ancestor(parents, id, n) == Some(id) {
        CycleNeverEnds(parents, id, n, k);
      }
    }
    ok := true;
  }

  /** The inner loop. */
  method ChainEnds(parents: Parents, start: ScopedId) returns (ok: bool)
    ensures ok ==> exists k :: Ancestor(parents, start, k).None?
    ensures !ok ==> !Acyclic(parents)
  {
    var seen: set<ScopedId> := {};
    var current := Some(start);
    ghost var steps: nat := 0;
    while current.Some?
      invariant current == Ancestor(parents, start, steps)
      invariant forall id <- seen :: exists i: nat :: i < steps && Ancestor(parents, start, i) == Some(id)
      decreases parents.Keys - seen, if current.Some? then 1 else 0
    {
      var id := current.value;
      if id in seen {
        ghost var i: nat :| i < steps && Ancestor(parents, start, i) == Some(id);
        RepeatIsCycle(parents, start, i, steps);
        return false;
      }
      seen := seen + {id};
      current := if id in parents then parents[id] else None;
      steps := steps + 1;
      assert Ancestor(parents, start, steps - 1) == Some(id);
    }
    ok := true;
  }

  /** Mailboxes of which each is the child of the next, and the last the child of the first. */
  ghost predicate IsCycle(parents: Parents, cycle: seq<ScopedId>) {
    && cycle != []
    && (forall i :: 0 <= i < |cycle| ==> cycle[i] in parents)
    && (forall i :: 0 <= i < |cycle| - 1 ==> parents[cycle[i]] == Some(cycle[i + 1]))
    && parents[cycle[|cycle| - 1]] == Some(cycle[0])
  }

  lemma {:induction false} AncestorAlong(parents: Parents, cycle: seq<ScopedId>, n: nat)
    requires IsCycle(parents, cycle) && n <= |cycle|
    ensures Ancestor(parents, cycle[0], n) == Some(if n == |cycle| then cycle[0] else cycle[n])
  {
    if n > 0 {
      AncestorAlong(parents, cycle, n - 1);
    }
  }

  lemma {:induction false} AncestorsUp(parents: Parents, id: ScopedId, n: nat) returns (chain: seq<ScopedId>)
    requires Ancestor(parents, id, n).Some?
    ensures |chain| == n + 1 && chain[0] == id && Ancestor(parents, id, n) == Some(chain[n])
    ensures forall i :: 0 <= i < n ==> chain[i] in parents && parents[chain[i]] == Some(chain[i + 1])
  {
    if n == 0 {
      chain := [id];
    } else {
      var below := AncestorsUp(parents, id, n - 1);
      chain := below + [Ancestor(parents, id, n).value];
    }
  }

  /** What is accepted: exactly the catalogs in which no mailboxes go round in a cycle. */
  lemma AcyclicIff(parents: Parents)
    ensures Acyclic(parents) <==> forall cycle: seq<ScopedId> :: !IsCycle(parents, cycle)
  {
    if cycle: seq<ScopedId> :| IsCycle(parents, cycle) {
      AncestorAlong(parents, cycle, |cycle|);
    }
    if !Acyclic(parents) {
      var id, n: nat :| id in parents && n > 0 && Ancestor(parents, id, n) == Some(id);
      var chain := AncestorsUp(parents, id, n);
      assert IsCycle(parents, chain[..n]);
    }
  }

  // ---- The commits it guards ----

  function ParentsOf(rows: map<ScopedId, Mailbox>, account: string): Parents {
    map id | id in rows && id.accountKey == account :: rows[id].parent
  }

  /** Every account's catalog is a forest, dangling parents allowed. */
  ghost predicate Forest(rows: map<ScopedId, Mailbox>) {
    forall account :: Acyclic(ParentsOf(rows, account))
  }

  /** Mailboxes of one account that go round in a cycle by their parents. */
  ghost predicate Circular(rows: map<ScopedId, Mailbox>, cycle: seq<ScopedId>) {
    && cycle != []
    && (forall i :: 0 <= i < |cycle| ==> cycle[i] in rows && cycle[i].accountKey == cycle[0].accountKey)
    && (forall i :: 0 <= i < |cycle| - 1 ==> rows[cycle[i]].parent == Some(cycle[i + 1]))
    && rows[cycle[|cycle| - 1]].parent == Some(cycle[0])
  }

  lemma CircularIffCycle(rows: map<ScopedId, Mailbox>, account: string, cycle: seq<ScopedId>)
    ensures IsCycle(ParentsOf(rows, account), cycle) <==> Circular(rows, cycle) && cycle[0].accountKey == account
  {
  }

  /** No mailboxes of the table go round in a cycle. */
  lemma ForestIff(rows: map<ScopedId, Mailbox>)
    ensures Forest(rows) <==> forall cycle: seq<ScopedId> :: !Circular(rows, cycle)
  {
    if cycle: seq<ScopedId> :| Circular(rows, cycle) {
      CircularIffCycle(rows, cycle[0].accountKey, cycle);
      AcyclicIff(ParentsOf(rows, cycle[0].accountKey));
    }
    if !Forest(rows) {
      var account :| !Acyclic(ParentsOf(rows, account));
      AcyclicIff(ParentsOf(rows, account));
      var cycle :| IsCycle(ParentsOf(rows, account), cycle);
      CircularIffCycle(rows, account, cycle);
    }
  }

  /** `validate_mailbox` and the bound on stored counts. */
  predicate WritableMailbox(m: Mailbox) {
    && m.id.accountKey != "" && m.id.jmapId != "" && m.name != ""
    && m.role != Some("")
    && m.parent != Some(m.id)
    && m.unreadEmails <= m.totalEmails
    && m.totalEmails <= MAX_SAFE_INTEGER && m.unreadEmails <= MAX_SAFE_INTEGER
  }

  /** What a commit may store: a valid change of writable mailboxes that leaves a forest. */
  ghost predicate Committable(rows: map<ScopedId, Mailbox>, c: Change<Mailbox>, account: string) {
    && ValidChange(c, account, SyncWrites.MailboxId)
    && (forall m <- c.Records() :: WritableMailbox(m))
    && Acyclic(ParentsOf(Apply(rows, c, account, SyncWrites.MailboxId), account))
  }

  lemma CommittedIsForest(rows: map<ScopedId, Mailbox>, c: Change<Mailbox>, account: string)
    requires Forest(rows) && Committable(rows, c, account)
    ensures Forest(Apply(rows, c, account, SyncWrites.MailboxId))
  {
    var after := Apply(rows, c, account, SyncWrites.MailboxId);
    forall other | other != account
      ensures ParentsOf(after, other) == ParentsOf(rows, other)
    {
      forall id: ScopedId | id.accountKey == other
        ensures (id in after <==> id in rows) && (id in rows ==> after[id] == rows[id])
      {
        SyncWrites.AppliedElsewhere(rows, c, account, SyncWrites.MailboxId, id);
      }
    }
  }

  /** Usable mailboxes of the account, each once, none of them deleted by the same change and none
      a parent of itself. */
  ghost predicate Proper(changed: seq<Mailbox>, destroyed: seq<ScopedId>, account: string) {
    && (forall i :: 0 <= i < |changed| ==>
          var m := changed[i];
          && m.id.accountKey == account && m.id.accountKey != "" && m.id.jmapId != "" && m.name != "" && m.role != Some("")
          && m.parent != Some(m.id) && m.unreadEmails <= m.totalEmails <= MAX_SAFE_INTEGER)
    && (forall i :: 0 <= i < |destroyed| ==> destroyed[i].accountKey == account)
    && (forall i, j :: 0 <= i < j < |changed| ==> changed[i].id != changed[j].id)
    && (forall i, j :: 0 <= i < j < |destroyed| ==> destroyed[i] != destroyed[j])
    && (forall i, j :: 0 <= i < |changed| && 0 <= j < |destroyed| ==> changed[i].id != destroyed[j])
  }

  lemma ProperIff(changed: seq<Mailbox>, destroyed: seq<ScopedId>, account: string)
    ensures Proper(changed, destroyed, account) <==>
      && ValidChange(Delta(changed, destroyed), account, SyncWrites.MailboxId)
      && forall m <- changed :: WritableMailbox(m)
  {
    var ids := KeysOf(changed, SyncWrites.MailboxId);
    assert forall i :: 0 <= i < |changed| ==> changed[i] in changed && ids[i] == changed[i].id && ids[i] in ids;
    assert forall i :: 0 <= i < |destroyed| ==> destroyed[i] in destroyed;
  }

  /** Exactly such a change, or such a snapshot, is committed, if no cycle arises by it. */
  lemma CommittableIff(rows: map<ScopedId, Mailbox>, changed: seq<Mailbox>, destroyed: seq<ScopedId>, account: string,
                       c: Change<Mailbox>)
    requires Forest(rows)
    requires c == Delta(changed, destroyed) || (c == Replace(changed) && destroyed == [])
    ensures Committable(rows, c, account) <==>
      && Proper(changed, destroyed, account)
      && forall cycle: seq<ScopedId> :: !Circular(Apply(rows, c, account, SyncWrites.MailboxId), cycle)
  {
    ProperIff(changed, destroyed, account);
    assert ValidChange(c, account, SyncWrites.MailboxId)
           <==> ValidChange(Delta(changed, destroyed), account, SyncWrites.MailboxId);
    ForestIff(Apply(rows, c, account, SyncWrites.MailboxId));
    if Committable(rows, c, account) {
      CommittedIsForest(rows, c, account);
    }
  }

  class MailboxTable {
    var rows: map<ScopedId, Mailbox>

    constructor ()
      ensures rows == map[] && Forest(rows)
    {
      rows := map[];
    }

    /** Both validations of a commit; a set tells whether an id came before. */
    method CheckIds(records: seq<Mailbox>, destroyed: seq<string>, account: string) returns (ok: bool)
      ensures ok <==> ValidChange(Delta(records, LocalIds(account, destroyed)), account, SyncWrites.MailboxId)
    {
      var ids := CheckRecordIds(records, account);
      ghost var recordIds := KeysOf(records, SyncWrites.MailboxId);
      if ids.None? {
        return false;
      }
      ok := CheckDestroyedIds(ids.value, LocalIds(account, destroyed));
      assert (forall id <- recordIds :: id !in LocalIds(account, destroyed))
        <==> (forall id <- LocalIds(account, destroyed) :: id !in ids.value);
    }

    method CheckRecordIds(records: seq<Mailbox>, account: string) returns (ids: Option<set<ScopedId>>)
      ensures var recordIds := KeysOf(records, SyncWrites.MailboxId);
              && (ids.Some? <==> NoDuplicates(recordIds) && forall id <- recordIds :: id.accountKey == account)
              && (ids.Some? ==> forall id :: id in ids.value <==> id in recordIds)
    {
      ghost var recordIds := KeysOf(records, SyncWrites.MailboxId);
      var seen: set<ScopedId> := {};
      for i := 0 to |records|
        invariant forall id :: id in seen <==> id in recordIds[..i]
        invariant forall j :: 0 <= j < i ==> recordIds[j].accountKey == account
        invariant forall j, k :: 0 <= j < k < i ==> recordIds[j] != recordIds[k]
      {
        assert recordIds[..i + 1] == recordIds[..i] + [records[i].id] && recordIds[i] == records[i].id;
        if records[i].id.accountKey != account || records[i].id in seen {
          assert recordIds[i] in recordIds;
          return None;
        }
        assert forall j :: 0 <= j < i ==> recordIds[j] == recordIds[..i][j];
        seen := seen + {records[i].id};
      }
      assert recordIds[..|records|] == recordIds;
      ids := Some(seen);
    }

    method CheckDestroyedIds(ids: set<ScopedId>, destroyedIds: seq<ScopedId>) returns (ok: bool)
      ensures ok <==> NoDuplicates(destroyedIds) && forall id <- destroyedIds :: id !in ids
    {
      var dead: set<ScopedId> := {};
      for i := 0 to |destroyedIds|
        invariant forall id :: id in dead <==> id in destroyedIds[..i]
        invariant forall j :: 0 <= j < i ==> destroyedIds[j] !in ids
        invariant forall j, k :: 0 <= j < k < i ==> destroyedIds[j] != destroyedIds[k]
      {
        assert destroyedIds[..i + 1] == destroyedIds[..i] + [destroyedIds[i]];
        if destroyedIds[i] in dead || destroyedIds[i] in ids {
          return false;
        }
        assert forall j :: 0 <= j < i ==> destroyedIds[j] == destroyedIds[..i][j];
        dead := dead + {destroyedIds[i]};
      }
      ok := true;
    }

    /** Writes every record into the transaction's copy, or gives up at the first bad one. */
    method WriteAll(cleared: map<ScopedId, Mailbox>,
                    records: seq<Mailbox>) returns (result: Option<map<ScopedId, Mailbox>>)
      ensures result == if exists m <- records :: !WritableMailbox(m) then None
                        else Some(PutAll(cleared, records, SyncWrites.MailboxId))
    {
      var values := cleared;
      for i := 0 to |records|
        invariant values == PutAll(cleared, records[..i], SyncWrites.MailboxId)
        invariant forall j :: 0 <= j < i ==> WritableMailbox(records[j])
      {
        if !WritableMailbox(records[i]) {
          return None;
        }
        assert records[..i + 1][..i] == records[..i];
        values := values[records[i].id := records[i]];
      }
      assert records[..|records|] == records;
      result := Some(values);
    }

    /** `apply_mailbox_delta`: the rows are committed only if the catalog stays a forest. */
    method ApplyMailboxDelta(account: string, changed: seq<Mailbox>, destroyed: seq<string>) returns (ok: bool)
      requires Forest(rows)
      modifies this
      ensures Forest(rows)
      ensures ok <==> Committable(old(rows), Delta(changed, LocalIds(account, destroyed)), account)
      ensures rows == if ok then Apply(old(rows), Delta(changed, LocalIds(account, destroyed)), account, SyncWrites.MailboxId)
                      else old(rows)
    {
      ok := CheckIds(changed, destroyed, account);
      if !ok {
        return;
      }
      var dead := LocalIds(account, destroyed);
      var values := rows;
      for i := 0 to |dead|
        invariant values == map id | id in rows && id !in dead[..i] :: rows[id]
      {
        assert dead[..i + 1] == dead[..i] + [dead[i]];
        values := values - {dead[i]};
      }
      assert dead[..|dead|] == dead;
      var written := WriteAll(values, changed);
      if written.None? {
        return false;
      }
      ok := ValidateMailboxCatalog(ParentsOf(written.value, account));
      if ok {
        CommittedIsForest(rows, Delta(changed, dead), account);
        rows := written.value;
      }
    }

    method DeleteUnlisted(rows: map<ScopedId, Mailbox>, account: string, keep: seq<ScopedId>)
      returns (values: map<ScopedId, Mailbox>)
      ensures values == map id | id in rows && (id.accountKey != account || id in keep) :: rows[id]
    {
      values := rows;
      var existing := set id | id in rows && id.accountKey == account;
      while existing != {}
        invariant existing <= rows.Keys && forall id <- existing :: id.accountKey == account
        invariant values == map id | id in rows && (id in existing || id.accountKey != account || id in keep) :: rows[id]
        decreases existing
      {
        var id :| id in existing;
        if id !in keep {
          values := values - {id};
        }
        existing := existing - {id};
      }
    }

    /** `apply_mailbox_replace`: deletes only the rows the snapshot does not list. */
    method ApplyMailboxReplace(account: string, snapshot: seq<Mailbox>) returns (ok: bool)
      requires Forest(rows)
      modifies this
      ensures Forest(rows)
      ensures ok <==> Committable(old(rows), Replace(snapshot), account)
      ensures rows == if ok then Apply(old(rows), Replace(snapshot), account, SyncWrites.MailboxId) else old(rows)
    {
      ok := CheckIds(snapshot, [], account);
      if !ok {
        return;
      }
      var values := DeleteUnlisted(rows, account, KeysOf(snapshot, SyncWrites.MailboxId));
      NativeApplyAgrees(rows, Replace(snapshot), account, SyncWrites.MailboxId);
      var written := WriteAll(values, snapshot);
      if written.None? {
        return false;
      }
      ok := ValidateMailboxCatalog(ParentsOf(written.value, account));
      if ok {
        CommittedIsForest(rows, Replace(snapshot), account);
        rows := written.value;
      }
    }
  }
}
