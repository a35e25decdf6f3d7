/** One synchronized collection under a cursor: what the six branches of
    `applyCollectionSync` have in common, in the memory engine
    (`src/adapters/memory/memory-sync-port.ts`) and in the native one
    (`src-tauri/src/persistence/engine.rs`). */
module Collections {
  import opened Base
  import opened SendIntents

  datatype Change<Rec> =
    | Delta(changed: seq<Rec>, destroyed: seq<ScopedId>)
    | Replace(snapshot: seq<Rec>)
  {
    function Records(): seq<Rec> {
      if Delta? then changed else snapshot
    }
  }

  function LocalIds(account: string, ids: seq<string>): (r: seq<ScopedId>)
    ensures |r| == |ids| && forall i :: 0 <= i < |ids| ==> r[i] == ScopedId(account, ids[i])
  {
    seq(|ids|, i requires 0 <= i < |ids| => ScopedId(account, ids[i]))
  }

  predicate ValidChange<Rec>(c: Change<Rec>, account: string, idOf: Rec -> ScopedId) {
    var ids := KeysOf(c.Records(), idOf);
    && (forall id <- ids :: id.accountKey == account)
    && NoDuplicates(ids)
    && (c.Delta? ==>
          && (forall id <- c.destroyed :: id.accountKey == account)
          && NoDuplicates(c.destroyed)
          && (forall id <- ids :: id !in c.destroyed))
  }

  function PutAll<Rec>(items: map<ScopedId, Rec>, records: seq<Rec>, idOf: Rec -> ScopedId): map<ScopedId, Rec> {
    if records == [] then items
    else
      var last := records[|records| - 1];
      PutAll(items, records[..|records| - 1], idOf)[idOf(last) := last]
  }

  /** What survives a change before its records are written. */
  function Cleared<T>(items: map<ScopedId, T>, replace: bool, destroyed: seq<ScopedId>,
                      account: string): map<ScopedId, T> {
    if replace then map id | id in items && id.accountKey != account :: items[id]
    else map id | id in items && id !in destroyed :: items[id]
  }

  function Destroyed<Rec>(c: Change<Rec>): seq<ScopedId> {
    if c.Delta? then c.destroyed else []
  }

  function Apply<Rec>(items: map<ScopedId, Rec>, c: Change<Rec>, account: string,
                      idOf: Rec -> ScopedId): map<ScopedId, Rec> {
    PutAll(Cleared(items, c.Replace?, Destroyed(c), account), c.Records(), idOf)
  }

  /** The write as a whole: the new items and cursor state, or nothing when it conflicts. */
  function Commit<Rec>(items: map<ScopedId, Rec>, cursor: Option<string>, registered: bool, account: string,
                       expected: Option<string>, next: string, c: Change<Rec>, idOf: Rec -> ScopedId)
    : Option<(map<ScopedId, Rec>, string)>
  {
    if registered && cursor == expected && ValidChange(c, account, idOf)
    then Some((Apply(items, c, account, idOf), next)) else None
  }

  lemma {:induction false} PutAllAt<Rec>(items: map<ScopedId, Rec>, records: seq<Rec>, idOf: Rec -> ScopedId,
                                         id: ScopedId)
    requires NoDuplicates(KeysOf(records, idOf))
    ensures var r := PutAll(items, records, idOf);
            if id in KeysOf(records, idOf)
            then id in r && r[id] in records && idOf(r[id]) == id
            else (id in r <==> id in items) && (id in items ==> r[id] == items[id])
  {
    if records != [] {
      var before, last := records[..|records| - 1], records[|records| - 1];
      assert KeysOf(records, idOf) == KeysOf(before, idOf) + [idOf(last)];
      PutAllAt(items, before, idOf, id);
      assert records == before + [last];
    }
  }

  /** A valid change rewrites exactly its own ids: the changed ones hold the new records,
      the destroyed ones and, in a replacement, everything else of the account is gone,
      and nothing of another account moves. */
  lemma ApplyAt<Rec>(items: map<ScopedId, Rec>, c: Change<Rec>, account: string, idOf: Rec -> ScopedId, id: ScopedId)
    requires ValidChange(c, account, idOf)
    ensures var r := Apply(items, c, account, idOf);
            if id in KeysOf(c.Records(), idOf) then id in r && r[id] in c.Records() && idOf(r[id]) == id
            else if id in Destroyed(c) || (c.Replace? && id.accountKey == account) then id !in r
            else (id in r <==> id in items) && (id in items ==> r[id] == items[id])
  {
    PutAllAt(Cleared(items, c.Replace?, Destroyed(c), account), c.Records(), idOf, id);
  }

  // ---- The native engine's order of writes ----

  /** Emails and identities: write the changed rows, then delete the destroyed ones; a
      replacement deletes only rows absent from the snapshot. */
  function NativeApply<Rec>(items: map<ScopedId, Rec>, c: Change<Rec>, account: string,
                            idOf: Rec -> ScopedId): map<ScopedId, Rec> {
    match c
    case Delta(changed, destroyed) => Cleared(PutAll(items, changed, idOf), false, destroyed, account)
    case Replace(snapshot) =>
      var keep := KeysOf(snapshot, idOf);
      PutAll(map id | id in items && (id.accountKey != account || id in keep) :: items[id], snapshot, idOf)
  }

  /** The two engines write in different orders and leave the same collection. */
  lemma NativeApplyAgrees<Rec>(items: map<ScopedId, Rec>, c: Change<Rec>, account: string, idOf: Rec -> ScopedId)
    requires ValidChange(c, account, idOf)
    ensures NativeApply(items, c, account, idOf) == Apply(items, c, account, idOf)
  {
    var left, right := NativeApply(items, c, account, idOf), Apply(items, c, account, idOf);
    var before := if c.Delta? then items
                  else map id | id in items && (id.accountKey != account || id in KeysOf(c.snapshot, idOf)) :: items[id];
    forall id
      ensures (id in left <==> id in right) && (id in left ==> left[id] == right[id])
    {
      PutAllAt(before, c.Records(), idOf, id);
      ApplyAt(items, c, account, idOf, id);
      if id in left && id in KeysOf(c.Records(), idOf) {
        UniqueRecord(c.Records(), idOf, left[id], right[id]);
      }
    }
  }

  lemma UniqueRecord<Rec>(records: seq<Rec>, idOf: Rec -> ScopedId, a: Rec, b: Rec)
    requires NoDuplicates(KeysOf(records, idOf)) && a in records && b in records && idOf(a) == idOf(b)
    ensures a == b
  {
    var i :| 0 <= i < |records| && records[i] == a;
    var j :| 0 <= j < |records| && records[j] == b;
    assert KeysOf(records, idOf)[i] == KeysOf(records, idOf)[j];
  }
}
