/** Racing coordinators (`src/sync/coordinator.ts`) over one collection of one data type,
    against a remote whose whole history is known to the proof. */
module CursorSync {
  import opened Base
  import opened SendIntents
  import opened Collections

  /** How a remote record becomes a local one. A lenient mapping (mailboxes) drops records
      that do not validate, a strict one (identities, emails) gives up the whole commit. */
  datatype Mapping<!Raw(!new), !Rec> = Mapping(rawId: Raw -> string, decode: (string, Raw) -> Option<Rec>,
                                         idOf: Rec -> ScopedId, lenient: bool)
  {
    ghost predicate Scoped() {
      forall account, raw :: decode(account, raw).Some? ==> idOf(decode(account, raw).value) == ScopedId(account, rawId(raw))
    }
  }

  datatype RemoteChange<Raw> =
    | Snapshot(state: string, snapshot: seq<Raw>)
    | Changes(state: string, changed: seq<Raw>, destroyed: seq<string>)

  /** Everything the remote ever held for an account, by state token. */
  type History<!Raw(!new)> = (string, string) -> map<string, Raw>

  /** The remote answers truthfully: a snapshot lists the state it names; changes lead from
      the base state to the state they name (section 5.2 of RFC 8620). */
  ghost predicate Truthful<Raw(!new)>(h: History<Raw>, rawId: Raw -> string, account: string, base: Option<string>,
                                      change: RemoteChange<Raw>) {
    var after := h(account, change.state);
    match change
    case Snapshot(_, snapshot) => Lists(after, snapshot, [], map[], rawId)
    case Changes(_, changed, destroyed) =>
      && NoDuplicates(destroyed) && (forall id <- KeysOf(changed, rawId) :: id !in destroyed)
      && (base.Some? ==> Lists(after, changed, destroyed, h(account, base.value), rawId))
  }

  /** `after` is `before` with `destroyed` removed and `changed` written. */
  ghost predicate Lists<Raw>(after: map<string, Raw>, changed: seq<Raw>, destroyed: seq<string>,
                             before: map<string, Raw>, rawId: Raw -> string) {
    && NoDuplicates(KeysOf(changed, rawId))
    && (forall raw <- changed :: rawId(raw) in after && after[rawId(raw)] == raw)
    && (forall id :: id !in KeysOf(changed, rawId) ==>
          ((id in after <==> id in before && id !in destroyed) && (id in after && id in before ==> after[id] == before[id])))
  }

  // ---- Commit builders ----

  function DecodeAll<Raw(!new), Rec>(mapping: Mapping<Raw, Rec>, account: string, raws: seq<Raw>): Option<seq<Rec>> {
    if raws == [] then Some([])
    else
      var last := mapping.decode(account, raws[|raws| - 1]);
      var before := DecodeAll(mapping, account, raws[..|raws| - 1]);
      if before.None? then None
      else if last.Some? then Some(before.value + [last.value])
      else if mapping.lenient then before
      else None
  }

  /** `identityCommit`, `mailboxCommit`, `emailCommit`; nothing when the builder throws. */
  function BuildChange<Raw(!new), Rec>(mapping: Mapping<Raw, Rec>, account: string, base: Option<string>,
                                       change: RemoteChange<Raw>): Option<Change<Rec>> {
    match change
    case Snapshot(_, snapshot) =>
      var records := DecodeAll(mapping, account, snapshot);
      if records.None? then None else Some(Replace(records.value))
    case Changes(_, changed, destroyed) =>
      var records := DecodeAll(mapping, account, changed);
      if base.None? || records.None? then None else Some(Delta(records.value, LocalIds(account, destroyed)))
  }

  // ---- The system ----

  datatype Pc<Raw> =
    | Reading(account: string, attempt: nat)
    | Fetching(account: string, attempt: nat, base: Option<string>)
    | Committing(account: string, attempt: nat, base: Option<string>, change: RemoteChange<Raw>)

  datatype System<Raw, Rec> = System(
    items: map<ScopedId, Rec>,
    cursors: map<string, string>,
    registered: set<string>,
    coordinators: map<nat, Pc<Raw>>)

  datatype Event<Raw> =
    | Register(account: string)
    | Begin(c: nat, account: string)
    | ReadCursor(c: nat)
    | Fetched(c: nat, change: RemoteChange<Raw>)
    | ApplyCommit(c: nat)
    | Abort(c: nat)

  function CursorOf<Raw, Rec>(s: System<Raw, Rec>, account: string): Option<string> {
    if account in s.cursors then Some(s.cursors[account]) else None
  }

  const MAX_ATTEMPTS: nat := 2

  ghost function Step<Raw(!new), Rec>(mapping: Mapping<Raw, Rec>, h: History<Raw>, s: System<Raw, Rec>,
                                      e: Event<Raw>): System<Raw, Rec> {
    match e
    case Register(account) => s.(registered := s.registered + {account})
    case Begin(c, account) =>
      if c in s.coordinators then s else s.(coordinators := s.coordinators[c := Reading(account, 0)])
    case ReadCursor(c) =>
      if c !in s.coordinators || !s.coordinators[c].Reading? then s
      else
        var pc := s.coordinators[c];
        if pc.account !in s.registered then s.(coordinators := s.coordinators - {c})
        else s.(coordinators := s.coordinators[c := Fetching(pc.account, pc.attempt, CursorOf(s, pc.account))])
    case Fetched(c, change) =>
      if c !in s.coordinators || !s.coordinators[c].Fetching? then s
      else
        var pc := s.coordinators[c];
        if !Truthful(h, mapping.rawId, pc.account, pc.base, change) then s
        else s.(coordinators := s.coordinators[c := Committing(pc.account, pc.attempt, pc.base, change)])
    case ApplyCommit(c) =>
      if c !in s.coordinators || !s.coordinators[c].Committing? then s
      else
        var pc := s.coordinators[c];
        var built := BuildChange(mapping, pc.account, pc.base, pc.change);
        if built.None? then s.(coordinators := s.coordinators - {c}) else
        var result := Commit(s.items, CursorOf(s, pc.account), pc.account in s.registered, pc.account,
                             pc.base, pc.change.state, built.value, mapping.idOf);
        if result.Some? then
          s.(items := result.value.0, cursors := s.cursors[pc.account := result.value.1], coordinators := s.coordinators - {c})
        else if pc.attempt + 1 < MAX_ATTEMPTS then
          s.(coordinators := s.coordinators[c := Reading(pc.account, pc.attempt + 1)])
        else s.(coordinators := s.coordinators - {c})
    case Abort(c) => s.(coordinators := s.coordinators - {c})
  }

  ghost function Run<Raw(!new), Rec>(mapping: Mapping<Raw, Rec>, h: History<Raw>, s: System<Raw, Rec>,
                                     events: seq<Event<Raw>>): System<Raw, Rec> {
    if events == [] then s
    else Step(mapping, h, Run(mapping, h, s, events[..|events| - 1]), events[|events| - 1])
  }

  // ---- Soundness ----

  ghost predicate AgreesAt<Raw(!new), Rec>(mapping: Mapping<Raw, Rec>, items: map<ScopedId, Rec>, account: string,
                                           remote: map<string, Raw>, id: string) {
    var local := ScopedId(account, id);
    if id in remote && mapping.decode(account, remote[id]).Some?
    then local in items && items[local] == mapping.decode(account, remote[id]).value
    else local !in items && (!mapping.lenient ==> id !in remote)
  }

  /** The account's local collection is exactly the mapped remote one. */
  ghost predicate Materializes<Raw(!new), Rec>(mapping: Mapping<Raw, Rec>, items: map<ScopedId, Rec>, account: string,
                                               remote: map<string, Raw>) {
    forall id :: AgreesAt(mapping, items, account, remote, id)
  }

  /** No record of a state the remote was ever in is dropped by the mapping. */
  ghost predicate NothingDropped<Raw(!new), Rec>(mapping: Mapping<Raw, Rec>, h: History<Raw>) {
    forall account, state, id :: id in h(account, state) ==> mapping.decode(account, h(account, state)[id]).Some?
  }

  lemma {:induction false} DecodeAllIds<Raw(!new), Rec(!new)>(mapping: Mapping<Raw, Rec>, account: string,
                                                              raws: seq<Raw>)
    requires mapping.Scoped() && NoDuplicates(KeysOf(raws, mapping.rawId))
    requires DecodeAll(mapping, account, raws).Some?
    ensures var records := DecodeAll(mapping, account, raws).value;
            && NoDuplicates(KeysOf(records, mapping.idOf))
            && (forall r <- records :: exists raw <- raws :: mapping.decode(account, raw) == Some(r))
            && (forall raw <- raws :: if mapping.decode(account, raw).Some? then mapping.decode(account, raw).value in records
                                       else mapping.lenient)
  {
    if raws != [] {
      var n := |raws| - 1;
      assert KeysOf(raws, mapping.rawId)[..n] == KeysOf(raws[..n], mapping.rawId);
      DecodeAllIds(mapping, account, raws[..n]);
      assert raws == raws[..n] + [raws[n]];
      var before := DecodeAll(mapping, account, raws[..n]).value;
      var last := mapping.decode(account, raws[n]);
      if last.Some? {
        var records := before + [last.value];
        forall i | 0 <= i < |before|
          ensures mapping.idOf(before[i]) != mapping.idOf(last.value)
        {
          var raw :| raw in raws[..n] && mapping.decode(account, raw) == Some(before[i]);
          var j :| 0 <= j < n && raws[j] == raw;
          assert KeysOf(raws, mapping.rawId)[j] != KeysOf(raws, mapping.rawId)[n];
        }
      }
    }
  }

  function RawsOf<Raw(!new)>(change: RemoteChange<Raw>): seq<Raw> {
    if change.Snapshot? then change.snapshot else change.changed
  }

  /** A delta needs the cursor it was asked from, and a strict mapping every record of the answer. */
  ghost predicate Buildable<Raw(!new), Rec>(mapping: Mapping<Raw, Rec>, account: string, base: Option<string>,
                                            change: RemoteChange<Raw>) {
    && (change.Snapshot? || base.Some?)
    && (mapping.lenient || forall raw <- RawsOf(change) :: mapping.decode(account, raw).Some?)
  }

  lemma {:induction false} DecodesIff<Raw(!new), Rec(!new)>(mapping: Mapping<Raw, Rec>, account: string, raws: seq<Raw>)
    ensures DecodeAll(mapping, account, raws).Some?
       <==> mapping.lenient || forall raw <- raws :: mapping.decode(account, raw).Some?
  {
    if raws != [] {
      var n := |raws| - 1;
      DecodesIff(mapping, account, raws[..n]);
      assert raws == raws[..n] + [raws[n]];
    }
  }

  /** A commit is built of exactly those answers, an empty first snapshot among them; it replaces
      the collection for a snapshot and is a delta with the destroyed ids of the account for changes. */
  lemma BuildsIff<Raw(!new), Rec(!new)>(mapping: Mapping<Raw, Rec>, account: string, base: Option<string>,
                                        change: RemoteChange<Raw>)
    ensures BuildChange(mapping, account, base, change).Some? <==> Buildable(mapping, account, base, change)
    ensures BuildChange(mapping, account, base, change).Some? ==>
              var c := BuildChange(mapping, account, base, change).value;
              if change.Snapshot? then c.Replace?
              else c.Delta? && forall id :: ScopedId(account, id) in c.destroyed <==> id in change.destroyed
  {
    DecodesIff(mapping, account, RawsOf(change));
    if change.Changes? {
      var ids := LocalIds(account, change.destroyed);
      forall id
        ensures ScopedId(account, id) in ids <==> id in change.destroyed
      {
        if i :| 0 <= i < |change.destroyed| && change.destroyed[i] == id {
          assert ids[i] == ScopedId(account, id);
        }
      }
    }
  }

  /** A built change passes the engine's own validation. */
  lemma BuiltIsValid<Raw(!new), Rec(!new)>(mapping: Mapping<Raw, Rec>, h: History<Raw>, account: string,
                                           base: Option<string>, change: RemoteChange<Raw>)
    requires mapping.Scoped() && Truthful(h, mapping.rawId, account, base, change)
    requires BuildChange(mapping, account, base, change).Some?
    ensures ValidChange(BuildChange(mapping, account, base, change).value, account, mapping.idOf)
  {
    var raws := RawsOf(change);
    DecodeAllIds(mapping, account, raws);
    var records := DecodeAll(mapping, account, raws).value;
    var c := BuildChange(mapping, account, base, change).value;
    forall id | id in KeysOf(records, mapping.idOf)
      ensures id.accountKey == account && id !in Destroyed(c)
    {
      var i :| 0 <= i < |records| && mapping.idOf(records[i]) == id;
      var raw :| raw in raws && mapping.decode(account, raw) == Some(records[i]);
      assert id == ScopedId(account, mapping.rawId(raw));
      var j :| 0 <= j < |raws| && raws[j] == raw;
      assert KeysOf(raws, mapping.rawId)[j] == id.jmapId;
    }
  }

  /** The record the mapping drops although an older version of it is held locally. */
  ghost predicate StaleAt<Raw(!new), Rec>(mapping: Mapping<Raw, Rec>, items: map<ScopedId, Rec>, account: string,
                                          change: RemoteChange<Raw>, id: string) {
    && change.Changes? && ScopedId(account, id) in items
    && exists raw <- change.changed :: mapping.rawId(raw) == id && mapping.decode(account, raw).None?
  }

  /** An id among the remote records is either mapped, and then holds the mapped record, or
      dropped, and then no built record bears it. */
  lemma BuiltRecordAt<Raw(!new), Rec(!new)>(mapping: Mapping<Raw, Rec>, account: string, raws: seq<Raw>, raw: Raw)
    requires mapping.Scoped() && NoDuplicates(KeysOf(raws, mapping.rawId)) && raw in raws
    requires DecodeAll(mapping, account, raws).Some?
    ensures var records := DecodeAll(mapping, account, raws).value;
            var local := ScopedId(account, mapping.rawId(raw));
            if mapping.decode(account, raw).Some?
            then local in KeysOf(records, mapping.idOf)
                 && forall r <- records :: mapping.idOf(r) == local ==> r == mapping.decode(account, raw).value
            else local !in KeysOf(records, mapping.idOf) && mapping.lenient
  {
    DecodeAllIds(mapping, account, raws);
    OnlyRecord(mapping, raws, raw, mapping.rawId(raw));
    var records := DecodeAll(mapping, account, raws).value;
    if mapping.decode(account, raw).Some? {
      var i :| 0 <= i < |records| && records[i] == mapping.decode(account, raw).value;
      assert KeysOf(records, mapping.idOf)[i] == ScopedId(account, mapping.rawId(raw));
    } else {
      forall i | 0 <= i < |records|
        ensures mapping.idOf(records[i]) != ScopedId(account, mapping.rawId(raw))
      {
        var other :| other in raws && mapping.decode(account, other) == Some(records[i]);
      }
    }
  }

  lemma BuiltRecordsOnlyAt<Raw(!new), Rec(!new)>(mapping: Mapping<Raw, Rec>, account: string, raws: seq<Raw>,
                                                 id: string)
    requires mapping.Scoped() && NoDuplicates(KeysOf(raws, mapping.rawId)) && id !in KeysOf(raws, mapping.rawId)
    requires DecodeAll(mapping, account, raws).Some?
    ensures ScopedId(account, id) !in KeysOf(DecodeAll(mapping, account, raws).value, mapping.idOf)
    ensures forall raw <- raws :: mapping.rawId(raw) != id
  {
    DecodeAllIds(mapping, account, raws);
    forall raw | raw in raws
      ensures mapping.rawId(raw) != id
    {
      var i :| 0 <= i < |raws| && raws[i] == raw;
      assert KeysOf(raws, mapping.rawId)[i] == mapping.rawId(raw);
    }
  }

  /** A truthful answer lists each of its records under its own id in the state it names. */
  lemma AnswerListsRecord<Raw(!new)>(h: History<Raw>, rawId: Raw -> string, account: string, base: Option<string>,
                                     change: RemoteChange<Raw>, raw: Raw)
    requires Truthful(h, rawId, account, base, change) && raw in RawsOf(change)
    requires change.Changes? ==> base.Some?
    ensures NoDuplicates(KeysOf(RawsOf(change), rawId))
    ensures rawId(raw) in h(account, change.state) && h(account, change.state)[rawId(raw)] == raw
    ensures change.Changes? ==> rawId(raw) !in change.destroyed
  {
    var i :| 0 <= i < |RawsOf(change)| && RawsOf(change)[i] == raw;
    assert KeysOf(RawsOf(change), rawId)[i] == rawId(raw);
  }

  /** Where the record is mapped, the commit writes it. */
  lemma CommitAtMapped<Raw(!new), Rec(!new)>(mapping: Mapping<Raw, Rec>, items: map<ScopedId, Rec>, account: string, c: Change<Rec>,
                                             raws: seq<Raw>, raw: Raw, remote: map<string, Raw>)
    requires mapping.Scoped() && NoDuplicates(KeysOf(raws, mapping.rawId)) && raw in raws
    requires DecodeAll(mapping, account, raws) == Some(c.Records()) && ValidChange(c, account, mapping.idOf)
    requires mapping.rawId(raw) in remote && remote[mapping.rawId(raw)] == raw && mapping.decode(account, raw).Some?
    ensures AgreesAt(mapping, Apply(items, c, account, mapping.idOf), account, remote, mapping.rawId(raw))
  {
    BuiltRecordAt(mapping, account, raws, raw);
    ApplyAt(items, c, account, mapping.idOf, ScopedId(account, mapping.rawId(raw)));
  }

  /** Where it is dropped, the commit clears what a replacement clears, and leaves the rest. */
  lemma CommitAtDropped<Raw(!new), Rec(!new)>(mapping: Mapping<Raw, Rec>, items: map<ScopedId, Rec>, account: string, c: Change<Rec>,
                                              raws: seq<Raw>, raw: Raw, remote: map<string, Raw>)
    requires mapping.Scoped() && NoDuplicates(KeysOf(raws, mapping.rawId)) && raw in raws
    requires DecodeAll(mapping, account, raws) == Some(c.Records()) && ValidChange(c, account, mapping.idOf)
    requires mapping.rawId(raw) in remote && remote[mapping.rawId(raw)] == raw && mapping.decode(account, raw).None?
    requires ScopedId(account, mapping.rawId(raw)) !in Destroyed(c)
    ensures AgreesAt(mapping, Apply(items, c, account, mapping.idOf), account, remote, mapping.rawId(raw))
       <==> c.Replace? || ScopedId(account, mapping.rawId(raw)) !in items
  {
    BuiltRecordAt(mapping, account, raws, raw);
    ApplyAt(items, c, account, mapping.idOf, ScopedId(account, mapping.rawId(raw)));
  }

  lemma StaleAtRecord<Raw(!new), Rec>(mapping: Mapping<Raw, Rec>, items: map<ScopedId, Rec>, account: string,
                                      change: RemoteChange<Raw>, raw: Raw)
    requires NoDuplicates(KeysOf(RawsOf(change), mapping.rawId)) && raw in RawsOf(change)
    ensures StaleAt(mapping, items, account, change, mapping.rawId(raw))
       <==> change.Changes? && ScopedId(account, mapping.rawId(raw)) in items && mapping.decode(account, raw).None?
  {
    OnlyRecord(mapping, RawsOf(change), raw, mapping.rawId(raw));
  }

  lemma CommitAtRecord<Raw(!new), Rec(!new)>(mapping: Mapping<Raw, Rec>, h: History<Raw>, items: map<ScopedId, Rec>, account: string,
                                             base: Option<string>, change: RemoteChange<Raw>, raw: Raw)
    requires mapping.Scoped() && Truthful(h, mapping.rawId, account, base, change)
    requires BuildChange(mapping, account, base, change).Some? && raw in RawsOf(change)
    ensures var c := BuildChange(mapping, account, base, change).value;
            AgreesAt(mapping, Apply(items, c, account, mapping.idOf), account, h(account, change.state), mapping.rawId(raw))
            <==> !StaleAt(mapping, items, account, change, mapping.rawId(raw))
  {
    var c := BuildChange(mapping, account, base, change).value;
    var remote := h(account, change.state);
    AnswerListsRecord(h, mapping.rawId, account, base, change, raw);
    BuiltIsValid(mapping, h, account, base, change);
    StaleAtRecord(mapping, items, account, change, raw);
    if mapping.decode(account, raw).Some? {
      CommitAtMapped(mapping, items, account, c, RawsOf(change), raw, remote);
    } else {
      assert ScopedId(account, mapping.rawId(raw)) !in Destroyed(c);
      CommitAtDropped(mapping, items, account, c, RawsOf(change), raw, remote);
    }
  }

  lemma CommitAtOther<Raw(!new), Rec(!new)>(mapping: Mapping<Raw, Rec>, h: History<Raw>, items: map<ScopedId, Rec>,
                                            account: string,
                                            base: Option<string>, change: RemoteChange<Raw>, id: string)
    requires mapping.Scoped() && Truthful(h, mapping.rawId, account, base, change)
    requires BuildChange(mapping, account, base, change).Some? && id !in KeysOf(RawsOf(change), mapping.rawId)
    requires change.Changes? ==> base.Some? && AgreesAt(mapping, items, account, h(account, base.value), id)
    ensures var c := BuildChange(mapping, account, base, change).value;
            AgreesAt(mapping, Apply(items, c, account, mapping.idOf), account, h(account, change.state), id)
    ensures !StaleAt(mapping, items, account, change, id)
  {
    var c := BuildChange(mapping, account, base, change).value;
    BuiltIsValid(mapping, h, account, base, change);
    BuiltRecordsOnlyAt(mapping, account, RawsOf(change), id);
    ApplyAt(items, c, account, mapping.idOf, ScopedId(account, id));
    if change.Changes? && id in change.destroyed {
      var i :| 0 <= i < |change.destroyed| && change.destroyed[i] == id;
      assert c.destroyed[i] == ScopedId(account, id);
    }
  }

  lemma OnlyRecord<Raw(!new), Rec>(mapping: Mapping<Raw, Rec>, raws: seq<Raw>, raw: Raw, id: string)
    requires NoDuplicates(KeysOf(raws, mapping.rawId)) && raw in raws && mapping.rawId(raw) == id
    ensures forall other <- raws :: mapping.rawId(other) == id ==> other == raw
  {
    var i :| 0 <= i < |raws| && raws[i] == raw;
    forall other | other in raws && mapping.rawId(other) == id
      ensures other == raw
    {
      var j :| 0 <= j < |raws| && raws[j] == other;
      assert KeysOf(raws, mapping.rawId)[i] == KeysOf(raws, mapping.rawId)[j];
    }
  }

  /** One commit, exactly: applied to a faithful copy of the base state it leaves a faithful
      copy of the next state, unless a change replaced a record held locally by one that the
      mapping drops. Then, and only then, the old version stays behind. */
  lemma CommitMaterializesIff<Raw(!new), Rec(!new)>(mapping: Mapping<Raw, Rec>, h: History<Raw>,
                                                    items: map<ScopedId, Rec>, account: string,
                                                    base: Option<string>, change: RemoteChange<Raw>)
    requires mapping.Scoped() && Truthful(h, mapping.rawId, account, base, change)
    requires BuildChange(mapping, account, base, change).Some?
    requires base.Some? ==> Materializes(mapping, items, account, h(account, base.value))
    ensures var c := BuildChange(mapping, account, base, change).value;
            Materializes(mapping, Apply(items, c, account, mapping.idOf), account, h(account, change.state))
            <==> forall id :: !StaleAt(mapping, items, account, change, id)
  {
    forall id
      ensures var c := BuildChange(mapping, account, base, change).value;
              AgreesAt(mapping, Apply(items, c, account, mapping.idOf), account, h(account, change.state), id)
              <==> !StaleAt(mapping, items, account, change, id)
    {
      assert base.Some? ==> AgreesAt(mapping, items, account, h(account, base.value), id);
      if id in KeysOf(RawsOf(change), mapping.rawId) {
        var i :| 0 <= i < |RawsOf(change)| && mapping.rawId(RawsOf(change)[i]) == id;
        CommitAtRecord(mapping, h, items, account, base, change, RawsOf(change)[i]);
      } else {
        CommitAtOther(mapping, h, items, account, base, change, id);
      }
    }
  }

  // ---- Whole runs ----

  ghost predicate Sound<Raw(!new), Rec>(mapping: Mapping<Raw, Rec>, h: History<Raw>, s: System<Raw, Rec>) {
    && (forall account <- s.cursors :: Materializes(mapping, s.items, account, h(account, s.cursors[account])))
    && (forall c <- s.coordinators :: s.coordinators[c].Committing? ==>
          Truthful(h, mapping.rawId, s.coordinators[c].account, s.coordinators[c].base, s.coordinators[c].change))
  }

  /** The mapping is strict, or the remote never holds a record that it drops. */
  ghost predicate Lossless<Raw(!new), Rec>(mapping: Mapping<Raw, Rec>, h: History<Raw>) {
    mapping.lenient ==> NothingDropped(mapping, h)
  }

  lemma {:induction false} StrictDecodesAll<Raw(!new), Rec(!new)>(mapping: Mapping<Raw, Rec>, account: string,
                                                                  raws: seq<Raw>)
    requires !mapping.lenient && DecodeAll(mapping, account, raws).Some?
    ensures forall raw <- raws :: mapping.decode(account, raw).Some?
  {
    if raws != [] {
      StrictDecodesAll(mapping, account, raws[..|raws| - 1]);
      assert raws == raws[..|raws| - 1] + [raws[|raws| - 1]];
    }
  }

  lemma LosslessNeverStale<Raw(!new), Rec(!new)>(mapping: Mapping<Raw, Rec>, h: History<Raw>,
                                                 items: map<ScopedId, Rec>, account: string,
                                                 base: Option<string>, change: RemoteChange<Raw>, id: string)
    requires Lossless(mapping, h) && Truthful(h, mapping.rawId, account, base, change)
    requires BuildChange(mapping, account, base, change).Some?
    ensures !StaleAt(mapping, items, account, change, id)
  {
    if change.Changes? && !mapping.lenient {
      StrictDecodesAll(mapping, account, change.changed);
    }
  }

  lemma StepKeepsSound<Raw(!new), Rec(!new)>(mapping: Mapping<Raw, Rec>, h: History<Raw>, s: System<Raw, Rec>,
                                             e: Event<Raw>)
    requires mapping.Scoped() && Lossless(mapping, h) && Sound(mapping, h, s)
    ensures Sound(mapping, h, Step(mapping, h, s, e))
  {
    if e.ApplyCommit? && e.c in s.coordinators && s.coordinators[e.c].Committing? {
      var pc := s.coordinators[e.c];
      var built := BuildChange(mapping, pc.account, pc.base, pc.change);
      if built.Some? && CursorOf(s, pc.account) == pc.base {
        forall id
          ensures !StaleAt(mapping, s.items, pc.account, pc.change, id)
        {
          LosslessNeverStale(mapping, h, s.items, pc.account, pc.base, pc.change, id);
        }
        CommitMaterializesIff(mapping, h, s.items, pc.account, pc.base, pc.change);
        BuiltIsValid(mapping, h, pc.account, pc.base, pc.change);
        var items := Apply(s.items, built.value, pc.account, mapping.idOf);
        forall account, id | account in s.cursors && account != pc.account
          ensures AgreesAt(mapping, items, account, h(account, s.cursors[account]), id)
        {
          ApplyAt(s.items, built.value, pc.account, mapping.idOf, ScopedId(account, id));
          assert AgreesAt(mapping, s.items, account, h(account, s.cursors[account]), id);
        }
      }
    }
  }

  /** Cursor soundness: in every run of racing coordinators, a stored cursor names the
      remote state of which the account's local collection is a faithful copy. */
  lemma {:induction false} CursorSoundness<Raw(!new), Rec(!new)>(mapping: Mapping<Raw, Rec>, h: History<Raw>,
                                                                 events: seq<Event<Raw>>)
    requires mapping.Scoped() && Lossless(mapping, h)
    ensures Sound(mapping, h, Run(mapping, h, System(map[], map[], {}, map[]), events))
  {
    if events != [] {
      CursorSoundness(mapping, h, events[..|events| - 1]);
      StepKeepsSound(mapping, h, Run(mapping, h, System(map[], map[], {}, map[]), events[..|events| - 1]), events[|events| - 1]);
    }
  }

  /** A change fetched against a cursor that has moved meanwhile is never applied; one that
      is applied is the one that was built, and its own token becomes the cursor. */
  lemma CommitOnlyFromItsBase<Raw(!new), Rec(!new)>(mapping: Mapping<Raw, Rec>, h: History<Raw>, s: System<Raw, Rec>,
                                                    c: nat)
    requires mapping.Scoped() && Sound(mapping, h, s) && c in s.coordinators && s.coordinators[c].Committing?
    ensures var pc := s.coordinators[c];
            var built := BuildChange(mapping, pc.account, pc.base, pc.change);
            var s' := Step(mapping, h, s, ApplyCommit(c));
            if built.Some? && pc.account in s.registered && CursorOf(s, pc.account) == pc.base
            then && s'.items == Apply(s.items, built.value, pc.account, mapping.idOf)
                 && s'.cursors == s.cursors[pc.account := pc.change.state]
            else s'.items == s.items && s'.cursors == s.cursors
    ensures var pc := s.coordinators[c];
            Buildable(mapping, pc.account, pc.base, pc.change) && CursorOf(s, pc.account) != pc.base ==>
              Step(mapping, h, s, ApplyCommit(c)).coordinators ==
              if pc.attempt == 0 then s.coordinators[c := Reading(pc.account, 1)] else s.coordinators - {c}
  {
    var pc := s.coordinators[c];
    BuildsIff(mapping, pc.account, pc.base, pc.change);
    if BuildChange(mapping, pc.account, pc.base, pc.change).Some? {
      BuiltIsValid(mapping, h, pc.account, pc.base, pc.change);
    }
  }

  lemma RunSnoc<Raw(!new), Rec(!new)>(mapping: Mapping<Raw, Rec>, h: History<Raw>, s: System<Raw, Rec>,
                                      events: seq<Event<Raw>>, e: Event<Raw>)
    ensures Run(mapping, h, s, events + [e]) == Step(mapping, h, Run(mapping, h, s, events), e)
  {
    assert (events + [e])[..|events + [e]| - 1] == events;
  }

  /** One whole synchronization, from reading the cursor to the commit. */
  function WholeSync<Raw(!new)>(c: nat, account: string, change: RemoteChange<Raw>): seq<Event<Raw>> {
    [Begin(c, account)] + [ReadCursor(c)] + [Fetched(c, change)] + [ApplyCommit(c)]
  }

  lemma WholeSyncRun<Raw(!new), Rec(!new)>(mapping: Mapping<Raw, Rec>, h: History<Raw>, s: System<Raw, Rec>, c: nat,
                                           account: string, change: RemoteChange<Raw>)
    requires c !in s.coordinators && account in s.registered
    requires Truthful(h, mapping.rawId, account, CursorOf(s, account), change)
    ensures Run(mapping, h, s, WholeSync(c, account, change)) ==
            Step(mapping, h, s.(coordinators := s.coordinators[c := Committing(account, 0, CursorOf(s, account), change)]),
                 ApplyCommit(c))
  {
    var e := WholeSync(c, account, change);
    assert [] + [e[0]] == [e[0]];
    RunSnoc(mapping, h, s, [], e[0]);
    RunSnoc(mapping, h, s, [e[0]], e[1]);
    RunSnoc(mapping, h, s, [e[0]] + [e[1]], e[2]);
    RunSnoc(mapping, h, s, [e[0]] + [e[1]] + [e[2]], e[3]);
    var s1 := Step(mapping, h, s, e[0]);
    var s2 := Step(mapping, h, s1, e[1]);
    assert s2.coordinators == s.coordinators[c := Fetching(account, 0, CursorOf(s, account))];
    var s3 := Step(mapping, h, s2, e[2]);
    assert s3.coordinators == s.coordinators[c := Committing(account, 0, CursorOf(s, account), change)];
  }

  /** Whatever was synchronized before, or nothing at all, a synchronization that nobody disturbs
      brings a registered account to the state that the remote answers with. */
  lemma UndisturbedSyncLands<Raw(!new), Rec(!new)>(mapping: Mapping<Raw, Rec>, h: History<Raw>, s: System<Raw, Rec>,
                                                   c: nat, account: string, change: RemoteChange<Raw>)
    requires mapping.Scoped() && Lossless(mapping, h) && Sound(mapping, h, s)
    requires c !in s.coordinators && account in s.registered
    requires Truthful(h, mapping.rawId, account, CursorOf(s, account), change)
    requires Buildable(mapping, account, CursorOf(s, account), change)
    ensures var s' := Run(mapping, h, s, WholeSync(c, account, change));
            && s'.cursors == s.cursors[account := change.state] && s'.coordinators == s.coordinators
            && Materializes(mapping, s'.items, account, h(account, change.state))
  {
    WholeSyncRun(mapping, h, s, c, account, change);
    BuildsIff(mapping, account, CursorOf(s, account), change);
    var t := s.(coordinators := s.coordinators[c := Committing(account, 0, CursorOf(s, account), change)]);
    BuiltIsValid(mapping, h, account, CursorOf(s, account), change);
    assert Sound(mapping, h, t);
    StepKeepsSound(mapping, h, t, ApplyCommit(c));
    assert t.coordinators - {c} == s.coordinators;
  }
}
