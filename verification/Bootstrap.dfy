/** Crash-safe creation, opening and reset of the encrypted cache:
    `src-tauri/src/bootstrap/bootstrap.rs`, `reset.rs` and `markers.rs`.

    Every call that touches a file or the key store may take effect or not, and may then
    return an error or never return because the process dies; a script of faults decides. */
module Bootstrap {
  import opened Base

  type Dek = nat

  type Data = seq<string>

  /** A database file: unfinished while its creation has not completed. */
  datatype Database = NoFile | Unfinished | Complete(key: Dek, data: Data)

  datatype Artifact = Main | Wal | Shm | Journal

  type Sidecars = s: set<Artifact> | Main !in s

  const ARTIFACTS: seq<Artifact> := [Main, Wal, Shm, Journal]

  datatype Disk = Disk(database: Database, sidecars: Sidecars, createMarker: bool, resetMarker: bool, stored: Option<Dek>)
  {
    predicate Exists(a: Artifact) {
      if a.Main? then !database.NoFile? else a in sidecars
    }

    function Without(a: Artifact): Disk {
      if a.Main? then this.(database := NoFile) else this.(sidecars := sidecars - {a})
    }

    /** The first `n` artifacts removed, in deletion order. */
    function WithoutFirst(n: nat): Disk
      requires n <= |ARTIFACTS|
    {
      if n == 0 then this else WithoutFirst(n - 1).Without(ARTIFACTS[n - 1])
    }

    predicate NoArtifacts() {
      database.NoFile? && sidecars == {}
    }

    predicate NoMarkers() {
      !createMarker && !resetMarker
    }

    /** A complete database that the stored key opens. */
    predicate Openable() {
      database.Complete? && stored == Some(database.key)
    }
  }

  const EMPTY_DISK := Disk(NoFile, {}, false, false, None)

  /** A marker is present, or there is nothing, or there is a database its key opens. */
  predicate Recoverable(d: Disk) {
    d.createMarker || d.resetMarker || d.NoArtifacts() || d.Openable()
  }

  function Marked(d: Disk, reset: bool, present: bool): Disk {
    if reset then d.(resetMarker := present) else d.(createMarker := present)
  }

  /** The file calls by which a marker is made durable. */
  const MARKER_CALLS: nat := 5

  datatype Failure =
    | LocalDataUnavailable | LocalCacheAlreadyInUse | SecureStoreUnavailable | SecureStoreCorrupt
    | SecureStoreConfiguration | KeyLost | InvalidStoredDek | DatabaseUnreadable | Unexpected

  predicate StoreFailure(f: Failure) {
    f.SecureStoreUnavailable? || f.SecureStoreCorrupt? || f.SecureStoreConfiguration? || f.InvalidStoredDek?
  }

  datatype Fault = Proceed | FailBefore(failure: Failure) | FailAfter(failure: Failure) | DieBefore | DieAfter

  /** The next `n` calls succeed; a script that is over makes every call succeed. */
  predicate NextProceed(faults: seq<Fault>, n: nat) {
    n == 0 || faults == [] || (faults[0].Proceed? && NextProceed(faults[1..], n - 1))
  }

  lemma {:induction false} ProceedLater(faults: seq<Fault>, n: nat)
    requires n > 0
    ensures NextProceed(faults, n) ==>
              NextProceed(faults, 1) && NextProceed(Later(faults), n - 1) && NextProceed(faults, n - 1)
  {
    if faults != [] && n > 1 {
      ProceedLater(faults[1..], n - 1);
    }
  }

  function Later(faults: seq<Fault>): seq<Fault> {
    if faults == [] then [] else faults[1..]
  }

  predicate Clean(faults: seq<Fault>) {
    forall i :: 0 <= i < |faults| ==> faults[i].Proceed?
  }

  datatype Answer = Done | Failed(failure: Failure) | Died

  datatype Boot = Ready(key: Dek) | Refused(failure: Failure) | Crashed

  function Stopped(a: Answer): Boot
    requires !a.Done?
  {
    if a.Died? then Crashed else Refused(a.failure)
  }

  datatype LifecycleState = Initializing | Serving(key: Dek) | Resetting | Unavailable(failure: Failure)

  class ManagedLocalEngine {
    var state: LifecycleState

    constructor ()
      ensures state == Initializing
    {
      state := Initializing;
    }
  }

  class Cache {
    var database: Database
    var sidecars: Sidecars
    var createMarker: bool
    var resetMarker: bool
    var stored: Option<Dek>
    var faults: seq<Fault>   // what the next calls meet; none left: they all succeed

    constructor (faults: seq<Fault>)
      ensures Snapshot() == EMPTY_DISK && this.faults == faults
    {
      database, sidecars, createMarker, resetMarker, stored := NoFile, {}, false, false, None;
      this.faults := faults;
    }

    function Snapshot(): Disk
      reads this
    {
      Disk(database, sidecars, createMarker, resetMarker, stored)
    }

    // ---- Calls into the file system and the key store ----

    method Meet() returns (takesEffect: bool, answer: Answer)
      modifies this`faults
      ensures faults == Later(old(faults)) && (Clean(old(faults)) ==> Clean(faults))
      ensures NextProceed(old(faults), 1) || Clean(old(faults)) ==> answer.Done?
      ensures answer.Done? ==> takesEffect
    {
      if faults == [] {
        return true, Done;
      }
      var fault := faults[0];
      faults := faults[1..];
      match fault {
        case Proceed => return true, Done;
        case FailBefore(f) => return false, Answer.Failed(f);
        case FailAfter(f) => return true, Answer.Failed(f);
        case DieBefore => return false, Died;
        case DieAfter => return true, Died;
      }
    }

    /** Up to `n` calls left the disk as intended, or did not complete and left it as it was. */
    twostate predicate Attempted(intended: Disk, answer: Answer, n: nat)
      reads this
    {
      && (Snapshot() == intended || (!answer.Done? && Snapshot() == old(Snapshot())))
      && (NextProceed(old(faults), n) || Clean(old(faults)) ==> answer.Done?)
      && (Clean(old(faults)) ==> Clean(faults))
    }

    /** Every failure of a file call is reported as the same one. */
    function FileAnswer(a: Answer): Answer {
      if a.Failed? then Answer.Failed(LocalDataUnavailable) else a
    }

    method RemoveFile(a: Artifact) returns (answer: Answer)
      modifies this
      ensures Attempted(old(Snapshot()).Without(a), answer, 1)
      ensures answer.Failed? ==> answer.failure == LocalDataUnavailable
    {
      var takesEffect;
      takesEffect, answer := Meet();
      answer := FileAnswer(answer);
      if takesEffect {
        if a.Main? {
          database := NoFile;
        } else {
          sidecars := sidecars - {a};
        }
      }
    }

    method SetMarker(reset: bool, present: bool) returns (answer: Answer)
      modifies this
      ensures Attempted(Marked(old(Snapshot()), reset, present), answer, 1)
      ensures faults == Later(old(faults))
    {
      var takesEffect;
      takesEffect, answer := Meet();
      if takesEffect {
        if reset {
          resetMarker := present;
        } else {
          createMarker := present;
        }
      }
    }

    /** `create_durable`: the file is created, written if it is empty, and synced, and so is its
        directory; a marker counts from the first of these on. */
    method CreateDurable(reset: bool) returns (answer: Answer)
      modifies this
      ensures Attempted(Marked(old(Snapshot()), reset, true), answer, MARKER_CALLS)
      ensures answer.Failed? ==> answer.failure == LocalDataUnavailable
    {
      ProceedLater(faults, 5);
      answer := SetMarker(reset, true);   // open
      if answer.Done? {
        ProceedLater(faults, 4);
        answer := Consult();   // metadata
      }
      var empty: bool := *;
      ProceedLater(faults, 3);
      if answer.Done? && empty {
        answer := Consult();   // write_all
      }
      if answer.Done? {
        ProceedLater(faults, 2);
        answer := Consult();   // flush and sync_all
      }
      if answer.Done? {
        answer := Consult();   // sync_parent
      }
      answer := FileAnswer(answer);
    }

    /** `remove_durable`: a marker that is not there is no failure, and needs no sync. */
    method RemoveDurable(reset: bool) returns (answer: Answer)
      modifies this
      ensures Attempted(Marked(old(Snapshot()), reset, false), answer, 2)
      ensures answer.Failed? ==> answer.failure == LocalDataUnavailable
    {
      var found := if reset then resetMarker else createMarker;
      ProceedLater(faults, 2);
      answer := SetMarker(reset, false);
      if answer.Done? && found {
        answer := Consult();   // sync_parent
      }
      answer := FileAnswer(answer);
    }

    method StoreDek(dek: Dek) returns (answer: Answer)
      modifies this
      ensures Attempted(old(Snapshot()).(stored := Some(dek)), answer, 1)
    {
      var takesEffect;
      takesEffect, answer := Meet();
      if takesEffect {
        stored := Some(dek);
      }
    }

    method DeleteDek() returns (answer: Answer)
      modifies this
      ensures Attempted(old(Snapshot()).(stored := None), answer, 1)
    {
      var takesEffect;
      takesEffect, answer := Meet();
      if takesEffect {
        stored := None;
      }
    }

    /** A call that changes nothing durable: a lookup, a generator, a version query, a hook. */
    method Consult() returns (answer: Answer)
      modifies this`faults
      ensures Attempted(old(Snapshot()), answer, 1)
      ensures faults == Later(old(faults))
    {
      var _, a := Meet();
      answer := a;
    }

    method LoadDek() returns (found: Option<Dek>, answer: Answer)
      modifies this`faults
      ensures Attempted(old(Snapshot()), answer, 1)
      ensures answer.Done? ==> found == stored
      ensures answer.Failed? ==> StoreFailure(answer.failure)
    {
      answer := Consult();
      if answer.Failed? && !StoreFailure(answer.failure) {
        answer := Answer.Failed(SecureStoreUnavailable);
      }
      found := stored;
    }

    /** Opens the database, creating it when there is none. A creation that does not complete
        may leave anything behind; opening an existing database never changes what it holds.
        Its sidecar files come and go. */
    method OpenDatabase(dek: Dek) returns (answer: Answer)
      modifies this
      ensures createMarker == old(createMarker) && resetMarker == old(resetMarker) && stored == old(stored)
      ensures answer.Done? ==> database.Complete? && database.key == dek
      ensures old(database).NoFile? && answer.Done? ==> database == Complete(dek, [])
      ensures old(database).NoFile? && database.Complete? ==> database == Complete(dek, [])
      ensures old(database).Complete? ==> database == old(database)
      ensures Clean(old(faults)) && answer.Failed? ==> answer.failure == DatabaseUnreadable
      ensures Clean(old(faults)) ==> !answer.Died?
      ensures Clean(old(faults)) ==> Clean(faults)
      ensures Clean(old(faults)) && (old(database).NoFile? || (old(database).Complete? && old(database).key == dek)) ==>
                answer.Done?
    {
      var takesEffect;
      takesEffect, answer := Meet();
      if answer.Failed? {
        answer := Answer.Failed(DatabaseUnreadable);
      }
      sidecars := *;
      match database {
        case NoFile =>
          if takesEffect {
            database := Complete(dek, []);
          } else {
            var begun: bool := *;
            database := if begun then Unfinished else NoFile;
          }
        case Unfinished =>
          if takesEffect {
            database := Complete(dek, []);
          }
        case Complete(key, _) =>
          if key != dek && answer.Done? {
            answer := Answer.Failed(DatabaseUnreadable);
          }
      }
    }

    // ---- bootstrap.rs ----

    predicate AnyDatabaseArtifact()
      reads this
    {
      exists i :: 0 <= i < |ARTIFACTS| && Snapshot().Exists(ARTIFACTS[i])
    }

    predicate HasOrphanSidecar()
      reads this
    {
      database.NoFile? && exists i :: 1 <= i < |ARTIFACTS| && Snapshot().Exists(ARTIFACTS[i])
    }

    /** Deletes in a fixed order, the main file first, and stops where a deletion fails. */
    method DeleteDatabaseArtifacts() returns (answer: Answer)
      modifies this
      ensures exists n: nat :: n <= |ARTIFACTS| && Snapshot() == old(Snapshot()).WithoutFirst(n)
                               && (answer.Done? ==> n == |ARTIFACTS|)
      ensures Clean(old(faults)) ==> Clean(faults) && answer.Done?
    {
      for i := 0 to |ARTIFACTS|
        invariant Snapshot() == old(Snapshot()).WithoutFirst(i)
        invariant Clean(old(faults)) ==> Clean(faults)
      {
        assert old(Snapshot()).WithoutFirst(i + 1) == old(Snapshot()).WithoutFirst(i).Without(ARTIFACTS[i]);
        answer := RemoveFile(ARTIFACTS[i]);
        if !answer.Done? {
          return;
        }
      }
      answer := Done;
    }

    method BootstrapLocalCache() returns (boot: Boot)
      modifies this
      ensures BootStep(old(Snapshot()), Clean(old(faults)), Snapshot(), boot)
    {
      if resetMarker {
        boot := ResumeReset();
        return;
      }
      if createMarker {
        boot := RecoverIncompleteCreation();
        return;
      }
      ArtifactsListed(Snapshot());
      if HasOrphanSidecar() {
        return Refused(DatabaseUnreadable);
      }
      var databaseExists := AnyDatabaseArtifact();
      var found, answer := LoadDek();
      if !answer.Done? {
        return Stopped(answer);
      }
      if found.None? && databaseExists {
        return Refused(KeyLost);
      }
      var dek: Dek;
      if found.None? {
        dek, answer := GenerateAndStore();
        if !answer.Done? {
          return Stopped(answer);
        }
      } else {
        dek := found.value;
      }
      if databaseExists {
        answer := OpenDatabase(dek);
        boot := if answer.Done? then Ready(dek) else Stopped(answer);
      } else {
        boot := CreateNewDatabase(dek);
      }
    }

    method GenerateAndStore() returns (dek: Dek, answer: Answer)
      modifies this
      ensures Snapshot() == old(Snapshot()).(stored := Some(dek)) || (!answer.Done? && Snapshot() == old(Snapshot()))
      ensures Clean(old(faults)) ==> Clean(faults) && answer.Done?
    {
      dek := *;
      answer := Consult();
      if answer.Done? {
        answer := StoreDek(dek);
      }
    }

    method RecoverIncompleteCreation() returns (boot: Boot)
      requires createMarker && !resetMarker
      modifies this
      ensures BootStep(old(Snapshot()), Clean(old(faults)), Snapshot(), boot)
    {
      var answer := DeleteDatabaseArtifacts();
      DeletionKeepsTheRest(old(Snapshot()));
      if !answer.Done? {
        return Stopped(answer);
      }
      var found;
      found, answer := LoadDek();
      if !answer.Done? {
        return Stopped(answer);
      }
      var dek: Dek;
      if found.None? {
        dek, answer := GenerateAndStore();
        if !answer.Done? {
          return Stopped(answer);
        }
      } else {
        dek := found.value;
      }
      answer := OpenDatabase(dek);
      if !answer.Done? {
        return Stopped(answer);
      }
      answer := RemoveDurable(false);
      boot := if answer.Done? then Ready(dek) else Stopped(answer);
    }

    method CreateNewDatabase(dek: Dek) returns (boot: Boot)
      requires Snapshot().NoMarkers() && Snapshot().NoArtifacts() && stored == Some(dek)
      modifies this
      ensures Recoverable(Snapshot()) && !resetMarker && stored == old(stored)
      ensures boot.Ready? ==> boot.key == dek && !createMarker && database == Complete(dek, [])
      ensures Clean(old(faults)) ==> boot.Ready?
    {
      var answer := CreateDurable(false);
      if !answer.Done? {
        return Stopped(answer);
      }
      answer := OpenDatabase(dek);
      if !answer.Done? {
        return Stopped(answer);
      }
      answer := RemoveDurable(false);
      boot := if answer.Done? then Ready(dek) else Stopped(answer);
    }

    // ---- reset.rs ----

    /** The hook between two phases may stop the reset there; `verify` asks for the versions. */
    method ResumeReset() returns (boot: Boot)
      requires resetMarker
      modifies this
      ensures ResumeStep(old(Snapshot()), Clean(old(faults)), Snapshot(), boot)
    {
      var answer := DiscardOld();
      if !answer.Done? {
        return Stopped(answer);
      }
      var dek;
      dek, answer := StoreNewDek();
      if !answer.Done? {
        return Stopped(answer);
      }
      answer := CreateVerified(dek);
      boot := if answer.Done? then Ready(dek) else Stopped(answer);
    }

    /** The key goes only after everything that it opens. */
    method DiscardOld() returns (answer: Answer)
      modifies this
      ensures createMarker == old(createMarker) && resetMarker == old(resetMarker)
      ensures answer.Done? ==> Snapshot().NoArtifacts() && stored == None
      ensures stored == old(stored) || Snapshot().NoArtifacts()
      ensures Clean(old(faults)) ==> Clean(faults) && answer.Done?
    {
      answer := DeleteDatabaseArtifacts();
      DeletionKeepsTheRest(old(Snapshot()));
      if answer.Done? {
        answer := Consult();   // DatabaseDeleted
      }
      if answer.Done? {
        answer := DeleteDek();
      }
      if answer.Done? {
        answer := Consult();   // CredentialDeleted
      }
    }

    method StoreNewDek() returns (dek: Dek, answer: Answer)
      modifies this
      ensures Snapshot() == old(Snapshot()).(stored := Some(dek)) || (!answer.Done? && Snapshot() == old(Snapshot()))
      ensures Clean(old(faults)) ==> Clean(faults) && answer.Done?
    {
      dek := *;
      answer := Consult();
      if answer.Done? {
        answer := Consult();   // DekGenerated
      }
      if answer.Done? {
        answer := StoreDek(dek);
      }
      if answer.Done? {
        answer := Consult();   // DekStored
      }
    }

    method CreateVerified(dek: Dek) returns (answer: Answer)
      requires resetMarker && database.NoFile? && stored == Some(dek)
      modifies this
      ensures createMarker == old(createMarker) && stored == old(stored)
      ensures database.Complete? ==> database == Complete(dek, [])
      ensures resetMarker || database == Complete(dek, [])
      ensures answer.Done? ==> !resetMarker
      ensures Clean(old(faults)) ==> answer.Done?
    {
      answer := OpenDatabase(dek);
      if answer.Done? {
        answer := Consult();   // DatabaseCreated
      }
      if answer.Done? {
        answer := Consult();   // the version query
      }
      if answer.Done? {
        answer := Consult();   // DatabaseVerified
      }
      if answer.Done? {
        answer := RemoveDurable(true);
      }
      if answer.Done? {
        answer := Consult();   // MarkerRemoved
      }
    }

    /** `authorized_reset`, holding the engine exclusively. A failure to write the marker leaves
        the engine as it was; after that it is replaced by the new one or unavailable. */
    method AuthorizedReset(lifecycle: ManagedLocalEngine) returns (boot: Boot)
      modifies this, lifecycle
      ensures ResetStep(old(Snapshot()), NextProceed(old(faults), MARKER_CALLS), Clean(old(faults)), Snapshot(), boot,
                        old(lifecycle.state), lifecycle.state)
    {
      var answer := CreateDurable(true);
      if !answer.Done? {
        return Stopped(answer);
      }
      lifecycle.state := Resetting;
      answer := Consult();     // MarkerWritten
      if answer.Done? {
        answer := Consult();   // EngineDrained
      }
      if answer.Done? {
        boot := ResumeReset();
      } else {
        boot := Stopped(answer);
      }
      match boot {
        case Ready(key) => lifecycle.state := Serving(key);
        case Refused(failure) => lifecycle.state := Unavailable(failure);
        case Crashed =>
      }
    }
  }

  lemma ArtifactsListed(d: Disk)
    ensures (exists i :: 0 <= i < |ARTIFACTS| && d.Exists(ARTIFACTS[i])) <==> !d.NoArtifacts()
    ensures (exists i :: 1 <= i < |ARTIFACTS| && d.Exists(ARTIFACTS[i])) <==> d.sidecars != {}
  {
    assert ARTIFACTS[0] == Main && ARTIFACTS[1] == Wal && ARTIFACTS[2] == Shm && ARTIFACTS[3] == Journal;
    forall a | a in d.sidecars
      ensures a in {Wal, Shm, Journal}
    {
      match a {
        case Main =>
        case Wal =>
        case Shm =>
        case Journal =>
      }
    }
    if d.sidecars != {} {
      var a :| a in d.sidecars;
      var i :| 1 <= i < |ARTIFACTS| && ARTIFACTS[i] == a;
      assert d.Exists(ARTIFACTS[i]);
    }
    assert d.Exists(ARTIFACTS[0]) <==> !d.database.NoFile?;
  }

  /** Deleting the artifacts touches nothing else, and all of them gone means none left. */
  lemma DeletionKeepsTheRest(d: Disk)
    ensures forall n: nat :: n <= |ARTIFACTS| ==>
              var e := d.WithoutFirst(n);
              e.createMarker == d.createMarker && e.resetMarker == d.resetMarker && e.stored == d.stored
    ensures d.WithoutFirst(|ARTIFACTS|).NoArtifacts()
  {
    assert d.WithoutFirst(1) == d.Without(Main);
    assert d.WithoutFirst(2) == d.WithoutFirst(1).Without(Wal);
    assert d.WithoutFirst(3) == d.WithoutFirst(2).Without(Shm);
    assert d.WithoutFirst(4) == d.WithoutFirst(3).Without(Journal);
    ArtifactsListed(d);
    ArtifactsListed(d.WithoutFirst(4));
  }

  // ---- What each operation does to the disk, whatever it meets ----

  /** An engine that is handed out serves a complete database, empty if it was just created. */
  predicate ServesFresh(d: Disk, boot: Boot) {
    boot.Ready? ==> d.database == Complete(boot.key, []) && d.stored == Some(boot.key)
  }

  /** With the reset marker set: everything is replaced, and the marker stays until it is. As long
      as the old database is there, so is its key. The create marker is not looked at. */
  predicate ResumeStep(d: Disk, clean: bool, d': Disk, boot: Boot) {
    && d'.createMarker == d.createMarker
    && (d'.resetMarker || d'.Openable())
    && (d.Openable() && d'.database == d.database ==> d'.stored == d.stored)
    && ServesFresh(d', boot)
    && (boot.Ready? ==> !d'.resetMarker)
    && (clean ==> boot.Ready?)
  }

  /** With the create marker alone set: the same, keeping a stored key. */
  predicate RecoverStep(d: Disk, clean: bool, d': Disk, boot: Boot) {
    && !d'.resetMarker
    && (d.stored.Some? ==> d'.stored == d.stored)
    && (d'.createMarker || d'.Openable())
    && ServesFresh(d', boot)
    && (boot.Ready? ==> !d'.createMarker)
    && (clean ==> boot.Ready?)
  }

  /** With no marker: a database is opened, never written, and without its key not even that; under
      another key it stays unread; nothing at all is the signal to create. */
  predicate OpenStep(d: Disk, clean: bool, d': Disk, boot: Boot) {
    && !d'.resetMarker
    && (!d.database.NoFile? && d.stored.None? ==>
          && d' == d
          && (boot == Refused(KeyLost) || boot.Crashed? || (boot.Refused? && StoreFailure(boot.failure)))
          && (clean ==> boot == Refused(KeyLost)))
    && (d.database.NoFile? && d.sidecars != {} ==> d' == d && boot == Refused(DatabaseUnreadable))
    && (d.Openable() ==>
          && !d'.createMarker && d'.database == d.database && d'.stored == d.stored
          && (boot.Ready? ==> boot.key == d.database.key)
          && (clean ==> boot.Ready?))
    && (d.database.Complete? && d.stored.Some? && d.stored.value != d.database.key ==>
          && !d'.createMarker && d'.database == d.database && d'.stored == d.stored && !boot.Ready?
          && (clean ==> boot == Refused(DatabaseUnreadable)))
    && (d.NoArtifacts() ==>
          && Recoverable(d')
          && (d.stored.Some? ==> d'.stored == d.stored)
          && ServesFresh(d', boot)
          && (boot.Ready? ==> !d'.createMarker)
          && (clean ==> boot.Ready?))
  }

  predicate BootStep(d: Disk, clean: bool, d': Disk, boot: Boot) {
    if d.resetMarker then ResumeStep(d, clean, d', boot)
    else if d.createMarker then RecoverStep(d, clean, d', boot)
    else OpenStep(d, clean, d', boot)
  }

  predicate ResetStep(d: Disk, begins: bool, clean: bool, d': Disk, boot: Boot, engine: LifecycleState,
                      engine': LifecycleState) {
    || NotBegun(d, begins, d', boot, engine, engine')
    || (&& ResumeStep(d, clean, d', boot)
        && (boot.Ready? ==> engine' == Serving(boot.key))
        && (boot.Refused? ==> engine' == Unavailable(boot.failure))
        && (boot.Crashed? ==> engine' == Resetting))
  }

  /** The reset marker could not be written, or was written and not confirmed. */
  predicate NotBegun(d: Disk, begins: bool, d': Disk, boot: Boot, engine: LifecycleState, engine': LifecycleState) {
    !begins && !boot.Ready? && engine' == engine && (d' == d || d' == d.(resetMarker := true))
  }
}
