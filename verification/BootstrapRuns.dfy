/** Whole lives of a cache: any sequence of starts, sessions, resets and exits, each cut
    short at any call. */
module BootstrapRuns {
  import opened Base
  import opened Bootstrap

  datatype Machine = Machine(disk: Disk, engine: LifecycleState)

  const FIRST_START := Machine(EMPTY_DISK, Initializing)

  datatype Action =
    | Start(clean: bool, boot: Boot)
    | Reset(begins: bool, clean: bool, boot: Boot)
    | Session(data: Data, sidecars: Sidecars)
    | Exit

  function EngineAfter(boot: Boot): LifecycleState {
    match boot
    case Ready(key) => Serving(key)
    case Refused(failure) => Unavailable(failure)
    case Crashed => Initializing
  }

  predicate Step(m: Machine, a: Action, m': Machine) {
    match a
    case Start(clean, boot) =>
      m.engine.Initializing? && BootStep(m.disk, clean, m'.disk, boot) && m'.engine == EngineAfter(boot)
    case Reset(begins, clean, boot) =>
      ResetStep(m.disk, begins, clean, m'.disk, boot, m.engine, m'.engine)
    case Session(data, sidecars) =>
      && m.engine.Serving? && m.disk.database.Complete? && m'.engine == m.engine
      && m'.disk == m.disk.(database := m.disk.database.(data := data), sidecars := sidecars)
    case Exit => m' == Machine(m.disk, Initializing)
  }

  ghost predicate Run(states: seq<Machine>, actions: seq<Action>) {
    && |states| == |actions| + 1
    && forall i :: 0 <= i < |actions| ==> Step(states[i], actions[i], states[i + 1])
  }

  // ---- Convergence ----

  lemma {:induction false} AlwaysRecoverable(states: seq<Machine>, actions: seq<Action>, i: nat)
    requires Run(states, actions) && states[0] == FIRST_START && i < |states|
    ensures Recoverable(states[i].disk)
  {
    if i > 0 {
      AlwaysRecoverable(states, actions, i - 1);
      assert Step(states[i - 1], actions[i - 1], states[i]);
    }
  }

  /** From an empty disk, after any starts, sessions and resets, each cut at any call, the
      next start that meets no failure serves a complete database. */
  lemma CleanStartConverges(states: seq<Machine>, actions: seq<Action>, d': Disk, boot: Boot)
    requires Run(states, actions) && states[0] == FIRST_START
    requires BootStep(states[|actions|].disk, true, d', boot)
    ensures boot.Ready? && d'.Openable() && d'.database.key == boot.key && !d'.resetMarker
  {
    AlwaysRecoverable(states, actions, |actions|);
  }

  // ---- No silent loss ----

  /** Every reset of the run began while no create marker was on disk. */
  ghost predicate ResetsBeginClear(states: seq<Machine>, actions: seq<Action>)
    requires Run(states, actions)
  {
    forall i :: 0 <= i < |actions| && actions[i].Reset? ==> !states[i].disk.createMarker
  }

  lemma {:induction false} ServingIsSettled(states: seq<Machine>, actions: seq<Action>, i: nat)
    requires Run(states, actions) && states[0] == FIRST_START && ResetsBeginClear(states, actions) && i < |states|
    ensures !(states[i].disk.createMarker && states[i].disk.resetMarker)
    ensures var m := states[i];
            m.engine.Serving? ==> m.disk.Openable() && m.disk.database.key == m.engine.key && !m.disk.createMarker
  {
    if i > 0 {
      ServingIsSettled(states, actions, i - 1);
      AlwaysRecoverable(states, actions, i - 1);
      assert Step(states[i - 1], actions[i - 1], states[i]);
    }
  }

  /** No reset between the two points has written its marker. */
  ghost predicate NoResetBetween(states: seq<Machine>, actions: seq<Action>, first: nat, last: nat)
    requires Run(states, actions) && first <= last <= |actions|
  {
    forall k :: first <= k < last && actions[k].Reset? ==> states[k + 1].disk == states[k].disk
  }

  lemma {:induction false} StaysSettled(states: seq<Machine>, actions: seq<Action>, first: nat, last: nat)
    requires Run(states, actions) && states[0] == FIRST_START && ResetsBeginClear(states, actions)
    requires first <= last <= |actions| && states[first].engine.Serving? && !states[first].disk.resetMarker
    requires NoResetBetween(states, actions, first, last)
    ensures states[last].disk.NoMarkers() && states[last].disk.Openable()
    decreases last
  {
    if last == first {
      ServingIsSettled(states, actions, first);
    } else {
      StaysSettled(states, actions, first, last - 1);
      assert Step(states[last - 1], actions[last - 1], states[last]);
    }
  }

  /** What a served session committed is still there after every later start, exit or reset
      attempt, until a session writes again or a reset marker is written. */
  lemma CommittedDataSurvives(states: seq<Machine>, actions: seq<Action>, first: nat, k: nat)
    requires Run(states, actions) && states[0] == FIRST_START && ResetsBeginClear(states, actions)
    requires first <= k < |actions| && states[first].engine.Serving? && !states[first].disk.resetMarker
    requires NoResetBetween(states, actions, first, k + 1)
    requires !actions[k].Session?
    ensures states[k].disk.database.Complete? && states[k + 1].disk.database == states[k].disk.database
  {
    StaysSettled(states, actions, first, k);
    assert Step(states[k], actions[k], states[k + 1]);
  }

  /** A key once stored stays the key until a reset: no start replaces it, wherever it is cut. */
  lemma {:induction false} KeyStaysUntilReset(states: seq<Machine>, actions: seq<Action>, first: nat, last: nat)
    requires Run(states, actions) && states[0] == FIRST_START && first <= last <= |actions|
    requires states[first].disk.stored.Some? && !states[first].disk.resetMarker
    requires NoResetBetween(states, actions, first, last)
    ensures states[last].disk.stored == states[first].disk.stored && !states[last].disk.resetMarker
    decreases last
  {
    if first < last {
      KeyStaysUntilReset(states, actions, first, last - 1);
      AlwaysRecoverable(states, actions, last - 1);
      assert Step(states[last - 1], actions[last - 1], states[last]);
    }
  }

  // ---- What the user is told ----

  /** A start that meets no failure refuses exactly what it cannot open, and says why; it leaves
      that as it is. */
  lemma CleanStartRefusesIff(m: Machine, boot: Boot, m': Machine)
    requires m.disk.NoMarkers() && Step(m, Start(true, boot), m') && !m.disk.database.Unfinished?
    ensures boot ==
            if m.disk.database.NoFile? && m.disk.sidecars != {} then Refused(DatabaseUnreadable)
            else if m.disk.database.Complete? && m.disk.stored.None? then Refused(KeyLost)
            else if m.disk.database.Complete? && m.disk.stored.value != m.disk.database.key then Refused(DatabaseUnreadable)
            else Ready(m'.disk.stored.value)
    ensures boot.Refused? ==>
              && m'.disk.database == m.disk.database && m'.disk.stored == m.disk.stored
              && m'.engine == Unavailable(boot.failure)
    ensures boot.Ready? ==> m'.engine == Serving(boot.key) && m'.disk.Openable()
  {
  }

  /** A reset ends with an empty database under a new marker-free life, or with the engine
      unavailable for the reason given, or not begun with the engine as it was. */
  lemma ResetEnds(m: Machine, begins: bool, clean: bool, boot: Boot, m': Machine)
    requires Step(m, Reset(begins, clean, boot), m')
    ensures begins && clean ==> boot.Ready?
    ensures boot.Ready? ==>
              && m'.engine == Serving(boot.key) && !m'.disk.resetMarker
              && m'.disk.database == Complete(boot.key, []) && m'.disk.stored == Some(boot.key)
    ensures boot.Refused? ==> m'.engine == Unavailable(boot.failure) || (!begins && m'.engine == m.engine)
    ensures begins && !boot.Ready? ==> m'.disk.resetMarker || m'.disk.Openable()
  {
  }

  // ---- When data is lost ----

  /** A clean start keeps what a usable database holds if and only if no marker is on disk. */
  lemma StartKeepsDataIff(d: Disk, d': Disk, boot: Boot)
    requires d.Openable() && d.database.data != [] && BootStep(d, true, d', boot)
    ensures d'.database == d.database <==> d.NoMarkers()
  {
  }

  /** A reset does not clear a create marker it finds. So a reset over an interrupted creation
      succeeds, its engine serves, and the next clean start discards what was written. */
  lemma ResetOverCreateMarkerLosesData(m0: Machine, begins: bool, clean: bool, boot: Boot, m1: Machine, data: Data,
                                       sidecars: Sidecars,
                                       m2: Machine, boot': Boot, m3: Machine)
    requires m0.disk.createMarker && boot.Ready? && data != []
    requires Step(m0, Reset(begins, clean, boot), m1) && Step(m1, Session(data, sidecars), m2)
    requires Step(Machine(m2.disk, Initializing), Start(true, boot'), m3)
    ensures m2.disk.Openable() && m2.disk.database.data == data
    ensures m3.engine.Serving? && m3.disk.database == Complete(m3.engine.key, [])
  {
  }

  /** A reset whose marker was written but not confirmed reports a failure and leaves the old
      engine serving; what it still writes is discarded by the next clean start. */
  lemma UnconfirmedMarkerLosesData(m0: Machine, boot: Boot, m1: Machine, data: Data, sidecars: Sidecars,
                                   m2: Machine, boot': Boot, m3: Machine)
    requires m0.engine.Serving? && m0.disk.Openable() && !m0.disk.resetMarker && data != []
    requires NotBegun(m0.disk, false, m1.disk, boot, m0.engine, m1.engine) && m1.disk != m0.disk
    requires Step(m1, Session(data, sidecars), m2)
    requires Step(Machine(m2.disk, Initializing), Start(true, boot'), m3)
    ensures m1.engine.Serving? && !boot.Ready? && m2.disk.database.data == data
    ensures m3.engine.Serving? && m3.disk.database == Complete(m3.engine.key, [])
  {
  }

  // ---- Such runs exist ----

  /** A first start dies after it has set the create marker and stored a key; the next one cannot
      delete the artifacts; a reset succeeds; a session writes; the client exits and starts. */
  function LosingRun(data: Data): (seq<Machine>, seq<Action>) {
    var begun := Disk(NoFile, {}, true, false, Some(1));
    var replaced := Disk(Complete(2, []), {}, true, false, Some(2));
    var written := replaced.(database := Complete(2, data));
    ([FIRST_START, Machine(begun, Initializing), Machine(begun, Unavailable(LocalDataUnavailable)),
      Machine(replaced, Serving(2)), Machine(written, Serving(2)), Machine(written, Initializing),
      Machine(replaced.(createMarker := false), Serving(2))],
     [Start(false, Crashed), Start(false, Refused(LocalDataUnavailable)), Reset(true, true, Ready(2)),
      Session(data, {}), Exit, Start(true, Ready(2))])
  }

  /** From the first start of all, a reset over an interrupted creation loses whatever the session
      after it wrote. */
  lemma LossIsReachable(data: Data)
    ensures var (states, actions) := LosingRun(data);
            && Run(states, actions) && states[0] == FIRST_START
            && states[4].engine.Serving? && states[4].disk.Openable() && states[4].disk.database.data == data
            && states[6].engine.Serving? && states[6].disk.database == Complete(2, [])
  {
    var (states, actions) := LosingRun(data);
    forall i | 0 <= i < |actions|
      ensures Step(states[i], actions[i], states[i + 1])
    {
      if i == 0 {
        assert Step(states[0], actions[0], states[1]);
      } else if i == 1 {
        assert Step(states[1], actions[1], states[2]);
      } else if i == 2 {
        assert Step(states[2], actions[2], states[3]);
      } else if i == 3 {
        assert Step(states[3], actions[3], states[4]);
      }
    }
  }

  /** A served session, a reset whose marker is written but not confirmed, more writes by the
      engine that goes on serving, an exit and a start. */
  function UnconfirmedRun(data: Data): (seq<Machine>, seq<Action>) {
    var served := Disk(Complete(1, []), {}, false, false, Some(1));
    var marked := served.(resetMarker := true);
    var written := marked.(database := Complete(1, data));
    ([FIRST_START, Machine(served, Serving(1)), Machine(marked, Serving(1)), Machine(written, Serving(1)),
      Machine(written, Initializing), Machine(Disk(Complete(2, []), {}, false, false, Some(2)), Serving(2))],
     [Start(true, Ready(1)), Reset(false, false, Refused(LocalDataUnavailable)), Session(data, {}), Exit,
      Start(true, Ready(2))])
  }

  lemma UnconfirmedLossIsReachable(data: Data)
    ensures var (states, actions) := UnconfirmedRun(data);
            && Run(states, actions) && states[0] == FIRST_START && ResetsBeginClear(states, actions)
            && states[3].engine.Serving? && states[3].disk.Openable() && states[3].disk.database.data == data
            && states[5].engine.Serving? && states[5].disk.database == Complete(2, [])
  {
    var (states, actions) := UnconfirmedRun(data);
    forall i | 0 <= i < |actions|
      ensures Step(states[i], actions[i], states[i + 1])
    {
      if i == 0 {
        assert Step(states[0], actions[0], states[1]);
      } else if i == 1 {
        assert NotBegun(states[1].disk, false, states[2].disk, Refused(LocalDataUnavailable), Serving(1), Serving(1));
      } else if i == 2 {
        assert Step(states[2], actions[2], states[3]);
      }
    }
  }
}
