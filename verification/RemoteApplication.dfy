/** The application object of `src/app/remote/remote-application.ts`: its maps and the methods
    that update them, stretch by stretch, each proved to be the step of `SessionLifecycle`. */
module RemoteApplications {
  import opened Base
  import opened RemoteErrors
  import L = SessionLifecycle

  class RemoteApplication {
    var sessions: map<string, L.Entry>
    var generations: map<string, nat>
    var pendingConnects: map<string, nat>
    var statuses: map<string, L.Status>
    var disposed: bool
    var tasks: map<nat, L.Task>     // the operations under way, with their local variables
    var closes: seq<nat>            // per session ever opened, how often `close` was called
    ghost var owner: seq<L.Owner>
    ghost var pursuer: map<string, nat>

    constructor ()
      ensures Valid() && Snapshot() == L.INITIAL
    {
      sessions, generations, pendingConnects, statuses := map[], map[], map[], map[];
      disposed, tasks, closes, owner, pursuer := false, map[], [], [], map[];
    }

    ghost function Snapshot(): L.App
      reads this
    {
      L.App(sessions, generations, pendingConnects, statuses, disposed, tasks, closes, owner, pursuer)
    }

    ghost predicate Valid()
      reads this
    {
      L.LifecycleOk(Snapshot())
    }

    /** The stretch did what the event says, and answered so. */
    twostate predicate Did(e: L.Event, reply: L.Reply)
      requires old(Valid())
      reads this
    {
      (Snapshot(), reply) == L.Step(old(Snapshot()), e)
    }

    // ---- Helpers ----

    predicate HasConnectAuthority(account: string, generation: nat)
      reads this
    {
      && !disposed
      && account in generations && generations[account] == generation
      && account in pendingConnects && pendingConnects[account] == generation
    }

    predicate IsCurrent(entry: L.Entry)
      reads this
    {
      && !disposed
      && entry.accountKey in generations && generations[entry.accountKey] == entry.generation
      && entry.accountKey in sessions && sessions[entry.accountKey] == entry
    }

    method NextGeneration(account: string) returns (next: nat)
      modifies this`generations
      ensures next == L.GenerationOf(old(generations), account) + 1
      ensures generations == old(generations)[account := next]
    {
      next := (if account in generations then generations[account] else 0) + 1;
      generations := generations[account := next];
    }

    method PublishStatus(account: string, status: L.Status)
      modifies this`statuses
      ensures statuses == L.Published(old(statuses), account, status)
    {
      var current := if account in statuses then statuses[account] else L.DISCONNECTED;
      if current == status {
        return;
      }
      statuses := statuses[account := status];
    }

    method Close(session: nat)
      requires session < |closes| == |owner|
      modifies this`closes, this`owner
      ensures closes == old(closes)[session := old(closes)[session] + 1] && owner == old(owner)[session := L.Nobody]
    {
      closes := closes[session := closes[session] + 1];
      owner := owner[session := L.Nobody];
    }

    // ---- connect ----

    method Connect(t: nat, account: string) returns (reply: L.Reply)
      requires Valid() && t !in tasks
      modifies this
      ensures Valid() && Did(L.StartConnect(t, account), reply)
    {
      ghost var before := Snapshot();
      reply := Attempt(t, account);
      assert Snapshot() == L.Step(before, L.StartConnect(t, account)).0;
      L.StepKeepsOk(before, L.StartConnect(t, account));
    }

    method Attempt(t: nat, account: string) returns (reply: L.Reply)
      modifies this
      ensures (Snapshot(), reply) == L.Connect(old(Snapshot()), t, account)
    {
      if disposed {
        return L.Threw(L.Disposed);
      }
      if account in sessions || account in pendingConnects {
        return L.Threw(L.Busy);
      }
      var generation := NextGeneration(account);
      pendingConnects := pendingConnects[account := generation];
      PublishStatus(account, L.Status(L.Authenticating, false, None));
      tasks := tasks[t := L.Announced(account, generation)];
      pursuer := pursuer[account := t];
      reply := L.Suspended;
    }

    method Announced(t: nat) returns (reply: L.Reply)
      requires Valid() && t in tasks && tasks[t].Announced?
      modifies this
      ensures Valid() && Did(L.Announcement(t), reply)
    {
      L.StepKeepsOk(Snapshot(), L.Announcement(t));
      var account, generation := tasks[t].account, tasks[t].generation;
      if !HasConnectAuthority(account, generation) {
        reply := FailConnect(t, account, generation, L.Application(L.Cancelled), false);
        return;
      }
      tasks := tasks[t := L.Building(account, generation)];
      reply := L.Suspended;
    }

    method FactoryEnded(t: nat, failure: Option<L.Thrown>) returns (reply: L.Reply)
      requires Valid() && t in tasks && tasks[t].Building?
      modifies this
      ensures Valid() && Did(L.FactoryEnds(t, failure), reply)
    {
      L.StepKeepsOk(Snapshot(), L.FactoryEnds(t, failure));
      var account, generation := tasks[t].account, tasks[t].generation;
      if failure.Some? {
        reply := FailConnect(t, account, generation, failure.value, false);
        return;
      }
      if !HasConnectAuthority(account, generation) {
        reply := FailConnect(t, account, generation, L.Application(L.Cancelled), false);
        return;
      }
      tasks := tasks[t := L.Opening(account, generation)];
      reply := L.Suspended;
    }

    method OpenEnded(t: nat, failure: Option<L.Thrown>) returns (reply: L.Reply)
      requires Valid() && t in tasks && tasks[t].Opening?
      modifies this
      ensures Valid() && Did(L.OpenEnds(t, failure), reply)
    {
      ghost var before := Snapshot();
      reply := EndOpen(t, tasks[t].account, tasks[t].generation, failure);
      assert Snapshot() == L.Step(before, L.OpenEnds(t, failure)).0;
      L.StepKeepsOk(before, L.OpenEnds(t, failure));
    }

    method EndOpen(t: nat, account: string, generation: nat, failure: Option<L.Thrown>) returns (reply: L.Reply)
      requires |closes| == |owner|
      modifies this
      ensures (Snapshot(), reply) == L.AfterOpen(old(Snapshot()), t, account, generation, failure)
    {
      if failure.Some? {
        reply := FailConnect(t, account, generation, failure.value, false);
        return;
      }
      var session := |closes|;
      closes := closes + [0];
      owner := owner + [L.HeldBy(t)];
      if !HasConnectAuthority(account, generation) {
        Discard(t, account, generation, session, L.Application(L.Cancelled));
      } else {
        tasks := tasks[t := L.Resolving(account, generation, session)];
      }
      reply := L.Suspended;
    }

    method BindingWentOn(t: nat, binding: L.Binding) returns (reply: L.Reply)
      requires Valid() && t in tasks && tasks[t].Resolving?
      modifies this
      ensures Valid() && Did(L.BindingGoesOn(t, binding), reply)
    {
      ghost var before := Snapshot();
      reply := EndBinding(t, tasks[t].account, tasks[t].generation, tasks[t].session, binding);
      assert Snapshot() == L.Step(before, L.BindingGoesOn(t, binding)).0;
      L.StepKeepsOk(before, L.BindingGoesOn(t, binding));
    }

    method EndBinding(t: nat, account: string, generation: nat, session: nat, binding: L.Binding) returns (reply: L.Reply)
      requires session < |closes| == |owner|
      modifies this
      ensures (Snapshot(), reply) == L.AfterBinding(old(Snapshot()), t, account, generation, session, binding)
    {
      if !HasConnectAuthority(account, generation) {
        Discard(t, account, generation, session, L.Application(L.Cancelled));
        return L.Suspended;
      }
      match binding {
        case StillResolving =>
          reply := L.Suspended;
        case BindingFailed(kind) =>
          Discard(t, account, generation, session, L.Application(kind));
          reply := L.Suspended;
        case Selected(remoteAccountId) =>
          Register(t, L.Entry(account, remoteAccountId, session, generation));
          reply := L.Returned;
      }
    }

    /** The end of a successful connect. */
    method Register(t: nat, entry: L.Entry)
      requires entry.session < |owner|
      modifies this
      ensures Snapshot() == old(Snapshot()).(
                sessions := old(sessions)[entry.accountKey := entry],
                pendingConnects := old(pendingConnects) - {entry.accountKey},
                statuses := L.Published(old(statuses), entry.accountKey, L.CONNECTED),
                tasks := old(tasks) - {t},
                owner := old(owner)[entry.session := L.Registry(entry.accountKey)])
    {
      sessions := sessions[entry.accountKey := entry];
      pendingConnects := pendingConnects - {entry.accountKey};
      PublishStatus(entry.accountKey, L.CONNECTED);
      tasks := tasks - {t};
      owner := owner[entry.session := L.Registry(entry.accountKey)];
    }

    /** The `catch`, while a session is held: close it and wait. */
    method Discard(t: nat, account: string, generation: nat, session: nat, thrown: L.Thrown)
      requires session < |closes| == |owner|
      modifies this
      ensures Snapshot() == L.Discard(old(Snapshot()), t, account, generation, session, thrown)
    {
      Close(session);
      tasks := tasks[t := L.Discarding(account, generation, thrown)];
    }

    /** The rest of the `catch`, and the `finally` if nobody is told. */
    method FailConnect(t: nat, account: string, generation: nat, thrown: L.Thrown,
                       sessionOpened: bool) returns (reply: L.Reply)
      modifies this
      ensures (Snapshot(), reply) == L.FailConnect(old(Snapshot()), t, account, generation, thrown, sessionOpened)
    {
      if !HasConnectAuthority(account, generation) {
        Finally(t, account, generation);
        return L.Threw(L.Cancelled);
      }
      pendingConnects := pendingConnects - {account};
      var kind := L.ClassifyConnectError(thrown);
      PublishStatus(account, L.ConnectFailure(kind, sessionOpened));
      tasks := tasks[t := L.Finishing(account, generation, kind)];
      reply := L.Suspended;
    }

    method Finally(t: nat, account: string, generation: nat)
      modifies this
      ensures Snapshot() == L.Finally(old(Snapshot()), t, account, generation)
    {
      if account in pendingConnects && pendingConnects[account] == generation {
        pendingConnects := pendingConnects - {account};
      }
      tasks := tasks - {t};
    }

    method CloseEnded(t: nat) returns (reply: L.Reply)
      requires Valid() && t in tasks && tasks[t].Discarding?
      modifies this
      ensures Valid() && Did(L.CloseEnds(t), reply)
    {
      ghost var before := Snapshot();
      reply := FailConnect(t, tasks[t].account, tasks[t].generation, tasks[t].thrown, true);
      assert Snapshot() == L.Step(before, L.CloseEnds(t)).0;
      L.StepKeepsOk(before, L.CloseEnds(t));
    }

    method FailureAnnounced(t: nat) returns (reply: L.Reply)
      requires Valid() && t in tasks && tasks[t].Finishing?
      modifies this
      ensures Valid() && Did(L.FailureAnnounced(t), reply)
    {
      ghost var before := Snapshot();
      reply := L.Threw(tasks[t].kind);
      Finally(t, tasks[t].account, tasks[t].generation);
      assert Snapshot() == L.Step(before, L.FailureAnnounced(t)).0;
      L.StepKeepsOk(before, L.FailureAnnounced(t));
    }

    // ---- disconnect ----

    method Disconnect(t: nat, account: string) returns (reply: L.Reply)
      requires Valid() && t !in tasks
      modifies this
      ensures Valid() && Did(L.StartDisconnect(t, account), reply)
    {
      ghost var before := Snapshot();
      reply := Leave(t, account);
      assert Snapshot() == L.Step(before, L.StartDisconnect(t, account)).0;
      L.StepKeepsOk(before, L.StartDisconnect(t, account));
    }

    method Leave(t: nat, account: string) returns (reply: L.Reply)
      requires forall k <- sessions :: sessions[k].session < |owner|
      modifies this
      ensures (Snapshot(), reply) == L.Disconnect(old(Snapshot()), t, account)
    {
      if disposed {
        return L.Threw(L.Disposed);
      }
      var active := if account in sessions then Some(sessions[account]) else None;
      sessions := sessions - {account};
      var hadPending := account in pendingConnects;
      pendingConnects := pendingConnects - {account};
      if active.Some? || hadPending {
        var _ := NextGeneration(account);
      }
      PublishStatus(account, L.DISCONNECTED);
      if active.None? {
        return L.Returned;
      }
      tasks := tasks[t := L.Releasing(active.value.session, None)];
      owner := owner[active.value.session := L.HeldBy(t)];
      reply := L.Suspended;
    }

    method Release(t: nat, closeFailed: bool) returns (reply: L.Reply)
      requires Valid() && t in tasks && tasks[t].Releasing?
      modifies this
      ensures Valid() && Did(L.ReleaseSession(t, closeFailed), reply)
    {
      ghost var before := Snapshot();
      reply := EndRelease(t, tasks[t].session, tasks[t].failure, closeFailed);
      assert Snapshot() == L.Step(before, L.ReleaseSession(t, closeFailed)).0;
      L.StepKeepsOk(before, L.ReleaseSession(t, closeFailed));
    }

    method EndRelease(t: nat, session: nat, failure: Option<L.ErrorKind>, closeFailed: bool) returns (reply: L.Reply)
      requires session < |closes| == |owner|
      modifies this
      ensures (Snapshot(), reply) == L.Release(old(Snapshot()), t, session, failure, closeFailed)
    {
      Close(session);
      tasks := tasks - {t};
      reply := if failure.Some? then L.Threw(failure.value) else if closeFailed then L.Threw(L.RemoteFailure) else L.Returned;
    }

    // ---- refreshAccount ----

    method RefreshAccount(t: nat, account: string) returns (reply: L.Reply)
      requires Valid() && t !in tasks
      modifies this
      ensures Valid() && Did(L.StartRefresh(t, account), reply)
    {
      L.StepKeepsOk(Snapshot(), L.StartRefresh(t, account));
      if disposed {
        return L.Threw(L.Disposed);
      }
      if account !in sessions {
        return L.Threw(L.NotConnected);
      }
      tasks := tasks[t := L.Refreshing(sessions[account])];
      reply := L.Suspended;
    }

    method SyncEnded(t: nat, failure: Option<L.Thrown>) returns (reply: L.Reply)
      requires Valid() && t in tasks && tasks[t].Refreshing?
      modifies this
      ensures Valid() && Did(L.SyncEnds(t, failure), reply)
    {
      ghost var before := Snapshot();
      reply := EndSync(t, tasks[t].entry, failure);
      assert Snapshot() == L.Step(before, L.SyncEnds(t, failure)).0;
      L.StepKeepsOk(before, L.SyncEnds(t, failure));
    }

    method EndSync(t: nat, entry: L.Entry, failure: Option<L.Thrown>) returns (reply: L.Reply)
      requires forall k <- sessions :: sessions[k].session < |owner|
      modifies this
      ensures (Snapshot(), reply) == L.AfterSync(old(Snapshot()), t, entry, failure)
    {
      var account := entry.accountKey;
      if !IsCurrent(entry) {
        tasks := tasks - {t};
        return L.Threw(L.Cancelled);
      }
      if failure.None? {
        PublishStatus(account, L.CONNECTED);
        tasks := tasks - {t};
        return L.Returned;
      }
      if !failure.value.FromRemote? {
        PublishStatus(account, L.Status(L.Authenticated, true, Some(L.LocalFailure)));
        tasks := tasks - {t};
        return L.Threw(L.LocalFailure);
      }
      var kind := L.RemoteErrorKind(failure.value.error);
      if failure.value.error.session.Expire? {
        Expire(t, entry, kind);
        return L.Suspended;
      }
      PublishStatus(account, L.Retained(kind));
      tasks := tasks - {t};
      reply := L.Threw(kind);
    }

    method Expire(t: nat, entry: L.Entry, kind: L.ErrorKind)
      requires entry.session < |owner|
      modifies this
      ensures Snapshot() == L.WithNextGeneration(old(Snapshot()), entry.accountKey).(
                sessions := old(sessions) - {entry.accountKey},
                statuses := L.Published(old(statuses), entry.accountKey, L.ExpiredStatus(kind)),
                tasks := old(tasks)[t := L.Releasing(entry.session, Some(kind))],
                owner := old(owner)[entry.session := L.HeldBy(t)])
    {
      sessions := sessions - {entry.accountKey};
      var _ := NextGeneration(entry.accountKey);
      PublishStatus(entry.accountKey, L.ExpiredStatus(kind));
      tasks := tasks[t := L.Releasing(entry.session, Some(kind))];
      owner := owner[entry.session := L.HeldBy(t)];
    }

    // ---- dispose ----

    method Dispose() returns (reply: L.Reply)
      requires Valid()
      modifies this
      ensures Valid() && Did(L.DisposeAll, reply)
    {
      ghost var before := Snapshot();
      DisposeSessions();
      assert Snapshot() == L.Step(before, L.DisposeAll).0;
      L.StepKeepsOk(before, L.DisposeAll);
      reply := L.Returned;
    }

    method DisposeSessions()
      requires |closes| == |owner|
      requires forall k <- sessions :: sessions[k].session < |owner| && owner[sessions[k].session] == L.Registry(k)
      modifies this
      ensures Snapshot() == L.Dispose(old(Snapshot()))
    {
      if disposed {
        return;
      }
      var active := Drain();
      CloseAll(active);
    }

    /** Everything but the closing of the sessions. */
    method Drain() returns (active: map<string, L.Entry>)
      modifies this`disposed, this`sessions, this`pendingConnects, this`generations, this`statuses
      ensures disposed && active == old(sessions) && sessions == map[] && pendingConnects == map[]
      ensures var affected := old(pendingConnects.Keys + generations.Keys + sessions.Keys);
              generations == L.AllRaised(old(generations), affected) && statuses == L.AllDisconnected(old(statuses), affected)
    {
      disposed := true;
      var affected := pendingConnects.Keys + generations.Keys + sessions.Keys;
      active := sessions;
      sessions := map[];
      generations, statuses := Invalidate(generations, statuses, affected);
      pendingConnects := map[];
    }

    /** Closes every drained entry; no two of them are of one session. */
    method CloseAll(active: map<string, L.Entry>)
      requires |closes| == |owner|
      requires forall k <- active :: active[k].session < |owner| && owner[active[k].session] == L.Registry(k)
      modifies this`closes, this`owner
      ensures closes == L.AllClosed(old(closes), L.SessionsOf(active))
      ensures owner == L.AllReleased(old(owner), L.SessionsOf(active))
    {
      ghost var closes0, owner0 := closes, owner;
      NoneClosed(active, closes, owner);
      var rest := active.Keys;
      ghost var done: set<nat> := {};
      while rest != {}
        invariant rest <= active.Keys && DrainedIs(active, rest, done)
        invariant closes == L.AllClosed(closes0, done) && owner == L.AllReleased(owner0, done)
        decreases rest
      {
        var account :| account in rest;
        OneMoreClosed(active, rest, done, account, closes0, owner0);
        Close(active[account].session);
        done := done + {active[account].session};
        rest := rest - {account};
      }
      AllDrained(active, done);
    }
  }

  /** The sessions of the entries that are no longer among the rest. */
  ghost predicate DrainedIs(active: map<string, L.Entry>, rest: set<string>, done: set<nat>) {
    && (forall k :: k in active && k !in rest ==> active[k].session in done)
    && (forall session <- done :: exists k :: k in active && k !in rest && active[k].session == session)
  }

  lemma NoneClosed(active: map<string, L.Entry>, closes: seq<nat>, owner: seq<L.Owner>)
    ensures DrainedIs(active, active.Keys, {})
    ensures L.AllClosed(closes, {}) == closes && L.AllReleased(owner, {}) == owner
  {
  }

  /** No two entries are of one session, so the next one's is still open. */
  lemma OneMoreClosed(active: map<string, L.Entry>, rest: set<string>, done: set<nat>, account: string, closes: seq<nat>,
                      owner: seq<L.Owner>)
    requires |closes| == |owner| && account in rest && rest <= active.Keys && DrainedIs(active, rest, done)
    requires forall k <- active :: active[k].session < |owner| && owner[active[k].session] == L.Registry(k)
    ensures DrainedIs(active, rest - {account}, done + {active[account].session})
    ensures var (session, closes', owner') := (active[account].session, L.AllClosed(closes, done), L.AllReleased(owner, done));
            L.AllClosed(closes, done + {session}) == closes'[session := closes'[session] + 1] &&
            L.AllReleased(owner, done + {session}) == owner'[session := L.Nobody]
  {
    assert active[account].session !in done;
    forall session <- done
      ensures exists k :: k in active && k !in rest - {account} && active[k].session == session
    {
      var k :| k in active && k !in rest && active[k].session == session;
      assert k !in rest - {account};
    }
  }

  lemma AllDrained(active: map<string, L.Entry>, done: set<nat>)
    requires DrainedIs(active, {}, done)
    ensures done == L.SessionsOf(active)
  {
  }

  lemma OneMoreInvalidated(generations: map<string, nat>, statuses: map<string, L.Status>, done: set<string>,
                           account: string)
    requires account !in done
    ensures var raised := L.AllRaised(generations, done);
            L.AllRaised(generations, done + {account}) == raised[account := L.GenerationOf(raised, account) + 1]
    ensures L.AllDisconnected(statuses, done + {account}) == L.AllDisconnected(statuses, done)[account := L.DISCONNECTED]
  {
  }

  lemma NoneInvalidated(generations: map<string, nat>, statuses: map<string, L.Status>)
    ensures L.AllRaised(generations, {}) == generations && L.AllDisconnected(statuses, {}) == statuses
  {
  }

  /** Every affected account moves to its next generation and is shown as disconnected. */
  method Invalidate(generations0: map<string, nat>, statuses0: map<string, L.Status>, affected: set<string>)
    returns (generations: map<string, nat>, statuses: map<string, L.Status>)
    ensures generations == L.AllRaised(generations0, affected)
    ensures statuses == L.AllDisconnected(statuses0, affected)
  {
    NoneInvalidated(generations0, statuses0);
    generations, statuses := generations0, statuses0;
    var done: set<string> := {};
    while affected - done != {}
      invariant done <= affected
      invariant generations == L.AllRaised(generations0, done)
      invariant statuses == L.AllDisconnected(statuses0, done)
      decreases affected - done
    {
      var account :| account in affected - done;
      OneMoreInvalidated(generations0, statuses0, done, account);
      done := done + {account};
      generations := generations[account := L.GenerationOf(generations, account) + 1];
      statuses := statuses[account := L.DISCONNECTED];
    }
    assert done == affected;
  }
}
