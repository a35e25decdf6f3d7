/** What each operation of `src/app/remote/remote-application.ts` comes to: what its caller is
    told, what is shown for the account, and what becomes of the session. */
module SessionOutcomes {
  import opened Base
  import opened RemoteErrors
  import opened SessionLifecycle

  /** Nothing is shown differently of the other accounts, and none of them gains or loses
      anything. */
  ghost predicate OthersKept(s: App, s': App, account: string) {
    forall other :: other != account ==>
      && StatusOf(s'.statuses, other) == StatusOf(s.statuses, other)
      && (other in s'.sessions <==> other in s.sessions) && (other in s.sessions ==> s'.sessions[other] == s.sessions[other])
      && (other in s'.pendingConnects <==> other in s.pendingConnects)
      && GenerationOf(s'.generations, other) == GenerationOf(s.generations, other)
  }

  /** The account as it is shown, and whether it has a session or is being connected. */
  ghost predicate ShownAs(s: App, account: string, auth: Auth, online: bool, lastError: Option<ErrorKind>) {
    StatusOf(s.statuses, account) == Status(auth, online, lastError)
  }

  /** How a remote error is named to the application. */
  ghost predicate NamedAs(error: RemoteError, kind: ErrorKind) {
    && (kind == AuthFailure <==> error.kind == Auth)
    && (kind == NetworkFailure <==> error.kind == Network || error.kind == Unavailable)
    && kind in {AuthFailure, NetworkFailure, RemoteFailure}
  }

  /** How anything thrown while connecting is named. */
  ghost predicate ConnectErrorNamed(thrown: Thrown, kind: ErrorKind) {
    match thrown
    case Application(k) => kind == k
    case FromRemote(error) => NamedAs(error, kind)
    case Foreign => kind == UnexpectedFailure
  }

  // ---- Connecting ----

  lemma PublishedIs(statuses: map<string, Status>, account: string, status: Status)
    ensures forall other :: StatusOf(Published(statuses, account, status), other) ==
                            if other == account then status else StatusOf(statuses, other)
  {
  }

  /** A connect is refused after disposal and while the account has a session or is being
      connected, and changes nothing then. */
  lemma ConnectIsRefusedIff(s: App, t: nat, account: string)
    requires LifecycleOk(s) && t !in s.tasks
    ensures var (s', reply) := Step(s, StartConnect(t, account));
      && (reply == Threw(Disposed) <==> s.disposed)
      && (reply == Threw(Busy) <==> !s.disposed && (account in s.sessions || account in s.pendingConnects))
      && (if reply.Threw? then s' == s else reply == Suspended)
  {
  }

  /** Otherwise it begins, under a generation of its own. */
  lemma ConnectBegins(s: App, t: nat, account: string)
    requires LifecycleOk(s) && t !in s.tasks
    requires !s.disposed && account !in s.sessions && account !in s.pendingConnects
    ensures var (s', generation) := (Step(s, StartConnect(t, account)).0, GenerationOf(s.generations, account) + 1);
      && s'.tasks == s.tasks[t := Announced(account, generation)]
      && GenerationOf(s'.generations, account) == generation && HasConnectAuthority(s', account, generation)
      && s'.sessions == s.sessions && s'.closes == s.closes
  {
  }

  lemma ConnectIsShown(s: App, t: nat, account: string)
    requires LifecycleOk(s) && t !in s.tasks
    requires !s.disposed && account !in s.sessions && account !in s.pendingConnects
    ensures var s' := Step(s, StartConnect(t, account)).0;
            ShownAs(s', account, Authenticating, false, None) && OthersKept(s, s', account)
  {
    ConnectShows(s, t, account);
  }

  lemma ConnectShows(s: App, t: nat, account: string)
    requires !s.disposed && account !in s.sessions && account !in s.pendingConnects
    ensures var s' := Connect(s, t, account).0;
            ShownAs(s', account, Authenticating, false, None) && OthersKept(s, s', account)
  {
    PublishedIs(s.statuses, account, Status(Authenticating, false, None));
  }

  /** It goes from one await to the next while it has its authority. */
  lemma ConnectGoesOn(s: App, t: nat, remote: string)
    requires LifecycleOk(s) && t in s.tasks && (Connecting(s.tasks[t]) && !s.tasks[t].Discarding?)
    requires HasConnectAuthority(s, s.tasks[t].account, s.tasks[t].generation)
    ensures var (account, generation) := (s.tasks[t].account, s.tasks[t].generation);
      match s.tasks[t]
      case Announced(_, _) => Step(s, Announcement(t)) == (s.(tasks := s.tasks[t := Building(account, generation)]), Suspended)
      case Building(_, _) => Step(s, FactoryEnds(t, None)) == (s.(tasks := s.tasks[t := Opening(account, generation)]), Suspended)
      case Opening(_, _) =>
        Step(s, OpenEnds(t, None)) ==
        (s.(closes := s.closes + [0], owner := s.owner + [HeldBy(t)],
            tasks := s.tasks[t := Resolving(account, generation, |s.closes|)]), Suspended)
      case Resolving(_, _, session) =>
        var (s', reply) := Step(s, BindingGoesOn(t, Selected(remote)));
        && reply == Returned && t !in s'.tasks && s'.closes == s.closes
        && s'.sessions == s.sessions[account := Entry(account, remote, session, generation)]
        && account !in s'.pendingConnects && GenerationOf(s'.generations, account) == generation
        && ShownAs(s', account, Authenticated, true, None) && OthersKept(s, s', account)
  {
  }

  /** What a connect that fails leaves: nothing pending, and its failure shown until it is told. */
  ghost predicate FailedAs(s: App, s': App, t: nat, account: string, online: bool, kind: ErrorKind) {
    && t in s'.tasks && s'.tasks[t].Finishing? && s'.tasks[t].kind == kind
    && ShownAs(s', account, Anonymous, online, Some(kind)) && OthersKept(s, s', account)
    && account !in s'.pendingConnects && s'.sessions == s.sessions && s'.generations == s.generations
    && s'.closes == s.closes
  }

  /** A connect that fails before it has a session is shown as online only if the failure says so:
      the server refused the credentials, or the account does not match. */
  lemma FailureBeforeSession(s: App, t: nat, thrown: Thrown, kind: ErrorKind)
    requires LifecycleOk(s) && t in s.tasks && (s.tasks[t].Building? || s.tasks[t].Opening?)
    requires HasConnectAuthority(s, s.tasks[t].account, s.tasks[t].generation) && ConnectErrorNamed(thrown, kind)
    ensures var (s', reply) := Step(s, if s.tasks[t].Building? then FactoryEnds(t, Some(thrown)) else OpenEnds(t, Some(thrown)));
      && reply == Suspended
      && FailedAs(s, s', t, s.tasks[t].account,
                  kind in {AuthFailure, AccountMismatch, AccountSelectionRequired, LocalFailure}, kind)
  {
    FailureIs(s, t, thrown, kind, false);
    FailureShows(s, t, s.tasks[t].account, s.tasks[t].generation,
                 kind in {AuthFailure, AccountMismatch, AccountSelectionRequired, LocalFailure}, kind);
  }

  lemma FailureShows(s: App, t: nat, account: string, generation: nat, online: bool, kind: ErrorKind)
    ensures var s' := s.(pendingConnects := s.pendingConnects - {account},
                         statuses := Published(s.statuses, account, Status(Anonymous, online, Some(kind))),
                         tasks := s.tasks[t := Finishing(account, generation, kind)]);
            FailedAs(s, s', t, account, online, kind)
  {
    PublishedIs(s.statuses, account, Status(Anonymous, online, Some(kind)));
  }

  lemma FailureIs(s: App, t: nat, thrown: Thrown, kind: ErrorKind, hadSession: bool)
    requires LifecycleOk(s) && t in s.tasks && (s.tasks[t].Building? || s.tasks[t].Opening? || s.tasks[t].Discarding?)
    requires HasConnectAuthority(s, s.tasks[t].account, s.tasks[t].generation) && ConnectErrorNamed(thrown, kind)
    ensures var (account, generation) := (s.tasks[t].account, s.tasks[t].generation);
      var online := hadSession || kind in {AuthFailure, AccountMismatch, AccountSelectionRequired, LocalFailure};
      FailConnect(s, t, account, generation, thrown, hadSession) ==
      (s.(pendingConnects := s.pendingConnects - {account},
          statuses := Published(s.statuses, account, Status(Anonymous, online, Some(kind))),
          tasks := s.tasks[t := Finishing(account, generation, kind)]), Suspended)
  {
  }

  /** One that fails to find its account closes its session first, once. */
  lemma FailureAfterSession(s: App, t: nat, kind: ErrorKind)
    requires LifecycleOk(s) && t in s.tasks && s.tasks[t].Resolving?
    requires HasConnectAuthority(s, s.tasks[t].account, s.tasks[t].generation)
    ensures var task := s.tasks[t];
      var (s', reply) := Step(s, BindingGoesOn(t, BindingFailed(kind)));
      && reply == Suspended && s'.tasks == s.tasks[t := Discarding(task.account, task.generation, Application(kind))]
      && s'.closes == s.closes[task.session := 1] && s'.statuses == s.statuses && s'.sessions == s.sessions
      && s'.generations == s.generations && s'.pendingConnects == s.pendingConnects
  {
  }

  /** It is shown as online then, for the server was reached. */
  lemma FailureAfterClose(s: App, t: nat, kind: ErrorKind)
    requires LifecycleOk(s) && t in s.tasks && s.tasks[t].Discarding? && ConnectErrorNamed(s.tasks[t].thrown, kind)
    requires HasConnectAuthority(s, s.tasks[t].account, s.tasks[t].generation)
    ensures FailedAs(s, Step(s, CloseEnds(t)).0, t, s.tasks[t].account, true, kind)
  {
    FailureIs(s, t, s.tasks[t].thrown, kind, true);
    FailureShows(s, t, s.tasks[t].account, s.tasks[t].generation, true, kind);
  }

  /** The failure is what the caller is told in the end. */
  lemma FailureIsTold(s: App, t: nat)
    requires LifecycleOk(s) && t in s.tasks && s.tasks[t].Finishing?
    ensures Step(s, FailureAnnounced(t)) == (s.(tasks := s.tasks - {t}), Threw(s.tasks[t].kind))
  {
    FinallyKeepsOk(s, t);
  }

  /** A connect that was overtaken and has no session tells its caller so at its next turn and
      shows nothing. */
  lemma OvertakenConnectIsCancelled(s: App, t: nat, failure: Option<Thrown>)
    requires LifecycleOk(s) && t in s.tasks && Connecting(s.tasks[t]) && !s.tasks[t].Resolving?
    requires !HasConnectAuthority(s, s.tasks[t].account, s.tasks[t].generation)
    ensures var cancelled := (s.(tasks := s.tasks - {t}), Threw(Cancelled));
      match s.tasks[t]
      case Announced(_, _) => Step(s, Announcement(t)) == cancelled
      case Building(_, _) => Step(s, FactoryEnds(t, failure)) == cancelled
      case Discarding(_, _, _) => Step(s, CloseEnds(t)) == cancelled
      case Opening(_, _) => failure.Some? ==> Step(s, OpenEnds(t, failure)) == cancelled
  {
    FinallyKeepsOk(s, t);
  }

  /** One that has or gets a session closes it first, once. */
  lemma OvertakenConnectCloses(s: App, t: nat, binding: Binding)
    requires LifecycleOk(s) && t in s.tasks && (s.tasks[t].Opening? || s.tasks[t].Resolving?)
    requires !HasConnectAuthority(s, s.tasks[t].account, s.tasks[t].generation)
    ensures var s' := Step(s, if s.tasks[t].Opening? then OpenEnds(t, None) else BindingGoesOn(t, binding)).0;
      && s'.closes == (if s.tasks[t].Opening? then s.closes + [1] else s.closes[s.tasks[t].session := 1])
      && t in s'.tasks && s'.tasks[t].Discarding? && s'.statuses == s.statuses && s'.sessions == s.sessions
  {
  }

  // ---- Disconnecting ----

  /** Whatever the account had is gone. Its session, if it had one, is left to be closed. */
  lemma DisconnectEnds(s: App, t: nat, account: string)
    requires LifecycleOk(s) && t !in s.tasks && !s.disposed
    ensures var (s', reply) := Step(s, StartDisconnect(t, account));
      && account !in s'.sessions && account !in s'.pendingConnects && s'.closes == s.closes
      && (if account in s.sessions
          then reply == Suspended && s'.tasks == s.tasks[t := Releasing(s.sessions[account].session, None)]
          else reply == Returned && s'.tasks == s.tasks)
  {
    DisconnectIs(s, t, account);
  }

  lemma DisconnectIsShown(s: App, t: nat, account: string)
    requires LifecycleOk(s) && t !in s.tasks && !s.disposed
    ensures var s' := Step(s, StartDisconnect(t, account)).0;
            ShownAs(s', account, Anonymous, false, None) && OthersKept(s, s', account)
  {
    DisconnectShows(s, t, account);
  }

  lemma DisconnectShows(s: App, t: nat, account: string)
    requires !s.disposed && forall k <- s.sessions :: s.sessions[k].session < |s.owner|
    ensures var s' := Disconnect(s, t, account).0;
            ShownAs(s', account, Anonymous, false, None) && OthersKept(s, s', account)
  {
    PublishedIs(s.statuses, account, DISCONNECTED);
  }

  /** And every connect of it is overtaken. */
  lemma DisconnectOvertakes(s: App, t: nat, account: string, t': nat)
    requires LifecycleOk(s) && t !in s.tasks && !s.disposed
    ensures var s' := Step(s, StartDisconnect(t, account)).0;
      && GenerationOf(s'.generations, account) == GenerationOf(s.generations, account) +
         (if account in s.sessions || account in s.pendingConnects then 1 else 0)
      && (t' in s.tasks && Connecting(s.tasks[t']) && s.tasks[t'].account == account ==>
            !HasConnectAuthority(s', account, s.tasks[t'].generation))
  {
  }

  lemma DisconnectIsRefusedIff(s: App, t: nat, account: string)
    requires LifecycleOk(s) && t !in s.tasks
    ensures Step(s, StartDisconnect(t, account)).1.Threw? <==> s.disposed
    ensures s.disposed ==> Step(s, StartDisconnect(t, account)) == (s, Threw(Disposed))
  {
  }

  /** The session is closed, once; a close that fails is told unless something else went wrong. */
  lemma ReleaseEnds(s: App, t: nat, closeFailed: bool)
    requires LifecycleOk(s) && t in s.tasks && s.tasks[t].Releasing?
    ensures var (s', reply) := Step(s, ReleaseSession(t, closeFailed));
      && s'.closes == s.closes[s.tasks[t].session := 1] && s'.tasks == s.tasks - {t}
      && s'.sessions == s.sessions && s'.statuses == s.statuses && s'.generations == s.generations
      && s'.pendingConnects == s.pendingConnects
      && reply == match s.tasks[t].failure
                  case Some(kind) => Threw(kind)
                  case None => if closeFailed then Threw(RemoteFailure) else Returned
  {
  }

  // ---- Refreshing ----

  lemma RefreshIsRefusedIff(s: App, t: nat, account: string)
    requires LifecycleOk(s) && t !in s.tasks
    ensures var (s', reply) := Step(s, StartRefresh(t, account));
      && (reply == Threw(Disposed) <==> s.disposed)
      && (reply == Threw(NotConnected) <==> !s.disposed && account !in s.sessions)
      && (if reply.Threw? then s' == s
          else reply == Suspended && s' == s.(tasks := s.tasks[t := Refreshing(s.sessions[account])]))
  {
  }

  /** A refresh that was overtaken shows nothing, whatever it came to. */
  lemma OvertakenRefreshIsCancelled(s: App, t: nat, failure: Option<Thrown>)
    requires LifecycleOk(s) && t in s.tasks && s.tasks[t].Refreshing? && !IsCurrent(s, s.tasks[t].entry)
    ensures Step(s, SyncEnds(t, failure)) == (s.(tasks := s.tasks - {t}), Threw(Cancelled))
  {
  }

  /** It was overtaken exactly if its session is not the one registered. */
  lemma CurrentIff(s: App, t: nat)
    requires LifecycleOk(s) && t in s.tasks && s.tasks[t].Refreshing?
    ensures IsCurrent(s, s.tasks[t].entry) <==>
            s.tasks[t].entry.accountKey in s.sessions && s.sessions[s.tasks[t].entry.accountKey] == s.tasks[t].entry
  {
  }

  /** The session stays and the account is shown as connected, with what went wrong, and offline
      only if the network did. */
  ghost predicate KeptAs(s: App, s': App, t: nat, account: string, online: bool, lastError: Option<ErrorKind>) {
    && s' == s.(tasks := s.tasks - {t}, statuses := s'.statuses)
    && ShownAs(s', account, Authenticated, online, lastError) && OthersKept(s, s', account)
  }

  lemma RefreshIsShown(s: App, t: nat, failure: Option<Thrown>, kind: ErrorKind)
    requires LifecycleOk(s) && t in s.tasks && s.tasks[t].Refreshing? && IsCurrent(s, s.tasks[t].entry)
    requires match failure
             case None => true
             case Some(FromRemote(error)) => error.session.Keep? && NamedAs(error, kind)
             case Some(_) => kind == LocalFailure
    ensures var (s', reply) := Step(s, SyncEnds(t, failure));
      var account := s.tasks[t].entry.accountKey;
      if failure.None? then reply == Returned && KeptAs(s, s', t, account, true, None)
      else reply == Threw(kind) && KeptAs(s, s', t, account, kind != NetworkFailure, Some(kind))
  {
    RefreshShows(s, t, s.tasks[t].entry, failure, kind);
  }

  lemma RefreshShows(s: App, t: nat, entry: Entry, failure: Option<Thrown>, kind: ErrorKind)
    requires IsCurrent(s, entry) && forall k <- s.sessions :: s.sessions[k].session < |s.owner|
    requires match failure
             case None => true
             case Some(FromRemote(error)) => error.session.Keep? && NamedAs(error, kind)
             case Some(_) => kind == LocalFailure
    ensures var (s', reply) := AfterSync(s, t, entry, failure);
      if failure.None? then reply == Returned && KeptAs(s, s', t, entry.accountKey, true, None)
      else reply == Threw(kind) && KeptAs(s, s', t, entry.accountKey, kind != NetworkFailure, Some(kind))
  {
    var status := if failure.None? then CONNECTED else Status(Authenticated, kind != NetworkFailure, Some(kind));
    PublishedIs(s.statuses, entry.accountKey, status);
  }

  /** An error that expires the session takes it out of the registry, to be closed, and is what
      the caller is told after that. */
  lemma RefreshExpires(s: App, t: nat, error: RemoteError, kind: ErrorKind)
    requires LifecycleOk(s) && t in s.tasks && s.tasks[t].Refreshing? && IsCurrent(s, s.tasks[t].entry)
    requires error.session.Expire? && NamedAs(error, kind)
    ensures var (s', reply) := Step(s, SyncEnds(t, Some(FromRemote(error))));
      var entry := s.tasks[t].entry;
      && reply == Suspended && s'.tasks == s.tasks[t := Releasing(entry.session, Some(kind))]
      && entry.accountKey !in s'.sessions && s'.closes == s.closes
      && GenerationOf(s'.generations, entry.accountKey) == GenerationOf(s.generations, entry.accountKey) + 1
  {
  }

  lemma ExpiryIsShown(s: App, t: nat, error: RemoteError, kind: ErrorKind)
    requires LifecycleOk(s) && t in s.tasks && s.tasks[t].Refreshing? && IsCurrent(s, s.tasks[t].entry)
    requires error.session.Expire? && NamedAs(error, kind)
    ensures var s' := Step(s, SyncEnds(t, Some(FromRemote(error)))).0;
      var account := s.tasks[t].entry.accountKey;
      ShownAs(s', account, Expired, kind != NetworkFailure, Some(kind)) && OthersKept(s, s', account)
  {
    ExpiryShows(s, t, s.tasks[t].entry, error, kind);
  }

  lemma ExpiryShows(s: App, t: nat, entry: Entry, error: RemoteError, kind: ErrorKind)
    requires IsCurrent(s, entry) && error.session.Expire? && NamedAs(error, kind)
    requires forall k <- s.sessions :: s.sessions[k].session < |s.owner|
    ensures var s' := AfterSync(s, t, entry, Some(FromRemote(error))).0;
      && ShownAs(s', entry.accountKey, Expired, kind != NetworkFailure, Some(kind))
      && OthersKept(s, s', entry.accountKey)
  {
    PublishedIs(s.statuses, entry.accountKey, Status(Expired, kind != NetworkFailure, Some(kind)));
  }

  // ---- Disposal ----

  /** Disposal closes every registered session once, shows every account it knows as
      disconnected, and overtakes every connect. */
  lemma DisposalEnds(s: App, account: string, t: nat)
    requires LifecycleOk(s) && !s.disposed
    ensures var s' := Step(s, DisposeAll).0;
      && s'.disposed && s'.sessions == map[] && s'.pendingConnects == map[]
      && (account in s.sessions ==> s'.closes[s.sessions[account].session] == 1)
      && (t in s.tasks && Holds(s.tasks[t]).Some? ==> s'.closes[Holds(s.tasks[t]).value] == 0)
      && (account in s.sessions || account in s.pendingConnects || account in s.generations ==>
            ShownAs(s', account, Anonymous, false, None)
            && GenerationOf(s'.generations, account) == GenerationOf(s.generations, account) + 1)
      && s'.tasks == s.tasks
  {
    if t in s.tasks && Holds(s.tasks[t]).Some? {
      assert s.owner[Holds(s.tasks[t]).value] == HeldBy(t);
    }
    if account in s.sessions {
      assert s.owner[s.sessions[account].session] == Registry(account);
    }
  }
}
