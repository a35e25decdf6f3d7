/** The lifecycle of remote sessions, as `src/app/remote/remote-application.ts` drives it.

    The operations of the source are asynchronous, and a status listener may call back into
    them. Each step below is one stretch that runs undisturbed: from the start of an operation,
    from an await, from a listener or from the connection factory to the next of these. Where
    an operation is suspended, a task remembers its local variables. */
module SessionLifecycle {
  import opened Base
  import opened RemoteErrors

  datatype Auth = Anonymous | Authenticating | Authenticated | Expired

  datatype ErrorKind =
    | Busy | Cancelled | Disposed | NotConnected | LocalFailure | AuthFailure | NetworkFailure | RemoteFailure
    | AccountMismatch | AccountSelectionRequired | UnexpectedFailure

  datatype Status = Status(auth: Auth, online: bool, lastError: Option<ErrorKind>)

  const DISCONNECTED := Status(Anonymous, false, None)

  const CONNECTED := Status(Authenticated, true, None)

  datatype Entry = Entry(accountKey: string, remoteAccountId: string, session: nat, generation: nat)

  datatype Thrown = Application(kind: ErrorKind) | FromRemote(error: RemoteError) | Foreign

  /** What resolving the account binding came to after one of its awaits. */
  datatype Binding = StillResolving | BindingFailed(kind: ErrorKind) | Selected(remoteAccountId: string)

  datatype Task =
    | Announced(account: string, generation: nat)                  // the listeners hear of the attempt
    | Building(account: string, generation: nat)                   // inside the connection factory
    | Opening(account: string, generation: nat)                    // awaiting the session
    | Resolving(account: string, generation: nat, session: nat)    // awaiting the local store
    | Discarding(account: string, generation: nat, thrown: Thrown) // awaiting the close of its session
    | Finishing(account: string, generation: nat, kind: ErrorKind) // the listeners hear of the failure
    | Refreshing(entry: Entry)                                     // awaiting the coordinator
    | Releasing(session: nat, failure: Option<ErrorKind>)          // out of the registry, to be closed next

  datatype Reply = Suspended | Returned | Threw(kind: ErrorKind) | NotEnabled

  /** Who is responsible for a session that was opened. */
  datatype Owner = Registry(account: string) | HeldBy(task: nat) | Nobody

  function RemoteErrorKind(error: RemoteError): ErrorKind {
    match error.kind
    case Auth => AuthFailure
    case Network => NetworkFailure
    case Unavailable => NetworkFailure
    case _ => RemoteFailure
  }

  function ClassifyConnectError(thrown: Thrown): ErrorKind {
    match thrown
    case Application(kind) => kind
    case FromRemote(error) => RemoteErrorKind(error)
    case Foreign => UnexpectedFailure
  }

  function ConnectFailure(kind: ErrorKind, sessionOpened: bool): Status {
    Status(Anonymous,
           sessionOpened || kind.AuthFailure? || kind.AccountMismatch? || kind.AccountSelectionRequired? || kind.LocalFailure?,
           Some(kind))
  }

  function Retained(kind: ErrorKind): Status {
    Status(Authenticated, !kind.NetworkFailure?, Some(kind))
  }

  function ExpiredStatus(kind: ErrorKind): Status {
    Status(Expired, !kind.NetworkFailure?, Some(kind))
  }

  function StatusOf(statuses: map<string, Status>, account: string): Status {
    if account in statuses then statuses[account] else DISCONNECTED
  }

  function GenerationOf(generations: map<string, nat>, account: string): nat {
    if account in generations then generations[account] else 0
  }

  predicate Connecting(task: Task) {
    task.Announced? || task.Building? || task.Opening? || task.Resolving? || task.Discarding?
  }

  predicate Pursues(task: Task, account: string, generation: nat) {
    Connecting(task) && task.account == account && task.generation == generation
  }

  function Holds(task: Task): Option<nat> {
    match task
    case Resolving(_, _, session) => Some(session)
    case Releasing(session, _) => Some(session)
    case _ => None
  }

  /** The fields of the application; the operations under way; per session ever opened, how
      often it was closed. For the proofs: who is responsible for each session, and which task
      is at each pending connect. */
  datatype App = App(
    sessions: map<string, Entry>,
    generations: map<string, nat>,
    pendingConnects: map<string, nat>,
    statuses: map<string, Status>,
    disposed: bool,
    tasks: map<nat, Task>,
    closes: seq<nat>,
    owner: seq<Owner>,
    pursuer: map<string, nat>)

  const INITIAL := App(map[], map[], map[], map[], false, map[], [], [], map[])

  // ---- The stretches ----

  predicate HasConnectAuthority(s: App, account: string, generation: nat) {
    && !s.disposed
    && account in s.generations && s.generations[account] == generation
    && account in s.pendingConnects && s.pendingConnects[account] == generation
  }

  predicate IsCurrent(s: App, entry: Entry) {
    && !s.disposed
    && entry.accountKey in s.generations && s.generations[entry.accountKey] == entry.generation
    && entry.accountKey in s.sessions && s.sessions[entry.accountKey] == entry
  }

  function WithNextGeneration(s: App, account: string): App {
    s.(generations := s.generations[account := GenerationOf(s.generations, account) + 1])
  }

  function Published(statuses: map<string, Status>, account: string, status: Status): map<string, Status> {
    if StatusOf(statuses, account) == status then statuses else statuses[account := status]
  }

  function Closed(s: App, session: nat): App
    requires session < |s.closes| == |s.owner|
  {
    s.(closes := s.closes[session := s.closes[session] + 1], owner := s.owner[session := Nobody])
  }

  function Connect(s: App, t: nat, account: string): (App, Reply) {
    if s.disposed then (s, Threw(Disposed))
    else if account in s.sessions || account in s.pendingConnects then (s, Threw(Busy))
    else
      var generation := GenerationOf(s.generations, account) + 1;
      (s.(generations := s.generations[account := generation],
          pendingConnects := s.pendingConnects[account := generation],
          statuses := Published(s.statuses, account, Status(Authenticating, false, None)),
          tasks := s.tasks[t := Announced(account, generation)],
          pursuer := s.pursuer[account := t]),
       Suspended)
  }

  /** The `finally` of a connect, and the end of its task. */
  function Finally(s: App, t: nat, account: string, generation: nat): App {
    s.(pendingConnects := if account in s.pendingConnects && s.pendingConnects[account] == generation
                          then s.pendingConnects - {account} else s.pendingConnects,
       tasks := s.tasks - {t})
  }

  /** The `catch` of a connect, once its session, if it had one, is closed. */
  function FailConnect(s: App, t: nat, account: string, generation: nat, thrown: Thrown,
                       sessionOpened: bool): (App, Reply) {
    if !HasConnectAuthority(s, account, generation) then (Finally(s, t, account, generation), Threw(Cancelled))
    else
      var kind := ClassifyConnectError(thrown);
      (s.(pendingConnects := s.pendingConnects - {account},
          statuses := Published(s.statuses, account, ConnectFailure(kind, sessionOpened)),
          tasks := s.tasks[t := Finishing(account, generation, kind)]),
       Suspended)
  }

  /** The `catch` of a connect that holds a session: it is closed first. */
  function Discard(s: App, t: nat, account: string, generation: nat, session: nat, thrown: Thrown): App
    requires session < |s.closes| == |s.owner|
  {
    Closed(s, session).(tasks := s.tasks[t := Discarding(account, generation, thrown)])
  }

  function AfterAnnouncement(s: App, t: nat, account: string, generation: nat): (App, Reply) {
    if !HasConnectAuthority(s, account, generation) then FailConnect(s, t, account, generation, Application(Cancelled), false)
    else (s.(tasks := s.tasks[t := Building(account, generation)]), Suspended)
  }

  function AfterFactory(s: App, t: nat, account: string, generation: nat, failure: Option<Thrown>): (App, Reply) {
    if failure.Some? then FailConnect(s, t, account, generation, failure.value, false)
    else if !HasConnectAuthority(s, account, generation) then FailConnect(s, t, account, generation, Application(Cancelled), false)
    else (s.(tasks := s.tasks[t := Opening(account, generation)]), Suspended)
  }

  function AfterOpen(s: App, t: nat, account: string, generation: nat, failure: Option<Thrown>): (App, Reply)
    requires |s.closes| == |s.owner|
  {
    if failure.Some? then FailConnect(s, t, account, generation, failure.value, false)
    else
      var session := |s.closes|;
      var holding := s.(closes := s.closes + [0], owner := s.owner + [HeldBy(t)]);
      if !HasConnectAuthority(s, account, generation)
      then (Discard(holding, t, account, generation, session, Application(Cancelled)), Suspended)
      else (holding.(tasks := s.tasks[t := Resolving(account, generation, session)]), Suspended)
  }

  function AfterBinding(s: App, t: nat, account: string, generation: nat, session: nat, binding: Binding): (App, Reply)
    requires session < |s.closes| == |s.owner|
  {
    if !HasConnectAuthority(s, account, generation)
    then (Discard(s, t, account, generation, session, Application(Cancelled)), Suspended)
    else match binding
      case StillResolving => (s, Suspended)
      case BindingFailed(kind) => (Discard(s, t, account, generation, session, Application(kind)), Suspended)
      case Selected(remote) =>
        (s.(sessions := s.sessions[account := Entry(account, remote, session, generation)],
            pendingConnects := s.pendingConnects - {account},
            statuses := Published(s.statuses, account, CONNECTED),
            tasks := s.tasks - {t},
            owner := s.owner[session := Registry(account)]),
         Returned)
  }

  function Disconnect(s: App, t: nat, account: string): (App, Reply)
    requires forall k <- s.sessions :: s.sessions[k].session < |s.owner|
  {
    if s.disposed then (s, Threw(Disposed))
    else
      var known := account in s.sessions || account in s.pendingConnects;
      var gone := s.(sessions := s.sessions - {account}, pendingConnects := s.pendingConnects - {account},
                     statuses := Published(s.statuses, account, DISCONNECTED));
      var next := if known then WithNextGeneration(gone, account) else gone;
      if account !in s.sessions then (next, Returned)
      else
        var session := s.sessions[account].session;
        (next.(tasks := s.tasks[t := Releasing(session, None)], owner := s.owner[session := HeldBy(t)]), Suspended)
  }

  /** The close that a disconnect or an expired refresh ends with. */
  function Release(s: App, t: nat, session: nat, failure: Option<ErrorKind>, closeFailed: bool): (App, Reply)
    requires session < |s.closes| == |s.owner|
  {
    (Closed(s, session).(tasks := s.tasks - {t}),
     if failure.Some? then Threw(failure.value) else if closeFailed then Threw(RemoteFailure) else Returned)
  }

  function Refresh(s: App, t: nat, account: string): (App, Reply) {
    if s.disposed then (s, Threw(Disposed))
    else if account !in s.sessions then (s, Threw(NotConnected))
    else (s.(tasks := s.tasks[t := Refreshing(s.sessions[account])]), Suspended)
  }

  function AfterSync(s: App, t: nat, entry: Entry, failure: Option<Thrown>): (App, Reply)
    requires forall k <- s.sessions :: s.sessions[k].session < |s.owner|
  {
    var account := entry.accountKey;
    var ended := s.(tasks := s.tasks - {t});
    if !IsCurrent(s, entry) then (ended, Threw(Cancelled))
    else match failure
      case None => (ended.(statuses := Published(s.statuses, account, CONNECTED)), Returned)
      case Some(FromRemote(error)) =>
        var kind := RemoteErrorKind(error);
        if error.session.Expire? then
          (WithNextGeneration(s, account).(
             sessions := s.sessions - {account},
             statuses := Published(s.statuses, account, ExpiredStatus(kind)),
             tasks := s.tasks[t := Releasing(entry.session, Some(kind))],
             owner := s.owner[entry.session := HeldBy(t)]),
           Suspended)
        else (ended.(statuses := Published(s.statuses, account, Retained(kind))), Threw(kind))
      case Some(_) =>
        (ended.(statuses := Published(s.statuses, account, Status(Authenticated, true, Some(LocalFailure)))), Threw(LocalFailure))
  }

  function AllRaised(generations: map<string, nat>, accounts: set<string>): map<string, nat> {
    map k | k in generations.Keys + accounts :: if k in accounts then GenerationOf(generations, k) + 1 else generations[k]
  }

  function AllDisconnected(statuses: map<string, Status>, accounts: set<string>): map<string, Status> {
    map k | k in statuses.Keys + accounts :: if k in accounts then DISCONNECTED else statuses[k]
  }

  function AllClosed(closes: seq<nat>, live: set<nat>): (r: seq<nat>)
    ensures |r| == |closes|
    ensures forall i :: 0 <= i < |r| ==> r[i] == if i in live then closes[i] + 1 else closes[i]
  {
    seq(|closes|, i requires 0 <= i < |closes| => if i in live then closes[i] + 1 else closes[i])
  }

  function AllReleased(owner: seq<Owner>, live: set<nat>): (r: seq<Owner>)
    ensures |r| == |owner|
    ensures forall i :: 0 <= i < |r| ==> r[i] == if i in live then Nobody else owner[i]
  {
    seq(|owner|, i requires 0 <= i < |owner| => if i in live then Nobody else owner[i])
  }

  function SessionsOf(entries: map<string, Entry>): set<nat> {
    set account | account in entries :: entries[account].session
  }

  /** Everything at once, in one stretch; every registered session is closed. */
  function Dispose(s: App): App {
    if s.disposed then s
    else
      var affected := s.pendingConnects.Keys + s.generations.Keys + s.sessions.Keys;
      s.(disposed := true,
         sessions := map[],
         pendingConnects := map[],
         generations := AllRaised(s.generations, affected),
         statuses := AllDisconnected(s.statuses, affected),
         closes := AllClosed(s.closes, SessionsOf(s.sessions)),
         owner := AllReleased(s.owner, SessionsOf(s.sessions)))
  }

  // ---- What holds whenever no stretch is running ----

  /** A registry entry is of the current generation, and no connect is pending beside it. */
  ghost predicate RegistryOk(sessions: map<string, Entry>, generations: map<string, nat>,
                             pendingConnects: map<string, nat>) {
    forall account <- sessions ::
      && sessions[account].accountKey == account
      && account in generations && sessions[account].generation == generations[account]
      && account !in pendingConnects
  }

  /** An account is authenticated exactly while it has a registry entry. */
  ghost predicate StatusesOk(statuses: map<string, Status>, sessions: map<string, Entry>) {
    forall account :: StatusOf(statuses, account).auth.Authenticated? <==> account in sessions
  }

  /** A pending connect is of the current generation and some operation is still at it. */
  ghost predicate PendingOk(pendingConnects: map<string, nat>, generations: map<string, nat>, tasks: map<nat, Task>,
                            pursuer: map<string, nat>) {
    forall account <- pendingConnects ::
      && account in generations && pendingConnects[account] == generations[account]
      && account in pursuer && pursuer[account] in tasks && Pursues(tasks[pursuer[account]], account, generations[account])
  }

  /** No task is ahead of its account's generation, and one that failed left nothing pending. */
  ghost predicate TasksOk(tasks: map<nat, Task>, generations: map<string, nat>, pendingConnects: map<string, nat>) {
    forall t <- tasks ::
      && (Connecting(tasks[t]) || tasks[t].Finishing? ==> tasks[t].generation <= GenerationOf(generations, tasks[t].account))
      && (tasks[t].Finishing? && tasks[t].account in pendingConnects ==> tasks[t].generation < pendingConnects[tasks[t].account])
  }

  /** Every session ever opened has one owner and is not closed, or has none and was closed
      exactly once. */
  ghost predicate SessionsOk(sessions: map<string, Entry>, tasks: map<nat, Task>, closes: seq<nat>, owner: seq<Owner>) {
    && |owner| == |closes|
    && (forall account <- sessions ::
          sessions[account].session < |owner| && owner[sessions[account].session] == Registry(account))
    && (forall t <- tasks ::
          Holds(tasks[t]).Some? ==> Holds(tasks[t]).value < |owner| && owner[Holds(tasks[t]).value] == HeldBy(t))
    && (forall s :: 0 <= s < |owner| ==>
          match owner[s]
          case Registry(account) => account in sessions && sessions[account].session == s && closes[s] == 0
          case HeldBy(t) => t in tasks && Holds(tasks[t]) == Some(s) && closes[s] == 0
          case Nobody => closes[s] == 1)
  }

  ghost predicate LifecycleOk(s: App) {
    && RegistryOk(s.sessions, s.generations, s.pendingConnects)
    && StatusesOk(s.statuses, s.sessions)
    && PendingOk(s.pendingConnects, s.generations, s.tasks, s.pursuer)
    && TasksOk(s.tasks, s.generations, s.pendingConnects)
    && SessionsOk(s.sessions, s.tasks, s.closes, s.owner)
    && (s.disposed ==> s.sessions == map[] && s.pendingConnects == map[])
  }

  // ---- What one changed task, status or session does to each part ----

  ghost predicate OnlyTaskChanged(tasks: map<nat, Task>, tasks': map<nat, Task>, t: nat) {
    forall t' :: t' != t ==> (t' in tasks <==> t' in tasks') && (t' in tasks ==> tasks[t'] == tasks'[t'])
  }

  lemma StatusPublished(statuses: map<string, Status>, sessions: map<string, Entry>, sessions': map<string, Entry>,
                        account: string, status: Status)
    requires StatusesOk(statuses, sessions)
    requires forall other :: other != account ==> (other in sessions <==> other in sessions')
    requires status.auth.Authenticated? <==> account in sessions'
    ensures StatusesOk(Published(statuses, account, status), sessions')
  {
    var statuses' := Published(statuses, account, status);
    assert forall other :: StatusOf(statuses', other) == if other == account then status else StatusOf(statuses, other);
  }

  /** The pending connects that are left stay pending. */
  lemma StillPending(pendingConnects: map<string, nat>, pendingConnects': map<string, nat>, generations: map<string, nat>,
                     tasks: map<nat, Task>, tasks': map<nat, Task>, pursuer: map<string, nat>, t: nat)
    requires PendingOk(pendingConnects, generations, tasks, pursuer) && OnlyTaskChanged(tasks, tasks', t)
    requires forall account <- pendingConnects' ::
               account in pendingConnects && pendingConnects'[account] == pendingConnects[account]
    requires forall account <- pendingConnects' ::
               pursuer[account] == t ==> t in tasks' && Pursues(tasks'[t], account, generations[account])
    ensures PendingOk(pendingConnects', generations, tasks', pursuer)
  {
  }

  /** The pending connects of accounts whose generation is not raised stay pending. */
  lemma StillPendingBesides(pendingConnects: map<string, nat>, generations: map<string, nat>, generations': map<string, nat>,
                            tasks: map<nat, Task>, pursuer: map<string, nat>, account: string)
    requires PendingOk(pendingConnects, generations, tasks, pursuer) && account !in pendingConnects
    requires forall other :: other != account && other in generations ==>
               other in generations' && generations'[other] == generations[other]
    ensures PendingOk(pendingConnects, generations', tasks, pursuer)
  {
  }

  /** No task gets ahead when generations grow and pending connects go. */
  lemma TasksStayBehind(tasks: map<nat, Task>, generations: map<string, nat>, generations': map<string, nat>,
                        pendingConnects: map<string, nat>, pendingConnects': map<string, nat>)
    requires TasksOk(tasks, generations, pendingConnects)
    requires forall account :: GenerationOf(generations, account) <= GenerationOf(generations', account)
    requires forall account <- pendingConnects' ::
               if account in pendingConnects then pendingConnects'[account] == pendingConnects[account]
               else pendingConnects'[account] > GenerationOf(generations, account)
    ensures TasksOk(tasks, generations', pendingConnects')
  {
  }

  /** A task that is not ahead of its generation takes the place of one, or of none. */
  lemma TaskPut(tasks: map<nat, Task>, generations: map<string, nat>, pendingConnects: map<string, nat>, t: nat,
                task: Task)
    requires TasksOk(tasks, generations, pendingConnects)
    requires Connecting(task) || task.Finishing? ==> task.generation <= GenerationOf(generations, task.account)
    requires task.Finishing? ==> task.account !in pendingConnects
    ensures TasksOk(tasks[t := task], generations, pendingConnects)
  {
  }

  /** A task that holds no session changes or ends. */
  lemma NothingHeld(sessions: map<string, Entry>, tasks: map<nat, Task>, tasks': map<nat, Task>, closes: seq<nat>,
                    owner: seq<Owner>, t: nat)
    requires SessionsOk(sessions, tasks, closes, owner) && OnlyTaskChanged(tasks, tasks', t)
    requires t in tasks ==> Holds(tasks[t]).None?
    requires t in tasks' ==> Holds(tasks'[t]).None?
    ensures SessionsOk(sessions, tasks', closes, owner)
  {
  }

  lemma SessionOpened(sessions: map<string, Entry>, tasks: map<nat, Task>, closes: seq<nat>, owner: seq<Owner>,
                      t: nat, task: Task)
    requires SessionsOk(sessions, tasks, closes, owner)
    requires t in tasks && Holds(tasks[t]).None? && Holds(task) == Some(|closes|)
    ensures SessionsOk(sessions, tasks[t := task], closes + [0], owner + [HeldBy(t)])
  {
  }

  lemma SessionClosed(sessions: map<string, Entry>, tasks: map<nat, Task>, tasks': map<nat, Task>, closes: seq<nat>,
                      owner: seq<Owner>, t: nat, session: nat)
    requires SessionsOk(sessions, tasks, closes, owner) && OnlyTaskChanged(tasks, tasks', t)
    requires t in tasks && Holds(tasks[t]) == Some(session) && (t in tasks' ==> Holds(tasks'[t]).None?)
    ensures SessionsOk(sessions, tasks', closes[session := closes[session] + 1], owner[session := Nobody])
  {
  }

  lemma SessionRegistered(sessions: map<string, Entry>, tasks: map<nat, Task>, closes: seq<nat>, owner: seq<Owner>,
                          t: nat, account: string, entry: Entry)
    requires SessionsOk(sessions, tasks, closes, owner)
    requires t in tasks && Holds(tasks[t]) == Some(entry.session) && account !in sessions
    ensures SessionsOk(sessions[account := entry], tasks - {t}, closes, owner[entry.session := Registry(account)])
  {
  }

  lemma SessionTakenOut(sessions: map<string, Entry>, tasks: map<nat, Task>, closes: seq<nat>, owner: seq<Owner>,
                        t: nat, account: string, task: Task)
    requires SessionsOk(sessions, tasks, closes, owner) && account in sessions
    requires t in tasks ==> Holds(tasks[t]).None?
    requires Holds(task) == Some(sessions[account].session)
    ensures SessionsOk(sessions - {account}, tasks[t := task], closes, owner[sessions[account].session := HeldBy(t)])
  {
  }

  lemma SessionsAllClosed(sessions: map<string, Entry>, tasks: map<nat, Task>, closes: seq<nat>, owner: seq<Owner>)
    requires SessionsOk(sessions, tasks, closes, owner)
    ensures SessionsOk(map[], tasks, AllClosed(closes, SessionsOf(sessions)), AllReleased(owner, SessionsOf(sessions)))
  {
    forall s | 0 <= s < |owner|
      ensures s in SessionsOf(sessions) <==> owner[s].Registry?
    {
      assert owner[s].Registry? ==> sessions[owner[s].account].session == s;
    }
  }

  // ---- Preservation, stretch by stretch ----

  lemma ConnectKeepsOk(s: App, t: nat, account: string)
    requires LifecycleOk(s) && t !in s.tasks
    ensures LifecycleOk(Connect(s, t, account).0)
  {
    if Connect(s, t, account).1.Suspended? {
      ConnectKeepsTasks(s, t, account);
      StatusPublished(s.statuses, s.sessions, s.sessions, account, Status(Authenticating, false, None));
      NothingHeld(s.sessions, s.tasks, Connect(s, t, account).0.tasks, s.closes, s.owner, t);
    }
  }

  lemma ConnectKeepsTasks(s: App, t: nat, account: string)
    requires LifecycleOk(s) && t !in s.tasks && Connect(s, t, account).1.Suspended?
    ensures var s' := Connect(s, t, account).0;
            TasksOk(s'.tasks, s'.generations, s'.pendingConnects) &&
            PendingOk(s'.pendingConnects, s'.generations, s'.tasks, s'.pursuer)
  {
    AttemptBegins(s.tasks, s.generations, s.pendingConnects, t, account);
    PursuitBegins(s.pendingConnects, s.generations, s.tasks, s.pursuer, t, account, GenerationOf(s.generations, account) + 1);
  }

  lemma AttemptBegins(tasks: map<nat, Task>, generations: map<string, nat>, pendingConnects: map<string, nat>, t: nat,
                      account: string)
    requires TasksOk(tasks, generations, pendingConnects) && account !in pendingConnects
    ensures var generation := GenerationOf(generations, account) + 1;
            TasksOk(tasks[t := Announced(account, generation)], generations[account := generation],
                    pendingConnects[account := generation])
  {
    var generation := GenerationOf(generations, account) + 1;
    var (generations', pendingConnects') := (generations[account := generation], pendingConnects[account := generation]);
    TasksStayBehind(tasks, generations, generations', pendingConnects, pendingConnects');
    TaskPut(tasks, generations', pendingConnects', t, Announced(account, generation));
  }

  lemma PursuitBegins(pendingConnects: map<string, nat>, generations: map<string, nat>, tasks: map<nat, Task>,
                      pursuer: map<string, nat>, t: nat, account: string, generation: nat)
    requires PendingOk(pendingConnects, generations, tasks, pursuer) && t !in tasks
    ensures PendingOk(pendingConnects[account := generation], generations[account := generation],
                      tasks[t := Announced(account, generation)], pursuer[account := t])
  {
  }

  /** A connect moves on without taking or giving up a session. */
  lemma MovingKeepsOk(s: App, t: nat, task: Task)
    requires LifecycleOk(s) && t in s.tasks && Connecting(s.tasks[t]) && Holds(s.tasks[t]).None?
    requires Pursues(task, s.tasks[t].account, s.tasks[t].generation) && Holds(task).None?
    ensures LifecycleOk(s.(tasks := s.tasks[t := task]))
  {
    TaskPut(s.tasks, s.generations, s.pendingConnects, t, task);
    StillPending(s.pendingConnects, s.pendingConnects, s.generations, s.tasks, s.tasks[t := task], s.pursuer, t);
    NothingHeld(s.sessions, s.tasks, s.tasks[t := task], s.closes, s.owner, t);
  }

  lemma FinallyKeepsOk(s: App, t: nat)
    requires LifecycleOk(s) && t in s.tasks && (Connecting(s.tasks[t]) || s.tasks[t].Finishing?) && Holds(s.tasks[t]).None?
    requires !HasConnectAuthority(s, s.tasks[t].account, s.tasks[t].generation)
    ensures Finally(s, t, s.tasks[t].account, s.tasks[t].generation) == s.(tasks := s.tasks - {t})
    ensures LifecycleOk(s.(tasks := s.tasks - {t}))
  {
    StillPending(s.pendingConnects, s.pendingConnects, s.generations, s.tasks, s.tasks - {t}, s.pursuer, t);
    NothingHeld(s.sessions, s.tasks, s.tasks - {t}, s.closes, s.owner, t);
  }

  lemma FailConnectKeepsOk(s: App, t: nat, thrown: Thrown, sessionOpened: bool)
    requires LifecycleOk(s) && t in s.tasks && Connecting(s.tasks[t]) && Holds(s.tasks[t]).None?
    ensures LifecycleOk(FailConnect(s, t, s.tasks[t].account, s.tasks[t].generation, thrown, sessionOpened).0)
  {
    if HasConnectAuthority(s, s.tasks[t].account, s.tasks[t].generation) {
      FailingKeepsOk(s, t, ClassifyConnectError(thrown), sessionOpened);
    } else {
      FinallyKeepsOk(s, t);
    }
  }

  lemma FailingKeepsOk(s: App, t: nat, kind: ErrorKind, sessionOpened: bool)
    requires LifecycleOk(s) && t in s.tasks && Connecting(s.tasks[t]) && Holds(s.tasks[t]).None?
    requires HasConnectAuthority(s, s.tasks[t].account, s.tasks[t].generation)
    ensures var (account, generation) := (s.tasks[t].account, s.tasks[t].generation);
            LifecycleOk(s.(pendingConnects := s.pendingConnects - {account},
                           statuses := Published(s.statuses, account, ConnectFailure(kind, sessionOpened)),
                           tasks := s.tasks[t := Finishing(account, generation, kind)]))
  {
    var (account, task) := (s.tasks[t].account, Finishing(s.tasks[t].account, s.tasks[t].generation, kind));
    var (pendingConnects', tasks') := (s.pendingConnects - {account}, s.tasks[t := task]);
    StatusPublished(s.statuses, s.sessions, s.sessions, account, ConnectFailure(kind, sessionOpened));
    TasksStayBehind(s.tasks, s.generations, s.generations, s.pendingConnects, pendingConnects');
    TaskPut(s.tasks, s.generations, pendingConnects', t, task);
    StillPending(s.pendingConnects, pendingConnects', s.generations, s.tasks, tasks', s.pursuer, t);
    NothingHeld(s.sessions, s.tasks, tasks', s.closes, s.owner, t);
  }

  lemma OpeningKeepsOk(s: App, t: nat, session: nat)
    requires LifecycleOk(s) && t in s.tasks && s.tasks[t].Opening? && session == |s.closes|
    ensures LifecycleOk(s.(closes := s.closes + [0], owner := s.owner + [HeldBy(t)],
                           tasks := s.tasks[t := Resolving(s.tasks[t].account, s.tasks[t].generation, session)]))
  {
    var task := Resolving(s.tasks[t].account, s.tasks[t].generation, session);
    TaskPut(s.tasks, s.generations, s.pendingConnects, t, task);
    StillPending(s.pendingConnects, s.pendingConnects, s.generations, s.tasks, s.tasks[t := task], s.pursuer, t);
    SessionOpened(s.sessions, s.tasks, s.closes, s.owner, t, task);
  }

  lemma DiscardKeepsOk(s: App, t: nat, thrown: Thrown)
    requires LifecycleOk(s) && t in s.tasks && s.tasks[t].Resolving?
    ensures LifecycleOk(Discard(s, t, s.tasks[t].account, s.tasks[t].generation, s.tasks[t].session, thrown))
  {
    var task := Discarding(s.tasks[t].account, s.tasks[t].generation, thrown);
    TaskPut(s.tasks, s.generations, s.pendingConnects, t, task);
    StillPending(s.pendingConnects, s.pendingConnects, s.generations, s.tasks, s.tasks[t := task], s.pursuer, t);
    SessionClosed(s.sessions, s.tasks, s.tasks[t := task], s.closes, s.owner, t, s.tasks[t].session);
  }

  lemma RegisteringKeepsOk(s: App, t: nat, remote: string)
    requires LifecycleOk(s) && t in s.tasks && s.tasks[t].Resolving?
    requires HasConnectAuthority(s, s.tasks[t].account, s.tasks[t].generation)
    ensures LifecycleOk(AfterBinding(s, t, s.tasks[t].account, s.tasks[t].generation, s.tasks[t].session, Selected(remote)).0)
  {
    var account := s.tasks[t].account;
    var entry := Entry(account, remote, s.tasks[t].session, s.tasks[t].generation);
    var (sessions', pendingConnects') := (s.sessions[account := entry], s.pendingConnects - {account});
    assert RegistryOk(sessions', s.generations, pendingConnects');
    StatusPublished(s.statuses, s.sessions, sessions', account, CONNECTED);
    TasksStayBehind(s.tasks, s.generations, s.generations, s.pendingConnects, pendingConnects');
    assert TasksOk(s.tasks - {t}, s.generations, pendingConnects');
    StillPending(s.pendingConnects, pendingConnects', s.generations, s.tasks, s.tasks - {t}, s.pursuer, t);
    SessionRegistered(s.sessions, s.tasks, s.closes, s.owner, t, account, entry);
  }

  function TakenOut(s: App, t: nat, account: string, status: Status, failure: Option<ErrorKind>): App
    requires account in s.sessions && s.sessions[account].session < |s.owner|
  {
    var session := s.sessions[account].session;
    s.(
      generations := s.generations[account := GenerationOf(s.generations, account) + 1],
      sessions := s.sessions - {account}, statuses := Published(s.statuses, account, status),
      tasks := s.tasks[t := Releasing(session, failure)], owner := s.owner[session := HeldBy(t)])
  }

  /** An entry leaves the registry for a task that will close it. */
  lemma LeavingKeepsOk(s: App, t: nat, account: string, status: Status, failure: Option<ErrorKind>)
    requires LifecycleOk(s) && account in s.sessions && !status.auth.Authenticated?
    requires t in s.tasks ==> s.tasks[t].Refreshing?
    ensures LifecycleOk(TakenOut(s, t, account, status, failure))
  {
    LeavingKeepsRegistry(s, t, account, status, failure);
    LeavingKeepsTasks(s, t, account, status, failure);
    SessionTakenOut(s.sessions, s.tasks, s.closes, s.owner, t, account, Releasing(s.sessions[account].session, failure));
  }

  lemma LeavingKeepsRegistry(s: App, t: nat, account: string, status: Status, failure: Option<ErrorKind>)
    requires LifecycleOk(s) && account in s.sessions && !status.auth.Authenticated?
    ensures var s' := TakenOut(s, t, account, status, failure);
            RegistryOk(s'.sessions, s'.generations, s'.pendingConnects) && StatusesOk(s'.statuses, s'.sessions)
  {
    RegistryWithout(s.sessions, s.generations, s.pendingConnects, account);
    StatusPublished(s.statuses, s.sessions, s.sessions - {account}, account, status);
  }

  lemma LeavingKeepsTasks(s: App, t: nat, account: string, status: Status, failure: Option<ErrorKind>)
    requires LifecycleOk(s) && account in s.sessions && (t in s.tasks ==> s.tasks[t].Refreshing?)
    ensures var s' := TakenOut(s, t, account, status, failure);
            TasksOk(s'.tasks, s'.generations, s'.pendingConnects) &&
            PendingOk(s'.pendingConnects, s'.generations, s'.tasks, s'.pursuer)
  {
    OthersPursued(s.tasks, s.generations, s.pendingConnects, s.pursuer, t, account,
                  Releasing(s.sessions[account].session, failure));
  }

  lemma RegistryWithout(sessions: map<string, Entry>, generations: map<string, nat>, pendingConnects: map<string, nat>,
                        account: string)
    requires RegistryOk(sessions, generations, pendingConnects)
    ensures RegistryOk(sessions - {account}, generations[account := GenerationOf(generations, account) + 1], pendingConnects)
  {
  }

  lemma OthersPursued(tasks: map<nat, Task>, generations: map<string, nat>, pendingConnects: map<string, nat>,
                      pursuer: map<string, nat>, t: nat, account: string, task: Task)
    requires TasksOk(tasks, generations, pendingConnects) && PendingOk(pendingConnects, generations, tasks, pursuer)
    requires account !in pendingConnects && task.Releasing? && (t in tasks ==> tasks[t].Refreshing?)
    ensures var generations' := generations[account := GenerationOf(generations, account) + 1];
            TasksOk(tasks[t := task], generations', pendingConnects) &&
            PendingOk(pendingConnects, generations', tasks[t := task], pursuer)
  {
    var generations' := generations[account := GenerationOf(generations, account) + 1];
    TasksStayBehind(tasks, generations, generations', pendingConnects, pendingConnects);
    TaskPut(tasks, generations', pendingConnects, t, task);
    StillPending(pendingConnects, pendingConnects, generations, tasks, tasks[t := task], pursuer, t);
    StillPendingBesides(pendingConnects, generations, generations', tasks[t := task], pursuer, account);
  }

  function Abandoned(s: App, account: string): App {
    s.(pendingConnects := s.pendingConnects - {account}, statuses := Published(s.statuses, account, DISCONNECTED))
  }

  /** An account without an entry gives up what it was connecting. */
  lemma AbandoningKeepsOk(s: App, account: string)
    requires LifecycleOk(s) && account !in s.sessions
    ensures LifecycleOk(Abandoned(s, account))
  {
    var pendingConnects' := s.pendingConnects - {account};
    StatusPublished(s.statuses, s.sessions, s.sessions, account, DISCONNECTED);
    TasksStayBehind(s.tasks, s.generations, s.generations, s.pendingConnects, pendingConnects');
    assert PendingOk(pendingConnects', s.generations, s.tasks, s.pursuer);
  }

  lemma RaisingKeepsOk(s: App, account: string)
    requires LifecycleOk(s) && account !in s.sessions && account !in s.pendingConnects
    ensures LifecycleOk(WithNextGeneration(s, account))
  {
    var generations' := WithNextGeneration(s, account).generations;
    assert RegistryOk(s.sessions, generations', s.pendingConnects);
    TasksStayBehind(s.tasks, s.generations, generations', s.pendingConnects, s.pendingConnects);
    StillPendingBesides(s.pendingConnects, s.generations, generations', s.tasks, s.pursuer, account);
  }

  lemma DisconnectIs(s: App, t: nat, account: string)
    requires LifecycleOk(s) && !s.disposed
    ensures Disconnect(s, t, account).0 ==
            if account in s.sessions then TakenOut(s, t, account, DISCONNECTED, None)
            else if account in s.pendingConnects then WithNextGeneration(Abandoned(s, account), account)
            else Abandoned(s, account)
  {
    assert account in s.sessions ==> s.pendingConnects - {account} == s.pendingConnects;
    assert account !in s.sessions ==> s.sessions - {account} == s.sessions;
  }

  lemma DisconnectKeepsOk(s: App, t: nat, account: string)
    requires LifecycleOk(s) && t !in s.tasks
    ensures LifecycleOk(Disconnect(s, t, account).0)
  {
    if !s.disposed {
      DisconnectIs(s, t, account);
      if account in s.sessions {
        LeavingKeepsOk(s, t, account, DISCONNECTED, None);
      } else {
        AbandoningKeepsOk(s, account);
        RaisingKeepsOk(Abandoned(s, account), account);
      }
    }
  }

  lemma ReleaseKeepsOk(s: App, t: nat, closeFailed: bool)
    requires LifecycleOk(s) && t in s.tasks && s.tasks[t].Releasing?
    ensures LifecycleOk(Release(s, t, s.tasks[t].session, s.tasks[t].failure, closeFailed).0)
  {
    StillPending(s.pendingConnects, s.pendingConnects, s.generations, s.tasks, s.tasks - {t}, s.pursuer, t);
    SessionClosed(s.sessions, s.tasks, s.tasks - {t}, s.closes, s.owner, t, s.tasks[t].session);
  }

  lemma RefreshKeepsOk(s: App, t: nat, account: string)
    requires LifecycleOk(s) && t !in s.tasks
    ensures LifecycleOk(Refresh(s, t, account).0)
  {
    if !s.disposed && account in s.sessions {
      var tasks' := s.tasks[t := Refreshing(s.sessions[account])];
      TaskPut(s.tasks, s.generations, s.pendingConnects, t, tasks'[t]);
      StillPending(s.pendingConnects, s.pendingConnects, s.generations, s.tasks, tasks', s.pursuer, t);
      NothingHeld(s.sessions, s.tasks, tasks', s.closes, s.owner, t);
    }
  }

  lemma EndOfRefreshKeepsOk(s: App, t: nat)
    requires LifecycleOk(s) && t in s.tasks && s.tasks[t].Refreshing?
    ensures LifecycleOk(s.(tasks := s.tasks - {t}))
  {
    StillPending(s.pendingConnects, s.pendingConnects, s.generations, s.tasks, s.tasks - {t}, s.pursuer, t);
    NothingHeld(s.sessions, s.tasks, s.tasks - {t}, s.closes, s.owner, t);
  }

  lemma PublishingKeepsOk(s: App, account: string, status: Status)
    requires LifecycleOk(s) && status.auth.Authenticated? && account in s.sessions
    ensures LifecycleOk(s.(statuses := Published(s.statuses, account, status)))
  {
    StatusPublished(s.statuses, s.sessions, s.sessions, account, status);
  }

  /** What the account of a finished refresh is shown as, unless its session expired. */
  function RefreshedStatus(failure: Option<Thrown>): Status {
    if failure.None? then CONNECTED
    else if failure.value.FromRemote? then Retained(RemoteErrorKind(failure.value.error))
    else Status(Authenticated, true, Some(LocalFailure))
  }

  lemma AfterSyncIs(s: App, t: nat, entry: Entry, failure: Option<Thrown>)
    requires forall k <- s.sessions :: s.sessions[k].session < |s.owner|
    ensures var (account, ended) := (entry.accountKey, s.(tasks := s.tasks - {t}));
            AfterSync(s, t, entry, failure).0 ==
            if !IsCurrent(s, entry) then ended
            else if failure.Some? && failure.value.FromRemote? && failure.value.error.session.Expire? then
              var kind := RemoteErrorKind(failure.value.error);
              TakenOut(s, t, account, ExpiredStatus(kind), Some(kind))
            else ended.(statuses := Published(ended.statuses, account, RefreshedStatus(failure)))
  {
  }

  lemma AfterSyncKeepsOk(s: App, t: nat, failure: Option<Thrown>)
    requires LifecycleOk(s) && t in s.tasks && s.tasks[t].Refreshing?
    ensures LifecycleOk(AfterSync(s, t, s.tasks[t].entry, failure).0)
  {
    var entry := s.tasks[t].entry;
    AfterSyncIs(s, t, entry, failure);
    EndOfRefreshKeepsOk(s, t);
    if IsCurrent(s, entry) {
      if failure.Some? && failure.value.FromRemote? && failure.value.error.session.Expire? {
        var kind := RemoteErrorKind(failure.value.error);
        LeavingKeepsOk(s, t, entry.accountKey, ExpiredStatus(kind), Some(kind));
      } else {
        PublishingKeepsOk(s.(tasks := s.tasks - {t}), entry.accountKey, RefreshedStatus(failure));
      }
    }
  }

  lemma DisposeKeepsOk(s: App)
    requires LifecycleOk(s)
    ensures LifecycleOk(Dispose(s))
  {
    if !s.disposed {
      var affected := s.pendingConnects.Keys + s.generations.Keys + s.sessions.Keys;
      assert StatusesOk(AllDisconnected(s.statuses, affected), map[]) by {
        assert forall account :: StatusOf(AllDisconnected(s.statuses, affected), account) ==
                                 if account in affected then DISCONNECTED else StatusOf(s.statuses, account);
      }
      TasksStayBehind(s.tasks, s.generations, AllRaised(s.generations, affected), s.pendingConnects, map[]);
      SessionsAllClosed(s.sessions, s.tasks, s.closes, s.owner);
    }
  }

  // ---- Whole runs ----

  /** Starting an operation, or going on where one is suspended. A task id names one operation
      from its start to its end. */
  datatype Event =
    | StartConnect(t: nat, account: string)
    | Announcement(t: nat)
    | FactoryEnds(t: nat, failure: Option<Thrown>)
    | OpenEnds(t: nat, failure: Option<Thrown>)
    | BindingGoesOn(t: nat, binding: Binding)
    | CloseEnds(t: nat)
    | FailureAnnounced(t: nat)
    | StartDisconnect(t: nat, account: string)
    | ReleaseSession(t: nat, closeFailed: bool)
    | StartRefresh(t: nat, account: string)
    | SyncEnds(t: nat, failure: Option<Thrown>)
    | DisposeAll

  predicate Enabled(s: App, e: Event) {
    match e
    case StartConnect(t, _) => t !in s.tasks
    case StartDisconnect(t, _) => t !in s.tasks
    case StartRefresh(t, _) => t !in s.tasks
    case DisposeAll => true
    case _ =>
      e.t in s.tasks &&
      var task := s.tasks[e.t];
      match e
      case Announcement(_) => task.Announced?
      case FactoryEnds(_, _) => task.Building?
      case OpenEnds(_, _) => task.Opening?
      case BindingGoesOn(_, _) => task.Resolving?
      case CloseEnds(_) => task.Discarding?
      case FailureAnnounced(_) => task.Finishing?
      case ReleaseSession(_, _) => task.Releasing?
      case SyncEnds(_, _) => task.Refreshing?
  }

  ghost function Step(s: App, e: Event): (App, Reply)
    requires LifecycleOk(s)
  {
    if !Enabled(s, e) then (s, NotEnabled)
    else match e
      case StartConnect(t, account) => Connect(s, t, account)
      case Announcement(t) => AfterAnnouncement(s, t, s.tasks[t].account, s.tasks[t].generation)
      case FactoryEnds(t, failure) => AfterFactory(s, t, s.tasks[t].account, s.tasks[t].generation, failure)
      case OpenEnds(t, failure) => AfterOpen(s, t, s.tasks[t].account, s.tasks[t].generation, failure)
      case BindingGoesOn(t, binding) =>
        AfterBinding(s, t, s.tasks[t].account, s.tasks[t].generation, s.tasks[t].session, binding)
      case CloseEnds(t) => FailConnect(s, t, s.tasks[t].account, s.tasks[t].generation, s.tasks[t].thrown, true)
      case FailureAnnounced(t) =>
        (Finally(s, t, s.tasks[t].account, s.tasks[t].generation), Threw(s.tasks[t].kind))
      case StartDisconnect(t, account) => Disconnect(s, t, account)
      case ReleaseSession(t, closeFailed) => Release(s, t, s.tasks[t].session, s.tasks[t].failure, closeFailed)
      case StartRefresh(t, account) => Refresh(s, t, account)
      case SyncEnds(t, failure) => AfterSync(s, t, s.tasks[t].entry, failure)
      case DisposeAll => (Dispose(s), Returned)
  }

  lemma AnnouncementKeepsOk(s: App, t: nat)
    requires LifecycleOk(s) && t in s.tasks && s.tasks[t].Announced?
    ensures LifecycleOk(AfterAnnouncement(s, t, s.tasks[t].account, s.tasks[t].generation).0)
  {
    FailConnectKeepsOk(s, t, Application(Cancelled), false);
    MovingKeepsOk(s, t, Building(s.tasks[t].account, s.tasks[t].generation));
  }

  lemma FactoryKeepsOk(s: App, t: nat, failure: Option<Thrown>)
    requires LifecycleOk(s) && t in s.tasks && s.tasks[t].Building?
    ensures LifecycleOk(AfterFactory(s, t, s.tasks[t].account, s.tasks[t].generation, failure).0)
  {
    FailConnectKeepsOk(s, t, if failure.Some? then failure.value else Application(Cancelled), false);
    MovingKeepsOk(s, t, Opening(s.tasks[t].account, s.tasks[t].generation));
  }

  lemma OpenKeepsOk(s: App, t: nat, failure: Option<Thrown>)
    requires LifecycleOk(s) && t in s.tasks && s.tasks[t].Opening?
    ensures LifecycleOk(AfterOpen(s, t, s.tasks[t].account, s.tasks[t].generation, failure).0)
  {
    if failure.Some? {
      FailConnectKeepsOk(s, t, failure.value, false);
    } else {
      OpenedKeepsOk(s, t);
    }
  }

  lemma OpenedKeepsOk(s: App, t: nat)
    requires LifecycleOk(s) && t in s.tasks && s.tasks[t].Opening?
    ensures LifecycleOk(AfterOpen(s, t, s.tasks[t].account, s.tasks[t].generation, None).0)
  {
    OpenedIs(s, t);
    OpeningKeepsOk(s, t, |s.closes|);
    if !HasConnectAuthority(s, s.tasks[t].account, s.tasks[t].generation) {
      DiscardKeepsOk(Holding(s, t), t, Application(Cancelled));
    }
  }

  /** The session is held, whatever comes next. */
  function Holding(s: App, t: nat): App
    requires t in s.tasks && s.tasks[t].Opening?
  {
    s.(closes := s.closes + [0], owner := s.owner + [HeldBy(t)],
       tasks := s.tasks[t := Resolving(s.tasks[t].account, s.tasks[t].generation, |s.closes|)])
  }

  lemma OpenedIs(s: App, t: nat)
    requires |s.closes| == |s.owner| && t in s.tasks && s.tasks[t].Opening?
    ensures var (account, generation) := (s.tasks[t].account, s.tasks[t].generation);
            AfterOpen(s, t, account, generation, None).0 ==
            if HasConnectAuthority(s, account, generation) then Holding(s, t)
            else Discard(Holding(s, t), t, account, generation, |s.closes|, Application(Cancelled))
  {
    var discarding := Discarding(s.tasks[t].account, s.tasks[t].generation, Application(Cancelled));
    assert Holding(s, t).tasks[t := discarding] == s.tasks[t := discarding];
  }

  lemma BindingKeepsOk(s: App, t: nat, binding: Binding)
    requires LifecycleOk(s) && t in s.tasks && s.tasks[t].Resolving?
    ensures LifecycleOk(AfterBinding(s, t, s.tasks[t].account, s.tasks[t].generation, s.tasks[t].session, binding).0)
  {
    if !HasConnectAuthority(s, s.tasks[t].account, s.tasks[t].generation) {
      DiscardKeepsOk(s, t, Application(Cancelled));
    } else if binding.BindingFailed? {
      DiscardKeepsOk(s, t, Application(binding.kind));
    } else if binding.Selected? {
      RegisteringKeepsOk(s, t, binding.remoteAccountId);
    }
  }

  lemma StepKeepsOk(s: App, e: Event)
    requires LifecycleOk(s)
    ensures LifecycleOk(Step(s, e).0)
  {
    if Enabled(s, e) {
      match e
      case StartConnect(t, account) => ConnectKeepsOk(s, t, account);
      case Announcement(t) => AnnouncementKeepsOk(s, t);
      case FactoryEnds(t, failure) => FactoryKeepsOk(s, t, failure);
      case OpenEnds(t, failure) => OpenKeepsOk(s, t, failure);
      case BindingGoesOn(t, binding) => BindingKeepsOk(s, t, binding);
      case CloseEnds(t) => FailConnectKeepsOk(s, t, s.tasks[t].thrown, true);
      case FailureAnnounced(t) => FinallyKeepsOk(s, t);
      case StartDisconnect(t, account) => DisconnectKeepsOk(s, t, account);
      case ReleaseSession(t, closeFailed) => ReleaseKeepsOk(s, t, closeFailed);
      case StartRefresh(t, account) => RefreshKeepsOk(s, t, account);
      case SyncEnds(t, failure) => AfterSyncKeepsOk(s, t, failure);
      case DisposeAll => DisposeKeepsOk(s);
    }
  }

  ghost function Run(s: App, events: seq<Event>): (r: App)
    requires LifecycleOk(s)
    ensures LifecycleOk(r)
  {
    if events == [] then s
    else
      var before := Run(s, events[..|events| - 1]);
      StepKeepsOk(before, events[|events| - 1]);
      Step(before, events[|events| - 1]).0
  }

  // ---- What follows ----

  predicate Responsible(s: App, session: nat) {
    || (exists account <- s.sessions :: s.sessions[account].session == session)
    || (exists t <- s.tasks :: Holds(s.tasks[t]) == Some(session))
  }

  /** After any interleaving, an account is authenticated exactly while a session is registered
      for it, that session is of the current generation and nothing else is being connected;
      and a session that was ever opened is registered or held and still open, or it was closed
      exactly once and nobody has it any more. */
  lemma LifecycleIsSafe(events: seq<Event>, account: string, session: nat)
    ensures var s := Run(INITIAL, events);
            && (StatusOf(s.statuses, account).auth.Authenticated? <==> account in s.sessions)
            && (account in s.sessions ==>
                  account !in s.pendingConnects && s.sessions[account].generation == GenerationOf(s.generations, account))
            && (session < |s.closes| ==> s.closes[session] == if Responsible(s, session) then 0 else 1)
  {
    var s := Run(INITIAL, events);
    if session < |s.closes| {
      match s.owner[session] {
        case Registry(k) => assert s.sessions[k].session == session;
        case HeldBy(t) => assert Holds(s.tasks[t]) == Some(session);
        case Nobody =>
      }
    }
  }

  /** No two operations, and no operation and the registry, have the same session. */
  lemma NobodySharesASession(s: App, t: nat, t': nat, account: string)
    requires LifecycleOk(s) && t in s.tasks && t' in s.tasks && t != t' && Holds(s.tasks[t]).Some?
    ensures Holds(s.tasks[t]) != Holds(s.tasks[t'])
    ensures account in s.sessions ==> Holds(s.tasks[t]) != Some(s.sessions[account].session)
  {
    assert s.owner[Holds(s.tasks[t]).value] == HeldBy(t);
  }

  lemma StepGrowsGenerations(s: App, e: Event, account: string)
    requires LifecycleOk(s)
    ensures GenerationOf(s.generations, account) <= GenerationOf(Step(s, e).0.generations, account)
    ensures s.disposed ==> Step(s, e).0.disposed
  {
    if Enabled(s, e) {
      match e
      case StartDisconnect(t, other) => DisconnectGrowsGenerations(s, t, other, account);
      case Announcement(t) => StretchesKeepGenerations(s, t, s.tasks[t].account, s.tasks[t].generation, None);
      case FactoryEnds(t, failure) => StretchesKeepGenerations(s, t, s.tasks[t].account, s.tasks[t].generation, failure);
      case OpenEnds(t, failure) => StretchesKeepGenerations(s, t, s.tasks[t].account, s.tasks[t].generation, failure);
      case BindingGoesOn(t, binding) =>
        BindingKeepsGenerations(s, t, s.tasks[t].account, s.tasks[t].generation, s.tasks[t].session, binding);
      case SyncEnds(t, failure) => SyncGrowsGenerations(s, t, s.tasks[t].entry, failure, account);
      case _ =>
    }
  }

  predicate SameGenerations(s: App, s': App) {
    s'.generations == s.generations && s'.disposed == s.disposed
  }

  lemma DisconnectGrowsGenerations(s: App, t: nat, other: string, account: string)
    requires LifecycleOk(s)
    ensures var s' := Disconnect(s, t, other).0;
            GenerationOf(s.generations, account) <= GenerationOf(s'.generations, account) && s'.disposed == s.disposed
  {
    if !s.disposed {
      DisconnectIs(s, t, other);
    }
  }

  lemma StretchesKeepGenerations(s: App, t: nat, account: string, generation: nat, failure: Option<Thrown>)
    requires |s.closes| == |s.owner|
    ensures SameGenerations(s, AfterAnnouncement(s, t, account, generation).0)
    ensures SameGenerations(s, AfterFactory(s, t, account, generation, failure).0)
    ensures SameGenerations(s, AfterOpen(s, t, account, generation, failure).0)
  {
  }

  lemma BindingKeepsGenerations(s: App, t: nat, account: string, generation: nat, session: nat, binding: Binding)
    requires session < |s.closes| == |s.owner|
    ensures SameGenerations(s, AfterBinding(s, t, account, generation, session, binding).0)
  {
  }

  lemma SyncGrowsGenerations(s: App, t: nat, entry: Entry, failure: Option<Thrown>, account: string)
    requires forall k <- s.sessions :: s.sessions[k].session < |s.owner|
    ensures var s' := AfterSync(s, t, entry, failure).0;
            GenerationOf(s.generations, account) <= GenerationOf(s'.generations, account) && s'.disposed == s.disposed
  {
  }

  /** Generations only grow, and disposal is final. */
  lemma {:induction false} GenerationsOnlyGrow(s: App, events: seq<Event>, account: string)
    requires LifecycleOk(s)
    ensures GenerationOf(s.generations, account) <= GenerationOf(Run(s, events).generations, account)
    ensures s.disposed ==> Run(s, events).disposed && Run(s, events).sessions == map[]
  {
    if events != [] {
      GenerationsOnlyGrow(s, events[..|events| - 1], account);
      StepGrowsGenerations(Run(s, events[..|events| - 1]), events[|events| - 1], account);
    }
  }

  /** A connect that was overtaken (its account was disconnected, expired or disposed of since)
      never gets its session registered, whatever happens later. */
  lemma OvertakenConnectNeverRegisters(s: App, events: seq<Event>, account: string, generation: nat)
    requires LifecycleOk(s) && generation < GenerationOf(s.generations, account)
    ensures var s' := Run(s, events);
            account in s'.sessions ==> s'.sessions[account].generation > generation
  {
    GenerationsOnlyGrow(s, events, account);
  }

  /** An account refused as busy has a session, or some connect is still at work for it: no
      connect leaves the account pending behind it. */
  lemma BusyIsNeverStuck(events: seq<Event>, t: nat, account: string)
    ensures var s := Run(INITIAL, events);
            Connect(s, t, account).1 == Threw(Busy) ==>
              account in s.sessions || exists t' <- s.tasks :: Pursues(s.tasks[t'], account, GenerationOf(s.generations, account))
  {
    var s := Run(INITIAL, events);
    if account in s.pendingConnects {
      assert Pursues(s.tasks[s.pursuer[account]], account, s.generations[account]);
    }
  }
}
