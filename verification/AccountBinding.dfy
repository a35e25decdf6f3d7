/** To which remote account a connect binds a local one: `resolveBinding` of
    `src/app/remote/remote-application.ts`, stretch by stretch between its awaits, over the
    local replica that other writers change meanwhile. */
module AccountBinding {
  import opened Base
  import opened Records
  import opened SyncWrites
  import L = SessionLifecycle

  /** A read of the account: it fails, or finds what the replica has. */
  datatype Read = Unreadable | Found(account: Option<Account>)

  function ReadAccount(s: Store, key: string, ok: bool): Read {
    if ok then Found(if key in s.accounts then Some(s.accounts[key]) else None) else Unreadable
  }

  /** After the first read: a known account needs its own remote account among those the session
      offers; a new one takes the only one there is, which is registered next. */
  function AfterRead(read: Read, serviceKey: string, offered: seq<string>): L.Binding {
    match read
    case Unreadable => L.BindingFailed(L.LocalFailure)
    case Found(Some(known)) =>
      if known.serviceKey != serviceKey || known.jmapAccountId !in offered then L.BindingFailed(L.AccountMismatch)
      else L.Selected(known.jmapAccountId)
    case Found(None) => if |offered| != 1 then L.BindingFailed(L.AccountSelectionRequired) else L.StillResolving
  }

  /** After the registration: a conflict is looked into. */
  function AfterRegistration(outcome: Outcome, selected: string): L.Binding {
    match outcome
    case Accepted => L.Selected(selected)
    case Conflict => L.StillResolving
    case Threw => L.BindingFailed(L.LocalFailure)
  }

  function AfterSecondRead(read: Read, serviceKey: string, selected: string): L.Binding {
    match read
    case Unreadable => L.BindingFailed(L.LocalFailure)
    case Found(Some(known)) =>
      if known.serviceKey == serviceKey && known.jmapAccountId == selected then L.Selected(selected)
      else L.BindingFailed(L.AccountMismatch)
    case Found(None) => L.BindingFailed(L.AccountMismatch)
  }

  /** The whole of it: `before` and `between` are the writes of others up to the registration and
      up to the second read. */
  ghost function Resolve(s: Store, key: string, serviceKey: string, offered: seq<string>, first: bool,
                         before: seq<Command>, between: seq<Command>, second: bool): (L.Binding, Store) {
    var binding := AfterRead(ReadAccount(s, key, first), serviceKey, offered);
    if !binding.StillResolving? then (binding, s)
    else
      var registration := Perform(PerformAll(s, before), RegisterAccount(Account(key, serviceKey, offered[0])));
      var registered := AfterRegistration(registration.outcome, offered[0]);
      if !registered.StillResolving? then (registered, registration.store)
      else
        var later := PerformAll(registration.store, between);
        (AfterSecondRead(ReadAccount(later, key, second), serviceKey, offered[0]), later)
  }

  // ---- An account is bound for good ----

  lemma SyncKeepsAccounts(s: Store, commit: SyncCommit)
    ensures ApplySync(s, commit).store.accounts == s.accounts
  {
    if MaySync(s, commit) {
      match commit
      case EmailCommit(_, _, _) => EmailSyncIs(s, commit);
      case MailboxCommit(_, _, _) => MailboxSyncIs(s, commit);
      case IdentityCommit(_, _, _) => IdentitySyncIs(s, commit);
    }
  }

  lemma OptimisticKeepsAccounts(s: Store, c: Command)
    requires c.ApplyKeywords? || c.ApplyMemberships?
    ensures Perform(s, c).store.accounts == s.accounts
  {
  }

  lemma OthersKeepAccounts(s: Store, c: Command)
    requires !(c.RegisterAccount? || c.ApplyCollectionSync? || c.ApplyKeywords? || c.ApplyMemberships?)
    ensures Perform(s, c).store.accounts == s.accounts
  {
  }

  lemma RegisteringStays(s: Store, account: Account, key: string)
    requires key in s.accounts
    ensures var after := Register(s, account).store; key in after.accounts && after.accounts[key] == s.accounts[key]
  {
  }

  lemma OnlyRegisteringTouchesAccounts(s: Store, c: Command)
    requires !c.RegisterAccount?
    ensures Perform(s, c).store.accounts == s.accounts
  {
    if c.ApplyCollectionSync? {
      SyncKeepsAccounts(s, c.commit);
      assert Perform(s, c) == ApplySync(s, c.commit);
    } else if c.ApplyKeywords? || c.ApplyMemberships? {
      OptimisticKeepsAccounts(s, c);
    } else {
      OthersKeepAccounts(s, c);
    }
  }

  lemma RegisteredStays(s: Store, c: Command, key: string)
    requires key in s.accounts
    ensures key in Perform(s, c).store.accounts && Perform(s, c).store.accounts[key] == s.accounts[key]
  {
    if c.RegisterAccount? {
      RegisteringStays(s, c.account, key);
      assert Perform(s, c) == Register(s, c.account);
    } else {
      OnlyRegisteringTouchesAccounts(s, c);
    }
  }

  lemma {:induction false} RegisteredForGood(s: Store, commands: seq<Command>, key: string)
    requires key in s.accounts
    ensures key in PerformAll(s, commands).accounts && PerformAll(s, commands).accounts[key] == s.accounts[key]
  {
    if commands != [] {
      RegisteredForGood(s, commands[..|commands| - 1], key);
      RegisteredStays(PerformAll(s, commands[..|commands| - 1]), commands[|commands| - 1], key);
    }
  }

  /** The account is stored as that remote account of that service. */
  ghost predicate Bound(s: Store, key: string, serviceKey: string, remote: string) {
    key in s.accounts && s.accounts[key].serviceKey == serviceKey && s.accounts[key].jmapAccountId == remote
  }

  /** A connect selects exactly the remote account to which its local account is bound in the
      replica, by itself or by another, and only one that the session offers. */
  lemma SelectedIffBound(s: Store, key: string, serviceKey: string, offered: seq<string>, before: seq<Command>,
                         between: seq<Command>, remote: string)
    ensures var (binding, after) := Resolve(s, key, serviceKey, offered, true, before, between, true);
      binding == L.Selected(remote) <==>
      && Bound(after, key, serviceKey, remote)
      && (if key in s.accounts then remote in offered else offered == [remote])
  {
  }

  /** Otherwise it fails for the reason that there is: a read that fails, a choice that the user
      has to make, or another account than the one the replica is bound to. */
  lemma FailureIsNamed(s: Store, key: string, serviceKey: string, offered: seq<string>, first: bool, before: seq<Command>,
                       between: seq<Command>, second: bool)
    ensures var binding := Resolve(s, key, serviceKey, offered, first, before, between, second).0;
      && (binding.Selected? || binding.BindingFailed?)
      && (!first ==> binding == L.BindingFailed(L.LocalFailure))
      && (first && binding == L.BindingFailed(L.LocalFailure) ==> key !in s.accounts && !second)
      && (binding == L.BindingFailed(L.AccountSelectionRequired) <==> first && key !in s.accounts && |offered| != 1)
      && (first && second && binding.BindingFailed? ==>
            binding.kind in {L.AccountSelectionRequired, L.AccountMismatch})
  {
  }

  /** The second read never selects: whoever registered the account first bound it for good, and
      otherwise than this connect would have. */
  lemma SecondReadNeverSelects(s: Store, key: string, serviceKey: string, offered: seq<string>, first: bool,
                               before: seq<Command>, between: seq<Command>, second: bool)
    requires |offered| == 1
    requires Perform(PerformAll(s, before), RegisterAccount(Account(key, serviceKey, offered[0]))).outcome.Conflict?
    requires AfterRead(ReadAccount(s, key, first), serviceKey, offered).StillResolving?
    ensures Resolve(s, key, serviceKey, offered, first, before, between, second).0.BindingFailed?
  {
    RegisteredForGood(PerformAll(s, before), between, key);
  }

  /** So no two connects of one account ever select different remote accounts or services,
      whatever is written in between. */
  lemma BindingNeverChanges(s: Store, key: string, serviceKey: string, offered: seq<string>, first: bool, before: seq<Command>,
                            between: seq<Command>, second: bool, remote: string, later: seq<Command>, serviceKey': string,
                            offered': seq<string>, first': bool, before': seq<Command>, between': seq<Command>, second': bool,
                            remote': string)
    requires var (binding, after) := Resolve(s, key, serviceKey, offered, first, before, between, second);
             && binding == L.Selected(remote)
             && Resolve(PerformAll(after, later), key, serviceKey', offered', first', before', between', second').0
                == L.Selected(remote')
    ensures serviceKey' == serviceKey && remote' == remote
  {
    var after := Resolve(s, key, serviceKey, offered, first, before, between, second).1;
    RegisteredForGood(after, later, key);
  }
}
