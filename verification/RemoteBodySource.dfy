/** Who may still answer for a remote operation: the mutation side of
    `src/app/remote/remote-body-source.ts`. A capability is the one object that an activation
    stored; an operation takes it at its start and asks at its end whether it is current. */
module RemoteBodySources {
  import opened Base
  import opened RemoteErrors
  import opened OutboxProtocol

  /** `id` tells one activation from every other. */
  datatype Capability = Capability(id: nat, accountKey: string, remoteAccountId: string, generation: nat)

  function GenerationIn(generations: map<string, nat>, account: string): nat {
    if account in generations then generations[account] else 0
  }

  class RemoteBodyCapabilityStore {
    var active: map<string, Capability>
    var generations: map<string, nat>
    var connected: set<string>   // the accounts for which the status authority says yes
    var disposed: bool
    var nextId: nat   // stands for object identity

    constructor ()
      ensures Valid() && active == map[] && !disposed
    {
      active, generations, connected, disposed, nextId := map[], map[], {}, false, 0;
    }

    ghost predicate Valid()
      reads this
    {
      && (forall k <- active :: active[k].accountKey == k && active[k].id < nextId && active[k].generation == Generation(k))
      && (disposed ==> active == map[])
    }

    function Generation(account: string): nat
      reads this
    {
      GenerationIn(generations, account)
    }

    predicate Holds(c: Capability)
      reads this
    {
      c.accountKey in active && active[c.accountKey] == c
    }

    predicate IsCurrent(c: Capability)
      reads this
    {
      !disposed && Holds(c) && Generation(c.accountKey) == c.generation && c.accountKey in connected
    }

    /** A capability that was let go of is never held again, whatever is activated later. */
    twostate predicate NothingReturns()
      reads this
    {
      && old(nextId) <= nextId
      && forall c: Capability :: c.id < old(nextId) && !old(Holds(c)) ==> !Holds(c)
    }

    method Activate(account: string, remoteAccountId: string, expectedGeneration: nat) returns (c: Option<Capability>)
      requires Valid()
      modifies this
      ensures Valid() && NothingReturns()
      ensures c.Some? <==> !old(disposed) && old(Generation(account)) == expectedGeneration && account in old(connected)
      ensures c.Some? ==> IsCurrent(c.value) && c.value.accountKey == account && !old(Holds(c.value))
      ensures c.Some? ==> c.value.remoteAccountId == remoteAccountId && c.value.generation == expectedGeneration
      ensures active == if c.Some? then old(active)[account := c.value] else old(active)
      ensures generations == old(generations) && connected == old(connected) && disposed == old(disposed)
    {
      if disposed || Generation(account) != expectedGeneration || account !in connected {
        return None;
      }
      var capability := Capability(nextId, account, remoteAccountId, expectedGeneration);
      active := active[account := capability];
      nextId := nextId + 1;
      c := Some(capability);
    }

    method Invalidate(account: string)
      requires Valid()
      modifies this
      ensures Valid() && NothingReturns()
      ensures active == old(active) - {account}
      ensures generations == old(generations)[account := old(Generation(account)) + 1] && nextId == old(nextId)
      ensures connected == old(connected) && disposed == old(disposed)
    {
      generations := generations[account := Generation(account) + 1];
      active := active - {account};
    }

    method Dispose()
      requires Valid()
      modifies this
      ensures Valid() && NothingReturns() && disposed && active == map[]
      ensures forall k :: Generation(k) == old(Generation(k)) + if k in old(active) then 1 else 0
    {
      var rest := active.Keys;
      while rest != {}
        invariant Valid() && nextId == old(nextId) && active.Keys == rest <= old(active).Keys
        invariant forall k <- active :: active[k] == old(active)[k]
        invariant forall k :: GenerationIn(generations, k) ==
                    GenerationIn(old(generations), k) + if k in old(active) && k !in rest then 1 else 0
        decreases rest
      {
        var account :| account in rest;
        Invalidate(account);
        rest := rest - {account};
      }
      disposed := true;
    }

    /** `mutationCapability`: without a current capability nothing is sent at all. */
    method MutationCapability(account: string) returns (c: Option<Capability>)
      requires Valid()
      ensures if c.Some? then IsCurrent(c.value) && c.value.accountKey == account
              else forall d: Capability :: d.accountKey == account ==> !IsCurrent(d)
    {
      if account !in active || !IsCurrent(active[account]) {
        return None;
      }
      c := Some(active[account]);
    }

    /** The end of `submit`, `applyKeywordChange` and `applyMembershipChange`. The caller learns
        what the remote said only while the capability is current; otherwise it learns nothing,
        not even that there was a failure. A failure that expires the session ends it for all. */
    method MutationEnded(c: Capability, raw: Raw) returns (result: SourceResult)
      requires Valid()
      modifies this
      ensures Valid() && NothingReturns()
      ensures result == ThroughCapability(raw, old(IsCurrent(c)))
      ensures result == if !old(IsCurrent(c)) then SourceThrew(Cancelled)
                        else match raw
                             case Delivered(emailId) => Returned(emailId)
                             case Failed(error) => SourceThrew(Remote(error))
                             case _ => SourceThrew(UnexpectedFailure)
      ensures raw.Failed? && raw.error.session.Expire? && old(IsCurrent(c)) ==> !Holds(c)
      ensures !(raw.Failed? && raw.error.session.Expire? && old(IsCurrent(c))) ==> active == old(active)
    {
      if raw.Delivered? && IsCurrent(c) {
        return Returned(raw.emailId);
      }
      if !IsCurrent(c) {
        return SourceThrew(Cancelled);
      }
      if raw.Failed? {
        if raw.error.session.Expire? {
          Invalidate(c.accountKey);
        }
        return SourceThrew(Remote(raw.error));
      }
      result := SourceThrew(UnexpectedFailure);
    }
  }
}
