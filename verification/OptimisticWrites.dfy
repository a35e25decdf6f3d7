/** The optimistic keyword and membership updates in both engines: on lists and ordered sets
    in `src-tauri/src/persistence/engine.rs`, on sets and lists in the memory engine. */
module OptimisticWrites {
  import opened Base
  import opened SendIntents
  import opened Records
  import opened PendingMutations
  import opened SyncWrites

  function Elements<T(==)>(s: seq<T>): set<T> {
    set x | x in s
  }

  lemma ElementsOneMore<T>(s: seq<T>, x: T)
    ensures Elements(s + [x]) == Elements(s) + {x}
  {
    forall y | y in s
      ensures y in s + [x]
    {
    }
    assert (s + [x])[|s|] == x;
  }

  function Without(list: seq<string>, k: string): (r: seq<string>)
    ensures Elements(r) == Elements(list) - {k}
    ensures NoDuplicates(list) ==> NoDuplicates(r)
  {
    if list == [] then []
    else
      var before, last := Without(list[..|list| - 1], k), list[|list| - 1];
      assert list == list[..|list| - 1] + [last];
      ElementsOneMore(list[..|list| - 1], last);
      ElementsOneMore(before, last);
      assert NoDuplicates(list) ==> last !in list[..|list| - 1];
      if last == k then before else before + [last]
  }

  function Retained(list: seq<string>, remove: seq<string>): seq<string> {
    if remove == [] then list else Without(Retained(list, remove[..|remove| - 1]), remove[|remove| - 1])
  }

  function Pushed(list: seq<string>, add: seq<string>): seq<string> {
    if add == [] then list
    else
      var before, last := Pushed(list, add[..|add| - 1]), add[|add| - 1];
      if last in before then before else before + [last]
  }

  lemma {:induction false} RetainedElements(list: seq<string>, remove: seq<string>)
    ensures Elements(Retained(list, remove)) == Elements(list) - Elements(remove)
    ensures NoDuplicates(list) ==> NoDuplicates(Retained(list, remove))
  {
    if remove != [] {
      RetainedElements(list, remove[..|remove| - 1]);
      ElementsOneMore(remove[..|remove| - 1], remove[|remove| - 1]);
      assert remove == remove[..|remove| - 1] + [remove[|remove| - 1]];
    }
  }

  lemma {:induction false} PushedElements(list: seq<string>, add: seq<string>)
    ensures Elements(Pushed(list, add)) == Elements(list) + Elements(add)
    ensures NoDuplicates(list) ==> NoDuplicates(Pushed(list, add))
  {
    if add != [] {
      var before, last := add[..|add| - 1], add[|add| - 1];
      PushedElements(list, before);
      ElementsOneMore(before, last);
      ElementsOneMore(Pushed(list, before), last);
      assert add == before + [last];
    }
  }

  /** The native keyword update: retain for every removal, then push what is missing. */
  method NativeKeywords(current: seq<string>, add: seq<string>, remove: seq<string>) returns (keywords: seq<string>)
    ensures keywords == Pushed(Retained(current, remove), add)
    ensures Elements(keywords) == Elements(current) - Elements(remove) + Elements(add)
    ensures NoDuplicates(current) ==> NoDuplicates(keywords)
  {
    keywords := current;
    for i := 0 to |remove|
      invariant keywords == Retained(current, remove[..i])
    {
      assert remove[..i + 1][..i] == remove[..i];
      keywords := Without(keywords, remove[i]);
    }
    assert remove[..|remove|] == remove;
    for i := 0 to |add|
      invariant keywords == Pushed(Retained(current, remove), add[..i])
    {
      assert add[..i + 1][..i] == add[..i];
      if add[i] !in keywords {
        keywords := keywords + [add[i]];
      }
    }
    assert add[..|add|] == add;
    RetainedElements(current, remove);
    PushedElements(Retained(current, remove), add);
  }

  /** The memory engine adds first and removes second. Whatever an email's keywords are, the two
      engines store the same ones exactly when the change does not add and remove one keyword,
      and the native engine's list stays without repeats. */
  lemma KeywordOrdersAgreeIff(s: Store, m: Mutation, id: ScopedId, add: seq<string>, remove: seq<string>,
                              current: seq<string>)
    requires ApplyKeywordChange(s, m, id, Elements(add), Elements(remove)).outcome.Accepted?
    requires Elements(current) == s.emails[id].keywords && NoDuplicates(current)
    ensures var stored := ApplyKeywordChange(s, m, id, Elements(add), Elements(remove)).store.emails[id].keywords;
            stored == Elements(Pushed(Retained(current, remove), add)) <==> Elements(add) !! Elements(remove)
    ensures NoDuplicates(Pushed(Retained(current, remove), add))
  {
    RetainedElements(current, remove);
    PushedElements(Retained(current, remove), add);
    var stored := ApplyKeywordChange(s, m, id, Elements(add), Elements(remove)).store.emails[id].keywords;
    assert stored == Elements(current) + Elements(add) - Elements(remove);
    if k :| k in Elements(add) && k in Elements(remove) {
      assert k !in stored && k in Elements(Pushed(Retained(current, remove), add));
    }
  }

  /** So on every change that the domain's factory makes, for an email both engines hold. */
  lemma KeywordEnginesAgree(s: Store, m: Mutation, id: ScopedId, add: seq<string>, remove: seq<string>,
                            current: seq<string>)
    requires StoreOk(s) && m.accountKey in s.accounts && id in s.emails && m.Key() !in s.mutations
    requires ValidKeywordChange(Elements(add), Elements(remove))
    requires Elements(current) == s.emails[id].keywords && NoDuplicates(current)
    ensures var w := ApplyKeywordChange(s, m, id, Elements(add), Elements(remove));
            && w.outcome.Accepted? && w.store.mutations == s.mutations[m.Key() := m]
            && w.store.emails[id].keywords == Elements(Pushed(Retained(current, remove), add))
  {
    assert UsableEmail(s.emails[id]);
    KeywordOrdersAgreeIff(s, m, id, add, remove, current);
  }

  function Mailboxes(entries: seq<Membership>): set<ScopedId> {
    set entry | entry in entries :: entry.mailboxId
  }

  /** The native membership update on an ordered set; an empty result is a conflict. */
  method NativeMemberships(current: set<ScopedId>, add: seq<ScopedId>,
                           remove: seq<ScopedId>) returns (ids: Option<set<ScopedId>>)
    ensures var next := current - Elements(remove) + Elements(add);
            ids == if next == {} then None else Some(next)
  {
    var next := current;
    for i := 0 to |remove|
      invariant next == current - Elements(remove[..i])
    {
      assert remove[..i + 1] == remove[..i] + [remove[i]];
      next := next - {remove[i]};
    }
    assert remove[..|remove|] == remove;
    for i := 0 to |add|
      invariant next == current - Elements(remove) + Elements(add[..i])
    {
      assert add[..i + 1] == add[..i] + [add[i]];
      next := next + {add[i]};
    }
    assert add[..|add|] == add;
    ids := if next == {} then None else Some(next);
  }

  lemma ChangedMailboxes(entries: seq<Membership>, id: ScopedId, add: seq<ScopedId>, remove: seq<ScopedId>)
    requires MembershipsOk(entries, id)
    ensures var next := WithMailboxes(WithoutMailboxes(entries, remove), id, add);
            && Mailboxes(next) == Mailboxes(entries) - Elements(remove) + Elements(add)
            && NoDuplicates(next)
  {
    var kept := WithoutMailboxes(entries, remove);
    assert forall i :: 0 <= i < |kept| ==> kept[i] in entries;
    WithMailboxesOk(kept, id, add);
    assert Mailboxes(kept) == Mailboxes(entries) - Elements(remove);
    assert Mailboxes(WithMailboxes(kept, id, add)) == Mailboxes(kept) + Elements(add) by {
      forall mailbox | mailbox in add
        ensures mailbox in Mailboxes(WithMailboxes(kept, id, add))
      {
        assert Membership.Membership(id, mailbox) in WithMailboxes(kept, id, add);
      }
    }
  }

  /** The two membership updates agree on every change: where the native one conflicts on an
      empty result so does the memory one, where it stores a set the memory engine stores the
      same mailboxes, each once. */
  lemma MembershipEnginesAgree(s: Store, m: Mutation, id: ScopedId, add: seq<ScopedId>, remove: seq<ScopedId>)
    requires StoreOk(s) && m.accountKey in s.accounts && id in s.emails && m.Key() !in s.mutations
    requires forall mailbox <- add + remove :: mailbox in s.mailboxes && mailbox.accountKey == id.accountKey
    ensures var w := ApplyMembershipChange(s, m, id, add, remove);
            var native := Mailboxes(s.memberships[id]) - Elements(remove) + Elements(add);
            if native == {} then w == Rejected(s, Conflict)
            else && w.outcome.Accepted? && w.store.mutations == s.mutations[m.Key() := m]
                 && id in w.store.memberships
                 && Mailboxes(w.store.memberships[id]) == native && NoDuplicates(w.store.memberships[id])
  {
    ChangedMailboxes(s.memberships[id], id, add, remove);
    ChangedEntriesUsable(s.memberships[id], id, add, remove);
    var next := WithMailboxes(WithoutMailboxes(s.memberships[id], remove), id, add);
    EmptyTogether(next);
    MembershipChangeIs(s, m, id, add, remove, next);
  }

  lemma EmptyTogether(entries: seq<Membership>)
    ensures entries == [] <==> Mailboxes(entries) == {}
  {
    assert entries != [] ==> entries[0].mailboxId in Mailboxes(entries);
  }

  lemma MembershipChangeIs(s: Store, m: Mutation, id: ScopedId, add: seq<ScopedId>, remove: seq<ScopedId>,
                           next: seq<Membership>)
    requires m.accountKey in s.accounts && id in s.emails && id in s.memberships && m.Key() !in s.mutations
    requires forall mailbox <- add + remove :: mailbox in s.mailboxes
    requires next == WithMailboxes(WithoutMailboxes(s.memberships[id], remove), id, add)
    requires forall entry <- next :: UsableMembership(entry)
    ensures ApplyMembershipChange(s, m, id, add, remove) ==
            if next == [] then Rejected(s, Conflict)
            else Committed(s.(memberships := s.memberships[id := next], mutations := s.mutations[m.Key() := m]),
                           [EmailMembershipsChanged(m.accountKey), PendingMutationsChanged(m.accountKey)])
  {
  }

  lemma ChangedEntriesUsable(entries: seq<Membership>, id: ScopedId, add: seq<ScopedId>, remove: seq<ScopedId>)
    requires MembershipsOk(entries, id)
    requires forall mailbox <- add + remove :: mailbox.accountKey == id.accountKey
    ensures forall entry <- WithMailboxes(WithoutMailboxes(entries, remove), id, add) :: UsableMembership(entry)
  {
    var kept := WithoutMailboxes(entries, remove);
    assert forall i :: 0 <= i < |kept| ==> kept[i] in entries;
    WithMailboxesOk(kept, id, add);
    forall entry | entry in WithMailboxes(kept, id, add)
      ensures UsableMembership(entry)
    {
      if entry in kept {
        assert entry in entries;
      } else {
        assert entry.mailboxId in add + remove;
      }
    }
  }
}
