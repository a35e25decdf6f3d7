/** What an accepted view says about the positions of its mailbox, whatever the order of the
    checks in `src/domain/mailbox-view.ts`. */
module ViewPositions {
  import opened Base
  import opened SendIntents
  import opened MailboxViews

  lemma {:induction false} FlattenMembers(coverage: seq<Range>, p: int)
    ensures p in Flatten(coverage) <==> exists j :: 0 <= j < |coverage| && coverage[j].start <= p < coverage[j].endExclusive
  {
    if coverage != [] {
      var (before, last) := (coverage[..|coverage| - 1], coverage[|coverage| - 1]);
      FlattenMembers(before, p);
      var interval := Interval(last.start, last.endExclusive);
      assert p in interval <==> last.start <= p < last.endExclusive by {
        if last.start <= p < last.endExclusive {
          assert interval[p - last.start] == p;
        }
      }
      assert forall j :: 0 <= j < |before| ==> before[j] == coverage[j];
    }
  }

  ghost predicate Increasing(s: seq<int>) {
    forall i, j :: 0 <= i < j < |s| ==> s[i] < s[j]
  }

  lemma {:induction false} FlattenIncreases(coverage: seq<Range>, total: int)
    requires Separated(coverage, total)
    ensures Increasing(Flatten(coverage))
  {
    if coverage != [] {
      EndsInRun(coverage, total);
      FlattenIncreases(coverage[..|coverage| - 1], total);
    }
  }

  lemma AllButLast(s: seq<int>, before: seq<int>, p: int)
    requires Increasing(s) && s != [] && before == s[..|s| - 1]
    ensures Increasing(before) && (p in s ==> p <= s[|s| - 1])
    ensures p in before <==> p in s && p != s[|s| - 1]
  {
    assert s == before + [s[|s| - 1]];
  }

  /** Increasing lists with the same members are the same list. */
  lemma {:induction false} SameMembersSameList(left: seq<int>, right: seq<int>)
    requires Increasing(left) && Increasing(right) && forall p :: p in left <==> p in right
    ensures left == right
  {
    assert left != [] <==> right != [] by {
      assert left != [] ==> left[0] in left;
      assert right != [] ==> right[0] in right;
    }
    if left != [] {
      var (a, b, before, before') := (left[|left| - 1], right[|right| - 1], left[..|left| - 1], right[..|right| - 1]);
      AllButLast(left, before, b);
      AllButLast(right, before', a);
      assert a in left && b in right;
      forall p
        ensures p in before <==> p in before'
      {
        AllButLast(left, before, p);
        AllButLast(right, before', p);
      }
      SameMembersSameList(before, before');
      assert left == before + [a] && right == before' + [b];
    }
  }

  ghost predicate Covered(coverage: seq<Range>, p: int) {
    exists j :: 0 <= j < |coverage| && coverage[j].start <= p < coverage[j].endExclusive
  }

  ghost predicate Placed(items: seq<Item>, p: int) {
    exists i :: 0 <= i < |items| && items[i].position == p
  }

  /** A view that says where it has gaps: ranges in order and apart within the total, items in
      order, and an item at exactly the positions that the ranges cover. */
  ghost predicate Accurate(v: View) {
    && 0 <= v.total <= 9_007_199_254_740_991
    && (forall i :: 0 <= i < |v.coverage| ==> 0 <= v.coverage[i].start < v.coverage[i].endExclusive <= v.total)
    && (forall i, j :: 0 <= i < j < |v.coverage| ==> v.coverage[i].endExclusive < v.coverage[j].start)
    && (forall i, j :: 0 <= i < j < |v.items| ==>
          v.items[i].position < v.items[j].position && v.items[i].emailId != v.items[j].emailId)
    && (forall i :: 0 <= i < |v.items| ==> v.items[i].emailId.accountKey == v.spec.mailboxId.accountKey)
    && (forall p :: Placed(v.items, p) <==> Covered(v.coverage, p))
  }

  lemma PlacedIff(items: seq<Item>, p: int)
    ensures p in Positions(items) <==> Placed(items, p)
  {
    assert forall i :: 0 <= i < |items| ==> Positions(items)[i] == items[i].position;
  }

  lemma PlacedAsCovered(items: seq<Item>, coverage: seq<Range>, total: int)
    requires Separated(coverage, total) && Ascending(items)
    ensures Positions(items) == Flatten(coverage) <==> forall p :: Placed(items, p) <==> Covered(coverage, p)
  {
    FlattenIncreases(coverage, total);
    forall p
      ensures (p in Positions(items) <==> Placed(items, p)) && (p in Flatten(coverage) <==> Covered(coverage, p))
    {
      PlacedIff(items, p);
      FlattenMembers(coverage, p);
    }
    if forall p :: Placed(items, p) <==> Covered(coverage, p) {
      SameMembersSameList(Positions(items), Flatten(coverage));
    }
  }

  lemma ViewIsValidIff(v: View)
    ensures ValidView(v) <==> Accurate(v)
  {
    if Separated(v.coverage, v.total) && Ascending(v.items) {
      PlacedAsCovered(v.items, v.coverage, v.total);
      if Accurate(v) {
        forall i | 0 <= i < |v.items|
          ensures SafeNat(v.items[i].position)
        {
          assert Placed(v.items, v.items[i].position);
          assert Covered(v.coverage, v.items[i].position);
        }
      }
    }
  }
}
