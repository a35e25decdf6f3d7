/** Partial snapshots of a mailbox listing: the validators of `src/domain/mailbox-view.ts`
    and `validate_view` of `src-tauri/src/persistence/engine.rs`. */
module MailboxViews {
  import opened Base
  import opened SendIntents

  datatype ViewSpec = ViewSpec(mailboxId: ScopedId, filterKind: string, sortProperty: string, sortDirection: string)

  datatype Range = Range(start: int, endExclusive: int)

  datatype Item = Item(position: int, emailId: ScopedId)

  datatype View = View(spec: ViewSpec, queryState: string, total: int, coverage: seq<Range>, items: seq<Item>)

  predicate SafeNat(n: int) {
    0 <= n <= MAX_SAFE_INTEGER
  }

  function Interval(start: int, end: int): (r: seq<int>)
    ensures |r| == if start <= end then end - start else 0
    ensures forall i :: 0 <= i < |r| ==> r[i] == start + i
    decreases end - start
  {
    if start < end then Interval(start, end - 1) + [end - 1] else []
  }

  /** The positions a coverage declares, in order. */
  function Flatten(coverage: seq<Range>): seq<int> {
    if coverage == [] then []
    else Flatten(coverage[..|coverage| - 1]) + Interval(coverage[|coverage| - 1].start, coverage[|coverage| - 1].endExclusive)
  }

  function Positions(items: seq<Item>): (r: seq<int>)
    ensures |r| == |items|
    ensures forall i :: 0 <= i < |r| ==> r[i] == items[i].position
  {
    seq(|items|, i requires 0 <= i < |items| => items[i].position)
  }

  // ---- What a view has to be ----

  /** Ranges in order with a gap between any two, none empty, none beyond the total. */
  ghost predicate Separated(coverage: seq<Range>, total: int) {
    && (forall i :: 0 <= i < |coverage| ==> 0 <= coverage[i].start < coverage[i].endExclusive <= total)
    && (forall i, j :: 0 <= i < j < |coverage| ==> coverage[i].endExclusive < coverage[j].start)
  }

  ghost predicate ValidCoverage(coverage: seq<Range>, total: int) {
    && Separated(coverage, total)
    && forall i :: 0 <= i < |coverage| ==> SafeNat(coverage[i].start) && SafeNat(coverage[i].endExclusive)
  }

  ghost predicate Ascending(items: seq<Item>) {
    forall i, j :: 0 <= i < j < |items| ==> items[i].position < items[j].position
  }

  ghost predicate DistinctEmails(items: seq<Item>) {
    forall i, j :: 0 <= i < j < |items| ==> items[i].emailId != items[j].emailId
  }

  ghost predicate ValidItems(items: seq<Item>, account: string) {
    && Ascending(items)
    && DistinctEmails(items)
    && forall i :: 0 <= i < |items| ==> SafeNat(items[i].position) && items[i].emailId.accountKey == account
  }

  ghost predicate ValidView(v: View) {
    && SafeNat(v.total)
    && ValidCoverage(v.coverage, v.total)
    && ValidItems(v.items, v.spec.mailboxId.accountKey)
    && Positions(v.items) == Flatten(v.coverage)
  }

  // ---- Facts about flattening ----

  predicate Within(positions: seq<int>, low: int, high: int) {
    forall i :: 0 <= i < |positions| ==> low < positions[i] < high
  }

  lemma {:induction false} FlattenAppend(all: seq<Range>, left: seq<Range>, right: seq<Range>)
    requires all == left + right
    ensures Flatten(all) == Flatten(left) + Flatten(right)
  {
    if right != [] {
      FlattenAppend(all[..|all| - 1], left, right[..|right| - 1]);
    } else {
      assert all == left;
    }
  }

  lemma FlattenOneMore(coverage: seq<Range>, i: nat)
    requires i < |coverage|
    ensures Flatten(coverage[..i + 1]) == Flatten(coverage[..i]) + Interval(coverage[i].start, coverage[i].endExclusive)
  {
    assert coverage[..i + 1][..i] == coverage[..i];
  }

  lemma PositionsAfter(coverage: seq<Range>, total: int, i: nat)
    requires Separated(coverage, total) && i < |coverage|
    ensures Within(Flatten(coverage[i + 1..]), coverage[i].endExclusive, total)
  {
    FlattenWithin(coverage[i + 1..], coverage[i].endExclusive, total);
  }

  lemma {:induction false} FlattenWithin(coverage: seq<Range>, low: int, total: int)
    requires forall i :: 0 <= i < |coverage| ==> low < coverage[i].start && coverage[i].endExclusive <= total
    ensures Within(Flatten(coverage), low, total)
  {
    if coverage != [] {
      FlattenWithin(coverage[..|coverage| - 1], low, total);
    }
  }

  /** A coverage is determined by the positions it declares: its ranges are their maximal runs. */
  lemma {:induction false} CanonicalCoverage(left: seq<Range>, right: seq<Range>, total: int, total': int)
    requires Separated(left, total) && Separated(right, total') && Flatten(left) == Flatten(right)
    ensures left == right
  {
    NonemptyFlattens(left, total);
    NonemptyFlattens(right, total');
    if left != [] {
      SameLastRange(left, right, total, total');
      CanonicalCoverage(left[..|left| - 1], right[..|right| - 1], total, total');
      assert left == left[..|left| - 1] + [left[|left| - 1]];
    }
  }

  lemma SameLastRange(left: seq<Range>, right: seq<Range>, total: int, total': int)
    requires Separated(left, total) && Separated(right, total') && Flatten(left) == Flatten(right)
    requires left != [] && right != []
    ensures left[|left| - 1] == right[|right| - 1]
    ensures Separated(left[..|left| - 1], total) && Separated(right[..|right| - 1], total')
    ensures Flatten(left[..|left| - 1]) == Flatten(right[..|right| - 1])
  {
    EndsInRun(left, total);
    EndsInRun(right, total');
    SameLastRun(Flatten(left[..|left| - 1]), left[|left| - 1], Flatten(right[..|right| - 1]), right[|right| - 1]);
  }

  lemma NonemptyFlattens(coverage: seq<Range>, total: int)
    requires Separated(coverage, total)
    ensures Flatten(coverage) == [] <==> coverage == []
  {
  }

  /** Positions that end in a run with a gap before it. */
  ghost predicate RunAfterGap(before: seq<int>, last: Range) {
    last.start < last.endExclusive && Within(before, -1, last.start - 1)
  }

  lemma EndsInRun(coverage: seq<Range>, total: int)
    requires Separated(coverage, total) && coverage != []
    ensures Separated(coverage[..|coverage| - 1], total)
    ensures RunAfterGap(Flatten(coverage[..|coverage| - 1]), coverage[|coverage| - 1])
  {
    FlattenWithin(coverage[..|coverage| - 1], -1, coverage[|coverage| - 1].start - 1);
  }

  /** Positions end in such a run in one way only. */
  lemma SameLastRun(before: seq<int>, last: Range, before': seq<int>, last': Range)
    requires RunAfterGap(before, last) && RunAfterGap(before', last')
    requires before + Interval(last.start, last.endExclusive) == before' + Interval(last'.start, last'.endExclusive)
    ensures last == last' && before == before'
  {
    var all := before + Interval(last.start, last.endExclusive);
    assert all[|all| - 1] == last.endExclusive - 1 == last'.endExclusive - 1;
    NotLonger(before, last, before', last');
    NotLonger(before', last', before, last);
    assert before == all[..|before|] == before';
  }

  lemma NotLonger(before: seq<int>, last: Range, before': seq<int>, last': Range)
    requires RunAfterGap(before, last) && RunAfterGap(before', last') && last.endExclusive == last'.endExclusive
    requires before + Interval(last.start, last.endExclusive) == before' + Interval(last'.start, last'.endExclusive)
    ensures |before'| <= |before|
  {
    var all := before + Interval(last.start, last.endExclusive);
    assert |before'| > 0 ==> all[|before'| - 1] == before'[|before'| - 1];
  }

  /** Two accepted views with the same item positions declare the same coverage. */
  lemma SamePositionsSameCoverage(v: View, w: View)
    requires ValidView(v) && ValidView(w) && Positions(v.items) == Positions(w.items)
    ensures v.coverage == w.coverage
  {
    CanonicalCoverage(v.coverage, w.coverage, v.total, w.total);
  }

  // ---- The TypeScript validators ----

  method ValidateCoverage(coverage: seq<Range>, total: int) returns (ok: bool)
    ensures ok <==> ValidCoverage(coverage, total)
  {
    var previousEnd: Option<int> := None;
    for i := 0 to |coverage|
      invariant ValidCoverage(coverage[..i], total)
      invariant previousEnd == if i == 0 then None else Some(coverage[i - 1].endExclusive)
    {
      var range := coverage[i];
      if !SafeNat(range.start) || !SafeNat(range.endExclusive) || range.start >= range.endExclusive {
        return false;
      }
      if range.endExclusive > total {
        return false;
      }
      if previousEnd.Some? && range.start <= previousEnd.value {
        return false;
      }
      previousEnd := Some(range.endExclusive);
    }
    assert coverage[..|coverage|] == coverage;
    ok := true;
  }

  lemma ValidItemsOneMore(items: seq<Item>, i: nat, account: string)
    requires i < |items| && ValidItems(items[..i], account)
    requires SafeNat(items[i].position) && items[i].emailId.accountKey == account
    requires i > 0 ==> items[i - 1].position < items[i].position
    requires forall j :: 0 <= j < i ==> items[j].emailId != items[i].emailId
    ensures ValidItems(items[..i + 1], account)
  {
    var before := items[..i];
    assert forall j :: 0 <= j < i ==> before[j] == items[j] && before[j].position <= before[i - 1].position;
  }

  method ValidateItems(items: seq<Item>, account: string) returns (ok: bool)
    ensures ok <==> ValidItems(items, account)
  {
    var previousPosition: Option<int> := None;
    var knownEmailIds: seq<ScopedId> := [];
    for i := 0 to |items|
      invariant ValidItems(items[..i], account)
      invariant previousPosition == if i == 0 then None else Some(items[i - 1].position)
      invariant |knownEmailIds| == i && forall j :: 0 <= j < i ==> knownEmailIds[j] == items[j].emailId
    {
      var item := items[i];
      if !SafeNat(item.position) {
        return false;
      }
      if previousPosition.Some? && item.position <= previousPosition.value {
        return false;
      }
      if item.emailId.accountKey != account {
        return false;
      }
      if exists id <- knownEmailIds :: id == item.emailId {
        return false;
      }
      assert forall j :: 0 <= j < i ==> items[j].emailId == knownEmailIds[j] && knownEmailIds[j] in knownEmailIds;
      ValidItemsOneMore(items, i, account);
      previousPosition := Some(item.position);
      knownEmailIds := knownEmailIds + [item.emailId];
    }
    assert items[..|items|] == items;
    ok := true;
  }

  ghost predicate MatchUpTo(items: seq<Item>, positions: seq<int>, n: nat) {
    n <= |items| && n <= |positions| && forall k :: 0 <= k < n ==> items[k].position == positions[k]
  }

  lemma Mismatch(items: seq<Item>, positions: seq<int>, k: nat)
    requires k < |items| || k < |positions|
    requires k < |items| && k < |positions| ==> items[k].position != positions[k]
    ensures Positions(items) != positions
  {
    assert k < |items| ==> Positions(items)[k] == items[k].position;
  }

  /** From index `done` on come the positions of `range`, then none up to its end. */
  ghost predicate NextPositions(positions: seq<int>, done: nat, range: Range) {
    && done + range.endExclusive - range.start <= |positions|
    && forall k :: done <= k < |positions| ==>
         if k < done + range.endExclusive - range.start then positions[k] == range.start + k - done
         else range.endExclusive < positions[k]
  }

  lemma RangeComesNext(coverage: seq<Range>, total: int, i: nat)
    requires Separated(coverage, total) && i < |coverage|
    ensures NextPositions(Flatten(coverage), |Flatten(coverage[..i])|, coverage[i])
    ensures |Flatten(coverage[..i + 1])| == |Flatten(coverage[..i])| + coverage[i].endExclusive - coverage[i].start
  {
    var (before, run, after) := (Flatten(coverage[..i]),
                                 Interval(coverage[i].start, coverage[i].endExclusive), Flatten(coverage[i + 1..]));
    assert Flatten(coverage[..i + 1]) == before + run by {
      FlattenOneMore(coverage, i);
    }
    assert Flatten(coverage) == (before + run) + after by {
      FlattenAppend(coverage, coverage[..i + 1], coverage[i + 1..]);
    }
    PositionsAfter(coverage, total, i);
    RunThenAfter(before, after, coverage[i]);
  }

  lemma RunThenAfter(before: seq<int>, after: seq<int>, range: Range)
    requires range.start < range.endExclusive && forall k :: 0 <= k < |after| ==> range.endExclusive < after[k]
    ensures NextPositions((before + Interval(range.start, range.endExclusive)) + after, |before|, range)
  {
  }

  /** One pass over both lists, for a coverage that `ValidateCoverage` accepted. */
  method ValidateCoverageItems(coverage: seq<Range>, items: seq<Item>, ghost total: int) returns (ok: bool)
    requires Separated(coverage, total)
    ensures ok <==> Positions(items) == Flatten(coverage)
  {
    ghost var all := Flatten(coverage);
    var itemIndex := 0;
    for i := 0 to |coverage|
      invariant itemIndex == |Flatten(coverage[..i])| && MatchUpTo(items, all, itemIndex)
    {
      var range := coverage[i];
      ghost var done := itemIndex;
      RangeComesNext(coverage, total, i);
      var expectedPosition := range.start;
      while itemIndex < |items| && items[itemIndex].position < range.endExclusive
        invariant range.start <= expectedPosition <= range.endExclusive
        invariant itemIndex == done + expectedPosition - range.start && MatchUpTo(items, all, itemIndex)
      {
        if items[itemIndex].position != expectedPosition {
          Mismatch(items, all, itemIndex);
          return false;
        }
        expectedPosition := expectedPosition + 1;
        itemIndex := itemIndex + 1;
      }
      if expectedPosition != range.endExclusive {
        Mismatch(items, all, itemIndex);
        return false;
      }
    }
    assert coverage[..|coverage|] == coverage;
    ok := itemIndex == |items|;
  }

  /** `mailboxView` */
  method ValidateMailboxView(v: View) returns (ok: bool)
    ensures ok <==> ValidView(v)
  {
    if !SafeNat(v.total) {
      return false;
    }
    ok := ValidateCoverage(v.coverage, v.total);
    if ok {
      ok := ValidateItems(v.items, v.spec.mailboxId.accountKey);
    }
    if ok {
      ok := ValidateCoverageItems(v.coverage, v.items, v.total);
    }
  }

  // ---- The native validator ----

  predicate ValidNativeHead(v: View) {
    && v.spec.filterKind == "all" && v.spec.sortProperty == "receivedAt"
    && v.spec.sortDirection in {"ascending", "descending"}
    && v.queryState != ""
  }

  ghost predicate ValidNativeView(v: View) {
    && ValidNativeHead(v)
    && Separated(v.coverage, v.total)
    && Ascending(v.items)
    && (forall i :: 0 <= i < |v.items| ==> v.items[i].position < v.total)
    && Positions(v.items) == Flatten(v.coverage)
  }

  /** Every number of a native view is unsigned. */
  predicate Unsigned(v: View) {
    && v.total >= 0
    && (forall r <- v.coverage :: r.start >= 0 && r.endExclusive >= 0)
    && (forall item <- v.items :: item.position >= 0)
  }

  /** `validate_view`: flatten the coverage and compare. */
  method ValidateNativeView(v: View) returns (ok: bool)
    requires Unsigned(v)
    ensures ok <==> ValidNativeView(v)
  {
    if !ValidNativeHead(v) {
      return false;
    }
    var last: Option<int> := None;
    for i := 0 to |v.coverage|
      invariant Separated(v.coverage[..i], v.total)
      invariant last == if i == 0 then None else Some(v.coverage[i - 1].endExclusive)
    {
      var r := v.coverage[i];
      if r.start >= r.endExclusive || r.endExclusive > v.total || (last.Some? && r.start <= last.value) {
        return false;
      }
      last := Some(r.endExclusive);
    }
    assert v.coverage[..|v.coverage|] == v.coverage;
    for i := 0 to |v.items|
      invariant Ascending(v.items[..i])
    {
      if i > 0 && v.items[i - 1].position >= v.items[i].position {
        return false;
      }
    }
    assert v.items[..|v.items|] == v.items;
    if exists item <- v.items :: item.position >= v.total {
      return false;
    }
    var covered: seq<int> := [];
    for i := 0 to |v.coverage|
      invariant covered == Flatten(v.coverage[..i])
    {
      FlattenOneMore(v.coverage, i);
      covered := covered + Interval(v.coverage[i].start, v.coverage[i].endExclusive);
    }
    ok := covered == Positions(v.items);
  }

  // ---- The two validators agree ----

  predicate SafeNumbers(v: View) {
    && SafeNat(v.total)
    && (forall r <- v.coverage :: SafeNat(r.start) && SafeNat(r.endExclusive))
    && (forall item <- v.items :: SafeNat(item.position))
  }

  /** On safe integers the domain accepts exactly the views that the native engine accepts,
      whose items name distinct emails of the view's account. (The native engine in addition
      insists on a known spec and a query state, which the domain's types give, and on
      positions below the total, which the coverage gives.) */
  lemma ValidatorsAgree(v: View)
    ensures ValidView(v) && ValidNativeHead(v)
       <==> SafeNumbers(v) && ValidNativeView(v) && DistinctEmails(v.items)
            && forall item <- v.items :: item.emailId.accountKey == v.spec.mailboxId.accountKey
  {
    if ValidView(v) {
      FlattenWithin(v.coverage, -1, v.total);
      forall i | 0 <= i < |v.items|
        ensures v.items[i].position < v.total
      {
        assert Positions(v.items)[i] == v.items[i].position;
      }
    }
  }
}
