/** The string keys of the memory engine's maps (`src/adapters/memory/memory-state.ts`): each
    part is written after its own length, so that the parts can be told apart again. */
module CompoundKeys {
  import opened Base
  import opened Decimals
  import opened SendIntents
  import opened MailboxViews

  function CompoundKey(parts: seq<string>): string {
    if parts == [] then "" else Decimal(|parts[0]|) + ":" + parts[0] + CompoundKey(parts[1..])
  }

  /** A number is read up to its colon in one way only. */
  lemma PrefixBeforeColon(a: string, b: string, restA: string, restB: string)
    requires AllDigits(a) && AllDigits(b) && a + ":" + restA == b + ":" + restB
    ensures a == b && restA == restB
  {
    var whole := a + ":" + restA;
    assert whole[|a|] == ':' && whole[|b|] == ':';
    assert forall i :: 0 <= i < |a| ==> whole[i] == a[i];
    assert forall i :: 0 <= i < |b| ==> whole[i] == b[i];
    assert |a| == |b|;
    assert a == whole[..|a|] == b;
    assert restA == whole[|a| + 1..] == restB;
  }

  lemma KeyHead(parts: seq<string>)
    requires parts != []
    ensures CompoundKey(parts) == Decimal(|parts[0]|) + ":" + (parts[0] + CompoundKey(parts[1..]))
  {
    var d, p, k := Decimal(|parts[0]|), parts[0], CompoundKey(parts[1..]);
    assert d + ":" + p + k == d + ":" + (p + k);
  }

  /** Two lists of strings, of any lengths, with the same key are the same list. */
  lemma {:induction false} CompoundKeyIsInjective(left: seq<string>, right: seq<string>)
    requires CompoundKey(left) == CompoundKey(right)
    ensures left == right
  {
    if left == [] || right == [] {
    } else {
      KeyHead(left);
      KeyHead(right);
      var restL, restR := left[0] + CompoundKey(left[1..]), right[0] + CompoundKey(right[1..]);
      PrefixBeforeColon(Decimal(|left[0]|), Decimal(|right[0]|), restL, restR);
      ValueOfDecimal(|left[0]|);
      ValueOfDecimal(|right[0]|);
      assert left[0] == restL[..|left[0]|] == right[0];
      assert CompoundKey(left[1..]) == restL[|left[0]|..] == CompoundKey(right[1..]);
      CompoundKeyIsInjective(left[1..], right[1..]);
      assert left == [left[0]] + left[1..] && right == [right[0]] + right[1..];
    }
  }

  // ---- The keys in use ----

  /** Mailboxes, emails and identities. */
  function ScopedKey(id: ScopedId): string {
    CompoundKey([id.accountKey, id.jmapId])
  }

  function ViewKey(spec: ViewSpec): string {
    CompoundKey([spec.mailboxId.accountKey, spec.mailboxId.jmapId, spec.filterKind, spec.sortProperty, spec.sortDirection])
  }

  /** Cursors and mutations. */
  function PairKey(pair: (string, string)): string {
    CompoundKey([pair.0, pair.1])
  }

  /** So a map under string keys is a map under ids, view specs and pairs. */
  lemma KeysIdentify(id: ScopedId, id': ScopedId, spec: ViewSpec, spec': ViewSpec, pair: (string, string),
                     pair': (string, string))
    ensures ScopedKey(id) == ScopedKey(id') <==> id == id'
    ensures ViewKey(spec) == ViewKey(spec') <==> spec == spec'
    ensures PairKey(pair) == PairKey(pair') <==> pair == pair'
  {
    if ScopedKey(id) == ScopedKey(id') {
      CompoundKeyIsInjective([id.accountKey, id.jmapId], [id'.accountKey, id'.jmapId]);
      assert [id.accountKey, id.jmapId][0] == [id'.accountKey, id'.jmapId][0];
      assert [id.accountKey, id.jmapId][1] == [id'.accountKey, id'.jmapId][1];
    }
    if PairKey(pair) == PairKey(pair') {
      CompoundKeyIsInjective([pair.0, pair.1], [pair'.0, pair'.1]);
      assert [pair.0, pair.1][0] == [pair'.0, pair'.1][0] && [pair.0, pair.1][1] == [pair'.0, pair'.1][1];
    }
    if ViewKey(spec) == ViewKey(spec') {
      var parts := [spec.mailboxId.accountKey, spec.mailboxId.jmapId, spec.filterKind, spec.sortProperty, spec.sortDirection];
      var parts' := [spec'.mailboxId.accountKey, spec'.mailboxId.jmapId, spec'.filterKind, spec'.sortProperty, spec'.sortDirection];
      CompoundKeyIsInjective(parts, parts');
      assert parts[0] == parts'[0] && parts[1] == parts'[1] && parts[2] == parts'[2] && parts[3] == parts'[3] && parts[4] == parts'[4];
    }
  }
}
