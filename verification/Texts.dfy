/** Where a text has what is looked for in it. */
module Texts {

  predicate OccursAt(text: string, marker: string, i: nat) {
    i + |marker| <= |text| && text[i..i + |marker|] == marker
  }

  /** Where `marker` occurs first, -1 if it does not. */
  function Find(text: string, marker: string): (i: int)
    ensures -1 <= i
    ensures i >= 0 ==> OccursAt(text, marker, i)
    ensures forall j: nat :: OccursAt(text, marker, j) ==> 0 <= i <= j
  {
    if marker <= text then assert OccursAt(text, marker, 0); 0
    else if text == [] then -1
    else
      var rest := Find(text[1..], marker);
      assert forall j: nat :: j > 0 && OccursAt(text, marker, j) ==> OccursAt(text[1..], marker, j - 1);
      assert rest >= 0 ==> text[rest + 1..rest + 1 + |marker|] == text[1..][rest..rest + |marker|];
      if rest == -1 then -1 else rest + 1
  }

  function UpTo(text: string, c: char): (before: string)
    ensures before <= text && c !in before
  {
    if text == [] || text[0] == c then [] else [text[0]] + UpTo(text[1..], c)
  }

  lemma {:induction false} UpToIs(before: string, c: char, rest: string)
    requires c !in before
    ensures UpTo(before + [c] + rest, c) == before
  {
    if before != [] {
      assert (before + [c] + rest)[1..] == before[1..] + [c] + rest;
      UpToIs(before[1..], c, rest);
    }
  }

  /** A marker whose first character does not come before it is found where it is. */
  lemma MarkerIsFirst(before: string, marker: string, after: string)
    requires marker != [] && marker[0] !in before
    ensures var text := before + marker + after;
            Find(text, marker) == |before| && text[|before| + |marker|..] == after
  {
    var text := before + marker + after;
    assert OccursAt(text, marker, |before|);
    forall j: nat | j < |before|
      ensures !OccursAt(text, marker, j)
    {
      assert text[j] == before[j];
      assert text[j..j + |marker|][0] == text[j];
    }
  }
}
