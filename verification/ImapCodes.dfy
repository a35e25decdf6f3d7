/** Numbers in the response codes of IMAP: how `select` and `move_message` of
    `src-tauri/src/net/imap.rs` find UIDVALIDITY and the last uid of COPYUID. Words are
    separated by ASCII white space. */
module ImapCodes {
  import opened Base
  import opened Decimals
  import opened ImapLines
  import opened Texts

  const MAX_U32: nat := 0xFFFF_FFFF

  predicate IsSpace(c: char) {
    c == ' ' || c == '\t' || c == '\n' || c == '\r' || c == '\U{0B}' || c == '\U{0C}'
  }

  /** The last of the words of a text, empty if there is none. */
  function LastWord(text: Bytes): Bytes {
    if text == [] then []
    else if IsSpace(text[|text| - 1]) then LastWord(text[..|text| - 1])
    else TrailingWord(text)
  }

  function TrailingWord(text: Bytes): Bytes {
    if text == [] || IsSpace(text[|text| - 1]) then []
    else TrailingWord(text[..|text| - 1]) + [text[|text| - 1]]
  }

  /** `parse::<u32>`: decimal digits, perhaps after a plus sign, of a number that fits. */
  function ParseU32(text: Bytes): Option<nat> {
    var digits := if text != [] && text[0] == '+' then text[1..] else text;
    if digits == [] || !AllDigits(digits) || Value(digits) > MAX_U32 then None else Some(Value(digits))
  }

  /** `bracket_number` */
  function BracketNumber(text: Bytes, key: Bytes): Option<nat> {
    var marker := "[" + key + " ";
    var i := Find(text, marker);
    if i == -1 then None else ParseU32(UpTo(text[i + |marker|..], ']'))
  }

  /** The last word before the first closing bracket. */
  function NumberBeforeBracket(text: Bytes): Option<nat> {
    ParseU32(LastWord(UpTo(text, ']')))
  }

  // ---- A number that is written is read ----

  function IfU32(n: nat): Option<nat> {
    if n <= MAX_U32 then Some(n) else None
  }

  /** A number is read of digits, at least one, perhaps after a plus sign, and of nothing else. */
  lemma ParsedIff(text: Bytes)
    ensures ParseU32(text).Some? <==>
      exists digits :: (text == digits || text == "+" + digits) && digits != "" && AllDigits(digits) && Value(digits) <= MAX_U32
  {
    if digits :| (text == digits || text == "+" + digits) && digits != "" && AllDigits(digits) && Value(digits) <= MAX_U32 {
      assert IsDigit(digits[0]);
      assert ("+" + digits)[1..] == digits;
    }
    if ParseU32(text).Some? && text[0] == '+' {
      assert text == "+" + text[1..];
    }
  }

  /** It is the number that was written, with a plus sign or without. */
  lemma DecimalIsParsed(n: nat)
    ensures ParseU32(Decimal(n)) == IfU32(n) && ParseU32("+" + Decimal(n)) == IfU32(n)
  {
    ValueOfDecimal(n);
    assert IsDigit(Decimal(n)[0]);
    assert ("+" + Decimal(n))[1..] == Decimal(n);
  }

  lemma {:induction false} LastWordIs(before: Bytes, word: Bytes)
    requires word != [] && (forall i :: 0 <= i < |word| ==> !IsSpace(word[i]))
    ensures LastWord(before + " " + word) == word
  {
    var text := before + " " + word;
    assert text[|text| - 1] == word[|word| - 1];
    TrailingWordIs(before, word);
  }

  lemma {:induction false} TrailingWordIs(before: Bytes, word: Bytes)
    requires forall i :: 0 <= i < |word| ==> !IsSpace(word[i])
    ensures TrailingWord(before + " " + word) == word
  {
    var text := before + " " + word;
    if word != [] {
      assert text[..|text| - 1] == before + " " + word[..|word| - 1];
      TrailingWordIs(before, word[..|word| - 1]);
    } else {
      assert text[|text| - 1] == ' ';
    }
  }

  /** A code in brackets, the first on its line, is read with its very number, unless that
      does not fit. */
  lemma BracketNumberIsRead(before: Bytes, key: Bytes, n: nat, rest: Bytes)
    requires '[' !in before
    ensures BracketNumber(before + "[" + key + " " + Decimal(n) + "]" + rest, key) == IfU32(n)
  {
    var marker := "[" + key + " ";
    var text := before + "[" + key + " " + Decimal(n) + "]" + rest;
    assert text == before + marker + (Decimal(n) + "]" + rest);
    MarkerIsFirst(before, marker, Decimal(n) + "]" + rest);
    assert ']' !in Decimal(n);
    UpToIs(Decimal(n), ']', rest);
    DecimalIsParsed(n);
  }

  /** The last number of a code, before the first bracket that closes, likewise. */
  lemma LastNumberIsRead(before: Bytes, n: nat, rest: Bytes)
    requires ']' !in before
    ensures NumberBeforeBracket(before + " " + Decimal(n) + "]" + rest) == IfU32(n)
  {
    assert ']' !in Decimal(n);
    UpToIs(before + " " + Decimal(n), ']', rest);
    LastWordIs(before, Decimal(n));
    DecimalIsParsed(n);
  }
}
