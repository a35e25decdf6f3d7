/** Small texts of the IMAP protocol: literal announcements and quoted strings, as
    `parse_literal_length` and `push_quoted` of `src-tauri/src/net/imap.rs` treat them. */
module ImapText {
  import opened Base
  import opened Decimals
  import opened RemoteErrors
  import opened ImapLines

  // ---- Literals ----

  /** The position of the last opening brace, -1 if there is none. */
  function LastBrace(s: Bytes): (i: int)
    ensures -1 <= i < |s|
    ensures i >= 0 ==> s[i] == '{'
    ensures forall j :: i < j < |s| ==> s[j] != '{'
  {
    if s == [] then -1
    else if s[|s| - 1] == '{' then |s| - 1
    else LastBrace(s[..|s| - 1])
  }

  function ParseLiteralLength(value: Bytes): Answer<Option<nat>> {
    if value == [] || value[|value| - 1] != '}' || LastBrace(value) == -1 then Success(None)
    else
      var literal := value[LastBrace(value) + 1..|value| - 1];
      if literal == [] || !AllDigits(literal) then Failure(PROTOCOL)
      else if Value(literal) > MAX_IMAP_LITERAL_BYTES then Failure(PROTOCOL)
      else Success(Some(Value(literal)))
  }

  /** A line that announces `n` bytes is read as announcing `n` bytes, or refused if that is
      more than a literal may have; no digit of the number goes elsewhere. */
  lemma AnnouncedLengthIsRead(before: Bytes, n: nat)
    ensures ParseLiteralLength(before + "{" + Decimal(n) + "}")
         == if n <= MAX_IMAP_LITERAL_BYTES then Success(Some(n)) else Failure(PROTOCOL)
  {
    var value := before + "{" + Decimal(n) + "}";
    var digits := Decimal(n);
    assert value[|before|] == '{';
    assert forall j :: 0 <= j < |digits| ==> value[|before| + 1 + j] == digits[j];
    assert LastBrace(value) == |before|;
    assert value[|before| + 1..|value| - 1] == digits;
    ValueOfDecimal(n);
  }

  // ---- Quoted strings ----

  predicate Quotable(value: Bytes) {
    '\r' !in value && '\n' !in value && '\0' !in value
  }

  /** No byte of the value breaks a line or ends a string of C. */
  ghost predicate StaysInString(value: Bytes) {
    forall i :: 0 <= i < |value| ==> value[i] != '\r' && value[i] != '\n' && value[i] != '\0'
  }

  lemma QuotableIff(value: Bytes)
    ensures Quotable(value) <==> StaysInString(value)
  {
    if StaysInString(value) {
      assert forall c <- value :: c != '\r' && c != '\n' && c != '\0';
    }
  }

  function Escaped(value: Bytes): Bytes {
    if value == [] then []
    else
      var before, last := Escaped(value[..|value| - 1]), value[|value| - 1];
      if last == '\\' || last == '"' then before + ['\\', last] else before + [last]
  }

  function Quote(value: Bytes): Answer<Bytes> {
    if Quotable(value) then Success("\"" + Escaped(value) + "\"") else Failure(PROTOCOL)
  }

  method PushQuoted(output: Bytes, value: Bytes) returns (result: Answer<Bytes>)
    ensures result.Success? <==> StaysInString(value)
    ensures result == if Quote(value).Failure? then Failure(PROTOCOL) else Success(output + Quote(value).value)
  {
    QuotableIff(value);
    if !Quotable(value) {
      return Failure(PROTOCOL);
    }
    var text := output + "\"";
    for i := 0 to |value|
      invariant text == output + "\"" + Escaped(value[..i])
    {
      assert value[..i + 1][..i] == value[..i];
      if value[i] == '\\' || value[i] == '"' {
        text := text + ['\\'];
      }
      text := text + [value[i]];
    }
    assert value[..|value|] == value;
    assert text + "\"" == output + ("\"" + Escaped(value) + "\"");
    result := Success(text + "\"");
  }

  /** How a server reads a quoted string (section 4.3 of RFC 3501), after its opening quote: the
      value, and what follows the closing quote. */
  function ReadQuoted(text: Bytes): Option<(Bytes, Bytes)> {
    if text == [] || text[0] in {'\r', '\n', '\0'} then None
    else if text[0] == '"' then Some(([], text[1..]))
    else
      var skip := if text[0] == '\\' then 1 else 0;
      if |text| <= skip || (skip == 1 && text[1] !in {'\\', '"'}) then None
      else
        var rest := ReadQuoted(text[skip + 1..]);
        if rest.None? then None else Some(([text[skip]] + rest.value.0, rest.value.1))
  }

  lemma {:induction false} EscapedFront(value: Bytes)
    requires value != []
    ensures Escaped(value) == Escaped(value[..1]) + Escaped(value[1..])
  {
    if |value| > 1 {
      EscapedFront(value[..|value| - 1]);
      assert value[..|value| - 1][..1] == value[..1];
      assert value[..|value| - 1][1..] == value[1..][..|value[1..]| - 1];
    } else {
      assert value[..1] == value;
    }
  }

  /** Whatever argument is quoted, the server reads back exactly that argument and nothing of
      what follows: no argument can end its string early. */
  lemma {:induction false} QuotedIsReadBack(value: Bytes, rest: Bytes)
    requires StaysInString(value)
    ensures ReadQuoted(Escaped(value) + "\"" + rest) == Some((value, rest))
  {
    if value == [] {
      assert Escaped(value) + "\"" + rest == "\"" + rest;
      assert ("\"" + rest)[1..] == rest;
    } else {
      EscapedFront(value);
      QuotedIsReadBack(value[1..], rest);
      var head, tail := Escaped(value[..1]), Escaped(value[1..]) + "\"" + rest;
      assert value[..1][..0] == [];
      assert head == if value[0] == '\\' || value[0] == '"' then ['\\', value[0]] else [value[0]];
      assert Escaped(value) + "\"" + rest == head + tail;
      assert (head + tail)[|head|..] == tail;
      assert value[0] in value;
      assert value == [value[0]] + value[1..];
    }
  }
}
