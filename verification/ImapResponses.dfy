/** What a server's bytes say in answer to a command: the reading side of
    `command_with_outcome`, `select`, `store_flags` and `move_message` of
    `src-tauri/src/net/imap.rs`, as functions of the bytes, against the bytes that a server sends
    (RFC 3501). */
module ImapResponses {
  import opened Base
  import opened Decimals
  import opened RemoteErrors
  import opened ImapLines
  import opened ImapText
  import opened ImapCodes
  import opened Texts

  datatype ResponseLine = ResponseLine(text: Bytes, literal: Option<Bytes>)

  /** What the line that carries the command's own tag says. */
  datatype Verdict = NoVerdict | Confirmed | Refused | Unclear

  function MutationOutcome(error: RemoteError, mutation: bool): RemoteError {
    if mutation then error.(retry := Reconcile, outcome := Unknown) else error
  }

  function FirstWord(text: Bytes): Bytes {
    if text == [] then []
    else if IsSpace(text[0]) then FirstWord(text[1..])
    else WordPrefix(text)
  }

  function WordPrefix(text: Bytes): Bytes {
    if text == [] || IsSpace(text[0]) then [] else [text[0]] + WordPrefix(text[1..])
  }

  function VerdictOf(tag: Bytes, text: Bytes): Verdict {
    if !(tag + " " <= text) then NoVerdict
    else
      var word := FirstWord(text[|tag| + 1..]);
      if word == "OK" then Confirmed else if word == "NO" || word == "BAD" then Refused else Unclear
  }

  function TextBytes(lines: seq<ResponseLine>): nat {
    if lines == [] then 0 else TextBytes(lines[..|lines| - 1]) + |lines[|lines| - 1].text|
  }

  function LiteralBytes(lines: seq<ResponseLine>): nat {
    if lines == [] then 0
    else LiteralBytes(lines[..|lines| - 1]) +
         if lines[|lines| - 1].literal.Some? then |lines[|lines| - 1].literal.value| else 0
  }

  datatype Budget = Budget(lines: nat, text: nat, literals: nat)
  {
    predicate Kept() {
      lines <= MAX_IMAP_RESPONSE_LINES && text <= MAX_IMAP_RESPONSE_TEXT_BYTES && literals <= MAX_IMAP_LITERAL_BYTES
    }
  }

  /** The budget after one more line of text, unless that is too much. */
  function Accounted(b: Budget, text: Bytes): Option<Budget> {
    if b.lines + 1 > MAX_IMAP_RESPONSE_LINES || b.text + |text| > MAX_IMAP_RESPONSE_TEXT_BYTES then None
    else Some(b.(lines := b.lines + 1, text := b.text + |text|))
  }

  // ---- A response, as a function of the bytes alone ----

  function AfterLine(bytes: Bytes): Bytes {
    bytes[LineLength(bytes)..]
  }

  datatype Literal = Literal(value: Bytes, budget: Budget, rest: Bytes)

  /** A literal of the announced length and the line that closes it. */
  function LiteralIn(bytes: Bytes, length: nat, b: Budget, utf8: Bytes -> bool): (r: Answer<Literal>)
    ensures r.Success? ==> r.value.budget.lines == b.lines + 1 && (b.Kept() ==> r.value.budget.Kept())
    ensures r.Success? ==> r.value.budget.literals == b.literals + length && |r.value.value| == length
    ensures r.Success? ==> r.value.budget.text >= b.text
  {
    if b.literals + length > MAX_IMAP_LITERAL_BYTES then Failure(PROTOCOL)
    else if length > |bytes| then Failure(UNAVAILABLE)
    else
      var trailer := LineResult(bytes[length..], utf8);
      if trailer.Failure? then Failure(trailer.error)
      else
        var accounted := Accounted(b.(literals := b.literals + length), trailer.value);
        if accounted.None? || trailer.value != ")" then Failure(PROTOCOL)
        else Success(Literal(bytes[..length], accounted.value, AfterLine(bytes[length..])))
  }

  /** A command's outcome, the lines before the tagged one, and what follows a confirmation. */
  datatype Response = Response(lines: Answer<seq<ResponseLine>>, verdict: Verdict, rest: Bytes)

  function Broken(error: RemoteError, verdict: Verdict): Response {
    Response(Failure(error), verdict, [])
  }

  /** What the next line comes to: the end of the response, or a line that goes before it. */
  datatype Reading = Done(response: Response) | Next(line: ResponseLine, rest: Bytes, budget: Budget)

  function NextLine(bytes: Bytes, tag: Bytes, utf8: Bytes -> bool, b: Budget, lines: seq<ResponseLine>): (r: Reading)
    ensures r.Next? ==> b.lines < r.budget.lines <= MAX_IMAP_RESPONSE_LINES
  {
    var text := LineResult(bytes, utf8);
    if text.Failure? then Done(Broken(text.error, NoVerdict))
    else
      var accounted := Accounted(b, text.value);
      var announced := ParseLiteralLength(text.value);
      if accounted.None? || announced.Failure? then Done(Broken(PROTOCOL, NoVerdict))
      else
        var literal := if announced.value.None? then Success(Literal([], accounted.value, AfterLine(bytes)))
                       else LiteralIn(AfterLine(bytes), announced.value.value, accounted.value, utf8);
        if literal.Failure? then Done(Broken(literal.error, NoVerdict))
        else match VerdictOf(tag, text.value)
          case Confirmed => Done(Response(Success(lines), Confirmed, literal.value.rest))
          case Refused => Done(Broken(REJECTED, Refused))
          case Unclear => Done(Broken(PROTOCOL, Unclear))
          case NoVerdict =>
            var line := ResponseLine(text.value, if announced.value.None? then None else Some(literal.value.value));
            Next(line, literal.value.rest, literal.value.budget)
  }

  /** All lines up to the tagged one, whose verdict decides. */
  function ResponseIn(bytes: Bytes, tag: Bytes, utf8: Bytes -> bool, b: Budget, lines: seq<ResponseLine>): Response
    decreases MAX_IMAP_RESPONSE_LINES - b.lines
  {
    match NextLine(bytes, tag, utf8, b, lines)
    case Done(response) => response
    case Next(line, rest, budget) => ResponseIn(rest, tag, utf8, budget, lines + [line])
  }

  function ResponseTo(bytes: Bytes, tag: Bytes, utf8: Bytes -> bool): Response {
    ResponseIn(bytes, tag, utf8, Budget(0, 0, 0), [])
  }

  /** What the caller of a command gets: a mutation's failure is uncertain unless it was refused. */
  function Reported(r: Response, mutation: bool): Response {
    if r.lines.Failure? && !r.verdict.Refused? then r.(lines := Failure(MutationOutcome(r.lines.error, mutation))) else r
  }

  /** What a command comes to, by the bytes that the server sends once it is written. */
  function ResponseOf(bytes: Bytes, writes: Writes, tag: Bytes, utf8: Bytes -> bool, mutation: bool): Response {
    Reported(if Written(writes) then ResponseTo(bytes, tag, utf8) else Broken(UNAVAILABLE, NoVerdict), mutation)
  }

  /** Any bytes whatever are a response within the limits, or a failure of one of three kinds. */
  lemma {:induction false} ResponseIsBounded(bytes: Bytes, tag: Bytes, utf8: Bytes -> bool, b: Budget,
                                             lines: seq<ResponseLine>)
    requires b.Kept() && |lines| <= b.lines && TextBytes(lines) <= b.text && LiteralBytes(lines) <= b.literals
    ensures var r := ResponseIn(bytes, tag, utf8, b, lines);
            if r.lines.Success? then
              && r.verdict.Confirmed? && |r.lines.value| < MAX_IMAP_RESPONSE_LINES
              && TextBytes(r.lines.value) <= MAX_IMAP_RESPONSE_TEXT_BYTES
              && LiteralBytes(r.lines.value) <= MAX_IMAP_LITERAL_BYTES
            else if r.verdict.Refused? then r.lines.error == REJECTED
            else !r.verdict.Confirmed? && r.lines.error in {PROTOCOL, UNAVAILABLE}
    decreases MAX_IMAP_RESPONSE_LINES - b.lines
  {
    NextLineIsBounded(bytes, tag, utf8, b, lines);
    match NextLine(bytes, tag, utf8, b, lines)
    case Done(_) =>
    case Next(line, rest, budget) =>
      assert (lines + [line])[..|lines|] == lines;
      ResponseIsBounded(rest, tag, utf8, budget, lines + [line]);
  }

  lemma NextLineIsBounded(bytes: Bytes, tag: Bytes, utf8: Bytes -> bool, b: Budget, lines: seq<ResponseLine>)
    requires b.Kept() && |lines| <= b.lines
    ensures match NextLine(bytes, tag, utf8, b, lines)
      case Next(line, _, budget) =>
        && budget.Kept() && budget.lines > b.lines && b.text + |line.text| <= budget.text
        && b.literals + (if line.literal.Some? then |line.literal.value| else 0) <= budget.literals
      case Done(r) =>
        if r.lines.Success? then r == Response(Success(lines), Confirmed, r.rest) && |lines| < MAX_IMAP_RESPONSE_LINES
        else if r.verdict.Refused? then r.lines.error == REJECTED
        else !r.verdict.Confirmed? && r.lines.error in {PROTOCOL, UNAVAILABLE}
  {
  }

  // ---- What the responses to SELECT and UID MOVE say ----

  /** The first line that gives a UIDVALIDITY. */
  function UidValidityIn(lines: seq<ResponseLine>): Option<nat> {
    if lines == [] then None
    else
      var number := BracketNumber(lines[0].text, "UIDVALIDITY");
      if number.Some? then number else UidValidityIn(lines[1..])
  }

  /** The first line with a COPYUID decides; the new uid is its last number. */
  function CopiedUidIn(lines: seq<ResponseLine>): Option<nat> {
    if lines == [] then None
    else if Find(lines[0].text, "[COPYUID ") != -1 then NumberBeforeBracket(lines[0].text)
    else CopiedUidIn(lines[1..])
  }

  function SelectedBy(lines: Answer<seq<ResponseLine>>): Answer<nat> {
    if lines.Failure? then Failure(lines.error)
    else
      var number := UidValidityIn(lines.value);
      if number.None? then Failure(PROTOCOL) else Success(number.value)
  }

  function MovedBy(lines: Answer<seq<ResponseLine>>): Answer<nat> {
    if lines.Failure? then Failure(lines.error)
    else
      var uid := CopiedUidIn(lines.value);
      if uid.None? then Failure(MutationOutcome(PROTOCOL, true)) else Success(uid.value)
  }

  /** What selecting a mailbox comes to. */
  function SelectIn(bytes: Bytes, writes: Writes, tag: Bytes, utf8: Bytes -> bool, mailbox: Bytes): Answer<nat> {
    if !Quotable(mailbox) then Failure(PROTOCOL) else SelectedBy(ResponseOf(bytes, writes, tag, utf8, false).lines)
  }

  /** The first part of a change: the mailbox must be the one that the change is meant for. */
  function SelectionError(selected: Answer<nat>, expectedUidValidity: nat): Option<RemoteError> {
    if selected.Failure? then Some(selected.error)
    else if selected.value != expectedUidValidity then Some(STATE_INVALID)
    else None
  }

  /** What moving a message comes to, by the bytes that the server sends for the two commands. */
  function MoveIn(bytes: Bytes, writes: Writes, tags: seq<Bytes>, utf8: Bytes -> bool, expectedUidValidity: nat,
                  mailbox: Bytes, destination: Bytes): Answer<nat>
    requires |tags| == 2
  {
    var error := SelectionError(SelectIn(bytes, writes, tags[0], utf8, mailbox), expectedUidValidity);
    if error.Some? then Failure(error.value)
    else if !Quotable(destination) then Failure(PROTOCOL)
    else
      var rest := ResponseOf(bytes, writes, tags[0], utf8, false).rest;
      MovedBy(ResponseOf(rest, Later(writes), tags[1], utf8, true).lines)
  }

  /** The stores of a list of flag changes, one command each: the first that is not confirmed ends
      them, and is uncertain if an earlier one was applied. */
  function StoresIn(bytes: Bytes, writes: Writes, tags: seq<Bytes>, utf8: Bytes -> bool, applied: bool): Answer<()>
    decreases |tags|
  {
    if tags == [] then Success(())
    else
      var response := ResponseOf(bytes, writes, tags[0], utf8, true);
      if response.lines.Failure? then Failure(MutationOutcome(response.lines.error, applied))
      else StoresIn(response.rest, Later(writes), tags[1..], utf8, true)
  }

  function FlagsIn(bytes: Bytes, writes: Writes, tags: seq<Bytes>, utf8: Bytes -> bool, expectedUidValidity: nat,
                   mailbox: Bytes): Answer<()>
    requires tags != []
  {
    var error := SelectionError(SelectIn(bytes, writes, tags[0], utf8, mailbox), expectedUidValidity);
    if error.Some? then Failure(error.value)
    else StoresIn(ResponseOf(bytes, writes, tags[0], utf8, false).rest, Later(writes), tags[1..], utf8, false)
  }

  /** The first line with a bracket decides. */
  lemma {:induction false} CodeIsFound(lines: seq<ResponseLine>, k: nat)
    requires k < |lines| && forall i :: 0 <= i < k ==> '[' !in lines[i].text
    ensures BracketNumber(lines[k].text, "UIDVALIDITY").Some? ==>
              UidValidityIn(lines) == BracketNumber(lines[k].text, "UIDVALIDITY")
    ensures Find(lines[k].text, "[COPYUID ") != -1 ==> CopiedUidIn(lines) == NumberBeforeBracket(lines[k].text)
  {
    if k > 0 {
      NoCodeWithoutBracket(lines[0].text, "[UIDVALIDITY ");
      NoCodeWithoutBracket(lines[0].text, "[COPYUID ");
      assert "[" + "UIDVALIDITY" + " " == "[UIDVALIDITY ";
      CodeIsFound(lines[1..], k - 1);
    }
  }

  lemma NoCodeWithoutBracket(text: Bytes, marker: Bytes)
    requires '[' !in text && marker != [] && marker[0] == '['
    ensures Find(text, marker) == -1
  {
    forall i: nat
      ensures !OccursAt(text, marker, i)
    {
      assert i + |marker| <= |text| ==> text[i..i + |marker|][0] == text[i];
    }
  }

  // ---- What a server sends ----

  function Terminated(text: Bytes): Bytes {
    text + "\r\n"
  }

  /** A line of text within the limit of one line. */
  predicate IsText(text: Bytes, utf8: Bytes -> bool) {
    && utf8(text) && |text| + 2 <= MAX_IMAP_LINE_BYTES
    && '\n' !in text && (text == [] || text[|text| - 1] != '\r')
  }

  lemma LineIsRead(text: Bytes, rest: Bytes, utf8: Bytes -> bool)
    requires IsText(text, utf8)
    ensures LineResult(Terminated(text) + rest, utf8) == Success(text) && AfterLine(Terminated(text) + rest) == rest
  {
    assert Terminated(text) + rest == text + Returns(1) + "\n" + rest;
    LineIsDecided(text, 1, rest, utf8);
  }

  /** An untagged line, with the literal it announces if there is one. */
  predicate Sendable(line: ResponseLine, tag: Bytes, utf8: Bytes -> bool) {
    && IsText(line.text, utf8) && !(tag + " " <= line.text)
    && match line.literal
       case None => line.text == [] || line.text[|line.text| - 1] != '}'
       case Some(value) => utf8(")") && exists n: nat :: n <= |line.text| && line.text == line.text[..n] + "{" + Decimal(|value|) + "}"
  }

  function SentLine(line: ResponseLine): Bytes {
    Terminated(line.text) + if line.literal.Some? then line.literal.value + Terminated(")") else []
  }

  function SentLines(lines: seq<ResponseLine>): Bytes {
    if lines == [] then [] else SentLine(lines[0]) + SentLines(lines[1..])
  }

  /** What a line takes of the limits, a literal with the line that closes it. */
  function SpentOn(b: Budget, line: ResponseLine): Budget {
    match line.literal
    case None => Budget(b.lines + 1, b.text + |line.text|, b.literals)
    case Some(value) => Budget(b.lines + 2, b.text + |line.text| + 1, b.literals + |value|)
  }

  function Spent(b: Budget, lines: seq<ResponseLine>): Budget
    decreases |lines|
  {
    if lines == [] then b else Spent(SpentOn(b, lines[0]), lines[1..])
  }

  lemma {:induction false} SpentGrows(b: Budget, lines: seq<ResponseLine>)
    ensures b.lines <= Spent(b, lines).lines && b.text <= Spent(b, lines).text && b.literals <= Spent(b, lines).literals
    decreases |lines|
  {
    if lines != [] {
      SpentGrows(SpentOn(b, lines[0]), lines[1..]);
    }
  }

  lemma LiteralIsRead(value: Bytes, rest: Bytes, b: Budget, utf8: Bytes -> bool)
    requires utf8(")") && b.lines + 1 <= MAX_IMAP_RESPONSE_LINES && b.text + 1 <= MAX_IMAP_RESPONSE_TEXT_BYTES
    requires b.literals + |value| <= MAX_IMAP_LITERAL_BYTES
    ensures LiteralIn(value + Terminated(")") + rest, |value|, b, utf8) ==
            Success(Literal(value, Budget(b.lines + 1, b.text + 1, b.literals + |value|), rest))
  {
    var bytes := value + Terminated(")") + rest;
    assert bytes[|value|..] == Terminated(")") + rest && bytes[..|value|] == value;
    LineIsRead(")", rest, utf8);
  }

  // ---- One step of reading ----

  predicate LineFirst(bytes: Bytes, utf8: Bytes -> bool, text: Bytes, after: Bytes) {
    LineResult(bytes, utf8) == Success(text) && AfterLine(bytes) == after
  }

  /** The line's text ends as the server says whether a literal follows. */
  lemma AnnouncementIsRead(line: ResponseLine, tag: Bytes, utf8: Bytes -> bool)
    requires Sendable(line, tag, utf8)
    requires line.literal.Some? ==> |line.literal.value| <= MAX_IMAP_LITERAL_BYTES
    ensures ParseLiteralLength(line.text) == Success(if line.literal.None? then None else Some(|line.literal.value|))
  {
    if line.literal.Some? {
      var value := line.literal.value;
      var n: nat :| n <= |line.text| && line.text == line.text[..n] + "{" + Decimal(|value|) + "}";
      AnnouncedLengthIsRead(line.text[..n], |value|);
    }
  }

  /** What follows the line's text: its literal and the line that closes it, or the next line. */
  function Continued(line: ResponseLine, after: Bytes): Bytes {
    if line.literal.Some? then line.literal.value + Terminated(")") + after else after
  }

  lemma TextIsFirst(line: ResponseLine, bytes: Bytes, after: Bytes, utf8: Bytes -> bool)
    requires IsText(line.text, utf8) && bytes == SentLine(line) + after
    ensures LineFirst(bytes, utf8, line.text, Continued(line, after))
  {
    assert bytes == Terminated(line.text) + Continued(line, after);
    LineIsRead(line.text, Continued(line, after), utf8);
  }

  lemma NextIsLine(line: ResponseLine, bytes: Bytes, rest: Bytes, after: Bytes, tag: Bytes, utf8: Bytes -> bool, b: Budget,
                   seen: seq<ResponseLine>)
    requires LineFirst(bytes, utf8, line.text, rest) && VerdictOf(tag, line.text).NoVerdict?
    requires Accounted(b, line.text) == Some(Budget(b.lines + 1, b.text + |line.text|, b.literals))
    requires ParseLiteralLength(line.text) == Success(if line.literal.None? then None else Some(|line.literal.value|))
    requires if line.literal.None? then rest == after
             else (LiteralIn(rest, |line.literal.value|, Budget(b.lines + 1, b.text + |line.text|, b.literals), utf8)
                   == Success(Literal(line.literal.value, SpentOn(b, line), after)))
    ensures NextLine(bytes, tag, utf8, b, seen) == Next(line, after, SpentOn(b, line))
  {
  }

  lemma NextIsStatus(bytes: Bytes, text: Bytes, after: Bytes, tag: Bytes, utf8: Bytes -> bool, b: Budget,
                     seen: seq<ResponseLine>)
    requires LineFirst(bytes, utf8, text, after)
    requires Accounted(b, text).Some? && ParseLiteralLength(text) == Success(None)
    ensures var r := NextLine(bytes, tag, utf8, b, seen);
      match VerdictOf(tag, text)
      case Confirmed => r == Done(Response(Success(seen), Confirmed, after))
      case Refused => r == Done(Broken(REJECTED, Refused))
      case Unclear => r == Done(Broken(PROTOCOL, Unclear))
      case NoVerdict => true
  {
  }

  lemma UntaggedIsAccounted(line: ResponseLine, tag: Bytes, utf8: Bytes -> bool, b: Budget)
    requires Sendable(line, tag, utf8) && SpentOn(b, line).Kept()
    ensures VerdictOf(tag, line.text).NoVerdict?
    ensures Accounted(b, line.text) == Some(Budget(b.lines + 1, b.text + |line.text|, b.literals))
  {
  }

  lemma ContinuationIsRead(line: ResponseLine, after: Bytes, tag: Bytes, utf8: Bytes -> bool, b: Budget)
    requires Sendable(line, tag, utf8) && SpentOn(b, line).Kept() && line.literal.Some?
    ensures LiteralIn(Continued(line, after), |line.literal.value|,
                      Budget(b.lines + 1, b.text + |line.text|, b.literals), utf8)
         == Success(Literal(line.literal.value, SpentOn(b, line), after))
  {
    LiteralIsRead(line.literal.value, after, Budget(b.lines + 1, b.text + |line.text|, b.literals), utf8);
  }

  /** One untagged line of an answer is read as it was sent, and the reading goes on after it. */
  lemma UntaggedIsRead(line: ResponseLine, bytes: Bytes, after: Bytes, tag: Bytes, utf8: Bytes -> bool, b: Budget,
                       seen: seq<ResponseLine>)
    requires Sendable(line, tag, utf8) && SpentOn(b, line).Kept() && bytes == SentLine(line) + after
    ensures NextLine(bytes, tag, utf8, b, seen) == Next(line, after, SpentOn(b, line))
  {
    TextIsFirst(line, bytes, after, utf8);
    AnnouncementIsRead(line, tag, utf8);
    UntaggedIsAccounted(line, tag, utf8, b);
    if line.literal.Some? {
      ContinuationIsRead(line, after, tag, utf8, b);
    }
    NextIsLine(line, bytes, Continued(line, after), after, tag, utf8, b, seen);
  }

  lemma ReadingGoesOn(line: ResponseLine, bytes: Bytes, after: Bytes, tag: Bytes, utf8: Bytes -> bool, b: Budget,
                      budget: Budget, seen: seq<ResponseLine>)
    requires NextLine(bytes, tag, utf8, b, seen) == Next(line, after, budget)
    ensures ResponseIn(bytes, tag, utf8, b, seen) == ResponseIn(after, tag, utf8, budget, seen + [line])
  {
  }

  lemma {:induction false} UntaggedAreRead(lines: seq<ResponseLine>, bytes: Bytes, after: Bytes, tag: Bytes,
                                           utf8: Bytes -> bool, b: Budget, seen: seq<ResponseLine>)
    requires forall i :: 0 <= i < |lines| ==> Sendable(lines[i], tag, utf8)
    requires Spent(b, lines).Kept() && bytes == SentLines(lines) + after
    ensures ResponseIn(bytes, tag, utf8, b, seen) == ResponseIn(after, tag, utf8, Spent(b, lines), seen + lines)
    decreases |lines|
  {
    if lines == [] {
      assert bytes == after && seen + lines == seen;
    } else {
      var rest := SentLines(lines[1..]) + after;
      SentOneByOne(lines, after);
      SpentGrows(SpentOn(b, lines[0]), lines[1..]);
      UntaggedIsRead(lines[0], bytes, rest, tag, utf8, b, seen);
      ReadingGoesOn(lines[0], bytes, rest, tag, utf8, b, SpentOn(b, lines[0]), seen);
      UntaggedAreRead(lines[1..], rest, after, tag, utf8, SpentOn(b, lines[0]), seen + [lines[0]]);
      SeenOneByOne(seen, lines);
    }
  }

  lemma SentOneByOne(lines: seq<ResponseLine>, after: Bytes)
    requires lines != []
    ensures SentLines(lines) + after == SentLine(lines[0]) + (SentLines(lines[1..]) + after)
  {
  }

  lemma SeenOneByOne(seen: seq<ResponseLine>, lines: seq<ResponseLine>)
    requires lines != []
    ensures seen + lines == seen + [lines[0]] + lines[1..]
  {
  }

  /** A whole answer: untagged lines, the line with the tag, its first word after perhaps more
      white space, what follows the word, and the bytes of whatever the server sends next. */
  datatype ServerAnswer = ServerAnswer(lines: seq<ResponseLine>, gap: Bytes, word: Bytes, comment: Bytes, rest: Bytes)
  {
    function Status(tag: Bytes): Bytes {
      tag + " " + (gap + (word + comment))
    }

    /** The word is one word, or there is none. */
    predicate Worded() {
      && (forall i :: 0 <= i < |gap| ==> IsSpace(gap[i])) && (forall i :: 0 <= i < |word| ==> !IsSpace(word[i]))
      && (comment == [] || (word != [] && IsSpace(comment[0])))
    }

    function Sent(tag: Bytes): Bytes {
      SentLines(lines) + (Terminated(Status(tag)) + rest)
    }

    predicate Proper(tag: Bytes, utf8: Bytes -> bool) {
      && (forall i :: 0 <= i < |lines| ==> Sendable(lines[i], tag, utf8))
      && Worded() && IsText(Status(tag), utf8) && Status(tag)[|Status(tag)| - 1] != '}'
      && var spent := Spent(Budget(0, 0, 0), lines);
      && spent.lines + 1 <= MAX_IMAP_RESPONSE_LINES
      && spent.text + |Status(tag)| <= MAX_IMAP_RESPONSE_TEXT_BYTES
      && spent.literals <= MAX_IMAP_LITERAL_BYTES
    }
  }

  lemma {:induction false} WordIsRead(word: Bytes, comment: Bytes)
    requires (forall i :: 0 <= i < |word| ==> !IsSpace(word[i])) && (comment == [] || IsSpace(comment[0]))
    ensures WordPrefix(word + comment) == word
  {
    if word != [] {
      assert (word + comment)[1..] == word[1..] + comment;
      WordIsRead(word[1..], comment);
    } else {
      assert word + comment == comment;
    }
  }

  lemma {:induction false} GapIsSkipped(gap: Bytes, text: Bytes)
    requires forall i :: 0 <= i < |gap| ==> IsSpace(gap[i])
    ensures FirstWord(gap + text) == FirstWord(text)
  {
    if gap != [] {
      assert (gap + text)[1..] == gap[1..] + text;
      GapIsSkipped(gap[1..], text);
    } else {
      assert gap + text == text;
    }
  }

  /** The status line decides: OK confirms, NO and BAD refuse, anything else is unclear; the lines
      before it are the answer's lines, and what follows it is left. */
  lemma AnswerIsRead(a: ServerAnswer, tag: Bytes, utf8: Bytes -> bool)
    requires a.Proper(tag, utf8)
    ensures ResponseTo(a.Sent(tag), tag, utf8) ==
            if a.word == "OK" then Response(Success(a.lines), Confirmed, a.rest)
            else if a.word == "NO" || a.word == "BAD" then Response(Failure(REJECTED), Refused, [])
            else Response(Failure(PROTOCOL), Unclear, [])
  {
    var start := Budget(0, 0, 0);
    var after := Terminated(a.Status(tag)) + a.rest;
    UntaggedAreRead(a.lines, a.Sent(tag), after, tag, utf8, start, []);
    assert [] + a.lines == a.lines;
    StatusIsRead(a, tag, utf8);
  }

  lemma VerdictIsRead(a: ServerAnswer, tag: Bytes)
    requires a.Worded()
    ensures VerdictOf(tag, a.Status(tag)) ==
            if a.word == "OK" then Confirmed else if a.word == "NO" || a.word == "BAD" then Refused else Unclear
  {
    var text := a.gap + (a.word + a.comment);
    assert a.Status(tag)[..|tag| + 1] == tag + " " && a.Status(tag)[|tag| + 1..] == text;
    GapIsSkipped(a.gap, a.word + a.comment);
    WordIsRead(a.word, a.comment);
    assert FirstWord(a.word + a.comment) == a.word by {
      assert a.word != [] ==> (a.word + a.comment)[0] == a.word[0];
      assert a.word == [] ==> a.word + a.comment == [];
    }
  }

  lemma StatusIsRead(a: ServerAnswer, tag: Bytes, utf8: Bytes -> bool)
    requires a.Proper(tag, utf8)
    ensures ResponseIn(Terminated(a.Status(tag)) + a.rest, tag, utf8, Spent(Budget(0, 0, 0), a.lines), a.lines) ==
            if a.word == "OK" then Response(Success(a.lines), Confirmed, a.rest)
            else if a.word == "NO" || a.word == "BAD" then Response(Failure(REJECTED), Refused, [])
            else Response(Failure(PROTOCOL), Unclear, [])
  {
    var status := a.Status(tag);
    LineIsRead(status, a.rest, utf8);
    VerdictIsRead(a, tag);
    NextIsStatus(Terminated(status) + a.rest, status, a.rest, tag, utf8, Spent(Budget(0, 0, 0), a.lines), a.lines);
  }

  // ---- The numbers in an answer ----

  /** The first line with a code, at `k`, has this UIDVALIDITY (section 7.1 of RFC 3501). */
  ghost predicate TellsUidValidity(lines: seq<ResponseLine>, k: nat, n: nat) {
    && k < |lines| && n <= MAX_U32 && (forall i :: 0 <= i < k ==> '[' !in lines[i].text)
    && exists before: Bytes, after: Bytes ::
         '[' !in before && lines[k].text == before + "[" + "UIDVALIDITY" + " " + Decimal(n) + "]" + after
  }

  /** It has the COPYUID of one message (section 3 of RFC 4315), with this new uid. */
  ghost predicate TellsCopyUid(lines: seq<ResponseLine>, k: nat, n: nat) {
    && k < |lines| && n <= MAX_U32 && (forall i :: 0 <= i < k ==> '[' !in lines[i].text)
    && exists before: Bytes, ids: Bytes, after: Bytes ::
         '[' !in before && ']' !in before && ']' !in ids
         && lines[k].text == before + "[COPYUID " + (ids + " " + Decimal(n) + "]" + after)
  }

  lemma UidValidityIsFound(lines: seq<ResponseLine>, k: nat, n: nat)
    requires TellsUidValidity(lines, k, n)
    ensures UidValidityIn(lines) == Some(n)
  {
    var before: Bytes, after: Bytes :|
      '[' !in before && lines[k].text == before + "[" + "UIDVALIDITY" + " " + Decimal(n) + "]" + after;
    BracketNumberIsRead(before, "UIDVALIDITY", n, after);
    CodeIsFound(lines, k);
  }

  lemma CopyUidIsFound(lines: seq<ResponseLine>, k: nat, n: nat)
    requires TellsCopyUid(lines, k, n)
    ensures CopiedUidIn(lines) == Some(n)
  {
    var before: Bytes, ids: Bytes, after: Bytes :|
      '[' !in before && ']' !in before && ']' !in ids
      && lines[k].text == before + "[COPYUID " + (ids + " " + Decimal(n) + "]" + after);
    MarkerIsFirst(before, "[COPYUID ", ids + " " + Decimal(n) + "]" + after);
    CopyUidNumber(lines[k].text, n, before, ids, after);
    CodeIsFound(lines, k);
  }

  /** What the caller of a command should be told. */
  ghost predicate Told(a: ServerAnswer, written: bool, mutation: bool, result: Answer<seq<ResponseLine>>, verdict: Verdict) {
    if !written then result == Failure(MutationOutcome(UNAVAILABLE, mutation)) && verdict == NoVerdict
    else if a.word == "OK" then result == Success(a.lines) && verdict == Confirmed
    else if a.word == "NO" || a.word == "BAD" then result == Failure(REJECTED) && verdict == Refused
    else result == Failure(MutationOutcome(PROTOCOL, mutation)) && verdict == Unclear
  }

  lemma ResponseIsTold(a: ServerAnswer, writes: Writes, tag: Bytes, utf8: Bytes -> bool, mutation: bool)
    requires a.Proper(tag, utf8)
    ensures var r := ResponseOf(a.Sent(tag), writes, tag, utf8, mutation);
            Told(a, Written(writes), mutation, r.lines, r.verdict) && (r.lines.Success? ==> r.rest == a.rest)
  {
    AnswerIsRead(a, tag, utf8);
  }

  /** If the bytes are an answer, whatever one, the caller is told what it says. */
  ghost predicate Understood(bytes: Bytes, writes: Writes, tag: Bytes, utf8: Bytes -> bool, mutation: bool,
                             result: Answer<seq<ResponseLine>>, verdict: Verdict) {
    forall a: ServerAnswer :: a.Proper(tag, utf8) && bytes == a.Sent(tag) ==> Told(a, Written(writes), mutation, result, verdict)
  }

  lemma ResponseIsUnderstood(bytes: Bytes, writes: Writes, tag: Bytes, utf8: Bytes -> bool, mutation: bool)
    ensures var r := ResponseOf(bytes, writes, tag, utf8, mutation);
            Understood(bytes, writes, tag, utf8, mutation, r.lines, r.verdict)
  {
    forall a: ServerAnswer | a.Proper(tag, utf8) && bytes == a.Sent(tag)
      ensures var r := ResponseOf(bytes, writes, tag, utf8, mutation);
              Told(a, Written(writes), mutation, r.lines, r.verdict)
    {
      ResponseIsTold(a, writes, tag, utf8, mutation);
    }
  }

  /** A server that selects a mailbox under any UIDVALIDITY is understood, whatever lines without a
      code it sends before. */
  lemma SelectedIsRead(a: ServerAnswer, writes: Writes, tag: Bytes, utf8: Bytes -> bool, mailbox: Bytes, k: nat, n: nat)
    requires a.Proper(tag, utf8) && a.word == "OK" && TellsUidValidity(a.lines, k, n)
    requires Written(writes) && StaysInString(mailbox)
    ensures SelectIn(a.Sent(tag), writes, tag, utf8, mailbox) == Success(n)
  {
    QuotableIff(mailbox);
    ResponseIsTold(a, writes, tag, utf8, false);
    UidValidityIsFound(a.lines, k, n);
  }

  /** So is one that answers a move with a COPYUID. */
  lemma MovedIsRead(a: ServerAnswer, writes: Writes, tag: Bytes, utf8: Bytes -> bool, k: nat, n: nat)
    requires a.Proper(tag, utf8) && a.word == "OK" && TellsCopyUid(a.lines, k, n) && Written(writes)
    ensures MovedBy(ResponseOf(a.Sent(tag), writes, tag, utf8, true).lines) == Success(n)
  {
    ResponseIsTold(a, writes, tag, utf8, true);
    CopyUidIsFound(a.lines, k, n);
  }

  /** A whole move is understood: the SELECT under the expected UIDVALIDITY, and the answer to the
      move after it. */
  lemma WholeMoveIsRead(select: ServerAnswer, move: ServerAnswer, writes: Writes, tags: seq<Bytes>, utf8: Bytes -> bool,
                        mailbox: Bytes, destination: Bytes, k: nat, validity: nat, l: nat, uid: nat)
    requires |tags| == 2 && select.Proper(tags[0], utf8) && move.Proper(tags[1], utf8)
    requires select.word == "OK" && TellsUidValidity(select.lines, k, validity) && select.rest == move.Sent(tags[1])
    requires move.word == "OK" && TellsCopyUid(move.lines, l, uid)
    requires Written(writes) && Written(Later(writes)) && StaysInString(mailbox) && StaysInString(destination)
    ensures MoveIn(select.Sent(tags[0]), writes, tags, utf8, validity, mailbox, destination) == Success(uid)
  {
    QuotableIff(destination);
    ResponseIsTold(select, writes, tags[0], utf8, false);
    SelectedIsRead(select, writes, tags[0], utf8, mailbox, k, validity);
    MovedIsRead(move, Later(writes), tags[1], utf8, l, uid);
  }

  /** The answers to a list of commands, each in the bytes left by the one before. */
  ghost predicate Answered(bytes: Bytes, answers: seq<ServerAnswer>, tags: seq<Bytes>, utf8: Bytes -> bool)
    decreases |answers|
  {
    |answers| > 0 ==>
      && |tags| == |answers| && answers[0].Proper(tags[0], utf8) && bytes == answers[0].Sent(tags[0])
      && Answered(answers[0].rest, answers[1..], tags[1..], utf8)
  }

  function Reply(a: ServerAnswer, applied: bool): Option<RemoteError> {
    if a.word == "OK" then None
    else if a.word == "NO" || a.word == "BAD" then Some(MutationOutcome(REJECTED, applied))
    else Some(MutationOutcome(PROTOCOL, true))
  }

  function Replies(answers: seq<ServerAnswer>, applied: bool): Answer<()>
    decreases |answers|
  {
    if answers == [] then Success(())
    else
      var error := Reply(answers[0], applied);
      if error.Some? then Failure(error.value) else Replies(answers[1..], true)
  }

  lemma FirstStoreIsRead(a: ServerAnswer, bytes: Bytes, writes: Writes, tags: seq<Bytes>, utf8: Bytes -> bool, applied: bool)
    requires tags != [] && a.Proper(tags[0], utf8) && bytes == a.Sent(tags[0]) && Written(writes)
    ensures StoresIn(bytes, writes, tags, utf8, applied) ==
            var error := Reply(a, applied);
            if error.Some? then Failure(error.value) else StoresIn(a.rest, Later(writes), tags[1..], utf8, true)
  {
    ResponseIsTold(a, writes, tags[0], utf8, true);
  }

  lemma {:induction false} StoresFollowReplies(bytes: Bytes, answers: seq<ServerAnswer>, tags: seq<Bytes>,
                                               utf8: Bytes -> bool, applied: bool)
    requires |answers| == |tags| && Answered(bytes, answers, tags, utf8)
    ensures StoresIn(bytes, [], tags, utf8, applied) == Replies(answers, applied)
    decreases |answers|
  {
    if answers != [] {
      FirstStoreIsRead(answers[0], bytes, [], tags, utf8, applied);
      if Reply(answers[0], applied).None? {
        StoresFollowReplies(answers[0].rest, answers[1..], tags[1..], utf8, true);
      }
    }
  }

  lemma {:induction false} RepliesUpTo(answers: seq<ServerAnswer>, applied: bool, k: nat)
    requires k <= |answers|
    requires (forall i :: 0 <= i < k ==> answers[i].word == "OK") && (k < |answers| ==> answers[k].word != "OK")
    ensures Replies(answers, applied) ==
            if k == |answers| then Success(())
            else if answers[k].word == "NO" || answers[k].word == "BAD" then Failure(MutationOutcome(REJECTED, applied || k > 0))
            else Failure(MutationOutcome(PROTOCOL, true))
    decreases |answers|
  {
    if k > 0 {
      RepliesUpTo(answers[1..], true, k - 1);
    }
  }

  /** The answer that ends a list of stores decides: none if all are confirmed; a refusal is certain
      only if it is the first. */
  lemma StoresAreRead(bytes: Bytes, answers: seq<ServerAnswer>, tags: seq<Bytes>, utf8: Bytes -> bool, k: nat)
    requires |answers| == |tags| && Answered(bytes, answers, tags, utf8) && k <= |answers|
    requires (forall i :: 0 <= i < k ==> answers[i].word == "OK") && (k < |answers| ==> answers[k].word != "OK")
    ensures StoresIn(bytes, [], tags, utf8, false) ==
            if k == |answers| then Success(())
            else if answers[k].word == "NO" || answers[k].word == "BAD" then Failure(MutationOutcome(REJECTED, k > 0))
            else Failure(MutationOutcome(PROTOCOL, true))
  {
    StoresFollowReplies(bytes, answers, tags, utf8, false);
    RepliesUpTo(answers, false, k);
  }

  lemma CopyUidNumber(text: Bytes, n: nat, before: Bytes, ids: Bytes, rest: Bytes)
    requires n <= MAX_U32 && ']' !in before && ']' !in ids
    requires text == before + "[COPYUID " + (ids + " " + Decimal(n) + "]" + rest)
    ensures NumberBeforeBracket(text) == Some(n)
  {
    assert text == (before + "[COPYUID " + ids) + " " + Decimal(n) + "]" + rest;
    LastNumberIsRead(before + "[COPYUID " + ids, n, rest);
  }
}
