/** Commands over an IMAP connection, and what their errors say about the mailbox:
    `command_with_outcome`, `mutation_outcome`, `store_flags` and `move_message` of
    `src-tauri/src/net/imap.rs`. */
module ImapCommands {
  import opened Base
  import opened RemoteErrors
  import opened ImapLines
  import opened ImapText
  import opened ImapResponses

  /** `account_response_text` */
  method AccountResponseText(b: Budget, text: Bytes) returns (result: Answer<Budget>)
    ensures result == if Accounted(b, text).None? then Failure(PROTOCOL) else Success(Accounted(b, text).value)
    ensures b.Kept() && result.Success? ==> result.value.Kept()
  {
    var lines := b.lines + 1;
    if lines > MAX_IMAP_RESPONSE_LINES {
      return Failure(PROTOCOL);
    }
    var bytes := b.text + |text|;
    if bytes > MAX_IMAP_RESPONSE_TEXT_BYTES {
      return Failure(PROTOCOL);
    }
    result := Success(b.(lines := lines, text := bytes));
  }

  /** `read_exact` */
  method ReadExact(stream: BufferedStream, n: nat) returns (value: Option<Bytes>)
    requires stream.Valid()
    modifies stream
    ensures stream.Valid()
    ensures if n <= |old(stream.Pending())|
            then value == Some(old(stream.Pending())[..n]) && stream.Pending() == old(stream.Pending())[n..]
            else value == None && stream.Pending() == []
  {
    ghost var all := stream.Pending();
    var read: Bytes := [];
    while |read| < n
      invariant stream.Valid() && |read| <= n && all == read + stream.Pending()
      decreases |stream.rest|, |stream.buffer|
    {
      var available := stream.FillBuffer(0);
      if available.None? || available.value == [] {
        assert all == read;
        return None;
      }
      var chunk := available.value;
      ghost var later := Flat(stream.rest);
      var take := if |chunk| <= n - |read| then |chunk| else n - |read|;
      TakenFrom(all, read, chunk, later, take);
      stream.Consume(take);
      read := read + chunk[..take];
    }
    TakenAtFront(all, read, stream.Pending());
    value := Some(read);
  }

  /** Most bytes one command may take off the connection, whatever the server sends. */
  const MAX_RESPONSE_BYTES: nat := (MAX_IMAP_RESPONSE_LINES + 1) * MAX_IMAP_LINE_BYTES + MAX_IMAP_LITERAL_BYTES

  class ImapConnection {
    const stream: BufferedStream
    const utf8: Bytes -> bool

    var writes: Writes

    // The server's side of the selected message.
    var flags: set<string>
    var moved: bool

    constructor (stream: BufferedStream, utf8: Bytes -> bool, writes: Writes, flags: set<string>)
      ensures this.stream == stream && this.writes == writes && this.flags == flags && !moved
    {
      this.stream, this.utf8, this.writes, this.flags, moved := stream, utf8, writes, flags, false;
    }

    /** `write_imap_command` */
    method WriteCommand() returns (written: bool)
      modifies this`writes
      ensures written == Written(old(writes)) && writes == Later(old(writes))
    {
      written := writes == [] || writes[0];
      writes := Later(writes);
    }

    method ReadTextLine() returns (text: Answer<Bytes>)
      requires stream.Valid()
      modifies stream
      ensures stream.Valid()
      ensures text == LineResult(old(stream.Pending()), utf8)
      ensures text.Success? ==> stream.Pending() == AfterLine(old(stream.Pending()))
      ensures |stream.Pending()| <= |old(stream.Pending())| <= |stream.Pending()| + MAX_IMAP_LINE_BYTES
    {
      stream.ChunksArePending();
      text := ReadBoundedTextLine(stream, utf8);
    }

    method ReadLiteral(length: nat, b: Budget) returns (result: Answer<(Bytes, Budget)>)
      requires stream.Valid() && b.Kept()
      modifies stream
      ensures stream.Valid()
      ensures var literal := LiteralIn(old(stream.Pending()), length, b, utf8);
              if literal.Failure? then result == Failure(literal.error)
              else result == Success((literal.value.value, literal.value.budget)) && stream.Pending() == literal.value.rest
      ensures var spent := if result.Success? then length + MAX_IMAP_LINE_BYTES
                           else MAX_IMAP_LITERAL_BYTES - b.literals + MAX_IMAP_LINE_BYTES;
              |stream.Pending()| <= |old(stream.Pending())| <= |stream.Pending()| + spent
    {
      if b.literals + length > MAX_IMAP_LITERAL_BYTES {
        return Failure(PROTOCOL);
      }
      ghost var all := stream.Pending();
      var bytes := ReadExact(stream, length);
      if bytes.None? {
        return Failure(UNAVAILABLE);
      }
      assert bytes.value == all[..length] && stream.Pending() == all[length..];
      var trailer := ReadTextLine();
      assert trailer == LineResult(all[length..], utf8);
      if trailer.Failure? {
        return Failure(trailer.error);
      }
      var accounted := AccountResponseText(b.(literals := b.literals + length), trailer.value);
      if accounted.Failure? {
        return Failure(accounted.error);
      }
      if trailer.value != ")" {
        return Failure(PROTOCOL);
      }
      result := Success((bytes.value, accounted.value));
    }

    /** Sends a command and reads its response up to the tagged line. The answer is a function of
        the bytes that the server sent, whatever they are and however they arrive, and says what a
        server's answer says; it comes within the limits, after a bounded number of bytes. */
    method CommandWithOutcome(tag: Bytes, mutation: bool) returns (result: Answer<seq<ResponseLine>>, verdict: Verdict)
      requires stream.Valid()
      modifies this`writes, stream
      ensures stream.Valid() && writes == Later(old(writes))
      ensures var response := ResponseOf(old(stream.Pending()), old(writes), tag, utf8, mutation);
              && result == response.lines && verdict == response.verdict
              && (verdict.Confirmed? ==> stream.Pending() == response.rest)
      ensures Understood(old(stream.Pending()), old(writes), tag, utf8, mutation, result, verdict)
      ensures |stream.Pending()| <= |old(stream.Pending())| <= |stream.Pending()| + MAX_RESPONSE_BYTES
    {
      verdict := NoVerdict;
      ResponseIsUnderstood(stream.Pending(), writes, tag, utf8, mutation);
      var written := WriteCommand();
      if !written {
        return Failure(MutationOutcome(UNAVAILABLE, mutation)), verdict;
      }
      var lines: seq<ResponseLine> := [];
      var budget := Budget(0, 0, 0);
      while true
        invariant stream.Valid() && budget.Kept() && verdict.NoVerdict? && writes == Later(old(writes))
        invariant ResponseIn(stream.Pending(), tag, utf8, budget, lines) == ResponseTo(old(stream.Pending()), tag, utf8)
        invariant |stream.Pending()| <= |old(stream.Pending())|
                  <= |stream.Pending()| + budget.lines * MAX_IMAP_LINE_BYTES + budget.literals
        decreases MAX_IMAP_RESPONSE_LINES - budget.lines
      {
        var text := ReadTextLine();
        if text.Failure? {
          return Failure(MutationOutcome(text.error, mutation)), verdict;
        }
        var accounted := AccountResponseText(budget, text.value);
        if accounted.Failure? {
          return Failure(MutationOutcome(PROTOCOL, mutation)), verdict;
        }
        budget := accounted.value;
        var announced := ParseLiteralLength(text.value);
        if announced.Failure? {
          return Failure(MutationOutcome(PROTOCOL, mutation)), verdict;
        }
        var literal: Option<Bytes> := None;
        if announced.value.Some? {
          var read := ReadLiteral(announced.value.value, budget);
          if read.Failure? {
            return Failure(MutationOutcome(read.error, mutation)), verdict;
          }
          literal := Some(read.value.0);
          budget := read.value.1;
        }
        verdict := VerdictOf(tag, text.value);
        match verdict {
          case Confirmed => return Success(lines), verdict;
          case Refused => return Failure(REJECTED), verdict;
          case Unclear => return Failure(MutationOutcome(PROTOCOL, mutation)), verdict;
          case NoVerdict =>
        }
        lines := lines + [ResponseLine(text.value, literal)];
      }
    }

    /** The same, with what every response has in common. */
    method Exchange(tag: Bytes, mutation: bool) returns (result: Answer<seq<ResponseLine>>, verdict: Verdict)
      requires stream.Valid()
      modifies this`writes, stream
      ensures stream.Valid() && writes == Later(old(writes))
      ensures result.Success? ==> verdict.Confirmed?
      ensures result.Failure? ==> !verdict.Confirmed?
      ensures result.Failure? && verdict.Refused? ==> result.error == REJECTED
      ensures result.Failure? && !verdict.Refused? ==>
                result.error in {MutationOutcome(PROTOCOL, mutation), MutationOutcome(UNAVAILABLE, mutation)}
      ensures var response := ResponseOf(old(stream.Pending()), old(writes), tag, utf8, mutation);
              && result == response.lines && verdict == response.verdict
              && (result.Success? ==> stream.Pending() == response.rest)
    {
      ResponseIsBounded(stream.Pending(), tag, utf8, Budget(0, 0, 0), []);
      result, verdict := CommandWithOutcome(tag, mutation);
    }

    // ---- Mutations ----

    /** One flag store. The server has applied a command that it confirms and has not applied one
        that it refuses (sections 7.1.1 to 7.1.3 of RFC 3501); otherwise nobody knows. */
    method StoreFlag(tag: Bytes, add: bool, flag: string) returns (result: Answer<seq<ResponseLine>>)
      requires stream.Valid()
      modifies this`flags, this`writes, stream
      ensures stream.Valid() && writes == Later(old(writes))
      ensures var response := ResponseOf(old(stream.Pending()), old(writes), tag, utf8, true);
              && result == response.lines && (result.Success? ==> stream.Pending() == response.rest)
      ensures flags == Stored(old(flags), add, flag) || (result.Failure? && flags == old(flags))
      ensures result.Failure? ==> CertainlyNotApplied(result.error) ==> flags == old(flags)
      ensures result.Failure? ==> result.error.outcome.Unknown? || result.error == REJECTED
    {
      var verdict;
      result, verdict := Exchange(tag, true);
      var applied: bool := *;
      if verdict.Confirmed? || (!verdict.Refused? && applied) {
        flags := Stored(flags, add, flag);
      }
    }

    /** Selecting a mailbox changes nothing in it; the answer is the server's UIDVALIDITY, or an
        error that leaves nothing unknown. */
    method Select(tag: Bytes, mailbox: Bytes) returns (result: Answer<nat>)
      requires stream.Valid()
      modifies this`writes, stream
      ensures stream.Valid()
      ensures result == SelectIn(old(stream.Pending()), old(writes), tag, utf8, mailbox)
      ensures result.Failure? ==> result.error in {PROTOCOL, UNAVAILABLE, REJECTED}
      ensures result.Success? ==> stream.Pending() == ResponseOf(old(stream.Pending()), old(writes), tag, utf8, false).rest
      ensures result.Success? ==> writes == Later(old(writes))
    {
      var quoted := PushQuoted([], mailbox);
      if quoted.Failure? {
        return Failure(PROTOCOL);
      }
      var lines, _ := Exchange(tag, false);
      if lines.Failure? {
        return Failure(lines.error);
      }
      var number := UidValidityIn(lines.value);
      result := if number.Some? then Success(number.value) else Failure(PROTOCOL);
    }

    /** `store_flags`: an error of which the outcome is not unknown leaves every flag as it was,
        wherever in the list it happened; success applied them all. */
    method StoreFlags(tags: seq<Bytes>, mailbox: Bytes, expectedUidValidity: nat, operations: seq<(bool, string)>)
      returns (result: Answer<()>)
      requires stream.Valid() && |tags| == |operations| + 1
      modifies this`flags, this`writes, stream
      ensures stream.Valid()
      ensures result == FlagsIn(old(stream.Pending()), old(writes), tags, utf8, expectedUidValidity, mailbox)
      ensures result.Success? ==> flags == StoredAll(old(flags), operations)
      ensures result.Failure? ==> CertainlyNotApplied(result.error) ==> flags == old(flags)
      ensures TellsTruth(ErrorOf(result), flags != old(flags))
      ensures result.Failure? ==> exists n :: 0 <= n <= |operations| && flags == StoredAll(old(flags), operations[..n])
    {
      assert StoredAll(flags, operations[..0]) == flags;
      var selected := Select(tags[0], mailbox);
      if selected.Failure? {
        return Failure(selected.error);
      }
      if selected.value != expectedUidValidity {
        return Failure(STATE_INVALID);
      }
      result := StoreEach(tags[1..], operations);
    }

    method StoreEach(tags: seq<Bytes>, operations: seq<(bool, string)>) returns (result: Answer<()>)
      requires stream.Valid() && |tags| == |operations|
      modifies this`flags, this`writes, stream
      ensures stream.Valid()
      ensures result == StoresIn(old(stream.Pending()), old(writes), tags, utf8, false)
      ensures result.Success? ==> flags == StoredAll(old(flags), operations)
      ensures result.Failure? ==> CertainlyNotApplied(result.error) ==> flags == old(flags)
      ensures TellsTruth(ErrorOf(result), flags != old(flags))
      ensures result.Failure? ==> exists n :: 0 <= n <= |operations| && flags == StoredAll(old(flags), operations[..n])
    {
      var applied := false;
      for i := 0 to |operations|
        invariant stream.Valid() && flags == StoredAll(old(flags), operations[..i])
        invariant applied == (i > 0)
        invariant StoresIn(stream.Pending(), writes, tags[i..], utf8, applied)
               == StoresIn(old(stream.Pending()), old(writes), tags, utf8, false)
      {
        assert operations[..i + 1][..i] == operations[..i];
        assert tags[i..][0] == tags[i] && tags[i..][1..] == tags[i + 1..];
        var stored := StoreFlag(tags[i], operations[i].0, operations[i].1);
        assert flags == StoredAll(old(flags), operations[..i + 1]) || flags == StoredAll(old(flags), operations[..i]);
        if stored.Failure? {
          var error := stored.error;
          if applied {
            error := error.(retry := Reconcile, outcome := Unknown);
          }
          return Failure(error);
        }
        applied := true;
      }
      assert operations[..|operations|] == operations;
      result := Success(());
    }

    /** `move_message`, likewise: a confirmed move without a new uid is reported as unknown. The
        answer is read off the two responses. */
    method MoveMessage(tags: seq<Bytes>, mailbox: Bytes, expectedUidValidity: nat,
                       destination: Bytes) returns (result: Answer<nat>)
      requires stream.Valid() && |tags| == 2
      modifies this`moved, this`writes, stream
      ensures stream.Valid()
      ensures result == MoveIn(old(stream.Pending()), old(writes), tags, utf8, expectedUidValidity, mailbox, destination)
      ensures result.Success? ==> moved
      ensures result.Failure? ==> CertainlyNotApplied(result.error) ==> moved == old(moved)
      ensures TellsTruth(ErrorOf(result), moved != old(moved))
    {
      var selected := Select(tags[0], mailbox);
      if selected.Failure? {
        return Failure(selected.error);
      }
      if selected.value != expectedUidValidity {
        return Failure(STATE_INVALID);
      }
      var quoted := PushQuoted([], destination);
      if quoted.Failure? {
        return Failure(PROTOCOL);
      }
      var lines, verdict := Exchange(tags[1], true);
      var applied: bool := *;
      if verdict.Confirmed? || (!verdict.Refused? && applied) {
        moved := true;
      }
      if lines.Failure? {
        return Failure(lines.error);
      }
      var uid := CopiedUidIn(lines.value);
      result := if uid.Some? then Success(uid.value) else Failure(MutationOutcome(PROTOCOL, true));
    }
  }

  function Stored(flags: set<string>, add: bool, flag: string): set<string> {
    if add then flags + {flag} else flags - {flag}
  }

  function StoredAll(flags: set<string>, operations: seq<(bool, string)>): set<string> {
    if operations == [] then flags
    else
      var last := operations[|operations| - 1];
      Stored(StoredAll(flags, operations[..|operations| - 1]), last.0, last.1)
  }

  /** The last operation on a flag decides whether the message has it; no other flag changes. */
  lemma {:induction false} StoredAllAt(flags: set<string>, operations: seq<(bool, string)>, flag: string)
    ensures if exists i :: LastOn(operations, flag, i)
            then exists i :: LastOn(operations, flag, i) && (flag in StoredAll(flags, operations) <==> operations[i].0)
            else (flag in StoredAll(flags, operations) <==> flag in flags)
  {
    if operations != [] {
      var last, before := |operations| - 1, operations[..|operations| - 1];
      if operations[last].1 == flag {
        assert LastOn(operations, flag, last);
      } else {
        StoredAllAt(flags, before, flag);
        forall i
          ensures LastOn(operations, flag, i) <==> LastOn(before, flag, i)
        {
        }
      }
    }
  }

  predicate LastOn(operations: seq<(bool, string)>, flag: string, i: int) {
    0 <= i < |operations| && operations[i].1 == flag && forall j :: i < j < |operations| ==> operations[j].1 != flag
  }
}
