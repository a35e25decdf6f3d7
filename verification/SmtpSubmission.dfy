/** One submission over SMTP: `submit` and `SmtpClient` of `src-tauri/src/net/smtp.rs`, and
    what an error says about the message. */
module SmtpSubmission {
  import opened Base
  import opened RemoteErrors
  import opened SendIntents
  import opened ImapLines
  import opened DotStuffing
  import opened SmtpMessages
  import opened SmtpReplies

  const MAX_MESSAGE_BYTES: nat := 1_048_576

  // ---- The submission ----

  function EmailOf(a: Address): string { a.email }

  function Emails(list: seq<Address>): seq<string> {
    KeysOf(list, EmailOf)
  }

  lemma OneMoreRecipient(all: seq<Address>, i: nat)
    requires i < |all|
    ensures var before := Emails(FirstPerEmail(all[..i]));
            Emails(FirstPerEmail(all[..i + 1])) == if Mentions(all[..i], all[i].email) then before else before + [all[i].email]
  {
    assert all[..i + 1][..i] == all[..i];
    var list := FirstPerEmail(all[..i]);
    assert Emails(list + [all[i]]) == Emails(list) + [all[i].email];
  }

  ghost predicate Seen(list: seq<Address>, emails: set<string>) {
    forall email :: email in emails <==> Mentions(list, email)
  }

  lemma OneMoreSeen(all: seq<Address>, i: nat, emails: set<string>)
    requires i < |all| && Seen(all[..i], emails)
    ensures Seen(all[..i + 1], emails + {all[i].email})
    ensures all[i].email in emails ==> Seen(all[..i + 1], emails) && Mentions(all[..i], all[i].email)
    ensures all[i].email !in emails ==> !Mentions(all[..i], all[i].email)
  {
    assert all[..i + 1] == all[..i] + [all[i]];
    forall email
      ensures Mentions(all[..i + 1], email) <==> Mentions(all[..i], email) || all[i].email == email
    {
      MentionsOneMore(all[..i], all[i], email);
    }
  }

  /** Every recipient once, in the order of first mention. */
  method CollectRecipients(all: seq<Address>) returns (result: Answer<seq<string>>)
    ensures result == if exists a <- all :: !ValidAddress(a) then Failure(REJECTED) else Success(Emails(FirstPerEmail(all)))
  {
    var recipients: seq<string> := [];
    var seen: set<string> := {};
    for i := 0 to |all|
      invariant forall j :: 0 <= j < i ==> ValidAddress(all[j])
      invariant recipients == Emails(FirstPerEmail(all[..i]))
      invariant Seen(all[..i], seen)
    {
      if !ValidAddress(all[i]) {
        return Failure(REJECTED);
      }
      OneMoreRecipient(all, i);
      OneMoreSeen(all, i, seen);
      if all[i].email !in seen {
        seen := seen + {all[i].email};
        recipients := recipients + [all[i].email];
      }
    }
    assert all[..|all|] == all;
    result := Success(recipients);
  }

  datatype SmtpCommand = Ehlo | Authenticate | MailFrom(email: string) | RcptTo(email: string) | Data | Quit

  function RcptAll(recipients: seq<string>): (r: seq<SmtpCommand>)
    ensures |r| == |recipients| && forall i :: 0 <= i < |r| ==> r[i] == RcptTo(recipients[i])
  {
    seq(|recipients|, i requires 0 <= i < |recipients| => RcptTo(recipients[i]))
  }

  /** What has to be said, in this order, before a message may be sent. */
  function Envelope(from: string, recipients: seq<string>): seq<SmtpCommand> {
    [Ehlo, Authenticate, MailFrom(from)] + RcptAll(recipients) + [Data]
  }

  // ---- Whom an envelope names ----

  function FirstMention(list: seq<Address>, email: string): (i: nat)
    requires Mentions(list, email)
    ensures i < |list| && list[i].email == email && forall j :: 0 <= j < i ==> list[j].email != email
  {
    if list[0].email == email then 0
    else
      assert Mentions(list[1..], email) by {
        var i :| 0 <= i < |list| && list[i].email == email;
        assert list[1..][i - 1].email == email;
      }
      var rest := FirstMention(list[1..], email);
      assert forall j :: 0 < j < rest + 1 ==> list[j] == list[1..][j - 1];
      rest + 1
  }

  /** The recipients named are exactly those of the list, each once, in order of first mention. */
  ghost predicate NamesOnce(list: seq<Address>, named: seq<string>) {
    && (forall a <- list :: a.email in named)
    && (forall i :: 0 <= i < |named| ==> Mentions(list, named[i]))
    && (forall i, j :: 0 <= i < j < |named| ==> FirstMention(list, named[i]) < FirstMention(list, named[j]))
  }

  lemma FirstMentionAppend(list: seq<Address>, last: Address, email: string)
    requires Mentions(list + [last], email)
    ensures FirstMention(list + [last], email) == if Mentions(list, email) then FirstMention(list, email) else |list|
  {
    var all := list + [last];
    var i := FirstMention(all, email);
    if Mentions(list, email) {
      assert all[FirstMention(list, email)] == list[FirstMention(list, email)];
      assert i < |list| ==> list[i] == all[i];
    } else {
      assert forall j :: 0 <= j < |list| ==> all[j] == list[j] && list[j].email != email;
    }
  }

  lemma {:induction false} FirstPerEmailNamesOnce(list: seq<Address>)
    ensures NamesOnce(list, Emails(FirstPerEmail(list)))
  {
    if list != [] {
      var (before, last) := (list[..|list| - 1], list[|list| - 1]);
      assert list == before + [last];
      FirstPerEmailNamesOnce(before);
      NamedAfter(before, last, Emails(FirstPerEmail(before)));
      assert Emails(FirstPerEmail(before) + [last]) == Emails(FirstPerEmail(before)) + [last.email];
    }
  }

  lemma NamedAfter(before: seq<Address>, last: Address, named: seq<string>)
    requires NamesOnce(before, named)
    ensures NamesOnce(before + [last], if Mentions(before, last.email) then named else named + [last.email])
  {
    var list := before + [last];
    var named' := if Mentions(before, last.email) then named else named + [last.email];
    forall i | 0 <= i < |named'|
      ensures Mentions(list, named'[i])
    {
      MentionsOneMore(before, last, named'[i]);
    }
    forall i, j | 0 <= i < j < |named'|
      ensures FirstMention(list, named'[i]) < FirstMention(list, named'[j])
    {
      FirstMentionAppend(before, last, named'[i]);
      FirstMentionAppend(before, last, named'[j]);
    }
    if Mentions(before, last.email) {
      var i :| 0 <= i < |before| && before[i].email == last.email;
      assert before[i] in before;
    }
    forall a | a in list
      ensures a.email in named'
    {
      if a !in before {
        assert a == last;
      }
    }
  }

  /** The sender, then the recipients of the three lists, then DATA, and at most a QUIT after it. */
  ghost predicate Announced(said: seq<SmtpCommand>, user: string, to: seq<Address>, cc: seq<Address>, bcc: seq<Address>) {
    exists named: seq<string> ::
      && NamesOnce(to + cc + bcc, named)
      && (|| said == [Ehlo] + [Authenticate] + [MailFrom(user)] + RcptAll(named) + [Data]
          || said == [Ehlo] + [Authenticate] + [MailFrom(user)] + RcptAll(named) + [Data] + [Quit])
  }

  /** A part of that, from its start. */
  ghost predicate Announcing(said: seq<SmtpCommand>, user: string, to: seq<Address>, cc: seq<Address>, bcc: seq<Address>) {
    exists named: seq<string> ::
      && NamesOnce(to + cc + bcc, named)
      && said <= [Ehlo] + [Authenticate] + [MailFrom(user)] + RcptAll(named) + [Data] + [Quit]
  }

  function Named(request: Request): seq<string> {
    Emails(FirstPerEmail(request.All()))
  }

  lemma EnvelopeIsAnnounced(user: string, request: Request, said: seq<SmtpCommand>)
    requires said <= Envelope(user, Named(request)) + [Quit]
    ensures Announcing(said, user, request.to, request.cc, request.bcc)
    ensures said == Envelope(user, Named(request)) || said == Envelope(user, Named(request)) + [Quit] ==>
              Announced(said, user, request.to, request.cc, request.bcc)
  {
    FirstPerEmailNamesOnce(request.All());
    assert [Ehlo, Authenticate, MailFrom(user)] == [Ehlo] + [Authenticate] + [MailFrom(user)];
    assert NamesOnce(request.to + request.cc + request.bcc, Named(request));
  }

  /** A request that can be sent: from the user, with a message that can be built and is not too
      large, to somebody. */
  predicate MaySubmit(user: string, request: Request, date: string)
    requires request.AllBytes()
  {
    && request.from.email == user && Buildable(request) && |BuildMessage(request, date).value| <= MAX_MESSAGE_BYTES
    && (request.to != [] || request.cc != [] || request.bcc != [])
  }

  lemma NobodyNamed(request: Request)
    ensures Named(request) == [] <==> request.to == [] && request.cc == [] && request.bcc == []
  {
    var all := request.All();
    FirstPerEmailKeepsEveryEmailOnce(all);
    if all != [] {
      assert Mentions(all, all[0].email);
      assert Mentions(FirstPerEmail(all), all[0].email);
    }
  }

  class SmtpClient {
    var replies: seq<Reply>   // what the server will still say
    var writes: Writes
    var said: seq<SmtpCommand>
    var wire: string          // the message as far as it may have left
    var asked: seq<Reply>     // what was still to be said when the message had been sent

    constructor (replies: seq<Reply>, writes: Writes)
      ensures this.replies == replies && this.writes == writes && said == [] && wire == ""
    {
      this.replies, this.writes, said, wire, asked := replies, writes, [], "", [];
    }

    method Write() returns (written: bool)
      modifies this`writes
      ensures written == Written(old(writes)) && writes == Later(old(writes))
    {
      written := writes == [] || writes[0];
      writes := Later(writes);
    }

    method ExpectCode(expected: nat, ambiguous: bool) returns (error: Option<RemoteError>)
      modifies this`replies
      ensures (error, replies) == Expect(old(replies), expected, ambiguous)
    {
      while true
        invariant Expect(replies, expected, ambiguous) == Expect(old(replies), expected, ambiguous)
        decreases |replies|
      {
        if replies == [] {
          return Some(NoReply(ambiguous));
        }
        var reply := replies[0];
        replies := replies[1..];
        if !reply.Line? {
          return Some(NoReply(ambiguous));
        }
        var code := CodeOf(reply.text);
        if code.None? {
          return Some(PROTOCOL);
        }
        if !Continues(reply.text) {
          return if code.value == expected then None else Some(WrongCode(code.value, ambiguous));
        }
      }
    }

    /** A command outside the message; the write may fail. */
    method Command(command: SmtpCommand, expected: nat) returns (error: Option<RemoteError>)
      modifies this`replies, this`writes, this`said
      ensures (error, replies, writes) == Ask(old(replies), old(writes), expected)
      ensures said == if Written(old(writes)) then old(said) + [command] else old(said)
      ensures error.Some? ==> error.value in {UNAVAILABLE, PROTOCOL, TRANSIENT, REJECTED}
    {
      ghost var before := replies;
      PlainReplyErrors(before, expected);
      var written := Write();
      if !written {
        return Some(UNAVAILABLE);
      }
      said := said + [command];
      error := ExpectCode(expected, false);
    }

    method Introduce(from: string) returns (error: Option<RemoteError>)
      requires said == []
      modifies this`replies, this`writes, this`said
      ensures error.Some? ==> error.value in {UNAVAILABLE, PROTOCOL, TRANSIENT, REJECTED, AUTH}
      ensures (error, replies, writes) == Dialog(old(replies), old(writes), [250, 235, 250])
      ensures said <= [Ehlo, Authenticate, MailFrom(from)]
      ensures error.None? ==> said == [Ehlo, Authenticate, MailFrom(from)]
    {
      error := Command(Ehlo, 250);
      if error.Some? {
        return;
      }
      error := Command(Authenticate, 235);
      if error == Some(REJECTED) {
        return Some(AUTH);
      }
      if error.Some? {
        return;
      }
      error := Command(MailFrom(from), 250);
    }

    method NameAll(recipients: seq<string>) returns (error: Option<RemoteError>)
      modifies this`replies, this`writes, this`said
      ensures error.Some? ==> error.value in {UNAVAILABLE, PROTOCOL, TRANSIENT, REJECTED}
      ensures (error, replies, writes) == Dialog(old(replies), old(writes), Repeated(250, |recipients|))
      ensures old(said) <= said <= old(said) + RcptAll(recipients)
      ensures error.None? ==> said == old(said) + RcptAll(recipients)
    {
      for i := 0 to |recipients|
        invariant said == old(said) + RcptAll(recipients[..i])
        invariant Dialog(replies, writes, Repeated(250, |recipients| - i))
               == Dialog(old(replies), old(writes), Repeated(250, |recipients|))
      {
        assert Repeated(250, |recipients| - i)[1..] == Repeated(250, |recipients| - i - 1);
        assert RcptAll(recipients[..i + 1]) == RcptAll(recipients[..i]) + [RcptTo(recipients[i])];
        assert RcptAll(recipients[..i + 1]) <= RcptAll(recipients) && RcptAll(recipients[..i]) <= RcptAll(recipients);
        error := Command(RcptTo(recipients[i]), 250);
        if error.Some? {
          return;
        }
      }
      assert recipients[..|recipients|] == recipients;
      error := None;
    }

    method Greet(from: string, recipients: seq<string>) returns (error: Option<RemoteError>)
      requires said == []
      modifies this`replies, this`writes, this`said
      ensures error.Some? ==> error.value in {UNAVAILABLE, PROTOCOL, TRANSIENT, REJECTED, AUTH}
      ensures var (greeting, rest) := Expect(old(replies), 220, false);
              if greeting.Some? then error == greeting
              else (error, replies, writes) == Dialog(rest, old(writes), Codes(|recipients|))
      ensures said <= Envelope(from, recipients)
      ensures error.None? ==> said == Envelope(from, recipients)
    {
      ghost var before := replies;
      error := ExpectCode(220, false);
      PlainReplyErrors(before, 220);
      if error.Some? {
        return;
      }
      DialogTogether(replies, writes, [250, 235, 250], Repeated(250, |recipients|) + [354]);
      assert [250, 235, 250] + (Repeated(250, |recipients|) + [354]) == Codes(|recipients|);
      error := Introduce(from);
      if error.Some? {
        return;
      }
      DialogTogether(replies, writes, Repeated(250, |recipients|), [354]);
      error := NameAll(recipients);
      if error.Some? {
        return;
      }
      DialogOfOne(replies, writes, 354);
      error := Command(Data, 354);
    }

    /** `submit`. An error that lets the outbox try again means that no byte of the message has
        left. Once bytes have left, the error is ambiguous, except that a malformed reply is
        reported as a protocol error. Success means that the sender and every recipient, once,
        were named, that the whole message then left, in the form that a receiver reads back as
        the message, and that the server answered 250. Nothing is said of a request that cannot
        be sent; any other goes as the server's replies have it. */
    method Submit(user: string, request: Request, date: string, connects: bool) returns (error: Option<RemoteError>)
      requires wire == "" && said == [] && request.AllBytes()
      modifies this
      ensures TellsTruth(error, wire != "")
      ensures error.Some? && wire != "" ==> error.value == if Malformed(asked) then PROTOCOL else AMBIGUOUS
      ensures error.None? ==>
        && Buildable(request) && request.from.email == user && request.to + request.cc + request.bcc != []
        && Announced(said, user, request.to, request.cc, request.bcc)
        && var message := BuildMessage(request, date).value;
        && |message| <= MAX_MESSAGE_BYTES
        && wire == DotStuff(message) + TERMINATOR && Receive(wire) == Some((message + CRLF, ""))
        && Expect(asked, 250, true).0 == None
      ensures !MaySubmit(user, request, date) || !connects ==>
        && said == [] && wire == ""
        && error == Some(if request.from.email != user || !Buildable(request) then REJECTED
                         else if |BuildMessage(request, date).value| > MAX_MESSAGE_BYTES then TOO_LARGE
                         else if request.to == [] && request.cc == [] && request.bcc == [] then REJECTED
                         else UNAVAILABLE)
      ensures MaySubmit(user, request, date) && connects ==>
        && error == Session(old(replies), old(writes), |Named(request)|)
        && Announcing(said, user, request.to, request.cc, request.bcc)
        && wire <= DotStuff(BuildMessage(request, date).value) + TERMINATOR
    {
      if request.from.email != user {
        return Some(REJECTED);
      }
      var built := BuildMessage(request, date);
      if built.Failure? {
        return Some(built.error);
      }
      if |built.value| > MAX_MESSAGE_BYTES {
        return Some(TOO_LARGE);
      }
      var recipients := CollectRecipients(request.All());
      if recipients.Failure? {
        return Some(REJECTED);
      }
      NobodyNamed(request);
      if recipients.value == [] {
        return Some(REJECTED);
      }
      if !connects {
        return Some(UNAVAILABLE);
      }
      BuiltArrives(request, date, "");
      assert DotStuff(built.value) + TERMINATOR + "" == DotStuff(built.value) + TERMINATOR;
      error := Converse(user, recipients.value, built.value);
      EnvelopeIsAnnounced(user, request, said);
    }

    /** The whole conversation with a server that can be reached. */
    method Converse(from: string, recipients: seq<string>, message: string) returns (error: Option<RemoteError>)
      requires wire == "" && said == []
      modifies this
      ensures error == Session(old(replies), old(writes), |recipients|)
      ensures TellsTruth(error, wire != "")
      ensures error.Some? && wire != "" ==> error.value == if Malformed(asked) then PROTOCOL else AMBIGUOUS
      ensures said <= Envelope(from, recipients) + [Quit] && wire <= DotStuff(message) + TERMINATOR
      ensures error.None? ==>
        && (said == Envelope(from, recipients) || said == Envelope(from, recipients) + [Quit])
        && wire == DotStuff(message) + TERMINATOR && Expect(asked, 250, true).0 == None
    {
      error := Greet(from, recipients);
      if error.Some? {
        assert Envelope(from, recipients) <= Envelope(from, recipients) + [Quit];
        return;
      }
      error := Transfer(message);
    }

    /** The message itself, after DATA was accepted. */
    method Transfer(message: string) returns (error: Option<RemoteError>)
      modifies this
      ensures (said == old(said) || said == old(said) + [Quit]) && wire <= DotStuff(message) + TERMINATOR
      ensures error == if Written(old(writes)) then Expect(old(replies), 250, true).0 else Some(AMBIGUOUS)
      ensures error.Some? ==> error.value == if Malformed(asked) then PROTOCOL else AMBIGUOUS
      ensures error.None? ==> wire == DotStuff(message) + TERMINATOR && Expect(asked, 250, true).0 == None
    {
      var whole := DotStuff(message) + TERMINATOR;
      var written := Write();
      if !written {
        var sent :| 0 <= sent <= |whole|;
        wire := whole[..sent];
        asked := [];
        return Some(AMBIGUOUS);
      }
      wire := whole;
      asked := replies;
      error := ExpectCode(250, true);
      AmbiguousReplyErrors(asked, 250);
      if error.Some? {
        return;
      }
      var _ := Command(Quit, 221);   // whatever comes of it
    }
  }
}
