/** What a server's replies say in one submission: `expect_code` and the order of commands in
    `submit` of `src-tauri/src/net/smtp.rs`, as functions of the lines, against the replies that
    a server sends (section 4.2 of RFC 5321). */
module SmtpReplies {
  import opened Base
  import opened Decimals
  import opened RemoteErrors
  import opened ImapLines

  /** What reading one line from the server gives. */
  datatype Reply = Line(text: string) | ReadFails | ConnectionClosed

  // ---- Replies ----

  /** The number in the first three bytes; a leading plus sign is part of a number. */
  function CodeOf(text: string): Option<nat> {
    if |text| < 3 then None
    else
      var digits := if text[0] == '+' then text[1..3] else text[..3];
      if AllDigits(digits) then Some(Value(digits)) else None
  }

  predicate Continues(text: string) {
    |text| > 3 && text[3] == '-'
  }

  function NoReply(ambiguous: bool): RemoteError {
    if ambiguous then AMBIGUOUS else UNAVAILABLE
  }

  function WrongCode(code: nat, ambiguous: bool): RemoteError {
    if ambiguous then AMBIGUOUS else if 400 <= code < 500 then TRANSIENT else REJECTED
  }

  /** The verdict on a reply of one or more lines, and the lines left. When nothing more comes,
      the connection is closed. */
  function Expect(replies: seq<Reply>, expected: nat, ambiguous: bool): (Option<RemoteError>, seq<Reply>) {
    if replies == [] then (Some(NoReply(ambiguous)), [])
    else
      match replies[0]
      case ReadFails => (Some(NoReply(ambiguous)), replies[1..])
      case ConnectionClosed => (Some(NoReply(ambiguous)), replies[1..])
      case Line(text) =>
        var code := CodeOf(text);
        if code.None? then (Some(PROTOCOL), replies[1..])
        else if Continues(text) then Expect(replies[1..], expected, ambiguous)
        else if code.value == expected then (None, replies[1..])
        else (Some(WrongCode(code.value, ambiguous)), replies[1..])
  }

  /** The reply breaks off at a line without a code. */
  predicate Malformed(replies: seq<Reply>) {
    replies != [] && replies[0].Line? &&
    (CodeOf(replies[0].text).None? || (Continues(replies[0].text) && Malformed(replies[1..])))
  }

  /** After the message was sent, an error is ambiguous, but for one case: a malformed reply is
      reported as a protocol error, and nothing else is. */
  lemma {:induction false} AmbiguousReplyErrors(replies: seq<Reply>, expected: nat)
    ensures var error := Expect(replies, expected, true).0;
            error.Some? ==> error.value == if Malformed(replies) then PROTOCOL else AMBIGUOUS
    ensures Malformed(replies) ==> Expect(replies, expected, true).0.Some?
  {
    if replies != [] && replies[0].Line? && CodeOf(replies[0].text).Some? && Continues(replies[0].text) {
      AmbiguousReplyErrors(replies[1..], expected);
    }
  }

  lemma {:induction false} PlainReplyErrors(replies: seq<Reply>, expected: nat)
    ensures var error := Expect(replies, expected, false).0;
            error.Some? ==> error.value in {UNAVAILABLE, PROTOCOL, TRANSIENT, REJECTED}
  {
    if replies != [] && replies[0].Line? && CodeOf(replies[0].text).Some? && Continues(replies[0].text) {
      PlainReplyErrors(replies[1..], expected);
    }
  }

  /** A reply that breaks off at a line without a code is a protocol error, before the message as
      after it, and nothing else is. */
  lemma {:induction false} MalformedIffProtocol(replies: seq<Reply>, expected: nat, ambiguous: bool)
    ensures Expect(replies, expected, ambiguous).0 == Some(PROTOCOL) <==> Malformed(replies)
  {
    if replies != [] && replies[0].Line? && CodeOf(replies[0].text).Some? && Continues(replies[0].text) {
      MalformedIffProtocol(replies[1..], expected, ambiguous);
    }
  }

  // ---- A session, as a function of the replies and of how its writes go ----

  type Asked = (Option<RemoteError>, seq<Reply>, Writes)

  /** One command: it is written, and its reply must have the expected code. */
  function Ask(replies: seq<Reply>, writes: Writes, expected: nat): Asked {
    if !Written(writes) then (Some(UNAVAILABLE), replies, Later(writes))
    else
      var (error, rest) := Expect(replies, expected, false);
      (error, rest, Later(writes))
  }

  const AUTHENTICATED: nat := 235

  /** Refusing the credentials is an error of its own. */
  function Heard(error: Option<RemoteError>, expected: nat): Option<RemoteError> {
    if expected == AUTHENTICATED && error == Some(REJECTED) then Some(AUTH) else error
  }

  /** Command after command, up to the first that fails. */
  function Dialog(replies: seq<Reply>, writes: Writes, codes: seq<nat>): Asked
    decreases |codes|
  {
    if codes == [] then (None, replies, writes)
    else
      var (error, rest, later) := Ask(replies, writes, codes[0]);
      if error.Some? then (Heard(error, codes[0]), rest, later) else Dialog(rest, later, codes[1..])
  }

  lemma {:induction false} DialogTogether(replies: seq<Reply>, writes: Writes, first: seq<nat>, second: seq<nat>)
    ensures Dialog(replies, writes, first + second) ==
            var (error, rest, later) := Dialog(replies, writes, first);
            if error.Some? then (error, rest, later) else Dialog(rest, later, second)
    decreases |first|
  {
    if first == [] {
      assert first + second == second;
    } else {
      assert (first + second)[1..] == first[1..] + second;
      var (error, rest, later) := Ask(replies, writes, first[0]);
      if error.None? {
        DialogTogether(rest, later, first[1..], second);
      }
    }
  }

  lemma DialogOfOne(replies: seq<Reply>, writes: Writes, code: nat)
    requires code != AUTHENTICATED
    ensures Dialog(replies, writes, [code]) == Ask(replies, writes, code)
  {
  }

  function Repeated(code: nat, n: nat): seq<nat> {
    seq(n, _ => code)
  }

  /** The codes for EHLO, AUTH, MAIL FROM, each RCPT TO, and DATA. */
  function Codes(recipients: nat): seq<nat> {
    [250, AUTHENTICATED, 250] + Repeated(250, recipients) + [354]
  }

  /** A session from the greeting up to the reply to the message. */
  function Session(replies: seq<Reply>, writes: Writes, recipients: nat): Option<RemoteError> {
    var (greeting, rest) := Expect(replies, 220, false);
    if greeting.Some? then greeting
    else
      var (error, later, left) := Dialog(rest, writes, Codes(recipients));
      if error.Some? then error
      else if !Written(left) then Some(AMBIGUOUS)
      else Expect(later, 250, true).0
  }

  // ---- What a server sends ----

  /** A reply: its code and the comment on each of its lines. */
  datatype ServerReply = ServerReply(code: nat, comments: seq<string>)
  {
    predicate Proper() {
      100 <= code <= 999 && comments != []
    }
  }

  /** A hyphen after the code on every line but the last. */
  function SentLines(code: nat, comments: seq<string>): seq<Reply> {
    if comments == [] then []
    else if |comments| == 1 then [Line(Decimal(code) + " " + comments[0])]
    else [Line(Decimal(code) + "-" + comments[0])] + SentLines(code, comments[1..])
  }

  function SentReplies(answers: seq<ServerReply>): seq<Reply> {
    if answers == [] then [] else SentLines(answers[0].code, answers[0].comments) + SentReplies(answers[1..])
  }

  /** A code is three digits at the start of a line, or a plus sign and two; of any other line
      there is none. */
  lemma CodeIsReadIff(text: string, code: nat)
    ensures CodeOf(text) == Some(code) <==>
      && |text| >= 3 && IsDigit(text[1]) && IsDigit(text[2])
      && (|| (IsDigit(text[0]) && code == 100 * Digit(text[0]) + 10 * Digit(text[1]) + Digit(text[2]))
          || (text[0] == '+' && code == 10 * Digit(text[1]) + Digit(text[2])))
  {
    if |text| >= 3 && IsDigit(text[1]) && IsDigit(text[2]) {
      TwoDigits(text[1..3]);
      if IsDigit(text[0]) {
        var three := text[..3];
        assert AllDigits(three) && three[..2] == [text[0], text[1]];
        TwoDigits(three[..2]);
      } else if text[0] != '+' {
        assert !IsDigit(text[..3][0]);
      }
    } else if |text| >= 3 {
      assert !IsDigit(text[..3][1]) || !IsDigit(text[..3][2]);
      assert !IsDigit(text[1..3][0]) || !IsDigit(text[1..3][1]);
    }
  }

  function Digit(c: char): nat
    requires IsDigit(c)
  {
    (c - '0') as nat
  }

  lemma TwoDigits(s: string)
    requires |s| == 2 && AllDigits(s)
    ensures Value(s) == 10 * Digit(s[0]) + Digit(s[1])
  {
    assert s[..1] == [s[0]] && s[..1][..0] == "";
    assert Value(s[..1]) == Digit(s[0]);
  }

  lemma CodeIsRead(code: nat, c: char, comment: string)
    requires 100 <= code <= 999
    ensures CodeOf(Decimal(code) + [c] + comment) == Some(code)
    ensures Continues(Decimal(code) + [c] + comment) <==> c == '-'
  {
    var text := Decimal(code) + [c] + comment;
    ThreeDigits(code);
    ValueOfDecimal(code);
    assert text[..3] == Decimal(code) && text[3] == c;
    assert IsDigit(text[..3][0]);
  }

  lemma ThreeDigits(code: nat)
    requires 100 <= code <= 999
    ensures |Decimal(code)| == 3
  {
    assert |Decimal(code / 10 / 10)| == 1;
    assert |Decimal(code / 10)| == 2;
  }

  lemma LastLineIsRead(text: string, code: nat, rest: seq<Reply>, expected: nat, ambiguous: bool)
    requires CodeOf(text) == Some(code) && !Continues(text)
    ensures Expect([Line(text)] + rest, expected, ambiguous) ==
            (if code == expected then None
             else if ambiguous then Some(AMBIGUOUS)
             else if 400 <= code <= 499 then Some(TRANSIENT)
             else Some(REJECTED), rest)
  {
    assert ([Line(text)] + rest)[1..] == rest;
  }

  lemma LineIsPassed(text: string, rest: seq<Reply>, expected: nat, ambiguous: bool)
    requires CodeOf(text).Some? && Continues(text)
    ensures Expect([Line(text)] + rest, expected, ambiguous) == Expect(rest, expected, ambiguous)
  {
    assert ([Line(text)] + rest)[1..] == rest;
  }

  /** The first digits of the last line decide, whatever the comments say. */
  lemma {:induction false} ReplyIsRead(answer: ServerReply, rest: seq<Reply>, expected: nat, ambiguous: bool)
    requires answer.Proper()
    ensures Expect(SentLines(answer.code, answer.comments) + rest, expected, ambiguous) ==
            (if answer.code == expected then None
             else if ambiguous then Some(AMBIGUOUS)
             else if 400 <= answer.code <= 499 then Some(TRANSIENT)
             else Some(REJECTED), rest)
    decreases |answer.comments|
  {
    var (code, comments) := (answer.code, answer.comments);
    if |comments| == 1 {
      CodeIsRead(code, ' ', comments[0]);
      LastLineIsRead(Decimal(code) + " " + comments[0], code, rest, expected, ambiguous);
    } else {
      var more := SentLines(code, comments[1..]) + rest;
      CodeIsRead(code, '-', comments[0]);
      ReplyIsRead(ServerReply(code, comments[1..]), rest, expected, ambiguous);
      LineIsPassed(Decimal(code) + "-" + comments[0], more, expected, ambiguous);
      assert SentLines(code, comments) + rest == [Line(Decimal(code) + "-" + comments[0])] + more;
    }
  }

  // ---- What a session comes to ----

  predicate WrittenAt(writes: Writes, i: nat) {
    i < |writes| ==> writes[i]
  }

  function Left(writes: Writes, n: nat): Writes {
    if n <= |writes| then writes[n..] else []
  }

  predicate AllProper(answers: seq<ServerReply>) {
    forall i :: 0 <= i < |answers| ==> answers[i].Proper()
  }

  lemma AskedOnce(answers: seq<ServerReply>, writes: Writes, expected: nat)
    requires AllProper(answers) && answers != [] && Written(writes)
    ensures Ask(SentReplies(answers), writes, expected) ==
            (if answers[0].code == expected then None
             else if 400 <= answers[0].code <= 499 then Some(TRANSIENT)
             else Some(REJECTED), SentReplies(answers[1..]), Later(writes))
  {
    ReplyIsRead(answers[0], SentReplies(answers[1..]), expected, false);
  }

  /** The first `k` commands are written and answered as expected. */
  ghost predicate GoesWell(answers: seq<ServerReply>, writes: Writes, codes: seq<nat>, k: nat) {
    && k <= |answers| && k <= |codes|
    && forall i :: 0 <= i < k ==> answers[i].code == codes[i] && WrittenAt(writes, i)
  }

  lemma FirstGoesWell(answers: seq<ServerReply>, writes: Writes, codes: seq<nat>, k: nat)
    requires GoesWell(answers, writes, codes, k) && k > 0
    ensures answers[0].code == codes[0] && Written(writes) && GoesWell(answers[1..], Later(writes), codes[1..], k - 1)
    ensures answers[1..][k - 1..] == answers[k..] && codes[1..][k - 1..] == codes[k..]
    ensures Left(Later(writes), k - 1) == Left(writes, k)
  {
    assert WrittenAt(writes, 0);
    forall i | 0 <= i < k - 1
      ensures WrittenAt(Later(writes), i)
    {
      assert WrittenAt(writes, i + 1);
    }
  }

  lemma OneCommand(answers: seq<ServerReply>, writes: Writes, codes: seq<nat>)
    requires AllProper(answers) && answers != [] && codes != [] && answers[0].code == codes[0] && Written(writes)
    ensures Dialog(SentReplies(answers), writes, codes) == Dialog(SentReplies(answers[1..]), Later(writes), codes[1..])
  {
    AskedOnce(answers, writes, codes[0]);
  }

  lemma {:induction false} DialogGoesOn(answers: seq<ServerReply>, writes: Writes, codes: seq<nat>, k: nat)
    requires AllProper(answers) && GoesWell(answers, writes, codes, k)
    ensures Dialog(SentReplies(answers), writes, codes) == Dialog(SentReplies(answers[k..]), Left(writes, k), codes[k..])
    decreases k
  {
    if k == 0 {
      assert answers[0..] == answers && codes[0..] == codes && Left(writes, 0) == writes;
    } else {
      FirstGoesWell(answers, writes, codes, k);
      OneCommand(answers, writes, codes);
      DialogGoesOn(answers[1..], Later(writes), codes[1..], k - 1);
    }
  }

  /** What the reply at each step of a session must say: to the connection, to EHLO, AUTH, MAIL
      FROM, each RCPT TO, DATA and the message. */
  function Expected(recipients: nat, i: nat): nat {
    if i == 0 then 220 else if i == 2 then 235 else if i == recipients + 4 then 354 else 250
  }

  /** The step goes well: what it writes is written, and the server agrees. The greeting comes
      without a write. */
  predicate StepSucceeds(answers: seq<ServerReply>, writes: Writes, recipients: nat, i: nat)
    requires i < recipients + 6
  {
    (i > 0 ==> WrittenAt(writes, i - 1)) && i < |answers| && answers[i].code == Expected(recipients, i)
  }

  /** What is reported when step `k` is the first that does not go well. */
  function Report(answers: seq<ServerReply>, writes: Writes, recipients: nat, k: nat): Option<RemoteError> {
    if k >= recipients + 6 then None
    else if k == recipients + 5 then Some(AMBIGUOUS)
    else if (k > 0 && !WrittenAt(writes, k - 1)) || k >= |answers| then Some(UNAVAILABLE)
    else if 400 <= answers[k].code <= 499 then Some(TRANSIENT)
    else if k == 2 then Some(AUTH)
    else Some(REJECTED)
  }

  lemma DialogFails(answers: seq<ServerReply>, writes: Writes, codes: seq<nat>)
    requires AllProper(answers) && codes != []
    requires !(Written(writes) && answers != [] && answers[0].code == codes[0])
    ensures Dialog(SentReplies(answers), writes, codes).0 ==
            if !Written(writes) || answers == [] then Some(UNAVAILABLE)
            else if 400 <= answers[0].code <= 499 then Some(TRANSIENT)
            else if codes[0] == 235 then Some(AUTH)
            else Some(REJECTED)
  {
    if Written(writes) && answers != [] {
      AskedOnce(answers, writes, codes[0]);
    }
  }

  lemma DialogEnds(answers: seq<ServerReply>, writes: Writes, codes: seq<nat>, k: nat)
    requires AllProper(answers) && k <= |answers| && k < |codes|
    requires forall i :: 0 <= i < k ==> answers[i].code == codes[i] && WrittenAt(writes, i)
    requires !(WrittenAt(writes, k) && k < |answers| && answers[k].code == codes[k])
    ensures Dialog(SentReplies(answers), writes, codes).0 ==
            if !WrittenAt(writes, k) || k == |answers| then Some(UNAVAILABLE)
            else if 400 <= answers[k].code <= 499 then Some(TRANSIENT)
            else if codes[k] == 235 then Some(AUTH)
            else Some(REJECTED)
  {
    DialogGoesOn(answers, writes, codes, k);
    DialogFails(answers[k..], Left(writes, k), codes[k..]);
  }

  lemma ExpectedCodes(recipients: nat)
    ensures |Codes(recipients)| == recipients + 4
    ensures forall i :: 0 <= i < recipients + 4 ==> Codes(recipients)[i] == Expected(recipients, i + 1)
  {
  }

  lemma MessageIsDecided(answers: seq<ServerReply>, writes: Writes)
    requires AllProper(answers)
    ensures (if !Written(writes) then Some(AMBIGUOUS) else Expect(SentReplies(answers), 250, true).0) ==
            if Written(writes) && answers != [] && answers[0].code == 250 then None else Some(AMBIGUOUS)
  {
    if answers != [] {
      ReplyIsRead(answers[0], SentReplies(answers[1..]), 250, true);
    }
  }

  lemma StepAnswers(answers: seq<ServerReply>, writes: Writes, recipients: nat, i: nat)
    requires i < recipients + 4 && answers != []
    ensures StepSucceeds(answers, writes, recipients, i + 1) <==>
            WrittenAt(writes, i) && i < |answers[1..]| && answers[1..][i].code == Codes(recipients)[i]
  {
    ExpectedCodes(recipients);
  }

  lemma GreetingIsDecided(answers: seq<ServerReply>, writes: Writes, recipients: nat)
    requires AllProper(answers)
    ensures StepSucceeds(answers, writes, recipients, 0) <==> Expect(SentReplies(answers), 220, false).0.None?
    ensures !StepSucceeds(answers, writes, recipients, 0) ==>
              Session(SentReplies(answers), writes, recipients) == Report(answers, writes, recipients, 0)
    ensures answers != [] ==> Expect(SentReplies(answers), 220, false).1 == SentReplies(answers[1..])
  {
    ExpectedCodes(recipients);
    if answers != [] {
      ReplyIsRead(answers[0], SentReplies(answers[1..]), 220, false);
    }
  }

  lemma StepsAnswer(answers: seq<ServerReply>, writes: Writes, recipients: nat, k: nat)
    requires 0 < k <= recipients + 5 && answers != []
    requires forall i :: 0 <= i < k ==> StepSucceeds(answers, writes, recipients, i)
    ensures k <= |answers|
    ensures forall i :: 0 <= i < k - 1 ==> answers[1..][i].code == Codes(recipients)[i] && WrittenAt(writes, i)
  {
    assert k >= 2 ==> StepSucceeds(answers, writes, recipients, k - 1);
    forall i | 0 <= i < k - 1
      ensures answers[1..][i].code == Codes(recipients)[i] && WrittenAt(writes, i)
    {
      StepAnswers(answers, writes, recipients, i);
    }
  }

  lemma CommandIsDecided(answers: seq<ServerReply>, writes: Writes, recipients: nat, k: nat)
    requires AllProper(answers) && 0 < k <= recipients + 4
    requires forall i :: 0 <= i < k ==> StepSucceeds(answers, writes, recipients, i)
    requires !StepSucceeds(answers, writes, recipients, k)
    ensures Session(SentReplies(answers), writes, recipients) == Report(answers, writes, recipients, k)
  {
    assert StepSucceeds(answers, writes, recipients, 0);
    GreetingIsDecided(answers, writes, recipients);
    StepsAnswer(answers, writes, recipients, k);
    StepAnswers(answers, writes, recipients, k - 1);
    ExpectedCodes(recipients);
    DialogEnds(answers[1..], writes, Codes(recipients), k - 1);
  }

  lemma MessageIsReached(answers: seq<ServerReply>, writes: Writes, recipients: nat)
    requires AllProper(answers)
    requires forall i :: 0 <= i < recipients + 5 ==> StepSucceeds(answers, writes, recipients, i)
    ensures Session(SentReplies(answers), writes, recipients) ==
            if StepSucceeds(answers, writes, recipients, recipients + 5) then None else Some(AMBIGUOUS)
  {
    assert StepSucceeds(answers, writes, recipients, 0);
    GreetingIsDecided(answers, writes, recipients);
    StepsAnswer(answers, writes, recipients, recipients + 5);
    ExpectedCodes(recipients);
    DialogIsOver(answers[1..], writes, recipients);
  }

  /** A session goes through if every step of it does; otherwise the first that does not decides
      what is reported, by its place and by the code. */
  lemma SessionIsDecided(answers: seq<ServerReply>, writes: Writes, recipients: nat, k: nat)
    requires AllProper(answers) && k <= recipients + 6
    requires forall i :: 0 <= i < k ==> StepSucceeds(answers, writes, recipients, i)
    requires k < recipients + 6 ==> !StepSucceeds(answers, writes, recipients, k)
    ensures Session(SentReplies(answers), writes, recipients) == Report(answers, writes, recipients, k)
  {
    if k == 0 {
      GreetingIsDecided(answers, writes, recipients);
    } else if k <= recipients + 4 {
      CommandIsDecided(answers, writes, recipients, k);
    } else {
      MessageIsReached(answers, writes, recipients);
    }
  }

  lemma DialogIsOver(answers: seq<ServerReply>, writes: Writes, recipients: nat)
    requires AllProper(answers) && |answers| >= recipients + 4
    requires forall i :: 0 <= i < recipients + 4 ==> answers[i].code == Codes(recipients)[i] && WrittenAt(writes, i)
    ensures var (error, replies, left) := Dialog(SentReplies(answers), writes, Codes(recipients));
      && error == None
      && (if !Written(left) then Some(AMBIGUOUS) else Expect(replies, 250, true).0) ==
         if WrittenAt(writes, recipients + 4) && |answers| > recipients + 4 && answers[recipients + 4].code == 250
         then None else Some(AMBIGUOUS)
  {
    var n := recipients + 4;
    DialogGoesOn(answers, writes, Codes(recipients), n);
    assert Codes(recipients)[n..] == [];
    MessageIsDecided(answers[n..], Left(writes, n));
  }
}
