/** The message of a submission: `build_message` and its helpers of `src-tauri/src/net/smtp.rs`,
    against a receiver that follows RFC 5322. A string stands for its UTF-8 bytes, and a byte is
    a character below 256; the date is a parameter. */
module SmtpMessages {
  import opened Base
  import opened RemoteErrors
  import opened SendIntents
  import opened ImapLines
  import opened DotStuffing
  import opened Base64

  datatype Body = PlainBody(text: string, html: Option<string>) | E2eeBody(payload: string)

  datatype Request = Request(from: Address, to: seq<Address>, cc: seq<Address>, bcc: seq<Address>,
                             replyTo: seq<Address>, subject: string, body: Body, idempotencyKey: string)
  {
    /** The recipients, in the order in which they are named to the server. */
    function All(): seq<Address> {
      to + cc + bcc
    }

    predicate AllBytes() {
      && (forall a <- [from] + to + cc + bcc + replyTo :: IsBytes(a.email) && (a.name.Some? ==> IsBytes(a.name.value)))
      && IsBytes(subject) && IsBytes(idempotencyKey)
      && match body
         case PlainBody(text, html) => IsBytes(text) && (html.Some? ==> IsBytes(html.value))
         case E2eeBody(payload) => IsBytes(payload)
    }
  }

  predicate ValidHeader(value: string) {
    '\r' !in value && '\n' !in value && '\0' !in value
  }

  predicate ValidAddress(a: Address) {
    && ValidHeader(a.email) && a.email != "" && '@' in a.email
    && (a.name.Some? ==> ValidHeader(a.name.value))
  }

  // ---- Header values ----

  predicate IsAscii(s: string) {
    forall i :: 0 <= i < |s| ==> s[i] < '\U{80}'
  }

  /** `replace` of one character by itself after a backslash. */
  function Backslashed(s: string, c: char): string {
    if s == "" then ""
    else (if s[0] == c then ['\\', c] else [s[0]]) + Backslashed(s[1..], c)
  }

  function EncodeHeader(value: string): string
    requires IsBytes(value)
  {
    if IsAscii(value) then value else "=?UTF-8?B?" + Encode(value) + "?="
  }

  function EncodeDisplayName(value: string): string
    requires IsBytes(value)
  {
    if IsAscii(value) then "\"" + Backslashed(Backslashed(value, '\\'), '"') + "\"" else EncodeHeader(value)
  }

  function FormatAddress(a: Address): string
    requires a.name.Some? ==> IsBytes(a.name.value)
  {
    if a.name.Some? && a.name.value != "" then EncodeDisplayName(a.name.value) + " <" + a.email + ">" else a.email
  }

  function FormatAddresses(list: seq<Address>): string
    requires forall a <- list :: a.name.Some? ==> IsBytes(a.name.value)
  {
    if list == [] then ""
    else if |list| == 1 then FormatAddress(list[0])
    else FormatAddress(list[0]) + ", " + FormatAddresses(list[1..])
  }

  // ---- The body ----

  /** Lines of 76 characters. */
  function Chunked(s: string): string {
    if |s| <= 76 then s else s[..76] + CRLF + Chunked(s[76..])
  }

  function EncodeBody(bytes: string): string
    requires IsBytes(bytes)
  {
    Chunked(Encode(bytes))
  }

  function Boundary(r: Request): string
    requires r.AllBytes()
  {
    "boxplot-" + Digits(r.idempotencyKey, true)
  }

  const BASE64_ENCODED := "Content-Transfer-Encoding: " + "base64"

  function ContentType(mediaType: string, parameters: string): string {
    "Content-Type: " + (mediaType + parameters)
  }

  function Part(boundary: string, mediaType: string, bytes: string): string
    requires IsBytes(bytes)
  {
    "--" + boundary + CRLF + ContentType(mediaType, "; charset=utf-8") + CRLF + BASE64_ENCODED + CRLF + CRLF
    + EncodeBody(bytes) + CRLF
  }

  function BodyHeaders(r: Request): seq<string>
    requires r.AllBytes()
  {
    match r.body
    case PlainBody(_, None) => [ContentType("text/plain", "; charset=utf-8"), BASE64_ENCODED]
    case PlainBody(_, Some(_)) => [ContentType("multipart/alternative", "; boundary=\"" + Boundary(r) + "\"")]
    case E2eeBody(_) => [ContentType("application/", "vnd.boxplot.e2ee+json"), BASE64_ENCODED]
  }

  function BodyText(r: Request): string
    requires r.AllBytes()
  {
    match r.body
    case PlainBody(text, None) => EncodeBody(text)
    case PlainBody(text, Some(html)) =>
      Part(Boundary(r), "text/plain", text) + Part(Boundary(r), "text/html", html)
      + "--" + Boundary(r) + "--"
    case E2eeBody(payload) => EncodeBody(payload)
  }

  // ---- The message ----

  function MessageId(key: string): string
    requires IsBytes(key)
  {
    "<boxplot." + Digits(key, true) + "@boxplot.invalid>"
  }

  function AddressHeaders(r: Request): seq<string>
    requires r.AllBytes()
  {
    ["From: " + FormatAddress(r.from)] + ["To: " + FormatAddresses(r.to)]
    + Optional("Cc: ", r.cc) + Optional("Reply-To: ", r.replyTo)
  }

  function GeneralHeaders(r: Request, date: string): seq<string>
    requires r.AllBytes()
  {
    ["Subject: " + EncodeHeader(r.subject)] + ["Date: " + date]
    + ["Message-ID: " + MessageId(r.idempotencyKey)] + ["MIME-Version: 1.0"]
  }

  function Optional(name: string, list: seq<Address>): seq<string>
    requires forall a <- list :: a.name.Some? ==> IsBytes(a.name.value)
  {
    if list == [] then [] else [name + FormatAddresses(list)]
  }

  function Headers(r: Request, date: string): seq<string>
    requires r.AllBytes()
  {
    AddressHeaders(r) + GeneralHeaders(r, date) + BodyHeaders(r)
  }

  function Join(parts: seq<string>, separator: string): string {
    if parts == [] then "" else if |parts| == 1 then parts[0] else parts[0] + separator + Join(parts[1..], separator)
  }

  predicate Buildable(r: Request) {
    (forall a <- [r.from] + r.to + r.cc + r.bcc + r.replyTo :: ValidAddress(a)) && ValidHeader(r.subject)
  }

  /** `build_message`: nothing is built of a request with an unusable address or subject. */
  function BuildMessage(r: Request, date: string): Answer<string>
    requires r.AllBytes()
  {
    if !Buildable(r) then Failure(REJECTED)
    else Success(Join(Headers(r, date), CRLF) + CRLF + CRLF + BodyText(r))
  }

  /** No character of the text ends a header. */
  ghost predicate StaysInHeader(text: string) {
    forall i :: 0 <= i < |text| ==> text[i] != '\r' && text[i] != '\n' && text[i] != '\0'
  }

  /** A message is built of exactly the requests in which nobody's name, address or the subject
      could break a header, and every address has an at sign. */
  lemma MessageIsBuiltIff(r: Request, date: string)
    requires r.AllBytes()
    ensures BuildMessage(r, date).Success? <==>
      && StaysInHeader(r.subject)
      && (forall a :: a == r.from || a in r.to || a in r.cc || a in r.bcc || a in r.replyTo ==>
            && StaysInHeader(a.email) && (a.name.Some? ==> StaysInHeader(a.name.value))
            && exists i :: 0 <= i < |a.email| && a.email[i] == '@')
    ensures BuildMessage(r, date).Failure? ==> BuildMessage(r, date).error == REJECTED
  {
    var all := [r.from] + r.to + r.cc + r.bcc + r.replyTo;
    forall a
      ensures a in all <==> a == r.from || a in r.to || a in r.cc || a in r.bcc || a in r.replyTo
    {
    }
    forall text: string
      ensures StaysInHeader(text) <==> ValidHeader(text)
    {
    }
    forall a: Address
      ensures ('@' in a.email) <==> exists i :: 0 <= i < |a.email| && a.email[i] == '@'
    {
    }
  }

  // ---- What a receiver reads ----

  /** The header lines up to the first empty line, and what follows it (section 2.1 of RFC 5322). */
  function ReadHeaders(message: string): Option<(seq<string>, string)> {
    var end := LineEnd(message);
    if end == -1 then None
    else if end == 0 then Some(([], message[2..]))
    else
      var more := ReadHeaders(message[end + 2..]);
      if more.None? then None else Some(([message[..end]] + more.value.0, more.value.1))
  }

  predicate OneLine(h: string) {
    '\r' !in h && '\n' !in h
  }

  lemma {:induction false} JoinedAreRead(headers: seq<string>, body: string)
    requires headers != [] && forall i :: 0 <= i < |headers| ==> OneLine(headers[i]) && headers[i] != ""
    ensures ReadHeaders(Join(headers, CRLF) + CRLF + CRLF + body) == Some((headers, body))
  {
    if |headers| == 1 {
      ReadEnd(body);
      assert headers[0] + CRLF + CRLF + body == headers[0] + CRLF + (CRLF + body);
      ReadOne(headers[0], CRLF + body);
      assert headers == [headers[0]] + [];
    } else {
      JoinedAreRead(headers[1..], body);
      var rest := Join(headers[1..], CRLF) + CRLF + CRLF + body;
      assert Join(headers, CRLF) + CRLF + CRLF + body == headers[0] + CRLF + rest;
      ReadOne(headers[0], rest);
      assert headers == [headers[0]] + headers[1..];
    }
  }

  lemma ReadOne(header: string, rest: string)
    requires OneLine(header) && header != "" && ReadHeaders(rest).Some?
    ensures ReadHeaders(header + CRLF + rest) == Some(([header] + ReadHeaders(rest).value.0, ReadHeaders(rest).value.1))
  {
    OneLineHasNoEnd(header);
    FirstLineEnd(header, rest);
    var message := header + CRLF + rest;
    assert message[..|header|] == header && message[|header| + 2..] == rest;
  }

  lemma ReadEnd(body: string)
    ensures ReadHeaders(CRLF + body) == Some(([], body))
  {
    var message := CRLF + body;
    assert CrlfAt(message, 0);
    assert message[2..] == body;
  }

  lemma OneLineHasNoEnd(h: string)
    requires OneLine(h)
    ensures LineEnd(h) == -1
  {
    forall j: nat
      ensures !CrlfAt(h, j)
    {
      assert j < |h| ==> h[j] in h;
    }
  }

  // ---- No value breaks out of its header ----

  lemma {:induction false} BackslashedIsOneLine(s: string, c: char)
    requires OneLine(s) && c != '\r' && c != '\n'
    ensures OneLine(Backslashed(s, c))
  {
    if s != "" {
      assert s[0] in s && OneLine(s[1..]);
      BackslashedIsOneLine(s[1..], c);
    }
  }

  lemma DigitsAreOneLine(s: string, urlSafe: bool)
    requires IsBytes(s)
    ensures OneLine(Digits(s, urlSafe)) && OneLine(Encode(s))
  {
    DigitsAreDigits(s, urlSafe);
    DigitsAreDigits(s, false);
  }

  lemma HeaderIsOneLine(value: string)
    requires IsBytes(value) && ValidHeader(value)
    ensures OneLine(EncodeHeader(value)) && OneLine(EncodeDisplayName(value))
  {
    DigitsAreOneLine(value, false);
    BackslashedIsOneLine(value, '\\');
    BackslashedIsOneLine(Backslashed(value, '\\'), '"');
  }

  lemma AddressIsOneLine(a: Address)
    requires ValidAddress(a) && (a.name.Some? ==> IsBytes(a.name.value))
    ensures OneLine(FormatAddress(a))
  {
    if a.name.Some? && a.name.value != "" {
      HeaderIsOneLine(a.name.value);
    }
  }

  lemma {:induction false} AddressesAreOneLine(list: seq<Address>)
    requires forall a <- list :: ValidAddress(a) && (a.name.Some? ==> IsBytes(a.name.value))
    ensures OneLine(FormatAddresses(list))
  {
    if list != [] {
      AddressIsOneLine(list[0]);
      AddressesAreOneLine(list[1..]);
    }
  }

  predicate SafeHeader(h: string) {
    OneLine(h) && h != "" && h[0] != 'B'
  }

  predicate AllSafe(headers: seq<string>) {
    forall i :: 0 <= i < |headers| ==> SafeHeader(headers[i])
  }

  lemma NamedIsSafe(name: string, value: string)
    requires SafeHeader(name) && OneLine(value)
    ensures AllSafe([name + value])
  {
  }

  lemma TogetherSafe(a: seq<string>, b: seq<string>, c: seq<string>, d: seq<string>)
    requires AllSafe(a) && AllSafe(b) && AllSafe(c) && AllSafe(d)
    ensures AllSafe(a + b + c + d)
  {
  }

  lemma AddressesAreSafe(name: string, list: seq<Address>)
    requires SafeHeader(name) && forall a <- list :: ValidAddress(a) && (a.name.Some? ==> IsBytes(a.name.value))
    ensures AllSafe([name + FormatAddresses(list)]) && AllSafe(Optional(name, list))
  {
    AddressesAreOneLine(list);
    NamedIsSafe(name, FormatAddresses(list));
  }

  lemma AddressHeadersAreSafe(r: Request)
    requires r.AllBytes() && Buildable(r)
    ensures AllSafe(AddressHeaders(r))
  {
    var all := [r.from] + r.to + r.cc + r.bcc + r.replyTo;
    assert r.from in all;
    assert forall a <- r.to + r.cc + r.replyTo :: a in all;
    AddressIsOneLine(r.from);
    NamedIsSafe("From: ", FormatAddress(r.from));
    AddressesAreSafe("To: ", r.to);
    AddressesAreSafe("Cc: ", r.cc);
    AddressesAreSafe("Reply-To: ", r.replyTo);
    TogetherSafe(["From: " + FormatAddress(r.from)], ["To: " + FormatAddresses(r.to)],
                 Optional("Cc: ", r.cc), Optional("Reply-To: ", r.replyTo));
  }

  lemma GeneralHeadersAreSafe(r: Request, date: string)
    requires r.AllBytes() && ValidHeader(r.subject) && OneLine(date)
    ensures AllSafe(GeneralHeaders(r, date))
  {
    HeaderIsOneLine(r.subject);
    NamedIsSafe("Subject: ", EncodeHeader(r.subject));
    NamedIsSafe("Date: ", date);
    MessageIdIsSafe(r.idempotencyKey);
    VersionIsSafe();
    TogetherSafe(["Subject: " + EncodeHeader(r.subject)], ["Date: " + date],
                 ["Message-ID: " + MessageId(r.idempotencyKey)], ["MIME-Version: 1.0"]);
  }

  lemma MessageIdIsSafe(key: string)
    requires IsBytes(key)
    ensures AllSafe(["Message-ID: " + MessageId(key)])
  {
    DigitsAreOneLine(key, true);
    NamedIsSafe("Message-ID: ", MessageId(key));
  }

  lemma VersionIsSafe()
    ensures AllSafe(["MIME-Version: 1.0"])
  {
    assert SafeHeader("MIME-Version: 1.0");
  }

  lemma ContentTypeIsSafe(mediaType: string, parameters: string)
    requires OneLine(mediaType) && OneLine(parameters)
    ensures SafeHeader(ContentType(mediaType, parameters)) && SafeHeader(BASE64_ENCODED)
  {
    NamedIsSafe("Content-Type: ", mediaType + parameters);
    assert [ContentType(mediaType, parameters)][0] == ContentType(mediaType, parameters);
    NamedIsSafe("Content-Transfer-Encoding: ", "base64");
    assert [BASE64_ENCODED][0] == BASE64_ENCODED;
  }

  lemma MultipartIsSafe(r: Request)
    requires r.AllBytes()
    ensures SafeHeader(ContentType("multipart/alternative", "; boundary=\"" + Boundary(r) + "\""))
  {
    DigitsAreOneLine(r.idempotencyKey, true);
    ContentTypeIsSafe("multipart/alternative", "; boundary=\"" + Boundary(r) + "\"");
  }

  lemma BodyHeadersAreSafe(r: Request)
    requires r.AllBytes()
    ensures AllSafe(BodyHeaders(r))
  {
    match r.body
    case PlainBody(_, None) => ContentTypeIsSafe("text/plain", "; charset=utf-8");
    case PlainBody(_, Some(_)) => MultipartIsSafe(r);
    case E2eeBody(_) => ContentTypeIsSafe("application/", "vnd.boxplot.e2ee+json");
  }

  lemma HeadersAreSafe(r: Request, date: string)
    requires r.AllBytes() && Buildable(r) && OneLine(date)
    ensures AllSafe(Headers(r, date))
  {
    AddressHeadersAreSafe(r);
    GeneralHeadersAreSafe(r, date);
    BodyHeadersAreSafe(r);
    TogetherSafe(AddressHeaders(r), GeneralHeaders(r, date), BodyHeaders(r), []);
    assert Headers(r, date) == AddressHeaders(r) + GeneralHeaders(r, date) + BodyHeaders(r) + [];
  }

  /** Whatever the addresses, the subject and the body are, a receiver reads exactly the intended
      headers and then the body: no value can add a header, or end them early. No header is a
      `Bcc`, and none depends on the blind copies. */
  lemma HeadersAreReadBack(r: Request, date: string)
    requires r.AllBytes() && Buildable(r) && OneLine(date)
    ensures ReadHeaders(BuildMessage(r, date).value) == Some((Headers(r, date), BodyText(r)))
    ensures forall h <- Headers(r, date) :: !("Bcc" <= h)
    ensures Headers(r, date) == Headers(r.(bcc := []), date) && BodyText(r) == BodyText(r.(bcc := []))
  {
    HeadersAreSafe(r, date);
    JoinedAreRead(Headers(r, date), BodyText(r));
  }

  /** It starts with its From header, so it arrives as it was built. */
  lemma BuiltArrives(r: Request, date: string, rest: string)
    requires r.AllBytes() && Buildable(r)
    ensures var message := BuildMessage(r, date).value;
            Receive(DotStuff(message) + TERMINATOR + rest) == Some((message + CRLF, rest))
  {
    var message := BuildMessage(r, date).value;
    var headers := Headers(r, date);
    assert message[0] == 'F';
    StuffedArrivesIff(message, rest);
  }

  // ---- The body is read back ----

  function WithoutLineEnds(s: string): string {
    if s == "" then "" else if s[0] == '\r' || s[0] == '\n' then WithoutLineEnds(s[1..]) else [s[0]] + WithoutLineEnds(s[1..])
  }

  lemma {:induction false} LineEndsApart(a: string, b: string)
    ensures WithoutLineEnds(a + b) == WithoutLineEnds(a) + WithoutLineEnds(b)
  {
    if a == "" {
      assert a + b == b;
    } else {
      assert (a + b)[1..] == a[1..] + b;
      LineEndsApart(a[1..], b);
    }
  }

  lemma {:induction false} NoLineEnds(s: string)
    requires OneLine(s)
    ensures WithoutLineEnds(s) == s
  {
    if s != "" {
      assert s[0] in s && OneLine(s[1..]);
      NoLineEnds(s[1..]);
      assert s == [s[0]] + s[1..];
    }
  }

  lemma {:induction false} ChunksAreRead(s: string)
    requires OneLine(s)
    ensures WithoutLineEnds(Chunked(s)) == s
  {
    if |s| <= 76 {
      NoLineEnds(s);
    } else {
      assert OneLine(s[..76]) && OneLine(s[76..]);
      LineEndsApart(s[..76] + CRLF, Chunked(s[76..]));
      LineEndsApart(s[..76], CRLF);
      NoLineEnds(s[..76]);
      ChunksAreRead(s[76..]);
      assert WithoutLineEnds(CRLF) == "" by {
        assert CRLF[1..] == "\n" && CRLF[1..][1..] == "";
      }
      assert s == s[..76] + s[76..];
    }
  }

  lemma {:induction false} ChunksKeepOut(s: string, c: char)
    requires c !in s && c !in CRLF
    ensures c !in Chunked(s)
  {
    if |s| > 76 {
      ChunksKeepOut(s[76..], c);
    }
  }

  /** Decoding an encoded body, line ends left out (section 6.8 of RFC 2045), gives its very bytes;
      and no line of it can be taken for a boundary, for it has no hyphen. */
  lemma BodyIsReadBack(bytes: string)
    requires IsBytes(bytes)
    ensures Decode(WithoutLineEnds(EncodeBody(bytes))) == Some(bytes)
    ensures '-' !in EncodeBody(bytes)
  {
    DigitsAreOneLine(bytes, false);
    ChunksAreRead(Encode(bytes));
    EncodedIsRead(bytes);
    DigitsAreDigits(bytes, false);
    assert '-' in "-_";
    ChunksKeepOut(Encode(bytes), '-');
  }

  /** Every line of a body has at most 76 characters, and all but the last have no fewer (section
      6.8 of RFC 2045). */
  lemma {:induction false} LinesAreShort(s: string)
    requires OneLine(s)
    ensures |Chunked(s)| == |s| + if s == "" then 0 else (|s| - 1) / 76 * 2
    ensures forall i :: 0 <= i < |Chunked(s)| ==>
              && (Chunked(s)[i] == '\r' <==> i % 78 == 76)
              && (Chunked(s)[i] == '\n' <==> i % 78 == 77)
  {
    if |s| <= 76 {
      assert forall i :: 0 <= i < |s| ==> s[i] in s;
    } else {
      LinesAreShort(s[76..]);
      var text := Chunked(s);
      assert text == s[..76] + CRLF + Chunked(s[76..]);
      forall i | 0 <= i < |text|
        ensures (text[i] == '\r' <==> i % 78 == 76) && (text[i] == '\n' <==> i % 78 == 77)
      {
        assert i < 76 ==> text[i] == s[i] && s[i] in s;
        assert i >= 78 ==> text[i] == Chunked(s[76..])[i - 78] && i % 78 == (i - 78) % 78;
      }
    }
  }

  /** The message id names the mutation: no two idempotency keys share one. */
  lemma MessageIdIdentifies(key: string, key': string)
    requires IsBytes(key) && IsBytes(key') && MessageId(key) == MessageId(key')
    ensures key == key'
  {
    var (prefix, digits, digits', suffix) := ("<boxplot.", Digits(key, true), Digits(key', true), "@boxplot.invalid>");
    SameMiddle(prefix, digits, digits', suffix);
    DigitsAreRead(key, true);
    DigitsAreRead(key', true);
  }

  lemma SameMiddle(prefix: string, a: string, b: string, suffix: string)
    requires prefix + a + suffix == prefix + b + suffix
    ensures a == b
  {
    assert |a| == |b|;
    assert a == (prefix + a + suffix)[|prefix|..|prefix| + |a|];
    assert b == (prefix + b + suffix)[|prefix|..|prefix| + |b|];
  }
}
