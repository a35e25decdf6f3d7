/** The message of a submission as its recipient reads it: its fields by name, encoded words
    (RFC 2047), lists of addresses (section 3.4 of RFC 5322) and the parts of its body (section
    5.1 of RFC 2046). What `build_message` of `src-tauri/src/net/smtp.rs` writes is read as the
    request said. */
module MailReading {
  import opened Base
  import opened SendIntents
  import opened DotStuffing
  import opened Base64
  import opened Texts
  import opened SmtpMessages

  // ---- Fields by name ----

  /** The values of the fields with a name. */
  function Fields(headers: seq<string>, name: string): seq<string> {
    if headers == [] then []
    else (if name + ": " <= headers[0] then [headers[0][|name| + 2..]] else []) + Fields(headers[1..], name)
  }

  lemma {:induction false} FieldsTogether(a: seq<string>, b: seq<string>, name: string)
    ensures Fields(a + b, name) == Fields(a, name) + Fields(b, name)
  {
    if a == [] {
      assert a + b == b;
    } else {
      assert (a + b)[1..] == a[1..] + b;
      FieldsTogether(a[1..], b, name);
    }
  }

  lemma SameName(header: string, name: string, asked: string)
    requires ':' !in name && ':' !in asked && name + ": " <= header && asked + ": " <= header
    ensures name == asked
  {
    assert name == header[..|name|] && asked == header[..|asked|];
    assert (name + ": ")[|name|] == ':' && (asked + ": ")[|asked|] == ':';
    assert forall i :: 0 <= i < |name| ==> name[i] == header[i] && name[i] in name;
    assert forall i :: 0 <= i < |asked| ==> asked[i] == header[i] && asked[i] in asked;
    assert header[|name|] == ':' && header[|asked|] == ':';
  }

  function IfNamed(name: string, asked: string, value: string): seq<string> {
    if name == asked then [value] else []
  }

  lemma OneField(start: string, name: string, value: string, asked: string)
    requires start == name + ": " && ':' !in name && ':' !in asked
    ensures Fields([start + value], asked) == IfNamed(name, asked, value)
  {
    var header := start + value;
    assert header[..|start|] == start && header[|start|..] == value;
    if asked + ": " <= header {
      SameName(header, name, asked);
    }
    assert Fields([header][1..], asked) == [];
  }

  lemma OptionalField(start: string, name: string, list: seq<Address>, asked: string)
    requires forall a <- list :: a.name.Some? ==> IsBytes(a.name.value)
    requires start == name + ": " && ':' !in name && ':' !in asked
    ensures Fields(Optional(start, list), asked) == if list == [] then [] else IfNamed(name, asked, FormatAddresses(list))
  {
    if list != [] {
      OneField(start, name, FormatAddresses(list), asked);
    }
  }

  lemma FieldsOfFour(a: seq<string>, b: seq<string>, c: seq<string>, d: seq<string>, name: string)
    ensures Fields(a + b + c + d, name) == Fields(a, name) + Fields(b, name) + Fields(c, name) + Fields(d, name)
  {
    FieldsTogether(a, b, name);
    FieldsTogether(a + b, c, name);
    FieldsTogether(a + b + c, d, name);
  }

  lemma AddressNames()
    ensures "From: " == "From" + ": " && "To: " == "To" + ": " && "Cc: " == "Cc" + ": " && "Reply-To: " == "Reply-To" + ": "
    ensures ':' !in "From" && ':' !in "To" && ':' !in "Cc" && ':' !in "Reply-To"
  {
  }

  lemma AddressFields(r: Request, asked: string)
    requires r.AllBytes() && ':' !in asked
    ensures Fields(AddressHeaders(r), asked) ==
            IfNamed("From", asked, FormatAddress(r.from)) + IfNamed("To", asked, FormatAddresses(r.to))
            + (if r.cc == [] then [] else IfNamed("Cc", asked, FormatAddresses(r.cc)))
            + (if r.replyTo == [] then [] else IfNamed("Reply-To", asked, FormatAddresses(r.replyTo)))
  {
    AddressNames();
    OneField("From: ", "From", FormatAddress(r.from), asked);
    OneField("To: ", "To", FormatAddresses(r.to), asked);
    OptionalField("Cc: ", "Cc", r.cc, asked);
    OptionalField("Reply-To: ", "Reply-To", r.replyTo, asked);
    FieldsOfFour(["From: " + FormatAddress(r.from)], ["To: " + FormatAddresses(r.to)], Optional("Cc: ", r.cc),
                 Optional("Reply-To: ", r.replyTo), asked);
  }

  lemma GeneralNames()
    ensures "Subject: " == "Subject" + ": " && "Date: " == "Date" + ": " && "Message-ID: " == "Message-ID" + ": "
    ensures ':' !in "Subject" && ':' !in "Date" && ':' !in "Message-ID"
  {
  }

  lemma VersionName()
    ensures "MIME-Version: " == "MIME-Version" + ": " && ':' !in "MIME-Version"
    ensures "MIME-Version: " + "1.0" == "MIME-Version: 1.0"
  {
  }

  lemma VersionField(asked: string)
    requires ':' !in asked
    ensures Fields(["MIME-Version: 1.0"], asked) == IfNamed("MIME-Version", asked, "1.0")
  {
    VersionName();
    OneField("MIME-Version: ", "MIME-Version", "1.0", asked);
  }

  lemma GeneralFields(r: Request, date: string, asked: string)
    requires r.AllBytes() && ':' !in asked
    ensures Fields(GeneralHeaders(r, date), asked) ==
            IfNamed("Subject", asked, EncodeHeader(r.subject)) + IfNamed("Date", asked, date)
            + IfNamed("Message-ID", asked, MessageId(r.idempotencyKey)) + IfNamed("MIME-Version", asked, "1.0")
  {
    GeneralNames();
    OneField("Subject: ", "Subject", EncodeHeader(r.subject), asked);
    OneField("Date: ", "Date", date, asked);
    OneField("Message-ID: ", "Message-ID", MessageId(r.idempotencyKey), asked);
    VersionField(asked);
    FieldsOfFour(["Subject: " + EncodeHeader(r.subject)], ["Date: " + date],
                 ["Message-ID: " + MessageId(r.idempotencyKey)], ["MIME-Version: 1.0"], asked);
  }

  const PLAIN_TEXT := "text/plain" + "; charset=utf-8"
  const HTML_TEXT := "text/html" + "; charset=utf-8"
  const E2EE_JSON := "application/" + "vnd.boxplot.e2ee+json"
  const MULTIPART := "multipart/alternative" + "; boundary=\""

  function MediaType(r: Request): string
    requires r.AllBytes()
  {
    match r.body
    case PlainBody(_, None) => PLAIN_TEXT
    case PlainBody(_, Some(_)) => MULTIPART + Boundary(r) + "\""
    case E2eeBody(_) => E2EE_JSON
  }

  lemma TypeField(mediaType: string, parameters: string, asked: string)
    requires ':' !in asked
    ensures Fields([ContentType(mediaType, parameters)], asked) == IfNamed("Content-Type", asked, mediaType + parameters)
  {
    assert "Content-Type: " == "Content-Type" + ": " && ':' !in "Content-Type";
    OneField("Content-Type: ", "Content-Type", mediaType + parameters, asked);
  }

  lemma EncodingField(asked: string)
    requires ':' !in asked
    ensures Fields([BASE64_ENCODED], asked) == IfNamed("Content-Transfer-Encoding", asked, "base64")
  {
    assert "Content-Transfer-Encoding: " == "Content-Transfer-Encoding" + ": " && ':' !in "Content-Transfer-Encoding";
    OneField("Content-Transfer-Encoding: ", "Content-Transfer-Encoding", "base64", asked);
  }

  lemma TypeAndEncoding(mediaType: string, parameters: string, asked: string)
    requires ':' !in asked
    ensures Fields([ContentType(mediaType, parameters), BASE64_ENCODED], asked) ==
            IfNamed("Content-Type", asked, mediaType + parameters) + IfNamed("Content-Transfer-Encoding", asked, "base64")
  {
    TypeField(mediaType, parameters, asked);
    EncodingField(asked);
    FieldsTogether([ContentType(mediaType, parameters)], [BASE64_ENCODED], asked);
    assert [ContentType(mediaType, parameters)] + [BASE64_ENCODED] == [ContentType(mediaType, parameters), BASE64_ENCODED];
  }

  lemma BodyFields(r: Request, asked: string)
    requires r.AllBytes() && ':' !in asked
    ensures Fields(BodyHeaders(r), asked) ==
            IfNamed("Content-Type", asked, MediaType(r))
            + if r.body.PlainBody? && r.body.html.Some? then [] else IfNamed("Content-Transfer-Encoding", asked, "base64")
  {
    match r.body
    case PlainBody(_, None) => TypeAndEncoding("text/plain", "; charset=utf-8", asked);
    case PlainBody(_, Some(_)) =>
      TypeField("multipart/alternative", "; boundary=\"" + Boundary(r) + "\"", asked);
      Together("multipart/alternative", "; boundary=\"", Boundary(r), "\"");
    case E2eeBody(_) => TypeAndEncoding("application/", "vnd.boxplot.e2ee+json", asked);
  }

  lemma Together(a: string, b: string, c: string, d: string)
    ensures a + (b + c + d) == a + b + c + d
  {
  }

  lemma FieldsAre(r: Request, date: string, asked: string)
    requires r.AllBytes() && ':' !in asked
    ensures Fields(Headers(r, date), asked) ==
            Fields(AddressHeaders(r), asked) + Fields(GeneralHeaders(r, date), asked) + Fields(BodyHeaders(r), asked)
  {
    FieldsTogether(AddressHeaders(r), GeneralHeaders(r, date), asked);
    FieldsTogether(AddressHeaders(r) + GeneralHeaders(r, date), BodyHeaders(r), asked);
  }

  // ---- Encoded words ----

  const ENCODED_WORD := "=?UTF-8?B?"

  /** A value that is an encoded word stands for the bytes it encodes; any other stands for itself. */
  function ReadText(value: string): Option<string> {
    if ENCODED_WORD <= value && |value| >= |ENCODED_WORD| + 2 && value[|value| - 2..] == "?="
    then Decode(value[|ENCODED_WORD|..|value| - 2])
    else Some(value)
  }

  predicate LooksEncoded(value: string) {
    ENCODED_WORD <= value && |value| >= |ENCODED_WORD| + 2 && value[|value| - 2..] == "?="
  }

  lemma EncodedWordIsRead(digits: string)
    ensures ReadText("=?UTF-8?B?" + digits + "?=") == Decode(digits)
  {
    var value := ENCODED_WORD + digits + "?=";
    assert value[..|ENCODED_WORD|] == ENCODED_WORD && value[|value| - 2..] == "?=";
    assert value[|ENCODED_WORD|..|value| - 2] == digits;
  }

  lemma {:induction false} DecodedIsShort(text: string)
    ensures ReadDigits(text).Some? ==> |ReadDigits(text).value| <= |text|
  {
    if |text| >= 4 {
      DecodedIsShort(text[4..]);
    }
  }

  lemma {:induction false} PaddingGoes(text: string)
    ensures |WithoutPadding(text)| <= |text|
  {
    if text != "" && text[|text| - 1] == '=' {
      PaddingGoes(text[..|text| - 1]);
    }
  }

  /** A header value is read as it was given, unless it is plain ASCII and already looks like an
      encoded word: only then it is sent as it is and read as what it seems to encode. */
  lemma HeaderIsReadBackIff(value: string)
    requires IsBytes(value)
    ensures ReadText(EncodeHeader(value)) == Some(value) <==> !(IsAscii(value) && LooksEncoded(value))
  {
    if !IsAscii(value) {
      EncodedWordIsRead(Encode(value));
      EncodedIsRead(value);
    } else if LooksEncoded(value) {
      var digits := value[|ENCODED_WORD|..|value| - 2];
      PaddingGoes(digits);
      DecodedIsShort(WithoutPadding(digits));
    }
  }

  // ---- Addresses ----

  /** What a quoted string holds, after its opening quote, and what follows its end. */
  function ReadQuoted(text: string): (r: Option<(string, string)>)
    ensures r.Some? ==> |r.value.1| < |text|
  {
    if text == "" then None
    else if text[0] == '"' then Some(("", text[1..]))
    else if text[0] == '\\' && |text| == 1 then None
    else
      var taken := if text[0] == '\\' then 2 else 1;
      var more := ReadQuoted(text[taken..]);
      if more.None? then None else Some(([text[taken - 1]] + more.value.0, more.value.1))
  }

  function Escaped(name: string): string {
    Backslashed(Backslashed(name, '\\'), '"')
  }

  lemma {:induction false} BackslashedApart(a: string, b: string, c: char)
    ensures Backslashed(a + b, c) == Backslashed(a, c) + Backslashed(b, c)
  {
    if a == "" {
      assert a + b == b;
    } else {
      assert (a + b)[1..] == a[1..] + b;
      BackslashedApart(a[1..], b, c);
    }
  }

  lemma FirstEscaped(name: string)
    requires name != ""
    ensures Escaped(name) == (if name[0] in {'\\', '"'} then ['\\', name[0]] else [name[0]]) + Escaped(name[1..])
  {
    var first := if name[0] == '\\' then ['\\', name[0]] else [name[0]];
    BackslashedApart(first, Backslashed(name[1..], '\\'), '"');
    assert Backslashed(first, '"') == if name[0] in {'\\', '"'} then ['\\', name[0]] else [name[0]] by {
      assert first[1..] == if name[0] == '\\' then [name[0]] else "";
      assert [name[0]][1..] == "";
    }
  }

  /** A quoted name is read back, whatever quotes and backslashes it has. */
  lemma {:induction false} EscapedIsRead(name: string, rest: string)
    ensures ReadQuoted(Escaped(name) + "\"" + rest) == Some((name, rest))
  {
    var text := Escaped(name) + "\"" + rest;
    if name == "" {
      assert text == "\"" + rest && text[1..] == rest;
    } else {
      FirstEscaped(name);
      var first := if name[0] in {'\\', '"'} then ['\\', name[0]] else [name[0]];
      var more := Escaped(name[1..]) + "\"" + rest;
      assert text == first + more && text[|first|..] == more;
      EscapedIsRead(name[1..], rest);
      assert name == [name[0]] + name[1..];
    }
  }

  /** The address in angle brackets after a name. */
  function ReadAngle(name: string, text: string): (r: Option<(Address, string)>)
    ensures r.Some? ==> |r.value.1| < |text|
  {
    if !(" <" <= text) then None
    else
      var email := UpTo(text[2..], '>');
      if |text| == |email| + 2 then None else Some((Address(Some(name), email), text[|email| + 3..]))
  }

  /** One address of a list, and what follows it: a quoted or encoded name before the email in
      angle brackets, or the email alone. */
  function ReadAddress(text: string): (r: Option<(Address, string)>)
    ensures r.Some? ==> |r.value.1| <= |text|
  {
    if text != "" && text[0] == '"' then
      var name := ReadQuoted(text[1..]);
      if name.None? then None else ReadAngle(name.value.0, name.value.1)
    else if ENCODED_WORD <= text then
      var end := Find(text[|ENCODED_WORD|..], "?=");
      if end == -1 then None
      else
        var name := Decode(text[|ENCODED_WORD|..][..end]);
        if name.None? then None else ReadAngle(name.value, text[|ENCODED_WORD|..][end + 2..])
    else
      var email := UpTo(text, ',');
      Some((Address(None, email), text[|email|..]))
  }

  function ReadAddresses(text: string): Option<seq<Address>>
    decreases |text|
  {
    if text == "" then Some([])
    else
      var first := ReadAddress(text);
      if first.None? then None
      else if first.value.1 == "" then Some([first.value.0])
      else if !(", " <= first.value.1) then None
      else
        var more := ReadAddresses(first.value.1[2..]);
        if more.None? then None else Some([first.value.0] + more.value)
  }

  /** An email that stands out from what surrounds it. */
  predicate StandsOut(a: Address) {
    if a.name.Some? && a.name.value != "" then '>' !in a.email
    else ',' !in a.email && a.email != "" && a.email[0] != '"' && !(ENCODED_WORD <= a.email)
  }

  /** An empty name is no name. */
  function Normal(a: Address): Address {
    if a.name == Some("") then a.(name := None) else a
  }

  function NormalAll(list: seq<Address>): seq<Address> {
    KeysOf(list, Normal)
  }

  lemma AngleIsRead(name: string, email: string, rest: string)
    requires '>' !in email
    ensures ReadAngle(name, " <" + email + ">" + rest) == Some((Address(Some(name), email), rest))
  {
    var text := " <" + email + ">" + rest;
    assert text[..2] == " <" && text[2..] == email + ['>'] + rest;
    UpToIs(email, '>', rest);
    assert text[|email| + 3..] == rest;
  }

  lemma QuotedNameIsRead(name: string, angle: string)
    ensures ReadAddress("\"" + Escaped(name) + "\"" + angle) == ReadAngle(name, angle)
  {
    var text := "\"" + Escaped(name) + "\"" + angle;
    assert text[0] == '"' && text[1..] == Escaped(name) + "\"" + angle;
    EscapedIsRead(name, angle);
  }

  lemma EncodedNameIsRead(name: string, angle: string)
    requires IsBytes(name)
    ensures ReadAddress("=?UTF-8?B?" + Encode(name) + "?=" + angle) == ReadAngle(name, angle)
  {
    var digits := Encode(name);
    var text := ENCODED_WORD + digits + "?=" + angle;
    assert text == ENCODED_WORD + (digits + "?=" + angle);
    AfterStart(ENCODED_WORD, digits + "?=" + angle);
    assert '?' !in digits by {
      DigitsAreDigits(name, false);
      assert Sextet('?') == 64;
    }
    MarkerIsFirst(digits, "?=", angle);
    assert (digits + "?=" + angle)[..|digits|] == digits;
    EncodedIsRead(name);
  }

  lemma NamedIsRead(a: Address, rest: string)
    requires a.name.Some? && a.name.value != "" && IsBytes(a.name.value)
    ensures ReadAddress(FormatAddress(a) + rest) == ReadAngle(a.name.value, " <" + a.email + ">" + rest)
  {
    var name := EncodeDisplayName(a.name.value);
    assert FormatAddress(a) + rest == name + (" <" + a.email + ">" + rest);
    if IsAscii(a.name.value) {
      QuotedNameIsRead(a.name.value, " <" + a.email + ">" + rest);
    } else {
      EncodedNameIsRead(a.name.value, " <" + a.email + ">" + rest);
    }
  }

  lemma AfterStart(start: string, more: string)
    ensures start <= start + more && (start + more)[|start|..] == more
  {
  }

  /** One formatted address is read back, whatever follows it in the list. */
  lemma AddressIsRead(a: Address, rest: string)
    requires (a.name.Some? ==> IsBytes(a.name.value)) && StandsOut(a) && (rest == "" || rest[0] == ',')
    ensures ReadAddress(FormatAddress(a) + rest) == Some((Normal(a), rest))
  {
    if a.name.Some? && a.name.value != "" {
      NamedIsRead(a, rest);
      AngleIsRead(a.name.value, a.email, rest);
    } else {
      EmailIsRead(a.email, rest);
    }
  }

  /** A usable address is read back exactly if its email stands out: nothing else in it matters. */
  lemma AddressIsReadIff(a: Address)
    requires ValidAddress(a) && (a.name.Some? ==> IsBytes(a.name.value))
    ensures ReadAddress(FormatAddress(a) + "") == Some((Normal(a), "")) <==> StandsOut(a)
  {
    if StandsOut(a) {
      AddressIsRead(a, "");
    } else if a.name.Some? && a.name.value != "" {
      NamedIsRead(a, "");
    } else {
      assert a.email + "" == a.email;
    }
  }

  lemma EmailIsRead(email: string, rest: string)
    requires ',' !in email && email != "" && email[0] != '"' && !(ENCODED_WORD <= email) && (rest == "" || rest[0] == ',')
    ensures ReadAddress(email + rest) == Some((Address(None, email), rest))
  {
    var text := email + rest;
    if |email| >= |ENCODED_WORD| {
      assert text[..|ENCODED_WORD|] == email[..|ENCODED_WORD|];
    } else if rest != "" {
      assert text[|email|] == ',' && ENCODED_WORD[|email|] != ',';
    }
    if rest == "" {
      assert text == email;
      UpToAll(email, ',');
    } else {
      assert text == email + [','] + rest[1..];
      UpToIs(email, ',', rest[1..]);
    }
    assert text[|email|..] == rest;
  }

  lemma {:induction false} UpToAll(text: string, c: char)
    requires c !in text
    ensures UpTo(text, c) == text
  {
    if text != "" {
      UpToAll(text[1..], c);
    }
  }

  /** A formatted list is read back: no name of it becomes an address, and no address is lost. */
  lemma {:induction false} AddressesAreRead(list: seq<Address>)
    requires forall a <- list :: (a.name.Some? ==> IsBytes(a.name.value)) && StandsOut(a)
    ensures ReadAddresses(FormatAddresses(list)) == Some(NormalAll(list))
  {
    if |list| == 1 {
      AddressIsRead(list[0], "");
      LastIsRead(FormatAddress(list[0]), Normal(list[0]));
      assert NormalAll(list) == [Normal(list[0])];
    } else if list != [] {
      AddressesAreRead(list[1..]);
      AddressIsRead(list[0], ", " + FormatAddresses(list[1..]));
      OneMoreIsRead(FormatAddress(list[0]), Normal(list[0]), FormatAddresses(list[1..]));
      FormattedOneByOne(list);
      NormalOneByOne(list);
    }
  }

  lemma FormattedOneByOne(list: seq<Address>)
    requires |list| > 1 && forall a <- list :: a.name.Some? ==> IsBytes(a.name.value)
    ensures FormatAddresses(list) == FormatAddress(list[0]) + (", " + FormatAddresses(list[1..]))
  {
    AppendTogether(FormatAddress(list[0]), ", ", FormatAddresses(list[1..]));
  }

  lemma AppendTogether(a: string, b: string, c: string)
    ensures a + b + c == a + (b + c)
  {
  }

  lemma NormalOneByOne(list: seq<Address>)
    requires |list| > 1
    ensures NormalAll(list) == [Normal(list[0])] + NormalAll(list[1..])
  {
  }

  lemma LastIsRead(text: string, a: Address)
    requires text != "" && ReadAddress(text + "") == Some((a, ""))
    ensures ReadAddresses(text) == Some([a])
  {
    assert text + "" == text;
  }

  lemma OneMoreIsRead(text: string, a: Address, rest: string)
    requires text != "" && ReadAddress(text + (", " + rest)) == Some((a, ", " + rest)) && ReadAddresses(rest).Some?
    ensures ReadAddresses(text + (", " + rest)) == Some([a] + ReadAddresses(rest).value)
  {
    AfterStart(", ", rest);
  }

  // ---- The body ----

  function Delimiter(boundary: string): string {
    CRLF + "--" + boundary
  }

  /** The parts of a multipart body, each up to the next delimiter, after the dashes and the
      boundary of its own. */
  function ReadParts(text: string, boundary: string): Option<seq<string>>
    decreases |text|
  {
    if text == "--" then Some([])
    else if !(CRLF <= text) then None
    else
      var end := Find(text[2..], Delimiter(boundary));
      if end == -1 then None
      else
        var more := ReadParts(text[2..][end + |Delimiter(boundary)|..], boundary);
        if more.None? then None else Some([text[2..][..end]] + more.value)
  }

  function ReadMultipart(body: string, boundary: string): Option<seq<string>> {
    if "--" + boundary <= body then ReadParts(body[2 + |boundary|..], boundary) else None
  }

  /** The type of a part and the bytes that it encodes. */
  function ReadPart(part: string): Option<(string, string)> {
    var read := ReadHeaders(part);
    if read.None? || |Fields(read.value.0, "Content-Type")| != 1 || Fields(read.value.0, "Content-Transfer-Encoding") != ["base64"]
    then None
    else
      var bytes := Decode(WithoutLineEnds(read.value.1));
      if bytes.None? then None else Some((Fields(read.value.0, "Content-Type")[0], bytes.value))
  }

  /** A body of one part, or a text with its HTML form as the alternative. */
  function ReadBody(headers: seq<string>, body: string): Option<Body> {
    var types := Fields(headers, "Content-Type");
    if |types| != 1 then None
    else if MULTIPART <= types[0] then
      var parts := ReadMultipart(body, UpTo(types[0][|MULTIPART|..], '"'));
      if parts.None? || |parts.value| != 2 then None
      else
        var text, html := ReadPart(parts.value[0]), ReadPart(parts.value[1]);
        if text.None? || html.None? || text.value.0 != PLAIN_TEXT || html.value.0 != HTML_TEXT then None
        else Some(PlainBody(text.value.1, Some(html.value.1)))
    else if Fields(headers, "Content-Transfer-Encoding") != ["base64"] then None
    else
      var bytes := Decode(WithoutLineEnds(body));
      if bytes.None? then None
      else if types[0] == PLAIN_TEXT then Some(PlainBody(bytes.value, None))
      else if types[0] == E2EE_JSON then Some(E2eeBody(bytes.value))
      else None
  }

  /** No line starts with a dash. */
  predicate NoDash(text: string) {
    forall i :: 0 <= i && i + 2 < |text| && text[i] == '\r' ==> text[i + 2] != '-'
  }

  lemma NoDashAfter(line: string, rest: string)
    requires '\r' !in line && NoDash(rest) && (rest == "" || rest[0] != '-')
    ensures NoDash(line + CRLF + rest)
  {
    var text := line + CRLF + rest;
    forall i | 0 <= i && i + 2 < |text|
      ensures text[i] == '\r' ==> text[i + 2] != '-'
    {
      if i < |line| {
        assert text[i] == line[i] && line[i] in line;
      } else {
        assert text[i + 2] == rest[i - |line|];
        assert i >= |line| + 2 ==> text[i] == rest[i - |line| - 2];
      }
    }
  }

  /** A part without such a line ends where the next delimiter starts. */
  lemma DelimiterIsFound(part: string, boundary: string, after: string)
    requires NoDash(part) && part != "" && part[|part| - 1] != '\r'
    ensures var text := part + Delimiter(boundary) + after;
            Find(text, Delimiter(boundary)) == |part| && text[|part| + |Delimiter(boundary)|..] == after
  {
    var delimiter := Delimiter(boundary);
    var text := part + delimiter + after;
    assert OccursAt(text, delimiter, |part|);
    forall j: nat | j < |part|
      ensures !OccursAt(text, delimiter, j)
    {
      if j + |delimiter| <= |text| {
        assert delimiter[0] == '\r' && delimiter[2] == '-';
        assert text[j..j + |delimiter|][0] == text[j] && text[j..j + |delimiter|][2] == text[j + 2];
        NoDelimiterInside(part, delimiter + after, j);
        assert text == part + (delimiter + after);
      }
    }
  }

  lemma NoDelimiterInside(part: string, more: string, j: nat)
    requires NoDash(part) && part != "" && part[|part| - 1] != '\r' && j < |part|
    requires |more| >= 2 && more[0] == '\r'
    ensures !((part + more)[j] == '\r' && (part + more)[j + 2] == '-')
  {
    var text := part + more;
    if j + 2 < |part| {
      assert text[j] == part[j] && text[j + 2] == part[j + 2];
    } else if j + 2 == |part| {
      assert text[j + 2] == more[0];
    } else {
      assert text[j] == part[|part| - 1];
    }
  }

  lemma PartHeadersAreRead(mediaType: string, parameters: string, bytes: string)
    requires IsBytes(bytes) && OneLine(mediaType) && OneLine(parameters)
    ensures ReadHeaders(PartText(mediaType, parameters, bytes)) ==
            Some(([ContentType(mediaType, parameters), BASE64_ENCODED], EncodeBody(bytes)))
  {
    var headers := [ContentType(mediaType, parameters), BASE64_ENCODED];
    ContentTypeIsSafe(mediaType, parameters);
    JoinedAreRead(headers, EncodeBody(bytes));
    PartIsJoined(headers[0], headers[1], EncodeBody(bytes));
  }

  lemma PartFields(mediaType: string, parameters: string)
    ensures var headers := [ContentType(mediaType, parameters), BASE64_ENCODED];
      && Fields(headers, "Content-Type") == [mediaType + parameters]
      && Fields(headers, "Content-Transfer-Encoding") == ["base64"]
  {
    BodyNames();
    TypeAndEncoding(mediaType, parameters, "Content-Type");
    TypeAndEncoding(mediaType, parameters, "Content-Transfer-Encoding");
  }

  lemma PartIsRead(mediaType: string, parameters: string, bytes: string)
    requires IsBytes(bytes) && OneLine(mediaType) && OneLine(parameters)
    ensures ReadPart(PartText(mediaType, parameters, bytes)) == Some((mediaType + parameters, bytes))
  {
    PartHeadersAreRead(mediaType, parameters, bytes);
    PartFields(mediaType, parameters);
    BodyIsReadBack(bytes);
  }

  function PartText(mediaType: string, parameters: string, bytes: string): string
    requires IsBytes(bytes)
  {
    ContentType(mediaType, parameters) + CRLF + (BASE64_ENCODED + CRLF + (CRLF + EncodeBody(bytes)))
  }

  lemma PartIsJoined(a: string, b: string, body: string)
    ensures Join([a, b], CRLF) + CRLF + CRLF + body == a + CRLF + (b + CRLF + (CRLF + body))
  {
    assert [a, b][1..] == [b];
  }

  lemma PartHasNoDash(mediaType: string, parameters: string, bytes: string)
    requires IsBytes(bytes) && OneLine(mediaType) && OneLine(parameters)
    ensures var part := PartText(mediaType, parameters, bytes);
            NoDash(part) && part != "" && part[|part| - 1] != '\r'
  {
    BodyIsReadBack(bytes);
    DigitsAreOneLine(bytes, false);
    ChunkedEnd(Encode(bytes));
    ContentTypeIsSafe(mediaType, parameters);
    ThreeLinesHaveNoDash(ContentType(mediaType, parameters), BASE64_ENCODED, EncodeBody(bytes));
  }

  lemma ThreeLinesHaveNoDash(a: string, b: string, body: string)
    requires SafeHeader(a) && SafeHeader(b) && b[0] != '-' && '-' !in body && (body == "" || body[|body| - 1] != '\r')
    ensures var text := a + CRLF + (b + CRLF + (CRLF + body));
            NoDash(text) && text != "" && text[|text| - 1] != '\r'
  {
    assert NoDash(body) && (body == "" || body[0] != '-') by {
      assert forall i :: 0 <= i < |body| ==> body[i] in body;
    }
    NoDashAfter("", body);
    assert "" + CRLF + body == CRLF + body;
    NoDashAfter(b, CRLF + body);
    NoDashAfter(a, b + CRLF + (CRLF + body));
  }

  lemma {:induction false} ChunkedEnd(s: string)
    requires '\r' !in s
    ensures Chunked(s) == "" || Chunked(s)[|Chunked(s)| - 1] != '\r'
  {
    if |s| > 76 {
      ChunkedEnd(s[76..]);
    }
  }

  lemma PartThenRest(part: string, boundary: string, after: string)
    requires NoDash(part) && part != "" && part[|part| - 1] != '\r' && ReadParts(after, boundary).Some?
    ensures ReadParts(CRLF + (part + Delimiter(boundary) + after), boundary)
            == Some([part] + ReadParts(after, boundary).value)
  {
    AfterStart(CRLF, part + Delimiter(boundary) + after);
    DelimiterIsFound(part, boundary, after);
    assert (part + Delimiter(boundary) + after)[..|part|] == part;
  }

  lemma TwoParts(boundary: string, first: string, second: string)
    requires NoDash(first) && first != "" && first[|first| - 1] != '\r'
    requires NoDash(second) && second != "" && second[|second| - 1] != '\r'
    ensures ReadMultipart("--" + boundary
            + (CRLF + (first + Delimiter(boundary) + (CRLF + (second + Delimiter(boundary) + "--")))), boundary)
         == Some([first, second])
  {
    var end := CRLF + (second + Delimiter(boundary) + "--");
    PartThenRest(second, boundary, "--");
    PartThenRest(first, boundary, end);
    AfterStart("--" + boundary, CRLF + (first + Delimiter(boundary) + end));
    assert [second] + [] == [second] && [first] + [second] == [first, second];
  }

  lemma PartIs(boundary: string, mediaType: string, bytes: string)
    requires IsBytes(bytes)
    ensures Part(boundary, mediaType, bytes) ==
            "--" + boundary + (CRLF + (PartText(mediaType, "; charset=utf-8", bytes) + CRLF))
  {
    PartTogether("--" + boundary, ContentType(mediaType, "; charset=utf-8"), BASE64_ENCODED, EncodeBody(bytes));
  }

  lemma PartTogether(start: string, a: string, b: string, body: string)
    ensures start + CRLF + a + CRLF + b + CRLF + CRLF + body + CRLF
            == start + (CRLF + (a + CRLF + (b + CRLF + (CRLF + body)) + CRLF))
  {
  }

  lemma PartsTogether(boundary: string, first: string, second: string)
    ensures ("--" + boundary + (CRLF + (first + CRLF))) + ("--" + boundary + (CRLF + (second + CRLF))) + "--"
            + boundary + "--"
         == "--" + boundary + (CRLF + (first + Delimiter(boundary) + (CRLF + (second + Delimiter(boundary) + "--"))))
  {
  }

  lemma AlternativesAreRead(r: Request, text: string, html: string)
    requires r.AllBytes() && r.body == PlainBody(text, Some(html))
    ensures ReadMultipart(BodyText(r), Boundary(r)) ==
            Some([PartText("text/plain", "; charset=utf-8", text), PartText("text/html", "; charset=utf-8", html)])
  {
    var first, second := PartText("text/plain", "; charset=utf-8", text), PartText("text/html", "; charset=utf-8", html);
    PartIs(Boundary(r), "text/plain", text);
    PartIs(Boundary(r), "text/html", html);
    PartsTogether(Boundary(r), first, second);
    PartHasNoDash("text/plain", "; charset=utf-8", text);
    PartHasNoDash("text/html", "; charset=utf-8", html);
    TwoParts(Boundary(r), first, second);
  }

  lemma BoundaryIsRead(r: Request)
    requires r.AllBytes()
    ensures var mediaType := MULTIPART + Boundary(r) + "\"";
            MULTIPART <= mediaType && UpTo(mediaType[|MULTIPART|..], '"') == Boundary(r)
  {
    assert '"' !in Boundary(r) by {
      DigitsAreDigits(r.idempotencyKey, true);
      assert Sextet('"') == 64;
    }
    AfterStart(MULTIPART, Boundary(r) + "\"");
    AppendTogether(MULTIPART, Boundary(r), "\"");
    UpToIs(Boundary(r), '"', "");
    assert Boundary(r) + ['"'] + "" == Boundary(r) + "\"";
  }

  lemma MediaTypesDiffer()
    ensures !(MULTIPART <= PLAIN_TEXT) && !(MULTIPART <= E2EE_JSON) && PLAIN_TEXT != E2EE_JSON
  {
    assert MULTIPART[0] == 'm' && PLAIN_TEXT[0] == 't' && E2EE_JSON[0] == 'a';
  }

  lemma OnePartIsRead(headers: seq<string>, mediaType: string, bytes: string)
    requires IsBytes(bytes) && Fields(headers, "Content-Type") == [mediaType]
    requires Fields(headers, "Content-Transfer-Encoding") == ["base64"] && mediaType in {PLAIN_TEXT, E2EE_JSON}
    ensures ReadBody(headers, EncodeBody(bytes)) ==
            Some(if mediaType == PLAIN_TEXT then PlainBody(bytes, None) else E2eeBody(bytes))
  {
    MediaTypesDiffer();
    BodyIsReadBack(bytes);
  }

  lemma TwoPartsAreRead(headers: seq<string>, mediaType: string, body: string, boundary: string, first: string, text: string,
                        second: string, html: string)
    requires Fields(headers, "Content-Type") == [mediaType]
    requires MULTIPART <= mediaType && UpTo(mediaType[|MULTIPART|..], '"') == boundary
    requires ReadMultipart(body, boundary) == Some([first, second])
    requires ReadPart(first) == Some((PLAIN_TEXT, text)) && ReadPart(second) == Some((HTML_TEXT, html))
    ensures ReadBody(headers, body) == Some(PlainBody(text, Some(html)))
  {
  }

  lemma TextPartsAreRead(text: string, html: string)
    requires IsBytes(text) && IsBytes(html)
    ensures ReadPart(PartText("text/plain", "; charset=utf-8", text)) == Some((PLAIN_TEXT, text))
    ensures ReadPart(PartText("text/html", "; charset=utf-8", html)) == Some((HTML_TEXT, html))
  {
    PartIsRead("text/plain", "; charset=utf-8", text);
    PartIsRead("text/html", "; charset=utf-8", html);
  }

  lemma AlternativeBodyIsRead(r: Request, headers: seq<string>, text: string, html: string)
    requires r.AllBytes() && r.body == PlainBody(text, Some(html)) && Fields(headers, "Content-Type") == [MediaType(r)]
    ensures ReadBody(headers, BodyText(r)) == Some(r.body)
  {
    BoundaryIsRead(r);
    AlternativesAreRead(r, text, html);
    TextPartsAreRead(text, html);
    TwoPartsAreRead(headers, MediaType(r), BodyText(r), Boundary(r), PartText("text/plain", "; charset=utf-8", text),
                    text, PartText("text/html", "; charset=utf-8", html), html);
  }

  /** Text, HTML and sealed payload come back byte by byte, each as what it was. */
  lemma BodyIsRead(r: Request, headers: seq<string>)
    requires r.AllBytes() && Fields(headers, "Content-Type") == [MediaType(r)]
    requires (r.body.PlainBody? && r.body.html.Some?) || Fields(headers, "Content-Transfer-Encoding") == ["base64"]
    ensures ReadBody(headers, BodyText(r)) == Some(r.body)
  {
    match r.body
    case PlainBody(text, None) => OnePartIsRead(headers, PLAIN_TEXT, text);
    case E2eeBody(payload) =>
      MediaTypesDiffer();
      OnePartIsRead(headers, E2EE_JSON, payload);
    case PlainBody(text, Some(html)) => AlternativeBodyIsRead(r, headers, text, html);
  }

  lemma NoAddressField(r: Request, asked: string)
    requires r.AllBytes() && ':' !in asked && asked != "From" && asked != "To" && asked != "Cc" && asked != "Reply-To"
    ensures Fields(AddressHeaders(r), asked) == []
  {
    AddressFields(r, asked);
  }

  lemma NoGeneralField(r: Request, date: string, asked: string)
    requires r.AllBytes() && ':' !in asked
    requires asked != "Subject" && asked != "Date" && asked != "Message-ID" && asked != "MIME-Version"
    ensures Fields(GeneralHeaders(r, date), asked) == []
  {
    GeneralFields(r, date, asked);
  }

  lemma NoBodyField(r: Request, asked: string)
    requires r.AllBytes() && ':' !in asked && asked != "Content-Type" && asked != "Content-Transfer-Encoding"
    ensures Fields(BodyHeaders(r), asked) == []
  {
    BodyFields(r, asked);
  }

  predicate NamesBody(asked: string) {
    && ':' !in asked && asked != "From" && asked != "To" && asked != "Cc" && asked != "Reply-To"
    && asked != "Subject" && asked != "Date" && asked != "Message-ID" && asked != "MIME-Version"
  }

  lemma BodyNames()
    ensures NamesBody("Content-Type") && NamesBody("Content-Transfer-Encoding")
    ensures "Content-Type" != "Content-Transfer-Encoding"
  {
  }

  lemma TypeFields(r: Request, date: string)
    requires r.AllBytes()
    ensures Fields(Headers(r, date), "Content-Type") == [MediaType(r)]
    ensures (r.body.PlainBody? && r.body.html.Some?) || Fields(Headers(r, date), "Content-Transfer-Encoding") == ["base64"]
  {
    BodyNames();
    BodyFieldOf(r, date, "Content-Type");
    BodyFieldOf(r, date, "Content-Transfer-Encoding");
    BodyFields(r, "Content-Type");
    BodyFields(r, "Content-Transfer-Encoding");
  }

  lemma BodyFieldOf(r: Request, date: string, asked: string)
    requires r.AllBytes() && NamesBody(asked)
    ensures Fields(Headers(r, date), asked) == Fields(BodyHeaders(r), asked)
  {
    FieldsAre(r, date, asked);
    NoAddressField(r, asked);
    NoGeneralField(r, date, asked);
  }

  // ---- The whole message ----

  datatype Mail = Mail(from: seq<Address>, to: seq<Address>, cc: seq<Address>, replyTo: seq<Address>, subject: string,
                       date: string, key: string, body: Body)

  /** The one field of a name; none or several are not read. */
  function OneValue(headers: seq<string>, name: string): Option<string> {
    var values := Fields(headers, name);
    if |values| == 1 then Some(values[0]) else None
  }

  function AddressesOf(headers: seq<string>, name: string): Option<seq<Address>> {
    var value := OneValue(headers, name);
    if value.None? then None else ReadAddresses(value.value)
  }

  /** A list that may be left out. */
  function OptionalAddressesOf(headers: seq<string>, name: string): Option<seq<Address>> {
    if Fields(headers, name) == [] then Some([]) else AddressesOf(headers, name)
  }

  const ID_START := "<boxplot."
  const ID_END := "@boxplot.invalid>"

  /** The idempotency key in a message id. */
  function KeyOf(id: string): Option<string> {
    if |id| < |ID_START| + |ID_END| || !(ID_START <= id) || id[|id| - |ID_END|..] != ID_END then None
    else ReadDigits(id[|ID_START|..|id| - |ID_END|])
  }

  function ReadMail(message: string): Option<Mail> {
    var read := ReadHeaders(message);
    if read.None? then None else ReadFields(read.value.0, read.value.1)
  }

  function ReadFields(headers: seq<string>, text: string): Option<Mail> {
    var from, to := AddressesOf(headers, "From"), AddressesOf(headers, "To");
    var cc, replyTo := OptionalAddressesOf(headers, "Cc"), OptionalAddressesOf(headers, "Reply-To");
    var subject, date, id := OneValue(headers, "Subject"), OneValue(headers, "Date"), OneValue(headers, "Message-ID");
    var body := ReadBody(headers, text);
    if from.None? || to.None? || cc.None? || replyTo.None? || subject.None? || date.None? || id.None? || body.None?
       || OneValue(headers, "MIME-Version") != Some("1.0") || ReadText(subject.value).None? || KeyOf(id.value).None?
    then None
    else Some(Mail(from.value, to.value, cc.value, replyTo.value, ReadText(subject.value).value, date.value,
                   KeyOf(id.value).value, body.value))
  }

  lemma KeyIsRead(key: string)
    requires IsBytes(key)
    ensures KeyOf(MessageId(key)) == Some(key)
  {
    var digits := Digits(key, true);
    var id := ID_START + digits + ID_END;
    assert id[..|ID_START|] == ID_START && id[|id| - |ID_END|..] == ID_END;
    assert id[|ID_START|..|id| - |ID_END|] == digits;
    DigitsAreRead(key, true);
  }

  predicate NamesAddress(asked: string) {
    && ':' !in asked && asked != "Content-Type" && asked != "Content-Transfer-Encoding"
    && asked != "Subject" && asked != "Date" && asked != "Message-ID" && asked != "MIME-Version"
  }

  predicate NamesGeneral(asked: string) {
    && ':' !in asked && asked != "Content-Type" && asked != "Content-Transfer-Encoding"
    && asked != "From" && asked != "To" && asked != "Cc" && asked != "Reply-To"
  }

  lemma AddressNamesDiffer()
    ensures NamesAddress("From") && NamesAddress("To") && NamesAddress("Cc") && NamesAddress("Reply-To")
    ensures "From" != "To" && "From" != "Cc" && "From" != "Reply-To" && "To" != "Cc" && "To" != "Reply-To"
            && "Cc" != "Reply-To"
  {
  }

  lemma GeneralNamesDiffer()
    ensures NamesGeneral("Subject") && NamesGeneral("Date") && NamesGeneral("Message-ID") && NamesGeneral("MIME-Version")
    ensures "Subject" != "Date" && "Subject" != "Message-ID" && "Subject" != "MIME-Version"
    ensures "Date" != "Message-ID" && "Date" != "MIME-Version" && "Message-ID" != "MIME-Version"
  {
  }

  lemma AddressFieldOf(r: Request, date: string, asked: string)
    requires r.AllBytes() && NamesAddress(asked)
    ensures Fields(Headers(r, date), asked) == Fields(AddressHeaders(r), asked)
  {
    FieldsAre(r, date, asked);
    NoGeneralField(r, date, asked);
    NoBodyField(r, asked);
  }

  lemma GeneralFieldOf(r: Request, date: string, asked: string)
    requires r.AllBytes() && NamesGeneral(asked)
    ensures Fields(Headers(r, date), asked) == Fields(GeneralHeaders(r, date), asked)
  {
    FieldsAre(r, date, asked);
    NoAddressField(r, asked);
    NoBodyField(r, asked);
  }

  lemma FromAndTo(r: Request, date: string)
    requires r.AllBytes()
    ensures Fields(Headers(r, date), "From") == [FormatAddress(r.from)]
    ensures Fields(Headers(r, date), "To") == [FormatAddresses(r.to)]
  {
    AddressNamesDiffer();
    AddressFieldOf(r, date, "From");
    AddressFieldOf(r, date, "To");
    AddressFields(r, "From");
    AddressFields(r, "To");
  }

  lemma CcAndReplyTo(r: Request, date: string)
    requires r.AllBytes()
    ensures Fields(Headers(r, date), "Cc") == if r.cc == [] then [] else [FormatAddresses(r.cc)]
    ensures Fields(Headers(r, date), "Reply-To") == if r.replyTo == [] then [] else [FormatAddresses(r.replyTo)]
  {
    AddressNamesDiffer();
    AddressFieldOf(r, date, "Cc");
    AddressFieldOf(r, date, "Reply-To");
    AddressFields(r, "Cc");
    AddressFields(r, "Reply-To");
  }

  lemma SubjectAndDate(r: Request, date: string)
    requires r.AllBytes()
    ensures Fields(Headers(r, date), "Subject") == [EncodeHeader(r.subject)]
    ensures Fields(Headers(r, date), "Date") == [date]
  {
    GeneralNamesDiffer();
    GeneralFieldOf(r, date, "Subject");
    GeneralFieldOf(r, date, "Date");
    GeneralFields(r, date, "Subject");
    GeneralFields(r, date, "Date");
  }

  lemma IdAndVersion(r: Request, date: string)
    requires r.AllBytes()
    ensures Fields(Headers(r, date), "Message-ID") == [MessageId(r.idempotencyKey)]
    ensures Fields(Headers(r, date), "MIME-Version") == ["1.0"]
  {
    GeneralNamesDiffer();
    GeneralFieldOf(r, date, "Message-ID");
    GeneralFieldOf(r, date, "MIME-Version");
    GeneralFields(r, date, "Message-ID");
    GeneralFields(r, date, "MIME-Version");
  }

  /** A request of which no part can be taken for something else. */
  predicate Plain(r: Request) {
    && (forall a <- [r.from] + r.to + r.cc + r.replyTo :: StandsOut(a))
    && !(IsAscii(r.subject) && LooksEncoded(r.subject))
  }

  lemma ListsAreRead(r: Request, date: string)
    requires r.AllBytes() && Plain(r)
    ensures var headers := Headers(r, date);
      && AddressesOf(headers, "From") == Some([Normal(r.from)])
      && AddressesOf(headers, "To") == Some(NormalAll(r.to))
      && OptionalAddressesOf(headers, "Cc") == Some(NormalAll(r.cc))
      && OptionalAddressesOf(headers, "Reply-To") == Some(NormalAll(r.replyTo))
  {
    var all := [r.from] + r.to + r.cc + r.replyTo;
    assert r.from in all && forall a <- r.to + r.cc + r.replyTo :: a in all;
    FromAndTo(r, date);
    CcAndReplyTo(r, date);
    SenderIsRead(r.from);
    AddressesAreRead(r.to);
    AddressesAreRead(r.cc);
    AddressesAreRead(r.replyTo);
  }

  lemma SenderIsRead(a: Address)
    requires (a.name.Some? ==> IsBytes(a.name.value)) && StandsOut(a)
    ensures ReadAddresses(FormatAddress(a)) == Some([Normal(a)])
  {
    AddressIsRead(a, "");
    LastIsRead(FormatAddress(a), Normal(a));
  }

  lemma FieldsAreRead(r: Request, date: string)
    requires r.AllBytes() && Plain(r)
    ensures ReadFields(Headers(r, date), BodyText(r)) ==
            Some(Mail([Normal(r.from)], NormalAll(r.to), NormalAll(r.cc), NormalAll(r.replyTo), r.subject, date,
                      r.idempotencyKey, r.body))
  {
    ListsAreRead(r, date);
    SubjectAndDate(r, date);
    IdAndVersion(r, date);
    HeaderIsReadBackIff(r.subject);
    KeyIsRead(r.idempotencyKey);
    TypeFields(r, date);
    BodyIsRead(r, Headers(r, date));
  }

  /** What a recipient reads is what the request says: the sender, the three lists that are shown,
      in order and with their names, the subject, the key and the body. */
  lemma MailIsReadBack(r: Request, date: string)
    requires r.AllBytes() && Buildable(r) && Plain(r) && OneLine(date)
    ensures ReadMail(BuildMessage(r, date).value) ==
            Some(Mail([Normal(r.from)], NormalAll(r.to), NormalAll(r.cc), NormalAll(r.replyTo), r.subject, date,
                      r.idempotencyKey, r.body))
  {
    HeadersAreReadBack(r, date);
    FieldsAreRead(r, date);
  }
}
