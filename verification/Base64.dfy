/** The base64 encodings of section 4 and 5 of RFC 4648 that the mail layer uses. A byte is a
    character below 256. */
module Base64 {
  import opened Base

  predicate IsBytes(s: string) {
    forall i :: 0 <= i < |s| ==> s[i] < '\U{0100}'
  }

  /** The digit for six bits, in the standard or the URL-safe alphabet. */
  function Digit(n: nat, urlSafe: bool): char
    requires n < 64
  {
    if n < 26 then 'A' + n as char
    else if n < 52 then 'a' + (n - 26) as char
    else if n < 62 then '0' + (n - 52) as char
    else if urlSafe then (if n == 62 then '-' else '_')
    else if n == 62 then '+' else '/'
  }

  /** The six bits of a digit of either alphabet, 64 for anything else. */
  function Sextet(c: char): (n: nat)
    ensures n <= 64
  {
    if 'A' <= c <= 'Z' then (c - 'A') as nat
    else if 'a' <= c <= 'z' then (c - 'a') as nat + 26
    else if '0' <= c <= '9' then (c - '0') as nat + 52
    else if c == '+' || c == '-' then 62
    else if c == '/' || c == '_' then 63
    else 64
  }

  lemma DigitIsRead(n: nat, urlSafe: bool)
    requires n < 64
    ensures Sextet(Digit(n, urlSafe)) == n
  {
  }

  /** Four digits for three bytes. */
  function Quad(a: char, b: char, c: char, urlSafe: bool): (r: string)
    requires IsBytes([a, b, c])
    ensures |r| == 4
  {
    var (x, y, z) := ([a, b, c][0] as nat, [a, b, c][1] as nat, [a, b, c][2] as nat);
    [Digit(x / 4, urlSafe), Digit(x % 4 * 16 + y / 16, urlSafe), Digit(y % 16 * 4 + z / 64, urlSafe), Digit(z % 64, urlSafe)]
  }

  function Filled(s: string, fill: char, length: nat): string
    requires |s| <= length
  {
    s + seq(length - |s|, _ => fill)
  }

  /** Without padding. */
  function Digits(s: string, urlSafe: bool): string
    requires IsBytes(s)
  {
    if s == "" then ""
    else if |s| < 3 then
      var group := Filled(s, '\0', 3);
      Quad(group[0], group[1], group[2], urlSafe)[..|s| + 1]
    else Quad(s[0], s[1], s[2], urlSafe) + Digits(s[3..], urlSafe)
  }

  function Padding(length: nat): string {
    if length % 3 == 1 then "==" else if length % 3 == 2 then "=" else ""
  }

  function Encode(s: string): string
    requires IsBytes(s)
  {
    Digits(s, false) + Padding(|s|)
  }

  // ---- Reading ----

  function ByteOf(n: nat): char {
    (n % 256) as char
  }

  /** Three bytes for four digits. */
  function Triple(quad: string): Option<string>
    requires |quad| == 4
  {
    var (w, x, y, z) := (Sextet(quad[0]), Sextet(quad[1]), Sextet(quad[2]), Sextet(quad[3]));
    if w == 64 || x == 64 || y == 64 || z == 64 then None
    else Some([ByteOf(w * 4 + x / 16), ByteOf(x % 16 * 16 + y / 4), ByteOf(y % 4 * 64 + z)])
  }

  function ReadDigits(text: string): Option<string> {
    if text == "" then Some("")
    else if |text| == 1 then None
    else if |text| < 4 then
      var group := Triple(Filled(text, 'A', 4));
      if group.None? then None else Some(group.value[..|text| - 1])
    else
      var group, rest := Triple(text[..4]), ReadDigits(text[4..]);
      if group.None? || rest.None? then None else Some(group.value + rest.value)
  }

  function WithoutPadding(text: string): string {
    if text != "" && text[|text| - 1] == '=' then WithoutPadding(text[..|text| - 1]) else text
  }

  function Decode(text: string): Option<string> {
    ReadDigits(WithoutPadding(text))
  }

  lemma GroupIsRead(a: nat, b: nat, c: nat)
    requires a < 256 && b < 256 && c < 256
    ensures a / 4 * 4 + (a % 4 * 16 + b / 16) / 16 == a
    ensures (a % 4 * 16 + b / 16) % 16 * 16 + (b % 16 * 4 + c / 64) / 4 == b
    ensures (b % 16 * 4 + c / 64) % 4 * 64 + c % 64 == c
  {
  }

  lemma QuadSextets(a: char, b: char, c: char, urlSafe: bool)
    requires IsBytes([a, b, c])
    ensures var (quad, x, y, z) := (Quad(a, b, c, urlSafe), a as nat, b as nat, c as nat);
            && Sextet(quad[0]) == x / 4 && Sextet(quad[1]) == x % 4 * 16 + y / 16
            && Sextet(quad[2]) == y % 16 * 4 + z / 64 && Sextet(quad[3]) == z % 64
  {
    var (x, y, z) := ([a, b, c][0] as nat, [a, b, c][1] as nat, [a, b, c][2] as nat);
    DigitIsRead(x / 4, urlSafe);
    DigitIsRead(x % 4 * 16 + y / 16, urlSafe);
    DigitIsRead(y % 16 * 4 + z / 64, urlSafe);
    DigitIsRead(z % 64, urlSafe);
  }

  lemma QuadIsRead(a: char, b: char, c: char, urlSafe: bool)
    requires IsBytes([a, b, c])
    ensures Triple(Quad(a, b, c, urlSafe)) == Some([a, b, c])
  {
    assert [a, b, c][0] == a && [a, b, c][1] == b && [a, b, c][2] == c;
    QuadSextets(a, b, c, urlSafe);
    GroupIsRead(a as nat, b as nat, c as nat);
    TripleIs(Quad(a, b, c, urlSafe), a, b, c);
  }

  lemma TripleIs(quad: string, a: char, b: char, c: char)
    requires |quad| == 4 && a < '\U{0100}' && b < '\U{0100}' && c < '\U{0100}'
    requires forall i :: 0 <= i < 4 ==> Sextet(quad[i]) < 64
    requires Sextet(quad[0]) * 4 + Sextet(quad[1]) / 16 == a as nat
    requires Sextet(quad[1]) % 16 * 16 + Sextet(quad[2]) / 4 == b as nat
    requires Sextet(quad[2]) % 4 * 64 + Sextet(quad[3]) == c as nat
    ensures Triple(quad) == Some([a, b, c])
  {
    assert ByteOf(a as nat) == a && ByteOf(b as nat) == b && ByteOf(c as nat) == c;
  }

  lemma ShortGroupIsRead(s: string, urlSafe: bool)
    requires IsBytes(s) && 0 < |s| < 3
    ensures ReadDigits(Digits(s, urlSafe)) == Some(s)
  {
    var group := Filled(s, '\0', 3);
    var quad := Quad(group[0], group[1], group[2], urlSafe);
    assert group == [group[0], group[1], group[2]];
    assert Filled(quad[..|s| + 1], 'A', 4) == quad;
    QuadIsRead(group[0], group[1], group[2], urlSafe);
    assert group[..|s|] == s;
  }

  /** Whatever is encoded is read back, in either alphabet. */
  lemma {:induction false} DigitsAreRead(s: string, urlSafe: bool)
    requires IsBytes(s)
    ensures ReadDigits(Digits(s, urlSafe)) == Some(s)
  {
    if 0 < |s| < 3 {
      ShortGroupIsRead(s, urlSafe);
    } else if s != "" {
      var quad := Quad(s[0], s[1], s[2], urlSafe);
      QuadIsRead(s[0], s[1], s[2], urlSafe);
      DigitsAreRead(s[3..], urlSafe);
      QuadThenRest(quad, Digits(s[3..], urlSafe));
      assert [s[0], s[1], s[2]] + s[3..] == s;
    }
  }

  lemma QuadThenRest(quad: string, rest: string)
    requires |quad| == 4 && Triple(quad).Some? && ReadDigits(rest).Some?
    ensures ReadDigits(quad + rest) == Some(Triple(quad).value + ReadDigits(rest).value)
  {
    FirstQuad(quad, rest);
  }

  lemma FirstQuad(quad: string, rest: string)
    requires |quad| == 4
    ensures (quad + rest)[..4] == quad && (quad + rest)[4..] == rest
  {
  }

  /** The characters of an encoding. */
  lemma {:induction false} DigitsAreDigits(s: string, urlSafe: bool)
    requires IsBytes(s)
    ensures forall c <- Digits(s, urlSafe) :: Sextet(c) < 64 && c !in if urlSafe then "+/" else "-_"
  {
    if |s| >= 3 {
      DigitsAreDigits(s[3..], urlSafe);
      QuadDigits(s[0], s[1], s[2], urlSafe);
    } else if s != "" {
      var group := Filled(s, '\0', 3);
      QuadDigits(group[0], group[1], group[2], urlSafe);
    }
  }

  lemma QuadDigits(a: char, b: char, c: char, urlSafe: bool)
    requires IsBytes([a, b, c])
    ensures forall d <- Quad(a, b, c, urlSafe) :: Sextet(d) < 64 && d !in if urlSafe then "+/" else "-_"
  {
  }

  lemma EncodedIsRead(s: string)
    requires IsBytes(s)
    ensures Decode(Encode(s)) == Some(s)
  {
    DigitsAreRead(s, false);
    DigitsAreDigits(s, false);
    PaddingIsRemoved(Digits(s, false), Padding(|s|));
  }

  lemma PaddingIsRemoved(digits: string, padding: string)
    requires forall c <- digits :: Sextet(c) < 64
    requires padding in {"", "=", "=="}
    ensures WithoutPadding(digits + padding) == digits
  {
    assert digits != "" ==> digits[|digits| - 1] in digits;
    assert digits + "" == digits;
    assert (digits + "=")[..|digits|] == digits && (digits + "==")[..|digits| + 1] == digits + "=";
  }

  /** Four digits for every three bytes, and padding for what is missing from the last three. */
  lemma {:induction false} DigitCount(s: string, urlSafe: bool)
    requires IsBytes(s)
    ensures |Digits(s, urlSafe)| == (4 * |s| + 2) / 3
  {
    if |s| >= 3 {
      DigitCount(s[3..], urlSafe);
    }
  }

  lemma PaddingFills(n: nat)
    ensures (4 * n + 2) / 3 + |Padding(n)| == (n + 2) / 3 * 4 && |Padding(n)| <= 2
  {
    assert n == n / 3 * 3 + n % 3;
  }

  lemma EncodedIsPadded(s: string)
    requires IsBytes(s)
    ensures |Encode(s)| == (|s| + 2) / 3 * 4
    ensures forall c <- Encode(s)[..|Digits(s, false)|] :: c != '='
    ensures |Encode(s)| - |Digits(s, false)| <= 2
  {
    DigitCount(s, false);
    PaddingFills(|s|);
    DigitsAreDigits(s, false);
    assert Encode(s)[..|Digits(s, false)|] == Digits(s, false);
    assert Sextet('=') == 64;
  }
}
