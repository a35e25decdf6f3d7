/** Transparency of the SMTP data phase: `dot_stuff` of `src-tauri/src/net/smtp.rs` against a
    receiver that follows section 4.5.2 of RFC 5321. A byte is a character below 256. */
module DotStuffing {
  import opened Base

  const CRLF := "\r\n"

  const TERMINATOR := "\r\n.\r\n"

  predicate CrlfAt(s: string, i: nat) {
    i + 1 < |s| && s[i] == '\r' && s[i + 1] == '\n'
  }

  predicate StartsWithDot(s: string) {
    s != "" && s[0] == '.'
  }

  /** `replace("\r\n.", "\r\n..")`, left to right. */
  function DotStuff(m: string): string {
    if "\r\n." <= m then "\r\n.." + DotStuff(m[3..])
    else if m == "" then ""
    else [m[0]] + DotStuff(m[1..])
  }

  /** Where the first line ends, -1 if it does not. */
  function LineEnd(s: string): (i: int)
    ensures -1 <= i && (i >= 0 ==> CrlfAt(s, i))
    ensures forall j: nat :: CrlfAt(s, j) ==> 0 <= i <= j
  {
    if CrlfAt(s, 0) then 0
    else if s == "" then -1
    else
      var rest := LineEnd(s[1..]);
      assert forall j: nat :: j > 0 ==> (CrlfAt(s, j) <==> CrlfAt(s[1..], j - 1));
      if rest == -1 then -1 else rest + 1
  }

  /** The receiver: reads line by line, takes one dot off every line that starts with one, and
      ends at a line that is a dot alone. The message, and what follows it. */
  function Receive(wire: string): Option<(string, string)> {
    var end := LineEnd(wire);
    if end == -1 then None
    else
      var (line, rest) := (wire[..end], wire[end + 2..]);
      if line == "." then Some(("", rest))
      else
        var more := Receive(rest);
        if more.None? then None else Some((WithoutDot(line) + CRLF + more.value.0, more.value.1))
  }

  /** What a line needs to pass: its own leading dot doubled, and the rest stuffed. */
  function Guarded(m: string): string {
    (if StartsWithDot(m) then "." else "") + DotStuff(m)
  }

  lemma {:induction false} StuffedWithoutLineEnd(m: string)
    requires LineEnd(m) == -1
    ensures DotStuff(m) == m
  {
    if m != "" {
      forall j: nat
        ensures !CrlfAt(m[1..], j)
      {
        assert CrlfAt(m[1..], j) == CrlfAt(m, j + 1);
      }
      assert !CrlfAt(m, 0);
      StuffedWithoutLineEnd(m[1..]);
    }
  }

  lemma StuffedEmptyLine(tail: string)
    ensures DotStuff(CRLF + tail) == CRLF + Guarded(tail)
  {
    var m := CRLF + tail;
    if StartsWithDot(tail) {
      assert m[3..] == tail[1..];
      assert !("\r\n." <= tail);
      assert DotStuff(tail) == "." + DotStuff(tail[1..]);
    } else {
      assert !("\r\n." <= m) && m[1..] == "\n" + tail;
      assert !("\r\n." <= m[1..]) && m[1..][1..] == tail;
    }
  }

  lemma StuffedHead(m: string)
    requires m != "" && !CrlfAt(m, 0)
    ensures DotStuff(m) == [m[0]] + DotStuff(m[1..])
  {
  }

  lemma LineEndAfterHead(m: string)
    requires m != "" && LineEnd(m) > 0
    ensures !CrlfAt(m, 0) && LineEnd(m[1..]) == LineEnd(m) - 1
  {
  }

  /** Stuffing leaves a first line as it is and guards what comes after it. */
  lemma {:induction false} StuffedFirstLine(line: string, tail: string)
    requires LineEnd(line + CRLF + tail) == |line|
    ensures DotStuff(line + CRLF + tail) == line + CRLF + Guarded(tail)
  {
    var m := line + CRLF + tail;
    if line == "" {
      assert m == CRLF + tail;
      StuffedEmptyLine(tail);
      assert "" + CRLF + Guarded(tail) == CRLF + Guarded(tail);
    } else {
      LineEndAfterHead(m);
      StuffedHead(m);
      assert m[1..] == line[1..] + CRLF + tail;
      StuffedFirstLine(line[1..], tail);
      Prepended(line, CRLF, Guarded(tail));
    }
  }

  lemma Prepended(line: string, a: string, b: string)
    requires line != ""
    ensures [line[0]] + (line[1..] + a + b) == line + a + b
  {
  }

  lemma FirstLineEnd(line: string, rest: string)
    requires LineEnd(line) == -1
    ensures LineEnd(line + CRLF + rest) == |line|
  {
    var s := line + CRLF + rest;
    assert CrlfAt(s, |line|);
    assert forall j: nat :: j < |line| && CrlfAt(s, j) && j + 1 < |line| ==> CrlfAt(line, j);
  }

  /** One step of the receiver over a line that is not the terminator. */
  lemma ReceiveLine(line: string, rest: string)
    requires LineEnd(line) == -1 && line != "." && Receive(rest).Some?
    ensures Receive(line + CRLF + rest) ==
            Some((WithoutDot(line) + CRLF + Receive(rest).value.0, Receive(rest).value.1))
  {
    FirstLineEnd(line, rest);
    var wire := line + CRLF + rest;
    assert wire[..|line|] == line && wire[|line| + 2..] == rest;
  }

  lemma ReceiveTerminator(rest: string)
    ensures Receive("." + CRLF + rest) == Some(("", rest))
  {
    FirstLineEnd(".", rest);
    var wire := "." + CRLF + rest;
    assert wire[..1] == "." && wire[3..] == rest;
  }

  function WithoutDot(line: string): string {
    if StartsWithDot(line) then line[1..] else line
  }

  function GuardedLine(line: string): string {
    if StartsWithDot(line) then "." + line else line
  }

  lemma GuardedLineIsLine(line: string)
    requires LineEnd(line) == -1
    ensures LineEnd(GuardedLine(line)) == -1 && GuardedLine(line) != "." && WithoutDot(GuardedLine(line)) == line
  {
    assert forall j: nat :: CrlfAt("." + line, j) && j > 0 ==> CrlfAt(line, j - 1);
  }

  lemma Regroup(a: string, b: string, c: string, d: string)
    ensures (a + b + c) + TERMINATOR + d == a + b + (c + TERMINATOR + d)
  {
    var left, right := (a + b + c) + TERMINATOR + d, a + b + (c + TERMINATOR + d);
    assert |left| == |right|;
  }

  /** Cut a message after its first line. */
  lemma SplitFirstLine(m: string)
    requires LineEnd(m) >= 0
    ensures var end := LineEnd(m); m == m[..end] + CRLF + m[end + 2..] && LineEnd(m[..end]) == -1
  {
    var end := LineEnd(m);
    assert m[end..end + 2] == CRLF;
    forall j: nat
      ensures !CrlfAt(m[..end], j)
    {
      assert CrlfAt(m[..end], j) ==> CrlfAt(m, j);
    }
  }

  lemma GuardedSplit(line: string, tail: string)
    requires LineEnd(line) == -1
    ensures DotStuff(line + CRLF + tail) == line + CRLF + Guarded(tail)
    ensures Guarded(line + CRLF + tail) == GuardedLine(line) + CRLF + Guarded(tail)
  {
    FirstLineEnd(line, tail);
    StuffedFirstLine(line, tail);
    assert StartsWithDot(line + CRLF + tail) <==> StartsWithDot(line);
    assert "." + (line + CRLF + Guarded(tail)) == "." + line + CRLF + Guarded(tail);
  }

  lemma LastLinePasses(m: string, rest: string)
    requires LineEnd(m) == -1
    ensures Receive(Guarded(m) + TERMINATOR + rest) == Some((m + CRLF, rest))
  {
    GuardedLastLine(m);
    GuardedLineIsLine(m);
    ReceiveTerminator(rest);
    ReceiveLine(GuardedLine(m), "." + CRLF + rest);
    BeforeTerminator(GuardedLine(m), rest);
    assert m + CRLF + "" == m + CRLF;
  }

  lemma GuardedLastLine(m: string)
    requires LineEnd(m) == -1
    ensures Guarded(m) == GuardedLine(m)
  {
    StuffedWithoutLineEnd(m);
  }

  lemma BeforeTerminator(line: string, rest: string)
    ensures line + TERMINATOR + rest == line + CRLF + ("." + CRLF + rest)
  {
  }

  lemma {:induction false} GuardedPasses(m: string, rest: string)
    ensures Receive(Guarded(m) + TERMINATOR + rest) == Some((m + CRLF, rest))
    decreases |m|
  {
    var end := LineEnd(m);
    if end == -1 {
      LastLinePasses(m, rest);
    } else {
      SplitFirstLine(m);
      var (line, tail) := (m[..end], m[end + 2..]);
      GuardedPasses(tail, rest);
      FirstLinePasses(line, tail, rest);
    }
  }

  lemma FirstLinePasses(line: string, tail: string, rest: string)
    requires LineEnd(line) == -1
    requires Receive(Guarded(tail) + TERMINATOR + rest) == Some((tail + CRLF, rest))
    ensures Receive(Guarded(line + CRLF + tail) + TERMINATOR + rest) == Some((line + CRLF + tail + CRLF, rest))
  {
    GuardedSplit(line, tail);
    GuardedLineIsLine(line);
    Regroup(GuardedLine(line), CRLF, Guarded(tail), rest);
    ReceiveLine(GuardedLine(line), Guarded(tail) + TERMINATOR + rest);
    Reassociate(line, tail);
  }

  lemma Reassociate(line: string, tail: string)
    ensures line + CRLF + (tail + CRLF) == line + CRLF + tail + CRLF
  {
  }

  /** The stuffed message and its terminator reach the receiver as the message and one line end,
      and end exactly there, if and only if the message does not start with a dot. */
  lemma StuffedArrivesIff(m: string, rest: string)
    ensures Receive(DotStuff(m) + TERMINATOR + rest) == Some((m + CRLF, rest)) <==> !StartsWithDot(m)
  {
    GuardedPasses(m, rest);
    if !StartsWithDot(m) {
      assert Guarded(m) == DotStuff(m);
    } else {
      LeadingDotIsLost(m, rest);
    }
  }

  lemma LeadingDotIsLost(m: string, rest: string)
    requires StartsWithDot(m)
    ensures Receive(DotStuff(m) + TERMINATOR + rest) != Some((m + CRLF, rest))
  {
    var wire := DotStuff(m) + TERMINATOR + rest;
    var end := LineEnd(m + CRLF);
    assert CrlfAt(m + CRLF, |m|);
    var line := m[..end];
    assert wire[..end] == line && LineEnd(wire) == end by {
      WireFirstLine(m, rest);
    }
    if line != "." && Receive(wire[end + 2..]).Some? {
      var received := Receive(wire).value.0;
      assert CrlfAt(received, end - 1);
    }
  }

  /** Stuffed or not, the first line on the wire is the message's first line. */
  ghost predicate FirstLineKept(m: string, rest: string) {
    var (end, wire) := (LineEnd(m + CRLF), DotStuff(m) + TERMINATOR + rest);
    0 <= end <= |m| && LineEnd(wire) == end <= |wire| && wire[..end] == m[..end]
  }

  lemma FirstLineIs(m: string, rest: string, line: string)
    requires LineEnd(m + CRLF) == |line| == LineEnd(DotStuff(m) + TERMINATOR + rest)
    requires line <= m && line <= DotStuff(m) + TERMINATOR + rest
    ensures FirstLineKept(m, rest)
  {
  }

  lemma OnlyLineOnWire(m: string, rest: string)
    requires LineEnd(m) == -1
    ensures FirstLineKept(m, rest)
  {
    StuffedWithoutLineEnd(m);
    assert LineEnd(m + CRLF) == |m| by {
      FirstLineEnd(m, "");
      assert m + CRLF + "" == m + CRLF;
    }
    assert LineEnd(m + TERMINATOR + rest) == |m| by {
      FirstLineEnd(m, "." + CRLF + rest);
      BeforeTerminator(m, rest);
    }
    FirstLineIs(m, rest, m);
  }

  lemma FirstLineOnWire(line: string, tail: string, rest: string)
    requires LineEnd(line) == -1
    ensures FirstLineKept(line + CRLF + tail, rest)
  {
    GuardedSplit(line, tail);
    Regroup(line, CRLF, Guarded(tail), rest);
    FirstLineEnd(line, Guarded(tail) + TERMINATOR + rest);
    FirstLineEnd(line, tail + CRLF);
    Reassociate(line, tail);
    FirstLineIs(line + CRLF + tail, rest, line);
  }

  lemma WireFirstLine(m: string, rest: string)
    ensures FirstLineKept(m, rest)
  {
    if LineEnd(m) == -1 {
      OnlyLineOnWire(m, rest);
    } else {
      SplitFirstLine(m);
      FirstLineOnWire(m[..LineEnd(m)], m[LineEnd(m) + 2..], rest);
    }
  }
}
