/** Lines off an IMAP connection: `read_bounded_text_line`, `account_response_text`,
    `parse_literal_length` and `push_quoted` of `src-tauri/src/net/imap.rs`. A byte is a
    character below 256. */
module ImapLines {
  import opened Base
  import opened RemoteErrors

  type Bytes = string

  const MAX_IMAP_LINE_BYTES: nat := 65_536
  const MAX_IMAP_LITERAL_BYTES: nat := 2_097_152
  const MAX_IMAP_RESPONSE_LINES: nat := 4_096
  const MAX_IMAP_RESPONSE_TEXT_BYTES: nat := 1_048_576

  datatype Answer<T> = Success(value: T) | Failure(error: RemoteError)

  function ErrorOf<T>(answer: Answer<T>): Option<RemoteError> {
    if answer.Failure? then Some(answer.error) else None
  }

  // ---- Writing ----

  // How the coming writes to a connection go: once none is left, they all succeed.
  type Writes = seq<bool>

  predicate Written(writes: Writes) {
    writes == [] || writes[0]
  }

  function Later(writes: Writes): Writes {
    if writes == [] then [] else writes[1..]
  }

  // ---- A line, as a function of the bytes alone ----

  predicate NoLineFeed(bytes: Bytes) {
    forall i :: 0 <= i < |bytes| ==> bytes[i] != '\n'
  }

  /** How many bytes the first line takes, its line feed included; 0 if there is none. */
  function LineLength(bytes: Bytes): (n: nat)
    ensures n <= |bytes|
    ensures n == 0 ==> NoLineFeed(bytes)
    ensures n > 0 ==> bytes[n - 1] == '\n' && forall i :: 0 <= i < n - 1 ==> bytes[i] != '\n'
  {
    if bytes == [] then 0
    else if bytes[0] == '\n' then 1
    else
      var rest := LineLength(bytes[1..]);
      assert forall i :: 1 <= i < |bytes| ==> bytes[i] == bytes[1..][i - 1];
      if rest == 0 then 0 else rest + 1
  }

  /** The bytes a reader has to look at before it is done. */
  function Needed(bytes: Bytes): nat {
    if LineLength(bytes) > 0 then LineLength(bytes) else |bytes|
  }

  function WithoutLineEnd(line: Bytes): Bytes {
    if line != [] && line[|line| - 1] in {'\n', '\r'} then WithoutLineEnd(line[..|line| - 1]) else line
  }

  function LineResult(bytes: Bytes, utf8: Bytes -> bool): Answer<Bytes> {
    if Needed(bytes) > MAX_IMAP_LINE_BYTES then Failure(PROTOCOL)
    else if LineLength(bytes) == 0 then Failure(UNAVAILABLE)
    else
      var line := WithoutLineEnd(bytes[..LineLength(bytes)]);
      if utf8(line) then Success(line) else Failure(PROTOCOL)
  }

  function Returns(n: nat): Bytes {
    seq(n, _ => '\r')
  }

  lemma {:induction false} ReturnsAreDropped(text: Bytes, n: nat)
    requires '\n' !in text && (text == [] || text[|text| - 1] != '\r')
    ensures WithoutLineEnd(text + Returns(n)) == text
  {
    if n > 0 {
      assert (text + Returns(n))[..|text| + n - 1] == text + Returns(n - 1);
      ReturnsAreDropped(text, n - 1);
    } else {
      assert text + Returns(0) == text;
      assert text != [] ==> text[|text| - 1] in text;
    }
  }

  /** A line of text, whatever number of carriage returns comes before its line feed, is read
      without them; one that is too long, or is not text, is a protocol error. */
  lemma LineIsDecided(text: Bytes, n: nat, rest: Bytes, utf8: Bytes -> bool)
    requires '\n' !in text && (text == [] || text[|text| - 1] != '\r')
    ensures LineResult(text + Returns(n) + "\n" + rest, utf8) ==
            if |text| + n + 1 > MAX_IMAP_LINE_BYTES || !utf8(text) then Failure(PROTOCOL) else Success(text)
    ensures LineLength(text + Returns(n) + "\n" + rest) == |text| + n + 1
  {
    var (line, bytes) := (text + Returns(n), text + Returns(n) + "\n" + rest);
    assert bytes[|line|] == '\n';
    forall i | 0 <= i < |line|
      ensures bytes[i] != '\n'
    {
      assert bytes[i] == line[i] && (i < |text| ==> line[i] == text[i] && text[i] in text);
    }
    assert bytes[..|line| + 1] == line + "\n" && (line + "\n")[..|line|] == line;
    ReturnsAreDropped(text, n);
  }

  /** Without a line feed there is no line: too many bytes are a protocol error, and too few mean
      that the connection is gone. */
  lemma NoLineIsDecided(bytes: Bytes, utf8: Bytes -> bool)
    requires '\n' !in bytes
    ensures LineResult(bytes, utf8) == Failure(if |bytes| > MAX_IMAP_LINE_BYTES then PROTOCOL else UNAVAILABLE)
  {
    assert forall i :: 0 <= i < |bytes| ==> bytes[i] in bytes;
  }

  // ---- The stream ----

  function Flat(chunks: seq<Bytes>): Bytes {
    if chunks == [] then [] else chunks[0] + Flat(chunks[1..])
  }

  /** The bytes of the whole chunks that fit into `room`. */
  function Fitting(chunks: seq<Bytes>, room: int): (n: nat)
    ensures n <= |Flat(chunks)| && (room >= 0 ==> n <= room)
  {
    if chunks == [] || |chunks[0]| > room then 0 else |chunks[0]| + Fitting(chunks[1..], room - |chunks[0]|)
  }

  /** How many bytes are gone after one line was asked for. */
  function Consumed(chunks: seq<Bytes>): (n: nat)
    ensures n <= |Flat(chunks)| && n <= MAX_IMAP_LINE_BYTES
  {
    if Needed(Flat(chunks)) > MAX_IMAP_LINE_BYTES then Fitting(chunks, MAX_IMAP_LINE_BYTES) else Needed(Flat(chunks))
  }

  /** The answer never depends on how the bytes were split (`ReadBoundedTextLine`). How many of
      them are consumed does not either, except when the line is too long: then it is whatever
      whole chunks fit, so it is the same for every split exactly when the line fits. */
  lemma ConsumedIsChunkIndependentIff(bytes: Bytes)
    ensures (forall a: seq<Bytes>, b: seq<Bytes> :: Flat(a) == bytes && Flat(b) == bytes ==> Consumed(a) == Consumed(b))
       <==> Needed(bytes) <= MAX_IMAP_LINE_BYTES
  {
    if Needed(bytes) > MAX_IMAP_LINE_BYTES {
      var whole: seq<Bytes>, split: seq<Bytes> := [bytes], [bytes[..1], bytes[1..]];
      assert Flat(whole) == bytes + Flat(whole[1..]) == bytes;
      assert split[1..] == [bytes[1..]];
      assert Flat(split[1..]) == bytes[1..] + Flat(split[1..][1..]) == bytes[1..];
      assert Flat(split) == bytes;
      assert Consumed(whole) == 0;
      assert Consumed(split) >= 1;
    }
  }

  /** A buffered reader: the bytes in its buffer, those still to come, and how it ends. */
  class BufferedStream {
    var buffer: Bytes
    var rest: seq<Bytes>
    const broken: bool

    constructor (rest: seq<Bytes>, broken: bool)
      requires forall i :: 0 <= i < |rest| ==> rest[i] != []
      ensures Valid() && buffer == [] && this.rest == rest
    {
      this.buffer, this.rest, this.broken := [], rest, broken;
    }

    ghost predicate Valid()
      reads this
    {
      forall i :: 0 <= i < |rest| ==> rest[i] != []
    }

    function Chunks(): seq<Bytes>
      reads this
    {
      [buffer] + rest
    }

    function Pending(): Bytes
      reads this
    {
      buffer + Flat(rest)
    }

    /** The bytes of the whole chunks that fit, the buffer being the first. */
    function Fits(room: int): nat
      reads this
    {
      if |buffer| > room then 0 else |buffer| + Fitting(rest, room - |buffer|)
    }

    lemma ChunksArePending()
      ensures Flat(Chunks()) == Pending()
      ensures forall room: int :: Fitting(Chunks(), room) == Fits(room)
    {
      assert Chunks()[1..] == rest;
    }

    /** `fill_buf`: an empty answer means the connection is closed. */
    method FillBuffer(ghost room: int) returns (available: Option<Bytes>)
      requires Valid() && room >= 0
      modifies this
      ensures Valid() && Pending() == old(Pending()) && Fits(room) == old(Fits(room))
      ensures available.Some? ==> buffer == available.value
      ensures available.None? || available.value == [] ==> Pending() == []
      ensures if old(buffer) == [] && old(rest) != [] then |rest| < |old(rest)| else rest == old(rest) && buffer == old(buffer)
    {
      if buffer == [] {
        if rest == [] {
          return if broken then None else Some([]);
        }
        buffer, rest := rest[0], rest[1..];
      }
      available := Some(buffer);
    }

    method Consume(n: nat)
      requires Valid() && n <= |buffer|
      modifies this
      ensures Valid() && buffer == old(buffer)[n..] && rest == old(rest)
    {
      buffer := buffer[n..];
    }
  }

  /** Whether the line ends in the chunk just seen shows in the chunk alone. */
  lemma LineEndsInChunk(all: Bytes, line: Bytes, chunk: Bytes, later: Bytes)
    requires NoLineFeed(line) && all == line + chunk + later
    ensures LineLength(chunk) > 0 ==> LineLength(all) == |line| + LineLength(chunk)
    ensures LineLength(chunk) == 0 ==> Needed(all) >= |line| + |chunk| && NoLineFeed(line + chunk)
  {
    assert forall i :: 0 <= i < |line| ==> all[i] == line[i];
    assert forall i :: 0 <= i < |chunk| ==> all[|line| + i] == chunk[i];
    if LineLength(chunk) > 0 {
      assert all[|line| + LineLength(chunk) - 1] == '\n';
    }
  }

  lemma TakenFrom(all: Bytes, line: Bytes, chunk: Bytes, later: Bytes, take: nat)
    requires take <= |chunk| && all == line + (chunk + later)
    ensures all == (line + chunk[..take]) + (chunk[take..] + later)
    ensures all[..|line| + take] == line + chunk[..take] && all[|line| + take..] == chunk[take..] + later
  {
    assert chunk == chunk[..take] + chunk[take..];
  }

  datatype Stop = LineEnded | TooLong | AtEnd

  /** What the loop of the reader keeps: no line feed so far, and only whole chunks taken. */
  ghost predicate Gathering(stream: BufferedStream, line: Bytes, all: Bytes, fits: nat)
    reads stream
  {
    && stream.Valid()
    && |line| <= MAX_IMAP_LINE_BYTES && all == line + stream.Pending() && NoLineFeed(line)
    && fits == |line| + stream.Fits(MAX_IMAP_LINE_BYTES - |line|)
  }

  ghost predicate Gathered(stream: BufferedStream, line: Bytes, all: Bytes, fits: nat, stop: Stop)
    reads stream
  {
    && stream.Valid() && |line| <= MAX_IMAP_LINE_BYTES && all == line + stream.Pending()
    && match stop
       case LineEnded => LineLength(all) == |line| > 0
       case TooLong => Needed(all) > MAX_IMAP_LINE_BYTES && fits == |line|
       case AtEnd => stream.Pending() == [] && LineLength(all) == 0
  }

  /** One pass of the loop over what is in the buffer; nothing if the line goes on. */
  method TakeChunk(stream: BufferedStream, line: Bytes, ghost all: Bytes, ghost fits: nat) returns (longer: Bytes,
                   stop: Option<Stop>)
    requires Gathering(stream, line, all, fits) && stream.buffer != []
    modifies stream
    ensures if stop.None? then Gathering(stream, longer, all, fits) && stream.buffer == [] && stream.rest == old(stream.rest)
            else Gathered(stream, longer, all, fits, stop.value)
  {
    var chunk := stream.buffer;
    ghost var later := Flat(stream.rest);
    LineEndsInChunk(all, line, chunk, later);
    var newline := LineLength(chunk);
    var take := if newline > 0 then newline else |chunk|;
    if |line| + take > MAX_IMAP_LINE_BYTES {
      return line, Some(TooLong);
    }
    TakenFrom(all, line, chunk, later, take);
    stream.Consume(take);
    longer := line + chunk[..take];
    if newline > 0 {
      return longer, Some(LineEnded);
    }
    assert longer == line + chunk && NoLineFeed(longer);
    assert stream.Fits(MAX_IMAP_LINE_BYTES - |longer|) == Fitting(stream.rest, MAX_IMAP_LINE_BYTES - |line| - |chunk|);
    stop := None;
  }

  /** The loop of the reader: gathers chunks until the line ends, gets too long or breaks off. */
  method Gather(stream: BufferedStream, ghost all: Bytes, ghost fits: nat) returns (line: Bytes, stop: Stop)
    requires stream.Valid() && all == stream.Pending() && fits == stream.Fits(MAX_IMAP_LINE_BYTES)
    modifies stream
    ensures Gathered(stream, line, all, fits, stop)
  {
    line := [];
    while true
      invariant Gathering(stream, line, all, fits)
      decreases |stream.rest|, |stream.buffer|
    {
      var available := stream.FillBuffer(MAX_IMAP_LINE_BYTES - |line|);
      if available.None? || available.value == [] {
        assert all == line;
        return line, AtEnd;
      }
      var done;
      line, done := TakeChunk(stream, line, all, fits);
      if done.Some? {
        return line, done.value;
      }
    }
  }

  lemma TakenAtFront(all: Bytes, line: Bytes, later: Bytes)
    requires all == line + later
    ensures all[..|line|] == line && all[|line|..] == later
  {
  }

  method ReadBoundedTextLine(stream: BufferedStream, utf8: Bytes -> bool) returns (result: Answer<Bytes>)
    requires stream.Valid()
    modifies stream
    ensures stream.Valid()
    ensures result == LineResult(Flat(old(stream.Chunks())), utf8)
    ensures stream.Pending() == Flat(old(stream.Chunks()))[Consumed(old(stream.Chunks()))..]
  {
    stream.ChunksArePending();
    ghost var all := stream.Pending();
    var line, stop := Gather(stream, all, stream.Fits(MAX_IMAP_LINE_BYTES));
    TakenAtFront(all, line, stream.Pending());
    if stop.AtEnd? {
      return Failure(UNAVAILABLE);
    }
    if stop.TooLong? {
      return Failure(PROTOCOL);
    }
    while line != [] && line[|line| - 1] in {'\n', '\r'}
      invariant WithoutLineEnd(line) == WithoutLineEnd(all[..LineLength(all)])
    {
      line := line[..|line| - 1];
    }
    result := if utf8(line) then Success(line) else Failure(PROTOCOL);
  }
}
