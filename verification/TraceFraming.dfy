/** Reading a recorded trace: line framing over a stream of chunks, against parsing the
    whole buffer at once. */
module TraceFraming {
  import opened Prelude
  import opened Splitting
  import opened TraceEvents

  newtype Byte = x: int | 0 <= x < 256

  type Bytes = seq<Byte>

  /** Strict JSON and the trace-event contract, for one line. */
  type LineParser = Bytes -> Option<TraceEvent>

  datatype ReplayError = InvalidSchema | Io

  const MAX_TRACE_BYTES: nat := 1048576
  const MAX_LINE_BYTES: nat := 262144
  const MAX_EVENTS: nat := 10000

  const NEWLINE: Byte := 10
  const RETURN: Byte := 13
  const BYTE_ORDER_MARK: Bytes := [239, 187, 191]

  function ParseLine(parse: LineParser, line: Bytes): Option<TraceEvent> {
    if line == [] || |line| > MAX_LINE_BYTES then None else parse(line)
  }

  /** The event of every line, if every line has one. */
  function ParseLines(parse: LineParser, lines: seq<Bytes>): Option<Trace> {
    if lines == [] then Some([])
    else
      var front := ParseLines(parse, lines[..|lines| - 1]);
      var last := ParseLine(parse, lines[|lines| - 1]);
      if front.None? || last.None? then None else Some(front.value + [last.value])
  }

  predicate NumberedFromOne(events: Trace) {
    forall i | 0 <= i < |events| :: events[i].sequence == i + 1
  }

  function ValidateEvents(events: Trace, scenarioId: string): Result<Trace, ReplayError> {
    if events == [] || |events| > MAX_EVENTS || !NumberedFromOne(events) || !UniqueIds(events) ||
       exists e | e in events :: e.runId != "run-" + scenarioId
    then Err(InvalidSchema)
    else Ok(events)
  }

  /** What passes is one contiguous run with unique event ids: the precondition of every
      detector. */
  lemma {:induction false} ReplayedTraceIsContiguous(events: Trace, scenarioId: string)
    requires ValidateEvents(events, scenarioId).Ok?
    ensures events != [] && Contiguous(events) && UniqueIds(events)
  {
    forall i | 0 <= i < |events| - 1
      ensures events[i + 1].sequence == events[i].sequence + 1 && events[i + 1].runId == events[i].runId
    {
      assert events[i] in events && events[i + 1] in events;
    }
  }

  /** Parsing a captured buffer: the simple form. */
  function ParseEvents(parse: LineParser, raw: Bytes, scenarioId: string): Result<Trace, ReplayError> {
    if raw == [] || BYTE_ORDER_MARK <= raw || RETURN in raw || raw[|raw| - 1] != NEWLINE then Err(InvalidSchema)
    else
      var events := ParseLines(parse, Split(raw[..|raw| - 1], NEWLINE));
      if events.None? then Err(InvalidSchema) else ValidateEvents(events.value, scenarioId)
  }

  lemma {:induction false} ParseLinesMeaning(parse: LineParser, lines: seq<Bytes>, events: Trace)
    ensures ParseLines(parse, lines) == Some(events) <==>
      |events| == |lines| && forall i | 0 <= i < |lines| ::
        0 < |lines[i]| <= 262144 && parse(lines[i]) == Some(events[i])
  {
    if lines != [] {
      var n := |lines| - 1;
      if |events| == |lines| {
        ParseLinesMeaning(parse, lines[..n], events[..n]);
        assert events == events[..n] + [events[n]];
      }
      if ParseLines(parse, lines[..n]).Some? {
        ParseLinesMeaning(parse, lines[..n], ParseLines(parse, lines[..n]).value);
      }
    }
  }

  /** A line of a recorded trace and its event. */
  ghost predicate Records(parse: LineParser, line: Bytes, e: TraceEvent, i: nat, scenarioId: string) {
    && 0 < |line| <= 262144 && (13 as Byte) !in line && parse(line) == Some(e)
    && e.sequence == i + 1 && e.runId == "run-" + scenarioId
  }

  /** What is accepted: lines that each end in a newline, at most 10000 of them, without a
      byte order mark in front; each parses to the event with its number, in the run of the
      scenario; and no event id comes twice. */
  lemma {:induction false} ParseEventsMeaning(
    parse: LineParser, lines: seq<Bytes>, scenarioId: string, events: Trace)
    requires |lines| > 0 && forall line | line in lines :: (10 as Byte) !in line
    ensures var raw := Join(lines, 10) + [10];
      ParseEvents(parse, raw, scenarioId) == Ok(events) <==>
        && !([239, 187, 191] <= raw) && |events| == |lines| <= 10000
        && (forall i | 0 <= i < |lines| :: Records(parse, lines[i], events[i], i, scenarioId))
        && forall i, j | 0 <= i < j < |events| :: events[i].eventId != events[j].eventId
  {
    SplitJoin(lines, NEWLINE);
    var raw := Join(lines, NEWLINE) + [NEWLINE];
    assert raw[..|raw| - 1] == Join(lines, NEWLINE);
    ParseLinesMeaning(parse, lines, events);
    JoinMembers(lines, NEWLINE, RETURN);
    if ParseLines(parse, lines).Some? {
      ParseLinesMeaning(parse, lines, ParseLines(parse, lines).value);
    }
  }

  lemma {:induction false} JoinMembers(lines: seq<Bytes>, separator: Byte, b: Byte)
    requires |lines| > 0 && b != separator
    ensures b in Join(lines, separator) <==> exists line :: line in lines && b in line
  {
    if |lines| > 1 {
      JoinMembers(lines[1..], separator, b);
      assert lines == [lines[0]] + lines[1..];
    }
  }

  /** And every buffer that is accepted ends in a newline. */
  lemma {:induction false} AcceptedBufferEnds(parse: LineParser, raw: Bytes, scenarioId: string)
    requires ParseEvents(parse, raw, scenarioId).Ok?
    ensures exists lines: seq<Bytes> ::
      |lines| > 0 && (forall line | line in lines :: (10 as Byte) !in line) && raw == Join(lines, 10) + [10]
  {
    var front := raw[..|raw| - 1];
    JoinSplit(front, NEWLINE);
    assert raw == Join(Split(front, NEWLINE), NEWLINE) + [NEWLINE];
  }

  // ------------------------------------------------------------------- framing

  /** The bytes since the last newline. */
  function Partial(raw: Bytes): (line: Bytes) {
    if raw == [] || raw[|raw| - 1] == NEWLINE then [] else Partial(raw[..|raw| - 1]) + [raw[|raw| - 1]]
  }

  /** The lines that have been ended. */
  function Complete(raw: Bytes): (lines: seq<Bytes>) {
    if raw == [] then []
    else
      var front := raw[..|raw| - 1];
      if raw[|raw| - 1] == NEWLINE then Complete(front) + [Partial(front)] else Complete(front)
  }

  function Extended(parts: seq<Bytes>, b: Byte): seq<Bytes>
    requires |parts| > 0
  {
    if b == NEWLINE then parts + [[]] else parts[..|parts| - 1] + [parts[|parts| - 1] + [b]]
  }

  lemma {:induction false} SplitAppend(raw: Bytes, b: Byte)
    ensures Split(raw + [b], NEWLINE) == Extended(Split(raw, NEWLINE), b)
  {
    if raw == [] {
      var one := [b];
      assert raw + [b] == one && one[1..] == raw;
      assert [b] + raw == raw + [b];
      assert [raw][1..] == [] && [raw][..0] == [];
      assert Split(raw, NEWLINE) == [raw];
    } else {
      SplitAppend(raw[1..], b);
      assert (raw + [b])[1..] == raw[1..] + [b];
      var rest := Split(raw[1..], NEWLINE);
      var longer := Extended(rest, b);
      if raw[0] == NEWLINE {
        ExtendLater([], rest, b);
      } else {
        ExtendFirst(raw[0], rest, b);
      }
    }
  }

  lemma {:induction false} ExtendLater(first: Bytes, rest: seq<Bytes>, b: Byte)
    requires |rest| > 0
    ensures Extended([first] + rest, b) == [first] + Extended(rest, b)
  {
    assert ([first] + rest)[..|rest|] == [first] + rest[..|rest| - 1];
  }

  lemma {:induction false} ExtendFirst(first: Byte, rest: seq<Bytes>, b: Byte)
    requires |rest| > 0
    ensures var longer := Extended(rest, b);
      Extended([[first] + rest[0]] + rest[1..], b) == [[first] + longer[0]] + longer[1..]
  {
    if |rest| == 1 {
      assert rest == [rest[0]] && rest[1..] == [];
      assert [first] + (rest[0] + [b]) == [first] + rest[0] + [b];
    } else {
      ExtendLater([first] + rest[0], rest[1..], b);
      ExtendLater(rest[0], rest[1..], b);
      assert [rest[0]] + rest[1..] == rest;
    }
  }

  /** Framing byte by byte finds the same lines as splitting the buffer. */
  lemma {:induction false} FramingIsSplitting(raw: Bytes)
    ensures Split(raw, NEWLINE) == Complete(raw) + [Partial(raw)]
  {
    if raw != [] {
      var front, last := raw[..|raw| - 1], raw[|raw| - 1];
      FramingIsSplitting(front);
      SplitAppend(front, last);
      assert raw == front + [last];
    }
  }

  /** A stream no continuation of which can be accepted. */
  predicate Doomed(parse: LineParser, raw: Bytes) {
    || RETURN in raw
    || |Partial(raw)| > MAX_LINE_BYTES
    || ParseLines(parse, Complete(raw)).None?
    || |Complete(raw)| > MAX_EVENTS
  }

  lemma {:induction false} DoomedStays(parse: LineParser, raw: Bytes, more: Bytes)
    requires Doomed(parse, raw)
    ensures Doomed(parse, raw + more)
  {
    if more == [] {
      assert raw + more == raw;
    } else {
      var front, last := more[..|more| - 1], more[|more| - 1];
      DoomedStays(parse, raw, front);
      DoomedOneMore(parse, raw + front, last);
      assert raw + front + [last] == raw + more;
    }
  }

  lemma {:induction false} DoomedOneMore(parse: LineParser, raw: Bytes, b: Byte)
    requires Doomed(parse, raw)
    ensures Doomed(parse, raw + [b])
  {
    var longer := raw + [b];
    assert longer[..|longer| - 1] == raw;
    if b == NEWLINE {
      ParseOneMore(parse, Complete(raw), Partial(raw));
    }
  }

  lemma {:induction false} ParseOneMore(parse: LineParser, lines: seq<Bytes>, line: Bytes)
    ensures ParseLines(parse, lines + [line]) ==
      if ParseLines(parse, lines).None? || ParseLine(parse, line).None? then None
      else Some(ParseLines(parse, lines).value + [ParseLine(parse, line).value])
  {
    assert (lines + [line])[..|lines|] == lines;
  }

  lemma {:induction false} OneEventPerLine(parse: LineParser, lines: seq<Bytes>)
    requires ParseLines(parse, lines).Some?
    ensures |ParseLines(parse, lines).value| == |lines|
  {
    if lines != [] {
      OneEventPerLine(parse, lines[..|lines| - 1]);
    }
  }

  /** What reading a stream gives, as a function of all its bytes. */
  function StreamOf(parse: LineParser, raw: Bytes, remaining: nat, scenarioId: string): Result<Trace, ReplayError> {
    if |raw| > MAX_TRACE_BYTES || |raw| > remaining || Doomed(parse, raw) then Err(InvalidSchema)
    else if Partial(raw) != [] || raw == [] || BYTE_ORDER_MARK <= raw then Err(Io)
    else ValidateEvents(ParseLines(parse, Complete(raw)).value, scenarioId)
  }

  /** Streaming accepts exactly what parsing the whole buffer accepts, within the byte
      limits, and gives the same events. Only the code of a refusal may differ. */
  lemma {:induction false} StreamingIsParsing(parse: LineParser, raw: Bytes, remaining: nat, scenarioId: string)
    ensures StreamOf(parse, raw, remaining, scenarioId).Ok? <==>
      |raw| <= 1048576 && |raw| <= remaining && ParseEvents(parse, raw, scenarioId).Ok?
    ensures StreamOf(parse, raw, remaining, scenarioId).Ok? ==>
      StreamOf(parse, raw, remaining, scenarioId) == ParseEvents(parse, raw, scenarioId)
  {
    if raw != [] && raw[|raw| - 1] == NEWLINE {
      FramingIsSplitting(raw[..|raw| - 1]);
      assert Complete(raw) == Split(raw[..|raw| - 1], NEWLINE);
      if ParseLines(parse, Complete(raw)).Some? {
        OneEventPerLine(parse, Complete(raw));
      }
    } else if raw != [] {
      assert Partial(raw) != [];
    }
  }

  // ------------------------------------------------------------------ the loop

  datatype Frame = Frame(line: Bytes, events: Trace)

  ghost predicate Frames(parse: LineParser, raw: Bytes, f: Frame) {
    && !Doomed(parse, raw)
    && f.line == Partial(raw)
    && ParseLines(parse, Complete(raw)) == Some(f.events)
  }

  /** One byte. */
  method Accept(parse: LineParser, ghost raw: Bytes, b: Byte, f: Frame) returns (r: Option<Frame>)
    requires Frames(parse, raw, f)
    ensures r.None? <==> Doomed(parse, raw + [b])
    ensures r.Some? ==> Frames(parse, raw + [b], r.value)
  {
    ghost var longer := raw + [b];
    assert longer[..|longer| - 1] == raw;
    OneEventPerLine(parse, Complete(raw));
    if b == NEWLINE {
      ParseOneMore(parse, Complete(raw), f.line);
      var event := ParseLine(parse, f.line);
      if event.None? {
        return None;
      }
      var events := f.events + [event.value];
      return if |events| > MAX_EVENTS then None else Some(Frame([], events));
    }
    if b == RETURN || |f.line| >= MAX_LINE_BYTES {
      return None;
    }
    return Some(Frame(f.line + [b], f.events));
  }

  lemma {:induction false} ChunkStep(raw: Bytes, chunk: Bytes, i: nat)
    requires i < |chunk|
    ensures raw + chunk[..i] + [chunk[i]] == raw + chunk[..i + 1]
    ensures raw + chunk[..i + 1] + chunk[i + 1..] == raw + chunk
  {
  }

  method AcceptChunk(parse: LineParser, ghost raw: Bytes, chunk: Bytes, f: Frame) returns (r: Option<Frame>)
    requires Frames(parse, raw, f)
    ensures r.None? ==> Doomed(parse, raw + chunk)
    ensures r.Some? ==> Frames(parse, raw + chunk, r.value)
  {
    var frame := f;
    assert raw + chunk[..0] == raw;
    for i := 0 to |chunk|
      invariant Frames(parse, raw + chunk[..i], frame)
    {
      var next := Accept(parse, raw + chunk[..i], chunk[i], frame);
      ChunkStep(raw, chunk, i);
      if next.None? {
        DoomedStays(parse, raw + chunk[..i + 1], chunk[i + 1..]);
        return None;
      }
      frame := next.value;
    }
    assert raw + chunk[..|chunk|] == raw + chunk;
    return Some(frame);
  }

  ghost function Concatenated(chunks: seq<Bytes>): Bytes {
    if chunks == [] then [] else Concatenated(chunks[..|chunks| - 1]) + chunks[|chunks| - 1]
  }

  lemma {:induction false} ConcatenatedAppend(chunks: seq<Bytes>, more: seq<Bytes>)
    ensures Concatenated(chunks + more) == Concatenated(chunks) + Concatenated(more)
  {
    if more == [] {
      assert chunks + more == chunks;
    } else {
      var front, last := more[..|more| - 1], more[|more| - 1];
      ConcatenatedAppend(chunks, front);
      assert (chunks + more)[..|chunks + more| - 1] == chunks + front;
      assert Concatenated(chunks) + Concatenated(front) + last == Concatenated(chunks) + (Concatenated(front) + last);
    }
  }

  lemma {:induction false} ReadOneMore(chunks: seq<Bytes>, n: nat)
    requires n < |chunks|
    ensures Concatenated(chunks[..n + 1]) == Concatenated(chunks[..n]) + chunks[n]
  {
    var head := chunks[..n + 1];
    assert head[..|head| - 1] == chunks[..n];
  }

  /** Whatever has been read stays a prefix of the stream. */
  lemma {:induction false} ReadSoFar(chunks: seq<Bytes>, n: nat)
    requires n <= |chunks|
    ensures Concatenated(chunks) == Concatenated(chunks[..n]) + Concatenated(chunks[n..])
  {
    ConcatenatedAppend(chunks[..n], chunks[n..]);
    assert chunks[..n] + chunks[n..] == chunks;
  }

  /** The source's loop. However the bytes are cut into chunks, the result depends on the
      bytes alone. */
  method ReadTrace(parse: LineParser, chunks: seq<Bytes>, remaining: nat, scenarioId: string)
    returns (raw: Bytes, r: Result<Trace, ReplayError>)
    ensures r == StreamOf(parse, Concatenated(chunks), remaining, scenarioId)
    ensures r.Ok? ==> raw == Concatenated(chunks)
  {
    raw := [];
    var frame := Frame([], []);
    for n := 0 to |chunks|
      invariant raw == Concatenated(chunks[..n]) && |raw| <= MAX_TRACE_BYTES && |raw| <= remaining
      invariant Frames(parse, raw, frame)
    {
      ReadOneMore(chunks, n);
      ReadSoFar(chunks, n + 1);
      ghost var before := raw;
      raw := raw + chunks[n];
      if |raw| > MAX_TRACE_BYTES || |raw| > remaining {
        return raw, Err(InvalidSchema);
      }
      var next := AcceptChunk(parse, before, chunks[n], frame);
      if next.None? {
        DoomedStays(parse, raw, Concatenated(chunks[n + 1..]));
        return raw, Err(InvalidSchema);
      }
      frame := next.value;
    }
    assert chunks[..|chunks|] == chunks;
    if frame.line != [] || raw == [] || BYTE_ORDER_MARK <= raw {
      return raw, Err(Io);
    }
    return raw, ValidateEvents(frame.events, scenarioId);
  }
}
