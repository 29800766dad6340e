/** The reader of a transcript stream: text arrives in chunks cut anywhere, is
    buffered, split into frames at blank lines, and each complete frame is
    dispatched. The format is a part of that of section 9.2 of the WHATWG HTML
    Living Standard ("Server-sent events"). */
module EventStream {
  import opened Text
  import opened Wrappers

  datatype Json =
    | JNull | JBool(b: bool) | JNumber(text: string) | JString(s: string)
    | JArray(items: seq<Json>) | JObject(members: map<string, Json>)

  datatype Frame = Frame(event: string, data: string)

  datatype Call =
    | OnSnapshot(data: Json) | OnEntry(entry: Json) | OnThreads(threads: seq<Json>) | OnError(message: string)

  // ---------- Frames of a whole text ----------

  predicate BreakAt(s: string, i: nat) {
    i + 1 < |s| && s[i] == '\n' && s[i + 1] == '\n'
  }

  /** Index of the first blank line at or after `i`, or the length when there is none. */
  function FirstBreak(s: string, i: nat): (r: nat)
    requires i <= |s|
    ensures i <= r <= |s| && (r < |s| ==> BreakAt(s, r))
    ensures forall k :: i <= k < r ==> !BreakAt(s, k)
    decreases |s| - i
  {
    if i == |s| || BreakAt(s, i) then i else FirstBreak(s, i + 1)
  }

  /** `s.split("\n\n")`. */
  function SplitFrames(s: string): (parts: seq<string>)
    ensures parts != []
  {
    var i := FirstBreak(s, 0);
    if i == |s| then [s] else [s[..i]] + SplitFrames(s[i + 2..])
  }

  function Last(parts: seq<string>): string
    requires parts != []
  {
    parts[|parts| - 1]
  }

  function Init(parts: seq<string>): seq<string>
    requires parts != []
  {
    parts[..|parts| - 1]
  }

  function WithLine(f: Frame, line: string): Frame {
    var g := if "event:" <= line then f.(event := Trim(line[6..])) else f;
    if "data:" <= line then g.(data := g.data + Trim(line[5..])) else g
  }

  /** The fields of a frame after its lines: the last event line wins, the data
      lines are run together. */
  function WithLines(lines: seq<string>): Frame {
    if lines == [] then Frame("message", "")
    else WithLine(WithLines(lines[..|lines| - 1]), lines[|lines| - 1])
  }

  function ParseFrame(chunk: string): Frame {
    WithLines(SplitAt(chunk, '\n'))
  }

  /** What a frame makes the reader call, if anything. `parse` is `JSON.parse`,
      None when it throws. */
  function Dispatch(f: Frame, parse: string -> Option<Json>): Option<Call> {
    if f.data == "" || parse(f.data).None? then None
    else
      var parsed := parse(f.data).value;
      if f.event == "snapshot" then Some(OnSnapshot(parsed))
      else if f.event == "entry" then Some(OnEntry(parsed))
      else if f.event == "threads" then
        if parsed.JObject? && "threads" in parsed.members && parsed.members["threads"].JArray?
        then Some(OnThreads(parsed.members["threads"].items)) else None
      else if f.event == "error" then
        Some(OnError(
          if parsed.JObject? && "message" in parsed.members && parsed.members["message"].JString?
          then parsed.members["message"].s else "Stream error"))
      else None
  }

  function CallOf(f: Frame, parse: string -> Option<Json>): seq<Call> {
    match Dispatch(f, parse)
    case Some(call) => [call]
    case None => []
  }

  function DispatchAll(chunks: seq<string>, parse: string -> Option<Json>): seq<Call> {
    if chunks == [] then []
    else
      DispatchAll(chunks[..|chunks| - 1], parse) + CallOf(ParseFrame(chunks[|chunks| - 1]), parse)
  }

  /** The calls a whole text makes: its frames but for the unfinished last piece. */
  function CallsOf(text: string, parse: string -> Option<Json>): seq<Call> {
    DispatchAll(Init(SplitFrames(text)), parse)
  }

  lemma {:induction false} DispatchAllConcat(a: seq<string>, b: seq<string>, parse: string -> Option<Json>)
    ensures DispatchAll(a + b, parse) == DispatchAll(a, parse) + DispatchAll(b, parse)
  {
    hide CallOf, ParseFrame;
    if b == [] {
      assert a + b == a;
    } else {
      DispatchAllConcat(a, b[..|b| - 1], parse);
      assert (a + b)[..|a + b| - 1] == a + b[..|b| - 1];
    }
  }

  // ---------- The reader ----------

  lemma FirstBreakKept(x: string, y: string)
    requires FirstBreak(x, 0) < |x|
    ensures FirstBreak(x + y, 0) == FirstBreak(x, 0)
  {
    var i := FirstBreak(x, 0);
    assert BreakAt(x + y, i);
    assert forall k :: 0 <= k < i ==> !BreakAt(x, k);
    assert forall k :: 0 <= k < i ==> (BreakAt(x + y, k) <==> BreakAt(x, k));
    assert !(FirstBreak(x + y, 0) < i);
  }

  lemma FirstPart(first: string, parts: seq<string>)
    requires parts != []
    ensures Last([first] + parts) == Last(parts) && Init([first] + parts) == [first] + Init(parts)
  {
  }

  lemma SplitStep(s: string, first: string, rest: string)
    requires s == first + "\n\n" + rest && FirstBreak(s, 0) == |first|
    ensures SplitFrames(s) == [first] + SplitFrames(rest)
  {
    assert s[..|first|] == first && s[|first| + 2..] == rest;
  }

  /** Splitting more text goes on where the last, unfinished piece left off. */
  lemma {:induction false} SplitContinues(x: string, y: string)
    ensures SplitFrames(x + y) == Init(SplitFrames(x)) + SplitFrames(Last(SplitFrames(x)) + y)
    decreases |x|
  {
    var i := FirstBreak(x, 0);
    if i < |x| {
      var first, rest := x[..i], x[i + 2..];
      var parts := SplitFrames(rest);
      hide FirstBreak, SplitFrames, BreakAt;
      assert x == first + "\n\n" + rest;
      SplitStep(x, first, rest);
      FirstBreakKept(x, y);
      assert x + y == first + "\n\n" + (rest + y);
      SplitStep(x + y, first, rest + y);
      SplitContinues(rest, y);
      FirstPart(first, parts);
    }
  }

  lemma ReadContinues(received: string, buffer: string, value: string, parse: string -> Option<Json>)
    requires buffer == Last(SplitFrames(received))
    ensures var chunks := SplitFrames(buffer + value);
            && Last(SplitFrames(received + value)) == Last(chunks)
            && CallsOf(received + value, parse)
               == CallsOf(received, parse) + DispatchAll(Init(chunks), parse)
  {
    var done, chunks := Init(SplitFrames(received)), SplitFrames(buffer + value);
    SplitContinues(received, value);
    assert Init(done + chunks) == done + Init(chunks);
    DispatchAllConcat(done, Init(chunks), parse);
  }

  class TranscriptReader {
    const parse: string -> Option<Json>
    var buffer: string
    var calls: seq<Call>
    ghost var received: string

    /** The buffer is the unfinished piece of everything received, and the
        finished pieces have been dispatched, each once, in order. */
    ghost predicate Valid()
      reads this
    {
      && buffer == Last(SplitFrames(received))
      && calls == CallsOf(received, parse)
    }

    constructor (parse: string -> Option<Json>)
      ensures Valid() && received == "" && calls == [] && this.parse == parse
    {
      this.parse := parse;
      buffer, received := "", "";
      calls := [];
    }

    /** The body of the loop over the frames of a chunk. */
    method DispatchChunk(chunk: string)
      modifies this`calls
      ensures calls == old(calls) + DispatchAll([chunk], parse)
    {
      var lines := SplitAt(chunk, '\n');
      var event, data := "message", "";
      for i := 0 to |lines|
        invariant Frame(event, data) == WithLines(lines[..i])
      {
        var line := lines[i];
        assert lines[..i + 1][..i] == lines[..i];
        if "event:" <= line { event := Trim(line[6..]); }
        if "data:" <= line { data := data + Trim(line[5..]); }
      }
      assert lines[..|lines|] == lines;
      assert [chunk][..0] == [] && DispatchAll([], parse) == [];
      if data == "" {
        return;
      }
      var parsed := parse(data);
      if parsed.None? {
        return;
      }
      var json := parsed.value;
      if event == "snapshot" {
        calls := calls + [OnSnapshot(json)];
      } else if event == "entry" {
        calls := calls + [OnEntry(json)];
      } else if event == "threads" {
        if json.JObject? && "threads" in json.members && json.members["threads"].JArray? {
          calls := calls + [OnThreads(json.members["threads"].items)];
        }
      } else if event == "error" {
        var message := "Stream error";
        if json.JObject? && "message" in json.members && json.members["message"].JString? {
          message := json.members["message"].s;
        }
        calls := calls + [OnError(message)];
      }
    }

    method DispatchEach(chunks: seq<string>)
      modifies this`calls
      ensures calls == old(calls) + DispatchAll(chunks, parse)
    {
      for i := 0 to |chunks|
        invariant calls == old(calls) + DispatchAll(chunks[..i], parse)
      {
        DispatchChunk(chunks[i]);
        DispatchAllConcat(chunks[..i], [chunks[i]], parse);
        assert chunks[..i + 1] == chunks[..i] + [chunks[i]];
      }
      assert chunks[..|chunks|] == chunks;
    }

    method Read(value: string)
      requires Valid()
      modifies this
      ensures Valid() && received == old(received) + value
    {
      ReadContinues(received, buffer, value, parse);
      received := received + value;
      buffer := buffer + value;
      var chunks := SplitFrames(buffer);
      buffer := chunks[|chunks| - 1];
      chunks := chunks[..|chunks| - 1];
      DispatchEach(chunks);
    }
  }

  function Concat(parts: seq<string>): string {
    if parts == [] then "" else Concat(parts[..|parts| - 1]) + parts[|parts| - 1]
  }

  /** However the text is cut into chunks, the calls are those of splitting the
      whole of it at blank lines and dropping the unfinished last piece. */
  method ReadAll(values: seq<string>, parse: string -> Option<Json>) returns (calls: seq<Call>)
    ensures calls == CallsOf(Concat(values), parse)
  {
    var reader := new TranscriptReader(parse);
    for i := 0 to |values|
      invariant fresh(reader) && reader.Valid() && reader.parse == parse
      invariant reader.received == Concat(values[..i])
    {
      assert values[..i + 1][..i] == values[..i];
      reader.Read(values[i]);
    }
    assert values[..|values|] == values;
    calls := reader.calls;
  }

  // ---------- Frames as the server prints them ----------

  /** A line of a frame: an event or data with padding around it, or any other
      line, such as a comment, which the reader must skip. */
  datatype Line =
    | EventLine(pre: string, event: string, post: string)
    | DataLine(pre: string, data: string, post: string)
    | OtherLine(text: string)

  datatype Message = Message(lines: seq<Line>)

  predicate OneLine(s: string) {
    '\n' !in s && Trim(s) == s
  }

  predicate Padding(s: string) {
    '\n' !in s && AllSpace(s)
  }

  predicate GoodLine(l: Line) {
    match l
    case EventLine(pre, event, post) => Padding(pre) && OneLine(event) && Padding(post)
    case DataLine(pre, data, post) => Padding(pre) && OneLine(data) && Padding(post)
    case OtherLine(text) => text != "" && '\n' !in text && !("event:" <= text) && !("data:" <= text)
  }

  predicate Printable(m: Message) {
    m.lines != [] && forall i :: 0 <= i < |m.lines| ==> GoodLine(m.lines[i])
  }

  function LineText(l: Line): string {
    match l
    case EventLine(pre, event, post) => "event:" + (pre + event + post)
    case DataLine(pre, data, post) => "data:" + (pre + data + post)
    case OtherLine(text) => text
  }

  function Lines(m: Message): (texts: seq<string>)
    ensures |texts| == |m.lines| && forall i :: 0 <= i < |texts| ==> texts[i] == LineText(m.lines[i])
  {
    seq(|m.lines|, i requires 0 <= i < |m.lines| => LineText(m.lines[i]))
  }

  function PrintMessage(m: Message): string {
    Join(Lines(m), '\n') + "\n\n"
  }

  function PrintAll(ms: seq<Message>): string {
    if ms == [] then "" else PrintMessage(ms[0]) + PrintAll(ms[1..])
  }

  /** The last event, or the default one. */
  function LastEvent(lines: seq<Line>): string {
    if lines == [] then "message"
    else if lines[|lines| - 1].EventLine? then lines[|lines| - 1].event
    else LastEvent(lines[..|lines| - 1])
  }

  /** All data, run together. */
  function AllData(lines: seq<Line>): string {
    if lines == [] then ""
    else AllData(lines[..|lines| - 1]) + if lines[|lines| - 1].DataLine? then lines[|lines| - 1].data else ""
  }

  function Decoded(m: Message): Frame {
    Frame(LastEvent(m.lines), AllData(m.lines))
  }

  /** Non-empty, starts and ends off a newline, and holds no blank line. */
  predicate Solid(s: string) {
    s != "" && s[0] != '\n' && s[|s| - 1] != '\n' && forall k :: 0 <= k < |s| ==> !BreakAt(s, k)
  }

  lemma {:induction false} JoinedLinesAreSolid(lines: seq<string>)
    requires lines != [] && forall i :: 0 <= i < |lines| ==> lines[i] != "" && '\n' !in lines[i]
    ensures Solid(Join(lines, '\n'))
  {
    var first := lines[0];
    assert forall k :: 0 <= k < |first| ==> first[k] != '\n';
    if |lines| > 1 {
      var rest := Join(lines[1..], '\n');
      JoinedLinesAreSolid(lines[1..]);
      var s := first + ['\n'] + rest;
      forall k | 0 <= k < |s| ensures !BreakAt(s, k) {
        if k > |first| { assert !BreakAt(rest, k - |first| - 1); }
      }
    }
  }

  lemma SplitAfterSolid(body: string, rest: string)
    requires Solid(body)
    ensures SplitFrames(body + "\n\n" + rest) == [body] + SplitFrames(rest)
  {
    var s := body + "\n\n" + rest;
    assert BreakAt(s, |body|);
    forall k | 0 <= k < |body| ensures !BreakAt(s, k) {
      assert !BreakAt(body, k);
    }
    assert FirstBreak(s, 0) == |body|;
    assert s[..|body|] == body && s[|body| + 2..] == rest;
  }

  predicate HasList(json: Json) {
    json.JObject? && "threads" in json.members && json.members["threads"].JArray?
  }

  /** Frames do not disturb each other: putting one into a stream between two
      frames puts at most one call between theirs and changes none of them. It
      adds none exactly when it has no data, its data is not JSON, its event is
      unknown, or it announces threads without a list. */
  lemma FrameIsIsolated(before: string, chunk: string, after: string, parse: string -> Option<Json>)
    requires Last(SplitFrames(before)) == "" && Solid(chunk)
    ensures var f := ParseFrame(chunk);
            var own := CallOf(f, parse);
            && CallsOf(before + after, parse) == CallsOf(before, parse) + CallsOf(after, parse)
            && CallsOf(before + (chunk + "\n\n" + after), parse) == CallsOf(before, parse) + own + CallsOf(after, parse)
            && |own| <= 1
            && (own == [] <==>
                 || f.data == "" || parse(f.data).None?
                 || f.event !in {"snapshot", "entry", "threads", "error"}
                 || (f.event == "threads" && !HasList(parse(f.data).value)))
  {
    hide CallsOf, CallOf, ParseFrame, SplitFrames, Last, Solid;
    SilentIff(ParseFrame(chunk), parse);
    AtBoundary(before, after, parse);
    AtBoundary(before, chunk + "\n\n" + after, parse);
    FrameThenRest(chunk, after, parse);
  }

  lemma SilentIff(f: Frame, parse: string -> Option<Json>)
    ensures |CallOf(f, parse)| <= 1
    ensures CallOf(f, parse) == [] <==>
            || f.data == "" || parse(f.data).None?
            || f.event !in {"snapshot", "entry", "threads", "error"}
            || (f.event == "threads" && !HasList(parse(f.data).value))
  {
  }

  lemma AtBoundary(before: string, after: string, parse: string -> Option<Json>)
    requires Last(SplitFrames(before)) == ""
    ensures CallsOf(before + after, parse) == CallsOf(before, parse) + CallsOf(after, parse)
  {
    ReadContinues(before, "", after, parse);
    assert "" + after == after;
  }

  lemma FrameThenRest(chunk: string, after: string, parse: string -> Option<Json>)
    requires Solid(chunk)
    ensures CallsOf(chunk + "\n\n" + after, parse) == CallOf(ParseFrame(chunk), parse) + CallsOf(after, parse)
  {
    hide ParseFrame, SplitFrames, Solid, CallOf, Init, Last, DispatchAll;
    SplitAfterSolid(chunk, after);
    FirstPart(chunk, SplitFrames(after));
    DispatchAllConcat([chunk], Init(SplitFrames(after)), parse);
    OneFrame(chunk, parse);
  }

  lemma OneFrame(chunk: string, parse: string -> Option<Json>)
    ensures DispatchAll([chunk], parse) == CallOf(ParseFrame(chunk), parse)
  {
    hide ParseFrame, CallOf;
    assert [chunk][..0] == [] && DispatchAll([], parse) == [];
  }

  lemma LineDecodes(f: Frame, l: Line)
    requires GoodLine(l)
    ensures LineText(l) != "" && '\n' !in LineText(l)
    ensures WithLine(f, LineText(l)) ==
            match l
            case EventLine(_, event, _) => f.(event := event)
            case DataLine(_, data, _) => f.(data := f.data + data)
            case OtherLine(_) => f
  {
    hide Trim, AllSpace;
    var line := LineText(l);
    match l
    case EventLine(pre, event, post) =>
      TrimIgnoresPadding(pre, event, post);
      assert line[0] == 'e' && line[6..] == pre + event + post;
    case DataLine(pre, data, post) =>
      TrimIgnoresPadding(pre, data, post);
      assert line[0] == 'd' && line[5..] == pre + data + post;
    case OtherLine(_) =>
  }

  lemma {:induction false} LinesDecode(lines: seq<Line>)
    requires forall i :: 0 <= i < |lines| ==> GoodLine(lines[i])
    ensures WithLines(Lines(Message(lines))) == Frame(LastEvent(lines), AllData(lines))
  {
    hide WithLine, GoodLine, LineText;
    if lines != [] {
      var n := |lines| - 1;
      LinesDecode(lines[..n]);
      assert Lines(Message(lines))[..n] == Lines(Message(lines[..n]));
      LineDecodes(Frame(LastEvent(lines[..n]), AllData(lines[..n])), lines[n]);
    }
  }

  /** A printed frame holds no blank line and decodes to its last event, or the
      default one, and all its data run together; other lines do not matter. */
  lemma MessageDecodes(m: Message)
    requires Printable(m)
    ensures Solid(Join(Lines(m), '\n')) && ParseFrame(Join(Lines(m), '\n')) == Decoded(m)
  {
    hide GoodLine, LineText;
    var lines := Lines(m);
    forall i | 0 <= i < |lines| ensures lines[i] != "" && '\n' !in lines[i] {
      LineDecodes(Frame("", ""), m.lines[i]);
    }
    JoinedLinesAreSolid(lines);
    SplitJoin(lines, '\n');
    LinesDecode(m.lines);
  }

  function CallsFor(ms: seq<Message>, parse: string -> Option<Json>): seq<Call> {
    if ms == [] then []
    else CallOf(Decoded(ms[0]), parse) + CallsFor(ms[1..], parse)
  }

  /** A printed stream, with an unfinished rest, splits back into its messages. */
  lemma {:induction false} PrintedStreamDecodes(ms: seq<Message>, tail: string, parse: string -> Option<Json>)
    requires forall i :: 0 <= i < |ms| ==> Printable(ms[i])
    requires FirstBreak(tail, 0) == |tail|
    ensures Last(SplitFrames(PrintAll(ms) + tail)) == tail
    ensures CallsOf(PrintAll(ms) + tail, parse) == CallsFor(ms, parse)
  {
    hide CallOf, Decoded, PrintMessage, Printable, SplitFrames, Last, Init;
    if ms == [] {
      assert PrintAll(ms) + tail == tail;
      TailAlone(tail, parse);
    } else {
      var rest := PrintAll(ms[1..]) + tail;
      PrintedStreamDecodes(ms[1..], tail, parse);
      MessageThenRest(ms[0], rest, parse);
      assert PrintAll(ms) + tail == PrintMessage(ms[0]) + rest;
    }
  }

  lemma TailAlone(tail: string, parse: string -> Option<Json>)
    requires FirstBreak(tail, 0) == |tail|
    ensures Last(SplitFrames(tail)) == tail && CallsOf(tail, parse) == []
  {
  }

  lemma MessageThenRest(m: Message, rest: string, parse: string -> Option<Json>)
    requires Printable(m)
    ensures Last(SplitFrames(PrintMessage(m) + rest)) == Last(SplitFrames(rest))
    ensures CallsOf(PrintMessage(m) + rest, parse) == CallOf(Decoded(m), parse) + CallsOf(rest, parse)
  {
    hide CallOf, ParseFrame, Decoded, Solid, Printable, Lines;
    var body := Join(Lines(m), '\n');
    MessageDecodes(m);
    SplitAfterSolid(body, rest);
    FirstPart(body, SplitFrames(rest));
    FrameThenRest(body, rest, parse);
  }

  /** Round trip: printed messages, cut into chunks anywhere and followed by any
      unfinished rest, reach the handlers as the events and data they carry. */
  method ReadPrinted(ms: seq<Message>, tail: string, values: seq<string>, parse: string -> Option<Json>)
    returns (calls: seq<Call>)
    requires forall i :: 0 <= i < |ms| ==> Printable(ms[i])
    requires FirstBreak(tail, 0) == |tail|
    requires Concat(values) == PrintAll(ms) + tail
    ensures calls == CallsFor(ms, parse)
  {
    calls := ReadAll(values, parse);
    PrintedStreamDecodes(ms, tail, parse);
  }

  // ---------- The feed of the server ----------

  /** What is sent: the transcript, an error, a sign of life, and the other
      events the reader knows. A bare error is one without a message. */
  datatype ServerEvent =
    | Snapshot(transcript: Json)
    | Entry(entry: Json)
    | Threads(threads: seq<Json>)
    | Failure(message: string)
    | BareFailure(data: Json)
    | Ping(at: string)

  predicate Sendable(e: ServerEvent) {
    e.BareFailure? ==> !(e.data.JObject? && "message" in e.data.members && e.data.members["message"].JString?)
  }

  function EventName(e: ServerEvent): string {
    match e
    case Snapshot(_) => "snapshot"
    case Entry(_) => "entry"
    case Threads(_) => "threads"
    case Failure(_) => "error"
    case BareFailure(_) => "error"
    case Ping(_) => "ping"
  }

  function EventData(e: ServerEvent): Json {
    match e
    case Snapshot(transcript) => transcript
    case Entry(entry) => entry
    case Threads(threads) => JObject(map["threads" := JArray(threads)])
    case Failure(message) => JObject(map["message" := JString(message)])
    case BareFailure(data) => data
    case Ping(at) => JObject(map["at" := JString(at)])
  }

  /** `event: E`, then `data: ` and the JSON text. */
  function FrameOf(e: ServerEvent, stringify: Json -> string): Message {
    Message([EventLine(" ", EventName(e), ""), DataLine(" ", stringify(EventData(e)), "")])
  }

  function Frames(events: seq<ServerEvent>, stringify: Json -> string): (ms: seq<Message>)
    ensures |ms| == |events| && forall i :: 0 <= i < |ms| ==> ms[i] == FrameOf(events[i], stringify)
  {
    seq(|events|, i requires 0 <= i < |events| => FrameOf(events[i], stringify))
  }

  /** `JSON.stringify` writes one line, without space around it, and `JSON.parse` reads it back. */
  ghost predicate RoundTrips(stringify: Json -> string, parse: string -> Option<Json>) {
    forall json :: stringify(json) != "" && OneLine(stringify(json)) && parse(stringify(json)) == Some(json)
  }

  /** The handler calls an event is sent for. */
  function CallsOn(e: ServerEvent): seq<Call> {
    match e
    case Snapshot(transcript) => [OnSnapshot(transcript)]
    case Entry(entry) => [OnEntry(entry)]
    case Threads(threads) => [OnThreads(threads)]
    case Failure(message) => [OnError(message)]
    case BareFailure(_) => [OnError("Stream error")]
    case Ping(_) => []
  }

  function Delivered(events: seq<ServerEvent>): seq<Call> {
    if events == [] then [] else CallsOn(events[0]) + Delivered(events[1..])
  }

  lemma TwoLinesDecode(event: string, data: string)
    ensures Decoded(Message([EventLine(" ", event, ""), DataLine(" ", data, "")])) == Frame(event, data)
  {
    var one := [EventLine(" ", event, "")];
    var two := one + [DataLine(" ", data, "")];
    assert two[..1] == one && one[..0] == [];
    assert AllData([]) == "" && AllData(one) == "" && LastEvent(one) == event;
    assert two == [EventLine(" ", event, ""), DataLine(" ", data, "")];
    assert AllData(two) == "" + data == data && LastEvent(two) == event;
  }

  lemma DispatchOfEvent(e: ServerEvent, text: string, parse: string -> Option<Json>)
    requires Sendable(e) && text != "" && parse(text) == Some(EventData(e))
    ensures CallOf(Frame(EventName(e), text), parse) == CallsOn(e)
  {
  }

  lemma FrameIsPrintable(e: ServerEvent, stringify: Json -> string)
    requires OneLine(EventName(e)) && OneLine(stringify(EventData(e)))
    ensures Printable(FrameOf(e, stringify))
  {
    var m := FrameOf(e, stringify);
    hide OneLine, EventName, EventData;
    assert Padding(" ") && Padding("");
    assert GoodLine(m.lines[0]) && GoodLine(m.lines[1]);
  }

  lemma EventIsDelivered(e: ServerEvent, stringify: Json -> string, parse: string -> Option<Json>)
    requires RoundTrips(stringify, parse) && Sendable(e)
    ensures Printable(FrameOf(e, stringify)) && CallOf(Decoded(FrameOf(e, stringify)), parse) == CallsOn(e)
  {
    var text := stringify(EventData(e));
    assert OneLine(text) && parse(text) == Some(EventData(e)) && text != "";
    hide OneLine, RoundTrips, Decoded, EventName, EventData, Printable, Sendable, CallOf, CallsOn;
    NamesAreTight(e);
    FrameIsPrintable(e, stringify);
    TwoLinesDecode(EventName(e), text);
    DispatchOfEvent(e, text, parse);
  }

  lemma NamesAreTight(e: ServerEvent)
    ensures OneLine(EventName(e))
  {
    TrimTight(EventName(e));
  }

  lemma {:induction false} EventsAreDelivered(events: seq<ServerEvent>, stringify: Json -> string, parse: string -> Option<Json>)
    requires RoundTrips(stringify, parse) && forall i :: 0 <= i < |events| ==> Sendable(events[i])
    ensures CallsFor(Frames(events, stringify), parse) == Delivered(events)
    ensures forall i :: 0 <= i < |events| ==> Printable(Frames(events, stringify)[i])
  {
    hide RoundTrips, Printable, CallOf, Decoded, FrameOf, CallsOn, Sendable;
    forall i | 0 <= i < |events| ensures Printable(Frames(events, stringify)[i]) {
      EventIsDelivered(events[i], stringify, parse);
    }
    hide Frames;
    if events != [] {
      EventIsDelivered(events[0], stringify, parse);
      EventsAreDelivered(events[1..], stringify, parse);
      assert Frames(events, stringify)[1..] == Frames(events[1..], stringify);
    }
  }

  /** End to end: however the network cuts the feed, and wherever it ends, each
      event sent reaches its own handler with what it carries, once and in
      order, and signs of life reach none. */
  method ReceiveFeed(events: seq<ServerEvent>, tail: string, values: seq<string>,
                     stringify: Json -> string, parse: string -> Option<Json>)
    returns (calls: seq<Call>)
    requires RoundTrips(stringify, parse) && FirstBreak(tail, 0) == |tail|
    requires forall i :: 0 <= i < |events| ==> Sendable(events[i])
    requires Concat(values) == PrintAll(Frames(events, stringify)) + tail
    ensures calls == Delivered(events)
  {
    EventsAreDelivered(events, stringify, parse);
    calls := ReadPrinted(Frames(events, stringify), tail, values, parse);
  }
}
