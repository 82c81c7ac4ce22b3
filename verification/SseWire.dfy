/** The bytes of the event stream (server/handlerstats.go), read back as section 9.2.6 ("Interpreting an event
  * stream") of the WHATWG HTML Standard prescribes. */
module SseWire {
  import opened Prelude

  const LF: Byte := 0x0A
  const CR: Byte := 0x0D
  const COLON: Byte := 0x3A
  const SPACE: Byte := 0x20

  const EVENT_FIELD: Bytes := [0x65, 0x76, 0x65, 0x6E, 0x74]
  const DATA_FIELD: Bytes := [0x64, 0x61, 0x74, 0x61]
  const ID_FIELD: Bytes := [0x69, 0x64]
  const UPDATE: Bytes := [0x75, 0x70, 0x64, 0x61, 0x74, 0x65]
  const MESSAGE: Bytes := [0x6D, 0x65, 0x73, 0x73, 0x61, 0x67, 0x65]
  const BYTE_ORDER_MARK: Bytes := [0xEF, 0xBB, 0xBF]

  // ---------------------------------------------------------------- what the server writes

  datatype Item = Payload(json: Bytes) | Heartbeat

  /** "event: update", LF, "data: ". */
  const SSE_EVENT_PREFIX: Bytes := EVENT_FIELD + [COLON, SPACE] + UPDATE + [LF] + DATA_FIELD + [COLON, SPACE]

  const SSE_EVENT_SUFFIX: Bytes := [LF, LF]

  /** ": heartbeat". */
  const HEARTBEAT_LINE: Bytes := [COLON, SPACE, 0x68, 0x65, 0x61, 0x72, 0x74, 0x62, 0x65, 0x61, 0x74]

  const HEARTBEAT_BYTES: Bytes := HEARTBEAT_LINE + [LF, LF]

  function Frame(item: Item): Bytes {
    match item
    case Payload(json) => SSE_EVENT_PREFIX + json + SSE_EVENT_SUFFIX
    case Heartbeat => HEARTBEAT_BYTES
  }

  function Stream(items: seq<Item>): Bytes {
    if items == [] then [] else Frame(items[0]) + Stream(items[1..])
  }

  /** The bytes of an ASCII text. */
  function Ascii(s: string): Bytes
    requires forall i :: 0 <= i < |s| ==> s[i] as int < 128
  {
    seq(|s|, i requires 0 <= i < |s| => s[i] as int as Byte)
  }

  /** The frames as text. */
  lemma FramesAsText(json: Bytes)
    ensures Frame(Payload(json)) == Ascii("event: update\ndata: ") + json + Ascii("\n\n")
    ensures Frame(Heartbeat) == Ascii(": heartbeat\n\n")
  {
    assert SSE_EVENT_PREFIX == Ascii("event: update\ndata: ");
    assert SSE_EVENT_SUFFIX == Ascii("\n\n");
  }

  // ---------------------------------------------------------------- what the client understands

  datatype SseEvent = SseEvent(kind: Bytes, data: Bytes)

  datatype Buffers = Buffers(kind: Bytes, data: Bytes, lastId: Bytes)

  const NOTHING := Buffers([], [], [])

  predicate LineFree(s: Bytes) {
    forall i :: 0 <= i < |s| ==> s[i] != LF && s[i] != CR
  }

  /** The first position of a byte satisfying nothing but being a line end; `|s|` if there is none. */
  function LineEnd(s: Bytes): (n: nat)
    ensures n <= |s| && LineFree(s[..n]) && (n < |s| ==> s[n] == LF || s[n] == CR)
  {
    if s == [] || s[0] == LF || s[0] == CR then 0
    else
      var n := LineEnd(s[1..]);
      assert s[..n + 1] == [s[0]] + s[1..][..n];
      n + 1
  }

  function FirstColon(s: Bytes): (n: nat)
    ensures n <= |s| && (forall i :: 0 <= i < n ==> s[i] != COLON) && (n < |s| ==> s[n] == COLON)
  {
    if s == [] || s[0] == COLON then 0
    else
      var n := FirstColon(s[1..]);
      assert forall i :: 1 <= i < n + 1 ==> s[i] == s[1..][i - 1];
      n + 1
  }

  function WithField(b: Buffers, field: Bytes, value: Bytes): Buffers {
    if field == EVENT_FIELD then b.(kind := value)
    else if field == DATA_FIELD then b.(data := b.data + value + [LF])
    else if field == ID_FIELD then (if 0 in value then b else b.(lastId := value))
    else b
  }

  function Dispatch(b: Buffers): (r: (Buffers, seq<SseEvent>)) {
    var cleared := Buffers([], [], b.lastId);
    if b.data == [] then (cleared, [])
    else
      var data := if b.data[|b.data| - 1] == LF then b.data[..|b.data| - 1] else b.data;
      (cleared, [SseEvent(if b.kind == [] then MESSAGE else b.kind, data)])
  }

  function ProcessLine(b: Buffers, line: Bytes): (Buffers, seq<SseEvent>) {
    if line == [] then Dispatch(b)
    else
      var n := FirstColon(line);
      if n == 0 then (b, [])
      else if n == |line| then (WithField(b, line, []), [])
      else
        var value := line[n + 1..];
        (WithField(b, line[..n], if value != [] && value[0] == SPACE then value[1..] else value), [])
  }

  /** Lines end in LF, CR or CR LF; what follows the last line end is discarded. */
  function Interpret(b: Buffers, s: Bytes): seq<SseEvent>
    decreases |s|
  {
    var n := LineEnd(s);
    if n == |s| then []
    else
      var (after, events) := ProcessLine(b, s[..n]);
      var rest := if s[n] == CR && n + 1 < |s| && s[n + 1] == LF then s[n + 2..] else s[n + 1..];
      events + Interpret(after, rest)
  }

  function Read(s: Bytes): seq<SseEvent> {
    Interpret(NOTHING, if BYTE_ORDER_MARK <= s then s[3..] else s)
  }

  // ---------------------------------------------------------------- round trip

  /** JSON text escapes line ends inside strings, so payloads have none. */
  predicate Sendable(items: seq<Item>) {
    forall i :: 0 <= i < |items| && items[i].Payload? ==> LineFree(items[i].json)
  }

  /** The payloads, in order, as `update` events. */
  function Updates(items: seq<Item>): seq<SseEvent> {
    if items == [] then []
    else (if items[0].Payload? then [SseEvent(UPDATE, items[0].json)] else []) + Updates(items[1..])
  }

  lemma {:induction false} LineEndOfLine(line: Bytes, rest: Bytes)
    requires LineFree(line)
    ensures LineEnd(line + [LF] + rest) == |line|
  {
    var s := line + [LF] + rest;
    if line != [] {
      LineEndOfLine(line[1..], rest);
      assert s[1..] == line[1..] + [LF] + rest;
    }
  }

  lemma InterpretLine(b: Buffers, line: Bytes, rest: Bytes)
    requires LineFree(line)
    ensures var (after, events) := ProcessLine(b, line);
            Interpret(b, line + [LF] + rest) == events + Interpret(after, rest)
  {
    var s := line + [LF] + rest;
    LineEndOfLine(line, rest);
    assert s[..|line|] == line && s[|line|] == LF && s[|line| + 1..] == rest;
  }

  lemma {:induction false} LineEndOfRest(line: Bytes)
    requires LineFree(line)
    ensures LineEnd(line) == |line|
  {
    var n := LineEnd(line);
  }

  lemma ColonAfter(field: Bytes, value: Bytes)
    requires forall i :: 0 <= i < |field| ==> field[i] != COLON
    ensures FirstColon(field + [COLON] + value) == |field|
  {
    var s := field + [COLON] + value;
    assert s[|field|] == COLON;
    assert forall i :: 0 <= i < |field| ==> s[i] == field[i];
  }

  const EVENT_LINE: Bytes := EVENT_FIELD + [COLON] + ([SPACE] + UPDATE)

  function DataLine(json: Bytes): Bytes {
    DATA_FIELD + [COLON] + ([SPACE] + json)
  }

  lemma EventLineIsRead(b: Buffers)
    ensures ProcessLine(b, EVENT_LINE) == (b.(kind := UPDATE), [])
  {
    ColonAfter(EVENT_FIELD, [SPACE] + UPDATE);
    assert EVENT_LINE[..5] == EVENT_FIELD && EVENT_LINE[6..] == [SPACE] + UPDATE;
    assert ([SPACE] + UPDATE)[1..] == UPDATE;
  }

  lemma DataLineIsRead(b: Buffers, json: Bytes)
    ensures ProcessLine(b, DataLine(json)) == (b.(data := b.data + json + [LF]), [])
  {
    ColonAfter(DATA_FIELD, [SPACE] + json);
    assert DataLine(json)[..4] == DATA_FIELD && DataLine(json)[5..] == [SPACE] + json;
    assert ([SPACE] + json)[1..] == json;
  }

  const DATA_START: Bytes := DATA_FIELD + [COLON, SPACE]

  lemma PrefixLines()
    ensures SSE_EVENT_PREFIX == EVENT_LINE + [LF] + DATA_START
  {
  }

  lemma TwoLines(line: Bytes, start: Bytes, json: Bytes, rest: Bytes)
    ensures line + [LF] + start + json + [LF, LF] + rest == line + [LF] + ((start + json) + [LF] + ([] + [LF] + rest))
  {
  }

  lemma PayloadFrameLines(json: Bytes, rest: Bytes)
    ensures Frame(Payload(json)) + rest == EVENT_LINE + [LF] + (DataLine(json) + [LF] + ([] + [LF] + rest))
  {
    PrefixLines();
    TwoLines(EVENT_LINE, DATA_START, json, rest);
    assert DATA_START + json == DataLine(json);
  }

  lemma HeartbeatFrameLines(rest: Bytes)
    ensures Frame(Heartbeat) + rest == HEARTBEAT_LINE + [LF] + ([] + [LF] + rest)
  {
  }

  const UPDATE_BEGUN := Buffers(UPDATE, [], [])

  lemma EventLineIsLine()
    ensures LineFree(EVENT_LINE)
  {
  }

  lemma AfterQuietLine(b: Buffers, c: Buffers, line: Bytes, rest: Bytes)
    requires LineFree(line) && ProcessLine(b, line) == (c, [])
    ensures Interpret(b, line + [LF] + rest) == Interpret(c, rest)
  {
    InterpretLine(b, line, rest);
  }

  lemma AfterEventLine(rest: Bytes)
    ensures Interpret(NOTHING, EVENT_LINE + [LF] + rest) == Interpret(UPDATE_BEGUN, rest)
  {
    EventLineIsRead(NOTHING);
    EventLineIsLine();
    AfterQuietLine(NOTHING, UPDATE_BEGUN, EVENT_LINE, rest);
  }

  lemma AfterDataLine(json: Bytes, rest: Bytes)
    requires LineFree(json)
    ensures Interpret(UPDATE_BEGUN, DataLine(json) + [LF] + rest) == Interpret(Buffers(UPDATE, json + [LF], []), rest)
  {
    DataLineIsRead(UPDATE_BEGUN, json);
    assert [] + json + [LF] == json + [LF];
    InterpretLine(UPDATE_BEGUN, DataLine(json), rest);
  }

  lemma AfterEmptyLine(json: Bytes, rest: Bytes)
    ensures Interpret(Buffers(UPDATE, json + [LF], []), [] + [LF] + rest)
            == [SseEvent(UPDATE, json)] + Interpret(NOTHING, rest)
  {
    assert (json + [LF])[..|json|] == json;
    InterpretLine(Buffers(UPDATE, json + [LF], []), [], rest);
  }

  lemma InterpretPayload(json: Bytes, rest: Bytes)
    requires LineFree(json)
    ensures Interpret(NOTHING, Frame(Payload(json)) + rest) == [SseEvent(UPDATE, json)] + Interpret(NOTHING, rest)
  {
    var blank := [] + [LF] + rest;
    PayloadFrameLines(json, rest);
    AfterEventLine(DataLine(json) + [LF] + blank);
    AfterDataLine(json, blank);
    AfterEmptyLine(json, rest);
  }

  lemma InterpretHeartbeat(rest: Bytes)
    ensures Interpret(NOTHING, Frame(Heartbeat) + rest) == Interpret(NOTHING, rest)
  {
    HeartbeatFrameLines(rest);
    InterpretLine(NOTHING, HEARTBEAT_LINE, [] + [LF] + rest);
    InterpretLine(NOTHING, [], rest);
  }

  /** A line and an empty line, cut before the second line end: no event. */
  lemma CutAfterLine(b: Buffers, line: Bytes, n: nat)
    requires LineFree(line) && line != [] && n < |line| + 2
    ensures Interpret(b, (line + [LF, LF])[..n]) == []
  {
    var s := line + [LF, LF];
    if n <= |line| {
      assert s[..n] == line[..n];
      LineEndOfRest(line[..n]);
    } else {
      assert s[..n] == line + [LF] + [];
      InterpretLine(b, line, []);
    }
  }

  /** A line that shows nothing, then such a pair, cut: still no event. */
  lemma CutAfterTwoLines(b: Buffers, c: Buffers, line: Bytes, second: Bytes, n: nat)
    requires LineFree(line) && ProcessLine(b, line) == (c, [])
    requires LineFree(second) && second != [] && n < |line| + 1 + |second| + 2
    ensures Interpret(b, (line + [LF] + (second + [LF, LF]))[..n]) == []
  {
    var tail := second + [LF, LF];
    var s := line + [LF] + tail;
    if n <= |line| {
      assert s[..n] == line[..n];
      LineEndOfRest(line[..n]);
    } else {
      var m := n - |line| - 1;
      assert s[..n] == line + [LF] + tail[..m];
      AfterQuietLine(b, c, line, tail[..m]);
      CutAfterLine(c, second, m);
    }
  }

  lemma DataLineIsLine(json: Bytes)
    requires LineFree(json)
    ensures LineFree(DataLine(json)) && DataLine(json) != []
  {
  }

  lemma CutPayloadIsSilent(json: Bytes, n: nat)
    requires LineFree(json) && n < |EVENT_LINE| + 1 + |DataLine(json)| + 2
    ensures Interpret(NOTHING, (EVENT_LINE + [LF] + (DataLine(json) + [LF, LF]))[..n]) == []
  {
    EventLineIsRead(NOTHING);
    EventLineIsLine();
    DataLineIsLine(json);
    CutAfterTwoLines(NOTHING, UPDATE_BEGUN, EVENT_LINE, DataLine(json), n);
  }

  /** A frame that was cut anywhere before its end shows nothing. */
  lemma CutFrameIsSilent(item: Item, n: nat)
    requires n < |Frame(item)| && (item.Payload? ==> LineFree(item.json))
    ensures Interpret(NOTHING, Frame(item)[..n]) == []
  {
    match item
    case Heartbeat =>
      assert Frame(item) == HEARTBEAT_LINE + [LF, LF];
      CutAfterLine(NOTHING, HEARTBEAT_LINE, n);
    case Payload(json) =>
      PayloadFrameShape(json);
      CutPayloadIsSilent(json, n);
  }

  lemma PayloadFrameShape(json: Bytes)
    ensures Frame(Payload(json)) == EVENT_LINE + [LF] + (DataLine(json) + [LF, LF])
  {
  }

  lemma InterpretFrame(item: Item, rest: Bytes)
    requires item.Payload? ==> LineFree(item.json)
    ensures Interpret(NOTHING, Frame(item) + rest) ==
            (if item.Payload? then [SseEvent(UPDATE, item.json)] else []) + Interpret(NOTHING, rest)
  {
    match item
    case Heartbeat => InterpretHeartbeat(rest);
    case Payload(json) => InterpretPayload(json, rest);
  }

  /** Reading what was written for `items`, followed by bytes that show nothing: exactly the payloads. */
  lemma {:induction false} InterpretStream(items: seq<Item>, silent: Bytes)
    requires Sendable(items) && Interpret(NOTHING, silent) == []
    ensures Interpret(NOTHING, Stream(items) + silent) == Updates(items)
    decreases items
  {
    if items == [] {
      assert [] + silent == silent;
    } else {
      var first, later := items[0], items[1..];
      InterpretStream(later, silent);
      Regroup(Frame(first), Stream(later), silent);
      InterpretFrame(first, Stream(later) + silent);
    }
  }

  lemma NoByteOrderMark(items: seq<Item>, last: Item, n: nat)
    requires n < |Frame(last)|
    ensures !(BYTE_ORDER_MARK <= Stream(items) + Frame(last)[..n])
  {
    var s := Stream(items) + Frame(last)[..n];
    if items != [] {
      assert s[0] == Frame(items[0])[0];
    } else if n > 0 {
      assert s[0] == Frame(last)[0];
    }
  }

  /** Round trip: whatever payloads and heartbeats were written, and wherever a following frame was cut, the
    * client sees exactly the payloads, in order, as `update` events. */
  lemma ReadYieldsPayloads(items: seq<Item>, last: Item, n: nat)
    requires Sendable(items) && (last.Payload? ==> LineFree(last.json)) && n < |Frame(last)|
    ensures Read(Stream(items) + Frame(last)[..n]) == Updates(items)
  {
    NoByteOrderMark(items, last, n);
    CutFrameIsSilent(last, n);
    InterpretStream(items, Frame(last)[..n]);
  }
}
