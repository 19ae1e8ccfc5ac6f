/** web/src/components/chat/chat.tsx: the incremental event-stream reader and the message it builds. */
module EventStream {
  import opened Wrappers
  import opened Text
  import opened Json

  datatype StreamEvent =
    | TokenEvent(delta: Option<Value>)
    | CitationEvent(data: Value)
    | DoneEvent(refused: bool, language: Option<Value>)

  // ----- blocks and lines -----

  const BREAK: string := "\n\n"

  /** The complete blocks of a buffer, each ended by an empty line. */
  function Blocks(s: string): seq<string>
    decreases |s|
  {
    var i := Find(s, BREAK);
    if i < 0 then [] else [s[..i]] + Blocks(s[i + 2..])
  }

  /** What stays in the buffer after the complete blocks have been cut off. */
  function Rest(s: string): string
    decreases |s|
  {
    var i := Find(s, BREAK);
    if i < 0 then s else Rest(s[i + 2..])
  }

  /** JavaScript `s.split("\n")`. */
  function Lines(s: string): seq<string>
    decreases |s|
  {
    var i := Find(s, "\n");
    if i < 0 then [s] else [s[..i]] + Lines(s[i + 1..])
  }

  /** The whitespace JavaScript's `trim` removes. */
  predicate IsJsSpace(c: char) {
    || '\t' <= c <= '\r' || c == ' ' || c == '\U{a0}' || c == '\U{1680}' || '\U{2000}' <= c <= '\U{200a}'
    || c == '\U{2028}' || c == '\U{2029}' || c == '\U{202f}' || c == '\U{205f}' || c == '\U{3000}' || c == '\U{feff}'
  }

  function TrimStart(s: string): string {
    if s != "" && IsJsSpace(s[0]) then TrimStart(s[1..]) else s
  }

  function TrimEnd(s: string): string {
    if s != "" && IsJsSpace(s[|s| - 1]) then TrimEnd(s[..|s| - 1]) else s
  }

  function Trim(s: string): string { TrimEnd(TrimStart(s)) }

  // ----- one block -----

  /** The event name and data of a block: the last `event:` line wins, `data:` lines accumulate. */
  datatype Frame = Frame(event: string, data: string) {
    function Line(line: string): Frame {
      if "event:" <= line then Frame(Trim(line[6..]), data)
      else if "data:" <= line then Frame(event, data + Trim(line[5..]))
      else this
    }

    function AllLines(lines: seq<string>): Frame {
      if lines == [] then this
      else AllLines(lines[..|lines| - 1]).Line(lines[|lines| - 1])
    }

    /** The stream event, if the data is JSON and the name is one of the three. A null has no properties:
        reading one raises, as malformed JSON does, and the frame is ignored. */
    function Event(): seq<StreamEvent> {
      if data == "" then []
      else
        match Parse(data)
        case None => []
        case Some(json) =>
          if event == "citation" then [CitationEvent(json)]
          else if json.Null? then []
          else if event == "token" then [TokenEvent(Property(json, Js("delta")))]
          else if event == "done" then [DoneEvent(Truthy(Property(json, Js("refused"))), Property(json, Js("language")))]
          else []
    }
  }

  /** A property of a value that is not null: only objects have any of those read here. */
  function Property(v: Value, key: JsString): Option<Value> { if v.Obj? then Get(v.o, key) else None }

  function Get(o: Object, key: JsString): Option<Value> { if key in o then Some(o[key]) else None }

  /** JavaScript `!!v`. */
  function Truthy(v: Option<Value>): bool {
    match v
    case Some(Bool(b)) => b
    case Some(Str(s)) => s != []
    case Some(Num(n)) => NotZero(n)
    case Some(Arr(_)) => true
    case Some(Obj(_)) => true
    case _ => false
  }

  /** A number literal has a digit other than zero before its exponent. */
  predicate NotZero(n: string) {
    n != "" && n[0] !in ['e', 'E'] && ('1' <= n[0] <= '9' || NotZero(n[1..]))
  }

  function BlockEvents(block: string): seq<StreamEvent> { Frame("message", "").AllLines(Lines(block)).Event() }

  function BlocksEvents(blocks: seq<string>): seq<StreamEvent> {
    if blocks == [] then [] else BlocksEvents(blocks[..|blocks| - 1]) + BlockEvents(blocks[|blocks| - 1])
  }

  /** All events of a stream, read in one piece. */
  function EventsOf(stream: string): seq<StreamEvent> { BlocksEvents(Blocks(stream)) }

  method ReadBlock(block: string) returns (events: seq<StreamEvent>)
    ensures events == BlockEvents(block)
  {
    var frame := Frame("message", "");
    var lines := Lines(block);
    for i := 0 to |lines|
      invariant frame == Frame("message", "").AllLines(lines[..i])
    {
      TakeNext(lines, i);
      AllLinesSnoc(Frame("message", ""), lines[..i], lines[i]);
      frame := frame.Line(lines[i]);
    }
    TakeAll(lines);
    events := frame.Event();
  }

  lemma AllLinesSnoc(f: Frame, lines: seq<string>, line: string)
    ensures f.AllLines(lines + [line]) == f.AllLines(lines).Line(line)
  {
    assert (lines + [line])[..|lines|] == lines;
  }

  lemma BlocksEventsSnoc(blocks: seq<string>, b: string)
    ensures BlocksEvents(blocks + [b]) == BlocksEvents(blocks) + BlockEvents(b)
  {
    assert (blocks + [b])[..|blocks|] == blocks;
  }

  lemma {:induction false} BlocksEventsAppend(a: seq<string>, b: seq<string>)
    ensures BlocksEvents(a + b) == BlocksEvents(a) + BlocksEvents(b)
  {
    hide BlockEvents;
    if b == [] {
      Neutral(a);
      Neutral(BlocksEvents(a));
    } else {
      var n := |b| - 1;
      TakeNext(b, n);
      TakeAll(b);
      BlocksEventsAppend(a, b[..n]);
      Assoc(a, b[..n], [b[n]]);
      BlocksEventsSnoc(a + b[..n], b[n]);
      Assoc(BlocksEvents(a), BlocksEvents(b[..n]), BlockEvents(b[n]));
    }
  }

  // ----- chunks -----

  /** A block found early is found again when more text has arrived. */
  lemma FindInLonger(a: string, b: string, p: string)
    requires Find(a, p) >= 0
    ensures Find(a + b, p) == Find(a, p)
  {
    var i := Find(a, p);
    AtInPrefix(a, b, p, i);
    forall j | 0 <= j < i ensures !At(a + b, p, j) {
      AtInPrefix(a, b, p, j);
      assert !At(a, p, j);
    }
    FindUnique(a + b, p, i);
  }

  /** Feeding `a` and then `b` is feeding `a + b`: the carry-over buffer loses nothing. */
  lemma {:induction false} FeedSplit(a: string, b: string)
    ensures Blocks(a + b) == Blocks(a) + Blocks(Rest(a) + b)
    ensures Rest(a + b) == Rest(Rest(a) + b)
    decreases |a|
  {
    hide Find;
    var i := Find(a, BREAK);
    if i < 0 {
      Neutral(Blocks(a + b));
    } else {
      var a1 := a[i + 2..];
      FindInLonger(a, b, BREAK);
      DropOfConcat(a, b, i);
      DropOfConcat(a, b, i + 2);
      FeedSplit(a1, b);
      Assoc([a[..i]], Blocks(a1), Blocks(Rest(a1) + b));
      calc {
        Blocks(a + b);
        [a[..i]] + Blocks(a1 + b);
        [a[..i]] + (Blocks(a1) + Blocks(Rest(a1) + b));
        Blocks(a) + Blocks(Rest(a) + b);
      }
    }
  }

  /** The inner loop of `parseSSE`: cuts the complete blocks off the buffer. */
  method DrainBuffer(buffer: string) returns (events: seq<StreamEvent>, rest: string)
    ensures events == EventsOf(buffer)
    ensures rest == Rest(buffer)
  {
    hide BlockEvents;
    events, rest := [], buffer;
    ghost var done: seq<string> := [];
    Neutral(Blocks(buffer));
    var idx := Find(rest, BREAK);
    while idx >= 0
      invariant idx == Find(rest, BREAK)
      invariant done + Blocks(rest) == Blocks(buffer) && Rest(rest) == Rest(buffer)
      invariant events == BlocksEvents(done)
      decreases |rest|
    {
      var block := rest[..idx];
      Assoc(done, [block], Blocks(rest[idx + 2..]));
      rest := rest[idx + 2..];
      BlocksEventsSnoc(done, block);
      done := done + [block];
      var es := ReadBlock(block);
      events := events + es;
      idx := Find(rest, BREAK);
    }
    Neutral(done);
  }

  /** `parseSSE`: however the stream was cut into chunks, the events are those of the whole stream. */
  method ParseSSE(chunks: seq<string>) returns (events: seq<StreamEvent>)
    ensures events == EventsOf(Concat(chunks))
  {
    hide BlocksEvents, Blocks, Rest, Concat;
    events := [];
    var buffer := "";
    NothingRead();
    for i := 0 to |chunks|
      invariant events == EventsOf(Concat(chunks[..i])) && buffer == Rest(Concat(chunks[..i]))
    {
      ghost var before := Concat(chunks[..i]);
      TakeNext(chunks, i);
      ConcatSnoc(chunks[..i], chunks[i]);
      FeedSplit(before, chunks[i]);
      BlocksEventsAppend(Blocks(before), Blocks(Rest(before) + chunks[i]));
      var es, rest := DrainBuffer(buffer + chunks[i]);
      events, buffer := events + es, rest;
    }
    TakeAll(chunks);
  }

  lemma NothingRead()
    ensures Concat<char>([]) == "" && EventsOf("") == [] && Rest("") == ""
  {
  }

  // ----- the message -----

  datatype Message = Message(text: JsString, citations: seq<Value>, refused: Option<bool>, language: Option<Value>) {
    function Apply(e: StreamEvent): Message {
      match e
      case TokenEvent(delta) => this.(text := text + AsText(delta))
      case CitationEvent(o) => this.(citations := citations + [o])
      case DoneEvent(r, l) => this.(refused := Some(r), language := l)
    }

    function ApplyAll(events: seq<StreamEvent>): Message
      decreases |events|
    {
      if events == [] then this else Apply(events[0]).ApplyAll(events[1..])
    }

    lemma ApplyNext(events: seq<StreamEvent>, i: nat)
      requires i < |events|
      ensures ApplyAll(events[i..]) == Apply(events[i]).ApplyAll(events[i + 1..])
    {
      hide Apply;
      assert events[i..][1..] == events[i + 1..];
    }

    lemma {:induction false} ApplyAllAppend(a: seq<StreamEvent>, b: seq<StreamEvent>)
      ensures ApplyAll(a + b) == ApplyAll(a).ApplyAll(b)
      decreases |a|
    {
      if a == [] {
        Neutral(b);
      } else {
        DropOfConcat(a, b, 1);
        Apply(a[0]).ApplyAllAppend(a[1..], b);
      }
    }
  }

  /** What JavaScript's `+` appends to a string. */
  function AsText(v: Option<Value>): JsString { if v.None? then Js("undefined") else TextOf(v.value) }

  function TextOf(v: Value): JsString
    decreases v, if v.Arr? then |v.items| + 1 else 0
  {
    match v
    case Null => Js("null")
    case Bool(b) => Js(if b then "true" else "false")
    case Num(n) => Js(n)
    case Str(s) => s
    case Arr(_) => Joined(v, 0)
    case Obj(_) => Js("[object Object]")
  }

  /** The items of an array from the `i`-th on, with commas between them, a null as nothing. */
  function Joined(v: Value, i: nat): JsString
    requires v.Arr? && i <= |v.items|
    decreases v, |v.items| - i
  {
    if i == |v.items| then []
    else
      var item := if v.items[i].Null? then [] else TextOf(v.items[i]);
      if i + 1 == |v.items| then item else item + Js(",") + Joined(v, i + 1)
  }

  const EMPTY := Message([], [], None, None)

  /** The event loop of `send`. */
  method Receive(chunks: seq<string>) returns (m: Message)
    ensures m == EMPTY.ApplyAll(EventsOf(Concat(chunks)))
  {
    hide Message.ApplyAll, Message.Apply, BlocksEvents, Blocks, Concat;
    var events := ParseSSE(chunks);
    m := EMPTY;
    TakeAll(events);
    ApplyNone();
    for i := 0 to |events|
      invariant m.ApplyAll(events[i..]) == EMPTY.ApplyAll(events)
    {
      m.ApplyNext(events, i);
      m := m.Apply(events[i]);
    }
    assert events[|events|..] == [];
  }

  lemma ApplyNone()
    ensures forall m: Message :: m.ApplyAll([]) == m
  {
  }

  // ----- what a block says -----

  /** What the data lines of a block contribute. */
  function DataParts(lines: seq<string>): seq<string> {
    if lines == [] then []
    else
      var n := |lines| - 1;
      DataParts(lines[..n]) + if "data:" <= lines[n] then [Trim(lines[n][5..])] else []
  }

  /** A block's name is that of its last event line, "message" when it has none; its data are those of its data lines,
      trimmed, one after the other. */
  lemma {:induction false} BlockSays(lines: seq<string>, k: nat)
    ensures Frame("message", "").AllLines(lines).data == Concat(DataParts(lines))
    ensures (forall i | 0 <= i < |lines| :: !("event:" <= lines[i])) ==> Frame("message", "").AllLines(lines).event == "message"
    ensures k < |lines| && "event:" <= lines[k] && (forall i | k < i < |lines| :: !("event:" <= lines[i]))
      ==> Frame("message", "").AllLines(lines).event == Trim(lines[k][6..])
  {
    hide Trim;
    if lines == [] {
      assert Concat<char>([]) == "";
    } else {
      var n := |lines| - 1;
      BlockSays(lines[..n], k);
      NotBoth(lines[n]);
      Neutral(DataParts(lines[..n]));
      Neutral(Concat(DataParts(lines[..n])));
      if "data:" <= lines[n] { ConcatSnoc(DataParts(lines[..n]), Trim(lines[n][5..])); }
    }
  }

  lemma NotBoth(line: string)
    ensures !("event:" <= line && "data:" <= line)
  {
    if "event:" <= line { assert line[0] == 'e'; }
  }
}
