/** app/api/routes/query.py: the frame printer, and the round trip through the browser's reader. */
module QueryStream {
  import opened Collections
  import opened Wrappers
  import opened Text
  import opened Json
  import opened EventStream

  type PyText = seq<CodePoint>
  datatype Citation = Citation(standard: Option<PyText>, paragraph: Option<PyText>, url: PyText, quote: PyText)
  datatype Answer = Answer(answer: PyText, citations: seq<Citation>, refused: bool, language: PyText)

  const PIECE := 24

  function TextOrNull(t: Option<PyText>): Flat { if t.Some? then Str(Utf16(t.value)) else Null }

  function Field(name: string, v: Flat): (JsString, Flat) { (Js(name), v) }

  function CitationFields(c: Citation): Fields {
    [Field("standard", TextOrNull(c.standard)), Field("paragraph", TextOrNull(c.paragraph)),
     Field("url", TextOrNull(Some(c.url))), Field("quote", TextOrNull(Some(c.quote)))]
  }

  /** One event: the name, one line of data, an empty line. */
  function Block(event: string, fields: Fields): string { "event: " + (event + ("\ndata: " + Dumps(fields))) }

  function TokenBlock(piece: PyText): string { Block("token", [(Js("delta"), Str(Utf16(piece)))]) }
  function CitationBlock(c: Citation): string { Block("citation", CitationFields(c)) }
  function DoneBlock(a: Answer): string {
    Block("done", [(Js("refused"), Bool(a.refused)), (Js("language"), Str(Utf16(a.language)))])
  }

  /** The padding comment that makes proxies flush. */
  function Preamble(): (s: string)
    ensures |s| == 2050 && forall i | 0 <= i < |s| :: s[i] in [':', ' ', 'x'] && (s[i] == ':' <==> i == 0)
  {
    ": " + seq(2048, _ => 'x')
  }

  function Pieces(text: PyText): seq<PyText>
    decreases |text|
  {
    if text == [] then []
    else if |text| <= PIECE then [text]
    else [text[..PIECE]] + Pieces(text[PIECE..])
  }

  function TokenBlocks(pieces: seq<PyText>): seq<string> { seq(|pieces|, i requires 0 <= i < |pieces| => TokenBlock(pieces[i])) }
  function CitationBlocks(cs: seq<Citation>): seq<string> { seq(|cs|, i requires 0 <= i < |cs| => CitationBlock(cs[i])) }

  /** The blocks of the whole answer, in the order printed. */
  function AnswerBlocks(a: Answer): seq<string> {
    [Preamble()] + TokenBlocks(Pieces(a.answer)) + CitationBlocks(a.citations) + [DoneBlock(a)]
  }

  function Frames(blocks: seq<string>): seq<string> { seq(|blocks|, i requires 0 <= i < |blocks| => blocks[i] + BREAK) }

  lemma FramesSnoc(blocks: seq<string>, b: string)
    ensures Frames(blocks + [b]) == Frames(blocks) + [b + BREAK]
  {
  }

  lemma FramesAppend(a: seq<string>, b: seq<string>)
    ensures Frames(a + b) == Frames(a) + Frames(b)
  {
  }

  /** The loop over 24-character slices of the answer. */
  method PrintTokens(chunk: PyText) returns (frames: seq<string>)
    ensures frames == Frames(TokenBlocks(Pieces(chunk)))
  {
    hide Block, Pieces, Frames, TokenBlocks;
    ghost var blocks := [];
    frames := [];
    var i := 0;
    NothingPrinted(chunk);
    while i < |chunk|
      invariant 0 <= i && frames == Frames(blocks)
      invariant blocks + TokenBlocks(Pieces(chunk[Min(i, |chunk|)..])) == TokenBlocks(Pieces(chunk))
    {
      var next := Min(i + PIECE, |chunk|);
      var b := TokenBlock(chunk[i..next]);
      PieceStep(chunk, i);
      Assoc(blocks, [b], TokenBlocks(Pieces(chunk[next..])));
      FramesSnoc(blocks, b);
      frames, blocks := frames + [b + BREAK], blocks + [b];
      i := i + PIECE;
    }
    Neutral(blocks);
  }

  /** The loop over the validated citations. */
  method PrintCitations(citations: seq<Citation>) returns (frames: seq<string>)
    ensures frames == Frames(CitationBlocks(citations))
  {
    hide Block, Frames, CitationBlocks;
    frames := [];
    NothingPrinted([]);
    for j := 0 to |citations|
      invariant frames == Frames(CitationBlocks(citations[..j]))
    {
      var b := CitationBlock(citations[j]);
      CitationStep(citations, j);
      FramesSnoc(CitationBlocks(citations[..j]), b);
      frames := frames + [b + BREAK];
    }
    TakeAll(citations);
  }

  /** `query_stream.gen`: the frames yielded, in order. */
  method Gen(a: Answer) returns (frames: seq<string>)
    ensures frames == Frames(AnswerBlocks(a))
  {
    hide Frames, TokenBlocks, CitationBlocks, DoneBlock, Preamble;
    var tokens := PrintTokens(a.answer);
    var citations := PrintCitations(a.citations);
    frames := [Preamble() + BREAK] + tokens + citations + [DoneBlock(a) + BREAK];
    FramesSnoc([], Preamble());
    NothingPrinted([]);
    Neutral([Preamble()]);
    FramesAppend([Preamble()], TokenBlocks(Pieces(a.answer)));
    FramesAppend([Preamble()] + TokenBlocks(Pieces(a.answer)), CitationBlocks(a.citations));
    FramesSnoc([Preamble()] + TokenBlocks(Pieces(a.answer)) + CitationBlocks(a.citations), DoneBlock(a));
  }

  lemma NothingPrinted(chunk: PyText)
    ensures TokenBlocks(Pieces([])) == [] && CitationBlocks([]) == [] && Frames([]) == []
    ensures chunk[Min(0, |chunk|)..] == chunk && chunk[|chunk|..] == []
  {
  }

  lemma CitationStep(cs: seq<Citation>, j: nat)
    requires j < |cs|
    ensures CitationBlocks(cs[..j + 1]) == CitationBlocks(cs[..j]) + [CitationBlock(cs[j])]
  {
    hide CitationBlock;
    TakeNext(cs, j);
  }

  lemma PieceStep(chunk: PyText, i: nat)
    requires i < |chunk|
    ensures var next := Min(i + PIECE, |chunk|);
      TokenBlocks(Pieces(chunk[i..])) == [TokenBlock(chunk[i..next])] + TokenBlocks(Pieces(chunk[next..]))
  {
    hide TokenBlock;
    var rest, next := chunk[i..], Min(i + PIECE, |chunk|);
    assert rest[..next - i] == chunk[i..next] && rest[next - i..] == chunk[next..];
    if |rest| <= PIECE { assert chunk[next..] == [] && rest == chunk[i..next]; }
    assert Pieces(rest) == [chunk[i..next]] + Pieces(chunk[next..]);
  }

  // ----- the frames are cut where they were joined -----

  /** A block the reader cannot cut: no empty line inside, no newline at the end. */
  ghost predicate Whole(block: string) {
    Find(block, BREAK) == -1 && block != "" && block[|block| - 1] != '\n'
  }

  lemma FirstBreak(block: string, rest: string)
    requires Whole(block)
    ensures Find(block + BREAK + rest, BREAK) == |block|
  {
    var s := block + BREAK + rest;
    Assoc(block, BREAK, rest);
    assert s[|block|..|block| + 2] == BREAK;
    forall i | 0 <= i < |block| ensures !At(s, BREAK, i) {
      if i + 2 <= |block| {
        AtInPrefix(block, BREAK + rest, BREAK, i);
        assert !At(block, BREAK, i);
      } else {
        assert s[i..i + 2][0] == block[|block| - 1];
      }
    }
    FindUnique(s, BREAK, |block|);
  }

  lemma {:induction false} BlocksOfFrames(blocks: seq<string>)
    requires AllWhole(blocks)
    ensures Blocks(Concat(Frames(blocks))) == blocks
  {
    if blocks == [] {
      assert Concat(Frames(blocks)) == "";
    } else {
      hide Whole;
      var rest := Concat(Frames(blocks[1..]));
      assert Frames(blocks)[1..] == Frames(blocks[1..]);
      FirstBreak(blocks[0], rest);
      AfterPrefix(blocks[0], BREAK + rest);
      Assoc(blocks[0], BREAK, rest);
      AfterPrefix(BREAK, rest);
      var s := blocks[0] + BREAK + rest;
      assert s[|blocks[0]| + 2..] == rest;
      BlocksOfFrames(blocks[1..]);
      assert blocks == [blocks[0]] + blocks[1..];
    }
  }

  // ----- one block is read back -----

  predicate Plain(s: string) {
    s != "" && !IsJsSpace(s[0]) && !IsJsSpace(s[|s| - 1]) && OneLine(s)
  }

  lemma TrimPlain(s: string)
    requires Plain(s)
    ensures Trim(" " + s) == s
  {
    AfterPrefix(" ", s);
    assert TrimStart(" " + s) == s;
  }

  /** A string that lacks the `k`-th character of `p` lacks `p`. */
  lemma Lacks(s: string, p: string, k: nat)
    requires k < |p| && forall i | 0 <= i < |s| :: s[i] != p[k]
    ensures forall i :: !At(s, p, i)
  {
    forall i ensures !At(s, p, i) {
      if 0 <= i && i + |p| <= |s| { assert s[i..i + |p|][k] == s[i + k]; }
    }
  }

  predicate OneLine(s: string) {
    forall i | 0 <= i < |s| :: s[i] != '\n'
  }

  /** Two newline-free lines joined by a newline: split there, and nowhere doubly. */
  lemma TwoLines(a: string, b: string)
    requires OneLine(a) && OneLine(b)
    ensures Lines(a + ("\n" + b)) == [a, b]
    ensures Find(a + ("\n" + b), BREAK) == -1
  {
    hide Find;
    NoBreak(a, b);
    var s := a + ("\n" + b);
    Lacks(a, "\n", 0);
    Lacks(b, "\n", 0);
    forall i | 0 <= i < |a| ensures !At(s, "\n", i) {
      AtInPrefix(a, "\n" + b, "\n", i);
    }
    assert s[|a|..|a| + 1] == "\n";
    FindUnique(s, "\n", |a|);
    assert s[..|a|] == a && s[|a| + 1..] == b;
    assert Lines(b) == [b];
  }

  lemma NoBreak(a: string, b: string)
    requires OneLine(a) && OneLine(b)
    ensures Find(a + ("\n" + b), BREAK) == -1
  {
    hide Find;
    var s := a + ("\n" + b);
    forall i ensures !At(s, BREAK, i) {
      if 0 <= i && i + 2 <= |s| {
        assert s[i + 1] == if i + 1 < |a| then a[i + 1] else if i + 1 == |a| then '\n' else b[i - |a|];
        assert i < |a| ==> s[i] == a[i];
        NotBoth(s, i);
      }
    }
  }

  lemma NotBoth(s: string, i: nat)
    requires i + 2 <= |s| && (s[i] != '\n' || s[i + 1] != '\n')
    ensures !At(s, BREAK, i)
  {
    assert s[i..i + 2][0] == s[i] && s[i..i + 2][1] == s[i + 1];
  }

  /** A printed block is whole, and is read as its own name and data. */
  lemma BlockIsRead(event: string, fields: Fields)
    requires Plain(event)
    ensures Whole(Block(event, fields))
    ensures BlockEvents(Block(event, fields)) == Frame(event, Dumps(fields)).Event()
  {
    hide Dumps, Trim, Find, Lines, Frame.AllLines;
    var data := Dumps(fields);
    var l1, l2 := "event:" + (" " + event), "data:" + (" " + data);
    assert Block(event, fields) == l1 + ("\n" + l2);
    TwoLines(l1, l2);
    TrimPlain(event);
    TrimPlain(data);
    AfterPrefix("event:", " " + event);
    AfterPrefix("data:", " " + data);
    assert !("event:" <= l2) by { assert l2[0] == 'd'; }
    var f := Frame("message", "");
    AllLinesTwo(f, l1, l2);
    Neutral(data);
    assert f.Line(l1).Line(l2) == Frame(event, data);
  }

  lemma AllLinesTwo(f: Frame, a: string, b: string)
    ensures f.AllLines([a, b]) == f.Line(a).Line(b)
  {
    assert [a, b] == [a] + [b] && [a] == [] + [a];
    AllLinesSnoc(f, [a], b);
    AllLinesSnoc(f, [], a);
  }

  // ----- what the browser shows -----

  /** The object a citation event carries. */
  function CitationObject(c: Citation): Object { ObjectOf(CitationFields(c)) }
  function CitationObjects(cs: seq<Citation>): seq<Value> {
    seq(|cs|, i requires 0 <= i < |cs| => Obj(CitationObject(cs[i])))
  }

  lemma {:induction false} JsLength(s: string)
    requires forall i | 0 <= i < |s| :: s[i] < '\U{80}'
    ensures |Js(s)| == |s|
  {
    if s != "" { JsLength(s[1..]); }
  }

  /** Every field of a citation arrives under its own name. */
  lemma CitationArrives(c: Citation)
    ensures var o := CitationObject(c);
      Get(o, Js("standard")) == Some(TextOrNull(c.standard)) && Get(o, Js("paragraph")) == Some(TextOrNull(c.paragraph))
      && Get(o, Js("url")) == Some(Str(Utf16(c.url))) && Get(o, Js("quote")) == Some(Str(Utf16(c.quote)))
  {
    hide Js;
    JsLength("standard");
    JsLength("paragraph");
    JsLength("url");
    JsLength("quote");
    var f := CitationFields(c);
    assert f == [f[0]] + [f[1]] + [f[2]] + [f[3]];
    FieldsSnoc([f[0]] + [f[1]] + [f[2]], f[3]);
    FieldsSnoc([f[0]] + [f[1]], f[2]);
    FieldsSnoc([f[0]], f[1]);
    OneField(f[0].0, f[0].1);
  }

  lemma OneField(k: JsString, v: Flat)
    ensures ObjectOf([(k, v)]) == map[k := v] && Get(map[k := v], k) == Some(v)
  {
    assert [(k, v)] == [] + [(k, v)];
    FieldsSnoc([], (k, v));
  }

  /** A later field overrides. */
  lemma {:induction false} FieldsSnoc(fields: Fields, f: (JsString, Flat), acc: Object := map[])
    ensures ObjectOf(fields + [f], acc) == ObjectOf(fields, acc)[f.0 := f.1]
    decreases |fields|
  {
    if fields == [] {
      Neutral([f]);
      var rest: Fields := [f][1..];
      assert rest == [];
    } else {
      DropOfConcat(fields, [f], 1);
      FieldsSnoc(fields[1..], f, acc[fields[0].0 := fields[0].1]);
    }
  }

  /** A printed block is whole, and carries the printed object. */
  lemma Carries(event: string, fields: Fields)
    requires event in ["token", "citation", "done"]
    ensures Whole(Block(event, fields))
    ensures BlockEvents(Block(event, fields)) == [match event
      case "token" => TokenEvent(Get(ObjectOf(fields), Js("delta")))
      case "citation" => CitationEvent(Obj(ObjectOf(fields)))
      case _ => DoneEvent(Truthy(Get(ObjectOf(fields), Js("refused"))), Get(ObjectOf(fields), Js("language")))]
  {
    hide Block, BlockEvents, Parse, Dumps, ObjectOf, Js, Get, Truthy, Whole;
    BlockIsRead(event, fields);
    RoundTrip(fields);
  }

  lemma TokenIsRead(m: Message, piece: PyText)
    ensures Whole(TokenBlock(piece))
    ensures m.ApplyAll(BlockEvents(TokenBlock(piece))) == m.(text := m.text + Utf16(piece))
  {
    hide Js, Utf16, Block, BlockEvents, Whole, ObjectOf;
    var k, v := Js("delta"), Str(Utf16(piece));
    Carries("token", [(k, v)]);
    OneField(k, v);
    ApplyOne(m, TokenEvent(Some(v)));
  }

  lemma ApplyOne(m: Message, e: StreamEvent)
    ensures m.ApplyAll([e]) == m.Apply(e)
  {
    assert [e][1..] == [];
  }

  lemma CitationIsRead(m: Message, c: Citation)
    ensures Whole(CitationBlock(c))
    ensures m.ApplyAll(BlockEvents(CitationBlock(c))) == m.(citations := m.citations + [Obj(CitationObject(c))])
  {
    hide Js, Block, BlockEvents, Whole, ObjectOf, CitationFields;
    Carries("citation", CitationFields(c));
    ApplyOne(m, CitationEvent(Obj(CitationObject(c))));
  }

  lemma DoneIsRead(m: Message, a: Answer)
    ensures Whole(DoneBlock(a))
    ensures m.ApplyAll(BlockEvents(DoneBlock(a)))
      == m.(refused := Some(a.refused), language := Some(Str(Utf16(a.language))))
  {
    hide Js, Utf16, Block, BlockEvents, Whole, ObjectOf;
    var r, l := (Js("refused"), Bool(a.refused)), (Js("language"), Str(Utf16(a.language)));
    Carries("done", [r, l]);
    JsLength("refused");
    JsLength("language");
    assert [r, l] == [r] + [l];
    FieldsSnoc([r], l);
    OneField(r.0, r.1);
    ApplyOne(m, DoneEvent(a.refused, Some(l.1)));
  }

  /** A comment, such as the padding or a heartbeat, yields no event. */
  lemma CommentIsIgnored(p: string)
    requires p != "" && p[0] == ':' && OneLine(p)
    ensures BlockEvents(p) == []
  {
    Lacks(p, "\n", 0);
    assert !("event:" <= p) && !("data:" <= p);
    var f := Frame("message", "");
    AllLinesSnoc(f, [], p);
    assert [] + [p] == [p];
  }

  lemma PreambleIsIgnored()
    ensures Whole(Preamble()) && BlockEvents(Preamble()) == []
  {
    hide BlockEvents;
    var p := Preamble();
    Lacks(p, BREAK, 0);
    CommentIsIgnored(p);
  }

  lemma {:induction false} PiecesConcat(text: PyText)
    ensures Concat(Pieces(text)) == text
    decreases |text|
  {
    if text == [] {
    } else if |text| <= PIECE {
      Neutral(text);
    } else {
      PiecesConcat(text[PIECE..]);
      assert text == text[..PIECE] + text[PIECE..];
    }
  }

  lemma {:induction false} TokensAreRead(m: Message, pieces: seq<PyText>)
    ensures AllWhole(TokenBlocks(pieces))
    ensures m.ApplyAll(BlocksEvents(TokenBlocks(pieces))) == m.(text := m.text + Utf16(Concat(pieces)))
  {
    hide TokenBlock, Whole, BlockEvents;
    if pieces == [] {
      Neutral(m.text);
    } else {
      var n := |pieces| - 1;
      var before, last := pieces[..n], pieces[n];
      TokensAreRead(m, before);
      TokenIsRead(m.(text := m.text + Utf16(Concat(before))), last);
      TakeNext(pieces, n);
      TakeAll(pieces);
      assert TokenBlocks(pieces) == TokenBlocks(before) + [TokenBlock(last)];
      BlocksEventsSnoc(TokenBlocks(before), TokenBlock(last));
      m.ApplyAllAppend(BlocksEvents(TokenBlocks(before)), BlockEvents(TokenBlock(last)));
      ConcatSnoc(before, last);
      Utf16Append(Concat(before), last);
      Assoc(m.text, Utf16(Concat(before)), Utf16(last));
    }
  }

  lemma {:induction false} CitationsAreRead(m: Message, cs: seq<Citation>)
    ensures AllWhole(CitationBlocks(cs))
    ensures m.ApplyAll(BlocksEvents(CitationBlocks(cs))) == m.(citations := m.citations + CitationObjects(cs))
  {
    hide CitationBlock, Whole, BlockEvents, CitationObject, CitationBlocks;
    NothingPrinted([]);
    if cs == [] {
      Neutral(m.citations);
    } else {
      var n := |cs| - 1;
      var before, last := cs[..n], cs[n];
      CitationsAreRead(m, before);
      CitationIsRead(m.(citations := m.citations + CitationObjects(before)), last);
      CitationStep(cs, n);
      TakeAll(cs);
      BlocksEventsSnoc(CitationBlocks(before), CitationBlock(last));
      m.ApplyAllAppend(BlocksEvents(CitationBlocks(before)), BlockEvents(CitationBlock(last)));
      assert CitationObjects(cs) == CitationObjects(before) + [Obj(CitationObject(last))];
      Assoc(m.citations, CitationObjects(before), [Obj(CitationObject(last))]);
    }
  }

  /** The message the browser should end with. */
  function Shown(a: Answer): Message {
    Message(Utf16(a.answer), CitationObjects(a.citations), Some(a.refused), Some(Str(Utf16(a.language))))
  }

  ghost predicate AllWhole(blocks: seq<string>) { forall i | 0 <= i < |blocks| :: Whole(blocks[i]) }

  lemma AllWholeAppend(a: seq<string>, b: seq<string>)
    requires AllWhole(a) && AllWhole(b)
    ensures AllWhole(a + b)
  {
    hide Whole;
  }

  lemma AnswerIsRead(a: Answer)
    ensures AllWhole(AnswerBlocks(a))
    ensures EMPTY.ApplyAll(BlocksEvents(AnswerBlocks(a))) == Shown(a)
  {
    hide Whole, BlockEvents, Preamble, TokenBlocks, CitationBlocks, DoneBlock, BlocksEvents;
    var ts, cs := TokenBlocks(Pieces(a.answer)), CitationBlocks(a.citations);
    var m1 := EMPTY.(text := Utf16(a.answer));
    var m2 := m1.(citations := CitationObjects(a.citations));
    PreambleIsIgnored();
    TokensAreRead(EMPTY, Pieces(a.answer));
    PiecesConcat(a.answer);
    Neutral(Utf16(a.answer));
    CitationsAreRead(m1, a.citations);
    Neutral(CitationObjects(a.citations));
    DoneIsRead(m2, a);
    AllWholeAppend([Preamble()], ts);
    AllWholeAppend([Preamble()] + ts, cs);
    AllWholeAppend([Preamble()] + ts + cs, [DoneBlock(a)]);
    PrefixIgnored(Preamble(), ts);
    BlocksEventsAppend([Preamble()] + ts, cs);
    BlocksEventsSnoc([Preamble()] + ts + cs, DoneBlock(a));
    EMPTY.ApplyAllAppend(BlocksEvents(ts), BlocksEvents(cs));
    EMPTY.ApplyAllAppend(BlocksEvents(ts) + BlocksEvents(cs), BlockEvents(DoneBlock(a)));
  }

  lemma PrefixIgnored(p: string, blocks: seq<string>)
    requires BlockEvents(p) == []
    ensures BlocksEvents([p] + blocks) == BlocksEvents(blocks)
  {
    BlocksEventsAppend([p], blocks);
    BlocksEventsSnoc([], p);
    assert [] + [p] == [p];
    Neutral(BlocksEvents(blocks));
  }

  /** For every answer and every way of cutting the server's output into chunks, the browser ends
      with the answer's text, its citations in order, its refused flag and its language. */
  lemma EndToEnd(a: Answer, chunks: seq<string>)
    requires Concat(chunks) == Concat(Frames(AnswerBlocks(a)))
    ensures EMPTY.ApplyAll(EventsOf(Concat(chunks))) == Shown(a)
  {
    AnswerIsRead(a);
    BlocksOfFrames(AnswerBlocks(a));
  }

  // ----- the printed stream is ASCII -----

  predicate Ascii(s: string) { forall i | 0 <= i < |s| :: s[i] < '\U{80}' }

  lemma AsciiConcat(a: string, b: string)
    requires Ascii(a) && Ascii(b)
    ensures Ascii(a + b)
  {
  }

  lemma BlockIsAscii(event: string, fields: Fields)
    requires Ascii(event)
    ensures Ascii(Block(event, fields))
  {
    hide Ascii, Dumps;
    DumpsIsAscii(fields);
    FramingIsAscii();
    AsciiConcat("\ndata: ", Dumps(fields));
    AsciiConcat(event, "\ndata: " + Dumps(fields));
    AsciiConcat("event: ", event + ("\ndata: " + Dumps(fields)));
  }

  lemma DumpsIsAscii(fields: Fields)
    ensures Ascii(Dumps(fields))
  {
    hide Dumps;
  }

  lemma FramingIsAscii()
    ensures Ascii("\ndata: ") && Ascii("event: ") && Ascii(BREAK)
    ensures Ascii("token") && Ascii("citation") && Ascii("done") && Ascii(Preamble())
  {
  }

  ghost predicate AllAscii(blocks: seq<string>) { forall i | 0 <= i < |blocks| :: Ascii(blocks[i]) }

  lemma BlocksAreAscii(a: Answer)
    ensures AllAscii(AnswerBlocks(a))
  {
    hide Ascii, Block, Preamble, Pieces, Utf16, Js, CitationFields;
    FramingIsAscii();
    var pieces := Pieces(a.answer);
    forall i | 0 <= i < |pieces| ensures Ascii(TokenBlock(pieces[i])) {
      BlockIsAscii("token", [(Js("delta"), Str(Utf16(pieces[i])))]);
    }
    forall i | 0 <= i < |a.citations| ensures Ascii(CitationBlock(a.citations[i])) {
      BlockIsAscii("citation", CitationFields(a.citations[i]));
    }
    BlockIsAscii("done", [(Js("refused"), Bool(a.refused)), (Js("language"), Str(Utf16(a.language)))]);
  }

  lemma {:induction false} FramesAreAscii(blocks: seq<string>)
    requires AllAscii(blocks)
    ensures Ascii(Concat(Frames(blocks)))
  {
    if blocks != [] {
      hide Ascii;
      FramingIsAscii();
      assert Frames(blocks)[1..] == Frames(blocks[1..]);
      FramesAreAscii(blocks[1..]);
      AsciiConcat(blocks[0], BREAK);
      AsciiConcat(blocks[0] + BREAK, Concat(Frames(blocks[1..])));
    }
  }

  /** Whatever the answer's language: every character printed is one byte, so no chunk of the stream can
      cut a character. */
  lemma PrintedIsAscii(a: Answer)
    ensures Ascii(Concat(Frames(AnswerBlocks(a))))
  {
    BlocksAreAscii(a);
    FramesAreAscii(AnswerBlocks(a));
  }

  // ----- the events, one by one -----

  function TokenEvents(pieces: seq<PyText>): seq<StreamEvent> {
    seq(|pieces|, i requires 0 <= i < |pieces| => TokenEvent(Some(Str(Utf16(pieces[i])))))
  }

  function CitationEvents(cs: seq<Citation>): seq<StreamEvent> {
    seq(|cs|, i requires 0 <= i < |cs| => CitationEvent(Obj(CitationObject(cs[i]))))
  }

  /** Pieces are 24 characters long but for the last, which is no longer and not empty. */
  lemma {:induction false} PiecesAre24(text: PyText)
    ensures forall i | 0 <= i < |Pieces(text)| :: 0 < |Pieces(text)[i]| <= 24
    ensures forall i | 0 <= i < |Pieces(text)| - 1 :: |Pieces(text)[i]| == 24
    ensures text != [] ==> Pieces(text) != []
    decreases |text|
  {
    if |text| > PIECE { PiecesAre24(text[PIECE..]); }
  }

  lemma TokenEventIs(piece: PyText)
    ensures BlockEvents(TokenBlock(piece)) == [TokenEvent(Some(Str(Utf16(piece))))]
  {
    hide Js, Utf16, Block, BlockEvents, Whole, ObjectOf;
    Carries("token", [(Js("delta"), Str(Utf16(piece)))]);
    OneField(Js("delta"), Str(Utf16(piece)));
  }

  lemma {:induction false} TokenEventsAre(pieces: seq<PyText>)
    ensures BlocksEvents(TokenBlocks(pieces)) == TokenEvents(pieces)
  {
    hide TokenBlock, BlockEvents, Utf16;
    if pieces != [] {
      var n := |pieces| - 1;
      TokenEventsAre(pieces[..n]);
      TokenEventIs(pieces[n]);
      assert TokenBlocks(pieces) == TokenBlocks(pieces[..n]) + [TokenBlock(pieces[n])];
      BlocksEventsSnoc(TokenBlocks(pieces[..n]), TokenBlock(pieces[n]));
      assert TokenEvents(pieces) == TokenEvents(pieces[..n]) + [TokenEvent(Some(Str(Utf16(pieces[n]))))];
    }
  }

  lemma {:induction false} CitationEventsAre(cs: seq<Citation>)
    ensures BlocksEvents(CitationBlocks(cs)) == CitationEvents(cs)
  {
    hide CitationBlock, BlockEvents, CitationObject, CitationBlocks;
    NothingPrinted([]);
    if cs != [] {
      var n := |cs| - 1;
      CitationEventsAre(cs[..n]);
      CitationEventIs(cs[n]);
      CitationStep(cs, n);
      TakeAll(cs);
      BlocksEventsSnoc(CitationBlocks(cs[..n]), CitationBlock(cs[n]));
      assert CitationEvents(cs) == CitationEvents(cs[..n]) + [CitationEvent(Obj(CitationObject(cs[n])))];
    }
  }

  lemma CitationEventIs(c: Citation)
    ensures BlockEvents(CitationBlock(c)) == [CitationEvent(Obj(CitationObject(c)))]
  {
    hide Js, Block, BlockEvents, Whole, ObjectOf, CitationFields;
    Carries("citation", CitationFields(c));
  }

  lemma DoneEventIs(a: Answer)
    ensures BlockEvents(DoneBlock(a)) == [DoneEvent(a.refused, Some(Str(Utf16(a.language))))]
  {
    hide Js, Utf16, Block, BlockEvents, Whole, ObjectOf;
    var r, l := (Js("refused"), Bool(a.refused)), (Js("language"), Str(Utf16(a.language)));
    Carries("done", [r, l]);
    JsLength("refused");
    JsLength("language");
    assert [r, l] == [r] + [l];
    FieldsSnoc([r], l);
    OneField(r.0, r.1);
  }

  /** However the stream is cut, the browser sees one token event for each piece, then one citation event for each
      citation, and then the done event, each once and in order. */
  lemma EventsInOrder(a: Answer, chunks: seq<string>)
    requires Concat(chunks) == Concat(Frames(AnswerBlocks(a)))
    ensures EventsOf(Concat(chunks)) == TokenEvents(Pieces(a.answer)) + CitationEvents(a.citations)
      + [DoneEvent(a.refused, Some(Str(Utf16(a.language))))]
  {
    hide Whole, BlockEvents, Preamble, TokenBlocks, CitationBlocks, DoneBlock, BlocksEvents, Blocks, Concat, TokenEvents, CitationEvents;
    AnswerIsRead(a);
    BlocksOfFrames(AnswerBlocks(a));
    var ts, cs := TokenBlocks(Pieces(a.answer)), CitationBlocks(a.citations);
    PreambleIsIgnored();
    TokenEventsAre(Pieces(a.answer));
    CitationEventsAre(a.citations);
    DoneEventIs(a);
    PrefixIgnored(Preamble(), ts);
    BlocksEventsAppend([Preamble()] + ts, cs);
    BlocksEventsSnoc([Preamble()] + ts + cs, DoneBlock(a));
  }
}
