/** app/rag/chunker.py: how full its chunks are, and what they quote of the text. */
module ChunkFilling {
  import opened Collections
  import opened Text
  import opened Wrappers
  import opened Chunker

  // ----- filled to the target -----

  /** A window of words `ws`, opened with `carried` after a window of `last` words: it is past the target only if
      it takes in a single part, and it was opened only because its first part did not fit the window before. */
  ghost predicate Fill(ws: seq<string>, carried: seq<string>, last: Option<nat>, parts: seq<string>, target: int) {
    && (|ws| <= target || exists u :: u in parts && ws == carried + Words(u))
    && (last.Some? ==> exists u :: u in parts && last.value + |Words(u)| > target && carried + Words(u) <= ws)
  }

  ghost function LastSize(chunks: seq<TextChunk>): Option<nat> {
    if chunks == [] then None else Some(|Words(chunks[|chunks| - 1].text)|)
  }

  ghost predicate FilledAt(chunks: seq<TextChunk>, i: nat, overlap: int, parts: seq<string>, target: int)
    requires i < |chunks|
  {
    Fill(Words(chunks[i].text), Carried(chunks[..i], overlap), LastSize(chunks[..i]), parts, target)
  }

  ghost predicate Filled(chunks: seq<TextChunk>, overlap: int, parts: seq<string>, target: int) {
    forall i | 0 <= i < |chunks| :: FilledAt(chunks, i, overlap, parts, target)
  }

  lemma FillMore(ws: seq<string>, carried: seq<string>, last: Option<nat>, parts: seq<string>, target: int, u: string)
    requires Fill(ws, carried, last, parts, target)
    ensures Fill(ws, carried, last, parts + [u], target)
    ensures |ws| + |Words(u)| <= target ==> Fill(ws + Words(u), carried, last, parts + [u], target)
  {
    hide Words;
    if x :| x in parts && ws == carried + Words(x) { assert x in parts + [u]; }
    if last.Some? {
      var x :| x in parts && last.value + |Words(x)| > target && carried + Words(x) <= ws;
      assert x in parts + [u];
      PrefixGrows(carried + Words(x), ws, Words(u));
    }
  }

  lemma PrefixGrows<T>(p: seq<T>, a: seq<T>, b: seq<T>)
    requires p <= a
    ensures p <= a + b
  {
  }

  lemma FillFirst(carried: seq<string>, last: Option<nat>, parts: seq<string>, target: int, u: string)
    requires last.Some? ==> last.value + |Words(u)| > target
    ensures Fill(carried + Words(u), carried, last, parts + [u], target)
  {
    assert (parts + [u])[|parts|] == u;
  }

  lemma FilledMore(chunks: seq<TextChunk>, overlap: int, parts: seq<string>, target: int, u: string)
    requires Filled(chunks, overlap, parts, target)
    ensures Filled(chunks, overlap, parts + [u], target)
  {
    hide Fill, Words, Carried;
    forall i | 0 <= i < |chunks| ensures FilledAt(chunks, i, overlap, parts + [u], target) {
      assert FilledAt(chunks, i, overlap, parts, target);
      FillMore(Words(chunks[i].text), Carried(chunks[..i], overlap), LastSize(chunks[..i]), parts, target, u);
    }
  }

  lemma FilledSnoc(chunks: seq<TextChunk>, c: TextChunk, overlap: int, parts: seq<string>, target: int)
    requires Filled(chunks, overlap, parts, target)
    requires Fill(Words(c.text), Carried(chunks, overlap), LastSize(chunks), parts, target)
    ensures Filled(chunks + [c], overlap, parts, target)
  {
    hide Fill, Words, Carried, LastSize;
    var all := chunks + [c];
    assert all[..|chunks|] == chunks;
    forall i | 0 <= i < |all| ensures FilledAt(all, i, overlap, parts, target) {
      if i < |chunks| {
        assert FilledAt(chunks, i, overlap, parts, target);
        assert all[..i] == chunks[..i];
      }
    }
  }

  /** The chunks emitted are filled, and so is the open window. */
  ghost predicate FillsSoFar(w: Windowing, done: seq<string>, overlap: int, target: int) {
    && Filled(w.chunks, overlap, done, target)
    && (done != [] ==> Fill(AllWords(w.buf), Carried(w.chunks, overlap), LastSize(w.chunks), done, target))
  }

  /** What closing a window makes of words: the chunk's, and the carried ones left. */
  lemma ClosedWords(w: Windowing, overlap: int, sha1: string -> string)
    ensures var c := w.Close(overlap, sha1);
      |c.chunks| == |w.chunks| + 1 && c.chunks[..|w.chunks|] == w.chunks
      && Words(c.chunks[|w.chunks|].text) == AllWords(w.buf) && AllWords(c.buf) == Carried(c.chunks, overlap)
  {
    hide Words, AllWords, TailStart;
    GapIsSpace();
    WordsOfJoin(w.buf, "\n\n");
    var joined := Join(w.buf, "\n\n");
    TailRejoins(joined, TailStart(overlap, |Words(joined)|));
  }

  lemma CloseFills(w: Windowing, done: seq<string>, overlap: int, sha1: string -> string, target: int)
    requires FillsSoFar(w, done, overlap, target) && done != []
    ensures Filled(w.Close(overlap, sha1).chunks, overlap, done, target)
    ensures LastSize(w.Close(overlap, sha1).chunks) == Some(|AllWords(w.buf)|)
  {
    hide Words, AllWords, Carried, Fill, Windowing.Close, Filled;
    var c := w.Close(overlap, sha1);
    ClosedWords(w, overlap, sha1);
    assert c.chunks == w.chunks + [c.chunks[|w.chunks|]];
    FilledSnoc(w.chunks, c.chunks[|w.chunks|], overlap, done, target);
  }

  lemma StepFills(w: Windowing, done: seq<string>, u: string, target: int, overlap: int, sha1: string -> string)
    requires Slid(w, done, overlap, sha1) && FillsSoFar(w, done, overlap, target)
    ensures FillsSoFar(w.Add(u, target, overlap, sha1), done + [u], overlap, target)
  {
    hide Words, AllWords, Carried, Fill, Windowing.Close, Filled, Stamped, Overlapping, Window;
    var closes := w.buf != [] && |AllWords(w.buf)| + |Words(u)| > target;
    if closes {
      var c := w.Close(overlap, sha1);
      CloseFills(w, done, overlap, sha1, target);
      ClosedWords(w, overlap, sha1);
      AllWordsSnoc(c.buf, u);
      FillFirst(Carried(c.chunks, overlap), LastSize(c.chunks), done, target, u);
      FilledMore(c.chunks, overlap, done, target, u);
    } else {
      AllWordsSnoc(w.buf, u);
      FilledMore(w.chunks, overlap, done, target, u);
      if done == [] {
        FirstFills(u, target, overlap);
      } else {
        BufferHolds(w, done, overlap, sha1);
        FillMore(AllWords(w.buf), Carried(w.chunks, overlap), LastSize(w.chunks), done, target, u);
      }
    }
  }

  lemma FirstFills(u: string, target: int, overlap: int)
    ensures Fill(AllWords([] + [u]), Carried([], overlap), LastSize([]), [] + [u], target)
  {
    hide Words, Fill, AllWords;
    AllWordsSnoc([], u);
    NoParts();
    assert Carried([], overlap) == [];
    FillFirst([], None, [], target, u);
  }

  lemma BufferHolds(w: Windowing, done: seq<string>, overlap: int, sha1: string -> string)
    requires Slid(w, done, overlap, sha1) && done != []
    ensures w.buf != []
  {
    NoParts();
  }

  lemma {:induction false} SlideFills(units: seq<string>, target: int, overlap: int, sha1: string -> string)
    requires forall u | u in units :: Words(u) != []
    ensures Slid(Slide(units, target, overlap, sha1), units, overlap, sha1)
    ensures FillsSoFar(Slide(units, target, overlap, sha1), units, overlap, target)
  {
    hide Words, AllWords, Windowing.Add, Slid, FillsSoFar;
    if units == [] {
      NothingFilled(target, overlap, sha1);
    } else {
      var n := |units| - 1;
      var before, u := units[..n], units[n];
      assert u in units && forall x | x in before :: x in units;
      SlideFills(before, target, overlap, sha1);
      TakeNext(units, n);
      TakeAll(units);
      StepFills(Slide(before, target, overlap, sha1), before, u, target, overlap, sha1);
      StepKeeps(Slide(before, target, overlap, sha1), before, u, target, overlap, sha1);
    }
  }

  lemma NothingFilled(target: int, overlap: int, sha1: string -> string)
    ensures Slid(Windowing([], []), [], overlap, sha1) && FillsSoFar(Windowing([], []), [], overlap, target)
  {
    WindowStart(overlap, sha1);
    NoParts();
  }

  /** Every chunk is filled: it is past the target only if it adds a single unit to the words carried into it, and
      its first unit did not fit the chunk before. */
  lemma ChunksAreFilled(text: string, target: int, overlap: int, sha1: string -> string)
    ensures Filled(ChunksOf(text, target, overlap, sha1), overlap, UnitsOf(ParagraphsOf(text), target), target)
  {
    hide Words, AllWords, UnitsOf, ParagraphsOf, Slide, Windowing.Close, Filled, Fill, Strip, Slid, LongestSentence, Pieces;
    var units := UnitsOf(ParagraphsOf(text), target);
    if text == "" || Strip(text) == "" {
      NoneFilled(overlap, units, target);
    } else {
      TextUnits(text, target);
      NoWordsIffBlank(text);
      NoParts();
      SlideFills(units, target, overlap, sha1);
      var w := Slide(units, target, overlap, sha1);
      BufferHolds(w, units, overlap, sha1);
      CloseFills(w, units, overlap, sha1, target);
    }
  }

  lemma NoneFilled(overlap: int, parts: seq<string>, target: int)
    ensures Filled([], overlap, parts, target)
  {
  }

  /** So the words of a chunk and those the next one adds exceed the target together. */
  lemma NeighboursExceed(text: string, target: int, overlap: int, sha1: string -> string, i: nat)
    requires 0 < i < |ChunksOf(text, target, overlap, sha1)|
    ensures var chunks := ChunksOf(text, target, overlap, sha1);
      |Words(chunks[i - 1].text)| + |Words(chunks[i].text)| - |Carried(chunks[..i], overlap)| > target
  {
    hide Words, ChunksOf, UnitsOf, ParagraphsOf, Carried;
    var chunks := ChunksOf(text, target, overlap, sha1);
    ChunksAreFilled(text, target, overlap, sha1);
    assert FilledAt(chunks, i, overlap, UnitsOf(ParagraphsOf(text), target), target);
    assert chunks[..i][i - 1] == chunks[i - 1];
  }

  /** A text that fits the target is one chunk. */
  lemma FittingTextIsOneChunk(text: string, target: int, overlap: int, sha1: string -> string)
    requires 0 < |Words(text)| <= target
    ensures |ChunksOf(text, target, overlap, sha1)| == 1
  {
    hide Words, ChunksOf, Carried, ParagraphsOf, LongestSentence, Pieces, Reassembled, Stays, Bounded;
    var chunks := ChunksOf(text, target, overlap, sha1);
    ChunksKeep(text, target, overlap, sha1);
    WindowStart(overlap, sha1);
    if |chunks| > 1 {
      NeighboursExceed(text, target, overlap, sha1, 1);
      FirstTwo(chunks, overlap);
      SizesGrow(chunks, overlap, 2, |chunks|);
      TakeAll(chunks);
    }
  }

  lemma FirstTwo(chunks: seq<TextChunk>, overlap: int)
    requires Overlapping(chunks, overlap) && |chunks| > 1
    ensures |Reassembled(chunks[..2], overlap)|
      == |Words(chunks[0].text)| + |Words(chunks[1].text)| - |Carried(chunks[..1], overlap)|
  {
    hide Words, Reassembled, Overlapping;
    SizeNext(chunks, overlap, 1);
    SizeNext(chunks, overlap, 0);
    assert chunks[..0] == [];
    NothingYet(overlap);
  }

  lemma NothingYet(overlap: int)
    ensures Reassembled([], overlap) == [] && Carried([], overlap) == []
  {
  }

  lemma {:induction false} SizesGrow(chunks: seq<TextChunk>, overlap: int, i: nat, j: nat)
    requires Overlapping(chunks, overlap) && i <= j <= |chunks|
    ensures |Reassembled(chunks[..i], overlap)| <= |Reassembled(chunks[..j], overlap)|
  {
    hide Words, Reassembled, Carried;
    if i < j {
      SizesGrow(chunks, overlap, i, j - 1);
      SizeNext(chunks, overlap, j - 1);
      assert Carried(chunks[..j - 1], overlap) < Words(chunks[j - 1].text);
    }
  }

  /** With a positive overlap every chunk but the first opens with the last `overlap` words of the one before, or
      with all of them when there are fewer. */
  lemma OverlapIsTail(text: string, target: int, overlap: int, sha1: string -> string, i: nat)
    requires overlap >= 1 && 0 < i < |ChunksOf(text, target, overlap, sha1)|
    ensures var chunks := ChunksOf(text, target, overlap, sha1);
      var before, ws := Words(chunks[i - 1].text), Words(chunks[i].text);
      var m := Min(overlap, |before|);
      m < |ws| && ws[..m] == before[|before| - m..]
  {
    hide Words, ChunksOf, ParagraphsOf, LongestSentence, Pieces, Reassembled, Stays, Bounded;
    var chunks := ChunksOf(text, target, overlap, sha1);
    ChunksKeep(text, target, overlap, sha1);
    hide Carried;
    assert Carried(chunks[..i], overlap) < Words(chunks[i].text);
    CarriedIsTail(chunks, overlap, i);
    PrefixSlice(Carried(chunks[..i], overlap), Words(chunks[i].text));
  }

  lemma CarriedIsTail(chunks: seq<TextChunk>, overlap: int, i: nat)
    requires overlap >= 1 && 0 < i <= |chunks|
    ensures var before := Words(chunks[i - 1].text);
      Carried(chunks[..i], overlap) == before[|before| - Min(overlap, |before|)..]
  {
    hide Words;
    assert chunks[..i][i - 1] == chunks[i - 1];
  }

  lemma PrefixSlice<T>(p: seq<T>, a: seq<T>)
    requires p < a
    ensures |p| < |a| && a[..|p|] == p
  {
  }

  // ----- sentences are packed the same way -----

  ghost function LastUnit(units: seq<string>): Option<nat> {
    if units == [] then None else Some(|Words(units[|units| - 1])|)
  }

  /** Each unit is past the target only if it is a single sentence, and its first did not fit the unit before. */
  ghost predicate UnitsFilled(units: seq<string>, sentences: seq<string>, target: int) {
    forall i | 0 <= i < |units| :: Fill(Words(units[i]), [], LastUnit(units[..i]), sentences, target)
  }

  ghost predicate PacksSoFar(p: Packing, done: seq<string>, target: int) {
    && UnitsFilled(p.units, done, target) && (if done == [] then p == Packing([], []) else p.buf != [])
    && (p.buf != [] ==> Fill(AllWords(p.buf), [], LastUnit(p.units), done, target))
  }

  lemma UnitsFilledMore(units: seq<string>, sentences: seq<string>, target: int, s: string)
    requires UnitsFilled(units, sentences, target)
    ensures UnitsFilled(units, sentences + [s], target)
  {
    hide Fill, Words;
    forall i | 0 <= i < |units| ensures Fill(Words(units[i]), [], LastUnit(units[..i]), sentences + [s], target) {
      FillMore(Words(units[i]), [], LastUnit(units[..i]), sentences, target, s);
    }
  }

  lemma UnitsFilledSnoc(units: seq<string>, u: string, sentences: seq<string>, target: int)
    requires UnitsFilled(units, sentences, target) && Fill(Words(u), [], LastUnit(units), sentences, target)
    ensures UnitsFilled(units + [u], sentences, target) && LastUnit(units + [u]) == Some(|Words(u)|)
  {
    hide Fill, Words;
    var all := units + [u];
    assert all[..|units|] == units;
    forall i | 0 <= i < |all| ensures Fill(Words(all[i]), [], LastUnit(all[..i]), sentences, target) {
      if i < |units| { assert all[..i] == units[..i]; }
    }
  }

  lemma FlushFills(p: Packing, done: seq<string>, target: int)
    requires PacksSoFar(p, done, target) && p.buf != []
    ensures UnitsFilled(p.units + [Join(p.buf, " ")], done, target)
    ensures LastUnit(p.units + [Join(p.buf, " ")]) == Some(|AllWords(p.buf)|)
  {
    hide Fill, Words, AllWords, UnitsFilled, Join;
    WordsOfJoin(p.buf, " ");
    UnitsFilledSnoc(p.units, Join(p.buf, " "), done, target);
  }

  lemma PackStepFills(p: Packing, done: seq<string>, s: string, target: int)
    requires PacksSoFar(p, done, target)
    ensures PacksSoFar(p.Add(s, target), done + [s], target)
  {
    hide Fill, Words, AllWords, UnitsFilled, Join, LastUnit;
    if p.buf != [] && |AllWords(p.buf)| + |Words(s)| > target {
      FlushFills(p, done, target);
      var units := p.units + [Join(p.buf, " ")];
      UnitsFilledMore(units, done, target, s);
      AllWordsOne(s);
      Neutral(Words(s));
      FillFirst([], LastUnit(units), done, target, s);
    } else {
      UnitsFilledMore(p.units, done, target, s);
      AllWordsSnoc(p.buf, s);
      if p.buf != [] {
        FillMore(AllWords(p.buf), [], LastUnit(p.units), done, target, s);
      } else {
        FirstPacks(p, done, s, target);
      }
    }
  }

  lemma FirstPacks(p: Packing, done: seq<string>, s: string, target: int)
    requires p.buf == [] && p.units == []
    ensures Fill(AllWords(p.buf + [s]), [], LastUnit(p.units), done + [s], target)
  {
    hide Words, AllWords, Fill;
    AllWordsSnoc([], s);
    NoParts();
    FillFirst([], None, done, target, s);
  }

  lemma {:induction false} PackFills(sentences: seq<string>, target: int)
    ensures PacksSoFar(Pack(sentences, target), sentences, target)
  {
    hide Words, AllWords, Packing.Add, Fill;
    if sentences != [] {
      hide PacksSoFar;
      var n := |sentences| - 1;
      PackFills(sentences[..n], target);
      PackStepFills(Pack(sentences[..n], target), sentences[..n], sentences[n], target);
      TakeNext(sentences, n);
      TakeAll(sentences);
    }
  }

  /** An oversized paragraph is cut into units filled with its sentences. */
  lemma ParagraphIsFilled(p: string, target: int)
    requires |Words(p)| > target && SentencesOf(p) != []
    ensures UnitsFilled(UnitsFrom(p, target), SentencesOf(p), target)
  {
    hide Words, SentencesOf, UnitsFilled, Fill, AllWords;
    PackFills(SentencesOf(p), target);
    FlushFills(Pack(SentencesOf(p), target), SentencesOf(p), target);
  }

  // ----- what the chunks quote -----

  /** Some text of the list holds `x` word for word, blanks included. */
  ghost predicate Quoted(texts: seq<string>, x: string) {
    exists i :: 0 <= i < |texts| && Contains(texts[i], x)
  }

  ghost function TextsOf(chunks: seq<TextChunk>): seq<string> {
    seq(|chunks|, i requires 0 <= i < |chunks| => chunks[i].text)
  }

  lemma InTheMiddle(a: string, x: string, b: string)
    ensures Contains(a + x + b, x)
  {
    assert (a + x + b)[|a|..|a| + |x|] == x;
    assert At(a + x + b, x, |a|);
  }

  lemma ContainsTransitive(a: string, b: string, c: string)
    requires Contains(a, b) && Contains(b, c)
    ensures Contains(a, c)
  {
    var i :| At(a, b, i);
    var j :| At(b, c, j);
    SliceOfSlice(a, i, i + |b|, j, j + |c|);
    assert At(a, c, i + j);
  }

  /** A joined text quotes each of its parts. */
  lemma {:induction false} JoinQuotes(parts: seq<string>, sep: string, x: string)
    requires x in parts
    ensures Contains(Join(parts, sep), x)
  {
    if |parts| == 1 {
      assert At(x, x, 0);
    } else {
      var rest := Join(parts[1..], sep);
      if x == parts[0] {
        InTheMiddle("", x, sep + rest);
        Assoc(x, sep, rest);
        assert "" + x + (sep + rest) == Join(parts, sep);
      } else {
        JoinQuotes(parts[1..], sep, x);
        InTheMiddle(parts[0] + sep, rest, "");
        assert parts[0] + sep + rest + "" == Join(parts, sep);
        ContainsTransitive(Join(parts, sep), rest, x);
      }
    }
  }

  lemma QuotedMore(texts: seq<string>, t: string, x: string)
    requires Quoted(texts, x) || Contains(t, x)
    ensures Quoted(texts + [t], x)
  {
    if i :| 0 <= i < |texts| && Contains(texts[i], x) {
      assert Contains((texts + [t])[i], x);
    } else {
      assert Contains((texts + [t])[|texts|], x);
    }
  }

  /** Every unit taken in is quoted by a chunk or stands in the open window. */
  ghost predicate QuotesSoFar(w: Windowing, done: seq<string>) {
    forall u | u in done :: Quoted(TextsOf(w.chunks), u) || u in w.buf
  }

  lemma CloseQuotes(w: Windowing, done: seq<string>, overlap: int, sha1: string -> string)
    requires QuotesSoFar(w, done)
    ensures forall u | u in done :: Quoted(TextsOf(w.Close(overlap, sha1).chunks), u)
  {
    hide Quoted, Words, AllWords, Contains, Join, TailStart;
    var c := w.Close(overlap, sha1);
    var joined := Join(w.buf, "\n\n");
    assert TextsOf(c.chunks) == TextsOf(w.chunks) + [joined];
    forall u | u in done ensures Quoted(TextsOf(c.chunks), u) {
      if u in w.buf { JoinQuotes(w.buf, "\n\n", u); }
      QuotedMore(TextsOf(w.chunks), joined, u);
    }
  }

  lemma {:induction false} SlideQuotes(units: seq<string>, target: int, overlap: int, sha1: string -> string)
    ensures QuotesSoFar(Slide(units, target, overlap, sha1), units)
  {
    hide Quoted, Words, AllWords, Windowing.Close;
    if units != [] {
      var n := |units| - 1;
      var before, u := units[..n], units[n];
      SlideQuotes(before, target, overlap, sha1);
      CloseQuotes(Slide(before, target, overlap, sha1), before, overlap, sha1);
      TakeNext(units, n);
      TakeAll(units);
    }
  }

  /** Every unit of a text is quoted by one of its chunks. */
  lemma UnitsAreQuoted(text: string, target: int, overlap: int, sha1: string -> string, u: string)
    requires Words(text) != [] && u in UnitsOf(ParagraphsOf(text), target)
    ensures Quoted(TextsOf(ChunksOf(text, target, overlap, sha1)), u)
  {
    hide Words, UnitsOf, ParagraphsOf, Slide, Windowing.Close, Quoted, Strip;
    NoWordsIffBlank(text);
    NoParts();
    var units := UnitsOf(ParagraphsOf(text), target);
    var w := Slide(units, target, overlap, sha1);
    SlideQuotes(units, target, overlap, sha1);
    CloseQuotes(w, units, overlap, sha1);
  }

  lemma {:induction false} UnitsOfEach(paragraphs: seq<string>, target: int, p: string, u: string)
    requires p in paragraphs && u in UnitsFrom(p, target)
    ensures u in UnitsOf(paragraphs, target)
  {
    hide UnitsFrom;
    var n := |paragraphs| - 1;
    if p != paragraphs[n] {
      assert p in paragraphs[..n];
      UnitsOfEach(paragraphs[..n], target, p, u);
    }
  }

  /** Every sentence packed is quoted by a unit or stands in the open one. */
  lemma {:induction false} PackQuotes(sentences: seq<string>, target: int)
    ensures var p := Pack(sentences, target); forall s | s in sentences :: Quoted(p.units, s) || s in p.buf
  {
    hide Quoted, Words, AllWords, Join, Contains;
    if sentences != [] {
      var n := |sentences| - 1;
      var before, p := sentences[..n], Pack(sentences[..n], target);
      PackQuotes(before, target);
      forall s | s in before ensures Quoted(p.units + [Join(p.buf, " ")], s) {
        if s in p.buf { JoinQuotes(p.buf, " ", s); }
        QuotedMore(p.units, Join(p.buf, " "), s);
      }
      TakeNext(sentences, n);
      TakeAll(sentences);
    }
  }

  lemma FlushQuotes(sentences: seq<string>, target: int, s: string)
    requires s in sentences
    ensures Quoted(Pack(sentences, target).Flushed(), s)
  {
    hide Quoted, Pack, Contains, Join;
    PackQuotes(sentences, target);
    var p := Pack(sentences, target);
    if s in p.buf { JoinQuotes(p.buf, " ", s); }
    QuotedMore(p.units, Join(p.buf, " "), s);
  }

  /** Nothing a reader could cite is torn apart: a paragraph that fits the target stands in a chunk as it is, and so
      does every sentence of the others. */
  lemma ParagraphsAreQuoted(text: string, target: int, overlap: int, sha1: string -> string, p: string)
    requires p in ParagraphsOf(text)
    ensures var texts := TextsOf(ChunksOf(text, target, overlap, sha1));
      if |Words(p)| <= target then Quoted(texts, p) else forall s | s in SentencesOf(p) :: Quoted(texts, s)
  {
    HasWords(text, p);
    hide Words, ParagraphsOf, SentencesOf, ChunksOf, Quoted, UnitsOf, AllWords, Pack, Packing.Flushed;
    var texts := TextsOf(ChunksOf(text, target, overlap, sha1));
    if |Words(p)| <= target {
      UnitsOfEach(ParagraphsOf(text), target, p, p);
      UnitsAreQuoted(text, target, overlap, sha1, p);
    } else {
      forall s | s in SentencesOf(p) ensures Quoted(texts, s) {
        FlushQuotes(SentencesOf(p), target, s);
        SentenceQuoted(text, target, overlap, sha1, p, s);
      }
    }
  }

  lemma HasWords(text: string, p: string)
    requires p in ParagraphsOf(text)
    ensures Words(text) != []
  {
    hide Words;
    PartsKeepWords(text);
    WordsIn(ParagraphsOf(text), p);
  }

  lemma {:induction false} WordsIn(parts: seq<string>, p: string)
    requires p in parts && Words(p) != []
    ensures AllWords(parts) != []
  {
    hide Words;
    if p != parts[0] { WordsIn(parts[1..], p); }
  }

  lemma SentenceQuoted(text: string, target: int, overlap: int, sha1: string -> string, p: string, s: string)
    requires p in ParagraphsOf(text) && Quoted(UnitsFrom(p, target), s) && Words(text) != []
    ensures Quoted(TextsOf(ChunksOf(text, target, overlap, sha1)), s)
  {
    hide Words, ParagraphsOf, ChunksOf, UnitsFrom, UnitsOf, Contains;
    var units := UnitsFrom(p, target);
    var i :| 0 <= i < |units| && Contains(units[i], s);
    UnitsOfEach(ParagraphsOf(text), target, p, units[i]);
    UnitsAreQuoted(text, target, overlap, sha1, units[i]);
    var texts := TextsOf(ChunksOf(text, target, overlap, sha1));
    var j :| 0 <= j < |texts| && Contains(texts[j], units[i]);
    ContainsTransitive(texts[j], units[i], s);
  }

  // ----- where a text is split -----

  /** A match of the paragraph expression: two newlines with nothing but whitespace between. */
  ghost predicate IsParagraphBreak(s: string, i: nat, n: nat) {
    n >= 2 && i + n <= |s| && s[i] == '\n' && s[i + n - 1] == '\n' && SpaceIn(s, i, i + n)
  }

  /** The model of the expression finds the longest match, if there is one. */
  lemma ParagraphBreakIff(s: string, i: nat)
    requires i < |s|
    ensures var n := ParagraphBreak(s, i);
      if n > 0 then IsParagraphBreak(s, i, n) && forall m: nat :: IsParagraphBreak(s, i, m) ==> m <= n
      else forall m: nat :: !IsParagraphBreak(s, i, m)
  {
    if s[i] == '\n' {
      var end := i + 1 + SpaceLen(s, i + 1);
      SpaceLenIsLongest(s, i + 1);
      LastNewlineIsLast(s, i + 1, end);
      forall m: nat | IsParagraphBreak(s, i, m) ensures i + m <= AfterLastNewline(s, i + 1, end) {
        assert SpaceIn(s, i + 1, i + m);
      }
    }
  }

  lemma {:induction false} SpaceLenIsLongest(s: string, i: nat)
    requires i <= |s|
    ensures forall j | i <= j <= |s| && SpaceIn(s, i, j) :: j <= i + SpaceLen(s, i)
    decreases |s| - i
  {
    if i < |s| && IsSpace(s[i]) {
      SpaceLenIsLongest(s, i + 1);
      forall j | i <= j <= |s| && SpaceIn(s, i, j) ensures j <= i + SpaceLen(s, i) {
        if j > i { assert SpaceIn(s, i + 1, j); }
      }
    }
  }

  lemma {:induction false} LastNewlineIsLast(s: string, i: nat, j: nat)
    requires i <= j <= |s|
    ensures var e := AfterLastNewline(s, i, j);
      (e > i ==> s[e - 1] == '\n') && forall k | e <= k < j :: s[k] != '\n'
    decreases j - i
  {
    if j > i && s[j - 1] != '\n' { LastNewlineIsLast(s, i, j - 1); }
  }

  /** A sentence break is the longest run of whitespace after a full stop, a question or exclamation mark, or the
      Hebrew sof pasuq. */
  lemma SentenceBreakIff(s: string, i: nat)
    requires i < |s|
    ensures var n := SentenceBreak(s, i);
      (n > 0 <==> i > 0 && IsSpace(s[i]) && (s[i - 1] == '.' || s[i - 1] == '!' || s[i - 1] == '?' || s[i - 1] == '\U{5c3}'))
      && (n > 0 ==> i + n <= |s| && SpaceIn(s, i, i + n) && (i + n == |s| || !IsSpace(s[i + n])))
  {
    SpaceRunEnds(s, i);
  }

  lemma {:induction false} SpaceRunEnds(s: string, i: nat)
    requires i <= |s|
    ensures var e := i + SpaceLen(s, i); e == |s| || !IsSpace(s[e])
    decreases |s| - i
  {
    if i < |s| && IsSpace(s[i]) { SpaceRunEnds(s, i + 1); }
  }
}
