/** app/rag/chunker.py: the sliding-window chunker. */
module Chunker {
  import opened Collections
  import opened Text

  datatype TextChunk = TextChunk(text: string, sha1: string, wordCount: nat, seqNo: nat)

  // ----- re.split -----

  /** Length of the leading run of whitespace in `s[i..]`. */
  function SpaceLen(s: string, i: nat): (n: nat)
    requires i <= |s|
    ensures i + n <= |s| && SpaceIn(s, i, i + n)
    decreases |s| - i
  {
    if i == |s| || !IsSpace(s[i]) then 0
    else 1 + SpaceLen(s, i + 1)
  }

  /** One past the last newline of `s[i..j]`, or `i` when it has none. */
  function AfterLastNewline(s: string, i: nat, j: nat): (e: nat)
    requires i <= j <= |s|
    ensures i <= e <= j
    decreases j - i
  {
    if j == i || s[j - 1] == '\n' then j else AfterLastNewline(s, i, j - 1)
  }

  /** Length of the match of `\n\s*\n` at `i`; 0 for no match. The greedy run of whitespace gives
      back characters until a newline follows it. */
  function ParagraphBreak(s: string, i: nat): nat
    requires i < |s|
  {
    if s[i] != '\n' then 0
    else
      var e := AfterLastNewline(s, i + 1, i + 1 + SpaceLen(s, i + 1));
      if e == i + 1 then 0 else e - i
  }

  /** Length of the match of `(?<=[.!?׃])\s+` at `i`; 0 for no match. */
  function SentenceBreak(s: string, i: nat): nat
    requires i < |s|
  {
    if i > 0 && s[i - 1] in ['.', '!', '?', '\U{5c3}'] then SpaceLen(s, i) else 0
  }

  datatype Splitter = Paragraphs | Sentences {
    function MatchLen(s: string, i: nat): (n: nat)
      requires i < |s|
      ensures i + n <= |s| && SpaceIn(s, i, i + n)
    {
      match this
      case Paragraphs => ParagraphBreak(s, i)
      case Sentences => SentenceBreak(s, i)
    }

    /** `re.split` from `start`, looking for the next match at `i` or later. */
    function Split(s: string, start: nat, i: nat): (pieces: seq<string>)
      requires start <= i <= |s|
      decreases |s| - i
    {
      if i == |s| then [s[start..]]
      else
        var n := MatchLen(s, i);
        if n == 0 then Split(s, start, i + 1)
        else [s[start..i]] + Split(s, i + n, i + n)
    }

    /** Splitting loses separators only, and separators hold no word. */
    lemma {:induction false} SplitKeepsWords(s: string, start: nat, i: nat)
      requires start <= i <= |s|
      ensures AllWords(Split(s, start, i)) == Words(s[start..])
      decreases |s| - i
    {
      hide Words, AllWords, MatchLen;
      if i == |s| {
        AllWordsOne(s[start..]);
      } else {
        var n := MatchLen(s, i);
        if n == 0 {
          SplitKeepsWords(s, start, i + 1);
        } else {
          hide Split;
          SplitKeepsWords(s, i + n, i + n);
          CutKeepsWords(s, start, i, i + n, Split(s, i + n, i + n));
        }
      }
    }
  }

  lemma CutKeepsWords(s: string, start: nat, i: nat, j: nat, rest: seq<string>)
    requires start <= i < j <= |s| && SpaceIn(s, i, j) && AllWords(rest) == Words(s[j..])
    ensures AllWords([s[start..i]] + rest) == Words(s[start..])
  {
    hide Words, AllWords;
    AllWordsCons(s[start..i], rest);
    var sep := s[i..j];
    assert forall k | 0 <= k < |sep| :: sep[k] == s[i + k];
    WordsAround(s[start..i], sep, s[j..]);
    Cut(s, start, i, j);
  }

  /** `[p.strip() for p in pieces if p.strip()]`. */
  function Stripped(pieces: seq<string>): (r: seq<string>)
    ensures forall p | p in r :: 0 < |Words(p)|
    ensures AllWords(r) == AllWords(pieces)
  {
    if pieces == [] then []
    else
      WordsStrip(pieces[0]);
      NoWordsIffBlank(pieces[0]);
      var p, rest := Strip(pieces[0]), Stripped(pieces[1..]);
      if p == "" then rest else
        assert ([p] + rest)[1..] == rest;
        [p] + rest
  }

  function ParagraphsOf(text: string): seq<string> { Stripped(Paragraphs.Split(text, 0, 0)) }
  function SentencesOf(p: string): seq<string> { Stripped(Sentences.Split(p, 0, 0)) }

  lemma PartsKeepWords(text: string)
    ensures AllWords(ParagraphsOf(text)) == Words(text)
    ensures AllWords(SentencesOf(text)) == Words(text)
  {
    Paragraphs.SplitKeepsWords(text, 0, 0);
    Sentences.SplitKeepsWords(text, 0, 0);
    TakeAll(text);
  }

  /** The longest of the strings, in words. */
  function MaxWords(parts: seq<string>): (m: nat)
    ensures forall p | p in parts :: |Words(p)| <= m
  {
    if parts == [] then 0 else Max(|Words(parts[0])|, MaxWords(parts[1..]))
  }

  /** The longest sentence of any of the paragraphs, in words. */
  function LongestSentence(paragraphs: seq<string>): (m: nat)
    ensures forall p | p in paragraphs :: MaxWords(SentencesOf(p)) <= m
  {
    if paragraphs == [] then 0
    else Max(MaxWords(SentencesOf(paragraphs[0])), LongestSentence(paragraphs[1..]))
  }

  /** How many pieces the paragraphs are cut into at most: one if it fits, else its sentences. */
  function Pieces(paragraphs: seq<string>, target: int): nat {
    if paragraphs == [] then 0
    else
      var n := |paragraphs| - 1;
      Pieces(paragraphs[..n], target) + PieceCount(paragraphs[n], target)
  }

  function PieceCount(p: string, target: int): nat {
    if |Words(p)| <= target || SentencesOf(p) == [] then 1 else |SentencesOf(p)|
  }

  // ----- units -----

  /** The packing of sentences in progress: the units done, and the open one. */
  datatype Packing = Packing(units: seq<string>, buf: seq<string>) {
    function Add(s: string, target: int): Packing {
      if buf != [] && |AllWords(buf)| + |Words(s)| > target then Packing(units + [Join(buf, " ")], [s])
      else Packing(units, buf + [s])
    }

    function Flushed(): seq<string> { if buf != [] then units + [Join(buf, " ")] else units }
  }

  function Pack(sentences: seq<string>, target: int): Packing {
    if sentences == [] then Packing([], [])
    else Pack(sentences[..|sentences| - 1], target).Add(sentences[|sentences| - 1], target)
  }

  /** A paragraph that fits stays whole, another becomes runs of sentences. */
  function UnitsFrom(p: string, target: int): seq<string> {
    if |Words(p)| <= target || SentencesOf(p) == [] then [p] else Pack(SentencesOf(p), target).Flushed()
  }

  function UnitsOf(paragraphs: seq<string>, target: int): seq<string> {
    if paragraphs == [] then []
    else UnitsOf(paragraphs[..|paragraphs| - 1], target) + UnitsFrom(paragraphs[|paragraphs| - 1], target)
  }

  /** Every unit has a word, and none has more than `bound`. */
  ghost predicate Sized(units: seq<string>, bound: int) {
    forall u | u in units :: 0 < |Words(u)| <= bound
  }

  /** `buf` and the units before it hold exactly the words of `done`. */
  ghost predicate Buffered(done: seq<string>, units: seq<string>, buf: seq<string>) {
    AllWords(units) + AllWords(buf) == AllWords(done)
  }

  lemma BufferPush(done: seq<string>, units: seq<string>, buf: seq<string>, s: string)
    requires Buffered(done, units, buf)
    ensures Buffered(done + [s], units, buf + [s]) && |AllWords(buf + [s])| == |AllWords(buf)| + |Words(s)|
  {
    AllWordsSnoc(done, s);
    AllWordsSnoc(buf, s);
    Assoc(AllWords(units), AllWords(buf), Words(s));
  }

  lemma BufferFlush(done: seq<string>, units: seq<string>, buf: seq<string>, sep: string)
    requires Buffered(done, units, buf) && sep != "" && AllSpace(sep)
    ensures Buffered(done, units + [Join(buf, sep)], []) && AllWords([]) == []
    ensures |Words(Join(buf, sep))| == |AllWords(buf)|
  {
    WordsOfJoin(buf, sep);
    AllWordsSnoc(units, Join(buf, sep));
    Neutral(AllWords(units) + AllWords(buf));
  }

  /** A packing holds the sentences done, keeps the bound, and has made no more units than sentences. */
  ghost predicate PackedTo(p: Packing, done: seq<string>, bound: int) {
    && Buffered(done, p.units, p.buf) && Sized(p.units, bound)
    && (p.buf != [] ==> 0 < |AllWords(p.buf)| <= bound)
    && |p.units| + (if p.buf != [] then 1 else 0) <= |done|
  }

  lemma AddKeeps(p: Packing, done: seq<string>, s: string, target: int, bound: int)
    requires PackedTo(p, done, bound) && 0 < |Words(s)| <= bound && target <= bound
    ensures PackedTo(p.Add(s, target), done + [s], bound)
  {
    hide Words, AllWords, Join;
    BufferPush(done, p.units, p.buf, s);
    if p.buf != [] && |AllWords(p.buf)| + |Words(s)| > target {
      BufferFlush(done, p.units, p.buf, " ");
      BufferPush(done, p.units + [Join(p.buf, " ")], [], s);
      assert [] + [s] == [s];
    } else if p.buf == [] {
      NoParts();
    }
  }

  /** Packing loses no word, keeps the size bound, and makes no more units than there are sentences. */
  lemma {:induction false} PackKeeps(sentences: seq<string>, target: int, limit: nat)
    requires Sized(sentences, limit)
    ensures PackedTo(Pack(sentences, target), sentences, Max(target, limit))
  {
    hide Words, AllWords, Packing.Add;
    if sentences == [] {
      NoParts();
    } else {
      var n := |sentences| - 1;
      var before, s := sentences[..n], sentences[n];
      assert s in sentences && forall x | x in before :: x in sentences;
      PackKeeps(before, target, limit);
      hide PackedTo;
      TakeNext(sentences, n);
      TakeAll(sentences);
      AddKeeps(Pack(before, target), before, s, target, Max(target, limit));
    }
  }

  lemma FlushKeeps(sentences: seq<string>, target: int, limit: nat)
    requires Sized(sentences, limit)
    ensures var units := Pack(sentences, target).Flushed();
      AllWords(units) == AllWords(sentences) && Sized(units, Max(target, limit)) && |units| <= |sentences|
  {
    hide Words, AllWords, Join, Pack;
    PackKeeps(sentences, target, limit);
    var p := Pack(sentences, target);
    BufferFlush(sentences, p.units, p.buf, " ");
    Neutral(AllWords(p.units + [Join(p.buf, " ")]));
    NoParts();
    Neutral(AllWords(p.units));
  }

  /** The units of a paragraph with words hold exactly these, within the bound. */
  lemma UnitsFromKeeps(p: string, target: int, limit: nat)
    requires Words(p) != [] && MaxWords(SentencesOf(p)) <= limit
    ensures var units := UnitsFrom(p, target);
      AllWords(units) == Words(p) && Sized(units, Max(target, limit)) && |units| <= PieceCount(p, target)
  {
    hide Words, AllWords, MaxWords, Stripped, Pack, Packing.Flushed;
    PartsKeepWords(p);
    NoParts();
    AllWordsOne(p);
    if |Words(p)| > target { FlushKeeps(SentencesOf(p), target, limit); }
  }

  lemma {:induction false} UnitsKeep(paragraphs: seq<string>, target: int, limit: nat)
    requires forall p | p in paragraphs :: Words(p) != [] && MaxWords(SentencesOf(p)) <= limit
    ensures var units := UnitsOf(paragraphs, target);
      AllWords(units) == AllWords(paragraphs) && Sized(units, Max(target, limit)) && |units| <= Pieces(paragraphs, target)
  {
    hide Words, AllWords, MaxWords, SentencesOf, UnitsFrom, PieceCount;
    if paragraphs != [] {
      var n := |paragraphs| - 1;
      var before, p := paragraphs[..n], paragraphs[n];
      assert p in paragraphs && forall x | x in before :: x in paragraphs;
      UnitsKeep(before, target, limit);
      UnitsFromKeeps(p, target, limit);
      TakeNext(paragraphs, n);
      TakeAll(paragraphs);
      AllWordsAppend(UnitsOf(before, target), UnitsFrom(p, target));
      AllWordsSnoc(before, p);
    }
  }

  /** The units of a text hold exactly its words; none is longer than the target or the longest sentence. */
  lemma TextUnits(text: string, target: int)
    ensures var paragraphs := ParagraphsOf(text);
      var units := UnitsOf(paragraphs, target); (
      && AllWords(units) == Words(text) && Sized(units, Max(target, LongestSentence(paragraphs)))
      && |units| <= Pieces(paragraphs, target))
  {
    hide Words, AllWords, MaxWords, SentencesOf, UnitsFrom, PieceCount, UnitsOf, Pieces, LongestSentence;
    PartsKeepWords(text);
    UnitsKeep(ParagraphsOf(text), target, LongestSentence(ParagraphsOf(text)));
  }

  /** The sentence-packing loop inside one oversized paragraph. */
  method PackSentences(sentences: seq<string>, target: int, ghost limit: nat) returns (units: seq<string>)
    requires Sized(sentences, limit)
    ensures units == Pack(sentences, target).Flushed()
    ensures AllWords(units) == AllWords(sentences)
    ensures Sized(units, Max(target, limit))
  {
    hide AllWords, Words, Join;
    units := [];
    var buf: seq<string>, bufWc := [], 0;
    NoParts();
    for i := 0 to |sentences|
      invariant Packing(units, buf) == Pack(sentences[..i], target) && bufWc == |AllWords(buf)|
    {
      var s := sentences[i];
      var swc := |Words(s)|;
      PackNext(sentences, i, target);
      AllWordsSnoc(buf, s);
      AllWordsOne(s);
      if buf != [] && bufWc + swc > target {
        units := units + [Join(buf, " ")];
        buf := [s];
        bufWc := swc;
      } else {
        buf := buf + [s];
        bufWc := bufWc + swc;
      }
    }
    TakeAll(sentences);
    FlushKeeps(sentences, target, limit);
    if buf != [] {
      units := units + [Join(buf, " ")];
    }
  }

  lemma PackNext(sentences: seq<string>, i: nat, target: int)
    requires i < |sentences|
    ensures Pack(sentences[..i + 1], target) == Pack(sentences[..i], target).Add(sentences[i], target)
  {
    assert sentences[..i + 1][..i] == sentences[..i];
  }

  /** Paragraphs that fit stay whole; the others become runs of sentences. */
  method BuildUnits(text: string, target: int) returns (units: seq<string>)
    ensures units == UnitsOf(ParagraphsOf(text), target)
    ensures AllWords(units) == Words(text)
    ensures Sized(units, Max(target, LongestSentence(ParagraphsOf(text))))
  {
    hide AllWords, Words, LongestSentence, MaxWords, Stripped, Pack, Packing.Flushed;
    var paragraphs := ParagraphsOf(text);
    ghost var limit := LongestSentence(paragraphs);
    units := [];
    for i := 0 to |paragraphs|
      invariant units == UnitsOf(paragraphs[..i], target)
    {
      var p := paragraphs[i];
      assert p in paragraphs;
      assert paragraphs[..i + 1][..i] == paragraphs[..i];
      if |Words(p)| <= target {
        units := units + [p];
      } else {
        var sentences := SentencesOf(p);
        if sentences == [] {
          units := units + [p];
        } else {
          var packed := PackSentences(sentences, target, limit);
          units := units + packed;
        }
      }
    }
    TakeAll(paragraphs);
    TextUnits(text, target);
  }

  // ----- windows -----

  /** Python `ws[-overlap:]` drops this many words: note that overlap 0 drops none. */
  function TailStart(overlap: int, n: nat): (k: nat)
    ensures k <= n && (overlap > 0 ==> n - k <= overlap)
  {
    if overlap > 0 then Max(0, n - overlap) else if -overlap < n then -overlap else n
  }

  /** The words the last chunk hands on to the next one. */
  ghost function Carried(chunks: seq<TextChunk>, overlap: int): seq<string> {
    if chunks == [] then []
    else
      var w := Words(chunks[|chunks| - 1].text);
      w[TailStart(overlap, |w|)..]
  }

  /** The words of the chunks, each chunk without as many words as were carried into it. */
  ghost function Reassembled(chunks: seq<TextChunk>, overlap: int): seq<string> {
    if chunks == [] then []
    else
      var prefix := chunks[..|chunks| - 1];
      var w, k := Words(chunks[|chunks| - 1].text), |Carried(prefix, overlap)|;
      Reassembled(prefix, overlap) + if k <= |w| then w[k..] else []
  }

  ghost predicate Stamped(chunks: seq<TextChunk>, sha1: string -> string) {
    forall i | 0 <= i < |chunks| ::
      chunks[i] == TextChunk(chunks[i].text, sha1(chunks[i].text), |Words(chunks[i].text)|, i)
  }

  /** Every chunk opens with the words carried into it and then adds at least one. */
  ghost predicate Overlapping(chunks: seq<TextChunk>, overlap: int) {
    forall i | 0 <= i < |chunks| :: Carried(chunks[..i], overlap) < Words(chunks[i].text)
  }

  ghost predicate Bounded(chunks: seq<TextChunk>, bound: int) {
    forall i | 0 <= i < |chunks| :: chunks[i].wordCount <= bound
  }

  /** The open window: what was carried into it, then the words not yet in any chunk. */
  ghost predicate Window(chunks: seq<TextChunk>, buf: seq<string>, done: seq<string>, overlap: int) {
    var w, carried := AllWords(buf), Carried(chunks, overlap);
    carried <= w && Reassembled(chunks, overlap) + w[|carried|..] == AllWords(done)
  }

  lemma WindowStart(overlap: int, sha1: string -> string)
    ensures Stamped([], sha1) && Overlapping([], overlap) && Window([], [], [], overlap)
    ensures Carried([], overlap) == [] && Reassembled([], overlap) == []
    ensures forall limit: int :: Bounded([], limit)
  {
  }

  lemma WindowPush(chunks: seq<TextChunk>, buf: seq<string>, done: seq<string>, overlap: int, u: string)
    requires Window(chunks, buf, done, overlap)
    ensures Window(chunks, buf + [u], done + [u], overlap)
    ensures |AllWords(buf + [u])| == |AllWords(buf)| + |Words(u)|
  {
    AllWordsSnoc(buf, u);
    AllWordsSnoc(done, u);
    Grow(Carried(chunks, overlap), AllWords(buf), Reassembled(chunks, overlap), AllWords(done), Words(u));
  }

  lemma Grow<T>(head: seq<T>, w: seq<T>, before: seq<T>, all: seq<T>, x: seq<T>)
    requires head <= w && before + w[|head|..] == all
    ensures head <= w + x && before + (w + x)[|head|..] == all + x
  {
    DropOfConcat(w, x, |head|);
    Assoc(before, w[|head|..], x);
  }

  /** Emitting the window keeps the promise and leaves its tail as the next window. */
  lemma WindowEmit(chunks: seq<TextChunk>, buf: seq<string>, done: seq<string>, overlap: int,
                   c: TextChunk, next: seq<string>)
    requires Window(chunks, buf, done, overlap) && Overlapping(chunks, overlap)
    requires Words(c.text) == AllWords(buf) && |Carried(chunks, overlap)| < |AllWords(buf)|
    requires AllWords(next) == Words(c.text)[TailStart(overlap, |Words(c.text)|)..]
    ensures Window(chunks + [c], next, done, overlap) && Overlapping(chunks + [c], overlap)
    ensures Reassembled(chunks + [c], overlap) == AllWords(done)
  {
    hide Words, AllWords, TailStart;
    var all := chunks + [c];
    OverlapSnoc(chunks, overlap, c);
    assert all[..|chunks|] == chunks && all[|chunks|] == c;
    assert AllWords(next) == Carried(all, overlap);
    assert Reassembled(all, overlap) == AllWords(done);
    var w: seq<string> := AllWords(next);
    assert w[|w|..] == [];
    Neutral(AllWords(done));
  }

  lemma OverlapSnoc(chunks: seq<TextChunk>, overlap: int, c: TextChunk)
    requires Overlapping(chunks, overlap) && Carried(chunks, overlap) < Words(c.text)
    ensures Overlapping(chunks + [c], overlap)
  {
    hide Carried, Words;
    var all := chunks + [c];
    assert all[..|chunks|] == chunks;
    forall i | 0 <= i < |all| ensures Carried(all[..i], overlap) < Words(all[i].text) {
      if i < |chunks| { assert all[..i] == chunks[..i]; }
    }
  }

  // ----- the chunking as a function -----

  /** The windowing in progress: the chunks emitted, and the open window. */
  datatype Windowing = Windowing(chunks: seq<TextChunk>, buf: seq<string>) {
    /** Emits the open window and slides: the tail words become the next window. */
    function Close(overlap: int, sha1: string -> string): Windowing {
      var joined := Join(buf, "\n\n");
      var tail := Words(joined)[TailStart(overlap, |Words(joined)|)..];
      Windowing(chunks + [TextChunk(joined, sha1(joined), |AllWords(buf)|, |chunks|)],
                if tail != [] then [Join(tail, " ")] else [])
    }

    function Add(u: string, target: int, overlap: int, sha1: string -> string): Windowing {
      var w := if buf != [] && |AllWords(buf)| + |Words(u)| > target then Close(overlap, sha1) else this;
      Windowing(w.chunks, w.buf + [u])
    }
  }

  function Slide(units: seq<string>, target: int, overlap: int, sha1: string -> string): Windowing {
    if units == [] then Windowing([], [])
    else Slide(units[..|units| - 1], target, overlap, sha1).Add(units[|units| - 1], target, overlap, sha1)
  }

  /** What `chunk_text` returns. */
  function ChunksOf(text: string, target: int, overlap: int, sha1: string -> string): seq<TextChunk> {
    if text == "" || Strip(text) == "" then []
    else
      var w := Slide(UnitsOf(ParagraphsOf(text), target), target, overlap, sha1);
      if w.buf != [] then w.Close(overlap, sha1).chunks else w.chunks
  }

  /** The size within which windows stay when units of `bound` words or less are added to tails: with overlap 1
      or more the tail adds to the bound, and below minus the bound there is no tail. */
  predicate Stays(overlap: int, bound: int, limit: int) {
    (overlap >= 1 && limit == overlap + bound) || (-overlap >= bound && limit == bound)
  }

  /** What holds of a windowing that has taken in the units `done`. */
  ghost predicate Slid(w: Windowing, done: seq<string>, overlap: int, sha1: string -> string) {
    && Stamped(w.chunks, sha1) && Overlapping(w.chunks, overlap) && Window(w.chunks, w.buf, done, overlap)
    && |w.chunks| + (if done == [] then 0 else 1) <= |done|
    && if done == [] then w == Windowing([], []) else |Carried(w.chunks, overlap)| < |AllWords(w.buf)|
  }

  ghost predicate Within(w: Windowing, limit: int) {
    Bounded(w.chunks, limit) && |AllWords(w.buf)| <= limit
  }

  /** Closing a window that has grown past its carried words. */
  lemma CloseKeeps(w: Windowing, done: seq<string>, overlap: int, sha1: string -> string)
    requires Stamped(w.chunks, sha1) && Overlapping(w.chunks, overlap) && Window(w.chunks, w.buf, done, overlap)
    requires |Carried(w.chunks, overlap)| < |AllWords(w.buf)|
    ensures var c := w.Close(overlap, sha1);
      && Stamped(c.chunks, sha1) && Overlapping(c.chunks, overlap) && Window(c.chunks, c.buf, done, overlap)
      && Reassembled(c.chunks, overlap) == AllWords(done)
      && |c.chunks| == |w.chunks| + 1 && |AllWords(c.buf)| == |Carried(c.chunks, overlap)|
      && AllWords(c.buf) == AllWords(w.buf)[TailStart(overlap, |AllWords(w.buf)|)..]
  {
    hide Words, AllWords, Overlapping, Reassembled, Window, TailStart;
    GapIsSpace();
    WordsOfJoin(w.buf, "\n\n");
    var joined := Join(w.buf, "\n\n");
    TailRejoins(joined, TailStart(overlap, |Words(joined)|));
    var c := w.Close(overlap, sha1);
    WindowEmit(w.chunks, w.buf, done, overlap, c.chunks[|w.chunks|], c.buf);
  }

  lemma CloseStays(w: Windowing, overlap: int, sha1: string -> string, bound: int, limit: int)
    requires Within(w, limit) && Stays(overlap, bound, limit) && w.buf != []
    requires AllWords(w.Close(overlap, sha1).buf) == AllWords(w.buf)[TailStart(overlap, |AllWords(w.buf)|)..]
    ensures Bounded(w.Close(overlap, sha1).chunks, limit)
    ensures |AllWords(w.Close(overlap, sha1).buf)| <= limit - bound
  {
    hide Words, AllWords, Join, TailStart, Windowing.Close, Bounded;
    CloseBounded(w, overlap, sha1, limit);
    TailSize(overlap, |AllWords(w.buf)|);
  }

  lemma CloseBounded(w: Windowing, overlap: int, sha1: string -> string, limit: int)
    requires Within(w, limit)
    ensures Bounded(w.Close(overlap, sha1).chunks, limit)
  {
    hide Words, AllWords, Join, TailStart;
  }

  lemma TailSize(overlap: int, n: nat)
    ensures overlap >= 1 ==> n - TailStart(overlap, n) <= overlap
    ensures -overlap >= n ==> n - TailStart(overlap, n) == 0
  {
  }

  /** Taking in one unit with a word. */
  lemma StepKeeps(w: Windowing, done: seq<string>, u: string, target: int, overlap: int, sha1: string -> string)
    requires Slid(w, done, overlap, sha1) && Words(u) != []
    ensures Slid(w.Add(u, target, overlap, sha1), done + [u], overlap, sha1)
  {
    hide Words, AllWords, Overlapping, Reassembled, Window, Stamped, Windowing.Close, Carried;
    if w.buf != [] && |AllWords(w.buf)| + |Words(u)| > target {
      NothingDone(w, done, overlap, sha1);
      CloseKeeps(w, done, overlap, sha1);
      var c := w.Close(overlap, sha1);
      WindowPush(c.chunks, c.buf, done, overlap, u);
    } else {
      WindowPush(w.chunks, w.buf, done, overlap, u);
      if done == [] { WindowStart(overlap, sha1); NoParts(); }
    }
  }

  lemma NothingDone(w: Windowing, done: seq<string>, overlap: int, sha1: string -> string)
    requires Slid(w, done, overlap, sha1) && w.buf != []
    ensures done != []
  {
  }

  lemma StepStays(w: Windowing, done: seq<string>, u: string, target: int, overlap: int, sha1: string -> string,
                  bound: int, limit: int)
    requires Slid(w, done, overlap, sha1) && Within(w, limit) && Stays(overlap, bound, limit)
    requires target <= bound && 0 < |Words(u)| <= bound
    ensures Within(w.Add(u, target, overlap, sha1), limit)
  {
    hide Words, AllWords, Overlapping, Reassembled, Window, Stamped, Windowing.Close, Carried, Bounded;
    AllWordsSnoc(w.buf, u);
    if w.buf != [] && |AllWords(w.buf)| + |Words(u)| > target {
      NothingDone(w, done, overlap, sha1);
      CloseKeeps(w, done, overlap, sha1);
      CloseStays(w, overlap, sha1, bound, limit);
      AllWordsSnoc(w.Close(overlap, sha1).buf, u);
    } else if w.buf == [] {
      NoParts();
    }
  }

  lemma {:induction false} SlideKeeps(units: seq<string>, target: int, overlap: int, sha1: string -> string, bound: int)
    requires Sized(units, bound) && target <= bound
    ensures Slid(Slide(units, target, overlap, sha1), units, overlap, sha1)
    ensures forall limit | Stays(overlap, bound, limit) && bound >= 0 :: Within(Slide(units, target, overlap, sha1), limit)
  {
    hide Words, AllWords, Windowing.Add, Stamped, Overlapping, Window, Carried, Bounded;
    if units == [] {
      WindowStart(overlap, sha1);
      NoParts();
    } else {
      hide Slid, Within;
      var n := |units| - 1;
      var before, u := units[..n], units[n];
      assert u in units && forall x | x in before :: x in units;
      SlideKeeps(before, target, overlap, sha1, bound);
      TakeNext(units, n);
      TakeAll(units);
      var w := Slide(before, target, overlap, sha1);
      StepKeeps(w, before, u, target, overlap, sha1);
      forall limit | Stays(overlap, bound, limit) && bound >= 0 ensures Within(Slide(units, target, overlap, sha1), limit) {
        StepStays(w, before, u, target, overlap, sha1, bound, limit);
      }
    }
  }

  /** The promise of the chunker: true stamps, the overlap chain, the words of the text, and a bound. */
  lemma ChunksKeep(text: string, target: int, overlap: int, sha1: string -> string)
    ensures var chunks, paragraphs := ChunksOf(text, target, overlap, sha1), ParagraphsOf(text);
      && Stamped(chunks, sha1) && Overlapping(chunks, overlap) && Reassembled(chunks, overlap) == Words(text)
      && |chunks| <= Pieces(paragraphs, target)
      && forall limit | Stays(overlap, Max(target, LongestSentence(paragraphs)), limit) :: Bounded(chunks, limit)
  {
    hide Words, AllWords, Pieces, LongestSentence, UnitsOf, ParagraphsOf, Slide, Windowing.Close, Stamped, Overlapping,
         Reassembled, Window, Carried, Bounded, Strip, Sized;
    NoWordsIffBlank(text);
    NoParts();
    WindowStart(overlap, sha1);
    if text != "" && Strip(text) != "" {
      var paragraphs := ParagraphsOf(text);
      var units, bound := UnitsOf(paragraphs, target), Max(target, LongestSentence(paragraphs));
      TextUnits(text, target);
      SlideKeeps(units, target, overlap, sha1, bound);
      var w := Slide(units, target, overlap, sha1);
      CloseKeeps(w, units, overlap, sha1);
      assert w.buf != [];
      forall limit | Stays(overlap, bound, limit) ensures Bounded(w.Close(overlap, sha1).chunks, limit) {
        CloseStays(w, overlap, sha1, bound, limit);
      }
    }
  }

  /** Emits the open window and slides. */
  method CloseWindow(chunks: seq<TextChunk>, buf: seq<string>, bufWc: nat, overlap: int, sha1: string -> string)
    returns (emitted: seq<TextChunk>, tail: seq<string>, tailWc: nat)
    requires bufWc == |AllWords(buf)|
    ensures Windowing(emitted, tail) == Windowing(chunks, buf).Close(overlap, sha1)
    ensures tailWc == |AllWords(tail)| && (overlap >= 1 ==> tailWc <= overlap) && (-overlap >= bufWc ==> tailWc == 0)
  {
    hide Words, AllWords;
    var joined := Join(buf, "\n\n");
    GapIsSpace();
    WordsOfJoin(buf, "\n\n");
    var c := TextChunk(joined, sha1(joined), bufWc, |chunks|);
    var tailWords := Words(joined)[TailStart(overlap, |Words(joined)|)..];
    TailRejoins(joined, TailStart(overlap, |Words(joined)|));
    tail, tailWc := if tailWords != [] then [Join(tailWords, " ")] else [], |tailWords|;
    emitted := chunks + [c];
  }

  /** `chunk_text`: every chunk is stamped with its true word count, hash and position; consecutive
      chunks overlap by exactly the carried tail; and dropping the overlaps gives the input back. */
  method ChunkText(text: string, target: int, overlap: int, sha1: string -> string)
    returns (chunks: seq<TextChunk>)
    ensures chunks == ChunksOf(text, target, overlap, sha1)
    ensures Stamped(chunks, sha1)
    ensures Overlapping(chunks, overlap)
    ensures Reassembled(chunks, overlap) == Words(text)
    ensures overlap >= 1 ==> Bounded(chunks, overlap + Max(target, LongestSentence(ParagraphsOf(text))))
    ensures -overlap >= Max(target, LongestSentence(ParagraphsOf(text)))
      ==> Bounded(chunks, Max(target, LongestSentence(ParagraphsOf(text))))
  {
    hide AllWords, Words, LongestSentence, Stripped, ParagraphsOf, Strip, UnitsOf, Windowing.Close, Pieces;
    hide Stamped, Overlapping, Reassembled, Bounded, Window, Carried;
    chunks := [];
    ChunksKeep(text, target, overlap, sha1);
    if text == "" || Strip(text) == "" { return; }
    var units := BuildUnits(text, target);
    var buf: seq<string>, bufWc := [], 0;
    NoParts();
    for i := 0 to |units|
      invariant Windowing(chunks, buf) == Slide(units[..i], target, overlap, sha1)
      invariant bufWc == |AllWords(buf)|
    {
      var u := units[i];
      var uwc := |Words(u)|;
      assert units[..i + 1][..i] == units[..i];
      if buf != [] && bufWc + uwc > target {
        chunks, buf, bufWc := CloseWindow(chunks, buf, bufWc, overlap, sha1);
      }
      AllWordsSnoc(buf, u);
      buf, bufWc := buf + [u], bufWc + uwc;
    }
    TakeAll(units);
    if buf != [] {
      chunks, buf, bufWc := CloseWindow(chunks, buf, bufWc, overlap, sha1);
    }
  }

  lemma GapIsSpace()
    ensures AllSpace("\n\n")
  {
  }

  /** Re-joining the tail of a text's words with blanks gives back just those words. */
  lemma TailRejoins(s: string, k: nat)
    requires k <= |Words(s)|
    ensures var tail := Words(s)[k..];
      Words(Join(tail, " ")) == tail && AllWords(if tail != [] then [Join(tail, " ")] else []) == tail
  {
    var tail := Words(s)[k..];
    WordsAreWords(s);
    WordsOfJoin(tail, " ");
    AllWordsOfWords(tail);
    AllWordsOne(Join(tail, " "));
  }

  predicate IsWord(w: string) { w != "" && forall i | 0 <= i < |w| :: !IsSpace(w[i]) }

  lemma {:induction false} WordsAreWords(s: string)
    ensures forall w | w in Words(s) :: IsWord(w)
  {
    if s != "" {
      if IsSpace(s[0]) { WordsAreWords(s[1..]); } else { WordsAreWords(s[WordLen(s)..]); }
    }
  }

  lemma {:induction false} AllWordsOfWords(ws: seq<string>)
    requires forall w | w in ws :: IsWord(w)
    ensures AllWords(ws) == ws
  {
    if ws != [] {
      var w := ws[0];
      assert w in ws;
      WordOfWord(w);
      AllWordsOfWords(ws[1..]);
      assert ws == [w] + ws[1..];
    }
  }

  lemma WordOfWord(w: string)
    requires IsWord(w)
    ensures Words(w) == [w]
  {
    assert WordLen(w) == |w|;
    assert w[..|w|] == w && w[|w|..] == "";
  }

  // ----- overlap zero and below -----

  /** With overlap 0 every chunk opens with all the words before it, so the last one holds them all. */
  lemma {:induction false} ZeroOverlapKeepsAll(chunks: seq<TextChunk>, i: nat)
    requires Overlapping(chunks, 0) && i < |chunks|
    ensures Words(chunks[i].text) == Reassembled(chunks[..i + 1], 0)
    ensures i > 0 ==> |Words(chunks[i - 1].text)| < |Words(chunks[i].text)|
  {
    hide Words;
    assert Carried(chunks[..i], 0) < Words(chunks[i].text);
    hide Reassembled, Carried, Overlapping;
    TakeNext(chunks, i);
    ReassembledSnoc(chunks[..i], chunks[i], 0);
    PrefixJoins(Carried(chunks[..i], 0), Words(chunks[i].text));
    CarriedWhole(chunks, i);
    if i > 0 { ZeroOverlapKeepsAll(chunks, i - 1); }
  }

  lemma ReassembledSnoc(prefix: seq<TextChunk>, c: TextChunk, overlap: int)
    requires |Carried(prefix, overlap)| <= |Words(c.text)|
    ensures Reassembled(prefix + [c], overlap)
         == Reassembled(prefix, overlap) + Words(c.text)[|Carried(prefix, overlap)|..]
  {
    hide Words, Carried;
    assert (prefix + [c])[..|prefix|] == prefix;
  }

  /** With overlap 0 the last chunk's words are carried whole. */
  lemma CarriedWhole(chunks: seq<TextChunk>, i: nat)
    requires i <= |chunks|
    ensures Carried(chunks[..i], 0) == if i == 0 then [] else Words(chunks[i - 1].text)
    ensures i == 0 ==> Reassembled(chunks[..i], 0) == []
  {
    hide Words;
    if i > 0 { TakeAll(Words(chunks[i - 1].text)); }
  }

  lemma PrefixJoins<T>(a: seq<T>, b: seq<T>)
    requires a < b
    ensures |a| < |b| && a + b[|a|..] == b
  {
  }

  lemma {:induction false} ZeroOverlapGrows(chunks: seq<TextChunk>, i: nat, j: nat)
    requires Overlapping(chunks, 0) && i <= j < |chunks|
    ensures |Words(chunks[i].text)| <= |Words(chunks[j].text)|
  {
    hide Words, Overlapping;
    if i < j {
      ZeroOverlapGrows(chunks, i, j - 1);
      ZeroOverlapKeepsAll(chunks, j);
    }
  }

  /** So with overlap 0 the chunks of a text stay within a bound iff the whole text does. */
  lemma ZeroOverlapBoundIff(text: string, chunks: seq<TextChunk>, sha1: string -> string, bound: int)
    requires Stamped(chunks, sha1) && Overlapping(chunks, 0) && Reassembled(chunks, 0) == Words(text) != []
    ensures Bounded(chunks, bound) <==> |Words(text)| <= bound
  {
    hide Words, Overlapping;
    var n := |chunks| - 1;
    assert chunks != [];
    ZeroOverlapKeepsAll(chunks, n);
    TakeAll(chunks);
    forall i | 0 <= i < |chunks| ensures chunks[i].wordCount <= chunks[n].wordCount {
      ZeroOverlapGrows(chunks, i, n);
    }
  }

  /** A negative overlap -m slices off each chunk's first m words only: the i-th chunk after the first still
      holds all but m * i of the words so far. */
  lemma {:induction false} NegativeOverlapKeeps(chunks: seq<TextChunk>, overlap: int, i: nat)
    requires overlap <= 0 && Overlapping(chunks, overlap) && i < |chunks|
    ensures |Words(chunks[i].text)| - overlap * i >= |Reassembled(chunks[..i + 1], overlap)|
  {
    hide Words, Reassembled, Carried, Overlapping;
    SizeNext(chunks, overlap, i);
    CarriedBelow(chunks, overlap, i);
    if i > 0 {
      NegativeOverlapKeeps(chunks, overlap, i - 1);
      assert overlap * i == overlap * (i - 1) + overlap;
    }
  }

  lemma SizeNext(chunks: seq<TextChunk>, overlap: int, i: nat)
    requires Overlapping(chunks, overlap) && i < |chunks|
    ensures |Reassembled(chunks[..i + 1], overlap)|
         == |Reassembled(chunks[..i], overlap)| + |Words(chunks[i].text)| - |Carried(chunks[..i], overlap)|
  {
    hide Words, Reassembled, Carried;
    PrefixJoins(Carried(chunks[..i], overlap), Words(chunks[i].text));
    TakeNext(chunks, i);
    ReassembledSnoc(chunks[..i], chunks[i], overlap);
  }

  lemma CarriedBelow(chunks: seq<TextChunk>, overlap: int, i: nat)
    requires overlap <= 0 && i <= |chunks|
    ensures i == 0 ==> Carried(chunks[..i], overlap) == [] && Reassembled(chunks[..i], overlap) == []
    ensures i > 0 ==> |Carried(chunks[..i], overlap)| >= |Words(chunks[i - 1].text)| + overlap
  {
    hide Words;
  }

  /** So with overlap -m the chunks of a text stay within a bound only if it has room for the whole text
      but m words for each piece of the text after the first. */
  lemma NegativeOverlapBound(text: string, target: int, overlap: int, sha1: string -> string, bound: int)
    requires overlap <= 0 && Words(text) != [] && Bounded(ChunksOf(text, target, overlap, sha1), bound)
    ensures |Words(text)| <= bound - overlap * (Pieces(ParagraphsOf(text), target) - 1)
  {
    var chunks, pieces := ChunksOf(text, target, overlap, sha1), Pieces(ParagraphsOf(text), target);
    ChunksKeep(text, target, overlap, sha1);
    hide Words, Overlapping, Pieces, ParagraphsOf, ChunksOf, LongestSentence, Reassembled, Carried, Stays;
    var n := |chunks| - 1;
    WindowStart(overlap, sha1);
    assert chunks != [];
    NegativeOverlapKeeps(chunks, overlap, n);
    TakeAll(chunks);
    assert chunks[n].wordCount <= bound;
    LessIsMore(overlap, n, pieces - 1);
  }

  lemma LessIsMore(m: int, a: int, b: int)
    requires m <= 0 && a <= b
    ensures m * b <= m * a
  {
  }

  // ----- exactly when chunks stay within a bound -----

  /** A row of `w` words, and `k` rows as paragraphs. */
  function Row(w: nat, word: string): string { if w <= 1 then word else word + " " + Row(w - 1, word) }
  function Rows(k: nat, row: string): string { if k <= 1 then row else row + ("\n\n" + Rows(k - 1, row)) }
  function Copies(k: nat, row: string): seq<string> { seq(k, _ => row) }

  /** One line of words without blanks around it. */
  predicate Tight(s: string) {
    s != "" && s[0] == 'a' && !IsSpace(s[|s| - 1]) && forall i | 0 <= i < |s| :: s[i] in ['a', '.', ' ']
  }

  lemma {:induction false} RowSpec(w: nat, word: string)
    requires w > 0 && (word == "a" || word == "a.")
    ensures Tight(Row(w, word)) && |Words(Row(w, word))| == w
  {
    hide Words, Tight;
    TightWord(word);
    if w > 1 {
      RowSpec(w - 1, word);
      TightNext(word, Row(w - 1, word));
      WordsAround(word, " ", Row(w - 1, word));
    }
  }

  lemma TightWord(word: string)
    requires word == "a" || word == "a."
    ensures Tight(word) && |Words(word)| == 1
  {
    WordOfWord(word);
  }

  lemma TightNext(word: string, tail: string)
    requires Tight(word) && Tight(tail)
    ensures Tight(word + " " + tail)
  {
  }

  lemma {:induction false} NoDots(w: nat)
    ensures '.' !in Row(w, "a")
  {
    if w > 1 { NoDots(w - 1); }
  }

  /** Nothing matches from `i` on up to `j`. */
  lemma {:induction false} SkipTo(sp: Splitter, s: string, start: nat, i: nat, j: nat)
    requires start <= i <= j <= |s| && forall k | i <= k < j :: sp.MatchLen(s, k) == 0
    ensures sp.Split(s, start, i) == sp.Split(s, start, j)
    decreases j - i
  {
    hide Splitter.MatchLen;
    if i < j { SkipTo(sp, s, start, i + 1, j); }
  }

  lemma TightIsStripped(s: string)
    requires Tight(s)
    ensures Strip(s) == s && Stripped([s]) == [s]
  {
    NothingToStrip(s);
    hide Strip, Words;
    assert [s][1..] == [];
  }

  lemma NothingToStrip(s: string)
    requires s != "" && !IsSpace(s[0]) && !IsSpace(s[|s| - 1])
    ensures Strip(s) == s
  {
    hide IsSpace;
    assert LStrip(s) == s;
    assert RStrip(s) == s;
  }

  lemma {:induction false} CopiesStripped(k: nat, row: string)
    requires Tight(row)
    ensures Stripped(Copies(k, row)) == Copies(k, row)
  {
    hide Words, Strip;
    TightIsStripped(row);
    if k > 0 {
      CopiesStripped(k - 1, row);
      CopiesNext(k, row);
    }
  }

  lemma CopiesNext(k: nat, row: string)
    requires k > 0
    ensures var rest := Copies(k - 1, row);
      Copies(k, row) == [row] + rest && Copies(k, row)[1..] == rest && Copies(k, row)[..k - 1] == rest
      && |Copies(k, row)| == k && Copies(k, row)[k - 1] == Copies(k, row)[0] == row
  {
  }

  // ----- rows of one sentence, and rows of sentences of one word -----

  lemma PlainRow(w: nat)
    requires w > 0
    ensures SentencesOf(Row(w, "a")) == [Row(w, "a")] && MaxWords(SentencesOf(Row(w, "a"))) == w
  {
    hide Words, Strip, Stripped;
    var s := Row(w, "a");
    RowSpec(w, "a");
    NoDots(w);
    SkipTo(Sentences, s, 0, 0, |s|);
    TakeAll(s);
    TightIsStripped(s);
  }

  /** Each "a." is split off at the blank after it. */
  lemma {:induction false} DotSplit(s: string, start: nat, w: nat)
    requires w > 0 && start <= |s| && s[start..] == Row(w, "a.") && (start > 0 ==> s[start - 1] == ' ')
    ensures Sentences.Split(s, start, start) == Copies(w, "a.")
    decreases w
  {
    hide Splitter.MatchLen, Row, Copies;
    RowNext(w, "a.");
    CopiesNext(w, "a.");
    if w == 1 {
      LastDot(s, start);
    } else {
      RowSpec(w - 1, "a.");
      FirstDot(s, start, Row(w - 1, "a."));
      DotSplit(s, start + 3, w - 1);
    }
  }

  lemma RowNext(w: nat, word: string)
    ensures Row(w, word) == if w <= 1 then word else word + " " + Row(w - 1, word)
    ensures Copies(0, word) == []
  {
  }

  lemma LastDot(s: string, start: nat)
    requires start <= |s| && s[start..] == "a." && (start > 0 ==> s[start - 1] == ' ')
    ensures Sentences.Split(s, start, start) == ["a."]
  {
    hide Splitter.MatchLen;
    assert |s| == start + 2 && s[start] == s[start..][0] && s[start + 1] == s[start..][1];
    NoSentenceBreak(s, start);
    SkipTo(Sentences, s, start, start, start + 2);
  }

  lemma FirstDot(s: string, start: nat, tail: string)
    requires start <= |s| && s[start..] == "a." + " " + tail && tail != "" && tail[0] == 'a'
    requires start > 0 ==> s[start - 1] == ' '
    ensures start + 3 <= |s| && s[start + 2] == ' ' && s[start + 3..] == tail
    ensures Sentences.Split(s, start, start) == ["a."] + Sentences.Split(s, start + 3, start + 3)
  {
    hide Splitter.MatchLen;
    DotThen(s, start, tail);
    NoSentenceBreak(s, start);
    SkipTo(Sentences, s, start, start, start + 2);
    SentenceBreakAt(s, start + 2);
  }

  lemma DotThen(s: string, start: nat, tail: string)
    requires start <= |s| && s[start..] == "a." + " " + tail && tail != ""
    ensures start + 3 < |s| && s[start] == 'a' && s[start + 1] == '.' && s[start + 2] == ' ' && s[start + 3] == tail[0]
    ensures s[start..start + 2] == "a." && s[start + 3..] == tail
  {
    var all := "a." + " " + tail;
    forall k | 0 <= k < |all| ensures s[start + k] == all[k] { assert s[start..][k] == all[k]; }
    assert s[start..start + 2] == "a.";
    assert s[start + 3..] == tail;
  }

  lemma NoSentenceBreak(s: string, start: nat)
    requires start + 1 < |s| && s[start] == 'a' && (start > 0 ==> s[start - 1] == ' ')
    ensures forall k | start <= k < start + 2 :: Sentences.MatchLen(s, k) == 0
  {
  }

  lemma SentenceBreakAt(s: string, i: nat)
    requires 0 < i && i + 1 < |s| && s[i - 1] == '.' && s[i] == ' ' && s[i + 1] == 'a'
    ensures Sentences.MatchLen(s, i) == 1
  {
    assert SpaceLen(s, i + 1) == 0;
  }

  lemma {:induction false} DotsAreShort(k: nat)
    ensures MaxWords(Copies(k, "a.")) <= 1
  {
    WordOfWord("a.");
    hide Words;
    if k > 0 {
      CopiesNext(k, "a.");
      DotsAreShort(k - 1);
    }
  }

  lemma DotRow(w: nat)
    requires w > 0
    ensures MaxWords(SentencesOf(Row(w, "a."))) <= 1
  {
    hide Words, Strip, Stripped;
    TakeAll(Row(w, "a."));
    DotSplit(Row(w, "a."), 0, w);
    assert Tight("a.");
    CopiesStripped(w, "a.");
    DotsAreShort(w);
  }

  // ----- rows as paragraphs -----

  /** Between two paragraphs the split finds the blank line, and takes just that. */
  lemma BreakAt(s: string, j: nat)
    requires j + 2 < |s| && s[j] == '\n' && s[j + 1] == '\n' && s[j + 2] == 'a'
    ensures Paragraphs.MatchLen(s, j) == 2
  {
    assert SpaceLen(s, j + 2) == 0;
    assert SpaceLen(s, j + 1) == 1;
  }

  /** The split takes off the first row and the blank line after it. */
  lemma FirstRow(s: string, start: nat, row: string, tail: string)
    requires start <= |s| && s[start..] == row + ("\n\n" + tail) && Tight(row) && tail != "" && tail[0] == 'a'
    ensures var next := start + |row| + 2;
      next <= |s| && s[next..] == tail && Paragraphs.Split(s, start, start) == [row] + Paragraphs.Split(s, next, next)
  {
    hide Splitter.MatchLen, Tight;
    var end := start + |row|;
    RowThen(s, start, row, tail);
    NoLineIn(s, start, end);
    SkipTo(Paragraphs, s, start, start, end);
    BreakAt(s, end);
  }

  lemma NoLineIn(s: string, i: nat, j: nat)
    requires i <= j <= |s| && forall k | i <= k < j :: s[k] != '\n'
    ensures forall k | i <= k < j :: Paragraphs.MatchLen(s, k) == 0
  {
  }

  lemma RowThen(s: string, start: nat, row: string, tail: string)
    requires start <= |s| && s[start..] == row + ("\n\n" + tail) && tail != "" && Tight(row)
    ensures var end := start + |row|;
      end + 2 < |s| && s[start..end] == row && s[end] == '\n' && s[end + 1] == '\n' && s[end + 2] == tail[0]
      && s[end + 2..] == tail && forall k | start <= k < end :: s[k] != '\n'
  {
    var all := row + ("\n\n" + tail);
    var end := start + |row|;
    assert |s| == start + |all|;
    forall k | 0 <= k < |all| ensures s[start + k] == all[k] { assert s[start..][k] == all[k]; }
    assert s[start..end] == row;
    assert s[end + 2..] == tail;
  }

  lemma {:induction false} RowsSplit(s: string, start: nat, k: nat, row: string)
    requires k > 0 && Tight(row) && start <= |s| && s[start..] == Rows(k, row)
    ensures Paragraphs.Split(s, start, start) == Copies(k, row)
    decreases k
  {
    hide Splitter.MatchLen;
    if k == 1 {
      assert forall i | start <= i < |s| :: s[i] == s[start..][i - start];
      NoLineIn(s, start, |s|);
      SkipTo(Paragraphs, s, start, start, |s|);
      assert Copies(1, row) == [row];
    } else {
      FirstRow(s, start, row, Rows(k - 1, row));
      RowsSplit(s, start + |row| + 2, k - 1, row);
      CopiesNext(k, row);
    }
  }

  /** A row of `w` words that is one piece, and whose sentences have at most `m` words. */
  ghost predicate OnePiece(row: string, w: nat, m: nat, target: int) {
    Tight(row) && |Words(row)| == w && PieceCount(row, target) == 1 && MaxWords(SentencesOf(row)) <= m
  }

  lemma {:induction false} CopiesSpec(k: nat, row: string, w: nat, m: nat, target: int)
    requires OnePiece(row, w, m, target)
    ensures LongestSentence(Copies(k, row)) <= m && Pieces(Copies(k, row), target) == k
    ensures |AllWords(Copies(k, row))| == k * w
  {
    hide Words, Strip, Stripped, AllWords, SentencesOf, MaxWords, PieceCount, Copies;
    if k > 0 {
      CopiesSpec(k - 1, row, w, m, target);
      CopiesNext(k, row);
      AllWordsCons(row, Copies(k - 1, row));
      OneFactorMore(k, w);
    } else {
      NoCopies(row);
    }
  }

  lemma NoCopies(row: string)
    ensures Copies(0, row) == [] && AllWords([]) == []
  {
  }

  lemma OneFactorMore(k: nat, m: nat)
    requires k > 0
    ensures k * m == (k - 1) * m + m
  {
  }

  /** Every text whose sentences have at most `m` words is cut into chunks of at most `bound` words. */
  ghost predicate AlwaysWithin(target: int, overlap: int, sha1: string -> string, m: nat, bound: int) {
    forall text: string :: LongestSentence(ParagraphsOf(text)) <= m ==> Bounded(ChunksOf(text, target, overlap, sha1), bound)
  }

  lemma RowsText(k: nat, row: string, w: nat, m: nat, target: int)
    requires k > 0 && OnePiece(row, w, m, target)
    ensures var text := Rows(k, row);
      |Words(text)| == k * w && Pieces(ParagraphsOf(text), target) == k && LongestSentence(ParagraphsOf(text)) <= m
  {
    hide Words, AllWords, LongestSentence, Pieces, Rows, PieceCount, SentencesOf, MaxWords, Tight;
    var text := Rows(k, row);
    TakeAll(text);
    RowsSplit(text, 0, k, row);
    CopiesStripped(k, row);
    CopiesSpec(k, row, w, m, target);
    PartsKeepWords(text);
  }

  /** `k` rows of `w` words break every bound below k * w + overlap * (k - 1). */
  lemma RowsBreak(target: int, overlap: int, sha1: string -> string, k: nat, row: string, w: nat, m: nat, bound: int)
    requires overlap <= 0 && k > 0 && w > 0 && k * w + overlap * (k - 1) > bound && OnePiece(row, w, m, target)
    ensures LongestSentence(ParagraphsOf(Rows(k, row))) <= m
    ensures !Bounded(ChunksOf(Rows(k, row), target, overlap, sha1), bound)
  {
    hide Words, Bounded, ChunksOf, LongestSentence, Pieces, Rows, OnePiece, ParagraphsOf;
    var text := Rows(k, row);
    RowsText(k, row, w, m, target);
    MoreIsMore(w, 1, k);
    NoParts();
    if Bounded(ChunksOf(text, target, overlap, sha1), bound) { NegativeOverlapBound(text, target, overlap, sha1, bound); }
  }

  lemma MoreIsMore(m: nat, a: int, b: int)
    requires a <= b
    ensures m * a <= m * b
  {
  }

  /** A row as long as a unit can be when sentences have at most `m` words. */
  lemma LongRow(target: int, m: nat) returns (row: string)
    requires m > 0
    ensures OnePiece(row, Max(target, m), m, target)
  {
    hide Words, Strip, SentencesOf, MaxWords, Tight;
    if m >= target {
      row := Row(m, "a");
      RowSpec(m, "a");
      PlainRow(m);
    } else {
      row := Row(target, "a.");
      RowSpec(target, "a.");
      DotRow(target);
    }
  }

  /** Over all texts with sentences of at most `m` words the chunks stay within one bound exactly when there are no
      words at all, when the overlap is positive, or when it is so far below zero that a window leaves no tail. */
  lemma BoundedIff(target: int, overlap: int, sha1: string -> string, m: nat)
    ensures (exists bound :: AlwaysWithin(target, overlap, sha1, m, bound))
        <==> m == 0 || overlap >= 1 || -overlap >= Max(target, m)
  {
    hide Words, Bounded, ChunksOf, LongestSentence, ParagraphsOf, Rows;
    var w := Max(target, m);
    if m == 0 || overlap >= 1 || -overlap >= w {
      var limit := if m == 0 then 0 else if overlap >= 1 then overlap + w else w;
      forall text: string | LongestSentence(ParagraphsOf(text)) <= m
        ensures Bounded(ChunksOf(text, target, overlap, sha1), limit)
      {
        if m == 0 { NoSentences(text, target, overlap, sha1); } else { TextWithin(text, target, overlap, sha1, m, limit); }
      }
      assert AlwaysWithin(target, overlap, sha1, m, limit);
    } else if bound :| AlwaysWithin(target, overlap, sha1, m, bound) {
      var row := LongRow(target, m);
      var k := Max(1, bound + 1);
      GrowsPast(k, w, overlap);
      RowsBreak(target, overlap, sha1, k, row, w, m, bound);
    }
  }

  lemma GrowsPast(k: nat, w: nat, overlap: int)
    requires 0 < k && 0 <= -overlap < w
    ensures k * w + overlap * (k - 1) >= k
  {
    assert k * w + overlap * (k - 1) == k * (w + overlap) - overlap;
    MoreIsMore(k, 1, w + overlap);
  }

  lemma TextWithin(text: string, target: int, overlap: int, sha1: string -> string, m: nat, limit: int)
    requires LongestSentence(ParagraphsOf(text)) <= m
    requires if overlap >= 1 then limit == overlap + Max(target, m) else -overlap >= Max(target, m) && limit == Max(target, m)
    ensures Bounded(ChunksOf(text, target, overlap, sha1), limit)
  {
    ChunksKeep(text, target, overlap, sha1);
    hide Words, ChunksOf, LongestSentence, ParagraphsOf;
    var bound := Max(target, LongestSentence(ParagraphsOf(text)));
    assert Stays(overlap, bound, if overlap >= 1 then overlap + bound else bound);
  }

  /** A text all of whose sentences are empty is blank. */
  lemma NoSentences(text: string, target: int, overlap: int, sha1: string -> string)
    requires LongestSentence(ParagraphsOf(text)) == 0
    ensures Bounded(ChunksOf(text, target, overlap, sha1), 0)
  {
    PartsKeepWords(text);
    NoWordsIffBlank(text);
    hide Words, Stripped, Strip, MaxWords;
    var paragraphs := ParagraphsOf(text);
    if paragraphs != [] {
      var p := paragraphs[0];
      assert p in paragraphs;
      PartsKeepWords(p);
    }
    NoParts();
  }
}
