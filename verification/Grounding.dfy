/** app/rag/citation.py: what it means that a citation is kept, in the words of the quote and of the chunk. */
module Grounding {
  import opened Wrappers
  import opened Text
  import opened Collections
  import opened CitationValidator
  import Chunker

  // ----- normalising is joining the words with blanks -----

  lemma {:induction false} NoBlankCollapses(w: string)
    requires forall i | 0 <= i < |w| :: !IsSpace(w[i])
    ensures Collapse(w) == w
  {
    if w != "" {
      NoBlankCollapses(w[1..]);
      assert w == [w[0]] + w[1..];
    }
  }

  lemma {:induction false} WordsLStrip(s: string)
    ensures Words(LStrip(s)) == Words(s)
  {
    if s != "" && IsSpace(s[0]) { WordsLStrip(s[1..]); }
  }

  lemma {:induction false} RStripConcat(a: string, b: string)
    requires RStrip(b) != ""
    ensures RStrip(a + b) == a + RStrip(b)
    decreases |b|
  {
    var n := |b| - 1;
    assert (a + b)[..|a| + n] == a + b[..n];
    if IsSpace(b[n]) { RStripConcat(a, b[..n]); }
  }

  lemma NothingBehind(w: string)
    requires w != "" && !IsSpace(w[|w| - 1])
    ensures RStrip(w) == w && RStrip(w + " ") == w
  {
    assert (w + " ")[..|w|] == w;
  }

  /** A text that begins with a word, cut after it. */
  lemma AfterWord(s: string)
    requires s != "" && !IsSpace(s[0])
    ensures var w, r := s[..WordLen(s)], s[WordLen(s)..];
      && w != "" && !IsSpace(w[|w| - 1]) && s == w + r && Words(s) == [w] + Words(r)
      && (r == "" || IsSpace(r[0])) && Collapse(s) == w + Collapse(r)
  {
    var n := WordLen(s);
    var w, r := s[..n], s[n..];
    assert s == w + r && n > 0;
    NoBlankCollapses(w);
    CollapseConcat(w, r);
  }

  /** Without leading blanks: collapsing and stripping the end joins the words with blanks. */
  lemma {:induction false} CanonFromWord(s: string)
    requires s != "" && !IsSpace(s[0])
    ensures RStrip(Collapse(s)) == Join(Words(s), " ") != ""
    decreases |s|
  {
    hide Words, WordLen, Collapse, RStrip, LStrip;
    AfterWord(s);
    var w, r := s[..WordLen(s)], s[WordLen(s)..];
    NothingBehind(w);
    if r == "" {
      EmptyParts(w);
    } else {
      var rest := LStrip(r[1..]);
      BlankHead(r);
      if rest == "" {
        EmptyParts(w);
      } else {
        CanonFromWord(rest);
        RStripConcat(w + " ", Collapse(rest));
        Assoc(w, " ", Collapse(rest));
        JoinCons(w, Words(rest));
      }
    }
  }

  lemma EmptyParts(w: string)
    ensures Collapse("") == "" && Words("") == [] && Join([w] + [], " ") == w && w + "" == w
  {
    assert [w] + [] == [w];
  }

  lemma BlankHead(r: string)
    requires r != "" && IsSpace(r[0])
    ensures Collapse(r) == " " + Collapse(LStrip(r[1..])) && Words(r) == Words(LStrip(r[1..]))
    ensures LStrip(r[1..]) == "" ==> Collapse(r) == " "
  {
    WordsLStrip(r[1..]);
  }

  lemma JoinCons(w: string, ws: seq<string>)
    requires Join(ws, " ") != ""
    ensures Join([w] + ws, " ") == w + " " + Join(ws, " ")
  {
    assert ([w] + ws)[1..] == ws;
  }

  /** A text on one line: its words with a blank between any two. */
  function OneLine(s: string): string { Join(Words(s), " ") }

  lemma StripIsOneLine(s: string)
    ensures Strip(Collapse(s)) == OneLine(s)
  {
    hide Words, RStrip, LStrip, Collapse, IsSpace, Join;
    NoWords();
    if s == "" {
      EmptyParts("");
      AllBlank("");
    } else if IsSpace(s[0]) {
      BlankHead(s);
      var rest := LStrip(s[1..]);
      if rest == "" {
        EmptyParts("");
        AllBlank(" ");
      } else {
        CanonFromWord(rest);
        CollapseStarts(rest);
        LStripBlank(Collapse(rest));
      }
    } else {
      CanonFromWord(s);
      CollapseStarts(s);
    }
  }

  lemma NoWords()
    ensures Join([], " ") == "" && AllSpace(" ") && AllSpace("")
  {
  }

  lemma AllBlank(s: string)
    requires AllSpace(s)
    ensures Strip(s) == ""
  {
    BlankStrip(s);
  }

  lemma LStripBlank(s: string)
    ensures s != "" && !IsSpace(s[0]) ==> LStrip(" " + s) == s
  {
    assert (" " + s)[1..] == s;
  }

  lemma CollapseStarts(s: string)
    requires s != "" && !IsSpace(s[0])
    ensures var c := Collapse(s); c != "" && c[0] == s[0] && LStrip(c) == c
  {
  }

  /** Lower-casing, each character for itself. */
  function Folded(s: string, fold: Fold): string { Concat(seq(|s|, i requires 0 <= i < |s| => fold(s[i]))) }

  lemma {:induction false} LowerIsFolded(s: string, fold: Fold)
    ensures Lower(s, fold) == Folded(s, fold)
  {
    var parts := seq(|s|, i requires 0 <= i < |s| => fold(s[i]));
    if s != "" {
      LowerIsFolded(s[1..], fold);
      assert parts[1..] == seq(|s[1..]|, i requires 0 <= i < |s[1..]| => fold(s[1..][i]));
    }
  }

  /** What normalising computes: the words of the text with single blanks between them, folded. */
  lemma NormalizeIsOneLine(s: string, fold: Fold)
    ensures Normalize(s, fold) == Folded(OneLine(s), fold)
  {
    StripIsOneLine(s);
    LowerIsFolded(OneLine(s), fold);
  }

  /** Without folding, normalising keeps exactly the words. */
  lemma NormalizeKeepsWords(s: string)
    ensures Words(Normalize(s, c => [c])) == Words(s) && Normalize(s, c => [c]) == OneLine(s)
  {
    hide Words;
    var same: Fold := c => [c];
    NormalizeIsOneLine(s, same);
    FoldNothing(OneLine(s));
    WordsAgain(s);
  }

  lemma WordsAgain(s: string)
    ensures Words(OneLine(s)) == Words(s)
  {
    hide Words;
    assert Words(s)[0..] == Words(s);
    Chunker.TailRejoins(s, 0);
  }

  lemma {:induction false} FoldNothing(s: string)
    ensures Folded(s, c => [c]) == s
  {
    var same: Fold := c => [c];
    FoldPointwise(s, same);
    assert forall i | 0 <= i < |s| :: same(s[i]) == [s[i]];
  }

  /** A fold that maps each character to one character. */
  ghost predicate OneToOne(fold: Fold) { forall c: char :: |fold(c)| == 1 }

  lemma {:induction false} FoldPointwise(s: string, fold: Fold)
    requires OneToOne(fold)
    ensures |Folded(s, fold)| == |s| && forall i | 0 <= i < |s| :: Folded(s, fold)[i] == fold(s[i])[0]
  {
    var parts := seq(|s|, i requires 0 <= i < |s| => fold(s[i]));
    if s != "" {
      FoldPointwise(s[1..], fold);
      assert parts[1..] == seq(|s[1..]|, i requires 0 <= i < |s[1..]| => fold(s[1..][i]));
      assert |parts[0]| == 1;
    }
  }

  // ----- texts equal up to the fold -----

  /** The same text up to the fold, blanks in the same places. */
  ghost predicate Alike(s: string, t: string, fold: Fold) {
    |s| == |t| && forall i | 0 <= i < |s| :: fold(s[i]) == fold(t[i]) && (IsSpace(s[i]) <==> IsSpace(t[i]))
  }

  lemma {:induction false} AlikeLStrip(s: string, t: string, fold: Fold)
    requires Alike(s, t, fold)
    ensures Alike(LStrip(s), LStrip(t), fold)
  {
    if s != "" && IsSpace(s[0]) { AlikeLStrip(s[1..], t[1..], fold); }
  }

  lemma {:induction false} AlikeRStrip(s: string, t: string, fold: Fold)
    requires Alike(s, t, fold)
    ensures Alike(RStrip(s), RStrip(t), fold)
  {
    if s != "" && IsSpace(s[|s| - 1]) { AlikeRStrip(s[..|s| - 1], t[..|t| - 1], fold); }
  }

  lemma {:induction false} AlikeCollapse(s: string, t: string, fold: Fold)
    requires Alike(s, t, fold)
    ensures Alike(Collapse(s), Collapse(t), fold)
    decreases |s|
  {
    hide Alike, LStrip, IsSpace;
    AlikeParts(s, t, fold);
    if s != "" {
      AlikeLStrip(s[1..], t[1..], fold);
      if IsSpace(s[0]) {
        AlikeCollapse(LStrip(s[1..]), LStrip(t[1..]), fold);
        AlikeCons(' ', ' ', Collapse(LStrip(s[1..])), Collapse(LStrip(t[1..])), fold);
      } else {
        AlikeCollapse(s[1..], t[1..], fold);
        AlikeCons(s[0], t[0], Collapse(s[1..]), Collapse(t[1..]), fold);
      }
    }
  }

  lemma AlikeParts(s: string, t: string, fold: Fold)
    requires Alike(s, t, fold)
    ensures |s| == |t| && (s == "" ==> Alike("", "", fold))
    ensures s != "" ==> Alike(s[1..], t[1..], fold) && fold(s[0]) == fold(t[0]) && (IsSpace(s[0]) <==> IsSpace(t[0]))
  {
  }

  lemma AlikeCons(x: char, y: char, s: string, t: string, fold: Fold)
    requires fold(x) == fold(y) && (IsSpace(x) <==> IsSpace(y)) && Alike(s, t, fold)
    ensures Alike([x] + s, [y] + t, fold)
  {
  }

  lemma {:induction false} AlikeLower(s: string, t: string, fold: Fold)
    requires Alike(s, t, fold)
    ensures Lower(s, fold) == Lower(t, fold)
  {
    if s != "" { AlikeLower(s[1..], t[1..], fold); }
  }

  /** Texts that differ in what the fold levels only, such as case, normalise alike. */
  lemma AlikeNormalize(s: string, t: string, fold: Fold)
    requires Alike(s, t, fold)
    ensures Normalize(s, fold) == Normalize(t, fold)
  {
    hide Collapse, LStrip, RStrip, Lower;
    AlikeCollapse(s, t, fold);
    AlikeLStrip(Collapse(s), Collapse(t), fold);
    AlikeRStrip(LStrip(Collapse(s)), LStrip(Collapse(t)), fold);
    AlikeLower(Strip(Collapse(s)), Strip(Collapse(t)), fold);
  }

  // ----- what is kept -----

  /** The chunk comes from what the citation names: its very url, or a standard with the named one in its name. */
  ghost predicate FromCited(c: Citation, k: Chunk) {
    || (c.url != "" && k.url == c.url)
    || (c.standard.Some? && c.standard.value != "" && k.standard.Some? && Contains(k.standard.value, c.standard.value))
  }

  /** The words of the quote stand one after another among the words of the chunk, up to the fold. */
  ghost predicate Quotes(k: Chunk, quote: string, fold: Fold) {
    Contains(Folded(OneLine(k.text), fold), Folded(OneLine(quote), fold))
  }

  lemma FindIff(s: string, p: string)
    ensures Find(s, p) != -1 <==> Contains(s, p)
  {
  }

  lemma SupportsIff(c: Citation, k: Chunk, fold: Fold)
    ensures Supports(c, k, fold) <==> FromCited(c, k) && Quotes(k, c.quote, fold)
  {
    hide Normalize, Folded, OneLine, Find, Contains;
    NormalizeIsOneLine(k.text, fold);
    NormalizeIsOneLine(c.quote, fold);
    FindIff(Normalize(k.text, fold), Normalize(c.quote, fold));
    if c.standard.Some? && k.standard.Some? { FindIff(k.standard.value, c.standard.value); }
  }

  /** A citation that names a source, quotes a word, and whose quote a retrieved chunk of that source holds. */
  ghost predicate Sound(raw: Raw, retrieved: seq<Chunk>, fold: Fold) {
    match AsCitation(raw)
    case None => false
    case Some(c) =>
      && Words(c.quote) != []
      && exists i :: 0 <= i < |retrieved| && FromCited(c, retrieved[i]) && Quotes(retrieved[i], c.quote, fold)
  }

  /** No objection is raised exactly to the sound citations. */
  lemma SoundIff(raw: Raw, retrieved: seq<Chunk>, fold: Fold)
    ensures Objection(raw, retrieved, fold).None? <==> Sound(raw, retrieved, fold)
  {
    hide Supports, Quotes, Words, Strip, Contains;
    if AsCitation(raw).Some? {
      var c := AsCitation(raw).value;
      NoWordsIffBlank(c.quote);
      if i :| 0 <= i < |retrieved| && Supports(c, retrieved[i], fold) { SupportsIff(c, retrieved[i], fold); }
      if i :| 0 <= i < |retrieved| && FromCited(c, retrieved[i]) && Quotes(retrieved[i], c.quote, fold) {
        SupportsIff(c, retrieved[i], fold);
      }
    }
  }

  /** `ix` lists the positions of the sound citations, in order. */
  ghost predicate SoundAt(raws: seq<Raw>, retrieved: seq<Chunk>, fold: Fold, ix: seq<nat>) {
    && Increasing(ix)
    && (forall k | 0 <= k < |ix| :: ix[k] < |raws| && Sound(raws[ix[k]], retrieved, fold))
    && forall i: nat | i < |raws| && Sound(raws[i], retrieved, fold) :: i in ix
  }

  /** The validator keeps exactly the sound citations, in the order given. */
  lemma {:induction false} KeptAreSound(raws: seq<Raw>, retrieved: seq<Chunk>, fold: Fold) returns (ix: seq<nat>)
    ensures SoundAt(raws, retrieved, fold, ix) && KeptAt(raws, retrieved, fold, ix)
  {
    hide SoundAt, KeptAt;
    if raws == [] {
      ix := [];
      NoneSound(retrieved, fold);
    } else {
      var before := KeptAreSound(raws[..|raws| - 1], retrieved, fold);
      ix := if Sound(raws[|raws| - 1], retrieved, fold) then before + [|raws| - 1] else before;
      SoundNext(raws, retrieved, fold, before);
      KeptNext(raws, retrieved, fold, before);
    }
  }

  /** What is kept are the citations at the positions `ix`. */
  ghost predicate KeptAt(raws: seq<Raw>, retrieved: seq<Chunk>, fold: Fold, ix: seq<nat>) {
    && |Kept(raws, retrieved, fold)| == |ix|
    && forall k | 0 <= k < |ix| :: ix[k] < |raws| && AsCitation(raws[ix[k]]) == Some(Kept(raws, retrieved, fold)[k])
  }

  lemma NoneSound(retrieved: seq<Chunk>, fold: Fold)
    ensures SoundAt([], retrieved, fold, []) && KeptAt([], retrieved, fold, [])
  {
  }

  lemma KeptNext(raws: seq<Raw>, retrieved: seq<Chunk>, fold: Fold, ix: seq<nat>)
    requires raws != [] && KeptAt(raws[..|raws| - 1], retrieved, fold, ix)
    ensures var n := |raws| - 1;
      KeptAt(raws, retrieved, fold, if Sound(raws[n], retrieved, fold) then ix + [n] else ix)
  {
    hide Sound, Objection, AsCitation;
    SoundIff(raws[|raws| - 1], retrieved, fold);
    OnlyCitations(raws[|raws| - 1], retrieved, fold);
  }

  lemma OnlyCitations(raw: Raw, retrieved: seq<Chunk>, fold: Fold)
    ensures Sound(raw, retrieved, fold) ==> AsCitation(raw).Some?
  {
  }

  lemma SoundNext(raws: seq<Raw>, retrieved: seq<Chunk>, fold: Fold, ix: seq<nat>)
    requires raws != [] && SoundAt(raws[..|raws| - 1], retrieved, fold, ix)
    ensures var n := |raws| - 1;
      SoundAt(raws, retrieved, fold, if Sound(raws[n], retrieved, fold) then ix + [n] else ix)
  {
    hide Sound;
    var n := |raws| - 1;
    assert forall i | 0 <= i < n :: raws[..n][i] == raws[i];
  }

  /** For a fold of single characters: the quote's words, on one line, stand in the chunk's at some place, each
      character up to the fold. */
  lemma QuoteStands(k: Chunk, quote: string, fold: Fold)
    requires OneToOne(fold)
    ensures Quotes(k, quote, fold) <==> exists j :: StandsAt(OneLine(k.text), OneLine(quote), j, fold)
  {
    hide OneLine, Folded;
    var t, q := OneLine(k.text), OneLine(quote);
    FoldPointwise(t, fold);
    FoldPointwise(q, fold);
    if j :| At(Folded(t, fold), Folded(q, fold), j) {
      AtChars(Folded(t, fold), Folded(q, fold), j);
      OneCharFolds(t, q, j, fold);
    }
    if j :| StandsAt(t, q, j, fold) {
      assert Folded(t, fold)[j..j + |q|] == Folded(q, fold);
      assert At(Folded(t, fold), Folded(q, fold), j);
    }
  }

  ghost predicate StandsAt(t: string, q: string, j: int, fold: Fold) {
    0 <= j && j + |q| <= |t| && forall x | 0 <= x < |q| :: fold(t[j + x]) == fold(q[x])
  }

  lemma OneCharFolds(t: string, q: string, j: nat, fold: Fold)
    requires OneToOne(fold) && j + |q| <= |t| && forall x | 0 <= x < |q| :: fold(t[j + x])[0] == fold(q[x])[0]
    ensures StandsAt(t, q, j, fold)
  {
  }

  /** Which objection is raised to which citation: the first that applies. */
  lemma ObjectionIs(raw: Raw, retrieved: seq<Chunk>, fold: Fold)
    ensures var o := Objection(raw, retrieved, fold);
      match AsCitation(raw)
      case None => raw.Malformed? && o == Some(NotADict)
      case Some(c) =>
        var nameless := c.url == "" && (c.standard == None || c.standard == Some(""));
        && (o == Some(NoSource) <==> nameless)
        && (o == Some(EmptyQuote) <==> !nameless && Words(c.quote) == [])
        && (o == Some(NotFound) <==> !nameless && Words(c.quote) != [] && !Sound(raw, retrieved, fold))
        && o != Some(NotADict)
  {
    hide Sound, Grounded, Strip, Words;
    SoundIff(raw, retrieved, fold);
    if AsCitation(raw).Some? { NoWordsIffBlank(AsCitation(raw).value.quote); }
  }

  /** What an entry with missing parts counts as. */
  lemma EntriesAre(s: Option<string>, p: Option<string>, u: Option<string>, q: Option<string>)
    ensures AsCitation(Entries(s, p, u, q)).Some?
    ensures var c := AsCitation(Entries(s, p, u, q)).value;
      c.standard == s && c.paragraph == p && (u == Some(c.url) || (u == None && c.url == ""))
      && (q == Some(c.quote) || (q == None && c.quote == ""))
  {
  }

  /** The reasons are those of the citations at the positions `ix`. */
  ghost predicate ReasonsAt(raws: seq<Raw>, retrieved: seq<Chunk>, fold: Fold, ix: seq<nat>) {
    && Increasing(ix) && |Dropped(raws, retrieved, fold)| == |ix|
    && forall k | 0 <= k < |ix| ::
      ix[k] < |raws| && Objection(raws[ix[k]], retrieved, fold) == Some(Dropped(raws, retrieved, fold)[k])
  }

  /** The reasons are those of the citations dropped, in order. */
  lemma {:induction false} ReasonsInOrder(raws: seq<Raw>, retrieved: seq<Chunk>, fold: Fold) returns (ix: seq<nat>)
    ensures ReasonsAt(raws, retrieved, fold, ix)
  {
    hide ReasonsAt, Objection, Dropped;
    if raws == [] {
      ix := [];
      NoReasons(retrieved, fold);
    } else {
      var n := |raws| - 1;
      var before := ReasonsInOrder(raws[..n], retrieved, fold);
      ix := if Objection(raws[n], retrieved, fold).Some? then before + [n] else before;
      NextReason(raws, retrieved, fold, before);
    }
  }

  lemma NoReasons(retrieved: seq<Chunk>, fold: Fold)
    ensures ReasonsAt([], retrieved, fold, [])
  {
  }

  lemma NextReason(raws: seq<Raw>, retrieved: seq<Chunk>, fold: Fold, ix: seq<nat>)
    requires raws != [] && ReasonsAt(raws[..|raws| - 1], retrieved, fold, ix)
    ensures var n := |raws| - 1;
      ReasonsAt(raws, retrieved, fold, if Objection(raws[n], retrieved, fold).Some? then ix + [n] else ix)
  {
    hide Objection;
    var n := |raws| - 1;
    assert forall i | 0 <= i < n :: raws[..n][i] == raws[i];
  }
}
