/** app/services/comparison_orchestrator.py: how the chunks of a corpus are read back by their ids. */
module CorpusReading {
  import opened Collections
  import opened Text
  import opened Corpus

  // ----- where each chunk stands -----

  /** The characters before the chunk after these. */
  function Start(spans: seq<Span>): nat { TotalChars(spans) + RefChars(spans) }

  lemma {:induction false} JoinSnoc(parts: seq<string>, x: string, sep: string)
    requires parts != []
    ensures Join(parts + [x], sep) == Join(parts, sep) + sep + x
  {
    if |parts| == 1 {
      assert (parts + [x])[1..] == [x];
    } else {
      var rest := parts[1..];
      assert (parts + [x])[1..] == rest + [x];
      JoinSnoc(rest, x, sep);
      Regroup(parts[0] + sep, Join(rest, sep), sep, x);
    }
  }

  lemma Regroup(a: string, b: string, c: string, d: string)
    ensures a + (b + c + d) == (a + b) + c + d
  {
  }

  lemma WrapAllSnoc(spans: seq<Span>, s: Span)
    ensures WrapAll(spans + [s]) == if spans == [] then Wrap(s) else WrapAll(spans) + "\n\n" + Wrap(s)
  {
    hide Wrap;
    assert WrapAll(spans + [s]) == Join(Wraps(spans + [s]), "\n\n") && WrapAll(spans) == Join(Wraps(spans), "\n\n");
    assert Wraps(spans + [s]) == Wraps(spans) + [Wrap(s)];
    if spans == [] { assert Wraps([s]) == [Wrap(s)]; } else { JoinSnoc(Wraps(spans), Wrap(s), "\n\n"); }
  }

  lemma {:induction false} ChunkStands(spans: seq<Span>, k: nat)
    requires k < |spans|
    ensures At(WrapAll(spans), Wrap(spans[k]), Start(spans[..k]))
  {
    hide Wrap, WrapAll, TotalChars, RefChars;
    var n := |spans| - 1;
    var before := spans[..n];
    TakeNext(spans, n);
    TakeAll(spans);
    WrapAllSnoc(before, spans[n]);
    if k < n {
      assert spans[..k] == before[..k];
      ChunkStands(before, k);
      Assoc(WrapAll(before), "\n\n", Wrap(spans[n]));
      AtInPrefix(WrapAll(before), "\n\n" + Wrap(spans[n]), Wrap(spans[k]), Start(spans[..k]));
    } else if before == [] {
      NothingBefore();
      assert At(Wrap(spans[n]), Wrap(spans[n]), 0);
    } else {
      CorpusSize(before);
      var head := WrapAll(before) + "\n\n";
      assert (head + Wrap(spans[n]))[|head|..|head| + |Wrap(spans[n])|] == Wrap(spans[n]);
    }
  }

  lemma NothingBefore()
    ensures Start([]) == 0
  {
  }

  // ----- reading an id -----

  const OPENING := "<chunk id=\""

  /** The reference of the chunk that begins at `i`: from its opening to the next quotation mark. */
  function IdAt(s: string, i: nat): string {
    var from := i + |OPENING|;
    var to := FindFrom(s, "\"", from);
    if from <= to <= |s| then s[from..to] else ""
  }

  /** The text of the chunk that begins at `i` and has the given length, behind its reference. */
  function TextAt(s: string, i: nat, length: nat): string {
    var from := i + |OPENING| + |IdAt(s, i)| + 3;
    if from + length <= |s| then s[from..from + length] else ""
  }

  ghost predicate QuoteFree(s: string) { forall i | 0 <= i < |s| :: s[i] != '"' }

  /** A wrapped span is its opening, the reference, a quotation mark, and then the text. */
  lemma WrapParts(c: Span)
    ensures var w, m, n := Wrap(c), |OPENING|, |c.ref|;
      |w| == m + n + 3 + |c.text| + 9 && w[m..m + n] == c.ref && w[m + n..m + n + 1] == "\""
      && w[m + n + 3..m + n + 3 + |c.text|] == c.text
  {
    assert Wrap(c) == OPENING + (c.ref + ("\">\n" + (c.text + "\n</chunk>")));
  }

  lemma SliceIn(s: string, w: string, i: nat, lo: nat, hi: nat)
    requires At(s, w, i) && lo <= hi <= |w|
    ensures i + |w| <= |s| && s[i + lo..i + hi] == w[lo..hi]
  {
    SliceOfSlice(s, i, i + |w|, lo, hi);
  }

  /** The parts of a span that is wrapped at `i`. */
  lemma PartsAt(s: string, c: Span, i: nat)
    requires At(s, Wrap(c), i)
    ensures var from, n := i + |OPENING|, |c.ref|;
      from + n + 3 + |c.text| <= |s| && s[from..from + n] == c.ref && s[from + n..from + n + 1] == "\""
      && s[from + n + 3..from + n + 3 + |c.text|] == c.text
  {
    hide Wrap, At;
    WrapParts(c);
    var w, m, n := Wrap(c), |OPENING|, |c.ref|;
    SliceIn(s, w, i, m, m + n);
    SliceIn(s, w, i, m + n, m + n + 1);
    SliceIn(s, w, i, m + n + 3, m + n + 3 + |c.text|);
  }

  lemma IdIsRead(s: string, c: Span, i: nat)
    requires At(s, Wrap(c), i) && QuoteFree(c.ref)
    ensures IdAt(s, i) == c.ref && TextAt(s, i, |c.text|) == c.text
  {
    hide Wrap, FindFrom, At, QuoteFree;
    PartsAt(s, c, i);
    FirstQuote(s, i + |OPENING|, c.ref);
  }

  lemma FirstQuote(s: string, from: nat, ref: string)
    requires from + |ref| < |s| && s[from..from + |ref|] == ref && QuoteFree(ref) && s[from + |ref|..from + |ref| + 1] == "\""
    ensures FindFrom(s, "\"", from) == from + |ref|
  {
    var e := from + |ref|;
    forall i | from <= i < e ensures !At(s, "\"", i) {
      assert s[i] == ref[i - from];
      assert s[i..i + 1][0] == s[i];
    }
    assert At(s, "\"", e);
  }

  // ----- what a corpus says -----

  /** The chunks a whole or sampled corpus shows. */
  function Shown(spans: seq<Span>): seq<Span> {
    var all := CappedAll(NonBlank(spans));
    if all == [] || |WrapAll(all)| <= MAX_CORPUS_CHARS then all
    else
      var t := TargetCount(all);
      if t >= |all| then [] else Pick(all, Ascending(PointSet(|all|, t), |all|))
  }

  /** The same reference and text, or the beginning of a longer text and a mark. */
  predicate Shortens(c: Span, s: Span) {
    c.ref == s.ref && if |s.text| <= MAX_SPAN_CHARS then c.text == s.text else s.text[..MAX_SPAN_CHARS] <= c.text
  }

  /** A chunk shown is one given, under its own id, with its text up to the limit. */
  lemma ShownAreGiven(spans: seq<Span>, c: Span)
    requires c in Shown(spans)
    ensures exists s :: s in spans && Strip(s.text) != "" && Shortens(c, s)
  {
    hide Strip, WrapAll, PointSet, TotalChars, NonBlank, Ascending;
    var kept := NonBlank(spans);
    var all := CappedAll(kept);
    if all != [] && |WrapAll(all)| > MAX_CORPUS_CHARS {
      AscendingSpec(PointSet(|all|, TargetCount(all)), |all|);
      PickedAre(all, Ascending(PointSet(|all|, TargetCount(all)), |all|));
    }
    var i :| 0 <= i < |all| && all[i] == c;
    assert kept[i] in kept;
    KeptAreSpans(spans, kept[i]);
  }

  lemma {:induction false} KeptAreSpans(spans: seq<Span>, s: Span)
    requires s in NonBlank(spans)
    ensures s in spans && Strip(s.text) != ""
  {
    hide Strip;
    if Strip(spans[0].text) == "" || s != spans[0] { KeptAreSpans(spans[1..], s); }
  }

  /** Every chunk of a whole or sampled corpus can be found and read back under its own reference. */
  lemma IdsReadBack(spans: seq<Span>, k: nat)
    requires k < |Shown(spans)| && QuoteFree(Shown(spans)[k].ref)
    ensures var b, c, i := BuildCorpus(spans), Shown(spans)[k], Start(Shown(spans)[..k]);
      (b.Whole? || b.Sample?) && IdAt(b.text, i) == c.ref && TextAt(b.text, i, |c.text|) == c.text
  {
    hide NonBlank, Capped, WrapAll, TotalChars, RefChars, PointSet, Ascending, Pick, Wrap, IdAt, TextAt;
    ChunkStands(Shown(spans), k);
    IdIsRead(WrapAll(Shown(spans)), Shown(spans)[k], Start(Shown(spans)[..k]));
  }
}
