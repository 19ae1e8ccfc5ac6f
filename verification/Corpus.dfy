/** app/services/comparison_orchestrator.py: `_build_corpus` and its evenly spaced sample. */
module Corpus {
  import opened Collections
  import opened Text

  datatype Span = Span(ref: string, text: string)

  /** The prompt corpus: nothing, everything, everything cut off, or a sample of the chunks. */
  datatype Built = Empty | Whole(text: string) | CutOff(text: string) | Sample(text: string, shown: nat, total: nat)

  const MAX_SPAN_CHARS := 800
  const MAX_CORPUS_CHARS := 24_000

  function NonBlank(spans: seq<Span>): seq<Span> {
    if spans == [] then []
    else (if Strip(spans[0].text) == "" then [] else [spans[0]]) + NonBlank(spans[1..])
  }

  function Capped(s: Span): Span {
    if |s.text| > MAX_SPAN_CHARS then Span(s.ref, s.text[..MAX_SPAN_CHARS] + "…[truncated]") else s
  }

  function Wrap(s: Span): string { "<chunk id=\"" + s.ref + "\">\n" + s.text + "\n</chunk>" }

  function WrapAll(spans: seq<Span>): string {
    Join(seq(|spans|, i requires 0 <= i < |spans| => Wrap(spans[i])), "\n\n")
  }

  function TotalChars(spans: seq<Span>): nat {
    if spans == [] then 0 else TotalChars(spans[..|spans| - 1]) + |spans[|spans| - 1].text| + 25
  }

  /** `int(i * step)` with the exact step n / t. */
  function Point(n: nat, t: nat, i: nat): nat
    requires t > 0
  {
    i * n / t
  }

  /** The sampled positions as a set: the points, the first and the last. */
  function PointSet(n: nat, t: nat): set<int>
    requires t > 0
  {
    (set i | 0 <= i < t :: Point(n, t, i)) + {0, n - 1}
  }

  /** The elements of `s` from 0 up to but not including `n`, ascending. */
  function Ascending(s: set<int>, n: nat): seq<nat> {
    if n == 0 then [] else Ascending(s, n - 1) + if n - 1 in s then [n - 1] else []
  }

  function BuildCorpus(spans: seq<Span>): Built {
    var nonEmpty := NonBlank(spans);
    var n := |nonEmpty|;
    if n == 0 then Empty
    else
      var capped := CappedAll(nonEmpty);
      var full := WrapAll(capped);
      if |full| <= MAX_CORPUS_CHARS then Whole(full)
      else
        var target := TargetCount(capped);
        if target >= n then CutOff(full[..MAX_CORPUS_CHARS])
        else
          var idxs := Ascending(PointSet(n, target), n);
          Sample(WrapAll(Pick(capped, idxs)), |idxs|, n)
  }

  function CappedAll(spans: seq<Span>): seq<Span> {
    seq(|spans|, i requires 0 <= i < |spans| => Capped(spans[i]))
  }

  /** The spans at some positions; a position past the end is skipped. */
  function Pick(spans: seq<Span>, idxs: seq<nat>): seq<Span> {
    if idxs == [] then []
    else
      var last := idxs[|idxs| - 1];
      Pick(spans, idxs[..|idxs| - 1]) + if last < |spans| then [spans[last]] else []
  }

  /** How many spans the budget holds, by their average size. */
  function TargetCount(capped: seq<Span>): (t: nat)
    requires capped != []
    ensures t >= 1
  {
    Max(1, MAX_CORPUS_CHARS / Max(1, TotalChars(capped) / |capped|))
  }

  lemma {:induction false} AscendingSpec(s: set<int>, n: nat)
    ensures forall k | 0 <= k < |Ascending(s, n)| :: Ascending(s, n)[k] < n && Ascending(s, n)[k] in s
    ensures forall j, k | 0 <= j < k < |Ascending(s, n)| :: Ascending(s, n)[j] < Ascending(s, n)[k]
    ensures forall x | x in s && 0 <= x < n :: x in Ascending(s, n)
  {
    if n > 0 { AscendingSpec(s, n - 1); }
  }

  // ----- the sample is even -----

  /** Points advance by at least one and at most ceil(n / t). */
  lemma PointStep(n: nat, t: nat, i: nat)
    requires 0 < t < n
    ensures Point(n, t, i) < Point(n, t, i + 1) <= Point(n, t, i) + CeilDiv(n, t)
  {
    var q, r, c := i * n / t, i * n % t, CeilDiv(n, t);
    assert (i + 1) * n == i * n + n;
    assert i * n == q * t + r;
    CeilBounds(n, t);
    assert (q + 1) * t == q * t + t;
    assert (q + c) * t == q * t + c * t;
    DivAtLeast((i + 1) * n, t, q + 1);
    DivAtMost((i + 1) * n, t, q + c);
  }

  function CeilDiv(n: nat, t: nat): nat
    requires t > 0
  {
    (n + t - 1) / t
  }

  lemma CeilBounds(n: nat, t: nat)
    requires t > 0
    ensures n <= CeilDiv(n, t) * t < n + t
  {
    var x := n + t - 1;
    assert x == x / t * t + x % t;
  }

  lemma MulLe(a: int, b: int, t: nat)
    requires a <= b
    ensures a * t <= b * t
  {
  }

  lemma DivAtLeast(x: nat, t: nat, q: nat)
    requires t > 0 && q * t <= x
    ensures q <= x / t
  {
    assert x == x / t * t + x % t;
    if x / t < q { MulLe(x / t + 1, q, t); }
  }

  lemma DivAtMost(x: nat, t: nat, q: nat)
    requires t > 0 && x < (q + 1) * t
    ensures x / t <= q
  {
    assert x == x / t * t + x % t;
    if x / t > q { MulLe(q + 1, x / t, t); }
  }

  /** The last point stays short of the last position, by less than one step. */
  lemma LastPoint(n: nat, t: nat)
    requires 0 < t < n
    ensures Point(n, t, t - 1) < n - 1 < Point(n, t, t - 1) + CeilDiv(n, t)
  {
    var x, c := (t - 1) * n, CeilDiv(n, t);
    CeilBounds(n, t);
    assert x == t * n - n;
    assert (n - 1) * t == t * n - t;
    DivAtMost(x, t, n - 2);
    assert (n - c) * t == t * n - c * t;
    if c <= n {
      DivAtLeast(x, t, n - c);
    }
  }

  /** The sampled positions, written out: the points and then the last position. */
  function Sampled(n: nat, t: nat): seq<nat>
    requires 0 < t < n
  {
    seq(t, i requires 0 <= i < t => Point(n, t, i)) + [n - 1]
  }

  lemma {:induction false} PointsIncrease(n: nat, t: nat, i: nat, j: nat)
    requires 0 < t < n && i < j
    ensures Point(n, t, i) < Point(n, t, j)
  {
    PointStep(n, t, j - 1);
    if i < j - 1 { PointsIncrease(n, t, i, j - 1); }
  }

  lemma SampledIncreases(n: nat, t: nat)
    requires 0 < t < n
    ensures forall j, k | 0 <= j < k <= t :: Sampled(n, t)[j] < Sampled(n, t)[k]
  {
    hide Point;
    forall j, k | 0 <= j < k <= t ensures Sampled(n, t)[j] < Sampled(n, t)[k] {
      LastPoint(n, t);
      if k < t { PointsIncrease(n, t, j, k); }
      else if j < t - 1 { PointsIncrease(n, t, j, t - 1); }
    }
  }

  /** Two ascending lists of the same numbers are the same list. */
  lemma {:induction false} AscendingUnique(a: seq<nat>, b: seq<nat>)
    requires forall j, k | 0 <= j < k < |a| :: a[j] < a[k]
    requires forall j, k | 0 <= j < k < |b| :: b[j] < b[k]
    requires forall x :: x in a <==> x in b
    ensures a == b
  {
    assert b != [] ==> b[0] in b;
    if a != [] {
      var m, n := |a| - 1, |b| - 1;
      assert a[m] in b && b[n] in a;
      assert a[m] == b[n];
      var a1, b1 := a[..m], b[..n];
      forall x ensures x in a1 <==> x in b1 {
        assert x in a <==> x in a1 || x == a[m];
        assert x in b <==> x in b1 || x == b[n];
      }
      AscendingUnique(a1, b1);
    }
  }

  /** `t + 1` positions below `n`: strictly increasing from 0 to n - 1, at most ceil(n / t) apart. */
  predicate EvenSample(idxs: seq<nat>, n: nat, t: nat) {
    && |idxs| == t + 1 && 0 < t < n && idxs[0] == 0 && idxs[t] == n - 1
    && forall k | 0 <= k < t :: idxs[k] < idxs[k + 1] <= idxs[k] + CeilDiv(n, t)
  }

  /** When t < n chunks fit, the sampled positions are the t points and the last position: strictly
      increasing, from 0 to n - 1, exactly t + 1 of them, at most ceil(n / t) apart. */
  lemma SampleIsEven(n: nat, t: nat)
    requires 0 < t < n
    ensures EvenSample(Ascending(PointSet(n, t), n), n, t)
  {
    var s := Sampled(n, t);
    SampledIncreases(n, t);
    AscendingSpec(PointSet(n, t), n);
    SampledIsPointSet(n, t);
    AscendingUnique(s, Ascending(PointSet(n, t), n));
    LastPoint(n, t);
    forall k | 0 <= k < t ensures s[k] < s[k + 1] <= s[k] + CeilDiv(n, t) {
      PointStep(n, t, k);
    }
  }

  lemma SampledIsPointSet(n: nat, t: nat)
    requires 0 < t < n
    ensures Point(n, t, 0) == 0
    ensures forall x :: x in Sampled(n, t) <==> x in Ascending(PointSet(n, t), n)
  {
    assert 0 * n / t == 0;
    hide Point;
    AscendingSpec(PointSet(n, t), n);
    SampledIncreases(n, t);
    var s := Sampled(n, t);
    forall x ensures x in s <==> x in PointSet(n, t) && 0 <= x < n {
      if x in s {
        var k :| 0 <= k < |s| && s[k] == x;
        if k < t { assert s[k] < s[t]; }
      }
      if x in PointSet(n, t) && 0 <= x < n {
        if x == n - 1 { assert s[t] == x; }
        else if x == 0 { assert s[0] == x; }
        else { var i :| 0 <= i < t && Point(n, t, i) == x; assert s[i] == x; }
      }
    }
  }

  /** What the corpus shows of the non-blank chunks, each cut to its limit: all of them when they fit; else
      the beginning of all of them when even their average number would fit; else a sample. */
  lemma CorpusShows(spans: seq<Span>)
    ensures var kept := NonBlank(spans); var all := CappedAll(kept); (
      match BuildCorpus(spans)
      case Empty => kept == []
      case Whole(text) => kept != [] && text == WrapAll(all) && |text| <= MAX_CORPUS_CHARS
      case CutOff(text) =>
        |text| == MAX_CORPUS_CHARS < |WrapAll(all)| && text <= WrapAll(all) && TargetCount(all) >= |kept|
      case Sample(text, shown, total) =>
        && total == |kept| && |WrapAll(all)| > MAX_CORPUS_CHARS && shown == TargetCount(all) + 1 <= |kept|
        && exists idxs: seq<nat> :: EvenSample(idxs, |kept|, shown - 1) && text == WrapAll(Pick(all, idxs)))
  {
    hide NonBlank, Capped, WrapAll, TotalChars, PointSet, Ascending;
    var n := |NonBlank(spans)|;
    if n > 0 {
      var t := TargetCount(CappedAll(NonBlank(spans)));
      if t < n { SampleIsEven(n, t); }
    }
  }

  /** A sampled corpus says truthfully how many of the chunks it shows, and shows at least two. */
  lemma SampleCount(spans: seq<Span>)
    ensures var b := BuildCorpus(spans);
      b.Sample? ==> b.total == |NonBlank(spans)| && 2 <= b.shown <= b.total
  {
    hide NonBlank, Capped, WrapAll, TotalChars, PointSet, Ascending;
    var n := |NonBlank(spans)|;
    if n > 0 {
      var t := TargetCount(CappedAll(NonBlank(spans)));
      if t < n { SampleIsEven(n, t); }
    }
  }

  // ----- how long the corpus is -----

  function RefChars(spans: seq<Span>): nat {
    if spans == [] then 0 else RefChars(spans[..|spans| - 1]) + |spans[|spans| - 1].ref|
  }

  function Wraps(spans: seq<Span>): seq<string> { seq(|spans|, i requires 0 <= i < |spans| => Wrap(spans[i])) }

  lemma {:induction false} JoinSnocSize(parts: seq<string>, x: string, sep: string)
    requires parts != []
    ensures |Join(parts + [x], sep)| == |Join(parts, sep)| + |sep| + |x|
  {
    if |parts| == 1 {
      assert (parts + [x])[1..] == [x];
    } else {
      assert (parts + [x])[1..] == parts[1..] + [x];
      JoinSnocSize(parts[1..], x, sep);
    }
  }

  /** The 25 characters counted for each chunk are its markup and separator: only the references are missed. */
  lemma {:induction false} CorpusSize(spans: seq<Span>)
    requires spans != []
    ensures |WrapAll(spans)| + 2 == TotalChars(spans) + RefChars(spans)
  {
    var n := |spans| - 1;
    var before := spans[..n];
    assert WrapAll(spans) == Join(Wraps(spans), "\n\n") && WrapAll(before) == Join(Wraps(before), "\n\n");
    assert Wraps(spans) == Wraps(before) + [Wrap(spans[n])];
    if n > 0 {
      CorpusSize(before);
      JoinSnocSize(Wraps(before), Wrap(spans[n]), "\n\n");
    }
  }

  /** The size of a corpus whose chunks all have at most `size` characters of text and `refs` of reference. */
  lemma {:induction false} SizeAtMost(spans: seq<Span>, size: nat, refs: nat)
    requires forall s | s in spans :: |s.text| <= size && |s.ref| <= refs
    ensures TotalChars(spans) + RefChars(spans) <= |spans| * (size + refs + 25)
  {
    if spans != [] {
      var n := |spans| - 1;
      SizeAtMost(spans[..n], size, refs);
      assert spans[n] in spans;
      assert |spans| * (size + refs + 25) == n * (size + refs + 25) + (size + refs + 25);
    }
  }

  lemma {:induction false} PickedAre(spans: seq<Span>, idxs: seq<nat>)
    requires forall i | i in idxs :: i < |spans|
    ensures |Pick(spans, idxs)| == |idxs| && forall s | s in Pick(spans, idxs) :: s in spans
  {
    if idxs != [] {
      var n := |idxs| - 1;
      assert idxs[n] in idxs && forall i | i in idxs[..n] :: i in idxs;
      PickedAre(spans, idxs[..n]);
    }
  }

  lemma {:induction false} KeptAreGiven(spans: seq<Span>)
    ensures forall s | s in NonBlank(spans) :: s in spans
  {
    if spans != [] { KeptAreGiven(spans[1..]); }
  }

  const MAX_CAPPED_CHARS := MAX_SPAN_CHARS + 12

  /** A sample is bounded by its count only: each chunk shown may be a full one. */
  lemma SampleSize(spans: seq<Span>, refs: nat)
    requires forall s | s in spans :: |s.ref| <= refs
    ensures var b := BuildCorpus(spans); b.Sample? ==> |b.text| + 2 <= b.shown * (MAX_CAPPED_CHARS + refs + 25)
  {
    hide NonBlank, Capped, WrapAll, TotalChars, PointSet, Ascending, Pick, Wraps, CappedAll;
    var n := |NonBlank(spans)|;
    CappedSize(spans, refs);
    if BuildCorpus(spans).Sample? {
      var t := TargetCount(CappedAll(NonBlank(spans)));
      SampleIsEven(n, t);
      AscendingSpec(PointSet(n, t), n);
      PickedAtMost(CappedAll(NonBlank(spans)), Ascending(PointSet(n, t), n), MAX_CAPPED_CHARS, refs);
    }
  }

  lemma CappedSize(spans: seq<Span>, refs: nat)
    requires forall s | s in spans :: |s.ref| <= refs
    ensures |CappedAll(NonBlank(spans))| == |NonBlank(spans)|
    ensures forall s | s in CappedAll(NonBlank(spans)) :: |s.text| <= MAX_CAPPED_CHARS && |s.ref| <= refs
  {
    hide NonBlank;
    var kept := NonBlank(spans);
    KeptAreGiven(spans);
    forall s | s in CappedAll(kept) ensures |s.text| <= MAX_CAPPED_CHARS && |s.ref| <= refs {
      var i :| 0 <= i < |kept| && CappedAll(kept)[i] == s;
      assert kept[i] in kept;
    }
  }

  lemma PickedAtMost(all: seq<Span>, idxs: seq<nat>, size: nat, refs: nat)
    requires idxs != [] && forall i | i in idxs :: i < |all|
    requires forall s | s in all :: |s.text| <= size && |s.ref| <= refs
    ensures |WrapAll(Pick(all, idxs))| + 2 <= |idxs| * (size + refs + 25)
  {
    hide WrapAll, Pick, TotalChars, RefChars;
    PickedAre(all, idxs);
    CorpusSize(Pick(all, idxs));
    SizeAtMost(Pick(all, idxs), size, refs);
  }

  // ----- a sample that bursts the budget -----

  function Xs(n: nat): string { seq(n, _ => 'x') }

  /** A thousand chunks: full ones at the positions that get sampled, one character at the others. */
  function Skewed(): seq<Span> {
    seq(1000, i requires 0 <= i < 1000 => Span("", if i in PointSet(1000, 156) then Xs(801) else "x"))
  }

  lemma {:induction false} AllKept(spans: seq<Span>)
    requires forall s | s in spans :: Strip(s.text) != ""
    ensures NonBlank(spans) == spans
  {
    hide Strip;
    if spans != [] {
      assert spans[0] in spans;
      AllKept(spans[1..]);
      assert spans == [spans[0]] + spans[1..];
    }
  }

  lemma XsIsKept(n: nat)
    requires n > 0
    ensures Strip(Xs(n)) != "" && Xs(1) == "x"
  {
    assert !IsSpace(Xs(n)[0]);
  }

  lemma SkewedSpec()
    ensures NonBlank(Skewed()) == Skewed() && |Skewed()| == 1000
    ensures forall i | 0 <= i < 1000 :: CappedAll(Skewed())[i].ref == ""
    ensures forall i | 0 <= i < 1000 :: |CappedAll(Skewed())[i].text| == if i in PointSet(1000, 156) then 812 else 1
  {
    hide PointSet, Strip, NonBlank;
    XsIsKept(801);
    XsIsKept(1);
    AllKept(Skewed());
  }

  /** The sizes of the first `k` chunks: every sampled one counts for 811 characters more. */
  lemma {:induction false} SkewedSize(all: seq<Span>, p: set<int>, k: nat)
    requires k <= |all| && forall i | 0 <= i < |all| :: |all[i].text| == if i in p then 812 else 1
    ensures TotalChars(all[..k]) == 26 * k + 811 * |Ascending(p, k)|
  {
    if k > 0 {
      assert all[..k][..k - 1] == all[..k - 1];
      SkewedSize(all, p, k - 1);
    }
  }

  lemma {:induction false} PickedSize(all: seq<Span>, idxs: seq<nat>)
    requires forall i | i in idxs :: i < |all| && |all[i].text| == 812 && all[i].ref == ""
    ensures TotalChars(Pick(all, idxs)) == 837 * |idxs| && RefChars(Pick(all, idxs)) == 0
  {
    if idxs != [] {
      var n := |idxs| - 1;
      assert idxs[n] in idxs && forall i | i in idxs[..n] :: i in idxs;
      PickedSize(all, idxs[..n]);
      PickedSnoc(Pick(all, idxs[..n]), all[idxs[n]]);
    }
  }

  lemma PickedSnoc(spans: seq<Span>, s: Span)
    ensures TotalChars(spans + [s]) == TotalChars(spans) + |s.text| + 25
    ensures RefChars(spans + [s]) == RefChars(spans) + |s.ref|
  {
    assert (spans + [s])[..|spans|] == spans;
  }

  /** The average hides how the sizes are spread: a sample can be five times as long as the budget. */
  lemma SampleCanBurstBudget()
    ensures BuildCorpus(Skewed()).Sample? && |BuildCorpus(Skewed()).text| == 131_407 > 5 * MAX_CORPUS_CHARS
  {
    hide PointSet, Ascending, NonBlank, WrapAll, TotalChars, Pick, Skewed, CappedAll;
    SkewedSpec();
    SkewedTotal();
    SkewedSample();
  }

  lemma SkewedTotal()
    ensures var all := CappedAll(Skewed());
      |all| == 1000 && TotalChars(all) == 153_327 && |WrapAll(all)| > MAX_CORPUS_CHARS
  {
    hide PointSet, Ascending, WrapAll, TotalChars, RefChars, Skewed, CappedAll, NonBlank;
    var p, all := PointSet(1000, 156), CappedAll(Skewed());
    SkewedSpec();
    CappedCount(Skewed());
    SampleIsEven(1000, 156);
    SkewedSize(all, p, 1000);
    TakeAll(all);
    CorpusSize(all);
  }

  lemma CappedCount(spans: seq<Span>)
    ensures |CappedAll(spans)| == |spans|
  {
  }

  lemma SkewedSample()
    ensures var all, idxs := CappedAll(Skewed()), Ascending(PointSet(1000, 156), 1000);
      |WrapAll(Pick(all, idxs))| == 131_407
  {
    hide PointSet, Ascending, WrapAll, TotalChars, RefChars, Skewed, CappedAll, NonBlank, Pick;
    var all, idxs := CappedAll(Skewed()), Ascending(PointSet(1000, 156), 1000);
    SkewedSpec();
    CappedCount(Skewed());
    SampleIsEven(1000, 156);
    AscendingSpec(PointSet(1000, 156), 1000);
    PickedSize(all, idxs);
    PickedAre(all, idxs);
    CorpusSize(Pick(all, idxs));
  }
}
