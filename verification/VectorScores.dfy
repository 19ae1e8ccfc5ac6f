/** app/rag/vector_store.py: what its scores measure, and what order ties come in. */
module VectorScores {
  import opened Text
  import opened Reals
  import opened Wrappers
  import opened VectorStore

  // ----- the dot product -----

  function Scaled(a: seq<real>, k: real): seq<real> { seq(|a|, i requires 0 <= i < |a| => Times(k, a[i])) }

  function Plus(a: seq<real>, b: seq<real>): seq<real>
    requires |a| == |b|
  {
    seq(|a|, i requires 0 <= i < |a| => a[i] + b[i])
  }

  function Unit(n: nat, i: nat): seq<real> { seq(n, j => if i == j then 1.0 else 0.0) }

  lemma {:induction false} DotScaled(a: seq<real>, b: seq<real>, k: real)
    requires |a| == |b|
    ensures Dot(a, Scaled(b, k)) == Times(k, Dot(a, b)) && Dot(Scaled(a, k), b) == Times(k, Dot(a, b))
  {
    if a != [] {
      var n := |a| - 1;
      DotScaled(a[..n], b[..n], k);
      assert Scaled(b, k)[..n] == Scaled(b[..n], k) && Scaled(a, k)[..n] == Scaled(a[..n], k);
      Pull(k, a[n], b[n], Dot(a[..n], b[..n]));
    }
  }

  lemma Pull(k: real, x: real, y: real, d: real)
    ensures Times(k, d) + Times(x, Times(k, y)) == Times(k, d + Times(x, y))
    ensures Times(k, d) + Times(Times(k, x), y) == Times(k, d + Times(x, y))
  {
    Reorder(k, x, y);
    Distribute(k, d, x * y);
  }

  lemma {:induction false} DotPlus(a: seq<real>, b: seq<real>, c: seq<real>)
    requires |a| == |b| == |c|
    ensures Dot(a, Plus(b, c)) == Dot(a, b) + Dot(a, c)
  {
    if a != [] {
      var n := |a| - 1;
      DotPlus(a[..n], b[..n], c[..n]);
      assert Plus(b, c)[..n] == Plus(b[..n], c[..n]);
      TimesDistribute(a[n], b[n], c[n]);
      hide Times;
    }
  }

  lemma TimesDistribute(x: real, y: real, z: real)
    ensures Times(x, y + z) == Times(x, y) + Times(x, z)
  {
  }

  lemma {:induction false} DotUnit(a: seq<real>, i: nat)
    requires i < |a|
    ensures Dot(a, Unit(|a|, i)) == a[i]
  {
    var n := |a| - 1;
    assert Unit(|a|, i)[..n] == Unit(n, i);
    if i == n { DotZeros(a[..n], i); } else { DotUnit(a[..n], i); }
    assert Times(a[n], 1.0) == a[n] && Times(a[n], 0.0) == 0.0;
  }

  lemma {:induction false} DotZeros(a: seq<real>, i: nat)
    requires i >= |a|
    ensures Dot(a, Unit(|a|, i)) == 0.0
  {
    if a != [] {
      var n := |a| - 1;
      assert Unit(|a|, i)[..n] == Unit(n, i);
      DotZeros(a[..n], i);
    }
  }

  // ----- the cosine -----

  lemma SameSquare(x: real, y: real)
    requires x >= 0.0 && y >= 0.0 && Sq(x) == Sq(y)
    ensures x == y
  {
    hide Sq;
    if x < y { SqMono(x, y); } else if y < x { SqMono(y, x); }
  }

  /** A vector that is not zero points where its positive multiples point, and away from its negative ones. */
  lemma CosineOfMultiple(a: seq<real>, k: real, sqrt: real -> real)
    requires IsSqrt(sqrt) && Dot(a, a) > 0.0 && k != 0.0
    ensures Cosine(a, Scaled(a, k), sqrt) == if k > 0.0 then 1.0 else -1.0
  {
    var b, s := Scaled(a, k), Dot(a, a);
    DotScaled(a, a, k);
    DotScaled(a, b, k);
    NormOfMultiple(s, k, Dot(b, b), sqrt);
    hide Dot, Times, Sq;
    var p := Times(sqrt(s), sqrt(Dot(b, b)));
    assert p == Times(Abs(k), s);
    RatioIs(k, s);
  }

  lemma NormOfMultiple(s: real, k: real, t: real, sqrt: real -> real)
    requires IsSqrt(sqrt) && s > 0.0 && k != 0.0 && t == Times(k, Times(k, s))
    ensures sqrt(s) > 0.0 && sqrt(t) > 0.0 && Times(sqrt(s), sqrt(t)) == Times(Abs(k), s)
  {
    SquaredMultiple(k, s);
    TimesRules(Abs(k), s);
    hide Times, Sq;
    RootIsPositive(sqrt, s);
    RootIsPositive(sqrt, t);
    TimesRules(sqrt(s), sqrt(t));
    ProductsAgree(sqrt(s), sqrt(t), Abs(k), s, t);
    SameSquare(Times(sqrt(s), sqrt(t)), Times(Abs(k), s));
  }

  lemma SquaredMultiple(k: real, s: real)
    requires s > 0.0 && k != 0.0
    ensures Times(k, Times(k, s)) == Times(Sq(Abs(k)), s) > 0.0
  {
    SqSign(k);
    Reorder(k, k, s);
    TimesRules(Sq(k), s);
  }

  lemma ProductsAgree(x: real, y: real, k: real, s: real, t: real)
    requires Sq(x) == s && Sq(y) == t && t == Times(Sq(k), s)
    ensures Sq(Times(x, y)) == Sq(Times(k, s))
  {
    SqOfProduct(x, y);
    SqOfProduct(k, s);
    TimesAre(Sq(k), s);
    TimesAre(x, y);
    TimesAre(k, s);
    SqIs(s);
    hide Sq, Times;
    Reorder(s, Sq(k), s);
  }

  lemma TimesAre(x: real, y: real)
    ensures Times(x, y) == x * y
  {
  }

  lemma SqIs(x: real)
    ensures Sq(x) == x * x
  {
  }

  lemma RatioIs(k: real, s: real)
    requires k != 0.0 && s > 0.0
    ensures Times(Abs(k), s) != 0.0 && Times(k, s) / Times(Abs(k), s) == if k > 0.0 then 1.0 else -1.0
  {
    var p := Times(Abs(k), s);
    TimesRules(Abs(k), s);
    assert k < 0.0 ==> Times(k, s) == -p;
    hide Times;
    assert p / p == 1.0 && (-p) / p == -1.0;
  }

  // ----- the overlap -----

  lemma {:induction false} CountIsMultiplicity(doc: seq<string>, t: string)
    ensures Count(doc, t) == multiset(doc)[t]
  {
    if doc != [] {
      CountIsMultiplicity(doc[1..], t);
      assert doc == [doc[0]] + doc[1..];
    }
  }

  /** A question's overlap is the sum, over its tokens, of how often the document holds each. */
  lemma {:induction false} OverlapAdds(a: seq<string>, b: seq<string>, doc: seq<string>, t: string)
    ensures Overlap(a + b, doc) == Overlap(a, doc) + Overlap(b, doc)
    ensures Overlap([t], doc) == multiset(doc)[t] && Overlap([], doc) == 0
  {
    CountIsMultiplicity(doc, t);
    assert [t][1..] == [];
    if a == [] {
      Neutral(b);
    } else {
      DropOfConcat(a, b, 1);
      OverlapAdds(a[1..], b, doc, t);
    }
  }

  lemma {:induction false} NothingShared(query: seq<string>, doc: seq<string>)
    ensures Overlap(query, doc) == 0 <==> forall t | t in query :: t !in doc
  {
    if query != [] {
      NothingShared(query[1..], doc);
      CountIsMultiplicity(doc, query[0]);
      assert forall t :: t in query <==> t == query[0] || t in query[1..];
      assert query[0] in doc <==> multiset(doc)[query[0]] > 0;
    }
  }

  // ----- how much each counts -----

  /** Without a shared token only the cosine counts, for seven tenths; an overlap of at least the root of the
      document's length adds its full three tenths. */
  lemma FusedWeighs(q: Query, p: Point, t: Tools)
    requires IsSqrt(t.sqrt)
    ensures var query, doc := t.tokenize(q.text), t.tokenize(p.chunk.body.text);
      var dense := 0.7 * Cosine(q.embedding, p.embedding, t.sqrt);
      && dense <= Fused(q, p, t) <= dense + 0.3
      && ((forall x | x in query :: x !in doc) <==> Fused(q, p, t) == dense)
      && (doc != [] && Overlap(query, doc) * Overlap(query, doc) >= |doc| <==> Fused(q, p, t) == dense + 0.3)
  {
    hide Cosine, Overlap;
    var query, doc := t.tokenize(q.text), t.tokenize(p.chunk.body.text);
    NothingShared(query, doc);
    if doc != [] { SparseIs(Overlap(query, doc), |doc|, t.sqrt); }
  }

  lemma SparseIs(overlap: nat, n: nat, sqrt: real -> real)
    requires IsSqrt(sqrt) && n > 0
    ensures sqrt(n as real) > 0.0
    ensures var s := overlap as real / sqrt(n as real);
      s >= 0.0 && (s == 0.0 <==> overlap == 0) && (s >= 1.0 <==> overlap * overlap >= n)
  {
    RootIsPositive(sqrt, n as real);
    var x, r := overlap as real, sqrt(n as real);
    assert Sq(x) == (overlap * overlap) as real;
    RatioToOne(x, r);
    hide Sq;
    if x >= r { SqMono(r, x); } else { SqMono(x, r); }
  }

  lemma RatioToOne(x: real, r: real)
    requires x >= 0.0 && r > 0.0
    ensures x / r >= 0.0 && (x / r == 0.0 <==> x == 0.0) && (x / r >= 1.0 <==> x >= r)
  {
    var y := x / r;
    Quotient(x, r);
    if y >= 1.0 {
      MulMono(r, 1.0, y);
    } else {
      MulMono(r, y, 1.0);
      if x == r { CancelFactor(r, y, 1.0); }
    }
  }

  // ----- ties -----

  /** The hits with one score, in order. */
  function WithScore(s: seq<Scored>, x: real): seq<Scored> {
    if s == [] then []
    else
      var n := |s| - 1;
      WithScore(s[..n], x) + if s[n].score == x then [s[n]] else []
  }

  lemma WithScoreSnoc(s: seq<Scored>, y: Scored, x: real)
    ensures WithScore(s + [y], x) == WithScore(s, x) + if y.score == x then [y] else []
  {
    assert (s + [y])[..|s|] == s;
  }

  /** Inserting goes behind the hits with the same score. */
  lemma {:induction false} InsertGoesBehind(s: seq<Scored>, y: Scored, x: real)
    ensures WithScore(InsertDescending(s, y), x) == WithScore(s + [y], x)
  {
    if s != [] && s[|s| - 1].score < y.score {
      hide WithScore;
      var most, z := s[..|s| - 1], s[|s| - 1];
      InsertGoesBehind(most, y, x);
      WithScoreSnoc(InsertDescending(most, y), z, x);
      SwapLast(most, y, z, x);
      assert s == most + [z];
    }
  }

  lemma SwapLast(s: seq<Scored>, y: Scored, z: Scored, x: real)
    requires y.score != z.score
    ensures WithScore(s + [y], x) + (if z.score == x then [z] else []) == WithScore(s + [z] + [y], x)
  {
    hide WithScore;
    WithScoreSnoc(s, y, x);
    WithScoreSnoc(s, z, x);
    WithScoreSnoc(s + [z], y, x);
    Neutral(WithScore(s, x));
  }

  /** The sort is stable: hits with equal scores stay in store order. */
  lemma {:induction false} SortIsStable(s: seq<Scored>, x: real)
    ensures WithScore(SortDescending(s), x) == WithScore(s, x)
  {
    if s != [] {
      var n := |s| - 1;
      SortIsStable(s[..n], x);
      InsertGoesBehind(SortDescending(s[..n]), s[n], x);
      WithScoreSnoc(SortDescending(s[..n]), s[n], x);
    }
  }

  // ----- filters -----

  /** Filters hold together, each asking for one of its values; a filter without values asks for nothing. */
  lemma FiltersAdd(c: Chunk, filters: Filters, key: string, values: set<string>)
    requires key !in filters
    ensures Matches(c, map[]) && (Matches(c, filters[key := None]) <==> Matches(c, filters))
    ensures Matches(c, filters[key := Some(values)])
      <==> Matches(c, filters) && key in c.fields && c.fields[key] in values
  {
    var f := filters[key := Some(values)];
    assert f[key] == Some(values) && forall k | k in filters :: k in f && f[k] == filters[k];
    var g := filters[key := None];
    assert forall k | k in filters :: k in g && g[k] == filters[k];
  }
}
