/** app/rag/vector_store.py: similarity and the in-memory store. */
module VectorStore {
  import opened Wrappers
  import opened Text
  import opened Reals
  import CitationValidator
  import C = Collections

  /** A stored chunk: what the validator sees, the source it came from, and its filterable fields. */
  datatype Chunk = Chunk(body: CitationValidator.Chunk, sourceId: string, fields: map<string, string>)
  datatype Point = Point(id: string, embedding: seq<real>, chunk: Chunk)
  datatype Scored = Scored(score: real, point: Point)

  /** Filters by field: a set of accepted values, or nothing required. */
  type Filters = map<string, Option<set<string>>>

  datatype Query = Query(embedding: seq<real>, text: string, topK: int, filters: Filters)

  /** The square root and the tokenizer the store calls. */
  datatype Tools = Tools(sqrt: real -> real, tokenize: string -> seq<string>)

  // ----- similarity -----

  function Dot(a: seq<real>, b: seq<real>): real
    requires |a| == |b|
  {
    if a == [] then 0.0 else Dot(a[..|a| - 1], b[..|b| - 1]) + Times(a[|a| - 1], b[|b| - 1])
  }

  function Cosine(a: seq<real>, b: seq<real>, sqrt: real -> real): real {
    if a == [] || b == [] || |a| != |b| then 0.0
    else
      var na, nb := sqrt(Dot(a, a)), sqrt(Dot(b, b));
      if na == 0.0 || nb == 0.0 then 0.0 else
        NonZeroProduct(na, nb);
        Dot(a, b) / Times(na, nb)
  }

  lemma NonZeroProduct(x: real, y: real)
    requires x != 0.0 && y != 0.0
    ensures Times(x, y) != 0.0
  {
  }

  function Count(doc: seq<string>, t: string): nat {
    if doc == [] then 0 else Count(doc[1..], t) + if doc[0] == t then 1 else 0
  }

  function Overlap(query: seq<string>, doc: seq<string>): nat {
    if query == [] then 0 else Count(doc, query[0]) + Overlap(query[1..], doc)
  }

  /** `bm25_lite_score`. */
  function Bm25Lite(query: seq<string>, doc: seq<string>, sqrt: real -> real): real
    requires IsSqrt(sqrt)
  {
    if doc == [] then 0.0 else
      RootIsPositive(sqrt, |doc| as real);
      Overlap(query, doc) as real / sqrt(|doc| as real)
  }

  lemma RootIsPositive(sqrt: real -> real, x: real)
    requires IsSqrt(sqrt) && x > 0.0
    ensures sqrt(x) > 0.0
  {
    SqSign(sqrt(x));
  }

  function Fused(q: Query, p: Point, t: Tools): real
    requires IsSqrt(t.sqrt)
  {
    var dense := Cosine(q.embedding, p.embedding, t.sqrt);
    var sparse := Bm25Lite(t.tokenize(q.text), t.tokenize(p.chunk.body.text), t.sqrt);
    0.7 * dense + 0.3 * Min(sparse, 1.0)
  }

  /** `_matches`. */
  predicate Matches(c: Chunk, filters: Filters) {
    forall k | k in filters && filters[k].Some? :: k in c.fields && c.fields[k] in filters[k].value
  }

  // ----- sorting, best first; equal scores keep their order -----

  function InsertDescending(s: seq<Scored>, x: Scored): seq<Scored> {
    if s == [] || s[|s| - 1].score >= x.score then s + [x]
    else InsertDescending(s[..|s| - 1], x) + [s[|s| - 1]]
  }

  function SortDescending(s: seq<Scored>): seq<Scored> {
    if s == [] then [] else InsertDescending(SortDescending(s[..|s| - 1]), s[|s| - 1])
  }

  ghost predicate Descending(s: seq<Scored>) {
    forall i, j | 0 <= i < j < |s| :: s[i].score >= s[j].score
  }

  lemma {:induction false} InsertMembers(s: seq<Scored>, x: Scored)
    ensures multiset(InsertDescending(s, x)) == multiset(s) + multiset{x}
  {
    if !(s == [] || s[|s| - 1].score >= x.score) {
      InsertMembers(s[..|s| - 1], x);
      TakeNext(s, |s| - 1);
      TakeAll(s);
    }
  }

  ghost predicate AllAtLeast(s: seq<Scored>, bound: real) { forall i | 0 <= i < |s| :: s[i].score >= bound }

  lemma {:induction false} InsertAtLeast(s: seq<Scored>, x: Scored, bound: real)
    requires AllAtLeast(s, bound) && x.score >= bound
    ensures AllAtLeast(InsertDescending(s, x), bound)
  {
    if !(s == [] || s[|s| - 1].score >= x.score) { InsertAtLeast(s[..|s| - 1], x, bound); }
  }

  lemma {:induction false} InsertKeepsOrder(s: seq<Scored>, x: Scored)
    requires Descending(s)
    ensures Descending(InsertDescending(s, x))
  {
    if !(s == [] || s[|s| - 1].score >= x.score) {
      InsertKeepsOrder(s[..|s| - 1], x);
      InsertAtLeast(s[..|s| - 1], x, s[|s| - 1].score);
    }
  }

  lemma {:induction false} SortSpec(s: seq<Scored>)
    ensures Descending(SortDescending(s)) && multiset(SortDescending(s)) == multiset(s)
  {
    if s != [] {
      var n := |s| - 1;
      SortSpec(s[..n]);
      InsertKeepsOrder(SortDescending(s[..n]), s[n]);
      InsertMembers(SortDescending(s[..n]), s[n]);
      TakeNext(s, n);
      TakeAll(s);
    }
  }

  // ----- search -----

  /** Scores of the matching points, in store order. */
  function Candidates(points: seq<Point>, q: Query, t: Tools): seq<Scored>
    requires IsSqrt(t.sqrt)
  {
    if points == [] then []
    else
      var n := |points| - 1;
      Candidates(points[..n], q, t)
      + if Matches(points[n].chunk, q.filters) then [Scored(Fused(q, points[n], t), points[n])] else []
  }

  /** Python `s[:k]`. */
  function Take(s: seq<Scored>, k: int): seq<Scored> {
    if k >= |s| then s else if k >= 0 then s[..k] else if |s| + k >= 0 then s[..|s| + k] else []
  }

  function Search(points: seq<Point>, q: Query, t: Tools): seq<Scored>
    requires IsSqrt(t.sqrt)
  {
    Take(SortDescending(Candidates(points, q, t)), q.topK)
  }

  /** The store: per collection its points, in insertion order, one per id. */
  class MemoryVectorStore {
    var collections: map<string, seq<Point>>

    ghost predicate Valid() reads this { forall name | name in collections :: OnePerId(collections[name]) }

    constructor ()
      ensures collections == map[] && Valid()
    {
      collections := map[];
    }

    function Points(name: string): seq<Point>
      reads this
    {
      if name in collections then collections[name] else []
    }

    /** `upsert`: a known id is replaced where it stands, a new one goes to the end. */
    method Upsert(name: string, points: seq<Point>)
      requires Valid()
      modifies this
      ensures Valid()
      ensures collections == old(collections)[name := PutAll(old(Points(name)), points)]
    {
      var coll := Points(name);
      for i := 0 to |points|
        invariant collections == old(collections) && OnePerId(coll)
        invariant coll == PutAll(old(Points(name)), points[..i])
      {
        assert points[..i + 1][..i] == points[..i];
        PutKeepsIds(coll, points[i]);
        coll := Put(coll, points[i]);
      }
      TakeAll(points);
      collections := collections[name := coll];
    }

    /** `search`. */
    method SearchIn(name: string, q: Query, t: Tools) returns (r: seq<Scored>)
      requires IsSqrt(t.sqrt)
      ensures r == Search(Points(name), q, t)
    {
      var coll := Points(name);
      var scored: seq<Scored> := [];
      for i := 0 to |coll|
        invariant scored == Candidates(coll[..i], q, t)
      {
        assert coll[..i + 1][..i] == coll[..i];
        if Matches(coll[i].chunk, q.filters) {
          scored := scored + [Scored(Fused(q, coll[i], t), coll[i])];
        }
      }
      TakeAll(coll);
      r := Take(SortDescending(scored), q.topK);
    }

    /** `delete_by_source`: the ids to go are listed first, then popped one by one. */
    method DeleteBySource(name: string, sourceId: string)
      requires Valid()
      modifies this
      ensures Valid()
      ensures forall other | other != name :: Points(other) == old(Points(other))
      ensures Points(name) == NotFrom(old(Points(name)), sourceId)
    {
      hide NotFrom, IdsFrom, Dropping, SetOf, OnePerId;
      NothingFrom(sourceId);
      if name !in collections || collections[name] == [] { return; }
      var coll := collections[name];
      ghost var stored := coll;
      var doomed := IdsFrom(coll, sourceId);
      DropNone(coll, doomed);
      for i := 0 to |doomed|
        invariant collections == old(collections)
        invariant coll == Dropping(stored, SetOf(doomed[..i]))
      {
        DropOneMore(stored, doomed, i);
        coll := Dropping(coll, {doomed[i]});
      }
      TakeAll(doomed);
      DroppedAreFrom(stored, sourceId);
      NotFromKeepsIds(stored, sourceId);
      collections := collections[name := coll];
    }
  }

  function Put(coll: seq<Point>, p: Point): seq<Point> {
    if coll == [] then [p]
    else if coll[0].id == p.id then [p] + coll[1..]
    else [coll[0]] + Put(coll[1..], p)
  }

  function PutAll(coll: seq<Point>, points: seq<Point>): seq<Point> {
    if points == [] then coll else Put(PutAll(coll, points[..|points| - 1]), points[|points| - 1])
  }

  function NotFrom(coll: seq<Point>, sourceId: string): seq<Point> {
    if coll == [] then []
    else
      var n := |coll| - 1;
      NotFrom(coll[..n], sourceId) + if coll[n].chunk.sourceId == sourceId then [] else [coll[n]]
  }

  /** The ids of the points of one source, in store order. */
  function IdsFrom(coll: seq<Point>, sourceId: string): seq<string> {
    if coll == [] then []
    else
      var n := |coll| - 1;
      IdsFrom(coll[..n], sourceId) + if coll[n].chunk.sourceId == sourceId then [coll[n].id] else []
  }

  /** The points whose id is not among `ids`. */
  function Dropping(coll: seq<Point>, ids: set<string>): seq<Point> {
    if coll == [] then []
    else
      var n := |coll| - 1;
      Dropping(coll[..n], ids) + if coll[n].id in ids then [] else [coll[n]]
  }

  function SetOf(ids: seq<string>): set<string> { set x | x in ids }

  ghost predicate OnePerId(coll: seq<Point>) {
    forall i, j | 0 <= i < j < |coll| :: coll[i].id != coll[j].id
  }

  /** Upserting keeps one point per id, makes the new point the one stored, and keeps the others. */
  lemma {:induction false} PutKeepsIds(coll: seq<Point>, p: Point)
    requires OnePerId(coll)
    ensures OnePerId(Put(coll, p))
    ensures forall x :: x in Put(coll, p) <==> x == p || (x in coll && x.id != p.id)
  {
    if coll != [] {
      assert coll == [coll[0]] + coll[1..];
      if coll[0].id != p.id {
        PutKeepsIds(coll[1..], p);
        var rest := Put(coll[1..], p);
        forall k | 0 <= k < |rest| ensures rest[k].id != coll[0].id {
          assert rest[k] in rest;
        }
      }
    }
  }

  /** A known id's point is replaced where it stands, a new one goes to the end. */
  lemma {:induction false} PutInPlace(coll: seq<Point>, p: Point)
    requires OnePerId(coll)
    ensures forall i | 0 <= i < |coll| && coll[i].id == p.id :: Put(coll, p) == coll[i := p]
    ensures (forall i | 0 <= i < |coll| :: coll[i].id != p.id) ==> Put(coll, p) == coll + [p]
  {
    if coll != [] && coll[0].id != p.id {
      PutInPlace(coll[1..], p);
      forall i | 0 <= i < |coll| && coll[i].id == p.id ensures Put(coll, p) == coll[i := p] {
        assert coll[1..][i - 1].id == p.id;
        assert coll[i := p] == [coll[0]] + coll[1..][i - 1 := p];
      }
      if forall i | 0 <= i < |coll| :: coll[i].id != p.id {
        assert coll + [p] == [coll[0]] + (coll[1..] + [p]);
      }
    }
  }

  // ----- what deletion leaves -----

  /** `ix` lists, ascending, the positions of the points that are not from the source. */
  ghost predicate OtherPositions(coll: seq<Point>, sourceId: string, ix: seq<nat>) {
    C.Increasing(ix) && forall i: nat :: i in ix <==> i < |coll| && coll[i].chunk.sourceId != sourceId
  }

  lemma NothingFrom(sourceId: string)
    ensures NotFrom([], sourceId) == []
  {
  }

  lemma NotFromKeepsIds(coll: seq<Point>, sourceId: string)
    requires OnePerId(coll)
    ensures OnePerId(NotFrom(coll, sourceId))
  {
    var ix := NotFromOrder(coll, sourceId);
    assert forall k | 0 <= k < |ix| :: NotFrom(coll, sourceId)[k] == coll[ix[k]];
  }

  /** Exactly the points of other sources stay, in their order. */
  lemma NotFromSpec(coll: seq<Point>, sourceId: string)
    ensures forall p :: p in NotFrom(coll, sourceId) <==> p in coll && p.chunk.sourceId != sourceId
    ensures exists ix :: OtherPositions(coll, sourceId, ix) && C.Picks(coll, ix, NotFrom(coll, sourceId))
  {
    hide NotFrom;
    var ix := NotFromOrder(coll, sourceId);
    var left := NotFrom(coll, sourceId);
    forall p ensures p in left <==> p in coll && p.chunk.sourceId != sourceId {
      if p in left {
        var k :| 0 <= k < |left| && left[k] == p;
        assert ix[k] in ix;
      }
      if p in coll && p.chunk.sourceId != sourceId {
        var i: nat :| i < |coll| && coll[i] == p;
        assert i in ix;
        var k :| 0 <= k < |ix| && ix[k] == i;
        assert left[k] == p;
      }
    }
  }

  lemma {:induction false} NotFromOrder(coll: seq<Point>, sourceId: string) returns (ix: seq<nat>)
    ensures OtherPositions(coll, sourceId, ix) && C.Picks(coll, ix, NotFrom(coll, sourceId))
  {
    if coll == [] {
      ix := [];
    } else {
      hide OtherPositions, C.Picks;
      var n := |coll| - 1;
      var before := NotFromOrder(coll[..n], sourceId);
      OtherPositionsNext(coll, sourceId, before);
      C.PicksNext(coll, before, NotFrom(coll[..n], sourceId));
      Neutral(NotFrom(coll[..n], sourceId));
      ix := if coll[n].chunk.sourceId == sourceId then before else before + [n];
    }
  }

  lemma OtherPositionsNext(coll: seq<Point>, sourceId: string, ix: seq<nat>)
    requires coll != [] && OtherPositions(coll[..|coll| - 1], sourceId, ix)
    ensures var n := |coll| - 1;
      OtherPositions(coll, sourceId, if coll[n].chunk.sourceId == sourceId then ix else ix + [n])
  {
    forall k | 0 <= k < |ix| ensures ix[k] < |coll| - 1 {
      assert ix[k] in ix;
    }
  }

  lemma {:induction false} DropNone(coll: seq<Point>, ids: seq<string>)
    ensures Dropping(coll, SetOf(ids[..0])) == coll
  {
    assert SetOf(ids[..0]) == {};
    if coll != [] {
      var n := |coll| - 1;
      DropNone(coll[..n], ids);
      assert coll == coll[..n] + [coll[n]];
    }
  }

  /** Popping one more id. */
  lemma DropOneMore(coll: seq<Point>, ids: seq<string>, i: nat)
    requires i < |ids|
    ensures Dropping(Dropping(coll, SetOf(ids[..i])), {ids[i]}) == Dropping(coll, SetOf(ids[..i + 1]))
  {
    hide Dropping;
    assert SetOf(ids[..i + 1]) == SetOf(ids[..i]) + {ids[i]};
    DropTwice(coll, SetOf(ids[..i]), {ids[i]});
  }

  lemma {:induction false} DropTwice(coll: seq<Point>, a: set<string>, b: set<string>)
    ensures Dropping(Dropping(coll, a), b) == Dropping(coll, a + b)
  {
    if coll != [] {
      var n := |coll| - 1;
      var once := Dropping(coll[..n], a);
      DropTwice(coll[..n], a, b);
      if coll[n].id in a { Neutral(once); } else { assert (once + [coll[n]])[..|once|] == once; }
    }
  }

  lemma {:induction false} IdsFromSpec(coll: seq<Point>, sourceId: string)
    ensures forall x :: x in IdsFrom(coll, sourceId) <==> exists p :: p in coll && p.id == x && p.chunk.sourceId == sourceId
  {
    if coll != [] {
      var n := |coll| - 1;
      IdsFromSpec(coll[..n], sourceId);
      assert coll == coll[..n] + [coll[n]];
    }
  }

  /** With one point per id, popping a source's ids pops exactly its points. */
  lemma DroppedAreFrom(coll: seq<Point>, sourceId: string)
    requires OnePerId(coll)
    ensures Dropping(coll, SetOf(IdsFrom(coll, sourceId))) == NotFrom(coll, sourceId)
  {
    IdsFromSpec(coll, sourceId);
    DropSame(coll, SetOf(IdsFrom(coll, sourceId)), sourceId, |coll|);
    TakeAll(coll);
  }

  lemma {:induction false} DropSame(coll: seq<Point>, ids: set<string>, sourceId: string, k: nat)
    requires k <= |coll|
    requires forall i | 0 <= i < |coll| :: coll[i].id in ids <==> coll[i].chunk.sourceId == sourceId
    ensures Dropping(coll[..k], ids) == NotFrom(coll[..k], sourceId)
  {
    if k > 0 {
      DropSame(coll, ids, sourceId, k - 1);
      assert coll[..k][..k - 1] == coll[..k - 1];
    }
  }

  // ----- what search promises -----

  lemma {:induction false} CandidatesSpec(points: seq<Point>, q: Query, t: Tools)
    requires IsSqrt(t.sqrt)
    ensures forall s :: s in Candidates(points, q, t) <==>
                        (s.point in points && Matches(s.point.chunk, q.filters) && s.score == Fused(q, s.point, t))
  {
    hide Fused, Matches;
    if points != [] {
      CandidatesSpec(points[..|points| - 1], q, t);
      assert points == points[..|points| - 1] + [points[|points| - 1]];
    }
  }

  /** Whatever top_k is, hits are stored, matching points with their own scores. */
  lemma HitsAreStored(points: seq<Point>, q: Query, t: Tools)
    requires IsSqrt(t.sqrt)
    ensures forall s | s in Search(points, q, t) ::
      s.point in points && Matches(s.point.chunk, q.filters) && s.score == Fused(q, s.point, t)
  {
    hide Fused, Matches, SortDescending, Candidates;
    var c := Candidates(points, q, t);
    CandidatesSpec(points, q, t);
    SortSpec(c);
    SameMembers(c, SortDescending(c));
    assert forall s | s in Search(points, q, t) :: s in SortDescending(c);
  }

  /** Every hit is a stored, matching point with its own score; hits descend; there are min(k, m) of
      them, or m + k for a negative k, if any; and no matching point left out beats any hit. */
  lemma SearchIsTopK(points: seq<Point>, q: Query, t: Tools)
    requires IsSqrt(t.sqrt)
    ensures var r, k, m := Search(points, q, t), q.topK, |Candidates(points, q, t)|;
      Descending(r) && |r| == (if k >= 0 then C.Min(k, m) else C.Max(m + k, 0))
      && (forall s | s in r :: s.point in points && Matches(s.point.chunk, q.filters) && s.score == Fused(q, s.point, t))
      && forall p, s | p in points && Matches(p.chunk, q.filters) && Scored(Fused(q, p, t), p) !in r && s in r ::
        s.score >= Fused(q, p, t)
  {
    hide Fused, Matches, SortDescending, Candidates, Take;
    var c := Candidates(points, q, t);
    var all, r := SortDescending(c), Search(points, q, t);
    CandidatesSpec(points, q, t);
    SortSpec(c);
    SameMembers(c, all);
    TakeIsPrefix(all, q.topK);
    forall p, s | p in points && Matches(p.chunk, q.filters) && Scored(Fused(q, p, t), p) !in r && s in r
      ensures s.score >= Fused(q, p, t)
    {
      var x := Scored(Fused(q, p, t), p);
      assert x in c;
      var i :| 0 <= i < |all| && all[i] == x;
      assert forall k | 0 <= k < |r| :: r[k] == all[k];
      var j :| 0 <= j < |r| && r[j] == s;
      assert all[j] == s;
    }
    assert forall s | s in r :: s in all;
  }

  lemma TakeIsPrefix(s: seq<Scored>, k: int)
    ensures Take(s, k) <= s && |Take(s, k)| == if k >= 0 then C.Min(k, |s|) else C.Max(|s| + k, 0)
  {
  }

  lemma SameMembers(a: seq<Scored>, b: seq<Scored>)
    requires multiset(a) == multiset(b)
    ensures |a| == |b| && forall x :: x in a <==> x in b
  {
    assert |multiset(a)| == |a| && |multiset(b)| == |b|;
    forall x ensures x in a <==> x in b {
      assert x in a <==> x in multiset(a);
      assert x in b <==> x in multiset(b);
    }
  }

  /** The grounding gate of the query engine looks at the best hit only. */
  predicate PassesGate(r: seq<Scored>, minScore: real) { r != [] && r[0].score >= minScore }

  /** For top_k >= 1 the gate opens exactly when some matching stored point reaches the threshold. */
  lemma GateIsComplete(points: seq<Point>, q: Query, t: Tools, minScore: real)
    requires IsSqrt(t.sqrt) && q.topK >= 1
    ensures PassesGate(Search(points, q, t), minScore)
      <==> exists p :: p in points && Matches(p.chunk, q.filters) && Fused(q, p, t) >= minScore
  {
    hide Fused, Matches, SortDescending, Candidates;
    var r := Search(points, q, t);
    SearchIsTopK(points, q, t);
    CandidatesSpec(points, q, t);
    if r != [] { assert r[0] in r; }
    forall p | p in points && Matches(p.chunk, q.filters) && Fused(q, p, t) >= minScore
      ensures PassesGate(r, minScore)
    {
      var x := Scored(Fused(q, p, t), p);
      assert x in Candidates(points, q, t);
      if x in r { var i :| 0 <= i < |r| && r[i] == x; } else { assert r[0].score >= Fused(q, p, t); }
    }
  }

  // ----- scores are bounded -----

  lemma {:induction false} DotSelf(a: seq<real>)
    ensures Dot(a, a) >= 0.0
  {
    if a != [] {
      DotSelf(a[..|a| - 1]);
      SqSign(a[|a| - 1]);
    }
  }

  /** Cauchy-Schwarz. */
  lemma {:induction false} CauchySchwarz(a: seq<real>, b: seq<real>)
    requires |a| == |b|
    ensures Sq(Dot(a, b)) <= Times(Dot(a, a), Dot(b, b))
  {
    if a == [] {
      SqSign(0.0);
    } else {
      var n := |a| - 1;
      CauchySchwarz(a[..n], b[..n]);
      DotSelf(a[..n]);
      DotSelf(b[..n]);
      CauchyStep(Dot(a[..n], b[..n]), Dot(a[..n], a[..n]), Dot(b[..n], b[..n]), a[n], b[n]);
    }
  }

  lemma CauchyStep(s: real, p: real, r: real, x: real, y: real)
    requires p >= 0.0 && r >= 0.0 && Sq(s) <= Times(p, r)
    ensures Sq(s + Times(x, y)) <= Times(p + Sq(x), r + Sq(y))
  {
    var u, v, w := Times(p, Sq(y)), Times(r, Sq(x)), Times(s, Times(x, y));
    MixedTerm(s, p, r, x, y);
    Expand(s, p, r, x, y);
    hide Times;
  }

  lemma Expand(s: real, p: real, r: real, x: real, y: real)
    ensures Sq(s + Times(x, y)) == Sq(s) + 2.0 * Times(s, Times(x, y)) + Times(Sq(x), Sq(y))
    ensures Times(p + Sq(x), r + Sq(y)) == Times(p, r) + Times(p, Sq(y)) + Times(r, Sq(x)) + Times(Sq(x), Sq(y))
  {
  }

  /** 2 s x y <= p y^2 + r x^2, because (p y^2 + r x^2)^2 >= 4 p r x^2 y^2 >= (2 s x y)^2. */
  lemma MixedTerm(s: real, p: real, r: real, x: real, y: real)
    requires p >= 0.0 && r >= 0.0 && Sq(s) <= Times(p, r)
    ensures 2.0 * Times(s, Times(x, y)) <= Times(p, Sq(y)) + Times(r, Sq(x))
  {
    var u, v, z := Times(p, Sq(y)), Times(r, Sq(x)), Times(x, y);
    MixedIdentities(s, p, r, x, y);
    hide Times, Sq;
    SqSign(x);
    SqSign(y);
    SqSign(z);
    SqSign(u - v);
    TimesMono(p, 0.0, Sq(y));
    TimesMono(r, 0.0, Sq(x));
    TimesZero(p);
    TimesZero(r);
    TimesMono(Sq(z), Sq(s), Times(p, r));
    SmallerSquare(2.0 * Times(s, z), u + v);
  }

  lemma MixedIdentities(s: real, p: real, r: real, x: real, y: real)
    ensures var u, v, z := Times(p, Sq(y)), Times(r, Sq(x)), Times(x, y);
      Times(u, v) == Times(Sq(z), Times(p, r)) && Sq(2.0 * Times(s, z)) == 4.0 * Times(Sq(z), Sq(s))
      && Sq(u + v) == Sq(u - v) + 4.0 * Times(u, v)
  {
  }

  lemma TimesZero(x: real)
    ensures Times(x, 0.0) == 0.0
  {
  }

  lemma SmallerSquare(x: real, y: real)
    requires y >= 0.0 && Sq(x) <= Sq(y)
    ensures x <= y && -x <= y
  {
    hide Sq;
    SqSign(x);
    if Abs(x) > y { SqMono(y, Abs(x)); }
  }

  /** The cosine lies in [-1, 1]. */
  lemma CosineBounds(a: seq<real>, b: seq<real>, sqrt: real -> real)
    requires IsSqrt(sqrt)
    ensures -1.0 <= Cosine(a, b, sqrt) <= 1.0
  {
    if a != [] && |a| == |b| {
      DotSelf(a);
      DotSelf(b);
      CauchySchwarz(a, b);
      hide Dot, Sq, Times;
      var na, nb := sqrt(Dot(a, a)), sqrt(Dot(b, b));
      if na != 0.0 && nb != 0.0 {
        RatioBounds(Dot(a, b), na, nb);
      }
    }
  }

  lemma RatioBounds(d: real, na: real, nb: real)
    requires na > 0.0 && nb > 0.0 && Sq(d) <= Times(Sq(na), Sq(nb))
    ensures Times(na, nb) > 0.0 && -1.0 <= d / Times(na, nb) <= 1.0
  {
    SqOfProduct(na, nb);
    TimesRules(na, nb);
    TimesRules(Sq(na), Sq(nb));
    hide Times, Sq;
    var p := Times(na, nb);
    SmallerSquare(d, p);
    Quotient(d, p);
    DivideOut(p, d / p, 1.0);
    DivideOut(p, -1.0, d / p);
  }

  /** Fused scores lie in [-0.7, 1]. */
  lemma FusedBounds(q: Query, p: Point, t: Tools)
    requires IsSqrt(t.sqrt)
    ensures -0.7 <= Fused(q, p, t) <= 1.0
  {
    hide Cosine;
    CosineBounds(q.embedding, p.embedding, t.sqrt);
    var doc := t.tokenize(p.chunk.body.text);
    if doc != [] {
      RootIsPositive(t.sqrt, |doc| as real);
      NonNegativeRatio(Overlap(t.tokenize(q.text), doc) as real, t.sqrt(|doc| as real));
    }
  }

  lemma NonNegativeRatio(x: real, y: real)
    requires x >= 0.0 && y > 0.0
    ensures x / y >= 0.0
  {
  }
}
