/** app/rag/query_engine.py: retrieve, gate, answer, validate, or refuse. */
module QueryEngine {
  import opened Text
  import opened Reals
  import opened CitationValidator
  import opened Grounding
  import V = VectorStore

  /** The model's reply: an answer text and whatever it offered as citations. */
  datatype Parsed = Parsed(answer: string, citations: seq<Raw>)

  datatype QueryAnswer = QueryAnswer(answer: string, citations: seq<Citation>, refused: bool, retrieved: seq<V.Scored>)

  function Bodies(r: seq<V.Scored>): seq<Chunk> {
    seq(|r|, i requires 0 <= i < |r| => r[i].point.chunk.body)
  }

  /** The answer to a question over the stored `points`, with the model's reply to what was retrieved. */
  ghost function Answered(points: seq<V.Point>, q: V.Query, t: V.Tools, minScore: real, refusal: string,
                          reply: seq<Chunk> -> Parsed, fold: Fold): QueryAnswer
    requires IsSqrt(t.sqrt)
  {
    var r := V.Search(points, q, t);
    var refused := QueryAnswer(refusal, [], true, r);
    if !V.PassesGate(r, minScore) then refused
    else
      var parsed := reply(Bodies(r));
      var kept := Kept(parsed.citations, Bodies(r), fold);
      if Strip(parsed.answer) == "" || kept == [] then refused
      else QueryAnswer(Strip(parsed.answer), kept, false, r)
  }

  /** `answer_question`. */
  method AnswerQuestion(store: V.MemoryVectorStore, name: string, q: V.Query, t: V.Tools, minScore: real,
                        refusal: string, reply: seq<Chunk> -> Parsed, fold: Fold)
    returns (a: QueryAnswer)
    requires IsSqrt(t.sqrt)
    ensures a == Answered(store.Points(name), q, t, minScore, refusal, reply, fold)
  {
    var retrieved := store.SearchIn(name, q, t);
    if retrieved == [] || retrieved[0].score < minScore {
      return QueryAnswer(refusal, [], true, retrieved);
    }
    var parsed := reply(Bodies(retrieved));
    var answerText := Strip(parsed.answer);
    var kept, dropped := ValidateCitations(parsed.citations, Bodies(retrieved), fold);
    if answerText == "" || kept == [] {
      return QueryAnswer(refusal, [], true, retrieved);
    }
    a := QueryAnswer(answerText, kept, false, retrieved);
  }

  /** Whatever the model says: an answer that is not a refusal has a text and at least one citation,
      and every citation's quote is in a stored, filter-matching chunk of the cited source. */
  lemma AnswersAreGrounded(points: seq<V.Point>, q: V.Query, t: V.Tools, minScore: real, refusal: string,
                           reply: seq<Chunk> -> Parsed, fold: Fold)
    requires IsSqrt(t.sqrt)
    ensures var a := Answered(points, q, t, minScore, refusal, reply, fold);
      !a.refused ==> (a.answer != "" && a.citations != []
        && (forall c | c in a.citations :: exists p ::
          p in points && V.Matches(p.chunk, q.filters) && FromCited(c, p.chunk.body) && Quotes(p.chunk.body, c.quote, fold))
        && exists p :: p in points && V.Matches(p.chunk, q.filters) && V.Fused(q, p, t) >= minScore)
  {
    hide V.Search, V.Matches, V.Fused, FromCited, Quotes, Kept, Grounded, Strip;
    var a := Answered(points, q, t, minScore, refusal, reply, fold);
    if !a.refused {
      var r := V.Search(points, q, t);
      V.HitsAreStored(points, q, t);
      assert r[0] in r;
      var raws := reply(Bodies(r)).citations;
      KeptIsGrounded(raws, Bodies(r), fold);
      forall c | c in a.citations
        ensures exists p ::
          p in points && V.Matches(p.chunk, q.filters) && FromCited(c, p.chunk.body) && Quotes(p.chunk.body, c.quote, fold)
      {
        GroundIsStored(points, q, t, c, fold);
      }
    }
  }

  /** What a retrieved chunk supports, a stored, matching one does. */
  lemma GroundIsStored(points: seq<V.Point>, q: V.Query, t: V.Tools, c: Citation, fold: Fold)
    requires IsSqrt(t.sqrt) && Grounded(c, Bodies(V.Search(points, q, t)), fold)
    ensures exists p ::
      p in points && V.Matches(p.chunk, q.filters) && FromCited(c, p.chunk.body) && Quotes(p.chunk.body, c.quote, fold)
  {
    hide V.Search, V.Matches, V.Fused, Supports, V.Candidates, FromCited, Quotes;
    var r := V.Search(points, q, t);
    V.HitsAreStored(points, q, t);
    var i :| 0 <= i < |Bodies(r)| && Supports(c, Bodies(r)[i], fold);
    assert r[i] in r && Bodies(r)[i] == r[i].point.chunk.body;
    SupportsIff(c, r[i].point.chunk.body, fold);
  }

  /** No stored, matching chunk reaches the threshold: the question is refused without asking the model. */
  lemma UngroundedIsRefused(points: seq<V.Point>, q: V.Query, t: V.Tools, minScore: real, refusal: string,
                            reply: seq<Chunk> -> Parsed, fold: Fold)
    requires IsSqrt(t.sqrt)
    requires forall p | p in points && V.Matches(p.chunk, q.filters) :: V.Fused(q, p, t) < minScore
    ensures Answered(points, q, t, minScore, refusal, reply, fold)
      == QueryAnswer(refusal, [], true, V.Search(points, q, t))
  {
    hide V.Search, V.Matches, V.Fused;
    V.HitsAreStored(points, q, t);
    var r := V.Search(points, q, t);
    assert r != [] ==> r[0] in r;
  }

  /** When the model's reply becomes an answer: some stored, matching chunk reaches the threshold, the reply has a
      text, and at least one of its citations is sound for what was retrieved. */
  lemma AnswersIff(points: seq<V.Point>, q: V.Query, t: V.Tools, minScore: real, refusal: string,
                   reply: seq<Chunk> -> Parsed, fold: Fold)
    requires IsSqrt(t.sqrt) && q.topK >= 1
    ensures var a, bodies := Answered(points, q, t, minScore, refusal, reply, fold), Bodies(V.Search(points, q, t));
      && (!a.refused <==>
        && (exists p :: p in points && V.Matches(p.chunk, q.filters) && V.Fused(q, p, t) >= minScore)
        && Words(reply(bodies).answer) != []
        && exists raw :: raw in reply(bodies).citations && Sound(raw, bodies, fold))
      && a.answer == (if a.refused then refusal else Strip(reply(bodies).answer))
  {
    hide V.Search, V.Matches, V.Fused, Kept, Sound, Strip, Words, Bodies;
    V.GateIsComplete(points, q, t, minScore);
    var bodies := Bodies(V.Search(points, q, t));
    NoWordsIffBlank(reply(bodies).answer);
    SomeKeptIff(reply(bodies).citations, bodies, fold);
  }

  lemma SomeKeptIff(raws: seq<Raw>, bodies: seq<Chunk>, fold: Fold)
    ensures Kept(raws, bodies, fold) != [] <==> exists raw :: raw in raws && Sound(raw, bodies, fold)
  {
    hide Kept, Sound;
    var ix := KeptAreSound(raws, bodies, fold);
    if ix != [] { assert Sound(raws[ix[0]], bodies, fold) && raws[ix[0]] in raws; }
    if raw :| raw in raws && Sound(raw, bodies, fold) {
      var i: nat :| i < |raws| && raws[i] == raw;
      assert i in ix;
    }
  }
}
