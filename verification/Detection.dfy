/** app/services/comparison_orchestrator.py: repeated framework detection, and what its attempts agree on. */
module Detection {
  import opened Wrappers
  import opened Text
  import opened Reals

  /** A Python float: finite, or one of NaN and the infinities. */
  datatype Float = Finite(x: real) | NotFinite

  /** The `confidence` entry of a parsed answer, as the model wrote it. */
  datatype Raw = Absent | Bool(b: bool) | Number(value: Float) | Str(text: string) | Other

  /** One parsed answer; `body` stands for its rationale and issues. */
  datatype Parsed = Parsed(framework: Option<string>, confidence: Raw, body: string)

  datatype Attempt = Answered(parsed: Parsed) | Raised(error: string)

  /** Python `float(text.strip())`, None when it raises. */
  type Reader = string -> Option<Float>

  /** A finite confidence is clamped into [0, 1], anything else reads as 0. */
  function ConfidenceOf(p: Parsed, read: Reader): (c: real)
    ensures 0.0 <= c <= 1.0
    ensures p.confidence.Number? && p.confidence.value.Finite? ==> c == Min(1.0, Max(0.0, p.confidence.value.x))
    ensures p.confidence.Str? && read(p.confidence.text).Some? && read(p.confidence.text).value.Finite? ==>
      c == Min(1.0, Max(0.0, read(p.confidence.text).value.x))
    ensures p.confidence.Bool? || p.confidence.Absent? || p.confidence.Other? ==> c == 0.0
  {
    match p.confidence
    case Number(f) => Clamp(f)
    case Str(s) => (match read(s) case Some(f) => Clamp(f) case None => 0.0)
    case _ => 0.0
  }

  function Clamp(f: Float): real {
    if f.NotFinite? || f.x < 0.0 then 0.0 else if f.x > 1.0 then 1.0 else f.x
  }

  // ----- who agrees with whom -----

  const FRAMEWORKS := ["US", "IFRS"]
  const CAP := 0.99

  predicate Valid(p: Parsed) { p.framework == Some("US") || p.framework == Some("IFRS") }

  function ValidOf(rs: seq<Parsed>): seq<Parsed> {
    if rs == [] then []
    else
      var n := |rs| - 1;
      ValidOf(rs[..n]) + (if Valid(rs[n]) then [rs[n]] else [])
  }

  function Agreeing(rs: seq<Parsed>, fw: string): seq<Parsed> {
    if rs == [] then []
    else
      var n := |rs| - 1;
      Agreeing(rs[..n], fw) + (if rs[n].framework == Some(fw) then [rs[n]] else [])
  }

  function Total(rs: seq<Parsed>, read: Reader): real {
    if rs == [] then 0.0
    else
      var n := |rs| - 1;
      Total(rs[..n], read) + ConfidenceOf(rs[n], read)
  }

  /** `rs[i]` is the first of the most confident answers. */
  predicate FirstBest(rs: seq<Parsed>, i: nat, read: Reader) {
    && i < |rs|
    && (forall j | 0 <= j < i :: ConfidenceOf(rs[j], read) < ConfidenceOf(rs[i], read))
    && (forall j | i <= j < |rs| :: ConfidenceOf(rs[j], read) <= ConfidenceOf(rs[i], read))
  }

  /** Where Python's `max(rs, key=_confidence_of)` finds its answer. */
  function BestIndex(rs: seq<Parsed>, read: Reader): (i: nat)
    requires rs != []
    ensures FirstBest(rs, i, read)
  {
    hide ConfidenceOf;
    if |rs| == 1 then 0
    else
      var n := |rs| - 1;
      var i := BestIndex(rs[..n], read);
      FirstBestNext(rs, i, read);
      if ConfidenceOf(rs[n], read) > ConfidenceOf(rs[i], read) then n else i
  }

  lemma FirstBestNext(rs: seq<Parsed>, i: nat, read: Reader)
    requires rs != [] && FirstBest(rs[..|rs| - 1], i, read)
    ensures var n := |rs| - 1;
      FirstBest(rs, if ConfidenceOf(rs[n], read) > ConfidenceOf(rs[i], read) then n else i, read)
  {
    hide ConfidenceOf;
    var n := |rs| - 1;
    assert forall j | 0 <= j < n :: rs[..n][j] == rs[j];
  }

  function MostConfident(rs: seq<Parsed>, read: Reader): (m: Parsed)
    requires rs != []
    ensures m in rs && forall p | p in rs :: ConfidenceOf(p, read) <= ConfidenceOf(m, read)
  {
    hide ConfidenceOf;
    rs[BestIndex(rs, read)]
  }

  function Best(rs: seq<Parsed>, read: Reader): real
    requires rs != []
  {
    ConfidenceOf(MostConfident(rs, read), read)
  }

  /** The keys of the dictionary of answers by framework: frameworks in the order first seen. */
  function Keys(valid: seq<Parsed>): (ks: seq<string>)
    requires forall p | p in valid :: Valid(p)
    ensures valid != [] ==> ks != []
    ensures forall k :: k in ks <==> exists p :: p in valid && p.framework == Some(k)
  {
    if valid == [] then []
    else
      var n := |valid| - 1;
      assert valid[n] in valid && Valid(valid[n]);
      var ks, k := Keys(valid[..n]), valid[n].framework.value;
      assert valid == valid[..n] + [valid[n]];
      if k in ks then ks else ks + [k]
  }

  /** More answers, or as many with a larger sum of confidences. */
  predicate Above(a: string, b: string, rs: seq<Parsed>, read: Reader) {
    var n, m := |Agreeing(rs, a)|, |Agreeing(rs, b)|;
    n > m || (n == m && Total(Agreeing(rs, a), read) > Total(Agreeing(rs, b), read))
  }

  function Modal(keys: seq<string>, rs: seq<Parsed>, read: Reader): (fw: string)
    requires keys != []
    ensures fw in keys && forall k | k in keys :: !Above(k, fw, rs, read)
  {
    hide Agreeing, Total;
    if |keys| == 1 then keys[0]
    else
      var n := |keys| - 1;
      var m := Modal(keys[..n], rs, read);
      assert keys == keys[..n] + [keys[n]];
      if Above(keys[n], m, rs, read) then keys[n] else m
  }

  // ----- the consensus -----

  datatype Verdict = Verdict(carrier: Option<Parsed>, confidence: real)

  function Share(gap: real, n: nat): real
    requires n > 0
  {
    gap * (n - 1) as real / n as real
  }

  function Boosted(base: real, n: nat): real
    requires n > 0
  {
    base + Share(1.0 - base, n)
  }

  function Consensus(rs: seq<Parsed>, read: Reader): Verdict {
    var valid := ValidOf(rs);
    if valid == [] then
      if rs == [] then Verdict(None, 0.0)
      else
        var c := MostConfident(rs, read);
        Verdict(Some(c), ConfidenceOf(c, read))
    else
      ValidOfSpec(rs);
      Decide(valid, read)
  }

  function Decide(valid: seq<Parsed>, read: Reader): Verdict
    requires valid != [] && forall p | p in valid :: Valid(p)
  {
    var fw := Modal(Keys(valid), valid, read);
    AgreeingSpec(valid, fw);
    var agreeing := Agreeing(valid, fw);
    var carrier := MostConfident(agreeing, read);
    var base := ConfidenceOf(carrier, read);
    if |agreeing| == |valid| && |agreeing| >= 2 then Verdict(Some(carrier), Min(Boosted(base, |agreeing|), CAP))
    else Verdict(Some(carrier), base)
  }

  // ----- facts about the groups -----

  lemma {:induction false} ValidOfSpec(rs: seq<Parsed>)
    ensures forall p :: p in ValidOf(rs) <==> p in rs && Valid(p)
    ensures |ValidOf(rs)| <= |rs|
  {
    if rs != [] {
      var n := |rs| - 1;
      ValidOfSpec(rs[..n]);
      assert rs == rs[..n] + [rs[n]];
    }
  }

  lemma AgreeingNext(rs: seq<Parsed>, p: Parsed, fw: string)
    ensures Agreeing(rs + [p], fw) == if p.framework == Some(fw) then Agreeing(rs, fw) + [p] else Agreeing(rs, fw)
  {
    assert (rs + [p])[..|rs|] == rs;
    Neutral(Agreeing(rs, fw));
  }

  lemma AgreeingSpec(rs: seq<Parsed>, fw: string)
    ensures forall p :: p in Agreeing(rs, fw) <==> p in rs && p.framework == Some(fw)
    ensures |Agreeing(rs, fw)| <= |rs|
    ensures |Agreeing(rs, fw)| == |rs| <==> AllName(rs, fw)
    ensures AllName(rs, fw) ==> Agreeing(rs, fw) == rs
  {
    hide Agreeing, AllName;
    AgreeingMembers(rs, fw);
    AgreeingSize(rs, fw);
  }

  lemma {:induction false} AgreeingMembers(rs: seq<Parsed>, fw: string)
    ensures forall p :: p in Agreeing(rs, fw) <==> p in rs && p.framework == Some(fw)
  {
    if rs != [] {
      hide Agreeing;
      var n := |rs| - 1;
      AgreeingMembers(rs[..n], fw);
      AgreeingNext(rs[..n], rs[n], fw);
      assert rs == rs[..n] + [rs[n]];
    }
  }

  lemma {:induction false} AgreeingSize(rs: seq<Parsed>, fw: string)
    ensures |Agreeing(rs, fw)| <= |rs|
    ensures |Agreeing(rs, fw)| == |rs| <==> AllName(rs, fw)
    ensures AllName(rs, fw) ==> Agreeing(rs, fw) == rs
  {
    if rs != [] {
      hide Agreeing, AllName;
      var most, p := rs[..|rs| - 1], rs[|rs| - 1];
      LastOff(rs);
      AgreeingSize(most, fw);
      AgreeingNext(most, p, fw);
      AllNameNext(most, p, fw);
    }
  }

  lemma LastOff<T>(s: seq<T>)
    requires s != []
    ensures s == s[..|s| - 1] + [s[|s| - 1]]
  {
  }

  lemma AllNameNext(rs: seq<Parsed>, p: Parsed, fw: string)
    ensures AllName(rs + [p], fw) <==> AllName(rs, fw) && p.framework == Some(fw)
  {
    assert p in rs + [p] && forall q | q in rs :: q in rs + [p];
  }

  /** Dropping the unusable answers changes no framework's group. */
  lemma {:induction false} AgreeingAmongValid(rs: seq<Parsed>, fw: string)
    requires fw in FRAMEWORKS
    ensures Agreeing(ValidOf(rs), fw) == Agreeing(rs, fw)
  {
    if rs != [] {
      hide Agreeing, ValidOf;
      var most, p := rs[..|rs| - 1], rs[|rs| - 1];
      LastOff(rs);
      AgreeingAmongValid(most, fw);
      ValidOfNext(most, p);
      AgreeingNext(most, p, fw);
      AgreeingNext(ValidOf(most), p, fw);
      assert fw == "US" || fw == "IFRS";
    }
  }

  // ----- what the consensus means -----

  /** At least two usable answers, all naming the same framework. */
  ghost predicate Unanimous(rs: seq<Parsed>) {
    |ValidOf(rs)| >= 2 && exists fw :: AllName(ValidOf(rs), fw)
  }

  predicate AllName(rs: seq<Parsed>, fw: string) {
    forall p | p in rs :: p.framework == Some(fw)
  }

  /** `c` carries the most frequent framework (ties by summed confidence), and no answer naming it is
      more confident. */
  ghost predicate Plurality(c: Parsed, rs: seq<Parsed>, read: Reader) {
    && Valid(c) && c in rs
    && (forall fw | fw in FRAMEWORKS :: !Above(fw, c.framework.value, rs, read))
    && forall p | p in rs && p.framework == c.framework :: ConfidenceOf(p, read) <= ConfidenceOf(c, read)
  }

  lemma BoostClosesTheGap(base: real, n: nat)
    requires n > 0
    ensures 1.0 - Boosted(base, n) == (1.0 - base) / n as real
  {
    ShareOfGap(1.0 - base, n);
  }

  lemma ShareOfGap(d: real, n: nat)
    requires n > 0
    ensures Share(d, n) == d - d / n as real
  {
    var m := n as real;
    assert (n - 1) as real == m - 1.0;
    assert d * (m - 1.0) == d * m - d;
    DivideOff(d, m);
  }

  lemma DivideOff(d: real, m: real)
    requires m > 0.0
    ensures (d * m - d) / m == d - d / m
  {
    var q := d / m;
    assert m * q == d;
    assert (d * m - d) == m * (d - q) by { Distribute(m, d, q); }
    assert (m * (d - q)) / m == d - q;
  }

  lemma DecideSpec(valid: seq<Parsed>, read: Reader)
    requires valid != [] && forall p | p in valid :: Valid(p)
    ensures var v := Decide(valid, read);
      && v.carrier.Some?
      && (if |valid| >= 2 && exists fw :: AllName(valid, fw) then
            v.confidence == Level(valid, read)
          else v.confidence == ConfidenceOf(v.carrier.value, read))
      && Plurality(v.carrier.value, valid, read)
  {
    hide Keys, Modal, MostConfident, Agreeing, Total, ConfidenceOf, Boosted, Above, Valid;
    var fw := Modal(Keys(valid), valid, read);
    AgreeingSpec(valid, fw);
    var agreeing := Agreeing(valid, fw);
    var n := |agreeing|;
    BoostClosesTheGap(Best(agreeing, read), n);
    if exists f :: AllName(valid, f) {
      var f :| AllName(valid, f);
      assert AllName(valid, fw) by { assert valid[0].framework == Some(f); }
    }
    assert (exists f :: AllName(valid, f)) <==> AllName(valid, fw);
    NoneAbove(valid, read);
  }

  lemma NoneAbove(valid: seq<Parsed>, read: Reader)
    requires valid != [] && forall p | p in valid :: Valid(p)
    ensures forall f | f in FRAMEWORKS :: !Above(f, Modal(Keys(valid), valid, read), valid, read)
  {
    hide Keys, Modal, Agreeing, Total;
    var keys := Keys(valid);
    forall f | f in FRAMEWORKS ensures !Above(f, Modal(keys, valid, read), valid, read) {
      if f !in keys { Unseen(valid, f, Modal(keys, valid, read)); }
    }
  }

  lemma Unseen(valid: seq<Parsed>, f: string, fw: string)
    requires (forall p | p in valid :: p.framework != Some(f)) && exists p :: p in valid && p.framework == Some(fw)
    ensures Agreeing(valid, f) == [] && Agreeing(valid, fw) != []
  {
    hide Agreeing;
    AgreeingSpec(valid, f);
    AgreeingSpec(valid, fw);
    var p :| p in valid && p.framework == Some(fw);
    assert p in Agreeing(valid, fw);
    Inhabited(Agreeing(valid, f));
  }

  lemma Inhabited<T>(s: seq<T>)
    ensures s != [] ==> exists x :: x in s
  {
    if s != [] { assert s[0] in s; }
  }

  /** What the agreement of a list of answers says, without the grouping that finds it. Unanimity
      closes the gap to certainty by the number of answers, up to the cap; without it the carrier's own
      confidence stands. The carrier is a plurality answer whenever any answer is usable. */
  lemma ConsensusSpec(rs: seq<Parsed>, read: Reader)
    requires rs != []
    ensures var v := Consensus(rs, read);
      && v.carrier.Some? && v.carrier.value in rs
      && (if Unanimous(rs) then v.confidence == Level(ValidOf(rs), read)
          else v.confidence == ConfidenceOf(v.carrier.value, read))
      && (ValidOf(rs) != [] ==> Plurality(v.carrier.value, rs, read))
      && (ValidOf(rs) == [] ==> v.confidence == Best(rs, read))
  {
    hide Decide, MostConfident, Agreeing, Total, ConfidenceOf;
    var valid := ValidOf(rs);
    ValidOfSpec(rs);
    if valid != [] {
      DecideSpec(valid, read);
      var c := Decide(valid, read).carrier.value;
      forall fw | fw in FRAMEWORKS ensures Above(fw, c.framework.value, rs, read) == Above(fw, c.framework.value, valid, read) {
        AgreeingAmongValid(rs, fw);
        AgreeingAmongValid(rs, c.framework.value);
      }
    }
  }

  /** The confidence of `n` unanimous answers: 1 - (1 - best) / n, at most the cap. */
  function Level(valid: seq<Parsed>, read: Reader): real
    requires valid != []
  {
    Min(1.0 - (1.0 - Best(valid, read)) / |valid| as real, CAP)
  }

  // ----- the retrying loop -----

  /** The answers among the attempts, in order. */
  function Answers(attempts: seq<Attempt>): seq<Parsed> {
    if attempts == [] then []
    else
      var n := |attempts| - 1;
      Answers(attempts[..n]) + (if attempts[n].Answered? then [attempts[n].parsed] else [])
  }

  datatype Outcome =
    | Found(parsed: Parsed)
    | Failed(error: string)
    | NoAttempt

  function WithConfidence(p: Parsed, c: real): Parsed { p.(confidence := Number(Finite(c))) }

  /** Python `round(x, 4)`. */
  type Round = real -> real

  /** Attempt `k` ends the loop: it is confident enough alone, or the answers so far are together. */
  predicate Ends(attempts: seq<Attempt>, k: nat, target: real, read: Reader)
    requires k < |attempts|
  {
    && attempts[k].Answered?
    && (ConfidenceOf(attempts[k].parsed, read) >= target
        || Consensus(Answers(attempts[..k + 1]), read).confidence >= target)
  }

  /** What an ending attempt makes the function return. */
  function Ended(attempts: seq<Attempt>, k: nat, target: real, read: Reader, round: Round): Parsed
    requires k < |attempts| && attempts[k].Answered?
  {
    var v := Consensus(Answers(attempts[..k + 1]), read);
    if ConfidenceOf(attempts[k].parsed, read) >= target || v.carrier.None? then attempts[k].parsed
    else WithConfidence(v.carrier.value, round(v.confidence))
  }

  /** What the function returns when no attempt ends it. */
  function Exhausted(rs: seq<Parsed>, read: Reader, round: Round): Parsed
    requires rs != []
  {
    var v := Consensus(rs, read);
    if v.carrier.None? then MostConfident(rs, read)
    else WithConfidence(v.carrier.value, round(Max(v.confidence, ConfidenceOf(v.carrier.value, read))))
  }

  function Finish(attempts: seq<Attempt>, read: Reader, round: Round): Outcome
    requires attempts != []
  {
    if Answers(attempts) != [] then Found(Exhausted(Answers(attempts), read, round))
    else match attempts[|attempts| - 1]
      case Raised(e) => Failed(e)
      case Answered(_) => NoAttempt
  }

  method GroupByFramework(valid: seq<Parsed>) returns (keys: seq<string>, byFramework: map<string, seq<Parsed>>)
    requires forall p | p in valid :: Valid(p)
    ensures keys == Keys(valid)
    ensures forall k | k in keys :: k in byFramework && byFramework[k] == Agreeing(valid, k)
  {
    hide Valid;
    keys, byFramework := [], map[];
    for i := 0 to |valid|
      invariant keys == Keys(valid[..i])
      invariant forall k :: k in keys <==> k in byFramework
      invariant forall k | k in byFramework :: byFramework[k] == Agreeing(valid[..i], k)
    {
      hide Keys, Agreeing;
      assert valid[i] in valid && Valid(valid[i]);
      GroupStep(valid, i);
      var k := valid[i].framework.value;
      if k !in byFramework {
        keys, byFramework := keys + [k], byFramework[k := []];
      }
      byFramework := byFramework[k := byFramework[k] + [valid[i]]];
    }
    TakeAll(valid);
  }

  lemma GroupStep(valid: seq<Parsed>, i: nat)
    requires i < |valid| && forall p | p in valid :: Valid(p)
    ensures valid[i].framework.Some?
    ensures var k := valid[i].framework.value;
      && Keys(valid[..i + 1]) == (if k in Keys(valid[..i]) then Keys(valid[..i]) else Keys(valid[..i]) + [k])
      && Agreeing(valid[..i + 1], k) == Agreeing(valid[..i], k) + [valid[i]]
      && (forall f | f != k :: Agreeing(valid[..i + 1], f) == Agreeing(valid[..i], f))
      && (k !in Keys(valid[..i]) ==> Agreeing(valid[..i], k) == [])
  {
    assert valid[i] in valid && Valid(valid[i]);
    var k := valid[i].framework.value;
    var before := valid[..i + 1][..i];
    assert before == valid[..i] && forall p | p in before :: p in valid;
    forall f | f != k ensures Agreeing(valid[..i + 1], f) == Agreeing(valid[..i], f) {
      Neutral(Agreeing(valid[..i], f));
    }
    AgreeingSpec(before, k);
    Inhabited(Agreeing(before, k));
  }

  method ConsensusOf(rs: seq<Parsed>, read: Reader) returns (v: Verdict)
    ensures v == Consensus(rs, read)
  {
    hide Keys, Modal, Agreeing, MostConfident, ConfidenceOf, Boosted;
    var valid := ValidOf(rs);
    if valid == [] {
      if rs == [] { return Verdict(None, 0.0); }
      var best := MostConfident(rs, read);
      return Verdict(Some(best), ConfidenceOf(best, read));
    }
    ValidOfSpec(rs);
    var keys, byFramework := GroupByFramework(valid);
    var modal := Modal(keys, valid, read);
    AgreeingSpec(valid, modal);
    var agreeing := byFramework[modal];
    var carrier := MostConfident(agreeing, read);
    var base := ConfidenceOf(carrier, read);
    var n := |agreeing|;
    if n == |valid| && n >= 2 {
      return Verdict(Some(carrier), Min(Boosted(base, n), CAP));
    }
    v := Verdict(Some(carrier), base);
  }

  /** The highest confidence an answer claims for itself, 0 when there is none. */
  function Bar(rs: seq<Parsed>, read: Reader): real {
    if rs == [] then 0.0
    else
      var n := |rs| - 1;
      Max(Bar(rs[..n], read), ConfidenceOf(rs[n], read))
  }

  lemma {:induction false} BarIsBest(rs: seq<Parsed>, read: Reader)
    requires rs != []
    ensures Bar(rs, read) == Best(rs, read)
  {
    hide ConfidenceOf;
    var n := |rs| - 1;
    LastOff(rs);
    if n > 0 {
      BarIsBest(rs[..n], read);
      BestGrows(rs[..n], rs[n], read);
    } else {
      assert MostConfident(rs, read) == rs[0];
    }
  }

  /** What each prompt quotes: the best confidence before it. */
  predicate Quoted(attempts: seq<Attempt>, bars: seq<real>, read: Reader)
    requires |bars| <= |attempts|
  {
    forall k | 0 <= k < |bars| :: bars[k] == Bar(Answers(attempts[..k]), read)
  }

  predicate NoneEnds(attempts: seq<Attempt>, n: nat, target: real, read: Reader)
    requires n <= |attempts|
  {
    forall k | 0 <= k < n :: !Ends(attempts, k, target, read)
  }

  /** Up to `|attempts|` tries. `bars[k]` is the confidence that retry `k`'s prompt quotes. */
  method DetectWithConfidence(attempts: seq<Attempt>, target: real, read: Reader, round: Round)
    returns (out: Outcome, bars: seq<real>)
    ensures if attempts == [] then |bars| == 0 else 0 < |bars| <= |attempts|
    ensures |bars| <= |attempts| && Quoted(attempts, bars, read)
    ensures attempts != [] ==> NoneEnds(attempts, |bars| - 1, target, read)
    ensures attempts == [] ==> out == NoAttempt
    ensures (attempts != [] && Ends(attempts, |bars| - 1, target, read) ==>
      out == Found(Ended(attempts, |bars| - 1, target, read, round)))
    ensures (attempts != [] && !Ends(attempts, |bars| - 1, target, read) ==>
      |bars| == |attempts| && out == Finish(attempts, read, round))
  {
    hide ConfidenceOf, Consensus, MostConfident, Bar, Answers;
    NothingYet(read);
    var results, best: real, lastError: Option<string> := [], 0.0, None;
    bars := [];
    for k := 0 to |attempts|
      invariant |bars| == k && results == Answers(attempts[..k]) && best == Bar(results, read)
      invariant Quoted(attempts, bars, read) && NoneEnds(attempts, k, target, read)
      invariant lastError.Some? ==> k > 0
      invariant results == [] && k > 0 ==> attempts[k - 1].Raised? && lastError == Some(attempts[k - 1].error)
    {
      bars := bars + [best];
      AnswersNext(attempts, k);
      if attempts[k].Raised? {
        lastError := Some(attempts[k].error);
        continue;
      }
      var parsed := attempts[k].parsed;
      BarNext(results, parsed, read);
      results := results + [parsed];
      var raw := ConfidenceOf(parsed, read);
      best := Max(best, raw);
      if raw >= target { return Found(parsed), bars; }
      var v := ConsensusOf(results, read);
      CarrierExists(results, read);
      if v.carrier.Some? && v.confidence >= target {
        return Found(WithConfidence(v.carrier.value, round(v.confidence))), bars;
      }
    }
    TakeAll(attempts);
    if results == [] {
      if lastError.None? { return NoAttempt, bars; }
      return Failed(lastError.value), bars;
    }
    var v := ConsensusOf(results, read);
    CarrierExists(results, read);
    out := Found(WithConfidence(v.carrier.value, round(Max(v.confidence, ConfidenceOf(v.carrier.value, read)))));
  }

  lemma NothingYet(read: Reader)
    ensures Answers([]) == [] && Bar([], read) == 0.0
  {
  }

  lemma CarrierExists(rs: seq<Parsed>, read: Reader)
    requires rs != []
    ensures Consensus(rs, read).carrier.Some?
  {
    hide Unanimous, Level, ConfidenceOf, Plurality, ValidOf;
    ConsensusSpec(rs, read);
  }

  lemma AnswersNext(attempts: seq<Attempt>, k: nat)
    requires k < |attempts|
    ensures attempts[k].Answered? ==> Answers(attempts[..k + 1]) == Answers(attempts[..k]) + [attempts[k].parsed]
    ensures attempts[k].Raised? ==> Answers(attempts[..k + 1]) == Answers(attempts[..k])
  {
    Neutral(Answers(attempts[..k]));
    assert attempts[..k + 1][..k] == attempts[..k];
  }

  lemma BarNext(rs: seq<Parsed>, p: Parsed, read: Reader)
    ensures Bar(rs + [p], read) == Max(Bar(rs, read), ConfidenceOf(p, read))
  {
    hide ConfidenceOf;
    assert (rs + [p])[..|rs|] == rs;
  }

  // ----- when the loop stops early -----

  /** Enough unanimous answers: at least two, with the gap of the best one, shared among them, small enough. */
  ghost predicate UnanimousEnough(rs: seq<Parsed>, target: real, read: Reader) {
    && Unanimous(rs)
    && target <= CAP
    && (1.0 - Best(ValidOf(rs), read)) / |ValidOf(rs)| as real <= 1.0 - target
  }

  ghost predicate OneIsEnough(attempts: seq<Attempt>, target: real, read: Reader) {
    exists p :: p in Answers(attempts) && ConfidenceOf(p, read) >= target
  }

  ghost predicate EndsEarly(attempts: seq<Attempt>, target: real, read: Reader) {
    exists k: nat :: k < |attempts| && Ends(attempts, k, target, read)
  }

  ghost predicate SomePrefixAgrees(attempts: seq<Attempt>, target: real, read: Reader) {
    exists k: nat :: k <= |attempts| && UnanimousEnough(Answers(attempts[..k]), target, read)
  }

  lemma {:induction false} AnswersFrom(attempts: seq<Attempt>)
    ensures forall p :: p in Answers(attempts) <==> Answered(p) in attempts
    ensures Answers(attempts) == [] <==> forall a | a in attempts :: a.Raised?
  {
    if attempts != [] {
      var n := |attempts| - 1;
      AnswersFrom(attempts[..n]);
      assert attempts == attempts[..n] + [attempts[n]];
    }
  }

  /** The answers of a prefix are answers of the whole. */
  lemma PrefixAnswers(attempts: seq<Attempt>, k: nat)
    requires k <= |attempts|
    ensures forall p | p in Answers(attempts[..k]) :: p in Answers(attempts)
  {
    hide Answers;
    AnswersFrom(attempts);
    AnswersFrom(attempts[..k]);
  }

  /** One attempt's step: the agreement clears the bar iff an answer does alone or unanimity suffices. */
  lemma AgreementClears(rs: seq<Parsed>, target: real, read: Reader)
    requires rs != []
    ensures Consensus(rs, read).confidence >= target ==>
      UnanimousEnough(rs, target, read) || exists p :: p in rs && ConfidenceOf(p, read) >= target
    ensures UnanimousEnough(rs, target, read) ==> Consensus(rs, read).confidence >= target
  {
    hide Consensus, ConfidenceOf, ValidOf, MostConfident, Plurality;
    ConsensusSpec(rs, read);
  }

  /** Detection stops before its attempts are used up iff some attempt alone reaches the target, or the
      target is within the cap and the usable answers of some prefix are at least two, agree, and leave
      a gap, divided by their number, of at most 1 - target. */
  lemma EndsEarlyIff(attempts: seq<Attempt>, target: real, read: Reader)
    ensures (EndsEarly(attempts, target, read)
      <==> OneIsEnough(attempts, target, read) || SomePrefixAgrees(attempts, target, read))
  {
    hide Answers, Consensus, ConfidenceOf, UnanimousEnough;
    if EndsEarly(attempts, target, read) {
      var k: nat :| k < |attempts| && Ends(attempts, k, target, read);
      EndingHasCause(attempts, k, target, read);
    }
    if OneIsEnough(attempts, target, read) {
      var p :| p in Answers(attempts) && ConfidenceOf(p, read) >= target;
      AnswersFrom(attempts);
      var k :| 0 <= k < |attempts| && attempts[k] == Answered(p);
      assert Ends(attempts, k, target, read);
    }
    if SomePrefixAgrees(attempts, target, read) {
      var k: nat :| k <= |attempts| && UnanimousEnough(Answers(attempts[..k]), target, read);
      AgreementEnds(attempts, k, target, read);
    }
  }

  lemma EndingHasCause(attempts: seq<Attempt>, k: nat, target: real, read: Reader)
    requires k < |attempts| && Ends(attempts, k, target, read)
    ensures OneIsEnough(attempts, target, read) || UnanimousEnough(Answers(attempts[..k + 1]), target, read)
  {
    hide Answers, Consensus, ConfidenceOf, UnanimousEnough;
    var p, rs := attempts[k].parsed, Answers(attempts[..k + 1]);
    AnswersNext(attempts, k);
    PrefixAnswers(attempts, k + 1);
    assert p in rs;
    if ConfidenceOf(p, read) < target { AgreementClears(rs, target, read); }
  }

  /** A prefix that agrees enough ends at its last answer. */
  lemma {:induction false} AgreementEnds(attempts: seq<Attempt>, k: nat, target: real, read: Reader)
    requires k <= |attempts| && UnanimousEnough(Answers(attempts[..k]), target, read)
    ensures EndsEarly(attempts, target, read)
  {
    hide Answers, Consensus, ConfidenceOf;
    NothingYet(read);
    var n := k - 1;
    AnswersNext(attempts, n);
    if attempts[n].Raised? {
      AgreementEnds(attempts, n, target, read);
    } else {
      AgreementClears(Answers(attempts[..k]), target, read);
      assert Ends(attempts, n, target, read);
    }
  }

  lemma WholeIsPrefix(attempts: seq<Attempt>, target: real, read: Reader)
    ensures UnanimousEnough(Answers(attempts), target, read) ==> SomePrefixAgrees(attempts, target, read)
  {
    hide Answers, UnanimousEnough;
    TakeAll(attempts);
    var k: nat := |attempts|;
    assert attempts[..k] == attempts;
  }

  /** The early end returns the attempt that is confident enough, untouched, or else the answers so far
      are unanimous enough, and a plurality answer of theirs is re-labelled with an agreement that
      reached the target before rounding. */
  lemma EarlyIsAtTarget(attempts: seq<Attempt>, k: nat, target: real, read: Reader, round: Round)
    requires k < |attempts| && Ends(attempts, k, target, read)
    requires NoneEnds(attempts, k, target, read)
    ensures var p, rs := attempts[k].parsed, Answers(attempts[..k + 1]); (
      if ConfidenceOf(p, read) >= target then Ended(attempts, k, target, read, round) == p
      else UnanimousEnough(rs, target, read) && exists c: Parsed, x: real ::
        && Ended(attempts, k, target, read, round) == WithConfidence(c, round(x)) && x >= target
        && c in rs && Plurality(c, rs, read))
  {
    hide ConfidenceOf, Plurality, ValidOf, Unanimous, Level, Answers, Consensus, UnanimousEnough, Ends;
    EndsMeans(attempts, k, target, read);
    var p, rs := attempts[k].parsed, Answers(attempts[..k + 1]);
    AnswersNext(attempts, k);
    if ConfidenceOf(p, read) < target {
      NoneAlone(attempts, k, target, read);
      AgreementClears(rs, target, read);
      UsableWhenUnanimous(rs, target, read);
      ConsensusSpec(rs, read);
      var v := Consensus(rs, read);
      assert v.carrier.value in rs && v.confidence >= target;
      assert Ended(attempts, k, target, read, round) == WithConfidence(v.carrier.value, round(v.confidence));
    }
  }

  lemma EndsMeans(attempts: seq<Attempt>, k: nat, target: real, read: Reader)
    requires k < |attempts| && Ends(attempts, k, target, read)
    ensures attempts[k].Answered?
    ensures ConfidenceOf(attempts[k].parsed, read) >= target
         || Consensus(Answers(attempts[..k + 1]), read).confidence >= target
  {
  }

  lemma UsableWhenUnanimous(rs: seq<Parsed>, target: real, read: Reader)
    requires UnanimousEnough(rs, target, read)
    ensures ValidOf(rs) != []
  {
    hide ValidOf, ConfidenceOf;
  }

  lemma NoneAlone(attempts: seq<Attempt>, k: nat, target: real, read: Reader)
    requires k < |attempts| && attempts[k].Answered? && ConfidenceOf(attempts[k].parsed, read) < target
    requires NoneEnds(attempts, k, target, read)
    ensures forall p | p in Answers(attempts[..k + 1]) :: ConfidenceOf(p, read) < target
  {
    hide ConfidenceOf, Consensus, Answers;
    AnswersFrom(attempts[..k + 1]);
    forall p | p in Answers(attempts[..k + 1]) ensures ConfidenceOf(p, read) < target {
      var j :| 0 <= j < k + 1 && attempts[..k + 1][j] == Answered(p);
      assert attempts[j] == Answered(p);
      assert j < k ==> !Ends(attempts, j, target, read);
    }
  }

  /** Without an early end, what is returned is a plurality answer (the most confident one when none is
      usable), re-labelled with a confidence that was below the target before rounding; and the
      call raises iff every attempt raised. */
  lemma OtherwiseBelowTarget(attempts: seq<Attempt>, target: real, read: Reader, round: Round)
    requires attempts != [] && !EndsEarly(attempts, target, read)
    ensures var out := Finish(attempts, read, round); (
      && (out.Failed? <==> forall a | a in attempts :: a.Raised?)
      && (!out.Failed? ==> out.Found? && exists c: Parsed, x: real ::
          && out.parsed == WithConfidence(c, round(x)) && x < target && x >= ConfidenceOf(c, read)
          && c in Answers(attempts)
          && (ValidOf(Answers(attempts)) != [] ==> Plurality(c, Answers(attempts), read))))
  {
    hide ConfidenceOf, Consensus, Plurality, ValidOf, Unanimous, Level, Answers;
    var rs := Answers(attempts);
    AnswersFrom(attempts);
    if rs == [] {
      assert attempts[|attempts| - 1] in attempts;
    } else {
      ConsensusSpec(rs, read);
      EndsEarlyIff(attempts, target, read);
      AgreementClears(rs, target, read);
      WholeIsPrefix(attempts, target, read);
      var v := Consensus(rs, read);
      var c, x := v.carrier.value, Max(v.confidence, ConfidenceOf(v.carrier.value, read));
      assert c in rs && x < target;
    }
  }

  // ----- agreement raises, dissent lowers -----

  lemma ValidOfNext(rs: seq<Parsed>, r: Parsed)
    ensures ValidOf(rs + [r]) == if Valid(r) then ValidOf(rs) + [r] else ValidOf(rs)
  {
    assert (rs + [r])[..|rs|] == rs;
    Neutral(ValidOf(rs));
  }

  /** One more answer naming the same framework lowers the consensus only from above the cap to the cap. */
  lemma AgreementHelps(rs: seq<Parsed>, r: Parsed, fw: string, read: Reader)
    requires ValidOf(rs) != [] && AllName(ValidOf(rs) + [r], fw)
    ensures Consensus(rs + [r], read).confidence >= Min(Consensus(rs, read).confidence, CAP)
    ensures Consensus(rs + [r], read).confidence < Consensus(rs, read).confidence <==> Consensus(rs, read).confidence > CAP
    ensures Unanimous(rs) ==> Consensus(rs + [r], read).confidence >= Consensus(rs, read).confidence
  {
    hide ConfidenceOf, ValidOf, Plurality, Consensus, MostConfident;
    var valid := ValidOf(rs);
    ValidOfSpec(rs);
    assert (valid + [r])[0] == valid[0] && r in valid + [r] && Valid(valid[0]) && Valid(r);
    ValidOfNext(rs, r);
    assert AllName(valid, fw) by { assert forall p | p in valid :: p in valid + [r]; }
    ConsensusSpec(rs, read);
    ConsensusSpec(rs + [r], read);
    BestGrows(valid, r, read);
    LevelGrows(valid, r, read);
    CarrierIsUsable(rs, read);
    assert Unanimous(rs + [r]);
    assert Unanimous(rs) <==> |valid| >= 2;
  }

  lemma CarrierIsUsable(rs: seq<Parsed>, read: Reader)
    requires ValidOf(rs) != []
    ensures Consensus(rs, read).carrier.Some? && Consensus(rs, read).carrier.value in ValidOf(rs)
  {
    hide ConfidenceOf, ValidOf, Consensus, Above;
    ValidOfSpec(rs);
    ConsensusSpec(rs, read);
  }

  lemma BestGrows(rs: seq<Parsed>, r: Parsed, read: Reader)
    requires rs != []
    ensures Best(rs + [r], read) == Max(Best(rs, read), ConfidenceOf(r, read))
  {
    hide ConfidenceOf, MostConfident;
    var a, b := MostConfident(rs, read), MostConfident(rs + [r], read);
    assert a in rs + [r] && r in rs + [r];
  }

  lemma LevelGrows(rs: seq<Parsed>, r: Parsed, read: Reader)
    requires rs != []
    ensures Level(rs + [r], read) >= Level(rs, read)
    ensures Level(rs, read) >= Min(Best(rs, read), CAP)
  {
    hide ConfidenceOf, MostConfident;
    BestGrows(rs, r, read);
    var a, b := Best(rs, read), Best(rs + [r], read);
    var n := |rs|;
    SharesShrink(1.0 - a, 1.0 - b, n);
  }

  lemma SharesShrink(a: real, b: real, n: nat)
    requires 0.0 <= b <= a && n > 0
    ensures b / (n + 1) as real <= a / n as real <= a
  {
    var x, y, m := a / n as real, b / (n + 1) as real, n as real;
    Quotient(a, m);
    Quotient(b, m + 1.0);
    MulMono(x, 1.0, m);
    assert (m + 1.0) * y <= (m + 1.0) * x;
    DivideOut(m + 1.0, y, x);
  }

  /** After unanimous answers, one that names the other framework takes the boost away: what is left is
      the best single confidence, lower than before unless that already passed the cap. */
  lemma DissentLowers(rs: seq<Parsed>, r: Parsed, fw: string, read: Reader)
    requires Unanimous(rs) && AllName(ValidOf(rs), fw)
    requires Valid(r) && r.framework != Some(fw)
    ensures Consensus(rs + [r], read).confidence == Best(ValidOf(rs), read)
    ensures Consensus(rs + [r], read).confidence <= Consensus(rs, read).confidence <==> Best(ValidOf(rs), read) <= CAP
    ensures Consensus(rs + [r], read).confidence < Consensus(rs, read).confidence <==> Best(ValidOf(rs), read) < CAP
  {
    hide ConfidenceOf, MostConfident, Consensus, Level, ValidOf, Agreeing, Total;
    var valid := ValidOf(rs);
    ValidOfSpec(rs);
    ValidOfNext(rs, r);
    assert valid[0] in valid && Valid(valid[0]);
    Outnumbered(rs, r, fw, read);
    ConsensusSpec(rs, read);
    ConsensusSpec(rs + [r], read);
    CarrierIsUsable(rs + [r], read);
    MixedIsNotUnanimous(rs + [r], valid[0], r);
    LevelAbove(valid, read);
    var c, m := Consensus(rs + [r], read).carrier.value, MostConfident(valid, read);
    assert c.framework == Some(fw);
    assert c in valid && m in rs + [r];
  }

  lemma Outnumbered(rs: seq<Parsed>, r: Parsed, fw: string, read: Reader)
    requires |ValidOf(rs)| >= 2 && AllName(ValidOf(rs), fw) && fw in FRAMEWORKS
    requires Valid(r) && r.framework != Some(fw)
    ensures Above(fw, r.framework.value, rs + [r], read)
  {
    hide Total, ConfidenceOf;
    var other := r.framework.value;
    assert other in FRAMEWORKS;
    AgreeingAmongValid(rs + [r], fw);
    AgreeingAmongValid(rs + [r], other);
    ValidOfNext(rs, r);
    var valid := ValidOf(rs);
    assert (valid + [r])[..|valid|] == valid;
    AgreeingSpec(valid, fw);
    AgreeingSpec(valid, other);
    Inhabited(Agreeing(valid, other));
  }

  lemma MixedIsNotUnanimous(rs: seq<Parsed>, p: Parsed, q: Parsed)
    requires p in ValidOf(rs) && q in ValidOf(rs) && p.framework != q.framework
    ensures !Unanimous(rs)
  {
    hide ValidOf;
  }

  lemma LevelAbove(valid: seq<Parsed>, read: Reader)
    requires |valid| >= 2
    ensures Level(valid, read) >= Best(valid, read) <==> Best(valid, read) <= CAP
    ensures Level(valid, read) > Best(valid, read) <==> Best(valid, read) < CAP
  {
    hide ConfidenceOf, MostConfident;
    var gap, n := 1.0 - Best(valid, read), |valid| as real;
    Quotient(gap, n);
    MulMono(gap / n, 2.0, n);
  }

  // ----- ties -----

  /** The sum of confidences is additive, and that of one answer its own. */
  lemma {:induction false} TotalAdds(a: seq<Parsed>, b: seq<Parsed>, p: Parsed, read: Reader)
    ensures Total(a + b, read) == Total(a, read) + Total(b, read)
    ensures Total([p], read) == ConfidenceOf(p, read) && Total([], read) == 0.0
  {
    hide ConfidenceOf;
    assert [p][..0] == [];
    if b == [] {
      Neutral(a);
    } else {
      var n := |b| - 1;
      assert (a + b)[..|a + b| - 1] == a + b[..n];
      TotalAdds(a, b[..n], p, read);
    }
  }

  /** Of two answers that name different frameworks the more confident one carries the verdict, with its own
      confidence; of two equally confident ones the first. */
  lemma ConfidentCarries(p: Parsed, q: Parsed, read: Reader)
    requires Valid(p) && Valid(q) && p.framework != q.framework
    ensures var c := if ConfidenceOf(q, read) > ConfidenceOf(p, read) then q else p;
      Consensus([p, q], read) == Verdict(Some(c), ConfidenceOf(c, read))
  {
    hide ConfidenceOf, Total, Agreeing, ValidOf, Valid, Keys, Modal, Above;
    ValidNames(p);
    ValidNames(q);
    PairIsValid(p, q);
    PairKeys(p, q);
    PairAgreeing(p, q);
    PairModal(p, q, read);
    assert MostConfident([p], read) in [p] && MostConfident([q], read) in [q];
  }

  lemma ValidNames(p: Parsed)
    requires Valid(p)
    ensures p.framework.Some?
  {
  }

  lemma PairModal(p: Parsed, q: Parsed, read: Reader)
    requires Valid(p) && Valid(q) && p.framework != q.framework
    ensures Modal([p.framework.value, q.framework.value], [p, q], read)
      == if ConfidenceOf(q, read) > ConfidenceOf(p, read) then q.framework.value else p.framework.value
  {
    hide ConfidenceOf, Total, Agreeing;
    PairAgreeing(p, q);
    TotalAdds([], [], p, read);
    TotalAdds([], [], q, read);
    var f, g := p.framework.value, q.framework.value;
    assert [f, g][..1] == [f];
    assert Modal([f], [p, q], read) == f;
  }

  lemma PairIsValid(p: Parsed, q: Parsed)
    requires Valid(p) && Valid(q)
    ensures ValidOf([p, q]) == [p, q] && forall x | x in [p, q] :: Valid(x)
  {
    hide Valid;
    ValidOfNext([], p);
    ValidOfNext([p], q);
    assert [] + [p] == [p] && [p] + [q] == [p, q];
    assert ValidOf([]) == [];
  }

  lemma PairKeys(p: Parsed, q: Parsed)
    requires Valid(p) && Valid(q) && p.framework != q.framework && forall x | x in [p, q] :: Valid(x)
    ensures Keys([p, q]) == [p.framework.value, q.framework.value]
  {
    hide Valid;
    ValidNames(p);
    ValidNames(q);
    assert [p, q][..1] == [p] && [p][..0] == [] && forall x | x in [p] :: x in [p, q];
    assert Keys([]) == [];
    assert Keys([p]) == [p.framework.value];
  }

  lemma PairAgreeing(p: Parsed, q: Parsed)
    requires p.framework.Some? && q.framework.Some? && p.framework != q.framework
    ensures Agreeing([p, q], p.framework.value) == [p] && Agreeing([p, q], q.framework.value) == [q]
  {
    LastAgrees(p, q, p.framework.value);
    LastAgrees(p, q, q.framework.value);
  }

  lemma LastAgrees(p: Parsed, q: Parsed, fw: string)
    ensures Agreeing([p, q], fw)
      == (if p.framework == Some(fw) then [p] else []) + (if q.framework == Some(fw) then [q] else [])
  {
    AgreeingNext([], p, fw);
    AgreeingNext([p], q, fw);
    assert [] + [p] == [p] && [p] + [q] == [p, q];
    assert Agreeing([], fw) == [];
  }
}
