/** app/reconcile/bank.py: greedy one-to-one matching of bank lines to ledger lines. */
module BankReconciliation {
  import opened Collections
  import opened Reals
  import opened Wrappers
  import Strings = Text

  datatype BankLine = BankLine(id: string, valueDate: Option<int>, amount: real, description: Option<string>)
  datatype GLLine = GLLine(id: string, jeDate: Option<int>, amount: real, description: Option<string>)
  datatype Match = Match(bankId: string, glId: string, score: real)
  datatype Result = Result(matched: seq<Match>, unmatchedBank: seq<string>, unmatchedGl: seq<string>)

  /** rapidfuzz's `token_set_ratio`: any function into 0..100. */
  type Ratio = f: (string, string) -> real | forall a, b :: 0.0 <= f(a, b) <= 100.0
    witness (a: string, b: string) => 0.0

  /** The tuning of one reconciliation. Dates are day numbers. */
  datatype Tuning = Tuning(amountTolerance: real, dateWindowDays: int, descriptionThreshold: int, ratio: Ratio)

  function Text(d: Option<string>): string { if d.Some? then d.value else "" }

  /** Days between two dates, if both are known. */
  function DayGap(b: BankLine, g: GLLine): Option<nat> {
    if b.valueDate.Some? && g.jeDate.Some? then
      var d := b.valueDate.value - g.jeDate.value;
      Some(if d < 0 then -d else d)
    else None
  }

  function Similarity(t: Tuning, b: BankLine, g: GLLine): real {
    t.ratio(Text(b.description), Text(g.description))
  }

  /** The three tests a pair has to pass. */
  predicate Admissible(t: Tuning, b: BankLine, g: GLLine) {
    && Abs(b.amount - g.amount) <= t.amountTolerance
    && (DayGap(b, g).Some? ==> DayGap(b, g).value <= t.dateWindowDays)
    && Similarity(t, b, g) >= t.descriptionThreshold as real
  }

  /** The composite score; it is never negative, so every admissible candidate beats the initial -1. */
  function Score(t: Tuning, b: BankLine, g: GLLine): (s: real)
    ensures s >= 0.0
  {
    var dateScore := if DayGap(b, g).Some? then 100.0 - 10.0 * DayGap(b, g).value as real else 100.0;
    0.6 * Similarity(t, b, g) + 0.4 * if dateScore > 0.0 then dateScore else 0.0
  }

  // ----- the specification: which ledger position each bank position takes -----

  /** `choice[i]` is the position of the ledger line matched to bank line `i`, if any. */
  type Choice = seq<Option<nat>>

  ghost predicate Taken(choice: Choice, g: nat) { Some(g) in choice }

  /** Ledger position `g` is what the greedy rule gives `b` when `before` has been decided:
      the first of the highest-scoring admissible lines still free. */
  ghost predicate FirstBest(t: Tuning, b: BankLine, gl: seq<GLLine>, before: Choice, g: nat) {
    && g < |gl| && !Taken(before, g) && Admissible(t, b, gl[g])
    && forall h: nat | h < |gl| && !Taken(before, h) && Admissible(t, b, gl[h]) ::
      Score(t, b, gl[h]) < Score(t, b, gl[g]) || (Score(t, b, gl[h]) == Score(t, b, gl[g]) && g <= h)
  }

  ghost predicate NoCandidate(t: Tuning, b: BankLine, gl: seq<GLLine>, before: Choice) {
    forall h: nat | h < |gl| && !Taken(before, h) :: !Admissible(t, b, gl[h])
  }

  ghost predicate Decides(t: Tuning, b: BankLine, gl: seq<GLLine>, before: Choice, c: Option<nat>) {
    match c
    case Some(g) => FirstBest(t, b, gl, before, g)
    case None => NoCandidate(t, b, gl, before)
  }

  ghost predicate IsGreedy(t: Tuning, bank: seq<BankLine>, gl: seq<GLLine>, choice: Choice) {
    && |choice| == |bank|
    && forall i | 0 <= i < |bank| :: Decides(t, bank[i], gl, choice[..i], choice[i])
  }

  /** The matched pairs of a choice, in bank order. */
  ghost function MatchedOf(t: Tuning, bank: seq<BankLine>, gl: seq<GLLine>, choice: Choice): seq<Match>
    requires |choice| <= |bank| && forall i, g | 0 <= i < |choice| && choice[i] == Some(g) :: g < |gl|
  {
    if choice == [] then []
    else
      var i := |choice| - 1;
      MatchedOf(t, bank, gl, choice[..i]) +
      (match choice[i]
       case Some(g) => [Match(bank[i].id, gl[g].id, Score(t, bank[i], gl[g]))]
       case None => [])
  }

  ghost function UnmatchedBankOf(bank: seq<BankLine>, choice: Choice): seq<string>
    requires |choice| <= |bank|
  {
    if choice == [] then []
    else
      var i := |choice| - 1;
      UnmatchedBankOf(bank, choice[..i]) + if choice[i].None? then [bank[i].id] else []
  }

  /** `free` lists, in ledger order, exactly the positions below `n` that no bank line took. */
  ghost predicate IsFree(free: seq<nat>, choice: Choice, n: nat) {
    && (forall j, k | 0 <= j < k < |free| :: free[j] < free[k])
    && (forall k | 0 <= k < |free| :: free[k] < n && !Taken(choice, free[k]))
    && (forall g: nat | g < n && !Taken(choice, g) :: g in free)
  }

  /** The report of a choice: matched pairs and unmatched bank lines in bank order, and the
      unmatched ledger lines, at positions `free`, in ledger order. */
  ghost predicate Reports(t: Tuning, bank: seq<BankLine>, gl: seq<GLLine>, choice: Choice, free: seq<nat>, r: Result)
    requires IsGreedy(t, bank, gl, choice)
  {
    && r.matched == MatchedOf(t, bank, gl, choice)
    && r.unmatchedBank == UnmatchedBankOf(bank, choice)
    && IsFree(free, choice, |gl|)
    && |r.unmatchedGl| == |free| && forall k | 0 <= k < |free| :: r.unmatchedGl[k] == gl[free[k]].id
  }

  /** `r` reports the greedy choice. */
  ghost predicate GreedyReport(t: Tuning, bank: seq<BankLine>, gl: seq<GLLine>, r: Result) {
    exists choice: Choice, free: seq<nat> :: IsGreedy(t, bank, gl, choice) && Reports(t, bank, gl, choice, free, r)
  }

  // ----- the shrinking pool -----

  /** The pool holds exactly the free ledger lines, in ledger order. */
  ghost predicate PoolIs(pool: seq<GLLine>, gl: seq<GLLine>, choice: Choice, free: seq<nat>) {
    && IsFree(free, choice, |gl|)
    && |pool| == |free| && forall k | 0 <= k < |pool| :: pool[k] == gl[free[k]]
  }

  /** The inner scan: the first of the highest-scoring admissible lines of the pool, or -1. */
  method BestCandidate(t: Tuning, b: BankLine, pool: seq<GLLine>) returns (bestIdx: int, bestScore: real)
    ensures bestIdx == -1 ==> forall k | 0 <= k < |pool| :: !Admissible(t, b, pool[k])
    ensures bestIdx != -1 ==> 0 <= bestIdx < |pool| && Admissible(t, b, pool[bestIdx])
                              && bestScore == Score(t, b, pool[bestIdx])
    ensures bestIdx != -1 ==> forall k | 0 <= k < |pool| && Admissible(t, b, pool[k]) ::
      Score(t, b, pool[k]) < bestScore || (Score(t, b, pool[k]) == bestScore && bestIdx <= k)
  {
    bestIdx, bestScore := -1, -1.0;
    for idx := 0 to |pool|
      invariant bestIdx == -1 ==> bestScore == -1.0 && forall k | 0 <= k < idx :: !Admissible(t, b, pool[k])
      invariant bestIdx != -1 ==> 0 <= bestIdx < idx && Admissible(t, b, pool[bestIdx])
                                  && bestScore == Score(t, b, pool[bestIdx])
      invariant bestIdx != -1 ==> forall k | 0 <= k < idx && Admissible(t, b, pool[k]) ::
        Score(t, b, pool[k]) < bestScore || (Score(t, b, pool[k]) == bestScore && bestIdx <= k)
    {
      var gl := pool[idx];
      if Abs(b.amount - gl.amount) > t.amountTolerance { continue; }
      if b.valueDate.Some? && gl.jeDate.Some? {
        if DayGap(b, gl).value > t.dateWindowDays { continue; }
      }
      var descScore := t.ratio(Text(b.description), Text(gl.description));
      if descScore < t.descriptionThreshold as real { continue; }
      var dateScore := 100.0;
      if b.valueDate.Some? && gl.jeDate.Some? {
        dateScore := 100.0 - 10.0 * DayGap(b, gl).value as real;
      }
      var composite := 0.6 * descScore + 0.4 * if dateScore > 0.0 then dateScore else 0.0;
      assert composite == Score(t, b, gl);
      if composite > bestScore {
        bestScore, bestIdx := composite, idx;
      }
    }
  }

  /** What the scan of the pool finds is what the greedy rule asks of the ledger. */
  lemma PoolDecides(t: Tuning, b: BankLine, gl: seq<GLLine>, choice: Choice, pool: seq<GLLine>, free: seq<nat>, k: int)
    requires PoolIs(pool, gl, choice, free)
    requires k == -1 ==> forall j | 0 <= j < |pool| :: !Admissible(t, b, pool[j])
    requires k != -1 ==> 0 <= k < |pool| && Admissible(t, b, pool[k])
    requires k != -1 ==> forall j | 0 <= j < |pool| && Admissible(t, b, pool[j]) ::
      Score(t, b, pool[j]) < Score(t, b, pool[k]) || (Score(t, b, pool[j]) == Score(t, b, pool[k]) && k <= j)
    ensures Decides(t, b, gl, choice, if k == -1 then None else Some(free[k]))
  {
    forall h: nat | h < |gl| && !Taken(choice, h)
      ensures exists j :: 0 <= j < |free| && free[j] == h && pool[j] == gl[h]
    {
      assert h in free;
    }
  }

  /** Popping position `k` of the pool leaves the lines that are free once `free[k]` is taken. */
  lemma PoolAfterPop(pool: seq<GLLine>, gl: seq<GLLine>, choice: Choice, free: seq<nat>, k: nat)
    requires PoolIs(pool, gl, choice, free) && k < |pool|
    ensures PoolIs(pool[..k] + pool[k + 1..], gl, choice + [Some(free[k])], free[..k] + free[k + 1..])
  {
    hide IsFree;
    FreeInRange(free, choice, |gl|);
    FreeAfterPop(free, choice, |gl|, k);
    LinesAfterPop(pool, gl, free, k);
  }

  lemma LinesAfterPop(pool: seq<GLLine>, gl: seq<GLLine>, free: seq<nat>, k: nat)
    requires |pool| == |free| && k < |free| && forall j | 0 <= j < |free| :: free[j] < |gl| && pool[j] == gl[free[j]]
    ensures var p, f := pool[..k] + pool[k + 1..], free[..k] + free[k + 1..];
      |p| == |f| && forall j | 0 <= j < |f| :: f[j] < |gl| && p[j] == gl[f[j]]
  {
  }

  lemma FreeAfterPop(free: seq<nat>, choice: Choice, n: nat, k: nat)
    requires IsFree(free, choice, n) && k < |free|
    ensures IsFree(free[..k] + free[k + 1..], choice + [Some(free[k])], n)
  {
    hide Taken;
    RemoveAt(free, k);
    TakenAfter(choice, free[k]);
  }

  lemma TakenAfter(choice: Choice, g: nat)
    ensures forall h: nat :: Taken(choice + [Some(g)], h) <==> Taken(choice, h) || h == g
  {
    assert (choice + [Some(g)])[|choice|] == Some(g);
  }

  lemma RemoveAt<T>(s: seq<T>, k: nat)
    requires k < |s|
    ensures var r := s[..k] + s[k + 1..];
      |r| == |s| - 1 && (forall j | 0 <= j < |r| :: r[j] == if j < k then s[j] else s[j + 1])
      && forall x | x in s && x != s[k] :: x in r
  {
    var r := s[..k] + s[k + 1..];
    forall x | x in s && x != s[k] ensures x in r {
      var j :| 0 <= j < |s| && s[j] == x;
      assert r[if j < k then j else j - 1] == x;
    }
  }

  lemma PoolUnchanged(pool: seq<GLLine>, gl: seq<GLLine>, choice: Choice, free: seq<nat>)
    requires PoolIs(pool, gl, choice, free)
    ensures PoolIs(pool, gl, choice + [None], free)
  {
    assert forall g: nat :: Some(g) in choice + [None] <==> Some(g) in choice;
  }

  lemma NothingReported(t: Tuning, bank: seq<BankLine>, gl: seq<GLLine>)
    ensures IsGreedy(t, bank[..0], gl, []) && MatchedOf(t, bank, gl, []) == [] && UnmatchedBankOf(bank, []) == []
    ensures PoolIs(gl, gl, [], seq(|gl|, i => i))
  {
    var all: seq<nat> := seq(|gl|, i => i);
    forall g: nat | g < |gl| ensures g in all {
      assert all[g] == g;
    }
  }

  lemma TakeSnoc(choice: Choice, c: Option<nat>)
    ensures (choice + [c])[..|choice|] == choice && (choice + [c])[|choice|] == c && |choice + [c]| == |choice| + 1
  {
  }

  lemma ReportsSnoc(t: Tuning, bank: seq<BankLine>, gl: seq<GLLine>, choice: Choice, c: Option<nat>)
    requires |choice| < |bank| && forall i, g | 0 <= i < |choice| && choice[i] == Some(g) :: g < |gl|
    requires c.Some? ==> c.value < |gl|
    ensures MatchedOf(t, bank, gl, choice + [c]) == MatchedOf(t, bank, gl, choice) +
      match c
      case Some(g) => [Match(bank[|choice|].id, gl[g].id, Score(t, bank[|choice|], gl[g]))]
      case None => []
    ensures UnmatchedBankOf(bank, choice + [c])
      == UnmatchedBankOf(bank, choice) + if c.None? then [bank[|choice|].id] else []
  {
    TakeSnoc(choice, c);
  }

  /** `reconcile_bank`: the reported lists are those of the greedy choice. */
  method Reconcile(bank: seq<BankLine>, gl: seq<GLLine>, t: Tuning)
    returns (r: Result)
    ensures GreedyReport(t, bank, gl, r)
  {
    hide Decides, Admissible, Score, MatchedOf, UnmatchedBankOf, IsGreedy;
    var remainingGl := gl;
    var matched: seq<Match>, unmatchedBank: seq<string> := [], [];
    ghost var choice: Choice, free: seq<nat> := [], seq(|gl|, i => i);
    NothingReported(t, bank, gl);
    for i := 0 to |bank|
      invariant |choice| == i && IsGreedy(t, bank[..i], gl, choice)
      invariant PoolIs(remainingGl, gl, choice, free)
      invariant forall j, g | 0 <= j < i && choice[j] == Some(g) :: g < |gl|
      invariant matched == MatchedOf(t, bank, gl, choice)
      invariant unmatchedBank == UnmatchedBankOf(bank, choice)
    {
      var bestIdx, bestScore := BestCandidate(t, bank[i], remainingGl);
      PoolDecides(t, bank[i], gl, choice, remainingGl, free, bestIdx);
      ghost var c: Option<nat> := if bestIdx == -1 then None else Some(free[bestIdx]);
      Extend(t, bank, gl, choice, c);
      ReportsSnoc(t, bank, gl, choice, c);
      if bestIdx >= 0 {
        var g := remainingGl[bestIdx];
        matched := matched + [Match(bank[i].id, g.id, bestScore)];
        PoolAfterPop(remainingGl, gl, choice, free, bestIdx);
        free := free[..bestIdx] + free[bestIdx + 1..];
        remainingGl := remainingGl[..bestIdx] + remainingGl[bestIdx + 1..];
      } else {
        unmatchedBank := unmatchedBank + [bank[i].id];
        PoolUnchanged(remainingGl, gl, choice, free);
      }
      choice := choice + [c];
    }
    assert bank[..|bank|] == bank;
    r := Result(matched, unmatchedBank, seq(|remainingGl|, k requires 0 <= k < |remainingGl| => remainingGl[k].id));
    assert Reports(t, bank, gl, choice, free, r);
  }

  lemma Extend(t: Tuning, bank: seq<BankLine>, gl: seq<GLLine>, choice: Choice, c: Option<nat>)
    requires |choice| < |bank| && IsGreedy(t, bank[..|choice|], gl, choice)
    requires Decides(t, bank[|choice|], gl, choice, c)
    ensures IsGreedy(t, bank[..|choice| + 1], gl, choice + [c])
  {
    var next := choice + [c];
    forall i | 0 <= i < |next| ensures Decides(t, bank[..|choice| + 1][i], gl, next[..i], next[i]) {
      if i < |choice| {
        assert next[..i] == choice[..i] && bank[..|choice|][i] == bank[i];
      } else {
        assert next[..i] == choice;
      }
    }
  }

  // ----- what the greedy choice is worth -----

  /** The rule leaves no freedom: equal inputs give equal matchings. */
  lemma {:induction false} GreedyIsUnique(t: Tuning, bank: seq<BankLine>, gl: seq<GLLine>, a: Choice, b: Choice, n: nat)
    requires IsGreedy(t, bank, gl, a) && IsGreedy(t, bank, gl, b) && n <= |bank|
    ensures a[..n] == b[..n]
  {
    hide Decides;
    if n > 0 {
      GreedyIsUnique(t, bank, gl, a, b, n - 1);
      DecisionIsUnique(t, bank[n - 1], gl, a[..n - 1], a[n - 1], b[n - 1]);
      Strings.TakeNext(a, n - 1);
      Strings.TakeNext(b, n - 1);
    }
  }

  lemma DecisionIsUnique(t: Tuning, b: BankLine, gl: seq<GLLine>, before: Choice, c: Option<nat>, d: Option<nat>)
    requires Decides(t, b, gl, before, c) && Decides(t, b, gl, before, d)
    ensures c == d
  {
  }

  // ----- what the rule prefers -----

  /** The days between two dates as far as they matter: none if a date is unknown, and ten at most. */
  function Lateness(b: BankLine, g: GLLine): (d: int)
    ensures 0 <= d <= 10 && (b.valueDate.None? || g.jeDate.None? ==> d == 0)
    ensures b.valueDate.Some? && g.jeDate.Some? ==>
      var x, y := b.valueDate.value, g.jeDate.value;
      if x - 10 <= y <= x + 10 then d == x - y || d == y - x else d == 10
  {
    match DayGap(b, g) case None => 0 case Some(n) => if n > 10 then 10 else n
  }

  /** The score is 100 for equal texts on one day; a day's distance costs as much as 6 2/3 points of similarity. */
  lemma ScoreWeighs(t: Tuning, b: BankLine, g: GLLine)
    ensures 5.0 * Score(t, b, g) == 3.0 * Similarity(t, b, g) - 20.0 * Lateness(b, g) as real + 200.0
    ensures 0.0 <= Score(t, b, g) <= 100.0
    ensures Score(t, b, g) == 100.0 <==> Similarity(t, b, g) == 100.0 && Lateness(b, g) == 0
  {
  }

  /** Ledger line `g` suits `b` as well as `h` does, in similarity less twenty thirds for each day. */
  predicate SuitsNoWorse(t: Tuning, b: BankLine, g: GLLine, h: GLLine) {
    3.0 * Similarity(t, b, g) - 20.0 * Lateness(b, g) as real >= 3.0 * Similarity(t, b, h) - 20.0 * Lateness(b, h) as real
  }

  /** The line taken is the first free admissible one that suits no worse than any other. */
  lemma FirstBestIff(t: Tuning, b: BankLine, gl: seq<GLLine>, before: Choice, g: nat)
    ensures FirstBest(t, b, gl, before, g) <==>
      && g < |gl| && !Taken(before, g) && Admissible(t, b, gl[g])
      && forall h: nat | h < |gl| && !Taken(before, h) && Admissible(t, b, gl[h]) ::
        SuitsNoWorse(t, b, gl[g], gl[h]) && (h < g ==> !SuitsNoWorse(t, b, gl[h], gl[g]))
  {
    hide Score, Admissible, Similarity, Lateness;
    forall h: nat | h < |gl| && g < |gl|
      ensures SuitsNoWorse(t, b, gl[g], gl[h]) <==> Score(t, b, gl[g]) >= Score(t, b, gl[h])
      ensures SuitsNoWorse(t, b, gl[h], gl[g]) <==> Score(t, b, gl[h]) >= Score(t, b, gl[g])
    {
      ScoreWeighs(t, b, gl[g]);
      ScoreWeighs(t, b, gl[h]);
    }
  }

  /** Every bank line matched takes a ledger line that suits it no worse than any admissible line that was left:
      of two equally similar lines the one nearer in time, of two equally near ones the more similar. */
  lemma GreedySuits(t: Tuning, bank: seq<BankLine>, gl: seq<GLLine>, choice: Choice, i: nat, g: nat, h: nat)
    requires IsGreedy(t, bank, gl, choice) && i < |bank| && choice[i] == Some(g)
    requires h < |gl| && !Taken(choice[..i], h) && Admissible(t, bank[i], gl[h])
    ensures g < |gl| && SuitsNoWorse(t, bank[i], gl[g], gl[h])
    ensures Similarity(t, bank[i], gl[g]) == Similarity(t, bank[i], gl[h]) ==> Lateness(bank[i], gl[g]) <= Lateness(bank[i], gl[h])
    ensures Lateness(bank[i], gl[g]) == Lateness(bank[i], gl[h]) ==> Similarity(t, bank[i], gl[g]) >= Similarity(t, bank[i], gl[h])
  {
    hide Admissible, Similarity, Lateness;
    assert Decides(t, bank[i], gl, choice[..i], choice[i]);
    FirstBestIff(t, bank[i], gl, choice[..i], g);
  }

  /** A set of admissible (bank position, ledger position) pairs using no line twice. */
  ghost predicate IsMatching(t: Tuning, bank: seq<BankLine>, gl: seq<GLLine>, m: set<(nat, nat)>) {
    && (forall p | p in m :: p.0 < |bank| && p.1 < |gl| && Admissible(t, bank[p.0], gl[p.1]))
    && (forall p, q | p in m && q in m && p != q :: p.0 != q.0 && p.1 != q.1)
  }

  ghost function PairsOf(choice: Choice): set<(nat, nat)> {
    set i: nat | i < |choice| && choice[i].Some? :: (i, choice[i].value)
  }

  lemma GreedyIsMatching(t: Tuning, bank: seq<BankLine>, gl: seq<GLLine>, choice: Choice)
    requires IsGreedy(t, bank, gl, choice)
    ensures IsMatching(t, bank, gl, PairsOf(choice))
    ensures |PairsOf(choice)| == |MatchedOf(t, bank, gl, choice)|
  {
    GreedyTakesOnce(t, bank, gl, choice);
    CountPairs(t, bank, gl, choice);
  }

  lemma {:induction false} CountPairs(t: Tuning, bank: seq<BankLine>, gl: seq<GLLine>, choice: Choice)
    requires |choice| <= |bank| && forall i, g | 0 <= i < |choice| && choice[i] == Some(g) :: g < |gl|
    ensures |PairsOf(choice)| == |MatchedOf(t, bank, gl, choice)|
  {
    if choice != [] {
      var i := |choice| - 1;
      CountPairs(t, bank, gl, choice[..i]);
      if choice[i].Some? {
        assert PairsOf(choice) == PairsOf(choice[..i]) + {(i, choice[i].value)};
      } else {
        assert PairsOf(choice) == PairsOf(choice[..i]);
      }
    }
  }

  /** No unmatched bank line could still be matched with an unmatched ledger line. */
  lemma GreedyIsMaximal(t: Tuning, bank: seq<BankLine>, gl: seq<GLLine>, choice: Choice, i: nat, g: nat)
    requires IsGreedy(t, bank, gl, choice)
    requires i < |bank| && g < |gl| && Admissible(t, bank[i], gl[g])
    ensures choice[i].Some? || Taken(choice, g)
  {
    assert Decides(t, bank[i], gl, choice[..i], choice[i]);
    if choice[i].None? {
      assert Taken(choice[..i], g);
    }
  }

  ghost function Firsts(m: set<(nat, nat)>): set<nat> { set p | p in m :: p.0 }
  ghost function Seconds(m: set<(nat, nat)>): set<nat> { set p | p in m :: p.1 }

  /** A set of pairs without a repeated component is as large as each of its projections. */
  lemma ProjectionSizes(m: set<(nat, nat)>)
    requires forall p, q | p in m && q in m && p != q :: p.0 != q.0 && p.1 != q.1
    ensures |Firsts(m)| == |m| && |Seconds(m)| == |m|
  {
    FirstsSize(m);
    SecondsSize(m);
  }

  lemma {:induction false} FirstsSize(m: set<(nat, nat)>)
    requires forall p, q | p in m && q in m && p != q :: p.0 != q.0
    ensures |Firsts(m)| == |m|
  {
    if m != {} {
      var p :| p in m;
      FirstsSize(m - {p});
      assert Firsts(m) == Firsts(m - {p}) + {p.0};
    }
  }

  lemma {:induction false} SecondsSize(m: set<(nat, nat)>)
    requires forall p, q | p in m && q in m && p != q :: p.1 != q.1
    ensures |Seconds(m)| == |m|
  {
    if m != {} {
      var p :| p in m;
      SecondsSize(m - {p});
      assert Seconds(m) == Seconds(m - {p}) + {p.1};
    }
  }

  /** The pairs of `m` whose bank line greedy matched are no more than greedy's own pairs. */
  lemma BankSide(t: Tuning, bank: seq<BankLine>, gl: seq<GLLine>, choice: Choice, m: set<(nat, nat)>)
    requires IsGreedy(t, bank, gl, choice) && IsMatching(t, bank, gl, m)
    requires forall p | p in m :: choice[p.0].Some?
    ensures |m| <= |PairsOf(choice)|
  {
    GreedyIsMatching(t, bank, gl, choice);
    ProjectionSizes(m);
    ProjectionSizes(PairsOf(choice));
    forall p | p in m ensures p.0 in Firsts(PairsOf(choice)) {
      assert (p.0, choice[p.0].value) in PairsOf(choice);
    }
    SubsetSize(Firsts(m), Firsts(PairsOf(choice)));
  }

  /** So are those whose ledger line greedy matched. */
  lemma LedgerSide(t: Tuning, bank: seq<BankLine>, gl: seq<GLLine>, choice: Choice, m: set<(nat, nat)>)
    requires IsGreedy(t, bank, gl, choice) && IsMatching(t, bank, gl, m)
    requires forall p | p in m :: Taken(choice, p.1)
    ensures |m| <= |PairsOf(choice)|
  {
    GreedyIsMatching(t, bank, gl, choice);
    ProjectionSizes(m);
    ProjectionSizes(PairsOf(choice));
    forall p | p in m ensures p.1 in Seconds(PairsOf(choice)) {
      var i :| 0 <= i < |choice| && choice[i] == Some(p.1);
      assert (i, p.1) in PairsOf(choice);
    }
    SubsetSize(Seconds(m), Seconds(PairsOf(choice)));
  }

  /** The greedy matching is at least half as large as any admissible one-to-one matching. */
  lemma GreedyIsHalfOptimal(t: Tuning, bank: seq<BankLine>, gl: seq<GLLine>, choice: Choice, m: set<(nat, nat)>)
    requires IsGreedy(t, bank, gl, choice) && IsMatching(t, bank, gl, m)
    ensures |m| <= 2 * |MatchedOf(t, bank, gl, choice)|
  {
    hide MatchedOf, PairsOf, IsGreedy;
    GreedyLength(t, bank, gl, choice);
    var byBank := set p | p in m && choice[p.0].Some?;
    var byLedger := m - byBank;
    SubMatching(t, bank, gl, m, byBank);
    SubMatching(t, bank, gl, m, byLedger);
    assert forall p | p in byLedger :: Taken(choice, p.1) by {
      forall p | p in byLedger ensures Taken(choice, p.1) {
        GreedyIsMaximal(t, bank, gl, choice, p.0, p.1);
      }
    }
    BankSide(t, bank, gl, choice, byBank);
    LedgerSide(t, bank, gl, choice, byLedger);
    GreedyIsMatching(t, bank, gl, choice);
    SplitSize(m, byBank);
  }

  lemma SplitSize(m: set<(nat, nat)>, a: set<(nat, nat)>)
    requires a <= m
    ensures |m| == |a| + |m - a|
  {
    assert m == a + (m - a);
  }

  lemma GreedyLength(t: Tuning, bank: seq<BankLine>, gl: seq<GLLine>, choice: Choice)
    requires IsGreedy(t, bank, gl, choice)
    ensures |choice| == |bank|
  {
  }

  lemma SubMatching(t: Tuning, bank: seq<BankLine>, gl: seq<GLLine>, m: set<(nat, nat)>, sub: set<(nat, nat)>)
    requires IsMatching(t, bank, gl, m) && sub <= m
    ensures IsMatching(t, bank, gl, sub)
  {
  }

  /** Half is the best that can be promised: here greedy matches one line of two. */
  lemma HalfIsTight() returns (t: Tuning, bank: seq<BankLine>, gl: seq<GLLine>, choice: Choice, m: set<(nat, nat)>)
    ensures IsGreedy(t, bank, gl, choice) && IsMatching(t, bank, gl, m)
    ensures |m| == 2 && |MatchedOf(t, bank, gl, choice)| == 1
  {
    t := Tuning(0.01, 3, 60, (a, b) => 100.0);
    var b0, b1 := BankLine("b0", None, 100.0, None), BankLine("b1", None, 99.99, None);
    var g0, g1 := GLLine("g0", None, 100.0, None), GLLine("g1", None, 100.01, None);
    bank, gl, choice, m := [b0, b1], [g0, g1], [Some(0), None], {(0, 1), (1, 0)};
    assert choice[..0] == [] && choice[..1] == [Some(0)];
    assert Some(0) in choice[..1] && Some(1) !in choice[..1];
    assert Score(t, b0, g0) == Score(t, b0, g1);
    assert MatchedOf(t, bank, gl, choice) == MatchedOf(t, bank, gl, choice[..1]);
    assert |MatchedOf(t, bank, gl, choice[..1])| == 1 by { assert choice[..1][..0] == []; }
  }

  // ----- nothing is lost or counted twice -----

  function BankIds(ms: seq<Match>): seq<string> { seq(|ms|, k requires 0 <= k < |ms| => ms[k].bankId) }
  function GlIds(ms: seq<Match>): seq<string> { seq(|ms|, k requires 0 <= k < |ms| => ms[k].glId) }
  function LineIds(bank: seq<BankLine>): seq<string> { seq(|bank|, k requires 0 <= k < |bank| => bank[k].id) }

  function LedgerIds(gl: seq<GLLine>): seq<string> { seq(|gl|, k requires 0 <= k < |gl| => gl[k].id) }

  /** The ids of the ledger lines at some positions. */
  function IdsAt(gl: seq<GLLine>, positions: seq<nat>): seq<string>
    requires AllBelow(positions, |gl|)
  {
    seq(|positions|, k requires 0 <= k < |positions| => gl[positions[k]].id)
  }

  function Positions(n: nat): seq<nat> { seq(n, i => i) }

  /** Every bank line and every ledger line is reported exactly once, matched or unmatched: with as many
      lines of one id as the input has. */
  lemma ReportsPartition(t: Tuning, bank: seq<BankLine>, gl: seq<GLLine>, r: Result)
    requires GreedyReport(t, bank, gl, r)
    ensures multiset(BankIds(r.matched)) + multiset(r.unmatchedBank) == multiset(LineIds(bank))
    ensures multiset(GlIds(r.matched)) + multiset(r.unmatchedGl) == multiset(LedgerIds(gl))
  {
    hide IsGreedy, MatchedOf, UnmatchedBankOf, IsFree;
    var choice: Choice, free: seq<nat> :| IsGreedy(t, bank, gl, choice) && Reports(t, bank, gl, choice, free, r);
    GreedyLength(t, bank, gl, choice);
    GreedyInRange(t, bank, gl, choice);
    BankPartition(t, bank, gl, choice);
    assert bank[..|choice|] == bank;
    LedgerPartition(t, bank, gl, choice, free);
    FreeInRange(free, choice, |gl|);
    assert r.unmatchedGl == IdsAt(gl, free);
    assert IdsAt(gl, Positions(|gl|)) == LedgerIds(gl);
  }

  lemma GreedyInRange(t: Tuning, bank: seq<BankLine>, gl: seq<GLLine>, choice: Choice)
    requires IsGreedy(t, bank, gl, choice)
    ensures InRange(choice, |gl|)
  {
  }

  ghost predicate InRange(choice: Choice, n: nat) {
    forall i, g | 0 <= i < |choice| && choice[i] == Some(g) :: g < n
  }

  lemma FreeInRange(free: seq<nat>, choice: Choice, n: nat)
    requires IsFree(free, choice, n)
    ensures AllBelow(free, n)
  {
  }

  // ----- the bank side -----

  lemma {:induction false} BankPartition(t: Tuning, bank: seq<BankLine>, gl: seq<GLLine>, choice: Choice)
    requires |choice| <= |bank| && InRange(choice, |gl|)
    ensures multiset(BankIds(MatchedOf(t, bank, gl, choice))) + multiset(UnmatchedBankOf(bank, choice))
         == multiset(LineIds(bank[..|choice|]))
  {
    if choice == [] {
      assert LineIds(bank[..0]) == [];
    } else {
      var i := |choice| - 1;
      var before, c := choice[..i], choice[i];
      BankPartition(t, bank, gl, before);
      assert choice == before + [c];
      ReportsSnoc(t, bank, gl, before, c);
      hide MatchedOf, UnmatchedBankOf, BankIds, LineIds;
      LineIdsNext(bank, i);
      var ms, us := MatchedOf(t, bank, gl, before), UnmatchedBankOf(bank, before);
      if c.Some? {
        BankIdsSnoc(ms, Match(bank[i].id, gl[c.value].id, Score(t, bank[i], gl[c.value])));
        Strings.Neutral(us);
      } else {
        Strings.Neutral(ms);
      }
    }
  }

  lemma BankIdsSnoc(ms: seq<Match>, m: Match)
    ensures BankIds(ms + [m]) == BankIds(ms) + [m.bankId]
  {
  }

  lemma LineIdsNext(bank: seq<BankLine>, i: nat)
    requires i < |bank|
    ensures LineIds(bank[..i + 1]) == LineIds(bank[..i]) + [bank[i].id]
  {
  }

  // ----- the ledger side -----

  /** The matched ledger positions, in bank order. */
  function TakenList(choice: Choice): seq<nat> {
    if choice == [] then []
    else
      var i := |choice| - 1;
      TakenList(choice[..i]) + match choice[i] case Some(g) => [g] case None => []
  }

  lemma {:induction false} TakenListSpec(choice: Choice)
    ensures forall g: nat :: g in TakenList(choice) <==> Taken(choice, g)
    ensures (forall i, j | 0 <= i < j < |choice| && choice[i].Some? :: choice[i] != choice[j]) ==>
      forall g: nat :: multiset(TakenList(choice))[g] <= 1
  {
    if choice != [] {
      var i := |choice| - 1;
      TakenListSpec(choice[..i]);
      assert choice == choice[..i] + [choice[i]];
      if choice[i].Some? { assert Taken(choice[..i], choice[i].value) ==> choice[i] in choice[..i]; }
    }
  }

  lemma {:induction false} TakenIds(t: Tuning, bank: seq<BankLine>, gl: seq<GLLine>, choice: Choice)
    requires |choice| <= |bank| && InRange(choice, |gl|)
    ensures AllBelow(TakenList(choice), |gl|)
    ensures GlIds(MatchedOf(t, bank, gl, choice)) == IdsAt(gl, TakenList(choice))
  {
    if choice != [] {
      var i := |choice| - 1;
      var before, c := choice[..i], choice[i];
      TakenIds(t, bank, gl, before);
      assert choice == before + [c];
      ReportsSnoc(t, bank, gl, before, c);
      hide MatchedOf;
      if c.Some? {
        IdsConcat(gl, TakenList(before), [c.value]);
      } else {
        Strings.Neutral(MatchedOf(t, bank, gl, before));
        Strings.Neutral(TakenList(before));
      }
    }
  }

  lemma LedgerPartition(t: Tuning, bank: seq<BankLine>, gl: seq<GLLine>, choice: Choice, free: seq<nat>)
    requires IsGreedy(t, bank, gl, choice) && |choice| <= |bank| && InRange(choice, |gl|) && IsFree(free, choice, |gl|)
    ensures AllBelow(free, |gl|)
    ensures multiset(GlIds(MatchedOf(t, bank, gl, choice))) + multiset(IdsAt(gl, free))
         == multiset(IdsAt(gl, Positions(|gl|)))
  {
    hide MatchedOf, IsGreedy, InRange, IsFree, IdsAt, TakenList;
    FreeInRange(free, choice, |gl|);
    TakenIds(t, bank, gl, choice);
    PositionsSplit(t, bank, gl, choice, free);
    IdsConcat(gl, TakenList(choice), free);
    SameIds(gl, TakenList(choice) + free, Positions(|gl|));
  }

  /** Taken and free positions are all positions, each once. */
  lemma PositionsSplit(t: Tuning, bank: seq<BankLine>, gl: seq<GLLine>, choice: Choice, free: seq<nat>)
    requires IsGreedy(t, bank, gl, choice) && InRange(choice, |gl|) && IsFree(free, choice, |gl|)
    ensures multiset(TakenList(choice) + free) == multiset(Positions(|gl|))
  {
    var taken: seq<nat>, all: seq<nat> := TakenList(choice), Positions(|gl|);
    GreedyTakesOnce(t, bank, gl, choice);
    TakenListSpec(choice);
    AtMostOnce(free);
    AtMostOnce(all);
    forall g: nat ensures multiset(taken + free)[g] == multiset(all)[g] {
      assert multiset(taken + free)[g] == multiset(taken)[g] + multiset(free)[g];
      assert g in multiset(all) <==> g in all;
      assert g in multiset(taken) <==> g in taken;
      assert g in multiset(free) <==> g in free;
      assert g in all <==> g < |gl| by { if g < |gl| { assert all[g] == g; } }
      assert g in taken ==> g < |gl| by { if g in taken { var i :| 0 <= i < |choice| && choice[i] == Some(g); } }
    }
  }

  lemma GreedyTakesOnce(t: Tuning, bank: seq<BankLine>, gl: seq<GLLine>, choice: Choice)
    requires IsGreedy(t, bank, gl, choice)
    ensures forall i, j | 0 <= i < j < |choice| && choice[i].Some? :: choice[i] != choice[j]
  {
    forall i, j | 0 <= i < j < |choice| && choice[i].Some? ensures choice[j] != choice[i] {
      assert choice[i] == choice[..j][i] && choice[i] in choice[..j];
      assert Decides(t, bank[j], gl, choice[..j], choice[j]);
    }
  }

  lemma {:induction false} AtMostOnce(s: seq<nat>)
    requires forall j, k | 0 <= j < k < |s| :: s[j] < s[k]
    ensures forall g: nat :: multiset(s)[g] <= 1
  {
    if s != [] {
      var n := |s| - 1;
      AtMostOnce(s[..n]);
      assert s == s[..n] + [s[n]];
      assert s[n] !in s[..n];
    }
  }

  /** Rearranging positions rearranges their ids. */
  lemma {:induction false} SameIds(gl: seq<GLLine>, a: seq<nat>, b: seq<nat>)
    requires AllBelow(a, |gl|) && AllBelow(b, |gl|) && multiset(a) == multiset(b)
    ensures multiset(IdsAt(gl, a)) == multiset(IdsAt(gl, b))
  {
    if a == [] {
      assert |multiset(b)| == |b|;
    } else {
      hide IdsAt, Without;
      assert a[0] in multiset(a);
      var j := Found(a[0], b);
      Extracted(a, 0);
      Extracted(b, j);
      assert multiset(Without(a, 0)) == multiset(a) - multiset{a[0]};
      assert multiset(Without(b, j)) == multiset(b) - multiset{a[0]};
      IdsWithout(gl, a, 0);
      IdsWithout(gl, b, j);
      SameIds(gl, Without(a, 0), Without(b, j));
    }
  }

  predicate AllBelow(s: seq<nat>, n: nat) { forall k | 0 <= k < |s| :: s[k] < n }

  function Without<T>(s: seq<T>, j: nat): seq<T>
    requires j < |s|
  {
    s[..j] + s[j + 1..]
  }

  lemma Found(x: nat, s: seq<nat>) returns (j: nat)
    requires x in multiset(s)
    ensures j < |s| && s[j] == x
  {
    j :| 0 <= j < |s| && s[j] == x;
  }

  lemma Extracted<T>(s: seq<T>, j: nat)
    requires j < |s|
    ensures multiset(s) == multiset(Without(s, j)) + multiset{s[j]}
  {
    assert s == s[..j] + [s[j]] + s[j + 1..];
  }

  lemma IdsWithout(gl: seq<GLLine>, s: seq<nat>, j: nat)
    requires AllBelow(s, |gl|) && j < |s|
    ensures AllBelow(Without(s, j), |gl|)
    ensures multiset(IdsAt(gl, s)) == multiset(IdsAt(gl, Without(s, j))) + multiset{gl[s[j]].id}
  {
    assert IdsAt(gl, Without(s, j)) == Without(IdsAt(gl, s), j);
    Extracted(IdsAt(gl, s), j);
  }

  lemma IdsConcat(gl: seq<GLLine>, a: seq<nat>, b: seq<nat>)
    requires AllBelow(a, |gl|) && AllBelow(b, |gl|)
    ensures AllBelow(a + b, |gl|) && IdsAt(gl, a + b) == IdsAt(gl, a) + IdsAt(gl, b)
  {
  }

  /** The report matches at least half as many lines as any admissible one-to-one matching could. */
  lemma ReportIsHalfOptimal(t: Tuning, bank: seq<BankLine>, gl: seq<GLLine>, r: Result, m: set<(nat, nat)>)
    requires GreedyReport(t, bank, gl, r) && IsMatching(t, bank, gl, m)
    ensures |m| <= 2 * |r.matched|
  {
    hide IsGreedy, IsFree, IsMatching;
    var choice: Choice, free: seq<nat> :| IsGreedy(t, bank, gl, choice) && Reports(t, bank, gl, choice, free, r);
    GreedyIsHalfOptimal(t, bank, gl, choice, m);
  }
}
