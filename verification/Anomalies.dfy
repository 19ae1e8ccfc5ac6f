/** app/analyze/anomalies.py: per-account z-score outliers. */
module Anomalies {
  import opened Text
  import opened Dedupe
  import opened Reals
  import C = Collections

  type Entry = (string, real)
  datatype ZScoreHit = ZScoreHit(account: string, amount: real, z: real)

  function Sum(a: seq<real>): real {
    if a == [] then 0.0 else Sum(a[..|a| - 1]) + a[|a| - 1]
  }

  /** The sum of the deviations from `m`, and of their squares. */
  function Dev(a: seq<real>, m: real): real {
    if a == [] then 0.0 else Dev(a[..|a| - 1], m) + (a[|a| - 1] - m)
  }

  function DevSq(a: seq<real>, m: real): real {
    if a == [] then 0.0 else DevSq(a[..|a| - 1], m) + Sq(a[|a| - 1] - m)
  }

  function Mean(a: seq<real>): real
    requires a != []
  {
    Sum(a) / |a| as real
  }

  /** The sample variance. */
  function Variance(a: seq<real>): real
    requires |a| >= 2
  {
    DevSq(a, Mean(a)) / (|a| - 1) as real
  }

  function ZScore(a: seq<real>, x: real, sd: real): real
    requires a != [] && sd != 0.0
  {
    (x - Mean(a)) / sd
  }

  // ----- the report -----

  /** The amounts of one account, in entry order. */
  function AmountsOf(entries: seq<Entry>, account: string): seq<real> {
    if entries == [] then []
    else AmountsOf(entries[..|entries| - 1], account)
         + if entries[|entries| - 1].0 == account then [entries[|entries| - 1].1] else []
  }

  function AccountIds(entries: seq<Entry>): seq<string> {
    seq(|entries|, i requires 0 <= i < |entries| => entries[i].0)
  }

  /** The hits among the first `k` amounts of an account. */
  function HitsAmong(account: string, a: seq<real>, sd: real, threshold: real, k: nat): seq<ZScoreHit>
    requires a != [] && sd != 0.0 && k <= |a|
  {
    if k == 0 then []
    else
      var z := ZScore(a, a[k - 1], sd);
      HitsAmong(account, a, sd, threshold, k - 1)
      + if Abs(z) >= threshold then [ZScoreHit(account, a[k - 1], z)] else []
  }

  /** The hits of one account: none when it is short or does not vary. */
  function HitsOf(account: string, a: seq<real>, threshold: real, sqrt: real -> real): seq<ZScoreHit> {
    if |a| < 4 then []
    else
      var v := Variance(a);
      var sd := if v > 0.0 then sqrt(v) else 0.0;
      if sd == 0.0 then [] else HitsAmong(account, a, sd, threshold, |a|)
  }

  function AllHits(entries: seq<Entry>, accounts: seq<string>, threshold: real, sqrt: real -> real): seq<ZScoreHit> {
    if accounts == [] then []
    else
      var n := |accounts| - 1;
      AllHits(entries, accounts[..n], threshold, sqrt)
      + HitsOf(accounts[n], AmountsOf(entries, accounts[n]), threshold, sqrt)
  }

  /** The scan of one account. */
  method ScanAccount(account: string, amounts: seq<real>, threshold: real, sqrt: real -> real)
    returns (hits: seq<ZScoreHit>)
    ensures hits == HitsOf(account, amounts, threshold, sqrt)
  {
    hits := [];
    var n := |amounts|;
    if n < 4 { return; }
    var mean := Sum(amounts) / n as real;
    var variance := DevSq(amounts, mean) / (n - 1) as real;
    var sd := if variance > 0.0 then sqrt(variance) else 0.0;
    if sd == 0.0 { return; }
    for i := 0 to n
      invariant hits == HitsAmong(account, amounts, sd, threshold, i)
    {
      var z := (amounts[i] - mean) / sd;
      if Abs(z) >= threshold {
        hits := hits + [ZScoreHit(account, amounts[i], z)];
      }
    }
  }

  /** The grouping loop: accounts in order of first appearance, each with its amounts in order. */
  method GroupByAccount(entries: seq<Entry>) returns (order: seq<string>, byAccount: map<string, seq<real>>)
    ensures order == FirstOccurrences(AccountIds(entries))
    ensures forall x :: x in byAccount <==> x in order
    ensures forall x | x in byAccount :: byAccount[x] == AmountsOf(entries, x)
  {
    hide FirstOccurrences, AmountsOf, AccountIds;
    order, byAccount := [], map[];
    NoEntries();
    for i := 0 to |entries|
      invariant order == FirstOccurrences(AccountIds(entries[..i]))
      invariant forall x :: x in byAccount <==> x in order
      invariant forall x :: AmountsOf(entries[..i], x) == if x in byAccount then byAccount[x] else []
    {
      GroupStep(entries, i);
      var (account, amount) := entries[i];
      if account !in byAccount {
        order, byAccount := order + [account], byAccount[account := []];
      }
      byAccount := byAccount[account := byAccount[account] + [amount]];
    }
    TakeAll(entries);
  }

  lemma NoEntries()
    ensures FirstOccurrences(AccountIds([])) == [] && forall x :: AmountsOf([], x) == []
  {
  }

  lemma GroupStep(entries: seq<Entry>, i: nat)
    requires i < |entries|
    ensures var before, ids := entries[..i], FirstOccurrences(AccountIds(entries[..i]));
      FirstOccurrences(AccountIds(entries[..i + 1])) == (if entries[i].0 in ids then ids else ids + [entries[i].0])
      && forall x :: AmountsOf(entries[..i + 1], x)
                     == AmountsOf(before, x) + if entries[i].0 == x then [entries[i].1] else []
  {
    assert entries[..i + 1][..i] == entries[..i];
    var ids := AccountIds(entries[..i + 1]);
    assert ids[..i] == AccountIds(entries[..i]) && ids[i] == entries[i].0;
  }

  /** `z_score_outliers_by_account`. */
  method ZScoreOutliers(entries: seq<Entry>, threshold: real, sqrt: real -> real) returns (hits: seq<ZScoreHit>)
    ensures hits == AllHits(entries, FirstOccurrences(AccountIds(entries)), threshold, sqrt)
  {
    hide HitsOf, AmountsOf, FirstOccurrences, AccountIds;
    var order, byAccount := GroupByAccount(entries);
    hits := [];
    for i := 0 to |order|
      invariant hits == AllHits(entries, order[..i], threshold, sqrt)
    {
      assert order[i] in order;
      assert order[..i + 1][..i] == order[..i] && order[..i + 1][i] == order[i];
      var found := ScanAccount(order[i], byAccount[order[i]], threshold, sqrt);
      hits := hits + found;
    }
    TakeAll(order);
  }

  // ----- sums -----

  lemma {:induction false} DevIsSum(a: seq<real>, m: real)
    ensures Dev(a, m) == Sum(a) - |a| as real * m
  {
    if a != [] {
      DevIsSum(a[..|a| - 1], m);
      OneMore(|a| - 1, m);
    }
  }

  lemma DevFromMeanIsZero(a: seq<real>)
    requires a != []
    ensures Dev(a, Mean(a)) == 0.0
  {
    DevIsSum(a, Mean(a));
    Quotient(Sum(a), |a| as real);
  }

  lemma {:induction false} DevSqNonNegative(a: seq<real>, m: real)
    ensures DevSq(a, m) >= 0.0
  {
    if a != [] {
      DevSqNonNegative(a[..|a| - 1], m);
      SqSign(a[|a| - 1] - m);
    }
  }

  /** Cauchy-Schwarz against the constant sequence. */
  lemma {:induction false} SquareOfSum(a: seq<real>, m: real)
    ensures Sq(Dev(a, m)) <= |a| as real * DevSq(a, m)
  {
    hide Sq;
    if a == [] {
      SqSign(0.0);
    } else {
      var n := |a| - 1;
      SquareOfSum(a[..n], m);
      DevSqNonNegative(a[..n], m);
      AddOne(Dev(a[..n], m), DevSq(a[..n], m), n, a[n] - m);
      OneMore(n, DevSq(a, m));
    }
  }

  lemma AddOne(s: real, q: real, k: nat, x: real)
    requires Sq(s) <= k as real * q && q >= 0.0
    ensures Sq(s + x) <= k as real * (q + Sq(x)) + (q + Sq(x))
  {
    hide Sq;
    var r := k as real;
    SqOfSum(s, x);
    Distribute(r, q, Sq(x));
    SqSign(s);
    SqSign(x);
    if k == 0 {
      assert s * x == 0.0;
    } else {
      TwiceProduct(s, q, r, x);
    }
  }

  lemma TwiceProduct(s: real, q: real, r: real, x: real)
    requires r >= 1.0 && Sq(s) <= r * q
    ensures 2.0 * (s * x) <= r * Sq(x) + q
  {
    hide Sq;
    SqSign(r * x - s);
    SqOfSum(r * x, s);
    SqOfProduct(r, x);
    assert Sq(r) * Sq(x) == r * (r * Sq(x)) by { SqTimes(r, Sq(x)); }
    assert 2.0 * ((r * x) * s) == r * (2.0 * (s * x));
    Distribute(r, r * Sq(x), q);
    DivideOut(r, 2.0 * (s * x), r * Sq(x) + q);
  }

  /** Taking one entry out of the sums. */
  lemma {:induction false} Without(a: seq<real>, i: nat, m: real)
    requires i < |a|
    ensures Dev(a[..i] + a[i + 1..], m) == Dev(a, m) - (a[i] - m)
    ensures DevSq(a[..i] + a[i + 1..], m) == DevSq(a, m) - Sq(a[i] - m)
  {
    var n, rest := |a| - 1, a[..i] + a[i + 1..];
    if i == n {
      assert rest == a[..n];
    } else {
      Without(a[..n], i, m);
      assert rest[..n - 1] == a[..n][..i] + a[..n][i + 1..] && rest[n - 1] == a[n];
    }
  }

  // ----- what z-scores can be -----

  /** n times a squared deviation is at most n - 1 times their sum (Samuelson's inequality). */
  lemma DeviationBound(a: seq<real>, i: nat)
    requires i < |a|
    ensures |a| as real * Sq(a[i] - Mean(a)) <= (|a| - 1) as real * DevSq(a, Mean(a))
  {
    hide Mean, Dev, DevSq, Sq;
    var m, n := Mean(a), |a| - 1;
    var rest, d := a[..i] + a[i + 1..], a[i] - m;
    DevFromMeanIsZero(a);
    Without(a, i, m);
    SquareOfSum(rest, m);
    assert |rest| == n;
    SqSign(d);
    Distribute(n as real, DevSq(a, m), Sq(d));
    OneMore(n, Sq(d));
  }

  /** An account whose sample variance has the positive root `sd`. */
  ghost predicate HasSd(a: seq<real>, sd: real) {
    |a| >= 2 && sd > 0.0 && Sq(sd) == Variance(a)
  }

  lemma PositiveSpread(a: seq<real>, sd: real)
    requires HasSd(a, sd)
    ensures DevSq(a, Mean(a)) > 0.0 && Product((|a| - 1) as real, Sq(sd), DevSq(a, Mean(a)))
  {
    hide DevSq, Mean;
    SqPos(sd);
    Quotient(DevSq(a, Mean(a)), (|a| - 1) as real);
  }

  ghost predicate Product(x: real, y: real, p: real) { x * y == p }

  /** `z` is to `n` as `d` is to `q`. */
  ghost predicate Balanced(q: real, z: real, n: real, d: real) { q * z == n * d }

  /** Squared z-score: the deviation squared over the variance. */
  lemma ZSquared(a: seq<real>, x: real, sd: real)
    requires HasSd(a, sd)
    ensures Balanced(DevSq(a, Mean(a)), Sq(ZScore(a, x, sd)), (|a| - 1) as real, Sq(x - Mean(a)))
  {
    PositiveSpread(a, sd);
    hide Mean, DevSq, Sq, HasSd;
    var z, n := ZScore(a, x, sd), (|a| - 1) as real;
    Quotient(x - Mean(a), sd);
    SqOfProduct(sd, z);
    Reorder(n, Sq(sd), Sq(z));
  }

  /** No z-score of an account of n entries exceeds (n - 1) / sqrt(n). */
  lemma ZScoreBound(a: seq<real>, i: nat, sd: real)
    requires HasSd(a, sd) && i < |a|
    ensures |a| as real * Sq(ZScore(a, a[i], sd)) <= Sq((|a| - 1) as real)
  {
    hide Mean, DevSq, Sq, HasSd, ZScore, Balanced;
    PositiveSd(a, sd);
    PositiveSpread(a, sd);
    ZSquared(a, a[i], sd);
    DeviationBound(a, i);
    BoundAlgebra(DevSq(a, Mean(a)), |a| as real, (|a| - 1) as real, Sq(ZScore(a, a[i], sd)), Sq(a[i] - Mean(a)));
  }

  lemma BoundAlgebra(q: real, n: real, n1: real, z2: real, d2: real)
    requires q > 0.0 && n1 >= 0.0 && Balanced(q, z2, n1, d2) && n * d2 <= n1 * q
    ensures n * z2 <= Sq(n1)
  {
    Reorder(q, n, z2);
    Reorder(n, n1, d2);
    MulMono(n1, n * d2, n1 * q);
    SqTimes(n1, q);
    DivideOut(q, n * z2, Sq(n1));
  }

  /** The sum of the squared z-scores of the first `k` entries. */
  ghost function ZSqSum(a: seq<real>, sd: real, k: nat): real
    requires a != [] && sd != 0.0 && k <= |a|
  {
    if k == 0 then 0.0 else ZSqSum(a, sd, k - 1) + Sq(ZScore(a, a[k - 1], sd))
  }

  lemma {:induction false} ZSqSumScaled(a: seq<real>, sd: real, k: nat)
    requires HasSd(a, sd) && k <= |a|
    ensures Balanced(DevSq(a, Mean(a)), ZSqSum(a, sd, k), (|a| - 1) as real, DevSq(a[..k], Mean(a)))
  {
    if k > 0 {
      hide HasSd, Mean, ZScore, Sq, DevSq, ZSqSum, Balanced;
      PositiveSd(a, sd);
      ZSqSumScaled(a, sd, k - 1);
      ZSquared(a, a[k - 1], sd);
      DevSqSnoc(a, Mean(a), k);
      ZSqSumSnoc(a, sd, k);
      SumAlgebra(DevSq(a, Mean(a)), (|a| - 1) as real, ZSqSum(a, sd, k - 1), Sq(ZScore(a, a[k - 1], sd)),
                 DevSq(a[..k - 1], Mean(a)), Sq(a[k - 1] - Mean(a)));
    }
  }

  lemma PositiveSd(a: seq<real>, sd: real)
    requires HasSd(a, sd)
    ensures |a| >= 2 && sd > 0.0
  {
  }

  lemma SumAlgebra(q: real, n: real, zs: real, z: real, ds: real, d: real)
    requires Balanced(q, zs, n, ds) && Balanced(q, z, n, d)
    ensures Balanced(q, zs + z, n, ds + d)
  {
    Distribute(q, zs, z);
    Distribute(n, ds, d);
  }

  lemma ZSqSumSnoc(a: seq<real>, sd: real, k: nat)
    requires a != [] && sd != 0.0 && 0 < k <= |a|
    ensures ZSqSum(a, sd, k) == ZSqSum(a, sd, k - 1) + Sq(ZScore(a, a[k - 1], sd))
  {
  }

  lemma DevSqSnoc(a: seq<real>, m: real, k: nat)
    requires 0 < k <= |a|
    ensures DevSq(a[..k], m) == DevSq(a[..k - 1], m) + Sq(a[k - 1] - m)
  {
    assert a[..k][..k - 1] == a[..k - 1];
  }

  /** The squared z-scores of an account of n entries sum to n - 1. */
  lemma ZSquaresSum(a: seq<real>, sd: real)
    requires HasSd(a, sd)
    ensures ZSqSum(a, sd, |a|) == (|a| - 1) as real
  {
    PositiveSpread(a, sd);
    ZSqSumScaled(a, sd, |a|);
    TakeAll(a);
    hide Mean, DevSq, HasSd, ZSqSum;
    CancelFactor(DevSq(a, Mean(a)), ZSqSum(a, sd, |a|), (|a| - 1) as real);
  }

  lemma {:induction false} HitsWeigh(account: string, a: seq<real>, sd: real, threshold: real, k: nat)
    requires a != [] && sd > 0.0 && threshold >= 0.0 && k <= |a|
    ensures |HitsAmong(account, a, sd, threshold, k)| as real * Sq(threshold) <= ZSqSum(a, sd, k)
  {
    hide Sq, ZScore;
    if k > 0 {
      HitsWeigh(account, a, sd, threshold, k - 1);
      var z := ZScore(a, a[k - 1], sd);
      SqSign(z);
      if Abs(z) >= threshold {
        SqMono(threshold, Abs(z));
        OneMore(|HitsAmong(account, a, sd, threshold, k - 1)|, Sq(threshold));
      }
    }
  }

  /** Chebyshev for one account: h hits need h * threshold^2 <= n - 1. */
  lemma HitsAreFew(account: string, a: seq<real>, threshold: real, sqrt: real -> real)
    requires IsSqrt(sqrt) && threshold >= 0.0 && a != []
    ensures |HitsOf(account, a, threshold, sqrt)| as real * Sq(threshold) <= (|a| - 1) as real
  {
    if |a| >= 4 && Variance(a) > 0.0 {
      var sd := sqrt(Variance(a));
      SqSign(sd);
      HitsWeigh(account, a, sd, threshold, |a|);
      ZSquaresSum(a, sd);
    }
  }

  lemma {:induction false} HitsAreScores(account: string, a: seq<real>, sd: real, threshold: real, k: nat)
    requires a != [] && sd != 0.0 && k <= |a| && HitsAmong(account, a, sd, threshold, k) != []
    ensures exists i :: 0 <= i < k && Abs(ZScore(a, a[i], sd)) >= threshold
  {
    if !(Abs(ZScore(a, a[k - 1], sd)) >= threshold) { HitsAreScores(account, a, sd, threshold, k - 1); }
  }

  /** A threshold `t` that a score among `n` entries can reach: n * t^2 <= (n - 1)^2, and any negative one. */
  predicate Reachable(n: nat, threshold: real)
    requires n > 0
  {
    n as real * Sq(Max(threshold, 0.0)) <= Sq((n - 1) as real)
  }

  /** An account is flagged only if it has four entries and the threshold is within reach. */
  lemma UnreachableIsNeverFlagged(account: string, a: seq<real>, threshold: real, sqrt: real -> real)
    requires IsSqrt(sqrt) && (|a| < 4 || !Reachable(|a|, threshold))
    ensures HitsOf(account, a, threshold, sqrt) == []
  {
    if |a| >= 4 && Variance(a) > 0.0 {
      var sd := sqrt(Variance(a));
      SqSign(sd);
      forall i | 0 <= i < |a| ensures Abs(ZScore(a, a[i], sd)) < threshold {
        ZScoreBound(a, i, sd);
        Below(ZScore(a, a[i], sd), |a|, threshold);
      }
      if HitsAmong(account, a, sd, threshold, |a|) != [] { HitsAreScores(account, a, sd, threshold, |a|); }
    }
  }

  lemma Below(z: real, n: nat, threshold: real)
    requires n > 0 && n as real * Sq(z) <= Sq((n - 1) as real) && !Reachable(n, threshold)
    ensures Abs(z) < threshold
  {
    var t := Max(threshold, 0.0);
    SqSign(z);
    hide Sq;
    if Abs(z) >= t {
      SqMono(t, Abs(z));
      MulMono(n as real, Sq(t), Sq(z));
    }
  }

  // ----- a spike reaches as far as any account can -----

  /** n - 1 zeros and a one. */
  ghost function Spike(n: nat): seq<real>
    requires n > 0
  {
    seq(n - 1, _ => 0.0) + [1.0]
  }

  lemma {:induction false} ZerosDevSq(n: nat, m: real)
    ensures DevSq(seq(n, _ => 0.0), m) == n as real * Sq(m) && Sum(seq(n, _ => 0.0)) == 0.0
  {
    if n > 0 {
      assert seq(n, _ => 0.0)[..n - 1] == seq(n - 1, _ => 0.0);
      ZerosDevSq(n - 1, m);
      SqSign(m);
      OneMore(n - 1, Sq(m));
    }
  }

  /** A spike's mean is 1/n and its squared deviations sum to 1 - 1/n. */
  lemma SpikeSums(n: nat)
    requires n >= 2
    ensures var a, m := Spike(n), 1.0 / n as real;
      Mean(a) == m && DevSq(a, m) == 1.0 - m && n as real * m == 1.0 && 0.0 < m < 1.0
  {
    var a, r := Spike(n), n as real;
    var m := 1.0 / r;
    assert a[..n - 1] == seq(n - 1, _ => 0.0) && a[n - 1] == 1.0;
    ZerosDevSq(n - 1, m);
    Quotient(1.0, r);
    OneMore(n - 1, Sq(m));
    SqOfSum(1.0, m);
    SqTimes(m, r);
    assert r * Sq(m) == m by { Reorder(r, m, m); }
    DivideOut(r, 0.0, m);
    DivideOut(r, m, 1.0);
  }

  /** The last entry of a spike attains the bound on z-scores. */
  lemma SpikeIsFlagged(account: string, n: nat, threshold: real, sqrt: real -> real)
    requires IsSqrt(sqrt) && n >= 4 && Reachable(n, threshold)
    ensures HitsOf(account, Spike(n), threshold, sqrt) != []
  {
    var a := Spike(n);
    SpikeSums(n);
    Quotient(1.0 - 1.0 / n as real, (n - 1) as real);
    var sd := sqrt(Variance(a));
    SqSign(sd);
    SpikeScore(n, sd);
    AtLeast(ZScore(a, a[n - 1], sd), n as real, Max(threshold, 0.0));
  }

  lemma SpikeScore(n: nat, sd: real)
    requires n >= 2 && HasSd(Spike(n), sd)
    ensures n as real * Sq(ZScore(Spike(n), 1.0, sd)) == Sq((n - 1) as real)
  {
    var a, r, m, n1 := Spike(n), n as real, 1.0 / n as real, (n - 1) as real;
    var q := 1.0 - m;
    SpikeSums(n);
    var z := ZScore(a, 1.0, sd);
    ZSquared(a, 1.0, sd);
    hide Sq, ZScore, HasSd;
    assert q * Sq(z) == n1 * Sq(q);
    SqIs(q);
    Reorder(n1, q, q);
    CancelFactor(q, Sq(z), n1 * q);
    Distribute(r, 1.0, m);
    Reorder(r, n1, q);
    SqIs(n1);
  }

  lemma SqIs(x: real)
    ensures Sq(x) == x * x
  {
  }

  lemma AtLeast(z: real, r: real, t: real)
    requires r > 0.0 && t >= 0.0 && r * Sq(t) <= r * Sq(z)
    ensures Abs(z) >= t
  {
    hide Sq;
    DivideOut(r, Sq(t), Sq(z));
    SqSign(z);
    if Abs(z) < t { SqMono(Abs(z), t); }
  }

  /** Exactly when some account of n entries can be flagged. */
  lemma FlaggableIff(account: string, n: nat, threshold: real, sqrt: real -> real)
    requires IsSqrt(sqrt)
    ensures (exists a: seq<real> :: |a| == n && HitsOf(account, a, threshold, sqrt) != [])
        <==> n >= 4 && Reachable(n, threshold)
  {
    if a: seq<real> :| |a| == n && HitsOf(account, a, threshold, sqrt) != [] {
      if n < 4 || !Reachable(n, threshold) { UnreachableIsNeverFlagged(account, a, threshold, sqrt); }
    }
    if n >= 4 && Reachable(n, threshold) {
      SpikeIsFlagged(account, n, threshold, sqrt);
      assert |Spike(n)| == n;
    }
  }

  /** At the default threshold of 3: accounts of eleven entries or more. */
  lemma ElevenIsEnough(account: string, n: nat, sqrt: real -> real)
    requires IsSqrt(sqrt)
    ensures (exists a: seq<real> :: |a| == n && HitsOf(account, a, 3.0, sqrt) != []) <==> n >= 11
  {
    FlaggableIff(account, n, 3.0, sqrt);
    if n > 0 { ThreeReachable(n); }
  }

  lemma ThreeReachable(n: nat)
    requires n > 0
    ensures Reachable(n, 3.0) <==> n >= 11
  {
    assert Sq(3.0) == 9.0;
    assert Sq((n - 1) as real) == ((n - 1) * (n - 1)) as real;
    assert (n - 1) * (n - 1) - 9 * n == (n - 11) * n + 1;
    if n >= 11 { assert (n - 11) * n >= 0; } else { assert (11 - n) * n >= 10; }
  }

  // ----- what the report lists -----

  /** `ix` lists, ascending, the positions of an account's entries. */
  ghost predicate EntriesAt(entries: seq<Entry>, account: string, ix: seq<nat>) {
    C.Increasing(ix) && forall i: nat :: i in ix <==> i < |entries| && entries[i].0 == account
  }

  lemma NextEntry(entries: seq<Entry>, account: string, ix: seq<nat>)
    requires entries != [] && EntriesAt(entries[..|entries| - 1], account, ix)
    ensures var n := |entries| - 1; EntriesAt(entries, account, if entries[n].0 == account then ix + [n] else ix)
  {
    forall k | 0 <= k < |ix| ensures ix[k] < |entries| - 1 { assert ix[k] in ix; }
  }

  ghost predicate AmountsAt(entries: seq<Entry>, account: string, ix: seq<nat>) {
    |AmountsOf(entries, account)| == |ix|
    && forall k | 0 <= k < |ix| :: ix[k] < |entries| && AmountsOf(entries, account)[k] == entries[ix[k]].1
  }

  lemma NextAmount(entries: seq<Entry>, account: string, ix: seq<nat>)
    requires entries != [] && AmountsAt(entries[..|entries| - 1], account, ix)
    ensures var n := |entries| - 1; AmountsAt(entries, account, if entries[n].0 == account then ix + [n] else ix)
  {
    assert forall i | 0 <= i < |entries| - 1 :: entries[..|entries| - 1][i] == entries[i];
  }

  /** An account's amounts are those of its entries, in their order. */
  lemma {:induction false} AmountsAreEntries(entries: seq<Entry>, account: string) returns (ix: seq<nat>)
    ensures EntriesAt(entries, account, ix) && AmountsAt(entries, account, ix)
  {
    hide EntriesAt, AmountsAt;
    if entries == [] {
      ix := [];
      NoEntry(account);
    } else {
      var n := |entries| - 1;
      var before := AmountsAreEntries(entries[..n], account);
      ix := if entries[n].0 == account then before + [n] else before;
      NextEntry(entries, account, before);
      NextAmount(entries, account, before);
    }
  }

  lemma NoEntry(account: string)
    ensures EntriesAt([], account, []) && AmountsAt([], account, [])
  {
  }

  /** `ix` lists, ascending, the positions of the amounts whose score reaches the threshold. */
  ghost predicate OutliersAt(a: seq<real>, sd: real, threshold: real, k: nat, ix: seq<nat>)
    requires a != [] && sd != 0.0 && k <= |a|
  {
    C.Increasing(ix) && forall i: nat :: i in ix <==> i < k && Abs(ZScore(a, a[i], sd)) >= threshold
  }

  /** Each hit has the amount and the score of its position. */
  ghost predicate HitsAt(hits: seq<ZScoreHit>, account: string, a: seq<real>, sd: real, ix: seq<nat>)
    requires a != [] && sd != 0.0
  {
    |hits| == |ix| && forall j | 0 <= j < |ix| :: ix[j] < |a| && IsHit(hits[j], account, a, sd, ix[j])
  }

  predicate IsHit(h: ZScoreHit, account: string, a: seq<real>, sd: real, i: nat)
    requires i < |a| && sd != 0.0
  {
    h.account == account && h.amount == a[i] && h.z == ZScore(a, a[i], sd)
  }

  lemma HitSnoc(hits: seq<ZScoreHit>, account: string, a: seq<real>, sd: real, ix: seq<nat>, i: nat)
    requires sd != 0.0 && i < |a| && HitsAt(hits, account, a, sd, ix)
    ensures HitsAt(hits + [ZScoreHit(account, a[i], ZScore(a, a[i], sd))], account, a, sd, ix + [i])
  {
    var h := ZScoreHit(account, a[i], ZScore(a, a[i], sd));
    assert IsHit(h, account, a, sd, i);
    hide IsHit, ZScore;
  }

  /** The hits among the first `k` amounts are exactly the outliers, in order, each with its amount and score. */
  lemma {:induction false} HitsAreOutliers(account: string, a: seq<real>, sd: real, threshold: real, k: nat)
    returns (ix: seq<nat>)
    requires a != [] && sd != 0.0 && k <= |a|
    ensures OutliersAt(a, sd, threshold, k, ix) && HitsAt(HitsAmong(account, a, sd, threshold, k), account, a, sd, ix)
  {
    hide ZScore, OutliersAt, HitsAt, HitsAmong;
    if k == 0 {
      ix := [];
      NoOutliers(account, a, sd, threshold);
    } else {
      var before := HitsAreOutliers(account, a, sd, threshold, k - 1);
      ix := if Abs(ZScore(a, a[k - 1], sd)) >= threshold then before + [k - 1] else before;
      NextOutlier(a, sd, threshold, k, before);
      HitsNext(account, a, sd, threshold, k);
      HitSnoc(HitsAmong(account, a, sd, threshold, k - 1), account, a, sd, before, k - 1);
    }
  }

  lemma NoOutliers(account: string, a: seq<real>, sd: real, threshold: real)
    requires a != [] && sd != 0.0
    ensures OutliersAt(a, sd, threshold, 0, []) && HitsAt(HitsAmong(account, a, sd, threshold, 0), account, a, sd, [])
  {
    hide ZScore;
  }

  lemma NextOutlier(a: seq<real>, sd: real, threshold: real, k: nat, ix: seq<nat>)
    requires a != [] && sd != 0.0 && 0 < k <= |a| && OutliersAt(a, sd, threshold, k - 1, ix)
    ensures OutliersAt(a, sd, threshold, k, if Abs(ZScore(a, a[k - 1], sd)) >= threshold then ix + [k - 1] else ix)
  {
    hide ZScore, Abs;
    forall j | 0 <= j < |ix| ensures ix[j] < k - 1 { assert ix[j] in ix; }
  }

  lemma HitsNext(account: string, a: seq<real>, sd: real, threshold: real, k: nat)
    requires a != [] && sd != 0.0 && 0 < k <= |a|
    ensures var hits, z := HitsAmong(account, a, sd, threshold, k - 1), ZScore(a, a[k - 1], sd);
      HitsAmong(account, a, sd, threshold, k) == if Abs(z) >= threshold then hits + [ZScoreHit(account, a[k - 1], z)] else hits
  {
    hide ZScore;
    Neutral(HitsAmong(account, a, sd, threshold, k - 1));
  }
}
