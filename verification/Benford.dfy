/** app/analyze/anomalies.py: first digits and the Benford test. */
module Benford {
  import opened Wrappers
  import opened Text
  import opened Reals

  function Pow10(k: nat): real { if k == 0 then 1.0 else 10.0 * Pow10(k - 1) }

  lemma {:induction false} Pow10Positive(k: nat)
    ensures Pow10(k) >= 1.0
  {
    if k > 0 { Pow10Positive(k - 1); }
  }

  lemma {:induction false} Pow10Sum(j: nat, k: nat)
    ensures Pow10(j + k) == Times(Pow10(j), Pow10(k))
  {
    if j > 0 {
      Pow10Sum(j - 1, k);
      TenTimes(Pow10(j - 1), Pow10(k));
    }
  }

  lemma TenTimes(x: real, y: real)
    ensures 10.0 * Times(x, y) == Times(10.0 * x, y) == Times(x, 10.0 * y)
  {
  }

  /** `d` is the leading digit of `x`: scaled by powers of ten, `x` lies between `d` and `d + 1`. */
  ghost predicate Leads(x: real, d: nat) {
    1 <= d <= 9 && exists i: nat, j: nat :: LeadsAt(x, d, i, j)
  }

  ghost predicate LeadsAt(x: real, d: nat, i: nat, j: nat) {
    Times(d as real, Pow10(i)) <= Times(x, Pow10(j)) < Times((d + 1) as real, Pow10(i))
  }

  /** The loops of `first_digit`: at most nine steps up, then as many down as the amount has digits. */
  method FirstDigit(amount: real) returns (d: Option<nat>)
    ensures d.None? <==> Abs(amount) < 0.000000001
    ensures d.Some? ==> Leads(Abs(amount), d.value)
  {
    hide Times;
    var x := Abs(amount);
    if x < 0.000000001 { return None; }
    var a := x;
    ghost var up, down := 0, 0;
    TimesRules(x, 1.0);
    while a < 1.0
      invariant up <= 9 && a == Times(x, Pow10(up)) && a >= 0.000000001 * Pow10(up) && (up > 0 ==> a < 10.0)
      decreases 9 - up
    {
      AtNine(up, a);
      TenTimes(x, Pow10(up));
      a := a * 10.0;
      up := up + 1;
    }
    TimesRules(a, 1.0);
    while a >= 10.0
      invariant 1.0 <= a && Times(a, Pow10(down)) == Times(x, Pow10(up))
      decreases a.Floor
    {
      TenTimes(a / 10.0, Pow10(down));
      a := a / 10.0;
      down := down + 1;
    }
    var digit := a.Floor;
    Pow10Positive(down);
    TimesRules(Pow10(down), a);
    TimesMono(Pow10(down), digit as real, a);
    TimesMono(Pow10(down), a, (digit + 1) as real);
    TimesRules(Pow10(down), digit as real);
    TimesRules(Pow10(down), (digit + 1) as real);
    assert LeadsAt(x, digit, down, up);
    d := Some(digit);
  }

  lemma AtNine(k: nat, a: real)
    requires k <= 9 && a >= 0.000000001 * Pow10(k) && a < 1.0
    ensures k < 9
  {
    assert Pow10(3) == 1000.0;
    assert Pow10(6) == 1000000.0;
    assert Pow10(9) == 1000000000.0;
  }

  /** A number has one leading digit. */
  lemma LeadingDigitIsUnique(x: real, d: nat, e: nat)
    requires Leads(x, d) && Leads(x, e)
    ensures d == e
  {
    hide LeadsAt;
    var i: nat, j: nat :| LeadsAt(x, d, i, j);
    var k: nat, l: nat :| LeadsAt(x, e, k, l);
    Rescale(x, d, i, j, l);
    Rescale(x, e, k, l, j);
    SameScale(x, d, i + l, e, k + j, j + l);
  }

  lemma Rescale(x: real, d: nat, i: nat, j: nat, m: nat)
    requires LeadsAt(x, d, i, j)
    ensures LeadsAt(x, d, i + m, j + m)
  {
    Pow10Sum(i, m);
    Pow10Sum(j, m);
    Pow10Positive(m);
    ScaleAll(Pow10(m), d as real, Pow10(i), x, Pow10(j), (d + 1) as real);
  }

  lemma ScaleAll(p: real, d: real, u: real, x: real, v: real, e: real)
    requires p >= 1.0 && Times(d, u) <= Times(x, v) < Times(e, u)
    ensures Times(d, Times(u, p)) <= Times(x, Times(v, p)) < Times(e, Times(u, p))
  {
    Regroup(d, u, p);
    Regroup(x, v, p);
    Regroup(e, u, p);
    hide Times;
    TimesMono(p, Times(d, u), Times(x, v));
    TimesMono(p, Times(x, v), Times(e, u));
  }

  lemma Regroup(a: real, b: real, c: real)
    ensures Times(a, Times(b, c)) == Times(c, Times(a, b))
  {
  }

  lemma SameScale(x: real, d: nat, i: nat, e: nat, k: nat, m: nat)
    requires 1 <= d <= 9 && 1 <= e <= 9 && LeadsAt(x, d, i, m) && LeadsAt(x, e, k, m)
    ensures d == e
  {
    hide Times;
    if i < k { Apart(x, d, i, e, k, m); }
    else if k < i { Apart(x, e, k, d, i, m); }
    else {
      Pow10Positive(i);
      var p := Pow10(i);
      forall y: real ensures Times(y, p) == Times(p, y) { TimesRules(y, p); }
      if d < e { TimesMono(p, (d + 1) as real, e as real); }
      if e < d { TimesMono(p, (e + 1) as real, d as real); }
    }
  }

  lemma Apart(x: real, d: nat, i: nat, e: nat, k: nat, m: nat)
    requires 1 <= d <= 9 && 1 <= e && i < k && LeadsAt(x, d, i, m)
    ensures !LeadsAt(x, e, k, m)
  {
    var p, q := Pow10(i), Pow10(k);
    Pow10Sum(i + 1, k - i - 1);
    Pow10Positive(k - i - 1);
    Pow10Positive(i);
    TimesRules(Pow10(i + 1), Pow10(k - i - 1));
    TimesRules(Pow10(i + 1), 1.0);
    TimesMono(Pow10(i + 1), 1.0, Pow10(k - i - 1));
    assert q >= 10.0 * p;
    TimesRules((d + 1) as real, p);
    TimesRules(e as real, q);
    TimesMono(p, (d + 1) as real, 10.0);
    TimesMono(q, 1.0, e as real);
    TimesRules(p, 10.0);
    TimesRules(q, 1.0);
  }

  // ----- the test -----

  /** Benford's expected share of each first digit. */
  function Expected(d: nat): real {
    match d
    case 1 => 0.301
    case 2 => 0.176
    case 3 => 0.125
    case 4 => 0.097
    case 5 => 0.079
    case 6 => 0.067
    case 7 => 0.058
    case 8 => 0.051
    case 9 => 0.046
    case _ => 0.0
  }

  const CRITICAL := 15.51

  datatype Benford = Benford(observed: map<nat, nat>, chiSquare: real, n: nat, suspect: bool)

  function Count(digits: seq<nat>, d: nat): nat {
    if digits == [] then 0
    else Count(digits[..|digits| - 1], d) + if digits[|digits| - 1] == d then 1 else 0
  }

  function Term(digits: seq<nat>, d: nat): real
    requires digits != [] && 1 <= d <= 9
  {
    Positive(d, |digits|);
    Excess(Count(digits, d) as real, ExpectedCount(d, |digits|))
  }

  function ExpectedCount(d: nat, n: nat): real { Expected(d) * n as real }

  function Excess(o: real, e: real): real
    requires e > 0.0
  {
    Sq(o - e) / e
  }

  lemma Positive(d: nat, n: nat)
    requires 1 <= d <= 9 && n > 0
    ensures ExpectedCount(d, n) > 0.0
  {
    hide Expected;
    assert Expected(d) > 0.0 by { ExpectedPositive(d); }
    TimesRules(Expected(d), n as real);
  }

  lemma ExpectedPositive(d: nat)
    requires 1 <= d <= 9
    ensures Expected(d) > 0.0
  {
  }

  function ChiSquare(digits: seq<nat>, k: nat): real
    requires digits != [] && k <= 9
  {
    if k == 0 then 0.0 else ChiSquare(digits, k - 1) + Term(digits, k)
  }

  /** `benford_first_digit` from the digits on. */
  method BenfordTest(digits: seq<nat>) returns (r: Benford)
    ensures r.n == |digits| && forall d | 1 <= d <= 9 :: d in r.observed && r.observed[d] == Count(digits, d)
    ensures r.chiSquare == if digits == [] then 0.0 else ChiSquare(digits, 9)
    ensures r.suspect <==> r.chiSquare > CRITICAL
  {
    hide Excess, ExpectedCount;
    var observed: map<nat, nat> := map[];
    for i := 0 to |digits|
      invariant forall d :: Count(digits[..i], d) == if d in observed then observed[d] else 0
    {
      var d := digits[i];
      assert digits[..i + 1][..i] == digits[..i];
      observed := observed[d := (if d in observed then observed[d] else 0) + 1];
    }
    TakeAll(digits);
    for d := 1 to 10
      invariant forall e | 1 <= e < d :: e in observed
      invariant forall e :: Count(digits, e) == if e in observed then observed[e] else 0
    {
      if d !in observed { observed := observed[d := 0]; }
    }
    var n := |digits|;
    if n == 0 { return Benford(observed, 0.0, 0, false); }
    var chiSquare := 0.0;
    for d := 1 to 10
      invariant chiSquare == ChiSquare(digits, d - 1)
    {
      var exp := ExpectedCount(d, n);
      assert observed[d] == Count(digits, d);
      Positive(d, n);
      assert ChiSquare(digits, d) == ChiSquare(digits, d - 1) + Term(digits, d);
      if exp > 0.0 {
        chiSquare := chiSquare + Excess(observed[d] as real, exp);
      }
    }
    r := Benford(observed, chiSquare, n, chiSquare > CRITICAL);
  }

  /** The amounts that have a first digit. */
  function NonZero(amounts: seq<real>): seq<real> {
    if amounts == [] then []
    else
      var n := |amounts| - 1;
      NonZero(amounts[..n]) + if Abs(amounts[n]) < 0.000000001 then [] else [amounts[n]]
  }

  ghost predicate AllLead(amounts: seq<real>, digits: seq<nat>) {
    |digits| == |amounts| && forall i | 0 <= i < |digits| :: Leads(Abs(amounts[i]), digits[i])
  }

  /** `benford_first_digit`: the test of the leading digits of the amounts that have one. */
  method BenfordFirstDigit(amounts: seq<real>) returns (r: Benford, ghost first: seq<nat>)
    ensures AllLead(NonZero(amounts), first)
    ensures r.n == |NonZero(amounts)| && forall d | 1 <= d <= 9 :: d in r.observed && r.observed[d] == Count(first, d)
    ensures AreDigits(first)
    ensures r.chiSquare == if first == [] then 0.0 else ChiSquare(first, 9)
    ensures first != [] ==> r.chiSquare == Weighted(first, 9) - |first| as real
    ensures r.suspect <==> r.chiSquare > CRITICAL
  {
    hide Leads, ChiSquare, Count, Weighted;
    var digits: seq<nat> := [];
    for i := 0 to |amounts|
      invariant AllLead(NonZero(amounts[..i]), digits)
    {
      assert amounts[..i + 1][..i] == amounts[..i];
      Neutral(NonZero(amounts[..i]));
      var d := FirstDigit(amounts[i]);
      if d.Some? { digits := digits + [d.value]; }
    }
    TakeAll(amounts);
    first := digits;
    LeadersAreDigits(NonZero(amounts), digits);
    if digits != [] { ChiIdentity(digits); }
    r := BenfordTest(digits);
  }

  lemma LeadersAreDigits(amounts: seq<real>, digits: seq<nat>)
    requires AllLead(amounts, digits)
    ensures AreDigits(digits)
  {
  }

  // ----- what the statistic is -----

  predicate AreDigits(digits: seq<nat>) { forall i | 0 <= i < |digits| :: 1 <= digits[i] <= 9 }

  function Observed(digits: seq<nat>, k: nat): nat { if k == 0 then 0 else Observed(digits, k - 1) + Count(digits, k) }

  function ExpectedTotal(k: nat, n: nat): real {
    if k == 0 then 0.0 else ExpectedTotal(k - 1, n) + ExpectedCount(k, n)
  }

  lemma {:induction false} ObservedIsAll(digits: seq<nat>)
    requires AreDigits(digits)
    ensures Observed(digits, 9) == |digits|
  {
    if digits == [] {
      NoneObserved(9);
    } else {
      var n := |digits| - 1;
      ObservedIsAll(digits[..n]);
      ObservedNext(digits, 9);
    }
  }

  lemma {:induction false} NoneObserved(k: nat)
    ensures Observed([], k) == 0
  {
    if k > 0 { NoneObserved(k - 1); }
  }

  lemma {:induction false} ObservedNext(digits: seq<nat>, k: nat)
    requires digits != [] && digits[|digits| - 1] >= 1
    ensures Observed(digits, k)
         == Observed(digits[..|digits| - 1], k) + if digits[|digits| - 1] <= k then 1 else 0
  {
    if k > 0 { ObservedNext(digits, k - 1); }
  }

  /** The sum of squared counts over expected counts. */
  function Weighted(digits: seq<nat>, k: nat): real
    requires digits != [] && k <= 9
  {
    if k == 0 then 0.0
    else
      Positive(k, |digits|);
      Weighted(digits, k - 1) + Sq(Count(digits, k) as real) / ExpectedCount(k, |digits|)
  }

  lemma TermSplits(o: real, e: real)
    requires e > 0.0
    ensures Excess(o, e) == Sq(o) / e - 2.0 * o + e
  {
    SqOfSum(o, e);
    hide Times;
    var q := Sq(o) / e;
    Quotient(Sq(o), e);
    SqTimes(e, 1.0);
    Collect(o, e, q, Sq(o), Sq(o - e), Sq(e));
  }

  lemma Collect(o: real, e: real, q: real, so: real, sd: real, se: real)
    requires e > 0.0 && e * q == so && sd == so - 2.0 * (o * e) + se && se == e * e
    ensures sd / e == q - 2.0 * o + e
  {
    assert sd == e * (q - 2.0 * o + e);
    Quotient(sd, e);
    CancelFactor(e, sd / e, q - 2.0 * o + e);
  }

  lemma {:induction false} ChiSplits(digits: seq<nat>, k: nat)
    requires digits != [] && k <= 9
    ensures ChiSquare(digits, k)
         == Weighted(digits, k) - 2.0 * Observed(digits, k) as real + ExpectedTotal(k, |digits|)
  {
    if k > 0 {
      ChiSplits(digits, k - 1);
      hide Sq, Expected, Count, Excess, ExpectedCount;
      Positive(k, |digits|);
      TermSplits(Count(digits, k) as real, ExpectedCount(k, |digits|));
    }
  }

  /** The expected shares sum to one. */
  lemma SharesSumToOne(n: nat)
    ensures ExpectedTotal(9, n) == n as real
  {
    var x := n as real;
    assert ExpectedTotal(1, n) == 0.301 * x;
    assert ExpectedTotal(2, n) == 0.477 * x;
    assert ExpectedTotal(4, n) == 0.699 * x;
    assert ExpectedTotal(6, n) == 0.845 * x;
    assert ExpectedTotal(8, n) == 0.954 * x;
  }

  /** The statistic is the weighted sum of squares less the count. */
  lemma ChiIdentity(digits: seq<nat>)
    requires digits != [] && AreDigits(digits)
    ensures ChiSquare(digits, 9) == Weighted(digits, 9) - |digits| as real
  {
    ChiSplits(digits, 9);
    ObservedIsAll(digits);
    SharesSumToOne(|digits|);
  }

  /** The 5% critical value is used without a least sample: one amount is "suspect" iff it leads with 7, 8 or 9. */
  lemma OneAmountIsSuspect(d: nat)
    requires 1 <= d <= 9
    ensures ChiSquare([d], 9) > CRITICAL <==> d >= 7
  {
    hide Sq, Count;
    ChiIdentity([d]);
    OneWeight(d, 9);
    var w := Weighted([d], 9);
    assert Expected(d) * w == 1.0;
    TimesRules(Expected(d), w);
    assert if d >= 7 then Expected(d) <= 0.058 else Expected(d) >= 0.067;
    ExpectedPositive(d);
    if w <= 16.51 { MulMono(Expected(d), w, 16.51); } else { MulMono(Expected(d), 16.51, w); }
  }

  lemma {:induction false} OneWeight(d: nat, k: nat)
    requires 1 <= d <= 9 && k <= 9
    ensures k < d ==> Weighted([d], k) == 0.0
    ensures k >= d ==> Expected(d) * Weighted([d], k) == 1.0
  {
    if k > 0 {
      hide Expected;
      OneWeight(d, k - 1);
      ExpectedPositive(d);
      ExpectedPositive(k);
      OneCount(d, k);
      assert Sq(0.0) == 0.0 && Sq(1.0) == 1.0;
      assert 1 as real == 1.0 && |[d]| == 1;
      Quotient(1.0, Expected(d));
    }
  }

  lemma OneCount(d: nat, k: nat)
    ensures Count([d], k) == if d == k then 1 else 0
  {
    assert Count([d], k) == Count([], k) + if d == k then 1 else 0 by { assert [d][..0] == []; }
  }

  // ----- the counts and the shares -----

  lemma {:induction false} CountIsMultiplicity(digits: seq<nat>, d: nat)
    ensures Count(digits, d) == multiset(digits)[d]
  {
    if digits != [] {
      var n := |digits| - 1;
      CountIsMultiplicity(digits[..n], d);
      assert digits == digits[..n] + [digits[n]];
    }
  }

  /** The larger a digit, the smaller its share; the nine make up a whole, the first three more than six tenths. */
  lemma SharesDecrease()
    ensures forall d: nat, e: nat | 1 <= d < e <= 9 :: Expected(d) > Expected(e) > 0.0
    ensures Expected(1) + Expected(2) + Expected(3) > 0.6
    ensures Expected(1) + Expected(2) + Expected(3) + Expected(4) + Expected(5) + Expected(6) + Expected(7) + Expected(8)
      + Expected(9) == 1.0
  {
  }
}
