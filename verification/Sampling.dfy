/** app/audit/sampling.py: monetary-unit sampling. */
module Sampling {
  import opened Dedupe
  import opened Reals

  datatype Item = Item(id: string, amount: real)

  /** The cumulated absolute amount of the first `i` items. */
  function Prefix(items: seq<Item>, i: nat): real
    requires i <= |items|
  {
    if i == 0 then 0.0 else Prefix(items, i - 1) + Abs(items[i - 1].amount)
  }

  /** The systematic selection points. */
  function Hit(start: real, interval: real, k: nat): real { start + k as real * interval }

  /** How many selection points lie at or below `total`. */
  function HitCount(start: real, interval: real, total: real): nat
    requires interval > 0.0
  {
    if total < start then 0 else
      DivideOutFloor(total - start, interval);
      ((total - start) / interval).Floor + 1
  }

  lemma DivideOutFloor(x: real, interval: real)
    requires x >= 0.0 && interval > 0.0
    ensures x / interval >= 0.0
  {
  }

  /** The currency unit at point `p` belongs to item `i`; everything up to the first item's amount,
      zero included, belongs to the first item. */
  ghost predicate Covers(items: seq<Item>, i: nat, p: real)
    requires i < |items|
  {
    p <= Prefix(items, i + 1) && (i > 0 ==> p > Prefix(items, i))
  }

  /** `owners[k]` is the item at the `k`-th selection point, for all points up to the total of the
      first `n` items. */
  ghost predicate Owners(items: seq<Item>, n: nat, start: real, interval: real, owners: seq<nat>)
    requires n <= |items|
  {
    && (forall k | 0 <= k < |owners| :: owners[k] < n && Covers(items, owners[k], Hit(start, interval, k)))
    && Hit(start, interval, |owners|) > (if n == 0 then -1.0 else Prefix(items, n))
  }

  function IdsOf(items: seq<Item>, owners: seq<nat>): seq<string>
    requires forall k | 0 <= k < |owners| :: owners[k] < |items|
  {
    seq(|owners|, k requires 0 <= k < |owners| => items[owners[k]].id)
  }

  /** A sample, one of the two exceptions, or a loop that never ends. */
  datatype Outcome = Sample(ids: seq<string>) | BadMateriality | DivisionByZero | Endless

  /** What `random.uniform(0, interval)` can draw. */
  predicate Drawn(start: real, interval: real) { 0.0 <= start <= interval || interval <= start <= 0.0 }

  /** `mus_sample`, `start` being the draw from [0, interval]. The id list keeps, in order, the first of
      each run of hits. The source has no test for a negative factor: its inner loop then never ends once
      there is an item (`NegativeIntervalNeverEnds`), which the outcome Endless stands for. */
  method MusSample(items: seq<Item>, materiality: real, factor: real, start: real)
    returns (r: Outcome, ghost owners: seq<nat>)
    requires materiality > 0.0 && factor != 0.0 ==> Drawn(start, materiality / factor)
    ensures r.BadMateriality? <==> materiality <= 0.0
    ensures r.DivisionByZero? <==> materiality > 0.0 && factor == 0.0
    ensures r.Endless? <==> materiality > 0.0 && factor < 0.0 && items != []
    ensures r.Sample? && factor > 0.0 ==> materiality / factor > 0.0
    ensures r.Sample? && factor > 0.0 ==> Owners(items, |items|, start, materiality / factor, owners)
    ensures r.Sample? && factor > 0.0 ==> r.ids == FirstOccurrences(IdsOf(items, owners))
    ensures r.Sample? && factor < 0.0 ==> items == [] && r.ids == []
  {
    if materiality <= 0.0 { return BadMateriality, []; }
    if factor == 0.0 { return DivisionByZero, []; }
    Quotient(materiality, factor);
    if factor < 0.0 { return if items == [] then Sample([]) else Endless, []; }
    var selected;
    selected, owners := Select(items, materiality / factor, start);
    var deduped := DropRepeats(selected);
    r := Sample(deduped);
  }

  /** The two loops, for a positive interval. */
  method Select(items: seq<Item>, interval: real, start: real) returns (selected: seq<string>, ghost owners: seq<nat>)
    requires interval > 0.0 && start >= 0.0
    ensures Owners(items, |items|, start, interval, owners) && selected == IdsOf(items, owners)
  {
    hide Hit, FirstOccurrences, IdsOf;
    owners := [];
    NoHits(items, start, interval);
    var total, nextHit := 0.0, start;
    selected := [];
    for i := 0 to |items|
      invariant total == Prefix(items, i)
      invariant nextHit == Hit(start, interval, |owners|)
      invariant Owners(items, i, start, interval, owners)
      invariant forall k | 0 <= k < |owners| :: owners[k] < |items|
      invariant selected == IdsOf(items, owners)
    {
      ghost var before := owners;
      total := total + Abs(items[i].amount);
      while total >= nextHit
        invariant nextHit == Hit(start, interval, |owners|)
        invariant forall k | 0 <= k < |owners| :: owners[k] < i + 1 && Covers(items, owners[k], Hit(start, interval, k))
        invariant |owners| >= |before|
        invariant selected == IdsOf(items, owners)
        decreases Remaining(total - nextHit, interval)
      {
        AfterEarlierHits(items, i, start, interval, before, |owners|);
        RemainingDrops(total - nextHit, interval);
        NextHit(start, interval, |owners|);
        IdsSnoc(items, owners, i);
        selected := selected + [items[i].id];
        owners := owners + [i];
        nextHit := nextHit + interval;
      }
    }
  }

  /** With a negative interval the inner loop's test holds at the first item after any number of turns. */
  lemma NegativeIntervalNeverEnds(items: seq<Item>, start: real, interval: real, k: nat)
    requires items != [] && interval < 0.0 && Drawn(start, interval)
    ensures Prefix(items, 1) >= Hit(start, interval, k)
  {
    MulMono(k as real, interval, 0.0);
    assert Prefix(items, 0) == 0.0;
  }

  lemma NoHits(items: seq<Item>, start: real, interval: real)
    ensures Hit(start, interval, 0) == start && IdsOf(items, []) == []
  {
    assert 0 as real * interval == 0.0;
  }

  lemma NextHit(start: real, interval: real, k: nat)
    ensures Hit(start, interval, k + 1) == Hit(start, interval, k) + interval
  {
    OneMore(k, interval);
  }

  lemma IdsSnoc(items: seq<Item>, owners: seq<nat>, i: nat)
    requires i < |items| && forall k | 0 <= k < |owners| :: owners[k] < |items|
    ensures IdsOf(items, owners + [i]) == IdsOf(items, owners) + [items[i].id]
  {
  }

  /** How often the inner loop can still run. */
  function Remaining(left: real, interval: real): nat
    requires interval > 0.0
  {
    if left < 0.0 then 0 else
      DivideOutFloor(left, interval);
      (left / interval).Floor + 1
  }

  lemma RemainingDrops(left: real, interval: real)
    requires left >= 0.0 && interval > 0.0
    ensures Remaining(left - interval, interval) < Remaining(left, interval)
  {
    DivideOutFloor(left, interval);
    if left - interval >= 0.0 {
      DivideOutFloor(left - interval, interval);
      MinusOne(left, interval);
    }
  }

  lemma MinusOne(x: real, n: real)
    requires n > 0.0
    ensures (x - n) / n == x / n - 1.0
  {
    Quotient(x, n);
    Quotient(x - n, n);
    Distribute(n, x / n, 1.0);
    CancelFactor(n, (x - n) / n, x / n - 1.0);
  }

  lemma HitMono(start: real, interval: real, j: nat, k: nat)
    requires interval > 0.0 && j <= k
    ensures Hit(start, interval, j) <= Hit(start, interval, k)
    ensures j < k ==> Hit(start, interval, j) < Hit(start, interval, k)
  {
    TimesMono(interval, j as real, k as real);
  }

  /** A selection point not taken by the earlier items lies beyond them. */
  lemma AfterEarlierHits(items: seq<Item>, i: nat, start: real, interval: real, before: seq<nat>, k: nat)
    requires i < |items| && interval > 0.0 && Owners(items, i, start, interval, before) && k >= |before|
    ensures i > 0 ==> Hit(start, interval, k) > Prefix(items, i)
  {
    HitMono(start, interval, |before|, k);
  }

  // ----- what is selected -----

  lemma {:induction false} PrefixMono(items: seq<Item>, i: nat, j: nat)
    requires i <= j <= |items|
    ensures Prefix(items, i) <= Prefix(items, j)
  {
    if i < j { PrefixMono(items, i, j - 1); }
  }

  /** Only one item covers a point. */
  lemma CoverIsUnique(items: seq<Item>, i: nat, j: nat, p: real)
    requires i < |items| && j < |items| && Covers(items, i, p) && Covers(items, j, p)
    ensures i == j
  {
    if i < j { PrefixMono(items, i + 1, j); }
    if j < i { PrefixMono(items, j + 1, i); }
  }

  /** Item `i` is selected exactly when some selection point falls on one of its currency units. */
  lemma SelectedIffHit(items: seq<Item>, start: real, interval: real, owners: seq<nat>, i: nat)
    requires interval > 0.0 && Owners(items, |items|, start, interval, owners) && i < |items|
    ensures i in owners <==> exists k: nat :: Covers(items, i, Hit(start, interval, k))
  {
    if i in owners {
      var k :| 0 <= k < |owners| && owners[k] == i;
      assert Covers(items, i, Hit(start, interval, k));
    }
    forall k: nat | Covers(items, i, Hit(start, interval, k)) ensures i in owners {
      PrefixMono(items, i + 1, |items|);
      if k < |owners| {
        CoverIsUnique(items, i, owners[k], Hit(start, interval, k));
      } else {
        HitMono(start, interval, |owners|, k);
      }
    }
  }

  /** The number of hits: one for every selection point up to the total. */
  lemma HitsCounted(items: seq<Item>, start: real, interval: real, owners: seq<nat>)
    requires interval > 0.0 && items != [] && Owners(items, |items|, start, interval, owners)
    ensures |owners| == HitCount(start, interval, Prefix(items, |items|))
  {
    hide Hit, HitCount;
    var h := |owners|;
    if h > 0 { PrefixMono(items, owners[h - 1] + 1, |items|); }
    CountIs(start, interval, Prefix(items, |items|), h);
  }

  lemma CountIs(start: real, interval: real, t: real, h: nat)
    requires interval > 0.0 && t < Hit(start, interval, h) && (h > 0 ==> Hit(start, interval, h - 1) <= t)
    ensures HitCount(start, interval, t) == h
  {
    assert 0 as real * interval == 0.0;
    if h > 0 {
      HitMono(start, interval, 0, h - 1);
      FloorBetween(t - start, interval, h - 1);
    }
  }

  lemma FloorBetween(x: real, n: real, k: nat)
    requires n > 0.0 && k as real * n <= x < (k + 1) as real * n
    ensures (x / n).Floor == k
  {
    Quotient(x, n);
    DivideOut(n, k as real, x / n);
    if x / n >= (k + 1) as real { MulMono(n, (k + 1) as real, x / n); }
  }

  /** An item at least as large as the interval is always selected. */
  lemma LargeItemsAreSelected(items: seq<Item>, start: real, interval: real, owners: seq<nat>, i: nat)
    requires interval > 0.0 && 0.0 <= start <= interval && Owners(items, |items|, start, interval, owners)
    requires i < |items| && Abs(items[i].amount) >= interval
    ensures i in owners
  {
    PrefixMono(items, 0, i);
    var k := FirstPointAfter(start, interval, Prefix(items, i), i == 0);
    assert Covers(items, i, Hit(start, interval, k));
    SelectedIffHit(items, start, interval, owners, i);
  }

  lemma HitAt(start: real, interval: real, k: nat)
    ensures Hit(start, interval, k) == start + Times(interval, k as real)
  {
  }

  /** A selection point in the half-open interval above `p`, or the very first one. */
  lemma FirstPointAfter(start: real, interval: real, p: real, first: bool) returns (k: nat)
    requires interval > 0.0 && 0.0 <= start <= interval && p >= 0.0 && (first ==> p == 0.0)
    ensures Hit(start, interval, k) <= p + interval && (!first ==> Hit(start, interval, k) > p)
  {
    hide Hit, Times;
    NoHits([], start, interval);
    if first || start > p {
      k := 0;
    } else {
      var x := p - start;
      Quotient(x, interval);
      DivideOutFloor(x, interval);
      var q := x / interval;
      k := q.Floor + 1;
      HitAt(start, interval, k - 1);
      NextHit(start, interval, k - 1);
      TimesMono(interval, (k - 1) as real, q);
      TimesMono(interval, q, k as real);
      HitAt(start, interval, k);
      TimesRules(interval, q);
    }
  }
}
