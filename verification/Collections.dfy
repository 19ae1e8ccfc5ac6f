/** Small facts about numbers and finite sets that several models share. */
module Collections {
  function Max(a: int, b: int): int { if a > b then a else b }
  function Min(a: int, b: int): int { if a < b then a else b }

  predicate Increasing(ix: seq<nat>) { forall j, k | 0 <= j < k < |ix| :: ix[j] < ix[k] }

  /** `r` is what `s` holds at the positions `ix`. */
  ghost predicate Picks<T>(s: seq<T>, ix: seq<nat>, r: seq<T>) {
    |ix| == |r| && forall k | 0 <= k < |ix| :: ix[k] < |s| && r[k] == s[ix[k]]
  }

  /** What is picked from all but the last is picked from the whole, and the last can be picked too. */
  lemma PicksNext<T>(s: seq<T>, ix: seq<nat>, r: seq<T>)
    requires s != [] && Picks(s[..|s| - 1], ix, r)
    ensures var n := |s| - 1; Picks(s, ix, r) && Picks(s, ix + [n], r + [s[n]])
  {
  }

  lemma SubsetSize<T>(a: set<T>, b: set<T>)
    requires a <= b
    ensures |a| <= |b|
    ensures a < b ==> |a| < |b|
  {
    assert b == a + (b - a);
    if a < b { assert b - a != {}; }
  }
}
