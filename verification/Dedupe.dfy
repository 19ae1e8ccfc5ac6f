/** Dropping repeats while keeping order, as the key rotator and the monetary-unit sampler do. */
module Dedupe {
  import opened Collections

  /** The elements of `s`, each at its first occurrence only. */
  function FirstOccurrences<T(==)>(s: seq<T>): seq<T> {
    if s == [] then []
    else
      var n := |s| - 1;
      var before := FirstOccurrences(s[..n]);
      if s[n] in before then before else before + [s[n]]
  }

  ghost predicate Distinct<T>(s: seq<T>) { forall i, j | 0 <= i < j < |s| :: s[i] != s[j] }

  /** Position `i` holds the first occurrence of its element. */
  ghost predicate IsFirst<T>(s: seq<T>, i: int) { 0 <= i < |s| && s[i] !in s[..i] }

  lemma {:induction false} FirstOccurrencesSpec<T>(s: seq<T>)
    ensures Distinct(FirstOccurrences(s))
    ensures forall x :: x in FirstOccurrences(s) <==> x in s
  {
    if s != [] {
      FirstOccurrencesSpec(s[..|s| - 1]);
      assert s == s[..|s| - 1] + [s[|s| - 1]];
    }
  }

  /** `ix` lists, ascending, the positions of `s` where an element occurs first. */
  ghost predicate FirstPositions<T>(s: seq<T>, ix: seq<nat>) {
    && Increasing(ix)
    && (forall i: nat :: i in ix <==> IsFirst(s, i))
  }

  /** The kept elements stand in the order of their first occurrences, and all of those are kept. */
  lemma {:induction false} FirstOccurrencesOrder<T>(s: seq<T>) returns (ix: seq<nat>)
    ensures FirstPositions(s, ix) && Picks(s, ix, FirstOccurrences(s))
  {
    if s == [] {
      ix := [];
    } else {
      hide IsFirst, FirstPositions, Picks;
      var n := |s| - 1;
      var before := FirstOccurrencesOrder(s[..n]);
      FirstOccurrencesSpec(s[..n]);
      FirstPositionsNext(s, before);
      PicksNext(s, before, FirstOccurrences(s[..n]));
      ix := if s[n] in s[..n] then before else before + [n];
    }
  }

  lemma FirstPositionsNext<T>(s: seq<T>, ix: seq<nat>)
    requires s != [] && FirstPositions(s[..|s| - 1], ix)
    ensures var n := |s| - 1; FirstPositions(s, if s[n] in s[..n] then ix else ix + [n])
  {
    FirstsBefore(s);
    hide IsFirst;
    var n := |s| - 1;
    forall k | 0 <= k < |ix| ensures ix[k] < n {
      assert ix[k] in ix && IsFirst(s[..n], ix[k]);
    }
  }

  lemma FirstsBefore<T>(s: seq<T>)
    requires s != []
    ensures var n := |s| - 1;
      && (forall i: nat :: IsFirst(s[..n], i) <==> i < n && IsFirst(s, i))
      && (IsFirst(s, n) <==> s[n] !in s[..n])
      && forall i: nat | i > n :: !IsFirst(s, i)
  {
    var n := |s| - 1;
    forall i: nat | i < n ensures IsFirst(s[..n], i) <==> IsFirst(s, i) {
      assert s[..n][..i] == s[..i];
    }
  }

  /** The loop over a `seen` set. */
  method DropRepeats<T(==)>(s: seq<T>) returns (r: seq<T>)
    ensures r == FirstOccurrences(s)
    ensures exists ix :: FirstPositions(s, ix) && Picks(s, ix, r)
  {
    var seen: set<T> := {};
    r := [];
    for i := 0 to |s|
      invariant r == FirstOccurrences(s[..i])
      invariant forall x :: x in seen <==> x in r
    {
      assert s[..i + 1][..i] == s[..i];
      if s[i] !in seen {
        seen, r := seen + {s[i]}, r + [s[i]];
      }
    }
    assert s[..|s|] == s;
    ghost var ix := FirstOccurrencesOrder(s);
  }
}
