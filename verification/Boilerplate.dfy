/** app/services/comparison_translation.py: `localize_boilerplate`. */
module HebrewBoilerplate {
  import opened Wrappers
  import opened Text
  import opened BoilerplateTable

  // ----- str.replace -----

  /** Python `s.replace(k, v)`: left to right, without overlaps. */
  function ReplaceAll(s: string, k: string, v: string): string
    requires k != ""
    decreases |s|
  {
    var i := Find(s, k);
    if i < 0 then s else s[..i] + v + ReplaceAll(s[i + |k|..], k, v)
  }

  /** The pieces of `s` between the replaced occurrences of `k`. */
  function SplitOn(s: string, k: string): seq<string>
    requires k != ""
    decreases |s|
  {
    var i := Find(s, k);
    if i < 0 then [s] else [s[..i]] + SplitOn(s[i + |k|..], k)
  }

  /** Replacement swaps the separators and touches nothing else. */
  lemma {:induction false} ReplaceSwapsSeparators(s: string, k: string, v: string)
    requires k != ""
    ensures s == Join(SplitOn(s, k), k) && ReplaceAll(s, k, v) == Join(SplitOn(s, k), v)
    ensures forall p | p in SplitOn(s, k) :: !Contains(p, k)
    decreases |s|
  {
    var i := Find(s, k);
    if i >= 0 {
      var rest := SplitOn(s[i + |k|..], k);
      ReplaceSwapsSeparators(s[i + |k|..], k, v);
      Cut(s, 0, i, i + |k|);
      TakeAll(s);
      assert ([s[..i]] + rest)[1..] == rest;
      PrefixFree(s, k, i);
    }
  }

  /** Before its leftmost occurrence a text does not hold the key. */
  lemma PrefixFree(s: string, k: string, i: nat)
    requires k != "" && Find(s, k) == i
    ensures !Contains(s[..i], k)
  {
    Cut(s, 0, i, |s|);
    TakeAll(s);
    forall j ensures !At(s[..i], k, j) {
      if 0 <= j && j + |k| <= i {
        SliceOfSlice(s, 0, i, j, j + |k|);
        assert !At(s, k, j);
      }
    }
  }

  // ----- where a key can occur once a replacement has been made -----

  /** Where an occurrence of `q` overlaps `v`, they agree. */
  lemma Overlap(a: string, v: string, b: string, q: string, i: nat)
    requires At(a + v + b, q, i)
    ensures forall j {:trigger v[j]} | 0 <= j < |v| && i <= |a| + j < i + |q| :: q[|a| + j - i] == v[j]
    ensures forall j {:trigger q[j]} | 0 <= j < |q| && |a| <= i + j < |a| + |v| :: v[i + j - |a|] == q[j]
  {
    var s := a + v + b;
    AtChars(s, q, i);
    assert forall j | 0 <= j < |v| :: s[|a| + j] == v[j];
    forall j | 0 <= j < |v| && i <= |a| + j < i + |q| ensures q[|a| + j - i] == v[j] {
      assert s[i + (|a| + j - i)] == q[|a| + j - i];
    }
    forall j | 0 <= j < |q| && |a| <= i + j < |a| + |v| ensures v[i + j - |a|] == q[j] {
      assert s[|a| + (i + j - |a|)] == v[i + j - |a|];
    }
  }

  /** An occurrence next to a shaped replacement lies wholly on one side of it: it cannot reach over
      the replacement's Hebrew, nor start or end on its outer mark, nor lie inside. */
  lemma OneSide(a: string, v: string, b: string, q: string, i: nat)
    requires KeyShape(q) && ValueShape(v) && At(a + v + b, q, i)
    ensures i + |q| <= |a| || i >= |a| + |v|
  {
    Overlap(a, v, b, q, i);
  }

  lemma InPart(a: string, v: string, b: string, q: string, i: nat)
    requires At(a + v + b, q, i) && (i + |q| <= |a| || i >= |a| + |v|)
    ensures Contains(a, q) || Contains(b, q)
  {
    var s := a + v + b;
    if i + |q| <= |a| {
      assert a[i..i + |q|] == s[i..i + |q|];
      assert At(a, q, i);
    } else {
      var j := i - |a| - |v|;
      assert b[j..j + |q|] == s[i..i + |q|];
      assert At(b, q, j);
    }
  }

  lemma ContainsInPart(s: string, lo: nat, hi: nat, q: string)
    requires lo <= hi <= |s| && Contains(s[lo..hi], q)
    ensures Contains(s, q)
  {
    var i :| At(s[lo..hi], q, i);
    SliceOfSlice(s, lo, hi, i, i + |q|);
    assert At(s, q, lo + i);
  }

  /** Replacing by a shaped value creates no key, and removes its own. */
  lemma {:induction false} ReplaceMakesNoKey(s: string, k: string, v: string, q: string)
    requires KeyShape(k) && KeyShape(q) && ValueShape(v)
    requires Contains(ReplaceAll(s, k, v), q)
    ensures Contains(s, q) && q != k
    decreases |s|
  {
    hide KeyShape, ValueShape;
    KeyNonEmpty(k);
    var i := Find(s, k);
    if i >= 0 {
      var a, b := s[..i], s[i + |k|..];
      var j :| At(a + v + ReplaceAll(b, k, v), q, j);
      OneSide(a, v, ReplaceAll(b, k, v), q, j);
      InPart(a, v, ReplaceAll(b, k, v), q, j);
      PrefixFree(s, k, i);
      TakeAll(s);
      if Contains(a, q) {
        ContainsInPart(s, 0, i, q);
      } else {
        ReplaceMakesNoKey(b, k, v, q);
        ContainsInPart(s, i + |k|, |s|, q);
      }
    } else {
      assert forall j :: !At(s, k, j);
    }
  }

  lemma KeyNonEmpty(k: string)
    requires KeyShape(k)
    ensures k != ""
  {
  }

  // ----- the whole pass -----

  /** The text after the replacements of `pairs`, in order. */
  function LocalizeWith(s: string, pairs: seq<Pair>): string
    requires forall j | 0 <= j < |pairs| :: pairs[j].0 != ""
  {
    if pairs == [] then s
    else
      var n := |pairs| - 1;
      ReplaceAll(LocalizeWith(s, pairs[..n]), pairs[n].0, pairs[n].1)
  }

  ghost predicate AllShaped(pairs: seq<Pair>) {
    forall j | 0 <= j < |pairs| :: pairs[j].0 != "" && Shaped(pairs[j])
  }

  ghost predicate HoldsNoKey(s: string, pairs: seq<Pair>) {
    forall j | 0 <= j < |pairs| :: !Contains(s, pairs[j].0)
  }

  /** No later replacement recreates an earlier key. */
  lemma {:induction false} PassRemovesKeys(s: string, pairs: seq<Pair>)
    requires AllShaped(pairs)
    ensures HoldsNoKey(LocalizeWith(s, pairs), pairs)
  {
    hide KeyShape, ValueShape, Contains;
    if pairs != [] {
      var n := |pairs| - 1;
      var before := LocalizeWith(s, pairs[..n]);
      PassRemovesKeys(s, pairs[..n]);
      forall j | 0 <= j < |pairs| ensures !Contains(LocalizeWith(s, pairs), pairs[j].0) {
        ReplacedAway(before, pairs[n], pairs[j].0);
        if j < n { assert pairs[..n][j] == pairs[j]; }
      }
    }
  }

  lemma ReplacedAway(s: string, p: Pair, q: string)
    requires Shaped(p) && KeyShape(q) && p.0 != ""
    ensures Contains(ReplaceAll(s, p.0, p.1), q) ==> Contains(s, q) && q != p.0
  {
    if Contains(ReplaceAll(s, p.0, p.1), q) { ReplaceMakesNoKey(s, p.0, p.1, q); }
  }

  lemma {:induction false} PassKeepsKeyFree(s: string, pairs: seq<Pair>)
    requires AllShaped(pairs) && HoldsNoKey(s, pairs)
    ensures LocalizeWith(s, pairs) == s
  {
    if pairs != [] {
      var n := |pairs| - 1;
      assert forall j | 0 <= j < n :: pairs[..n][j] == pairs[j];
      PassKeepsKeyFree(s, pairs[..n]);
      assert !Contains(s, pairs[n].0);
      assert Find(s, pairs[n].0) == -1;
    }
  }

  lemma TableIsShaped()
    ensures AllShaped(PAIRS)
  {
    TableShape();
  }

  /** The replacement loop. */
  method Pass(text: string, pairs: seq<Pair>) returns (out: string)
    requires forall j | 0 <= j < |pairs| :: pairs[j].0 != ""
    ensures out == LocalizeWith(text, pairs)
  {
    out := text;
    for j := 0 to |pairs|
      invariant out == LocalizeWith(text, pairs[..j])
    {
      var (en, he) := pairs[j];
      assert pairs[..j + 1][..j] == pairs[..j] && pairs[..j + 1][j] == pairs[j];
      if Find(out, en) != -1 {
        out := ReplaceAll(out, en, he);
      }
    }
    TakeAll(pairs);
  }

  /** `localize_boilerplate`; for an empty text or another locale the text itself. */
  method LocalizeBoilerplate(text: Option<string>, locale: string) returns (r: Option<string>)
    ensures AllShaped(PAIRS)
    ensures if text.None? || text.value == "" || locale != "he" then r == text
            else r == Some(LocalizeWith(text.value, PAIRS))
  {
    hide Shaped, PAIRS;
    TableIsShaped();
    if text.None? || text.value == "" || locale != "he" { return text; }
    var out := Pass(text.value, PAIRS);
    r := Some(out);
  }

  /** For every text: no canned key is left, a second pass changes nothing, and the pass changes the
      text exactly when it holds a key. */
  lemma LocalizeIsClean(s: string)
    ensures AllShaped(PAIRS)
    ensures HoldsNoKey(LocalizeWith(s, PAIRS), PAIRS)
    ensures LocalizeWith(LocalizeWith(s, PAIRS), PAIRS) == LocalizeWith(s, PAIRS)
    ensures LocalizeWith(s, PAIRS) == s <==> HoldsNoKey(s, PAIRS)
  {
    TableIsShaped();
    PassRemovesKeys(s, PAIRS);
    PassKeepsKeyFree(LocalizeWith(s, PAIRS), PAIRS);
    if HoldsNoKey(s, PAIRS) { PassKeepsKeyFree(s, PAIRS); }
  }

  // ----- Hebrew survives -----

  lemma {:induction false} ReplaceKeepsHebrew(s: string, k: string, v: string)
    requires KeyShape(k) && ValueShape(v) && ContainsHebrew(s)
    ensures ContainsHebrew(ReplaceAll(s, k, v))
  {
    var i := Find(s, k);
    if i >= 0 {
      var r := s[..i] + v + ReplaceAll(s[i + |k|..], k, v);
      var h := if IsHebrew(v[0]) then 0 else 1;
      assert r[i + h] == v[h];
    }
  }

  /** A text with Hebrew in it keeps some: what is cached as Hebrew still passes the Hebrew test. */
  lemma {:induction false} LocalizeKeepsHebrew(s: string, pairs: seq<Pair>)
    requires AllShaped(pairs) && ContainsHebrew(s)
    ensures ContainsHebrew(LocalizeWith(s, pairs))
  {
    if pairs != [] {
      var n := |pairs| - 1;
      assert forall j | 0 <= j < n :: pairs[..n][j] == pairs[j];
      LocalizeKeepsHebrew(s, pairs[..n]);
      ReplaceKeepsHebrew(LocalizeWith(s, pairs[..n]), pairs[n].0, pairs[n].1);
    }
  }

  // ----- each key gets its own replacement -----

  /** A text that holds one of the keys only has each occurrence of it swapped for that key's own replacement. */
  lemma {:induction false} OnlyKeyIsReplaced(s: string, pairs: seq<Pair>, j: nat)
    requires AllShaped(pairs) && j < |pairs| && forall i | 0 <= i < |pairs| && i != j :: !Contains(s, pairs[i].0)
    ensures s == Join(SplitOn(s, pairs[j].0), pairs[j].0)
    ensures LocalizeWith(s, pairs) == Join(SplitOn(s, pairs[j].0), pairs[j].1)
  {
    hide Shaped, Contains;
    var n := |pairs| - 1;
    assert forall i | 0 <= i < n :: pairs[..n][i] == pairs[i];
    ReplaceSwapsSeparators(s, pairs[j].0, pairs[j].1);
    if j == n {
      PassKeepsKeyFree(s, pairs[..n]);
    } else {
      OnlyKeyIsReplaced(s, pairs[..n], j);
      StaysAway(s, pairs[j], pairs[n]);
    }
  }

  lemma StaysAway(s: string, p: Pair, q: Pair)
    requires Shaped(p) && Shaped(q) && p.0 != "" && q.0 != "" && !Contains(s, q.0)
    ensures var t := ReplaceAll(s, p.0, p.1); ReplaceAll(t, q.0, q.1) == t
  {
    hide KeyShape, ValueShape, Contains;
    var t := ReplaceAll(s, p.0, p.1);
    ReplacedAway(s, p, q.0);
    NotFound(t, q.0);
  }

  lemma NotFound(t: string, q: string)
    requires !Contains(t, q)
    ensures Find(t, q) == -1
  {
  }
}
