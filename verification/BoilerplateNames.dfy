/** app/services/comparison_translation.py: the Hebrew of each canned phrase speaks of the same standards. */
module BoilerplateNames {
  import opened Text
  import opened BoilerplateTable

  const GAAP := "US GAAP"
  const IFRS := "IFRS"

  /** The two sets of standards as each phrase names them, in order. */
  const NAMES: seq<seq<string>> := [[GAAP, IFRS], [GAAP], [IFRS], [GAAP], [IFRS], [GAAP, IFRS], [IFRS, GAAP], [], []]

  /** The names stand in `s` one behind the other, from `from` on. */
  ghost predicate InOrder(s: string, names: seq<string>, from: nat) {
    names == [] || exists i: nat :: from <= i && At(s, names[0], i) && InOrder(s, names[1..], i + |names[0]|)
  }

  /** The same closing mark, and the same bracket in front if there is one. */
  predicate SameFrame(p: Pair) {
    && p.0 != "" && p.1 != "" && p.0[|p.0| - 1] == p.1[|p.1| - 1]
    && ((p.0[0] == '(' || p.0[0] == '[' || p.1[0] == '(' || p.1[0] == '[') ==> p.0[0] == p.1[0])
  }

  ghost predicate Names(p: Pair, names: seq<string>) { InOrder(p.0, names, 0) && InOrder(p.1, names, 0) }

  lemma OneName(s: string, x: string, i: nat)
    requires i + |x| <= |s| && forall k | 0 <= k < |x| :: s[i + k] == x[k]
    ensures InOrder(s, [x], 0)
  {
    assert s[i..i + |x|] == x;
    assert At(s, [x][0], i) && [x][1..] == [];
  }

  lemma TwoNames(s: string, x: string, i: nat, y: string, j: nat)
    requires i + |x| <= j && j + |y| <= |s|
    requires (forall k | 0 <= k < |x| :: s[i + k] == x[k]) && forall k | 0 <= k < |y| :: s[j + k] == y[k]
    ensures InOrder(s, [x, y], 0)
  {
    assert s[i..i + |x|] == x && s[j..j + |y|] == y;
    assert At(s, [y][0], j) && [y][1..] == [] && InOrder(s, [], j + |y|);
    assert InOrder(s, [y], i + |x|);
    assert At(s, [x, y][0], i) && [x, y][1..] == [y];
  }

  lemma CompareKeyNames()
    ensures InOrder(EN_COMPARE, [GAAP, IFRS], 0)
  {
    TwoNames(EN_COMPARE, GAAP, 37, IFRS, 100);
  }

  lemma CompareValueNames()
    ensures InOrder(HE_COMPARE, [GAAP, IFRS], 0)
  {
    TwoNames(HE_COMPARE, GAAP, 40, IFRS, 94);
  }

  lemma NoGaapKeyNames()
    ensures InOrder(EN_NO_GAAP, [GAAP], 0)
  {
    OneName(EN_NO_GAAP, GAAP, 3);
  }

  lemma NoGaapValueNames()
    ensures InOrder(HE_NO_GAAP, [GAAP], 0)
  {
    OneName(HE_NO_GAAP, GAAP, 21);
  }

  lemma NoIfrsKeyNames()
    ensures InOrder(EN_NO_IFRS, [IFRS], 0)
  {
    OneName(EN_NO_IFRS, IFRS, 3);
  }

  lemma NoIfrsValueNames()
    ensures InOrder(HE_NO_IFRS, [IFRS], 0)
  {
    OneName(HE_NO_IFRS, IFRS, 21);
  }

  lemma EmptyGaapKeyNames()
    ensures InOrder(EN_EMPTY_GAAP, [GAAP], 0)
  {
    OneName(EN_EMPTY_GAAP, GAAP, 28);
  }

  lemma EmptyGaapValueNames()
    ensures InOrder(HE_EMPTY_GAAP, [GAAP], 0)
  {
    OneName(HE_EMPTY_GAAP, GAAP, 20);
  }

  lemma EmptyIfrsKeyNames()
    ensures InOrder(EN_EMPTY_IFRS, [IFRS], 0)
  {
    OneName(EN_EMPTY_IFRS, IFRS, 28);
  }

  lemma EmptyIfrsValueNames()
    ensures InOrder(HE_EMPTY_IFRS, [IFRS], 0)
  {
    OneName(HE_EMPTY_IFRS, IFRS, 20);
  }

  lemma OnlyGaapKeyNames()
    ensures InOrder(EN_ONLY_GAAP, [GAAP, IFRS], 0)
  {
    TwoNames(EN_ONLY_GAAP, GAAP, 5, IFRS, 39);
  }

  lemma OnlyGaapValueNames()
    ensures InOrder(HE_ONLY_GAAP, [GAAP, IFRS], 0)
  {
    TwoNames(HE_ONLY_GAAP, GAAP, 14, IFRS, 40);
  }

  lemma OnlyIfrsKeyNames()
    ensures InOrder(EN_ONLY_IFRS, [IFRS, GAAP], 0)
  {
    TwoNames(EN_ONLY_IFRS, IFRS, 5, GAAP, 36);
  }

  lemma OnlyIfrsValueNames()
    ensures InOrder(HE_ONLY_IFRS, [IFRS, GAAP], 0)
  {
    TwoNames(HE_ONLY_IFRS, IFRS, 14, GAAP, 32);
  }

  lemma LongFramesAgree()
    ensures SameFrame((EN_COMPARE, HE_COMPARE)) && SameFrame((EN_NO_GAAP, HE_NO_GAAP)) && SameFrame((EN_NO_IFRS, HE_NO_IFRS))
  {
  }

  lemma EmptyFramesAgree()
    ensures SameFrame((EN_EMPTY_GAAP, HE_EMPTY_GAAP)) && SameFrame((EN_EMPTY_IFRS, HE_EMPTY_IFRS))
  {
  }

  lemma ShortFramesAgree()
    ensures SameFrame((EN_ONLY_GAAP, HE_ONLY_GAAP)) && SameFrame((EN_ONLY_IFRS, HE_ONLY_IFRS))
    ensures SameFrame((EN_SYNTHESIZED, HE_SYNTHESIZED)) && SameFrame((EN_FAILED, HE_FAILED))
  {
  }

  /** Each Hebrew phrase names US GAAP and IFRS as its English one does, in the same order, and is framed alike. */
  lemma TableCorresponds()
    ensures |NAMES| == |PAIRS| && forall j | 0 <= j < |PAIRS| :: Names(PAIRS[j], NAMES[j]) && SameFrame(PAIRS[j])
  {
    hide SameFrame;
    LongFramesAgree();
    EmptyFramesAgree();
    ShortFramesAgree();
    CompareKeyNames();
    CompareValueNames();
    NoGaapKeyNames();
    NoGaapValueNames();
    NoIfrsKeyNames();
    NoIfrsValueNames();
    EmptyGaapKeyNames();
    EmptyGaapValueNames();
    EmptyIfrsKeyNames();
    EmptyIfrsValueNames();
    OnlyGaapKeyNames();
    OnlyGaapValueNames();
    OnlyIfrsKeyNames();
    OnlyIfrsValueNames();
  }
}
