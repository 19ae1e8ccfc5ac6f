/** Exact real arithmetic in steps the solver can take one at a time. Squares are kept as a function
    of their own: the solver loses track of a variable multiplied by itself. */
module Reals {
  function Abs(x: real): real { if x < 0.0 then -x else x }
  function Min(x: real, y: real): real { if x < y then x else y }
  function Max(x: real, y: real): real { if x > y then x else y }
  function Times(x: real, y: real): real { x * y }
  function Sq(x: real): real { Times(x, x) }

  /** `math.sqrt`. */
  ghost predicate IsSqrt(sqrt: real -> real) {
    forall x: real | x >= 0.0 :: sqrt(x) >= 0.0 && Sq(sqrt(x)) == x
  }

  // ----- products -----

  lemma TimesRules(a: real, b: real)
    ensures Times(a, b) == a * b && Times(a, b) == Times(b, a)
    ensures a > 0.0 && b > 0.0 ==> Times(a, b) > 0.0
  {
  }

  lemma TimesMono(r: real, x: real, y: real)
    requires r >= 0.0 && x <= y
    ensures Times(r, x) <= Times(r, y)
    ensures r > 0.0 && x < y ==> Times(r, x) < Times(r, y)
  {
  }

  lemma MulMono(r: real, x: real, y: real)
    requires r >= 0.0 && x <= y
    ensures r * x <= r * y
  {
  }

  lemma Distribute(r: real, x: real, y: real)
    ensures r * (x + y) == r * x + r * y && r * (x - y) == r * x - r * y
  {
  }

  lemma Reorder(a: real, b: real, c: real)
    ensures a * (b * c) == (a * b) * c == b * (a * c)
  {
  }

  lemma DivideOut(r: real, x: real, y: real)
    requires r > 0.0 && r * x <= r * y
    ensures x <= y
  {
  }

  lemma CancelFactor(r: real, x: real, y: real)
    requires r != 0.0 && r * x == r * y
    ensures x == y
  {
  }

  lemma Quotient(x: real, n: real)
    requires n != 0.0
    ensures n * (x / n) == x && (x / n) * n == x
    ensures n > 0.0 ==> (x / n > 0.0 <==> x > 0.0)
  {
  }

  lemma OneMore(n: nat, m: real)
    ensures (n + 1) as real * m == n as real * m + m
  {
  }

  // ----- squares -----

  lemma SqPos(x: real)
    requires x > 0.0
    ensures Sq(x) > 0.0
  {
    hide Times;
    TimesRules(x, x);
  }

  lemma SqSign(x: real)
    ensures Sq(x) >= 0.0 && (Sq(x) == 0.0 <==> x == 0.0) && Sq(-x) == Sq(x) == Sq(Abs(x))
  {
    assert Times(-x, -x) == Times(x, x);
    assert Times(0.0, 0.0) == 0.0;
    hide Times;
    if x > 0.0 { SqPos(x); } else if x < 0.0 { SqPos(-x); }
  }

  lemma SqMono(x: real, y: real)
    requires 0.0 <= x <= y
    ensures Sq(x) <= Sq(y)
    ensures x < y ==> Sq(x) < Sq(y)
  {
    hide Times;
    TimesMono(x, x, y);
    TimesRules(x, y);
    TimesMono(y, x, y);
  }

  lemma SqTimes(r: real, y: real)
    ensures Sq(r) * y == r * (r * y)
  {
  }

  lemma SqOfProduct(a: real, b: real)
    ensures Sq(a * b) == Sq(a) * Sq(b)
  {
  }

  lemma SqOfSum(a: real, b: real)
    ensures Sq(a + b) == Sq(a) + 2.0 * (a * b) + Sq(b)
    ensures Sq(a - b) == Sq(a) - 2.0 * (a * b) + Sq(b)
  {
  }
}
