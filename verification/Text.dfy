/** Strings as Python and JavaScript see them: substring search, whitespace, words. */
module Text {

  /** `p` occurs in `s` at position `i`. */
  predicate At<T(==)>(s: seq<T>, p: seq<T>, i: int) {
    0 <= i && i + |p| <= |s| && s[i..i + |p|] == p
  }

  /** Python `p in s`. */
  ghost predicate Contains<T>(s: seq<T>, p: seq<T>) {
    exists i :: At(s, p, i)
  }

  /** Python `s.find(p, from)`, JavaScript `s.indexOf(p, from)`: the leftmost occurrence, or -1. */
  function FindFrom<T(==)>(s: seq<T>, p: seq<T>, from: nat): (r: int)
    ensures r == -1 ==> forall i | i >= from :: !At(s, p, i)
    ensures r != -1 ==> from <= r && At(s, p, r) && forall i | from <= i < r :: !At(s, p, i)
    decreases |s| - from
  {
    if from + |p| > |s| then -1
    else if At(s, p, from) then from
    else FindFrom(s, p, from + 1)
  }

  function Find<T(==)>(s: seq<T>, p: seq<T>): (r: int)
    ensures r == -1 ==> forall i :: !At(s, p, i)
    ensures r != -1 ==> At(s, p, r) && forall i | 0 <= i < r :: !At(s, p, i)
  {
    FindFrom(s, p, 0)
  }

  lemma FindUnique<T>(s: seq<T>, p: seq<T>, r: int)
    requires At(s, p, r) && forall i | 0 <= i < r :: !At(s, p, i)
    ensures Find(s, p) == r
  {
    assert At(s, p, r);
  }

  lemma AtInPrefix<T>(a: seq<T>, b: seq<T>, p: seq<T>, i: nat)
    requires i + |p| <= |a|
    ensures At(a + b, p, i) == At(a, p, i)
  {
    assert (a + b)[i..i + |p|] == a[i..i + |p|];
  }

  lemma AtChars<T>(s: seq<T>, p: seq<T>, i: nat)
    requires At(s, p, i)
    ensures forall j | 0 <= j < |p| :: s[i + j] == p[j]
  {
    forall j | 0 <= j < |p| ensures s[i + j] == p[j] { assert s[i..i + |p|][j] == s[i + j]; }
  }

  lemma SliceOfSlice<T>(s: seq<T>, lo: nat, hi: nat, i: nat, j: nat)
    requires lo <= hi <= |s| && i <= j <= hi - lo
    ensures s[lo..hi][i..j] == s[lo + i..lo + j]
  {
    var m := s[lo..hi];
    assert |m| == hi - lo && |m[i..j]| == |s[lo + i..lo + j]|;
    forall k | 0 <= k < j - i ensures m[i..j][k] == s[lo + i..lo + j][k] {
      assert m[i..j][k] == m[i + k] == s[lo + i + k];
    }
  }

  // ----- sequence algebra, one step at a time -----

  lemma Assoc<T>(a: seq<T>, b: seq<T>, c: seq<T>)
    ensures a + b + c == a + (b + c)
  {
  }

  lemma DropOfConcat<T>(a: seq<T>, b: seq<T>, n: nat)
    requires n <= |a|
    ensures (a + b)[n..] == a[n..] + b && (a + b)[..n] == a[..n]
  {
  }

  lemma AfterPrefix<T>(p: seq<T>, t: seq<T>)
    ensures p <= p + t && (p + t)[|p|..] == t && (p + t)[..|p|] == p
  {
  }

  lemma Neutral<T>(a: seq<T>)
    ensures a + [] == a && [] + a == a
  {
  }

  /** `"".join(parts)`. */
  function Concat<T>(parts: seq<seq<T>>): seq<T> {
    if parts == [] then [] else parts[0] + Concat(parts[1..])
  }

  lemma {:induction false} ConcatAppend<T>(a: seq<seq<T>>, b: seq<seq<T>>)
    ensures Concat(a + b) == Concat(a) + Concat(b)
  {
    if a == [] {
      Neutral(b);
      Neutral(Concat(b));
    } else {
      DropOfConcat(a, b, 1);
      calc {
        Concat(a + b);
        a[0] + Concat(a[1..] + b);
        { ConcatAppend(a[1..], b); }
        a[0] + (Concat(a[1..]) + Concat(b));
        { Assoc(a[0], Concat(a[1..]), Concat(b)); }
        Concat(a) + Concat(b);
      }
    }
  }

  lemma ConcatSnoc<T>(a: seq<seq<T>>, x: seq<T>)
    ensures Concat(a + [x]) == Concat(a) + x
  {
    ConcatAppend(a, [x]);
    Neutral(x);
  }

  /** `sep.join(parts)`. */
  function Join(parts: seq<string>, sep: string): string {
    if parts == [] then "" else if |parts| == 1 then parts[0]
    else parts[0] + sep + Join(parts[1..], sep)
  }

  /** Whitespace of Python's `str.split`, `str.strip` and of `\s` in its regular expressions. */
  predicate IsSpace(c: char) {
    || '\t' <= c <= '\r' || '\U{1c}' <= c <= ' ' || c == '\U{85}' || c == '\U{a0}'
    || c == '\U{1680}' || '\U{2000}' <= c <= '\U{200a}' || '\U{2028}' <= c <= '\U{2029}'
    || c == '\U{202f}' || c == '\U{205f}' || c == '\U{3000}'
  }

  predicate AllSpace(s: string) {
    forall i | 0 <= i < |s| :: IsSpace(s[i])
  }

  predicate SpaceIn(s: string, i: nat, j: nat)
    requires i <= j <= |s|
  {
    forall k | i <= k < j :: IsSpace(s[k])
  }

  lemma Cut<T>(s: seq<T>, i: nat, j: nat, k: nat)
    requires i <= j <= k <= |s|
    ensures s[i..] == s[i..j] + s[j..k] + s[k..]
  {
  }

  lemma TakeNext<T>(s: seq<T>, i: nat)
    requires i < |s|
    ensures s[..i + 1] == s[..i] + [s[i]]
  {
  }

  lemma TakeAll<T>(s: seq<T>)
    ensures s[..|s|] == s && s[0..] == s
  {
  }

  /** Python `s.lstrip()`, `s.rstrip()` and `s.strip()`. */
  function LStrip(s: string): (r: string)
    ensures |r| <= |s| && r == s[|s| - |r|..] && AllSpace(s[..|s| - |r|])
    ensures r != "" ==> !IsSpace(r[0])
  {
    if s != "" && IsSpace(s[0]) then
      var r := LStrip(s[1..]);
      assert s[..|s| - |r|] == [s[0]] + s[1..][..|s| - 1 - |r|];
      r
    else s
  }

  function RStrip(s: string): (r: string)
    ensures |r| <= |s| && r == s[..|r|] && AllSpace(s[|r|..])
    ensures r != "" ==> !IsSpace(r[|r| - 1])
  {
    if s != "" && IsSpace(s[|s| - 1]) then
      var r := RStrip(s[..|s| - 1]);
      assert s[|r|..] == s[..|s| - 1][|r|..] + [s[|s| - 1]];
      r
    else s
  }

  function Strip(s: string): (r: string)
    ensures r != "" ==> !IsSpace(r[0]) && !IsSpace(r[|r| - 1])
    ensures r == "" ==> AllSpace(s)
  {
    RStrip(LStrip(s))
  }

  /** `s` is its stripped core between two runs of whitespace. */
  lemma StripParts(s: string) returns (pre: string, post: string)
    ensures s == pre + Strip(s) + post && AllSpace(pre) && AllSpace(post)
  {
    hide LStrip, RStrip;
    var l := LStrip(s);
    pre, post := s[..|s| - |l|], l[|RStrip(l)|..];
    Split(s, l);
    SplitBack(l, RStrip(l));
    assert pre + (RStrip(l) + post) == pre + RStrip(l) + post;
  }

  lemma Split<T>(s: seq<T>, r: seq<T>)
    requires |r| <= |s| && r == s[|s| - |r|..]
    ensures s == s[..|s| - |r|] + r
  {
  }

  lemma SplitBack<T>(s: seq<T>, r: seq<T>)
    requires |r| <= |s| && r == s[..|r|]
    ensures s == r + s[|r|..]
  {
  }

  /** Number of leading non-whitespace characters. */
  function WordLen(s: string): (n: nat)
    ensures n <= |s| && (forall i | 0 <= i < n :: !IsSpace(s[i])) && (n < |s| ==> IsSpace(s[n]))
  {
    if s == "" || IsSpace(s[0]) then 0 else 1 + WordLen(s[1..])
  }

  /** Python `s.split()`: the maximal whitespace-free runs. */
  function Words(s: string): seq<string> {
    if s == "" then []
    else if IsSpace(s[0]) then Words(s[1..])
    else
      var n := WordLen(s);
      [s[..n]] + Words(s[n..])
  }

  /** Cutting a text next to whitespace cuts its words between two words. */
  lemma {:induction false} WordsConcat(a: string, b: string)
    requires a == "" || b == "" || IsSpace(a[|a| - 1]) || IsSpace(b[0])
    ensures Words(a + b) == Words(a) + Words(b)
    decreases |a|
  {
    if a == "" {
      Neutral(b);
      Neutral(Words(b));
    } else if b == "" {
      Neutral(a);
      Neutral(Words(a));
    } else if IsSpace(a[0]) {
      DropOfConcat(a, b, 1);
      WordsConcat(a[1..], b);
    } else {
      WordLenConcat(a, b);
      WordsConcat(a[WordLen(a)..], b);
      FirstWord(a, b, WordLen(a));
    }
  }

  lemma FirstWord(a: string, b: string, n: nat)
    requires a != "" && !IsSpace(a[0]) && WordLen(a) == n == WordLen(a + b)
    requires Words(a[n..] + b) == Words(a[n..]) + Words(b)
    ensures Words(a + b) == Words(a) + Words(b)
  {
    DropOfConcat(a, b, n);
    Assoc([a[..n]], Words(a[n..]), Words(b));
    assert Words(a + b) == [(a + b)[..n]] + Words((a + b)[n..]);
  }

  lemma {:induction false} WordLenConcat(a: string, b: string)
    requires a != "" && b != "" && (IsSpace(a[|a| - 1]) || IsSpace(b[0]))
    ensures WordLen(a + b) == WordLen(a)
  {
    DropOfConcat(a, b, 1);
    if !IsSpace(a[0]) {
      if |a| > 1 { WordLenConcat(a[1..], b); } else { Neutral(b); }
    }
  }

  lemma {:induction false} AllSpaceHasNoWords(s: string)
    requires AllSpace(s)
    ensures Words(s) == []
  {
    if s != "" { AllSpaceHasNoWords(s[1..]); }
  }

  /** A separator of whitespace between two texts keeps their words. */
  lemma WordsAround(a: string, sep: string, b: string)
    requires sep != "" && AllSpace(sep)
    ensures Words(a + sep + b) == Words(a) + Words(b)
  {
    AllSpaceHasNoWords(sep);
    WordsConcat(a + sep, b);
    WordsConcat(a, sep);
    Neutral(Words(a));
  }

  lemma WordsStrip(s: string)
    ensures Words(Strip(s)) == Words(s)
  {
    var pre, post := StripParts(s);
    AllSpaceHasNoWords(pre);
    AllSpaceHasNoWords(post);
    WordsConcat(pre + Strip(s), post);
    WordsConcat(pre, Strip(s));
  }

  lemma NoWordsIffBlank(s: string)
    ensures Words(s) == [] <==> Strip(s) == ""
  {
    WordsStrip(s);
    if Strip(s) != "" { assert Words(Strip(s)) != []; }
  }

  /** All words of a list of strings, in order. */
  function AllWords(parts: seq<string>): seq<string> {
    if parts == [] then [] else Words(parts[0]) + AllWords(parts[1..])
  }

  lemma {:induction false} AllWordsAppend(a: seq<string>, b: seq<string>)
    ensures AllWords(a + b) == AllWords(a) + AllWords(b)
  {
    if a == [] {
      Neutral(b);
      Neutral(AllWords(b));
    } else {
      DropOfConcat(a, b, 1);
      AllWordsAppend(a[1..], b);
      Assoc(Words(a[0]), AllWords(a[1..]), AllWords(b));
    }
  }

  lemma NoParts()
    ensures Words("") == [] && AllWords([]) == []
  {
  }

  lemma AllWordsCons(x: string, b: seq<string>)
    ensures AllWords([x] + b) == Words(x) + AllWords(b)
  {
    DropOfConcat([x], b, 1);
    Neutral(b);
  }

  lemma AllWordsOne(x: string)
    ensures AllWords([x]) == Words(x)
  {
    AllWordsCons(x, []);
    Neutral([x]);
    Neutral(Words(x));
  }

  lemma AllWordsSnoc(a: seq<string>, x: string)
    ensures AllWords(a + [x]) == AllWords(a) + Words(x)
  {
    AllWordsAppend(a, [x]);
    AllWordsOne(x);
  }

  /** Joining with a whitespace separator keeps exactly the words. */
  lemma {:induction false} WordsOfJoin(parts: seq<string>, sep: string)
    requires sep != "" && AllSpace(sep)
    ensures Words(Join(parts, sep)) == AllWords(parts)
  {
    if |parts| == 1 {
      AllWordsOne(parts[0]);
      assert parts == [parts[0]];
    } else if |parts| > 1 {
      WordsOfJoin(parts[1..], sep);
      WordsAround(parts[0], sep, Join(parts[1..], sep));
    }
  }
}
