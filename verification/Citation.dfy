/** app/rag/citation.py: normalisation and the citation validator. */
module CitationValidator {
  import opened Wrappers
  import opened Text

  datatype Chunk = Chunk(standard: Option<string>, url: string, text: string)
  datatype Citation = Citation(standard: Option<string>, paragraph: Option<string>, url: string, quote: string)

  /** What the model returned for one citation: a record, a dictionary with optional entries, or
      something else. */
  datatype Raw =
    | Record(cite: Citation)
    | Entries(standard: Option<string>, paragraph: Option<string>, url: Option<string>, quote: Option<string>)
    | Malformed

  datatype Reason = NotADict | NoSource | EmptyQuote | NotFound

  /** Lower-casing one character; it may give several. */
  type Fold = char -> string

  // ----- normalisation -----

  /** `re.sub(r"\s+", " ", s)`. */
  function Collapse(s: string): string
    decreases |s|
  {
    if s == "" then ""
    else if IsSpace(s[0]) then " " + Collapse(LStrip(s[1..]))
    else [s[0]] + Collapse(s[1..])
  }

  function Lower(s: string, fold: Fold): string {
    if s == "" then "" else fold(s[0]) + Lower(s[1..], fold)
  }

  function Normalize(s: string, fold: Fold): string { Lower(Strip(Collapse(s)), fold) }

  // ----- the validator -----

  function Truthy(s: Option<string>): bool { s.Some? && s.value != "" }

  /** The citation matches the chunk's source: same url, or its standard named inside the chunk's. */
  predicate SameSource(c: Citation, k: Chunk) {
    || (c.url != "" && k.url == c.url)
    || (Truthy(c.standard) && k.standard.Some? && Find(k.standard.value, c.standard.value) != -1)
  }

  predicate Supports(c: Citation, k: Chunk, fold: Fold) {
    SameSource(c, k) && Find(Normalize(k.text, fold), Normalize(c.quote, fold)) != -1
  }

  /** Some retrieved chunk from the cited source holds the quote, up to whitespace and case. */
  ghost predicate Grounded(c: Citation, retrieved: seq<Chunk>, fold: Fold) {
    exists i :: 0 <= i < |retrieved| && Supports(c, retrieved[i], fold)
  }

  function AsCitation(raw: Raw): Option<Citation> {
    match raw
    case Record(c) => Some(c)
    case Entries(s, p, u, q) =>
      Some(Citation(s, p, if u.Some? then u.value else "", if q.Some? then q.value else ""))
    case Malformed => None
  }

  /** Why a citation is dropped, or `None` when it is kept. */
  ghost function Objection(raw: Raw, retrieved: seq<Chunk>, fold: Fold): Option<Reason> {
    match AsCitation(raw)
    case None => Some(NotADict)
    case Some(c) =>
      if c.url == "" && !Truthy(c.standard) then Some(NoSource)
      else if Strip(c.quote) == "" then Some(EmptyQuote)
      else if !Grounded(c, retrieved, fold) then Some(NotFound)
      else None
  }

  ghost function Kept(raws: seq<Raw>, retrieved: seq<Chunk>, fold: Fold): seq<Citation> {
    if raws == [] then []
    else
      var raw := raws[|raws| - 1];
      Kept(raws[..|raws| - 1], retrieved, fold)
      + match AsCitation(raw)
        case Some(c) => if Objection(raw, retrieved, fold).None? then [c] else []
        case None => []
  }

  ghost function Dropped(raws: seq<Raw>, retrieved: seq<Chunk>, fold: Fold): seq<Reason> {
    if raws == [] then []
    else
      Dropped(raws[..|raws| - 1], retrieved, fold)
      + match Objection(raws[|raws| - 1], retrieved, fold) case Some(r) => [r] case None => []
  }

  /** The inner loop over the normalised chunks. */
  method FindSupport(c: Citation, retrieved: seq<Chunk>, fold: Fold) returns (matched: bool)
    ensures matched <==> Grounded(c, retrieved, fold)
  {
    hide Normalize, SameSource, Find;
    var normalizedQuote := Normalize(c.quote, fold);
    matched := false;
    for i := 0 to |retrieved|
      invariant !matched && forall j | 0 <= j < i :: !Supports(c, retrieved[j], fold)
    {
      var k := retrieved[i];
      if !SameSource(c, k) { continue; }
      if Find(Normalize(k.text, fold), normalizedQuote) != -1 {
        return true;
      }
    }
  }

  /** `validate_citations`. */
  method ValidateCitations(raws: seq<Raw>, retrieved: seq<Chunk>, fold: Fold)
    returns (kept: seq<Citation>, dropped: seq<Reason>)
    ensures kept == Kept(raws, retrieved, fold) && dropped == Dropped(raws, retrieved, fold)
  {
    hide Grounded, Strip;
    kept, dropped := [], [];
    for i := 0 to |raws|
      invariant kept == Kept(raws[..i], retrieved, fold) && dropped == Dropped(raws[..i], retrieved, fold)
    {
      assert raws[..i + 1][..i] == raws[..i] && raws[..i + 1][i] == raws[i];
      var cite := AsCitation(raws[i]);
      if cite.None? {
        dropped := dropped + [NotADict];
        continue;
      }
      var c := cite.value;
      if c.url == "" && !Truthy(c.standard) {
        dropped := dropped + [NoSource];
        continue;
      }
      if Strip(c.quote) == "" {
        dropped := dropped + [EmptyQuote];
        continue;
      }
      var matched := FindSupport(c, retrieved, fold);
      if matched { kept := kept + [c]; } else { dropped := dropped + [NotFound]; }
    }
    TakeAll(raws);
  }

  /** Every citation is kept or dropped, and what is kept is grounded and non-blank. */
  lemma {:induction false} KeptIsGrounded(raws: seq<Raw>, retrieved: seq<Chunk>, fold: Fold)
    ensures |Kept(raws, retrieved, fold)| + |Dropped(raws, retrieved, fold)| == |raws|
    ensures forall c | c in Kept(raws, retrieved, fold) ::
      Grounded(c, retrieved, fold) && Strip(c.quote) != "" && exists raw :: raw in raws && AsCitation(raw) == Some(c)
  {
    hide Grounded, Strip;
    if raws != [] {
      var n := |raws| - 1;
      KeptIsGrounded(raws[..n], retrieved, fold);
      forall c | c in Kept(raws, retrieved, fold) ensures exists raw :: raw in raws && AsCitation(raw) == Some(c) {
        if c in Kept(raws[..n], retrieved, fold) {
          var raw :| raw in raws[..n] && AsCitation(raw) == Some(c);
          assert raw in raws;
        } else {
          assert raws[n] in raws;
        }
      }
    }
  }

  // ----- normalisation keeps substrings -----

  /** Cutting next to a non-blank character cuts the collapsed text in two. */
  lemma {:induction false} CollapseConcat(a: string, b: string)
    requires a == "" || b == "" || !IsSpace(a[|a| - 1]) || !IsSpace(b[0])
    ensures Collapse(a + b) == Collapse(a) + Collapse(b)
    decreases |a|
  {
    if a == "" {
      Neutral(b);
      Neutral(Collapse(b));
    } else if b == "" {
      Neutral(a);
      Neutral(Collapse(a));
    } else if IsSpace(a[0]) {
      CollapseBlankHead(a, b);
      CollapseConcat(LStrip(a[1..]), b);
      Assoc(" ", Collapse(LStrip(a[1..])), Collapse(b));
    } else {
      DropOfConcat(a, b, 1);
      CollapseConcat(a[1..], b);
      Assoc([a[0]], Collapse(a[1..]), Collapse(b));
    }
  }

  lemma CollapseBlankHead(a: string, b: string)
    requires a != "" && b != "" && IsSpace(a[0]) && (!IsSpace(a[|a| - 1]) || !IsSpace(b[0]))
    ensures var rest := LStrip(a[1..]);
      (rest == "" || !IsSpace(rest[|rest| - 1]) || !IsSpace(b[0]))
      && Collapse(a + b) == " " + Collapse(rest + b)
  {
    DropOfConcat(a, b, 1);
    if !IsSpace(a[|a| - 1]) { LastAfterLStrip(a[1..]); }
    StripsItself(b);
    LStripConcat(a[1..], b);
  }

  lemma StripsItself(b: string)
    ensures b == "" || !IsSpace(b[0]) ==> LStrip(b) == b
  {
  }

  lemma {:induction false} LStripConcat(a: string, b: string)
    requires LStrip(a) != "" || LStrip(b) == b
    ensures LStrip(a + b) == LStrip(a) + b
  {
    if a == "" {
      Neutral(b);
    } else {
      DropOfConcat(a, b, 1);
      if IsSpace(a[0]) { LStripConcat(a[1..], b); }
    }
  }

  /** A text without blank ends. */
  predicate Trimmed(s: string) { s != "" && !IsSpace(s[0]) && !IsSpace(s[|s| - 1]) }

  lemma {:induction false} CollapseTrimmed(s: string)
    requires s != "" && !IsSpace(s[|s| - 1])
    ensures var c := Collapse(s);
      c != "" && c[|c| - 1] == s[|s| - 1] && (!IsSpace(s[0]) ==> c[0] == s[0])
    decreases |s|
  {
    if IsSpace(s[0]) {
      var rest := LStrip(s[1..]);
      LastAfterLStrip(s[1..]);
      CollapseTrimmed(rest);
    } else if |s| > 1 {
      CollapseTrimmed(s[1..]);
    }
  }

  lemma {:induction false} LastAfterLStrip(s: string)
    requires s != "" && !IsSpace(s[|s| - 1])
    ensures LStrip(s) != "" && LStrip(s)[|LStrip(s)| - 1] == s[|s| - 1]
  {
    if IsSpace(s[0]) { LastAfterLStrip(s[1..]); }
  }

  lemma {:induction false} CollapseBlank(s: string)
    requires AllSpace(s)
    ensures AllSpace(Collapse(s))
    decreases |s|
  {
    if s != "" {
      BlankLStrip(s[1..]);
      assert LStrip(s[1..]) == "";
    }
  }

  lemma {:induction false} BlankLStrip(s: string)
    requires AllSpace(s)
    ensures LStrip(s) == ""
  {
    if s != "" { BlankLStrip(s[1..]); }
  }

  /** Stripping a trimmed core between blanks gives the core. */
  lemma StripCore(pre: string, core: string, post: string)
    requires AllSpace(pre) && AllSpace(post) && Trimmed(core)
    ensures Strip(pre + core + post) == core
  {
    Assoc(pre, core, post);
    LStripBlanks(pre, core + post);
    RStripBlanks(core, post);
  }

  lemma {:induction false} LStripBlanks(pre: string, s: string)
    requires AllSpace(pre) && (s == "" || !IsSpace(s[0]))
    ensures LStrip(pre + s) == s
  {
    if pre == "" {
      Neutral(s);
    } else {
      DropOfConcat(pre, s, 1);
      LStripBlanks(pre[1..], s);
    }
  }

  lemma {:induction false} RStripBlanks(s: string, post: string)
    requires AllSpace(post) && s != "" && !IsSpace(s[|s| - 1])
    ensures RStrip(s + post) == s
  {
    if post == "" {
      Neutral(s);
    } else {
      var n := |post| - 1;
      assert (s + post)[..|s + post| - 1] == s + post[..n];
      RStripBlanks(s, post[..n]);
    }
  }

  /** A trimmed string inside a text stays inside when the text is stripped. */
  lemma InsideStrip(a: string, core: string, b: string)
    requires Trimmed(core)
    ensures Contains(Strip(a + core + b), core)
  {
    var s := a + core + b;
    var pre, post := StripParts(s);
    hide Strip;
    var m := Strip(s);
    Outer(pre, m, post);
    assert s[|a|] == core[0] && s[|a| + |core| - 1] == core[|core| - 1];
    Middle(a, core, b);
    SliceOfSlice(s, |pre|, |pre| + |m|, |a| - |pre|, |a| - |pre| + |core|);
    assert At(m, core, |a| - |pre|);
  }

  lemma Outer(pre: string, m: string, post: string)
    requires AllSpace(pre) && AllSpace(post)
    ensures var s := pre + m + post;
      (forall k | 0 <= k < |pre| :: IsSpace(s[k])) && (forall k | |pre| + |m| <= k < |s| :: IsSpace(s[k]))
      && s[|pre|..|pre| + |m|] == m
  {
    var s := pre + m + post;
    forall k | |pre| + |m| <= k < |s| ensures IsSpace(s[k]) { assert s[k] == post[k - |pre| - |m|]; }
    Middle(pre, m, post);
  }

  lemma Middle(a: string, core: string, b: string)
    ensures (a + core + b)[|a|..|a| + |core|] == core
  {
  }

  lemma {:induction false} LowerConcat(a: string, b: string, fold: Fold)
    ensures Lower(a + b, fold) == Lower(a, fold) + Lower(b, fold)
  {
    if a == "" {
      Neutral(b);
      Neutral(Lower(b, fold));
    } else {
      DropOfConcat(a, b, 1);
      LowerConcat(a[1..], b, fold);
      Assoc(fold(a[0]), Lower(a[1..], fold), Lower(b, fold));
    }
  }

  lemma LowerKeepsSubstring(s: string, p: string, fold: Fold)
    requires Contains(s, p)
    ensures Contains(Lower(s, fold), Lower(p, fold))
  {
    var i :| At(s, p, i);
    var a, b := s[..i], s[i + |p|..];
    assert s == a + p + b;
    LowerConcat(a + p, b, fold);
    LowerConcat(a, p, fold);
    Sandwiched(Lower(a, fold), Lower(p, fold), Lower(b, fold));
  }

  lemma Sandwiched(a: string, p: string, b: string)
    ensures Contains(a + p + b, p)
  {
    assert (a + p + b)[|a|..|a| + |p|] == p;
    assert At(a + p + b, p, |a|);
  }

  lemma NormalizeCore(pre: string, core: string, post: string, fold: Fold)
    requires AllSpace(pre) && AllSpace(post) && Trimmed(core)
    ensures Normalize(pre + core + post, fold) == Lower(Collapse(core), fold)
    ensures Trimmed(Collapse(core))
  {
    CollapseTrimmed(core);
    CollapseConcat(pre + core, post);
    CollapseConcat(pre, core);
    CollapseBlank(pre);
    CollapseBlank(post);
    StripCore(Collapse(pre), Collapse(core), Collapse(post));
  }

  /** A literal substring of a text is a substring after normalisation too. */
  lemma NormalizeKeepsSubstring(a: string, q: string, b: string, fold: Fold)
    ensures Contains(Normalize(a + q + b, fold), Normalize(q, fold))
  {
    var core := Strip(q);
    var pre, post := StripParts(q);
    hide Collapse, Strip, Lower;
    if core == "" {
      BlankNormalizes(q, fold);
      assert At(Normalize(a + q + b, fold), "", 0);
    } else {
      NormalizeCore(pre, core, post, fold);
      Regroup(a, pre, core, post, b);
      CoreInside(a + pre, core, post + b, fold);
    }
  }

  lemma Regroup(a: string, pre: string, core: string, post: string, b: string)
    ensures a + (pre + core + post) + b == (a + pre) + core + (post + b)
  {
  }

  lemma CoreInside(l: string, core: string, r: string, fold: Fold)
    requires Trimmed(core)
    ensures Contains(Normalize(l + core + r, fold), Lower(Collapse(core), fold))
  {
    hide Lower, Strip, Contains;
    CollapseTrimmed(core);
    CollapseConcat(l + core, r);
    CollapseConcat(l, core);
    InsideStrip(Collapse(l), Collapse(core), Collapse(r));
    LowerKeepsSubstring(Strip(Collapse(l + core + r)), Collapse(core), fold);
  }

  lemma BlankNormalizes(q: string, fold: Fold)
    requires Strip(q) == ""
    ensures Normalize(q, fold) == ""
  {
    CollapseBlank(q);
    BlankStrip(Collapse(q));
  }

  lemma BlankStrip(s: string)
    requires AllSpace(s)
    ensures Strip(s) == ""
  {
    BlankLStrip(s);
  }

  /** A verbatim, non-blank quote from a retrieved chunk cited by its url is always kept. */
  lemma VerbatimQuoteIsKept(c: Citation, retrieved: seq<Chunk>, i: nat, a: string, b: string, fold: Fold)
    requires i < |retrieved| && c.url != "" && retrieved[i].url == c.url && Strip(c.quote) != ""
    requires retrieved[i].text == a + c.quote + b
    ensures Objection(Record(c), retrieved, fold).None?
  {
    hide Normalize, Strip;
    NormalizeKeepsSubstring(a, c.quote, b, fold);
    var t, q := Normalize(retrieved[i].text, fold), Normalize(c.quote, fold);
    var j :| At(t, q, j);
    assert Find(t, q) != -1;
    assert Supports(c, retrieved[i], fold);
  }
}
