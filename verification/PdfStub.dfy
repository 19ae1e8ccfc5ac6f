/** app/audit/workpapers/renderer.py: the hand-built one-line PDF, and a reader of its structure after
    ISO 32000-1, sections 7.3.4.2 (literal strings), 7.3.8 (streams), 7.5.4 (cross-reference table) and
    7.5.5 (trailer). The file is ASCII, so a byte is a character. */
module PdfStub {
  import opened Text
  import opened Wrappers

  // ----- decimal numbers -----

  function Digit(d: nat): char
    requires d < 10
  {
    ('0' as int + d) as char
  }

  predicate IsDigit(c: char) { '0' <= c <= '9' }

  predicate AllDigits(s: string) { forall i | 0 <= i < |s| :: IsDigit(s[i]) }

  /** `str(n)`. */
  function Dec(n: nat): string {
    if n < 10 then [Digit(n)] else Dec(n / 10) + [Digit(n % 10)]
  }

  function Zeros(k: nat): (s: string)
    ensures |s| == k && forall i | 0 <= i < k :: s[i] == '0'
  {
    seq(k, _ => '0')
  }

  /** `f"{n:010d}"`. */
  function Pad10(n: nat): string {
    var d := Dec(n);
    if |d| < 10 then Zeros(10 - |d|) + d else d
  }

  /** The value of a row of digits. */
  function NumberIn(s: string): nat {
    if s == "" then 0
    else
      var n := |s| - 1;
      NumberIn(s[..n]) * 10 + (if IsDigit(s[n]) then s[n] as int - '0' as int else 0)
  }

  lemma NumberNext(s: string, c: char)
    requires IsDigit(c)
    ensures NumberIn(s + [c]) == NumberIn(s) * 10 + (c as int - '0' as int)
  {
    assert (s + [c])[..|s|] == s;
  }

  lemma {:induction false} DecReads(n: nat)
    ensures AllDigits(Dec(n)) && Dec(n) != "" && NumberIn(Dec(n)) == n
  {
    if n >= 10 {
      DecReads(n / 10);
      NumberNext(Dec(n / 10), Digit(n % 10));
    } else {
      NumberNext("", Digit(n));
      assert "" + [Digit(n)] == [Digit(n)];
    }
  }

  lemma {:induction false} ZerosRead(k: nat, d: string)
    requires AllDigits(d)
    ensures NumberIn(Zeros(k) + d) == NumberIn(d)
    decreases |d|, k
  {
    if d == "" {
      Neutral(Zeros(k));
      if k > 0 {
        ZerosRead(k - 1, "");
        Neutral(Zeros(k - 1));
        NumberNext(Zeros(k - 1), '0');
        assert Zeros(k) == Zeros(k - 1) + ['0'];
      }
    } else {
      var n := |d| - 1;
      ZerosRead(k, d[..n]);
      NumberNext(Zeros(k) + d[..n], d[n]);
      assert Zeros(k) + d == (Zeros(k) + d[..n]) + [d[n]];
    }
  }

  function Pow10(k: nat): nat { if k == 0 then 1 else 10 * Pow10(k - 1) }

  lemma {:induction false} DecLength(n: nat, k: nat)
    requires n < Pow10(k + 1)
    ensures |Dec(n)| <= k + 1
  {
    if k > 0 && n >= 10 {
      DecLength(n / 10, k - 1);
    }
  }

  lemma Pad10Reads(n: nat)
    requires n < 1_0000
    ensures |Pad10(n)| == 10 && AllDigits(Pad10(n)) && NumberIn(Pad10(n)) == n
  {
    DecLength(n, 3);
    DecReads(n);
    ZerosRead(10 - |Dec(n)|, Dec(n));
  }

  // ----- the message -----

  predicate Showable(c: char) { ' ' <= c <= '~' && c != '(' && c != ')' && c != '\\' }

  function Sanitize(message: string): (s: string)
    ensures |s| == |message| && forall i | 0 <= i < |s| :: Showable(s[i])
    ensures forall i | 0 <= i < |s| :: Showable(message[i]) ==> s[i] == message[i]
  {
    seq(|message|, i requires 0 <= i < |message| => if Showable(message[i]) then message[i] else ' ')
  }

  /** What the file shows: the sanitized message's first 500 characters, or a stock text for no message. */
  function Safe(message: string): (s: string)
    ensures 0 < |s| <= 500 && forall i | 0 <= i < |s| :: Showable(s[i])
    ensures message != "" ==> |s| == if |message| < 500 then |message| else 500
    ensures forall i | 0 <= i < |s| && i < |message| :: Showable(message[i]) ==> s[i] == message[i]
  {
    var s := Sanitize(message);
    var cut := if |s| > 500 then s[..500] else s;
    if cut == "" then "PDF rendering failed." else cut
  }

  // ----- the file -----

  const HEADER := "%PDF-1.4\n"
  const MID1 := "<</Type/Catalog/Pages 2 0 R>>"
  const MID2 := "<</Type/Pages/Count 1/Kids[3 0 R]>>"
  const MID3 := "<</Type/Page/Parent 2 0 R/MediaBox" + ("[0 0 612 792]" + ("/Resources<</Font<</F1 4 0 R>>>>" + "/Contents 5 0 R>>"))
  const MID4 := "<</Type/Font/Subtype/Type1/BaseFont" + "/Helvetica>>"

  /** How object `k` begins. */
  function Mark(k: char): string { [k] + " 0 obj" }

  function Obj(k: char, mid: string): string { Mark(k) + (mid + "endobj\n") }

  /** The file up to object `k`, for k = '1' .. '5'. */
  function Before(k: nat): string
    requires 1 <= k <= 5
  {
    if k == 1 then HEADER else Before(k - 1) + Obj(Digit(k - 1), Mid(k - 1))
  }

  function Mid(k: nat): string {
    if k == 1 then MID1 else if k == 2 then MID2 else if k == 3 then MID3 else MID4
  }

  const SHOW := "BT /F1 12 Tf 50 740 Td "

  function Stream(safe: string): string { SHOW + ("(" + (safe + ") Tj ET")) }

  const LENGTH := "<</Length "
  const STREAM := ">>stream\n"
  const ENDSTREAM := "\nendstream"

  /** The rest of object 5 after its mark. */
  function StreamObject(stream: string): string {
    LENGTH + (Dec(|stream|) + (STREAM + (stream + (ENDSTREAM + "\nendobj\n"))))
  }

  function Body(safe: string): string { Before(5) + (Mark('5') + StreamObject(Stream(safe))) }

  function Entry(offset: nat): string { Pad10(offset) + " 00000 n \n" }

  function Entries(offsets: seq<nat>): string {
    if offsets == [] then "" else Entries(offsets[..|offsets| - 1]) + Entry(offsets[|offsets| - 1])
  }

  const XREF := "xref\n0 6\n"
  const FREE := "0000000000 65535 f \n"
  const TRAILER := "trailer<</Size 6/Root 1 0 R>>\n"

  function Tail(xref: nat): string { "startxref\n" + (Dec(xref) + "\n%%EOF\n") }

  function Offsets(k: nat): (os: seq<nat>)
    requires k <= 5
    ensures |os| == k
  {
    if k == 0 then [] else Offsets(k - 1) + [|Before(k)|]
  }

  /** The whole file, its offsets taken from where the objects were put. */
  function File(safe: string): string {
    Body(safe) + (XREF + (FREE + (Entries(Offsets(5)) + (TRAILER + Tail(|Body(safe)|)))))
  }

  // ----- where the objects are -----

  predicate NoJ(s: string) { forall i | 0 <= i < |s| :: s[i] != 'j' }

  ghost predicate NoMark(p: string, k: char) { forall i :: !At(p, Mark(k), i) }

  /** The only letters j of an object whose middle has none are in its mark and in its end. */
  lemma JsOfObj(c: char, mid: string, y: nat)
    requires NoJ(mid) && c != 'j' && y < |Obj(c, mid)| && Obj(c, mid)[y] == 'j'
    ensures y == 6 || (y == |mid| + 12 && Obj(c, mid)[y - 3] == 'd')
  {
    ObjAt(c, mid, y);
    if y >= 3 { ObjAt(c, mid, y - 3); }
  }

  lemma ObjAt(c: char, mid: string, y: nat)
    requires y < |mid| + 14
    ensures |Obj(c, mid)| == |mid| + 14
    ensures Obj(c, mid)[y] == if y < 7 then Mark(c)[y] else if y < |mid| + 7 then mid[y - 7] else "endobj\n"[y - 7 - |mid|]
  {
  }

  /** Appending an object with another number brings in no mark of object `k`. */
  lemma AddObject(p: string, c: char, mid: string, k: char)
    requires NoMark(p, k) && c != k && c != 'j' && NoJ(mid)
    ensures NoMark(p + Obj(c, mid), k)
  {
    var t, o, m := p + Obj(c, mid), Obj(c, mid), Mark(k);
    forall i ensures !At(t, m, i) {
      if 0 <= i && i + 7 <= |t| {
        if i + 7 <= |p| {
          AtInPrefix(p, o, m, i);
        } else {
          var y := i + 6 - |p|;
          assert t[i + 6] == o[y];
          if o[y] == 'j' {
            JsOfObj(c, mid, y);
            assert y == 6 ==> t[i] == o[0] == c;
            assert y != 6 ==> t[i + 3] == o[y - 3] == 'd';
          }
          Differs(t, k, i);
        }
      }
    }
  }

  lemma Differs(t: string, k: char, i: nat)
    requires i + 7 <= |t| && (t[i] != k || t[i + 3] != ' ' || t[i + 6] != 'j')
    ensures !At(t, Mark(k), i)
  {
    if At(t, Mark(k), i) { AtChars(t, Mark(k), i); assert false; }
  }

  /** After a text without it, the mark itself is what a search finds, whatever follows. */
  lemma MarkIsFirst(p: string, k: char, rest: string)
    requires NoMark(p, k) && k != 'j'
    ensures Find(p + (Mark(k) + rest), Mark(k)) == |p|
  {
    var m := Mark(k);
    var t := p + (m + rest);
    forall i | 0 <= i < |p| ensures !At(t, m, i) {
      if i + 7 <= |p| {
        AtInPrefix(p, m + rest, m, i);
      } else {
        assert t[i + 6] == m[i + 6 - |p|];
        Differs(t, k, i);
      }
    }
    assert t[|p|..|p| + 7] == m;
    FindUnique(t, m, |p|);
  }

  lemma NoJConcat(a: string, b: string)
    requires NoJ(a) && NoJ(b)
    ensures NoJ(a + b)
  {
  }

  lemma MidsHaveNoJ(k: nat)
    ensures NoJ(Mid(k)) && |Mid(k)| < 200
  {
    assert NoJ(MID1);
    assert NoJ(MID2);
    PageHasNoJ();
    assert NoJ("<</Type/Font/Subtype/Type1/BaseFont");
    assert NoJ("/Helvetica>>");
  }

  lemma PageHasNoJ()
    ensures NoJ(MID3) && |MID3| < 200
  {
    assert NoJ("<</Type/Page/Parent 2 0 R/MediaBox");
    assert NoJ("[0 0 612 792]");
    assert NoJ("/Resources<</Font<</F1 4 0 R>>>>");
    assert NoJ("/Contents 5 0 R>>");
    NoJConcat("/Resources<</Font<</F1 4 0 R>>>>", "/Contents 5 0 R>>");
    NoJConcat("[0 0 612 792]", "/Resources<</Font<</F1 4 0 R>>>>" + "/Contents 5 0 R>>");
  }

  /** The text before object `k` does not hold its mark: neither the earlier objects nor their ends do. */
  lemma {:induction false} BeforeHasNoMark(j: nat, k: nat)
    requires 1 <= j <= k <= 5
    ensures NoMark(Before(j), Digit(k))
    ensures |Before(j)| < 300 * j
  {
    if j == 1 {
      forall i ensures !At(HEADER, Mark(Digit(k)), i) {
        if 0 <= i && i + 7 <= |HEADER| { Differs(HEADER, Digit(k), i); }
      }
    } else {
      hide Mid;
      BeforeHasNoMark(j - 1, k);
      MidsHaveNoJ(j - 1);
      AddObject(Before(j - 1), Digit(j - 1), Mid(j - 1), Digit(k));
    }
  }

  /** What follows object `k`'s beginning in the body. */
  lemma {:induction false} BodySplits(safe: string, k: nat) returns (rest: string)
    requires 1 <= k <= 5
    ensures Body(safe) == Before(k) + (Mark(Digit(k)) + rest)
    decreases 5 - k
  {
    if k == 5 {
      rest := StreamObject(Stream(safe));
    } else {
      hide Mid, Stream, StreamObject;
      var after := BodySplits(safe, k + 1);
      var mid, next := Mid(k), Mark(Digit(k + 1)) + after;
      rest := mid + "endobj\n" + next;
      Regroup(Before(k), Mark(Digit(k)), mid + "endobj\n", next);
    }
  }

  lemma Regroup(a: string, b: string, c: string, d: string)
    ensures (a + (b + c)) + d == a + (b + (c + d))
  {
  }

  lemma MarkIsFound(safe: string, k: nat)
    requires 1 <= k <= 5
    ensures Find(Body(safe), Mark(Digit(k))) == |Before(k)| < 1_500
    ensures At(Body(safe), Mark(Digit(k)), |Before(k)|)
  {
    hide Find;
    var rest := BodySplits(safe, k);
    BeforeHasNoMark(k, k);
    MarkIsFirst(Before(k), Digit(k), rest);
  }

  /** `_stub_pdf`: the search for each object's mark finds the object itself, never the message. */
  method StubPdf(message: string) returns (file: string)
    ensures file == File(Safe(message))
  {
    hide Find, Body, Entries, Tail;
    var safe := Safe(message);
    var body := Body(safe);
    var offsets: seq<int> := [];
    for k := 1 to 6
      invariant offsets == Offsets(k - 1)
    {
      MarkIsFound(safe, k);
      offsets := offsets + [Find(body, Mark(Digit(k)))];
    }
    var xref := XREF + (FREE + (Entries(offsets) + (TRAILER + Tail(|body|))));
    file := body + xref;
  }

  // ----- reading the file -----

  /** The text after an expected one. */
  function Expect(s: string, p: string): Option<string> {
    if p <= s then Some(s[|p|..]) else None
  }

  function LeadingDigits(s: string): (d: nat)
    ensures d <= |s|
  {
    if s != "" && IsDigit(s[0]) then 1 + LeadingDigits(s[1..]) else 0
  }

  function TrailingDigits(s: string): (d: nat)
    ensures d <= |s|
  {
    if s != "" && IsDigit(s[|s| - 1]) then 1 + TrailingDigits(s[..|s| - 1]) else 0
  }

  const EOF := "\n%%EOF\n"
  const STARTXREF := "startxref\n"

  predicate EndsWith(s: string, p: string) { |p| <= |s| && s[|s| - |p|..] == p }

  /** Section 7.5.5: the last line is the end marker, the two before it the keyword and the byte offset of
      the cross-reference table. */
  function StartXref(f: string): Option<nat> {
    if !EndsWith(f, EOF) then None
    else
      var g := f[..|f| - |EOF|];
      var n := |g| - TrailingDigits(g);
      if n < |g| && EndsWith(g[..n], STARTXREF) then Some(NumberIn(g[n..])) else None
  }

  /** Section 7.5.4: entry `k` of the table at byte `x`, twenty bytes long, in use, generation 0. */
  function XrefOffset(f: string, x: nat, k: nat): Option<nat> {
    if x > |f| || Expect(f[x..], XREF).None? then None
    else
      var s := Expect(f[x..], XREF).value;
      if 20 * k + 20 > |s| then None
      else
        var e := s[20 * k..20 * k + 20];
        if AllDigits(e[..10]) && e[10..] == " 00000 n \n" then Some(NumberIn(e[..10])) else None
  }

  /** Section 7.3.8: the bytes of the stream object that begins the text, as many as its /Length says. */
  function StreamIn(s: string): Option<string> {
    match Expect(s, Mark('5') + LENGTH)
    case None => None
    case Some(a) =>
      var d := LeadingDigits(a);
      match Expect(a[d..], STREAM)
      case None => None
      case Some(b) =>
        var n := NumberIn(a[..d]);
        if n <= |b| && ENDSTREAM <= b[n..] then Some(b[..n]) else None
  }

  /** Section 7.3.4.2: a literal string up to the parenthesis that closes it, parentheses inside it being
      balanced. A backslash would begin an escape; this reader stops there. */
  function Literal(s: string, depth: nat): Option<string> {
    if s == "" || s[0] == '\\' then None
    else if s[0] == ')' && depth == 0 then Some("")
    else
      var inner := if s[0] == '(' then depth + 1 else if s[0] == ')' then depth - 1 else depth;
      match Literal(s[1..], inner)
      case None => None
      case Some(t) => Some([s[0]] + t)
  }

  /** The text that a page's stream shows. */
  function ShownText(stream: string): Option<string> {
    match Expect(stream, SHOW + "(")
    case None => None
    case Some(a) =>
      match Literal(a, 0)
      case None => None
      case Some(t) => if |t| < |a| && a[|t|..] == ") Tj ET" then Some(t) else None
  }

  /** A reader's way from the end of the file to the text on its page. */
  function ReadPage(f: string): Option<string> {
    match StartXref(f)
    case None => None
    case Some(x) =>
      match XrefOffset(f, x, 5)
      case None => None
      case Some(o) =>
        if o > |f| then None
        else
          match StreamIn(f[o..])
          case None => None
          case Some(stream) => ShownText(stream)
  }

  // ----- the reader finds everything -----

  lemma {:induction false} LeadingDigitsOf(d: string, rest: string)
    requires AllDigits(d) && rest != "" && !IsDigit(rest[0])
    ensures LeadingDigits(d + rest) == |d|
  {
    if d == "" {
      Neutral(rest);
    } else {
      DropOfConcat(d, rest, 1);
      LeadingDigitsOf(d[1..], rest);
    }
  }

  lemma {:induction false} TrailingDigitsOf(p: string, d: string)
    requires AllDigits(d) && p != "" && !IsDigit(p[|p| - 1])
    ensures TrailingDigits(p + d) == |d|
  {
    if d == "" {
      Neutral(p);
    } else {
      assert (p + d)[..|p + d| - 1] == p + d[..|d| - 1];
      TrailingDigitsOf(p, d[..|d| - 1]);
    }
  }

  lemma {:induction false} LiteralOf(t: string, rest: string)
    requires forall i | 0 <= i < |t| :: Showable(t[i])
    ensures Literal(t + (")" + rest), 0) == Some(t)
  {
    if t == "" {
      Neutral(")" + rest);
    } else {
      DropOfConcat(t, ")" + rest, 1);
      LiteralOf(t[1..], rest);
      assert [t[0]] + t[1..] == t;
    }
  }

  lemma TailIsRead(p: string, x: nat)
    ensures StartXref(p + Tail(x)) == Some(x)
  {
    hide NumberIn, Dec, TrailingDigits;
    DecReads(x);
    var f, h, d := p + Tail(x), p + STARTXREF, Dec(x);
    assert f == (h + d) + EOF;
    AfterPrefix(h + d, EOF);
    AfterPrefix(h, d);
    AfterPrefix(p, STARTXREF);
    assert h[|h| - 1] == '\n';
    TrailingDigitsOf(h, d);
  }

  lemma EntriesNext(n: nat)
    requires 1 <= n <= 5
    ensures Entries(Offsets(n)) == Entries(Offsets(n - 1)) + Entry(|Before(n)|)
    ensures n == 1 ==> Entries(Offsets(n - 1)) == ""
  {
    hide Before, Entry;
    assert Offsets(n)[..n - 1] == Offsets(n - 1);
  }

  lemma {:induction false} EntriesAt(n: nat, k: nat)
    requires 1 <= k <= n <= 5
    ensures |Entries(Offsets(n))| == 20 * n
    ensures Entries(Offsets(n))[20 * (k - 1)..20 * k] == Entry(|Before(k)|)
  {
    hide Before, Entry, Entries, Offsets;
    BeforeHasNoMark(n, n);
    EntryIsRead(|Before(n)|);
    EntriesNext(n);
    var most, entry := Entries(Offsets(n - 1)), Entry(|Before(n)|);
    if n > 1 { EntriesAt(n - 1, if k < n then k else 1); }
    if k == n {
      SliceAfter(most, entry, 0, 20);
      TakeAll(entry);
    } else {
      AtTheFront(most, entry, 20 * (k - 1), 20 * k);
    }
  }

  lemma ExpectOf(p: string, rest: string)
    ensures Expect(p + rest, p) == Some(rest)
  {
    AfterPrefix(p, rest);
  }

  lemma SliceAfter(a: string, b: string, i: nat, j: nat)
    requires i <= j <= |b|
    ensures (a + b)[|a| + i..|a| + j] == b[i..j]
  {
  }

  lemma EntryIsRead(n: nat)
    requires n < 1_0000
    ensures |Entry(n)| == 20 && Entry(n)[..10] == Pad10(n) && Entry(n)[10..] == " 00000 n \n"
    ensures AllDigits(Entry(n)[..10]) && NumberIn(Entry(n)[..10]) == n
  {
    hide NumberIn, Pad10;
    Pad10Reads(n);
    AfterPrefix(Pad10(n), " 00000 n \n");
  }

  /** The trailer's offset is that of the table, and each of the table's entries leads to its object. */
  lemma XrefLocatesObjects(safe: string, k: nat)
    requires 1 <= k <= 5
    ensures var f := File(safe); (
      && StartXref(f) == Some(|Body(safe)|)
      && XrefOffset(f, |Body(safe)|, k) == Some(|Before(k)|)
      && At(f, Mark(Digit(k)), |Before(k)|))
  {
    hide Body, Before, Entries, StartXref, Find, NumberIn, Pad10, Tail;
    var f, body, x := File(safe), Body(safe), |Body(safe)|;
    var entries, last := Entries(Offsets(5)), TRAILER + Tail(x);
    var table := FREE + (entries + last);
    assert f == (body + (XREF + (FREE + (entries + TRAILER)))) + Tail(x) by {
      Regroup5(body, XREF, FREE, entries, TRAILER, Tail(x));
    }
    TailIsRead(body + (XREF + (FREE + (entries + TRAILER))), x);
    AfterPrefix(body, XREF + table);
    ExpectOf(XREF, table);
    BeforeHasNoMark(k, k);
    EntriesAt(5, k);
    SliceAfter(FREE, entries + last, 20 * (k - 1), 20 * k);
    AtTheFront(entries, last, 20 * (k - 1), 20 * k);
    EntryIsRead(|Before(k)|);
    MarkIsFound(safe, k);
    AtInPrefix(body, XREF + table, Mark(Digit(k)), |Before(k)|);
  }

  lemma AtTheFront(a: string, b: string, i: nat, j: nat)
    requires i <= j <= |a|
    ensures (a + b)[i..j] == a[i..j]
  {
  }

  lemma Regroup5(a: string, b: string, c: string, d: string, e: string, t: string)
    ensures a + (b + (c + (d + (e + t)))) == (a + (b + (c + (d + e)))) + t
  {
  }

  /** The stream's /Length is the number of its bytes: the reader gets the stream whole. */
  lemma StreamIsRead(stream: string, rest: string)
    ensures StreamIn(Mark('5') + (StreamObject(stream) + rest)) == Some(stream)
  {
    hide NumberIn, Dec, LeadingDigits, Mark;
    var d, end := Dec(|stream|), "\nendobj\n" + rest;
    var b := stream + (ENDSTREAM + end);
    var a := d + (STREAM + b);
    DecReads(|stream|);
    Nest(Mark('5'), LENGTH, d, STREAM, stream, ENDSTREAM, "\nendobj\n", rest);
    ExpectOf(Mark('5') + LENGTH, a);
    AfterDigits(d, b);
    AfterPrefix(d, STREAM + b);
    ExpectOf(STREAM, b);
    AfterPrefix(stream, ENDSTREAM + end);
    AfterPrefix(ENDSTREAM, end);
  }

  lemma AfterDigits(d: string, b: string)
    requires AllDigits(d)
    ensures LeadingDigits(d + (STREAM + b)) == |d|
  {
    assert (STREAM + b)[0] == '>';
    LeadingDigitsOf(d, STREAM + b);
  }

  lemma Nest(m: string, l: string, d: string, o: string, s: string, e: string, x: string, rest: string)
    ensures m + (l + (d + (o + (s + (e + x)))) + rest) == (m + l) + (d + (o + (s + (e + (x + rest)))))
  {
    Assoc(e, x, rest);
    Assoc(s, e + x, rest);
    Assoc(o, s + (e + x), rest);
    Assoc(d, o + (s + (e + x)), rest);
    Assoc(l, d + (o + (s + (e + x))), rest);
    Assoc(m, l, d + (o + (s + (e + x))) + rest);
  }

  lemma TextIsRead(safe: string)
    requires forall i | 0 <= i < |safe| :: Showable(safe[i])
    ensures ShownText(Stream(safe)) == Some(safe)
  {
    hide Literal;
    assert Stream(safe) == (SHOW + "(") + (safe + ") Tj ET");
    ExpectOf(SHOW + "(", safe + ") Tj ET");
    assert ") Tj ET" == ")" + " Tj ET";
    LiteralOf(safe, " Tj ET");
    AfterPrefix(safe, ") Tj ET");
  }

  /** For every message, a reader that trusts nothing but the file's own structure ends at the sanitized text. */
  lemma EveryMessageIsRead(message: string)
    ensures ReadPage(File(Safe(message))) == Some(Safe(message))
  {
    hide Before, Entries, StartXref, XrefOffset, Find, Stream, StreamObject, StreamIn, ShownText, Tail, Pad10;
    var safe := Safe(message);
    var f, o := File(safe), |Before(5)|;
    XrefLocatesObjects(safe, 5);
    var rest := XREF + (FREE + (Entries(Offsets(5)) + (TRAILER + Tail(|Body(safe)|))));
    var page := StreamObject(Stream(safe));
    assert f == Before(5) + (Mark('5') + (page + rest)) by { Regroup(Before(5), Mark('5'), page, rest); }
    AfterPrefix(Before(5), Mark('5') + (page + rest));
    StreamIsRead(Stream(safe), rest);
    TextIsRead(safe);
  }
}
