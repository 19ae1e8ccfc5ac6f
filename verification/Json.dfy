/** The JSON of the event streams: Python's `json.dumps` (ASCII output) for flat objects of strings,
    booleans and nulls, and a reader of all JSON over UTF-16 strings. */
module Json {
  import opened Wrappers
  import opened Text

  /** JavaScript strings are sequences of UTF-16 code units; Python strings, of code points. */
  type CodeUnit = u: int | 0 <= u < 0x10000
  type JsString = seq<CodeUnit>
  type CodePoint = p: int | 0 <= p < 0x110000

  /** Numbers are kept as written. */
  datatype Value = Null | Bool(b: bool) | Num(literal: string) | Str(s: JsString) | Arr(items: seq<Value>) | Obj(o: Object)
  type Object = map<JsString, Value>

  /** What the server prints: objects whose values are strings, booleans or null. */
  type Flat = v: Value | v.Null? || v.Bool? || v.Str? witness Null
  type Fields = seq<(JsString, Flat)>

  function Units(p: CodePoint): JsString {
    if p < 0x10000 then [p] else [0xd800 + (p - 0x10000) / 0x400, 0xdc00 + (p - 0x10000) % 0x400]
  }

  function Utf16(text: seq<CodePoint>): JsString {
    if text == [] then [] else Units(text[0]) + Utf16(text[1..])
  }

  lemma {:induction false} Utf16Append(a: seq<CodePoint>, b: seq<CodePoint>)
    ensures Utf16(a + b) == Utf16(a) + Utf16(b)
  {
    if a == [] {
      Neutral(b);
      Neutral(Utf16(b));
    } else {
      DropOfConcat(a, b, 1);
      Utf16Append(a[1..], b);
      Assoc(Units(a[0]), Utf16(a[1..]), Utf16(b));
    }
  }

  /** A literal as a JavaScript string. */
  function Js(s: string): JsString {
    if s == "" then [] else Units(CodePointOf(s[0])) + Js(s[1..])
  }

  // ----- json.dumps -----

  function Hex(d: int): char
    requires 0 <= d < 16
  {
    if d < 10 then ('0' as int + d) as char else ('a' as int + d - 10) as char
  }

  function EscapeUnit(u: CodeUnit): (e: string)
    ensures Printable(e) && e != ""
  {
    if u == 0x22 then "\\\"" else if u == 0x5c then "\\\\"
    else if u == 0x0a then "\\n" else if u == 0x0d then "\\r" else if u == 0x09 then "\\t"
    else if u == 0x0c then "\\f" else if u == 0x08 then "\\b"
    else if 0x20 <= u <= 0x7e then [u as char]
    else "\\u" + Hex4(u)
  }

  /** Four hexadecimal digits. */
  function Hex4(u: CodeUnit): (e: string)
    ensures |e| == 4 && Printable(e)
  {
    var a := u / 16;
    var b := a / 16;
    [Hex(b / 16), Hex(b % 16), Hex(a % 16), Hex(u % 16)]
  }

  function Escape(s: JsString): (e: string)
    ensures Printable(e)
  {
    if s == [] then "" else EscapeUnit(s[0]) + Escape(s[1..])
  }

  /** Between blank and tilde: in particular no newline. */
  predicate Printable(s: string) { forall i | 0 <= i < |s| :: ' ' <= s[i] <= '~' }

  function DumpValue(v: Flat): (e: string)
    ensures Printable(e)
  {
    match v
    case Null => "null"
    case Bool(b) => if b then "true" else "false"
    case Str(s) => "\"" + (Escape(s) + "\"")
  }

  /** A member followed by the text `t`. */
  function DumpMember(k: JsString, v: Flat, t: string): (e: string)
    ensures e != "" && e[0] == '"'
    ensures t != "" ==> e[|e| - 1] == t[|t| - 1]
    ensures Printable(t) ==> Printable(e)
  {
    "\"" + (Escape(k) + ("\": " + (DumpValue(v) + t)))
  }

  /** The members and the closing brace. */
  function DumpMembers(fields: Fields): (e: string)
    requires fields != []
    ensures Printable(e) && |e| > 0 && e[0] == '"' && e[|e| - 1] == '}'
    decreases fields, 1
  {
    DumpMember(fields[0].0, fields[0].1, AfterMember(fields))
  }

  function AfterMember(fields: Fields): (t: string)
    requires fields != []
    ensures Printable(t) && |t| > 0 && t[|t| - 1] == '}' && t[0] in [',', '}']
    decreases fields, 0
  {
    if |fields| == 1 then "}" else
      var rest := DumpMembers(fields[1..]);
      assert Printable(", ");
      ", " + rest
  }

  function Dumps(fields: Fields): (e: string)
    ensures Printable(e) && |e| >= 2 && e[0] == '{' && e[|e| - 1] == '}'
  {
    "{" + if fields == [] then "}" else DumpMembers(fields)
  }

  /** The object a list of fields stands for: a repeated key keeps its last value. */
  function ObjectOf(fields: Fields, acc: Object := map[]): Object {
    if fields == [] then acc else ObjectOf(fields[1..], acc[fields[0].0 := fields[0].1])
  }

  // ----- JSON.parse -----

  function HexValue(c: char): int {
    if '0' <= c <= '9' then c as int - '0' as int
    else if 'a' <= c <= 'f' then c as int - 'a' as int + 10
    else if 'A' <= c <= 'F' then c as int - 'A' as int + 10
    else -1
  }

  function ReadHex4(s: string): Option<CodeUnit> {
    if |s| < 4 then None
    else
      var a, b, c, d := HexValue(s[0]), HexValue(s[1]), HexValue(s[2]), HexValue(s[3]);
      if a < 0 || b < 0 || c < 0 || d < 0 then None else Some(a * 0x1000 + b * 0x100 + c * 16 + d)
  }

  /** The code unit of a one-letter escape. */
  function ShortEscape(c: char): Option<CodeUnit> {
    match c
    case '"' => Some(0x22)
    case '\\' => Some(0x5c)
    case '/' => Some(0x2f)
    case 'b' => Some(8)
    case 'f' => Some(12)
    case 'n' => Some(10)
    case 'r' => Some(13)
    case 't' => Some(9)
    case _ => None
  }

  /** One character or escape of a string literal: its code units and how much text it takes. */
  function ReadUnits(s: string): (r: Option<(JsString, nat)>)
    ensures r.Some? ==> 0 < r.value.1 <= |s|
  {
    if s == "" || s[0] < ' ' then None
    else if s[0] != '\\' then Some((Units(CodePointOf(s[0])), 1))
    else if |s| < 2 then None
    else if s[1] == 'u' then
      match ReadHex4(s[2..]) case None => None case Some(u) => Some(([u], 6))
    else
      match ShortEscape(s[1]) case None => None case Some(u) => Some(([u], 2))
  }

  function CodePointOf(c: char): CodePoint { c as int }

  /** The rest of a string literal after its opening quote. */
  function ReadString(s: string): (r: Option<(JsString, string)>)
    ensures r.Some? ==> |r.value.1| < |s|
    decreases |s|
  {
    if s != "" && s[0] == '"' then Some(([], s[1..]))
    else
      match ReadUnits(s)
      case None => None
      case Some((units, n)) =>
        match ReadString(s[n..])
        case None => None
        case Some((rest, t)) => Some((units + rest, t))
  }

  function SkipBlanks(s: string): (r: string)
    ensures |r| <= |s|
  {
    if s != "" && IsBlank(s[0]) then SkipBlanks(s[1..]) else s
  }

  function DigitCount(s: string): (n: nat)
    ensures n <= |s|
  {
    if s != "" && '0' <= s[0] <= '9' then 1 + DigitCount(s[1..]) else 0
  }

  /** How much of `s` is an integer part: a zero, or digits that begin with another. */
  function IntegerLength(s: string): (n: nat)
    ensures n <= |s|
  {
    if s != "" && s[0] == '0' then 1 else DigitCount(s)
  }

  /** How much of `s` is a fraction; a point without digits is none. */
  function FractionLength(s: string): (n: nat)
    ensures n <= |s|
  {
    if s == "" || s[0] != '.' || DigitCount(s[1..]) == 0 then 0 else 1 + DigitCount(s[1..])
  }

  function ExponentLength(s: string): (n: nat)
    ensures n <= |s|
  {
    if s == "" || s[0] !in ['e', 'E'] then 0
    else
      var sign := if |s| > 1 && s[1] in ['+', '-'] then 2 else 1;
      var n := DigitCount(s[sign..]);
      if n == 0 then 0 else sign + n
  }

  /** The longest number literal that `s` begins with. */
  function ReadNumber(s: string): (r: Option<(Value, string)>)
    ensures r.Some? ==> |r.value.1| < |s|
  {
    var sign := if s != "" && s[0] == '-' then 1 else 0;
    var i := IntegerLength(s[sign..]);
    if i == 0 then None
    else
      var n := sign + i;
      var f := n + FractionLength(s[n..]);
      var e := f + ExponentLength(s[f..]);
      Some((Num(s[..e]), s[e..]))
  }

  function ReadValue(s: string): (r: Option<(Value, string)>)
    ensures r.Some? ==> |r.value.1| < |s|
    decreases |s|, 0
  {
    if s == "" then None
    else if s[0] == '"' then
      match ReadString(s[1..]) case None => None case Some((x, t)) => Some((Str(x), t))
    else if s[0] == '{' then
      match ReadObject(SkipBlanks(s[1..])) case None => None case Some((o, t)) => Some((Obj(o), t))
    else if s[0] == '[' then
      match ReadArray(SkipBlanks(s[1..])) case None => None case Some((items, t)) => Some((Arr(items), t))
    else if "null" <= s then Some((Null, s[4..]))
    else if "true" <= s then Some((Bool(true), s[4..]))
    else if "false" <= s then Some((Bool(false), s[5..]))
    else ReadNumber(s)
  }

  /** The rest of an object after its opening brace. */
  function ReadObject(s: string): (r: Option<(Object, string)>)
    ensures r.Some? ==> |r.value.1| < |s|
    decreases |s|, 2
  {
    if s != "" && s[0] == '}' then Some((map[], s[1..])) else ReadMembers(s, map[])
  }

  /** The rest of an array after its opening bracket. */
  function ReadArray(s: string): (r: Option<(seq<Value>, string)>)
    ensures r.Some? ==> |r.value.1| < |s|
    decreases |s|, 2
  {
    if s != "" && s[0] == ']' then Some(([], s[1..])) else ReadItems(s, [])
  }

  function ReadItems(s: string, acc: seq<Value>): (r: Option<(seq<Value>, string)>)
    ensures r.Some? ==> |r.value.1| < |s|
    decreases |s|, 1
  {
    match ReadValue(SkipBlanks(s))
    case None => None
    case Some((v, rest)) =>
      var t := SkipBlanks(rest);
      if t != "" && t[0] == ',' then ReadItems(t[1..], acc + [v])
      else if t != "" && t[0] == ']' then Some((acc + [v], t[1..]))
      else None
  }

  /** The colon after key `k`, the value, and the text after it. */
  function ReadKeyed(k: JsString, t: string): (r: Option<(JsString, Value, string)>)
    ensures r.Some? ==> |r.value.2| < |t|
    decreases |t|, 0
  {
    if t == "" || t[0] != ':' then None
    else
      match ReadValue(SkipBlanks(t[1..]))
      case None => None
      case Some((v, u)) => Some((k, v, SkipBlanks(u)))
  }

  /** One `"key": value` and the text after it. */
  function ReadMember(s: string): (r: Option<(JsString, Value, string)>)
    ensures r.Some? ==> |r.value.2| < |s|
    decreases |s|, 0
  {
    if s == "" || s[0] != '"' then None
    else
      match ReadString(s[1..])
      case None => None
      case Some((k, t)) => ReadKeyed(k, SkipBlanks(t))
  }

  function ReadMembers(s: string, acc: Object): (r: Option<(Object, string)>)
    ensures r.Some? ==> |r.value.1| < |s|
    decreases |s|, 1
  {
    match ReadMember(SkipBlanks(s))
    case None => None
    case Some((k, v, t)) =>
      if t != "" && t[0] == ',' then ReadMembers(t[1..], acc[k := v])
      else if t != "" && t[0] == '}' then Some((acc[k := v], t[1..]))
      else None
  }

  /** `JSON.parse`: one value, and nothing but blanks around it. */
  function Parse(s: string): Option<Value> {
    match ReadValue(SkipBlanks(s))
    case None => None
    case Some((v, t)) => if SkipBlanks(t) == "" then Some(v) else None
  }

  // ----- what is printed is read back -----

  lemma HexRoundTrip(u: CodeUnit, t: string)
    ensures ReadHex4(Hex4(u) + t) == Some(u)
  {
    assert forall d | 0 <= d < 16 :: HexValue(Hex(d)) == d;
    var s := Hex4(u) + t;
    assert s[0] == Hex4(u)[0] && s[1] == Hex4(u)[1] && s[2] == Hex4(u)[2] && s[3] == Hex4(u)[3];
  }

  lemma UnitRoundTrip(u: CodeUnit, t: string)
    ensures EscapeUnit(u)[0] != '"'
    ensures ReadUnits(EscapeUnit(u) + t) == Some(([u], |EscapeUnit(u)|))
  {
    if |EscapeUnit(u)| == 6 {
      HexRoundTrip(u, t);
      Assoc("\\u", Hex4(u), t);
      AfterPrefix("\\u", Hex4(u) + t);
    }
  }

  lemma {:induction false} StringRoundTrip(s: JsString, t: string)
    ensures ReadString(Escape(s) + ("\"" + t)) == Some((s, t))
  {
    var close := "\"" + t;
    if s == [] {
      Neutral(close);
      AfterPrefix("\"", t);
    } else {
      var e, rest := EscapeUnit(s[0]), Escape(s[1..]) + close;
      Assoc(e, Escape(s[1..]), close);
      UnitRoundTrip(s[0], rest);
      AfterPrefix(e, rest);
      StringRoundTrip(s[1..], t);
      assert s == [s[0]] + s[1..];
    }
  }

  predicate IsBlank(c: char) { c in [' ', '\t', '\n', '\r'] }

  lemma ValueRoundTrip(v: Flat, t: string)
    ensures ReadValue(DumpValue(v) + t) == Some((v, t))
    ensures DumpValue(v) != "" && !IsBlank(DumpValue(v)[0])
  {
    match v
    case Null => AfterPrefix("null", t);
    case Bool(b) => AfterPrefix(if b then "true" else "false", t);
    case Str(s) =>
      StringRoundTrip(s, t);
      Assoc("\"", Escape(s) + "\"", t);
      Assoc(Escape(s), "\"", t);
      AfterPrefix("\"", Escape(s) + ("\"" + t));
  }

  lemma KeyedRoundTrip(k: JsString, v: Flat, t: string)
    requires t != "" && t[0] in [',', '}']
    ensures ReadKeyed(k, ": " + (DumpValue(v) + t)) == Some((k, v, t))
  {
    hide DumpValue, ReadValue;
    var dv := DumpValue(v) + t;
    ValueRoundTrip(v, t);
    assert (": " + dv)[1..] == " " + dv;
    AfterPrefix(" ", dv);
    assert dv[0] == DumpValue(v)[0];
    assert SkipBlanks(" " + dv) == dv;
    assert SkipBlanks(t) == t;
  }

  lemma MemberRoundTrip(k: JsString, v: Flat, t: string)
    requires t != "" && t[0] in [',', '}']
    ensures ReadMember(DumpMember(k, v, t)) == Some((k, v, t))
  {
    hide ReadKeyed, DumpValue, Escape, ReadString;
    var tail := ": " + (DumpValue(v) + t);
    KeyedRoundTrip(k, v, t);
    StringRoundTrip(k, tail);
    assert "\": " == "\"" + ": ";
    Assoc("\"", ": ", DumpValue(v) + t);
    AfterPrefix("\"", Escape(k) + ("\"" + tail));
    assert tail[0] == ':';
    assert SkipBlanks(tail) == tail;
  }

  /** One turn of the member loop. */
  lemma ReadOne(s: string, acc: Object, k: JsString, v: Value, t: string)
    requires ReadMember(SkipBlanks(s)) == Some((k, v, t)) && t != ""
    ensures t[0] == ',' ==> ReadMembers(s, acc) == ReadMembers(t[1..], acc[k := v])
    ensures t[0] == '}' ==> ReadMembers(s, acc) == Some((acc[k := v], t[1..]))
  {
  }

  lemma BlanksBefore(s: string)
    requires s != "" && !IsBlank(s[0])
    ensures SkipBlanks(s) == s && SkipBlanks(" " + s) == s
  {
    AfterPrefix(" ", s);
  }

  lemma {:induction false} MembersRoundTrip(fields: Fields, acc: Object, s: string)
    requires fields != [] && (s == DumpMembers(fields) || s == " " + DumpMembers(fields))
    ensures ReadMembers(s, acc) == Some((ObjectOf(fields, acc), ""))
  {
    hide ReadMember, ReadMembers, DumpMember;
    var k, v, t := fields[0].0, fields[0].1, AfterMember(fields);
    BlanksBefore(DumpMembers(fields));
    MemberRoundTrip(k, v, t);
    ReadOne(s, acc, k, v, t);
    if |fields| == 1 {
      assert t[1..] == "" && fields[1..] == [];
    } else {
      assert ", " == "," + " ";
      Assoc(",", " ", DumpMembers(fields[1..]));
      AfterPrefix(",", " " + DumpMembers(fields[1..]));
      MembersRoundTrip(fields[1..], acc[k := v], t[1..]);
    }
  }

  /** Whatever is dumped is parsed back, whatever characters the strings hold. */
  lemma RoundTrip(fields: Fields)
    ensures Parse(Dumps(fields)) == Some(Obj(ObjectOf(fields)))
  {
    hide ReadMembers, DumpMembers, ObjectOf;
    var body := if fields == [] then "}" else DumpMembers(fields);
    AfterPrefix("{", body);
    BlanksBefore(Dumps(fields));
    BlanksBefore(body);
    if fields == [] {
      assert body[1..] == "";
      NoFields();
    } else {
      MembersRoundTrip(fields, map[], body);
      assert ReadObject(body) == Some((ObjectOf(fields), ""));
    }
  }

  lemma NoFields()
    ensures ObjectOf([]) == map[]
  {
  }
}
