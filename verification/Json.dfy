/** JSON text (RFC 8259): Python's `json.dumps` with its default ASCII escaping, and
    the parser behind JavaScript's `JSON.parse`, with their round trip. */
module Json {
  import opened Collections
  import opened Text

  /** Python text is made of code points, JavaScript text of UTF-16 code units. */
  type CodePoint = n: int | 0 <= n < 0x110000
  type CodeUnit = n: int | 0 <= n < 0x10000
  type PyText = seq<CodePoint>
  type JsText = seq<CodeUnit>

  datatype PyValue =
    | PyNone
    | PyBool(b: bool)
    | PyInt(n: int)
    | PyStr(s: PyText)
    | PyList(items: seq<PyValue>)
    | PyDict(fields: seq<PyField>)

  datatype PyField = PyField(key: PyText, value: PyValue)

  /** A number is kept as the exact decimal `mantissa * 10^exponent`. */
  datatype Json =
    | JNull
    | JBool(b: bool)
    | JNum(mantissa: int, exponent: int)
    | JStr(s: JsText)
    | JArr(items: seq<Json>)
    | JObj(fields: seq<(JsText, Json)>)

  /** The code points (and, being ASCII in every use, code units) of a literal. */
  function Literal(s: string): (r: seq<CodeUnit>)
    requires forall i :: 0 <= i < |s| ==> s[i] < 128 as char
    ensures |r| == |s| && forall i :: 0 <= i < |s| ==> r[i] == s[i] as int
  {
    seq(|s|, i requires 0 <= i < |s| => s[i] as int)
  }

  // ---- code units -----------------------------------------------------------

  function HighSurrogate(c: CodePoint): CodeUnit
    requires c >= 0x10000
  {
    0xD800 + (c - 0x10000) / 0x400
  }

  function LowSurrogate(c: CodePoint): CodeUnit
    requires c >= 0x10000
  {
    0xDC00 + (c - 0x10000) % 0x400
  }

  function Units(c: CodePoint): JsText {
    if c < 0x10000 then [c] else [HighSurrogate(c), LowSurrogate(c)]
  }

  /** Beyond the first 0x10000 a code point is a high and a low surrogate that spell it. */
  lemma UnitsSpell(c: CodePoint)
    ensures c < 0x10000 ==> Units(c) == [c]
    ensures c >= 0x10000 ==>
              && |Units(c)| == 2 && 0xD800 <= Units(c)[0] < 0xDC00 && 0xDC00 <= Units(c)[1] < 0xE000
              && c == 0x10000 + (Units(c)[0] as int - 0xD800) * 0x400 + (Units(c)[1] as int - 0xDC00)
  {
  }

  function Utf16(s: PyText): JsText {
    if s == [] then [] else Units(s[0]) + Utf16(s[1..])
  }

  // ---- printing ---------------------------------------------------------------

  function HexDigit(n: nat): char
    requires n < 16
  {
    if n < 10 then '0' + n as char else 'a' + (n - 10) as char
  }

  function Hex4(u: CodeUnit): string {
    [HexDigit(u / 0x1000), HexDigit(u / 0x100 % 16), HexDigit(u / 0x10 % 16), HexDigit(u % 16)]
  }

  function EscapeUnit(u: CodeUnit): string { "\\u" + Hex4(u) }

  function EscapePoint(c: CodePoint): string {
    if c == 0x22 then "\\\""
    else if c == 0x5C then "\\\\"
    else if c == 0x0A then "\\n"
    else if c == 0x0D then "\\r"
    else if c == 0x09 then "\\t"
    else if c == 0x0C then "\\f"
    else if c == 0x08 then "\\b"
    else if 0x20 <= c <= 0x7E then [c as char]
    else if c < 0x10000 then EscapeUnit(c)
    else EscapeUnit(HighSurrogate(c)) + EscapeUnit(LowSurrogate(c))
  }

  function Escape(s: PyText): string {
    if s == [] then "" else EscapePoint(s[0]) + Escape(s[1..])
  }

  function DumpsStr(s: PyText): string { "\"" + Escape(s) + "\"" }

  /** `json.dumps(v)` */
  function Dumps(v: PyValue): string
    decreases v, 1
  {
    match v
    case PyNone => "null"
    case PyBool(b) => if b then "true" else "false"
    case PyInt(n) => DecimalInt(n)
    case PyStr(s) => DumpsStr(s)
    case PyList(items) => "[" + DumpsItems(items) + "]"
    case PyDict(fields) => "{" + DumpsFields(fields) + "}"
  }

  function DumpsItems(items: seq<PyValue>): string
    decreases items, 0
  {
    if items == [] then ""
    else if |items| == 1 then Dumps(items[0])
    else Dumps(items[0]) + ", " + DumpsItems(items[1..])
  }

  function DumpsFields(fields: seq<PyField>): string
    decreases fields, 0
  {
    if fields == [] then ""
    else
      var f := fields[0];
      var head := DumpsStr(f.key) + ": " + Dumps(f.value);
      if |fields| == 1 then head else head + ", " + DumpsFields(fields[1..])
  }

  // ---- parsing ------------------------------------------------------------------

  predicate IsJsonWs(c: char) { c == ' ' || c == '\t' || c == '\n' || c == '\r' }

  function SkipWs(s: string): (r: string)
    ensures |r| <= |s|
  {
    TrimLeft(s, IsJsonWs)
  }

  function HexValue(c: char): Option<nat> {
    if '0' <= c <= '9' then Some(c as int - '0' as int)
    else if 'a' <= c <= 'f' then Some(c as int - 'a' as int + 10)
    else if 'A' <= c <= 'F' then Some(c as int - 'A' as int + 10)
    else None
  }

  function ParseHex4(s: string): (r: Option<CodeUnit>)
    requires |s| >= 4
  {
    match (HexValue(s[0]), HexValue(s[1]), HexValue(s[2]), HexValue(s[3]))
    case (Some(a), Some(b), Some(c), Some(d)) =>
      var n := a * 0x1000 + b * 0x100 + c * 0x10 + d;
      if n < 0x10000 then Some(n) else None
    case _ => None
  }

  /** What a backslash and the given character stand for. */
  function SimpleEscape(c: char): Option<CodeUnit> {
    match c
    case '\"' => Some(0x22)
    case '\\' => Some(0x5C)
    case '/' => Some(0x2F)
    case 'b' => Some(0x08)
    case 'f' => Some(0x0C)
    case 'n' => Some(0x0A)
    case 'r' => Some(0x0D)
    case 't' => Some(0x09)
    case _ => None
  }

  /** The first character or escape of a string body: its code units and the rest. */
  function ParseChar(s: string): (r: Option<(JsText, string)>)
    requires s != ""
    ensures r.Some? ==> |r.value.1| < |s|
  {
    if s[0] == '\\' then
      if |s| < 2 then None
      else if s[1] == 'u' then
        if |s| < 6 then None
        else match ParseHex4(s[2..]) case Some(u) => Some(([u], s[6..])) case None => None
      else match SimpleEscape(s[1]) case Some(u) => Some(([u], s[2..])) case None => None
    else if s[0] < ' ' then None
    else Some((Units(s[0] as int), s[1..]))
  }

  /** A string body after its opening quote, up to and including the closing one. */
  function ParseString(s: string): (r: Option<(JsText, string)>)
    ensures r.Some? ==> |r.value.1| < |s|
    decreases |s|
  {
    if s == "" then None
    else if s[0] == '\"' then Some(([], s[1..]))
    else match ParseChar(s)
      case None => None
      case Some((us, r)) =>
        match ParseString(r)
        case None => None
        case Some((more, r')) => Some((us + more, r'))
  }

  function DigitsOf(s: string): (r: string)
    ensures r <= s && forall i :: 0 <= i < |r| ==> AsciiDigit(r[i])
    ensures |r| < |s| ==> !AsciiDigit(s[|r|])
  {
    s[..RunLen(s, AsciiDigit)]
  }

  /** The fraction: its digits and the rest; nothing when there is no point. */
  function ParseFraction(s: string): (r: Option<(string, string)>)
    ensures r.Some? ==> |r.value.1| <= |s| && forall i :: 0 <= i < |r.value.0| ==> AsciiDigit(r.value.0[i])
  {
    if s == "" || s[0] != '.' then Some(("", s))
    else
      var ds := DigitsOf(s[1..]);
      if ds == "" then None else Some((ds, s[1 + |ds|..]))
  }

  function ParseExponent(s: string): (r: Option<(int, string)>)
    ensures r.Some? ==> |r.value.1| <= |s|
  {
    if s == "" || (s[0] != 'e' && s[0] != 'E') then Some((0, s))
    else
      var signed := |s| > 1 && (s[1] == '+' || s[1] == '-');
      var t := if signed then s[2..] else s[1..];
      var ds := DigitsOf(t);
      if ds == "" then None
      else
        var n: int := DigitsValue(ds);
        Some((if signed && s[1] == '-' then -n else n, t[|ds|..]))
  }

  function ParseNumber(s: string): (r: Option<(Json, string)>)
    ensures r.Some? ==> |r.value.1| < |s|
  {
    var neg := s != "" && s[0] == '-';
    var t := if neg then s[1..] else s;
    var run := DigitsOf(t);
    if run == "" then None
    else
      var ds := if run[0] == '0' then run[..1] else run;
      match ParseFraction(t[|ds|..])
      case None => None
      case Some((frac, r1)) =>
        match ParseExponent(r1)
        case None => None
        case Some((e, r2)) =>
          assert forall i :: 0 <= i < |ds + frac| ==> AsciiDigit((ds + frac)[i]);
          var m: int := DigitsValue(ds + frac);
          Some((JNum(if neg then -m else m, e - |frac|), r2))
  }

  function ParseLiteral(s: string): (r: Option<(Json, string)>)
    ensures r.Some? ==> |r.value.1| < |s|
  {
    if "null" <= s then Some((JNull, s[4..]))
    else if "true" <= s then Some((JBool(true), s[4..]))
    else if "false" <= s then Some((JBool(false), s[5..]))
    else None
  }

  function ParseValue(s: string): (r: Option<(Json, string)>)
    ensures r.Some? ==> |r.value.1| < |s|
    decreases |s|, 0
  {
    if s == "" then None
    else if s[0] == '\"' then
      match ParseString(s[1..]) case None => None case Some((u, r)) => Some((JStr(u), r))
    else if s[0] == '[' then
      var t := SkipWs(s[1..]);
      if t != "" && t[0] == ']' then Some((JArr([]), t[1..]))
      else match ParseElements(t) case None => None case Some((vs, r)) => Some((JArr(vs), r))
    else if s[0] == '{' then
      var t := SkipWs(s[1..]);
      if t != "" && t[0] == '}' then Some((JObj([]), t[1..]))
      else match ParseMembers(t) case None => None case Some((fs, r)) => Some((JObj(fs), r))
    else if s[0] == 'n' || s[0] == 't' || s[0] == 'f' then ParseLiteral(s)
    else ParseNumber(s)
  }

  /** One or more array elements and the closing bracket. */
  function ParseElements(s: string): (r: Option<(seq<Json>, string)>)
    ensures r.Some? ==> |r.value.1| < |s|
    decreases |s|, 1
  {
    match ParseValue(s)
    case None => None
    case Some((v, r)) =>
      var t := SkipWs(r);
      if t == "" then None
      else if t[0] == ']' then Some(([v], t[1..]))
      else if t[0] == ',' then
        match ParseElements(SkipWs(t[1..])) case None => None case Some((vs, r')) => Some(([v] + vs, r'))
      else None
  }

  /** One or more `"key": value` members and the closing brace. */
  function ParseMembers(s: string): (r: Option<(seq<(JsText, Json)>, string)>)
    ensures r.Some? ==> |r.value.1| < |s|
    decreases |s|, 2
  {
    match ParseMember(s)
    case None => None
    case Some((f, r)) =>
      var t := SkipWs(r);
      if t == "" then None
      else if t[0] == '}' then Some(([f], t[1..]))
      else if t[0] == ',' then
        match ParseMembers(SkipWs(t[1..])) case None => None case Some((fs, r')) => Some(([f] + fs, r'))
      else None
  }

  function ParseMember(s: string): (r: Option<((JsText, Json), string)>)
    ensures r.Some? ==> |r.value.1| < |s|
    decreases |s|, 1
  {
    match ParseKey(s)
    case None => None
    case Some((k, r0)) => match ParseValue(r0) case None => None case Some((v, r)) => Some(((k, v), r))
  }

  /** `"key" :` and the start of the value after it. */
  function ParseKey(s: string): (r: Option<(JsText, string)>)
    ensures r.Some? ==> |r.value.1| < |s|
  {
    if s == "" || s[0] != '\"' then None
    else match ParseString(s[1..])
      case None => None
      case Some((k, r)) =>
        var c := SkipWs(r);
        if c == "" || c[0] != ':' then None else Some((k, SkipWs(c[1..])))
  }

  /** `JSON.parse(text)`; None is the SyntaxError. */
  function Parse(text: string): Option<Json> {
    match ParseValue(SkipWs(text))
    case None => None
    case Some((v, r)) => if SkipWs(r) == "" then Some(v) else None
  }

  // ---- the round trip -----------------------------------------------------------------

  /** The JavaScript value that a Python value becomes on the other side. */
  function ToJs(v: PyValue): Json
    decreases v, 1
  {
    match v
    case PyNone => JNull
    case PyBool(b) => JBool(b)
    case PyInt(n) => JNum(n, 0)
    case PyStr(s) => JStr(Utf16(s))
    case PyList(items) => JArr(ToJsItems(items))
    case PyDict(fields) => JObj(ToJsFields(fields))
  }

  function ToJsItems(items: seq<PyValue>): (r: seq<Json>)
    ensures |r| == |items|
    decreases items, 0
  {
    if items == [] then [] else [ToJs(items[0])] + ToJsItems(items[1..])
  }

  function ToJsFields(fields: seq<PyField>): seq<(JsText, Json)>
    decreases fields, 0
  {
    if fields == [] then []
    else
      var f := fields[0];
      [(Utf16(f.key), ToJs(f.value))] + ToJsFields(fields[1..])
  }

  lemma HexRoundTrip(u: CodeUnit)
    ensures ParseHex4(Hex4(u)) == Some(u)
  {
    hide HexValue, HexDigit;
    HexParts(u);
    HexDigitValue(u / 0x1000);
    HexDigitValue(u / 0x100 % 16);
    HexDigitValue(u / 0x10 % 16);
    HexDigitValue(u % 16);
  }

  lemma HexParts(u: CodeUnit)
    ensures u / 0x1000 * 0x1000 + u / 0x100 % 16 * 0x100 + u / 0x10 % 16 * 0x10 + u % 16 == u
  {
    assert u == u / 0x10 * 0x10 + u % 16;
    assert u / 0x10 == u / 0x100 * 0x10 + u / 0x10 % 16;
    assert u / 0x100 == u / 0x1000 * 0x10 + u / 0x100 % 16;
  }

  lemma HexDigitValue(n: nat)
    requires n < 16
    ensures HexValue(HexDigit(n)) == Some(n)
  {
  }

  lemma EscapedUnit(u: CodeUnit, rest: string)
    ensures ParseChar(EscapeUnit(u) + rest) == Some(([u], rest))
  {
    var s := EscapeUnit(u) + rest;
    HexRoundTrip(u);
    assert s[2..] == Hex4(u) + rest;
    assert ParseHex4(s[2..]) == ParseHex4(Hex4(u));
    assert s[6..] == rest;
  }

  /** One printed code point reads back as its code units. */
  lemma EscapedPoint(c: CodePoint, rest: string)
    ensures EscapePoint(c) != "" && EscapePoint(c)[0] != '\"'
    ensures c < 0x10000 ==> ParseChar(EscapePoint(c) + rest) == Some((Units(c), rest))
  {
    if c == 0x22 || c == 0x5C || c == 0x0A || c == 0x0D || c == 0x09 || c == 0x0C || c == 0x08 {
      assert (EscapePoint(c) + rest)[2..] == rest;
    } else if 0x20 <= c <= 0x7E {
      assert (EscapePoint(c) + rest)[1..] == rest;
    } else if c < 0x10000 {
      EscapedUnit(c, rest);
    }
  }

  lemma ParseStringStep(s: string, us: JsText, r: string)
    requires s != "" && s[0] != '\"' && ParseChar(s) == Some((us, r))
    ensures ParseString(s) == match ParseString(r)
                              case None => None
                              case Some((more, r')) => Some((us + more, r'))
  {
  }

  lemma {:induction false} EscapeRoundTrip(s: PyText, rest: string)
    ensures ParseString(Escape(s) + ("\"" + rest)) == Some((Utf16(s), rest))
    decreases |s|
  {
    hide EscapePoint, ParseChar, EscapeUnit;
    var tail := "\"" + rest;
    if s == [] {
      assert "" + tail == tail && tail[1..] == rest;
    } else {
      var c := s[0];
      var more := Escape(s[1..]) + tail;
      EscapeRoundTrip(s[1..], rest);
      Assoc(EscapePoint(c), Escape(s[1..]), tail);
      EscapedPoint(c, more);
      HeadAppend(EscapePoint(c), more);
      if c < 0x10000 {
        ParseStringStep(EscapePoint(c) + more, Units(c), more);
      } else {
        PairRoundTrip(c, more, Utf16(s[1..]), rest);
      }
    }
  }

  lemma HeadAppend<T>(a: seq<T>, b: seq<T>)
    requires a != []
    ensures a + b != [] && (a + b)[0] == a[0]
  {
  }

  lemma PairRoundTrip(c: CodePoint, more: string, us: JsText, rest: string)
    requires c >= 0x10000 && ParseString(more) == Some((us, rest))
    ensures ParseString(EscapePoint(c) + more) == Some((Units(c) + us, rest))
  {
    hide ParseChar, ParseString, Hex4;
    var h, l := HighSurrogate(c), LowSurrogate(c);
    assert EscapePoint(c) == EscapeUnit(h) + EscapeUnit(l);
    Assoc(EscapeUnit(h), EscapeUnit(l), more);
    EscapedUnit(l, more);
    HeadAppend(EscapeUnit(l), more);
    ParseStringStep(EscapeUnit(l) + more, [l], more);
    EscapedUnit(h, EscapeUnit(l) + more);
    HeadAppend(EscapeUnit(h), EscapeUnit(l) + more);
    ParseStringStep(EscapeUnit(h) + (EscapeUnit(l) + more), [h], EscapeUnit(l) + more);
    assert [h] + ([l] + us) == Units(c) + us;
  }

  /** What may follow a value inside a list or dictionary, or at the end of the text. */
  predicate Delimited(rest: string) {
    rest == "" || rest[0] == ',' || rest[0] == ']' || rest[0] == '}'
  }

  lemma DigitsOfAppend(ds: string, rest: string)
    requires forall i :: 0 <= i < |ds| ==> AsciiDigit(ds[i])
    requires rest == "" || !AsciiDigit(rest[0])
    ensures DigitsOf(ds + rest) == ds && (ds + rest)[|ds|..] == rest
  {
    var s := ds + rest;
    assert forall i :: 0 <= i < |ds| ==> s[i] == ds[i];
    RunLenIs(s, AsciiDigit, |ds|);
  }

  /** The unsigned part of a number, read at the head of `t`. */
  lemma NaturalRoundTrip(n: nat, rest: string)
    requires Delimited(rest)
    ensures var t := Decimal(n) + rest;
            var run := DigitsOf(t);
            && run == Decimal(n) && t[|run|..] == rest
            && (run[0] == '0' ==> run[..1] == run)
            && ParseFraction(rest) == Some(("", rest)) && ParseExponent(rest) == Some((0, rest))
            && DigitsValue(run) == n
  {
    DigitsOfAppend(Decimal(n), rest);
    DecimalValue(n);
    if Decimal(n)[0] == '0' {
      assert n == 0 && Decimal(0) == "0";
    }
  }

  lemma NumberRoundTrip(n: int, rest: string)
    requires Delimited(rest)
    ensures ParseNumber(DecimalInt(n) + rest) == Some((JNum(n, 0), rest))
  {
    hide Decimal, DigitsValue, DigitsOf, ParseFraction, ParseExponent;
    var m: nat := if n >= 0 then n else -n;
    var t := Decimal(m) + rest;
    NaturalRoundTrip(m, rest);
    AppendNil(Decimal(m), "");
    if n >= 0 {
      HeadAppend(Decimal(m), rest);
      assert t[0] != '-';
    } else {
      Assoc("-", Decimal(m), rest);
      assert ("-" + t)[1..] == t;
    }
  }

  /** How a printed value begins. */
  predicate Opens(c: char) {
    c == '\"' || c == '[' || c == '{' || c == '-' || AsciiDigit(c) || c == 'n' || c == 't' || c == 'f'
  }

  lemma DumpsOpens(v: PyValue)
    ensures Dumps(v) != "" && Opens(Dumps(v)[0])
  {
  }

  lemma DumpsItemsOpens(items: seq<PyValue>)
    requires items != []
    ensures DumpsItems(items) != "" && Opens(DumpsItems(items)[0])
  {
    DumpsOpens(items[0]);
  }

  lemma DumpsFieldsOpens(fields: seq<PyField>)
    requires fields != []
    ensures DumpsFields(fields) != "" && DumpsFields(fields)[0] == '\"'
  {
  }

  lemma SkipWsOpens(s: string)
    requires s != "" && !IsJsonWs(s[0])
    ensures SkipWs(s) == s
  {
  }

  lemma SkipOneSpace(s: string)
    requires s != "" && !IsJsonWs(s[0])
    ensures SkipWs(" " + s) == s
  {
    assert (" " + s)[1..] == s;
    TrimLeftDrops(" " + s, IsJsonWs);
    TrimLeftStays(s, IsJsonWs);
  }

  /** Every value is read back, leaving the text after it untouched. */
  lemma {:induction false} ValueRoundTrip(v: PyValue, rest: string)
    requires Delimited(rest)
    ensures ParseValue(Dumps(v) + rest) == Some((ToJs(v), rest))
    decreases v, 1
  {
    hide *;
    match v
    case PyNone => ScalarRoundTrip(v, rest);
    case PyBool(_) => ScalarRoundTrip(v, rest);
    case PyInt(n) => IntRoundTrip(n, rest);
    case PyStr(s) => StrRoundTrip(s, rest);
    case PyList(items) =>
      if items != [] {
        ElementsRoundTrip(items, rest);
      }
      ListRoundTrip(items, rest);
    case PyDict(fields) =>
      if fields != [] {
        MembersRoundTrip(fields, rest);
      }
      DictRoundTrip(fields, rest);
  }

  lemma ScalarRoundTrip(v: PyValue, rest: string)
    requires v.PyNone? || v.PyBool?
    ensures ParseValue(Dumps(v) + rest) == Some((ToJs(v), rest))
  {
    var s := Dumps(v) + rest;
    HeadAppend(Dumps(v), rest);
    assert s[|Dumps(v)|..] == rest;
    assert Dumps(v) <= s;
  }

  lemma IntRoundTrip(n: int, rest: string)
    requires Delimited(rest)
    ensures ParseValue(Dumps(PyInt(n)) + rest) == Some((ToJs(PyInt(n)), rest))
  {
    hide ParseNumber, Decimal;
    NumberRoundTrip(n, rest);
    HeadAppend(DecimalInt(n), rest);
    var c := DecimalInt(n)[0];
    assert c == '-' || AsciiDigit(c);
  }

  lemma StrRoundTrip(s: PyText, rest: string)
    ensures ParseValue(Dumps(PyStr(s)) + rest) == Some((ToJs(PyStr(s)), rest))
  {
    hide Escape, Utf16, ParseString;
    EscapeRoundTrip(s, rest);
    QuotedText(s, rest);
  }

  lemma QuotedText(s: PyText, rest: string)
    ensures DumpsStr(s) + rest != "" && (DumpsStr(s) + rest)[0] == '\"'
    ensures (DumpsStr(s) + rest)[1..] == Escape(s) + ("\"" + rest)
  {
  }

  lemma ListRoundTrip(items: seq<PyValue>, rest: string)
    requires items != [] ==>
               ParseElements(DumpsItems(items) + ("]" + rest)) == Some((ToJsItems(items), rest))
    ensures ParseValue(Dumps(PyList(items)) + rest) == Some((ToJs(PyList(items)), rest))
  {
    hide DumpsItems, ToJsItems, ParseElements;
    var body := DumpsItems(items);
    var s := Dumps(PyList(items)) + rest;
    Bracketed("[", body, "]", rest);
    if items == [] {
      EmptyDumps();
      AppendNilLeft("]" + rest);
      SkipWsOpens("]" + rest);
      assert ("]" + rest)[1..] == rest;
    } else {
      DumpsItemsOpens(items);
      HeadAppend(body, "]" + rest);
      SkipWsOpens(body + ("]" + rest));
    }
  }

  lemma DictRoundTrip(fields: seq<PyField>, rest: string)
    requires fields != [] ==>
               ParseMembers(DumpsFields(fields) + ("}" + rest)) == Some((ToJsFields(fields), rest))
    ensures ParseValue(Dumps(PyDict(fields)) + rest) == Some((ToJs(PyDict(fields)), rest))
  {
    hide DumpsFields, ToJsFields, ParseMembers;
    var body := DumpsFields(fields);
    Bracketed("{", body, "}", rest);
    if fields == [] {
      EmptyDumps();
      AppendNilLeft("}" + rest);
      SkipWsOpens("}" + rest);
      assert ("}" + rest)[1..] == rest;
    } else {
      DumpsFieldsOpens(fields);
      HeadAppend(body, "}" + rest);
      SkipWsOpens(body + ("}" + rest));
    }
  }

  lemma EmptyDumps()
    ensures DumpsItems([]) == "" && DumpsFields([]) == "" && ToJsItems([]) == [] && ToJsFields([]) == []
  {
  }

  lemma Bracketed(open: string, body: string, close: string, rest: string)
    requires |open| == 1
    ensures var s := open + body + close + rest;
            s != "" && s[0] == open[0] && s[1..] == body + (close + rest)
  {
  }

  lemma ParseElementsLast(s: string, v: Json, rest: string)
    requires ParseValue(s) == Some((v, "]" + rest))
    ensures ParseElements(s) == Some(([v], rest))
  {
    SkipWsOpens("]" + rest);
    assert ("]" + rest)[1..] == rest;
  }

  lemma ParseElementsMore(s: string, v: Json, more: string, vs: seq<Json>, rest: string)
    requires ParseValue(s) == Some((v, ", " + more)) && more != "" && !IsJsonWs(more[0])
    requires ParseElements(more) == Some((vs, rest))
    ensures ParseElements(s) == Some(([v] + vs, rest))
  {
    hide ParseValue, SkipWs;
    CommaSkips(more);
  }

  lemma CommaSkips(more: string)
    requires more != "" && !IsJsonWs(more[0])
    ensures var t := ", " + more;
            SkipWs(t) == t && t != "" && t[0] == ',' && SkipWs(t[1..]) == more
  {
    SkipWsOpens(", " + more);
    SkipOneSpace(more);
    assert (", " + more)[1..] == " " + more;
  }

  lemma {:induction false} ElementsRoundTrip(items: seq<PyValue>, rest: string)
    requires items != []
    ensures ParseElements(DumpsItems(items) + ("]" + rest)) == Some((ToJsItems(items), rest))
    decreases items, 0
  {
    hide *;
    var v := items[0];
    DumpsItemsCons(items);
    if |items| == 1 {
      DelimitedBy("]", rest);
      ValueRoundTrip(v, "]" + rest);
      ParseElementsLast(Dumps(v) + ("]" + rest), ToJs(v), rest);
    } else {
      var more := DumpsItems(items[1..]) + ("]" + rest);
      ElementsRoundTrip(items[1..], rest);
      DelimitedBy(", ", more);
      ValueRoundTrip(v, ", " + more);
      DumpsItemsOpens(items[1..]);
      OpensNotWs(DumpsItems(items[1..]), "]" + rest);
      FourParts(Dumps(v), ", ", DumpsItems(items[1..]), "]" + rest);
      ParseElementsMore(Dumps(v) + (", " + more), ToJs(v), more, ToJsItems(items[1..]), rest);
    }
  }

  lemma DumpsItemsCons(items: seq<PyValue>)
    requires items != []
    ensures DumpsItems(items) == if |items| == 1 then Dumps(items[0])
                                 else Dumps(items[0]) + ", " + DumpsItems(items[1..])
    ensures ToJsItems(items) == [ToJs(items[0])] + ToJsItems(items[1..])
    ensures |items| == 1 ==> ToJsItems(items) == [ToJs(items[0])]
  {
    if |items| == 1 {
      assert ToJsItems(items[1..]) == [];
    }
  }

  lemma DelimitedBy(d: string, rest: string)
    requires d != "" && Delimited(d)
    ensures Delimited(d + rest)
  {
  }

  lemma OpensNotWs(s: string, rest: string)
    requires s != "" && Opens(s[0])
    ensures s + rest != "" && !IsJsonWs((s + rest)[0]) && (s + rest)[0] == s[0]
  {
  }

  lemma FourParts(a: string, b: string, c: string, d: string)
    ensures a + b + c + d == a + (b + (c + d))
  {
  }

  lemma KeyRoundTrip(k: PyText, more: string)
    requires more != "" && !IsJsonWs(more[0])
    ensures ParseKey(DumpsStr(k) + (": " + more)) == Some((Utf16(k), more))
  {
    hide ParseString, DumpsStr, Escape;
    EscapeRoundTrip(k, ": " + more);
    QuotedText(k, ": " + more);
    SkipWsOpens(": " + more);
    SkipOneSpace(more);
    assert (": " + more)[1..] == " " + more;
  }

  lemma ParseMembersLast(k: PyText, v: PyValue, rest: string)
    requires var more := Dumps(v) + ("}" + rest);
             more != "" && !IsJsonWs(more[0]) && ParseValue(more) == Some((ToJs(v), "}" + rest))
    ensures ParseMembers(DumpsStr(k) + (": " + (Dumps(v) + ("}" + rest)))) == Some(([(Utf16(k), ToJs(v))], rest))
  {
    hide Dumps, DumpsStr, ParseValue, ParseKey, ToJs, SkipWs;
    KeyRoundTrip(k, Dumps(v) + ("}" + rest));
    SkipWsOpens("}" + rest);
    assert ("}" + rest)[1..] == rest;
  }

  lemma ParseMembersMore(k: PyText, v: PyValue, tail: string, fs: seq<(JsText, Json)>, rest: string)
    requires var more := Dumps(v) + (", " + tail);
             more != "" && !IsJsonWs(more[0]) && ParseValue(more) == Some((ToJs(v), ", " + tail))
    requires tail != "" && !IsJsonWs(tail[0]) && ParseMembers(tail) == Some((fs, rest))
    ensures ParseMembers(DumpsStr(k) + (": " + (Dumps(v) + (", " + tail))))
         == Some(([(Utf16(k), ToJs(v))] + fs, rest))
  {
    hide Dumps, DumpsStr, ParseValue, ParseKey, ToJs, SkipWs;
    KeyRoundTrip(k, Dumps(v) + (", " + tail));
    CommaSkips(tail);
  }

  lemma {:induction false} MembersRoundTrip(fields: seq<PyField>, rest: string)
    requires fields != []
    ensures ParseMembers(DumpsFields(fields) + ("}" + rest)) == Some((ToJsFields(fields), rest))
    decreases fields, 0
  {
    hide *;
    var f := fields[0];
    DumpsFieldsCons(fields);
    DumpsOpens(f.value);
    if |fields| == 1 {
      DelimitedBy("}", rest);
      ValueRoundTrip(f.value, "}" + rest);
      OpensNotWs(Dumps(f.value), "}" + rest);
      FourParts(DumpsStr(f.key), ": ", Dumps(f.value), "}" + rest);
      ParseMembersLast(f.key, f.value, rest);
    } else {
      var tail := DumpsFields(fields[1..]) + ("}" + rest);
      MembersRoundTrip(fields[1..], rest);
      DelimitedBy(", ", tail);
      ValueRoundTrip(f.value, ", " + tail);
      OpensNotWs(Dumps(f.value), ", " + tail);
      DumpsFieldsOpens(fields[1..]);
      QuoteOpens();
      OpensNotWs(DumpsFields(fields[1..]), "}" + rest);
      FourParts(DumpsStr(f.key), ": ", Dumps(f.value), ", " + tail);
      FourParts(DumpsStr(f.key) + ": " + Dumps(f.value), ", ", DumpsFields(fields[1..]), "}" + rest);
      ParseMembersMore(f.key, f.value, tail, ToJsFields(fields[1..]), rest);
    }
  }

  lemma QuoteOpens()
    ensures Opens('\"')
  {
  }

  lemma DumpsFieldsCons(fields: seq<PyField>)
    requires fields != []
    ensures DumpsFields(fields) ==
            var head := DumpsStr(fields[0].key) + ": " + Dumps(fields[0].value);
            if |fields| == 1 then head else head + ", " + DumpsFields(fields[1..])
    ensures ToJsFields(fields) == [(Utf16(fields[0].key), ToJs(fields[0].value))] + ToJsFields(fields[1..])
    ensures |fields| == 1 ==> ToJsFields(fields) == [(Utf16(fields[0].key), ToJs(fields[0].value))]
  {
    if |fields| == 1 {
      assert ToJsFields(fields[1..]) == [];
    }
  }

  /** Whatever Python prints, JavaScript parses back to the corresponding value. */
  lemma RoundTrip(v: PyValue)
    ensures Parse(Dumps(v)) == Some(ToJs(v))
  {
    ValueRoundTrip(v, "");
    AppendNil(Dumps(v), "");
    DumpsOpens(v);
    SkipWsOpens(Dumps(v));
  }

  // ---- printed text is plain ASCII ----------------------------------------------------------

  predicate Printable(s: string) {
    forall i :: 0 <= i < |s| ==> ' ' <= s[i] <= '~'
  }

  lemma PrintableAppend(a: string, b: string)
    requires Printable(a) && Printable(b)
    ensures Printable(a + b)
  {
  }

  lemma {:induction false} EscapePrintable(s: PyText)
    ensures Printable(Escape(s))
    decreases |s|
  {
    if s != [] {
      EscapePrintable(s[1..]);
      EscapePointPrintable(s[0]);
      PrintableAppend(EscapePoint(s[0]), Escape(s[1..]));
    }
  }

  lemma EscapePointPrintable(c: CodePoint)
    ensures Printable(EscapePoint(c))
  {
    hide EscapeUnit;
    if c >= 0x10000 {
      EscapeUnitPrintable(HighSurrogate(c));
      EscapeUnitPrintable(LowSurrogate(c));
      PrintableAppend(EscapeUnit(HighSurrogate(c)), EscapeUnit(LowSurrogate(c)));
    } else {
      EscapeUnitPrintable(c);
    }
  }

  lemma EscapeUnitPrintable(u: CodeUnit)
    ensures Printable(EscapeUnit(u))
  {
  }

  lemma DumpsStrPrintable(s: PyText)
    ensures Printable(DumpsStr(s))
  {
    EscapePrintable(s);
    PrintableAppend("\"", Escape(s));
    PrintableAppend("\"" + Escape(s), "\"");
  }

  /** The stream is ASCII and a payload contains no line break, whatever the text. */
  lemma {:induction false} DumpsPrintable(v: PyValue)
    ensures Printable(Dumps(v))
    decreases v, 1
  {
    hide DumpsItems, DumpsFields, Escape;
    match v
    case PyNone =>
    case PyBool(_) =>
    case PyInt(n) =>
    case PyStr(s) => DumpsStrPrintable(s);
    case PyList(items) =>
      ItemsPrintable(items);
      PrintableAppend("[", DumpsItems(items));
      PrintableAppend("[" + DumpsItems(items), "]");
    case PyDict(fields) =>
      FieldsPrintable(fields);
      PrintableAppend("{", DumpsFields(fields));
      PrintableAppend("{" + DumpsFields(fields), "}");
  }

  lemma {:induction false} ItemsPrintable(items: seq<PyValue>)
    ensures Printable(DumpsItems(items))
    decreases items, 0
  {
    if items != [] {
      DumpsPrintable(items[0]);
      if |items| > 1 {
        ItemsPrintable(items[1..]);
        PrintableAppend(Dumps(items[0]), ", ");
        PrintableAppend(Dumps(items[0]) + ", ", DumpsItems(items[1..]));
      }
    }
  }

  lemma {:induction false} FieldsPrintable(fields: seq<PyField>)
    ensures Printable(DumpsFields(fields))
    decreases fields, 0
  {
    if fields != [] {
      var f := fields[0];
      DumpsStrPrintable(f.key);
      DumpsPrintable(f.value);
      var head := DumpsStr(f.key) + ": " + Dumps(f.value);
      PrintableAppend(DumpsStr(f.key), ": ");
      PrintableAppend(DumpsStr(f.key) + ": ", Dumps(f.value));
      if |fields| > 1 {
        FieldsPrintable(fields[1..]);
        PrintableAppend(head, ", ");
        PrintableAppend(head + ", ", DumpsFields(fields[1..]));
      }
    }
  }
}
