/**
 * JSON text (RFC 8259): the writer's strings and a complete reader, over UTF-16
 * code units. How numbers are written and read is a parameter.
 */
module JsonText {
  import opened Wrappers
  import opened Utf8

  datatype Json =
    | JNull
    | JBool(b: bool)
    | JNum(n: real)
    | JStr(s: JsString)
    | JArr(items: seq<Json>)
    | JObj(fields: map<JsString, Json>)

  /** The engine's number printer and reader. */
  datatype NumberText = NumberText(show: real -> JsString, read: JsString -> Option<real>)

  // ASCII, by name.
  const QUOTE: CodeUnit := 0x22
  const COMMA: CodeUnit := 0x2C
  const COLON: CodeUnit := 0x3A
  const BACKSLASH: CodeUnit := 0x5C
  const OPEN_ARRAY: CodeUnit := 0x5B
  const CLOSE_ARRAY: CodeUnit := 0x5D
  const OPEN_OBJECT: CodeUnit := 0x7B
  const CLOSE_OBJECT: CodeUnit := 0x7D
  const NULL: JsString := [0x6E, 0x75, 0x6C, 0x6C]
  const TRUE: JsString := [0x74, 0x72, 0x75, 0x65]
  const FALSE: JsString := [0x66, 0x61, 0x6C, 0x73, 0x65]

  // ------------------------------------------------------------------- writing

  function HexDigit(d: int): CodeUnit
    requires 0 <= d < 16
  {
    if d < 10 then 0x30 + d else 0x61 + d - 10
  }

  /** The letter of a two-character escape, if the unit has one. */
  function ShortEscape(u: CodeUnit): Option<CodeUnit> {
    if u == QUOTE || u == BACKSLASH then Some(u)
    else if u == 0x08 then Some(0x62)
    else if u == 0x09 then Some(0x74)
    else if u == 0x0A then Some(0x6E)
    else if u == 0x0C then Some(0x66)
    else if u == 0x0D then Some(0x72)
    else None
  }

  function EscapeUnit(u: CodeUnit): JsString {
    if ShortEscape(u).Some? then [BACKSLASH, ShortEscape(u).value]
    else if u < 0x20 || IsHigh(u) || IsLow(u)
    then [BACKSLASH, 0x75, HexDigit(u / 0x1000), HexDigit(u / 0x100 % 16), HexDigit(u / 16 % 16), HexDigit(u % 16)]
    else [u]
  }

  function Escape(s: JsString): JsString {
    if s == [] then []
    else if StartsWithPair(s) then [s[0], s[1]] + Escape(s[2..])
    else EscapeUnit(s[0]) + Escape(s[1..])
  }

  /** `JSON.stringify` on a string; lone surrogates are escaped. */
  function Quote(s: JsString): JsString {
    [QUOTE] + Escape(s) + [QUOTE]
  }

  // ------------------------------------------------------------------- reading

  datatype Parsed<T> = Fail | Done(value: T, rest: JsString)

  predicate IsSpace(u: CodeUnit) {
    u == 0x20 || u == 0x09 || u == 0x0A || u == 0x0D
  }

  function Skip(s: JsString): (r: JsString)
    ensures |r| <= |s|
  {
    if s != [] && IsSpace(s[0]) then Skip(s[1..]) else s
  }

  function HexValue(u: CodeUnit): Option<int> {
    if 0x30 <= u <= 0x39 then Some(u - 0x30)
    else if 0x61 <= u <= 0x66 then Some(u - 0x61 + 10)
    else if 0x41 <= u <= 0x46 then Some(u - 0x41 + 10)
    else None
  }

  function Unescape(u: CodeUnit): Option<CodeUnit> {
    if u == QUOTE || u == BACKSLASH || u == 0x2F then Some(u)
    else if u == 0x62 then Some(0x08)
    else if u == 0x74 then Some(0x09)
    else if u == 0x6E then Some(0x0A)
    else if u == 0x66 then Some(0x0C)
    else if u == 0x72 then Some(0x0D)
    else None
  }

  /** The unit named by the four digits of a \u escape. */
  function HexUnit(s: JsString): Option<CodeUnit>
    requires 4 <= |s|
  {
    var a, b, c, d := HexValue(s[0]), HexValue(s[1]), HexValue(s[2]), HexValue(s[3]);
    if a.None? || b.None? || c.None? || d.None? then None
    else
      assert 0 <= a.value < 16 && 0 <= b.value < 16 && 0 <= c.value < 16 && 0 <= d.value < 16;
      var u: int := a.value * 0x1000 + b.value * 0x100 + c.value * 16 + d.value;
      Some(u)
  }

  function Prepend(u: CodeUnit, r: Parsed<JsString>): Parsed<JsString> {
    match r
    case Fail => Fail
    case Done(value, rest) => Done([u] + value, rest)
  }

  /** A string after its opening quote. */
  function StringBody(s: JsString): (r: Parsed<JsString>)
    ensures r.Done? ==> |r.rest| < |s|
    decreases |s|
  {
    if s == [] then Fail
    else if s[0] == QUOTE then Done([], s[1..])
    else if s[0] == BACKSLASH then
      if |s| == 1 then Fail
      else if s[1] == 0x75 then
        if |s| < 6 || HexUnit(s[2..6]).None? then Fail else Prepend(HexUnit(s[2..6]).value, StringBody(s[6..]))
      else if Unescape(s[1]).None? then Fail
      else Prepend(Unescape(s[1]).value, StringBody(s[2..]))
    else if s[0] < 0x20 then Fail
    else Prepend(s[0], StringBody(s[1..]))
  }

  /** + - . 0-9 E e */
  predicate IsNumberUnit(u: CodeUnit) {
    u == 0x2B || u == 0x2D || u == 0x2E || 0x30 <= u <= 0x39 || u == 0x45 || u == 0x65
  }

  function NumberLength(s: JsString): (n: nat)
    ensures n <= |s|
  {
    if s == [] || !IsNumberUnit(s[0]) then 0 else 1 + NumberLength(s[1..])
  }

  function ReadValue(t: NumberText, s: JsString): (r: Parsed<Json>)
    ensures r.Done? ==> |r.rest| < |s|
    decreases |s|, 0
  {
    if s == [] then Fail
    else if s[0] == OPEN_OBJECT then
      var r := Skip(s[1..]);
      if r != [] && r[0] == CLOSE_OBJECT then Done(JObj(map[]), r[1..]) else ReadMembers(t, r, map[])
    else if s[0] == OPEN_ARRAY then
      var r := Skip(s[1..]);
      if r != [] && r[0] == CLOSE_ARRAY then Done(JArr([]), r[1..]) else ReadElements(t, r, [])
    else if s[0] == QUOTE then
      match StringBody(s[1..])
      case Fail => Fail
      case Done(value, rest) => Done(JStr(value), rest)
    else if NULL <= s then Done(JNull, s[4..])
    else if TRUE <= s then Done(JBool(true), s[4..])
    else if FALSE <= s then Done(JBool(false), s[5..])
    else
      var n := NumberLength(s);
      if n == 0 || t.read(s[..n]).None? then Fail else Done(JNum(t.read(s[..n]).value), s[n..])
  }

  function ReadMembers(t: NumberText, s: JsString, fields: map<JsString, Json>): (r: Parsed<Json>)
    ensures r.Done? ==> |r.rest| < |s|
    decreases |s|, 0
  {
    if s == [] || s[0] != QUOTE then Fail
    else match StringBody(s[1..])
      case Fail => Fail
      case Done(key, rest) => ReadMember(t, Skip(rest), key, fields)
  }

  /** A member after its key. */
  function ReadMember(t: NumberText, s: JsString, key: JsString, fields: map<JsString, Json>): (r: Parsed<Json>)
    ensures r.Done? ==> |r.rest| < |s|
    decreases |s|, 0
  {
    if s == [] || s[0] != COLON then Fail
    else match ReadValue(t, Skip(s[1..]))
      case Fail => Fail
      case Done(value, rest) => NextMember(t, Skip(rest), fields[key := value])
  }

  /** The object after a member; a repeated key has taken its last value. */
  function NextMember(t: NumberText, s: JsString, fields: map<JsString, Json>): (r: Parsed<Json>)
    ensures r.Done? ==> |r.rest| < |s|
    decreases |s|, 0
  {
    if s == [] then Fail
    else if s[0] == COMMA then ReadMembers(t, Skip(s[1..]), fields)
    else if s[0] == CLOSE_OBJECT then Done(JObj(fields), s[1..])
    else Fail
  }

  function ReadElements(t: NumberText, s: JsString, items: seq<Json>): (r: Parsed<Json>)
    ensures r.Done? ==> |r.rest| < |s|
    decreases |s|, 1
  {
    match ReadValue(t, s)
    case Fail => Fail
    case Done(value, afterValue) =>
      var q := Skip(afterValue);
      if q == [] then Fail
      else if q[0] == COMMA then ReadElements(t, Skip(q[1..]), items + [value])
      else if q[0] == CLOSE_ARRAY then Done(JArr(items + [value]), q[1..])
      else Fail
  }

  /** `JSON.parse` */
  function Parse(t: NumberText, s: JsString): Option<Json> {
    match ReadValue(t, Skip(s))
    case Fail => None
    case Done(value, rest) => if Skip(rest) == [] then Some(value) else None
  }

  // ---------------------------------------------------- strings are read back

  lemma {:induction false} NibbleIsReadBack(d: int)
    requires 0 <= d < 16
    ensures HexValue(HexDigit(d)) == Some(d)
  {
  }

  lemma {:induction false} FourNibbles(u: CodeUnit)
    ensures u / 0x1000 < 16
    ensures u / 0x1000 * 0x1000 + u / 0x100 % 16 * 0x100 + u / 16 % 16 * 16 + u % 16 == u
  {
    var p, q, r := u / 16, u / 0x100, u / 0x1000;
    assert p / 16 == q && q / 16 == r;
    assert u == 16 * p + u % 16 && p == 16 * q + p % 16 && q == 16 * r + q % 16;
  }

  lemma {:induction false} FourDigitsAreReadBack(a: int, b: int, c: int, d: int, u: CodeUnit)
    requires 0 <= a < 16 && 0 <= b < 16 && 0 <= c < 16 && 0 <= d < 16
    requires u == a * 0x1000 + b * 0x100 + c * 16 + d
    ensures HexUnit([HexDigit(a), HexDigit(b), HexDigit(c), HexDigit(d)]) == Some(u)
  {
    NibbleIsReadBack(a);
    NibbleIsReadBack(b);
    NibbleIsReadBack(c);
    NibbleIsReadBack(d);
  }

  lemma {:induction false} HexIsReadBack(u: CodeUnit)
    ensures HexUnit([HexDigit(u / 0x1000), HexDigit(u / 0x100 % 16), HexDigit(u / 16 % 16), HexDigit(u % 16)]) == Some(u)
  {
    FourNibbles(u);
    FourDigitsAreReadBack(u / 0x1000, u / 0x100 % 16, u / 16 % 16, u % 16, u);
  }

  lemma {:induction false} EscapedUnitIsReadBack(u: CodeUnit, tail: JsString)
    ensures StringBody(EscapeUnit(u) + tail) == Prepend(u, StringBody(tail))
  {
    var s := EscapeUnit(u) + tail;
    if ShortEscape(u).Some? {
      assert s[2..] == tail;
    } else if u < 0x20 || IsHigh(u) || IsLow(u) {
      HexEscapeIsReadBack(u, tail);
    } else {
      assert s[1..] == tail;
    }
  }

  lemma {:induction false} HexEscapeIsReadBack(u: CodeUnit, tail: JsString)
    requires ShortEscape(u).None? && (u < 0x20 || IsHigh(u) || IsLow(u))
    ensures StringBody(EscapeUnit(u) + tail) == Prepend(u, StringBody(tail))
  {
    var s := EscapeUnit(u) + tail;
    HexIsReadBack(u);
    assert s[2..6] == [HexDigit(u / 0x1000), HexDigit(u / 0x100 % 16), HexDigit(u / 16 % 16), HexDigit(u % 16)];
    assert s[6..] == tail;
  }

  lemma {:induction false} RawUnitIsReadBack(u: CodeUnit, tail: JsString)
    requires 0x20 <= u && u != QUOTE && u != BACKSLASH
    ensures StringBody([u] + tail) == Prepend(u, StringBody(tail))
  {
    assert ([u] + tail)[1..] == tail;
  }

  lemma {:induction false} PairIsReadBack(x: JsString, end: JsString, rest: JsString)
    requires StartsWithPair(x) && StringBody(Escape(x[2..]) + end) == Done(x[2..], rest)
    ensures StringBody(Escape(x) + end) == Done(x, rest)
  {
    var tail := Escape(x[2..]) + end;
    PairIsEscaped(x, end);
    RawUnitIsReadBack(x[1], tail);
    RawUnitIsReadBack(x[0], [x[1]] + tail);
    assert x == [x[0]] + ([x[1]] + x[2..]);
  }

  lemma {:induction false} PairIsEscaped(x: JsString, end: JsString)
    requires StartsWithPair(x)
    ensures Escape(x) + end == [x[0]] + ([x[1]] + (Escape(x[2..]) + end))
  {
    assert Escape(x) == [x[0], x[1]] + Escape(x[2..]);
  }

  lemma {:induction false} UnitIsReadBack(x: JsString, end: JsString, rest: JsString)
    requires x != [] && !StartsWithPair(x) && StringBody(Escape(x[1..]) + end) == Done(x[1..], rest)
    ensures StringBody(Escape(x) + end) == Done(x, rest)
  {
    UnitIsEscaped(x, end);
    EscapedUnitIsReadBack(x[0], Escape(x[1..]) + end);
    assert x == [x[0]] + x[1..];
  }

  lemma {:induction false} UnitIsEscaped(x: JsString, end: JsString)
    requires x != [] && !StartsWithPair(x)
    ensures Escape(x) + end == EscapeUnit(x[0]) + (Escape(x[1..]) + end)
  {
    Regroup(EscapeUnit(x[0]), Escape(x[1..]), end);
  }

  lemma {:induction false} Regroup(a: JsString, b: JsString, c: JsString)
    ensures a + b + c == a + (b + c)
  {
  }

  lemma {:induction false} StringIsReadBack(x: JsString, rest: JsString)
    ensures StringBody(Escape(x) + ([QUOTE] + rest)) == Done(x, rest)
  {
    var end := [QUOTE] + rest;
    if x == [] {
      assert Escape(x) + end == end && end[1..] == rest;
    } else if StartsWithPair(x) {
      StringIsReadBack(x[2..], rest);
      PairIsReadBack(x, end, rest);
    } else {
      StringIsReadBack(x[1..], rest);
      UnitIsReadBack(x, end, rest);
    }
  }

  /** Every JavaScript string, lone surrogates included, is read back from its quoted form. */
  lemma {:induction false} QuotedIsReadBack(t: NumberText, x: JsString, rest: JsString)
    ensures StringBody((Quote(x) + rest)[1..]) == Done(x, rest)
    ensures ReadValue(t, Quote(x) + rest) == Done(JStr(x), rest)
  {
    StringIsReadBack(x, rest);
    QuoteOpens(x, rest);
    StringValue(t, Quote(x) + rest);
  }

  lemma {:induction false} QuoteOpens(x: JsString, rest: JsString)
    ensures (Quote(x) + rest)[0] == QUOTE && (Quote(x) + rest)[1..] == Escape(x) + ([QUOTE] + rest)
  {
  }

  lemma {:induction false} StringValue(t: NumberText, s: JsString)
    requires s != [] && s[0] == QUOTE && StringBody(s[1..]).Done?
    ensures ReadValue(t, s) == Done(JStr(StringBody(s[1..]).value), StringBody(s[1..]).rest)
  {
  }

  // ------------------------------------------------------ written text is UTF-16

  lemma {:induction false} WellFormedConcat(a: JsString, b: JsString)
    requires WellFormed(a) && WellFormed(b)
    ensures WellFormed(a + b)
  {
    if a == [] {
      assert a + b == b;
    } else if StartsWithPair(a) {
      WellFormedConcat(a[2..], b);
      assert (a + b)[2..] == a[2..] + b;
    } else {
      WellFormedConcat(a[1..], b);
      assert (a + b)[1..] == a[1..] + b;
    }
  }

  lemma {:induction false} PlainIsWellFormed(s: JsString)
    requires forall i | 0 <= i < |s| :: s[i] < 0xD800
    ensures WellFormed(s)
  {
    if s != [] { PlainIsWellFormed(s[1..]); }
  }

  lemma {:induction false} EscapedUnitIsWellFormed(u: CodeUnit)
    ensures WellFormed(EscapeUnit(u))
  {
    if ShortEscape(u).None? && !(u < 0x20 || IsHigh(u) || IsLow(u)) {
      assert EscapeUnit(u)[1..] == [];
    } else {
      PlainIsWellFormed(EscapeUnit(u));
    }
  }

  lemma {:induction false} EscapedIsWellFormed(s: JsString)
    ensures WellFormed(Escape(s))
  {
    if s != [] {
      if StartsWithPair(s) {
        EscapedIsWellFormed(s[2..]);
        assert Escape(s)[2..] == Escape(s[2..]);
      } else {
        EscapedIsWellFormed(s[1..]);
        EscapedUnitIsWellFormed(s[0]);
        WellFormedConcat(EscapeUnit(s[0]), Escape(s[1..]));
      }
    }
  }

  lemma {:induction false} QuotedIsWellFormed(s: JsString)
    ensures WellFormed(Quote(s))
  {
    EscapedIsWellFormed(s);
    PlainIsWellFormed([QUOTE]);
    WellFormedConcat([QUOTE], Escape(s));
    WellFormedConcat([QUOTE] + Escape(s), [QUOTE]);
  }

  // ------------------------------------------------------------ the escapes, exactly

  /** Hexadecimal digits are written in lower case. */
  lemma {:induction false} HexDigitExactly(d: int)
    requires 0 <= d < 16
    ensures HexDigit(d) == "0123456789abcdef"[d] as int
  {
  }

  /** Quotes and backslashes are escaped, control characters by their letter or number, lone surrogates by their number. */
  lemma {:induction false} EscapeExactly(u: CodeUnit)
    ensures u == 0x22 || u == 0x5C ==> EscapeUnit(u) == [0x5C, u]
    ensures u == 0x08 ==> EscapeUnit(u) == [0x5C, 0x62]
    ensures u == 0x09 ==> EscapeUnit(u) == [0x5C, 0x74]
    ensures u == 0x0A ==> EscapeUnit(u) == [0x5C, 0x6E]
    ensures u == 0x0C ==> EscapeUnit(u) == [0x5C, 0x66]
    ensures u == 0x0D ==> EscapeUnit(u) == [0x5C, 0x72]
    ensures (u < 0x20 && u !in {0x08, 0x09, 0x0A, 0x0C, 0x0D}) || 0xD800 <= u < 0xE000 ==>
      EscapeUnit(u) == [0x5C, 0x75, HexDigit(u / 0x1000), HexDigit(u / 0x100 % 16), HexDigit(u / 16 % 16), HexDigit(u % 16)]
    ensures 0x20 <= u < 0xD800 && u != 0x22 && u != 0x5C ==> EscapeUnit(u) == [u]
    ensures 0xE000 <= u ==> EscapeUnit(u) == [u]
  {
  }

  /** A text with anything after its value is refused. */
  lemma {:induction false} NothingMayFollow(t: NumberText, s: JsString, u: CodeUnit, rest: JsString)
    requires !IsSpace(u)
    ensures Parse(t, Quote(s) + ([u] + rest)) == None
    ensures Parse(t, Quote(s)) == Some(JStr(s))
  {
    QuotedIsReadBack(t, s, [u] + rest);
    QuotedIsReadBack(t, s, []);
    assert Quote(s) + [] == Quote(s);
    var longer := Quote(s) + ([u] + rest);
    assert Skip(longer) == longer && Skip(Quote(s)) == Quote(s) && Skip([u] + rest) == [u] + rest;
  }
}
