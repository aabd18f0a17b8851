/** The opaque list cursor: base64url of UTF-8 of a JSON object naming the last row's id and sort key. */
module ListCursor {
  import opened Wrappers
  import opened Bytes
  import opened Utf8
  import opened JsonText
  import Base64Url

  /** A sort key: a string, a finite number, or null. */
  datatype Key = KNull | KNum(n: real) | KStr(s: JsString)

  datatype Payload = Payload(id: JsString, k: Key)

  const V: JsString := [0x76]
  const ID: JsString := [0x69, 0x64]
  const K: JsString := [0x6B]
  const ONE: JsString := [0x31]

  function KeyText(t: NumberText, k: Key): JsString {
    match k
    case KNull => NULL
    case KNum(n) => t.show(n)
    case KStr(s) => Quote(s)
  }

  function Member(key: JsString, value: JsString): JsString {
    Quote(key) + [COLON] + value
  }

  /** `JSON.stringify({ v: 1, id, k })` */
  function PayloadText(t: NumberText, p: Payload): JsString {
    [OPEN_OBJECT] + (Member(V, ONE) + ([COMMA] + (Member(ID, Quote(p.id)) + ([COMMA] + (Member(K, KeyText(t, p.k))
    + [CLOSE_OBJECT])))))
  }

  function CursorEncode(t: NumberText, p: Payload): string {
    Base64Url.Encode(Utf8.Encode(PayloadText(t, p)))
  }

  /** The strict object schema: exactly the members v, id and k, each of its kind. */
  function PayloadOf(value: Json): Option<Payload> {
    if !value.JObj? || value.fields.Keys != {V, ID, K} || value.fields[V] != JNum(1.0) || !value.fields[ID].JStr? then None
    else if |value.fields[ID].s| < 1 || |value.fields[ID].s| > 128 then None
    else match value.fields[K]
      case JNull => Some(Payload(value.fields[ID].s, KNull))
      case JNum(n) => Some(Payload(value.fields[ID].s, KNum(n)))
      case JStr(s) => Some(Payload(value.fields[ID].s, KStr(s)))
      case _ => None
  }

  function CursorDecode(t: NumberText, token: string): Result<Payload> {
    if !Base64Url.IsToken(token) then Err("The list cursor is invalid.")
    else match Parse(t, Utf8.Decode(Base64Url.Decode(token)))
      case None => Err("The list cursor is invalid.")
      case Some(value) =>
        match PayloadOf(value)
        case None => Err("The list cursor is invalid.")
        case Some(payload) => Ok(payload)
  }

  // ----------------------------------------------------------------- round trip

  /** What is needed of the engine's number printer for one number: plain digits and signs that read back as it. */
  ghost predicate ReadsBack(t: NumberText, n: real) {
    && t.show(n) != [] && t.read(t.show(n)) == Some(n)
    && forall i | 0 <= i < |t.show(n)| :: IsNumberUnit(t.show(n)[i])
  }

  ghost predicate KeyReadsBack(t: NumberText, k: Key) {
    t.read(ONE) == Some(1.0) && (k.KNum? ==> ReadsBack(t, k.n))
  }

  lemma {:induction false} NumberStops(number: JsString, end: CodeUnit, rest: JsString)
    requires forall i | 0 <= i < |number| :: IsNumberUnit(number[i])
    requires !IsNumberUnit(end)
    ensures NumberLength(number + [end] + rest) == |number|
  {
    var s := number + [end] + rest;
    if number != [] {
      assert s[1..] == number[1..] + [end] + rest;
      NumberStops(number[1..], end, rest);
    }
  }

  lemma {:induction false} NumberIsReadBack(t: NumberText, number: JsString, n: real, end: CodeUnit, rest: JsString)
    requires number != [] && t.read(number) == Some(n)
    requires forall i | 0 <= i < |number| :: IsNumberUnit(number[i])
    requires !IsNumberUnit(end)
    ensures ReadValue(t, number + [end] + rest) == Done(JNum(n), [end] + rest)
  {
    NumberStops(number, end, rest);
    NumberCut(number, end, rest);
    NumberValue(t, number + [end] + rest, n);
  }

  lemma {:induction false} NumberCut(number: JsString, end: CodeUnit, rest: JsString)
    requires number != []
    ensures var s := number + [end] + rest;
      s[0] == number[0] && s[..|number|] == number && s[|number|..] == [end] + rest
  {
  }

  lemma {:induction false} NumberValue(t: NumberText, s: JsString, n: real)
    requires s != [] && IsNumberUnit(s[0]) && t.read(s[..NumberLength(s)]) == Some(n)
    ensures ReadValue(t, s) == Done(JNum(n), s[NumberLength(s)..])
  {
  }

  function KeyJson(k: Key): Json {
    match k
    case KNull => JNull
    case KNum(n) => JNum(n)
    case KStr(s) => JStr(s)
  }

  lemma {:induction false} KeyIsReadBack(t: NumberText, k: Key, end: CodeUnit, rest: JsString)
    requires KeyReadsBack(t, k) && !IsNumberUnit(end)
    ensures ReadValue(t, KeyText(t, k) + ([end] + rest)) == Done(KeyJson(k), [end] + rest)
    ensures KeyText(t, k) != [] && !IsSpace(KeyText(t, k)[0])
  {
    match k
    case KNull => assert (NULL + ([end] + rest))[4..] == [end] + rest;
    case KNum(n) =>
      assert t.show(n) + ([end] + rest) == t.show(n) + [end] + rest;
      NumberIsReadBack(t, t.show(n), n, end, rest);
    case KStr(s) => QuotedIsReadBack(t, s, [end] + rest);
  }

  /** Reading one member whose value is known to read back, up to what follows it. */
  lemma {:induction false} MemberIsReadBack(
    t: NumberText, key: JsString, text: JsString, value: Json, end: JsString, fields: map<JsString, Json>
  )
    requires text != [] && !IsSpace(text[0])
    requires ReadValue(t, text + end) == Done(value, end)
    ensures ReadMembers(t, Member(key, text) + end, fields) == NextMember(t, Skip(end), fields[key := value])
  {
    var after := [COLON] + (text + end);
    assert Member(key, text) + end == Quote(key) + after;
    QuotedIsReadBack(t, key, after);
    KeyOfMember(t, Quote(key) + after, key, after, fields);
    ValueOfMember(t, key, text, value, end, fields);
  }

  lemma {:induction false} KeyOfMember(
    t: NumberText, s: JsString, key: JsString, after: JsString, fields: map<JsString, Json>
  )
    requires s != [] && s[0] == QUOTE && StringBody(s[1..]) == Done(key, after)
    ensures ReadMembers(t, s, fields) == ReadMember(t, Skip(after), key, fields)
  {
  }

  lemma {:induction false} ValueOfMember(
    t: NumberText, key: JsString, text: JsString, value: Json, end: JsString, fields: map<JsString, Json>
  )
    requires text != [] && !IsSpace(text[0])
    requires ReadValue(t, text + end) == Done(value, end)
    ensures ReadMember(t, Skip([COLON] + (text + end)), key, fields) == NextMember(t, Skip(end), fields[key := value])
  {
    var after := [COLON] + (text + end);
    assert Skip(after) == after && after[1..] == text + end && Skip(text + end) == text + end;
  }

  lemma {:induction false} NextIsMember(t: NumberText, more: JsString, fields: map<JsString, Json>)
    requires more != [] && !IsSpace(more[0])
    ensures NextMember(t, Skip([COMMA] + more), fields) == ReadMembers(t, more, fields)
  {
    assert Skip([COMMA] + more) == [COMMA] + more && ([COMMA] + more)[1..] == more;
  }

  lemma {:induction false} NextIsEnd(t: NumberText, fields: map<JsString, Json>)
    ensures NextMember(t, Skip([CLOSE_OBJECT]), fields) == Done(JObj(fields), [])
  {
  }

  lemma {:induction false} ObjectIsReadBack(t: NumberText, members: JsString, value: Json)
    requires members != [] && members[0] == QUOTE && ReadMembers(t, members, map[]) == Done(value, [])
    ensures Parse(t, [OPEN_OBJECT] + members) == Some(value)
  {
    assert ([OPEN_OBJECT] + members)[1..] == members;
  }

  lemma {:induction false} PayloadTextIsReadBack(t: NumberText, p: Payload)
    requires KeyReadsBack(t, p.k)
    ensures Parse(t, PayloadText(t, p)) == Some(JObj(map[V := JNum(1.0), ID := JStr(p.id), K := KeyJson(p.k)]))
  {
    var last := Member(K, KeyText(t, p.k)) + [CLOSE_OBJECT];
    var middle := Member(ID, Quote(p.id)) + ([COMMA] + last);
    var members := Member(V, ONE) + ([COMMA] + middle);
    var one := map[V := JNum(1.0)];
    var two := one[ID := JStr(p.id)];
    assert ONE + ([COMMA] + middle) == ONE + [COMMA] + middle;
    NumberIsReadBack(t, ONE, 1.0, COMMA, middle);
    MemberIsReadBack(t, V, ONE, JNum(1.0), [COMMA] + middle, map[]);
    NextIsMember(t, middle, one);
    QuotedIsReadBack(t, p.id, [COMMA] + last);
    MemberIsReadBack(t, ID, Quote(p.id), JStr(p.id), [COMMA] + last, one);
    NextIsMember(t, last, two);
    KeyIsReadBack(t, p.k, CLOSE_OBJECT, []);
    assert [CLOSE_OBJECT] + [] == [CLOSE_OBJECT];
    MemberIsReadBack(t, K, KeyText(t, p.k), KeyJson(p.k), [CLOSE_OBJECT], two);
    NextIsEnd(t, two[K := KeyJson(p.k)]);
    ObjectIsReadBack(t, members, JObj(two[K := KeyJson(p.k)]));
  }

  lemma {:induction false} MemberIsWellFormed(key: JsString, text: JsString)
    requires WellFormed(text)
    ensures WellFormed(Member(key, text))
  {
    QuotedIsWellFormed(key);
    PlainIsWellFormed([COLON]);
    WellFormedConcat(Quote(key), [COLON]);
    WellFormedConcat(Quote(key) + [COLON], text);
  }

  lemma {:induction false} PayloadTextIsWellFormed(t: NumberText, p: Payload)
    requires KeyReadsBack(t, p.k)
    ensures WellFormed(PayloadText(t, p))
  {
    PlainIsWellFormed([OPEN_OBJECT]);
    PlainIsWellFormed([CLOSE_OBJECT]);
    PlainIsWellFormed([COMMA]);
    PlainIsWellFormed(ONE);
    QuotedIsWellFormed(p.id);
    if p.k.KStr? { QuotedIsWellFormed(p.k.s); } else { PlainIsWellFormed(KeyText(t, p.k)); }
    MemberIsWellFormed(V, ONE);
    MemberIsWellFormed(ID, Quote(p.id));
    MemberIsWellFormed(K, KeyText(t, p.k));
    var last := Member(K, KeyText(t, p.k)) + [CLOSE_OBJECT];
    WellFormedConcat(Member(K, KeyText(t, p.k)), [CLOSE_OBJECT]);
    WellFormedConcat([COMMA], last);
    WellFormedConcat(Member(ID, Quote(p.id)), [COMMA] + last);
    var middle := Member(ID, Quote(p.id)) + ([COMMA] + last);
    WellFormedConcat([COMMA], middle);
    WellFormedConcat(Member(V, ONE), [COMMA] + middle);
    WellFormedConcat([OPEN_OBJECT], Member(V, ONE) + ([COMMA] + middle));
  }

  lemma {:induction false} PayloadIsRecognized(p: Payload)
    ensures PayloadOf(JObj(map[V := JNum(1.0), ID := JStr(p.id), K := KeyJson(p.k)]))
         == if 1 <= |p.id| <= 128 then Some(p) else None
  {
    var fields := map[V := JNum(1.0), ID := JStr(p.id), K := KeyJson(p.k)];
    assert |V| == |K| == 1 && |ID| == 2 && V[0] != K[0];
    assert fields.Keys == {V, ID, K} && fields[V] == JNum(1.0) && fields[ID] == JStr(p.id) && fields[K] == KeyJson(p.k);
  }

  /**
   * For every id and every key: the cursor is a token of the alphabet, and decoding gives the
   * payload back exactly when the id has 1 to 128 code units, and an error otherwise.
   */
  lemma {:induction false} CursorRoundTrip(t: NumberText, p: Payload)
    requires KeyReadsBack(t, p.k)
    ensures Base64Url.IsToken(CursorEncode(t, p))
    ensures CursorDecode(t, CursorEncode(t, p)) == if 1 <= |p.id| <= 128 then Ok(p) else Err("The list cursor is invalid.")
  {
    var text := PayloadText(t, p);
    PayloadTextIsWellFormed(t, p);
    Utf8.DecodeUndoesEncode(text);
    Base64Url.DecodeUndoesEncode(Utf8.Encode(text));
    PayloadTextIsReadBack(t, p);
    PayloadIsRecognized(p);
  }

  // -------------------------------------------- the assumption holds of integers

  function DecimalUnits(n: nat): (units: JsString)
    ensures units != []
  {
    if n < 10 then [0x30 + n] else DecimalUnits(n / 10) + [0x30 + n % 10]
  }

  function IntegerUnits(n: int): JsString {
    if n < 0 then [0x2D] + DecimalUnits(-n) else DecimalUnits(n)
  }

  function DigitsValue(s: JsString): Option<nat> {
    if s == [] then Some(0)
    else
      var last: int, before := s[|s| - 1], DigitsValue(s[..|s| - 1]);
      if before.None? || last < 0x30 || last > 0x39 then None else Some(before.value * 10 + (last - 0x30))
  }

  function IntegerValue(s: JsString): Option<real> {
    var negative := s != [] && s[0] == 0x2D;
    match DigitsValue(if negative then s[1..] else s)
    case None => None
    case Some(n) => Some(if negative then -(n as real) else n as real)
  }

  /** A printer and reader of whole numbers in decimal, which is how the engine prints timestamps. */
  const INTEGERS := NumberText((n: real) => if n.Floor as real == n then IntegerUnits(n.Floor) else [], IntegerValue)

  lemma {:induction false} DecimalIsReadBack(n: nat)
    ensures DigitsValue(DecimalUnits(n)) == Some(n)
    ensures forall i | 0 <= i < |DecimalUnits(n)| :: 0x30 <= DecimalUnits(n)[i] <= 0x39
  {
    var units := DecimalUnits(n);
    if n >= 10 {
      DecimalIsReadBack(n / 10);
      assert units[..|units| - 1] == DecimalUnits(n / 10);
    } else {
      assert units[..0] == [];
    }
  }

  /** Every whole number satisfies what the round trip asks of its printer. */
  lemma {:induction false} IntegersReadBack(n: int)
    ensures KeyReadsBack(INTEGERS, KNum(n as real))
  {
    assert DecimalUnits(1) == ONE;
    DecimalIsReadBack(1);
    DecimalIsReadBack(if n < 0 then -n else n);
    assert (n as real).Floor == n;
    if n < 0 { assert IntegerUnits(n)[1..] == DecimalUnits(-n); }
  }

  // ------------------------------------------------------------- the wire, exactly

  lemma {:induction false} KeysOnTheWire()
    ensures Quote(V) == [0x22, 0x76, 0x22] && Quote(ID) == [0x22, 0x69, 0x64, 0x22] && Quote(K) == [0x22, 0x6B, 0x22]
  {
    PlainUnit(0x76, []);
    PlainUnit(0x6B, []);
    PlainUnit(0x64, []);
    PlainUnit(0x69, [0x64]);
  }

  lemma {:induction false} PlainUnit(u: CodeUnit, rest: JsString)
    requires 0x20 <= u < 0x80 && u != 0x22 && u != 0x5C
    ensures Escape([u] + rest) == [u] + Escape(rest)
  {
    assert ([u] + rest)[1..] == rest;
  }

  lemma {:induction false} JoinedMembers(id: JsString, k: JsString)
    ensures [OPEN_OBJECT] + (([0x22, 0x76, 0x22] + [COLON] + ONE) + ([COMMA] + (([0x22, 0x69, 0x64, 0x22] + [COLON] + id)
            + ([COMMA] + (([0x22, 0x6B, 0x22] + [COLON] + k) + [CLOSE_OBJECT])))))
         == [0x7B, 0x22, 0x76, 0x22, 0x3A, 0x31, 0x2C, 0x22, 0x69, 0x64, 0x22, 0x3A] + id
            + [0x2C, 0x22, 0x6B, 0x22, 0x3A] + k + [0x7D]
  {
  }

  lemma {:induction false} KeyTextExactly(t: NumberText, k: Key)
    ensures KeyText(t, k) == match k
      case KNull => [0x6E, 0x75, 0x6C, 0x6C]
      case KNum(n) => t.show(n)
      case KStr(s) => Quote(s)
  {
  }

  /** A payload on the wire: `{"v":1,"id":...,"k":...}`. */
  lemma {:induction false} PayloadTextExactly(t: NumberText, p: Payload, id: JsString, k: JsString)
    requires id == Quote(p.id) && k == KeyText(t, p.k)
    ensures PayloadText(t, p) == [0x7B, 0x22, 0x76, 0x22, 0x3A, 0x31, 0x2C, 0x22, 0x69, 0x64, 0x22, 0x3A] + id
                                 + [0x2C, 0x22, 0x6B, 0x22, 0x3A] + k + [0x7D]
  {
    KeysOnTheWire();
    JoinedMembers(id, k);
  }

  /** The schema accepts exactly the objects with the three members and no others. */
  lemma {:induction false} PayloadExactly(value: Json, p: Payload)
    ensures PayloadOf(value) == Some(p) <==>
            1 <= |p.id| <= 128 && value == JObj(map[V := JNum(1.0), ID := JStr(p.id), K := KeyJson(p.k)])
  {
    PayloadIsRecognized(p);
    if PayloadOf(value) == Some(p) {
      var fields := map[V := JNum(1.0), ID := JStr(p.id), K := KeyJson(p.k)];
      assert |V| == |K| == 1 && |ID| == 2 && V[0] != K[0];
      assert value.fields.Keys == fields.Keys && forall key | key in fields :: value.fields[key] == fields[key];
      assert value.fields == fields;
    }
  }

  /** A token is accepted exactly if it is one of the alphabet and its text is such an object. */
  lemma {:induction false} DecodeExactly(t: NumberText, token: string, p: Payload)
    ensures CursorDecode(t, token) == Ok(p) <==>
      && token != "" && (forall i | 0 <= i < |token| :: Base64Url.InAlphabet(token[i]))
      && 1 <= |p.id| <= 128
      && Parse(t, Utf8.Decode(Base64Url.Decode(token))) == Some(JObj(map[V := JNum(1.0), ID := JStr(p.id), K := KeyJson(p.k)]))
  {
    if Base64Url.IsToken(token) && Parse(t, Utf8.Decode(Base64Url.Decode(token))).Some? {
      PayloadExactly(Parse(t, Utf8.Decode(Base64Url.Decode(token))).value, p);
    }
  }
}
