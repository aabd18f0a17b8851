/**
 * Keyset pagination: one comparator sorts, a different predicate resumes after a
 * cursor. The string collation and the number printer are parameters of a view.
 */
module ListPage {
  import opened Wrappers
  import opened Utf8
  import opened JsonText
  import opened ListCursor

  /** A row with the id and the sort value the caller's accessors give; an undefined value is null. */
  datatype Row<T> = Row(id: JsString, key: Key, item: T)

  /** How a list is shown: `compare` is `localeCompare`. */
  datatype View = View(compare: (JsString, JsString) -> int, number: NumberText, descending: bool, nullsLast: bool)

  /** The place of a row in the order, which is also what its cursor says. */
  function Slot<T>(row: Row<T>): Payload {
    Payload(row.id, row.key)
  }

  // ---------------------------------------------------------------- comparators

  /** `<` on strings, by code units. */
  predicate UnitsBefore(a: JsString, b: JsString) {
    if a == [] then b != []
    else b != [] && (a[0] < b[0] || (a[0] == b[0] && UnitsBefore(a[1..], b[1..])))
  }

  /** `String(key)` on a key that is not null. */
  function KeyString(v: View, k: Key): JsString {
    match k
    case KStr(s) => s
    case KNum(n) => v.number.show(n)
    case KNull => NULL
  }

  datatype Comparison = Comparison(compared: real, nullRank: int)

  function SortValueCompare(v: View, left: Key, right: Key): Comparison {
    if left.KNull? && right.KNull? then Comparison(0.0, 0)
    else if left.KNull? then Comparison(if v.nullsLast then 1.0 else -1.0, 1)
    else if right.KNull? then Comparison(if v.nullsLast then -1.0 else 1.0, -1)
    else if left.KNum? && right.KNum? then Comparison(left.n - right.n, 0)
    else Comparison(v.compare(KeyString(v, left), KeyString(v, right)) as real, 0)
  }

  function RowsCompare(v: View, left: Payload, right: Payload): real {
    var c := SortValueCompare(v, left.k, right.k);
    if c.compared != 0.0 then
      if c.nullRank != 0 then c.compared else if v.descending then -c.compared else c.compared
    else if left.id == right.id then 0.0
    else
      var idCompared := v.compare(left.id, right.id) as real;
      if v.descending then -idCompared else idCompared
  }

  predicate IsAfterCursor(v: View, row: Payload, cursor: Payload) {
    var c := SortValueCompare(v, row.k, cursor.k).compared;
    if c == 0.0 then if v.descending then UnitsBefore(row.id, cursor.id) else UnitsBefore(cursor.id, row.id)
    else if cursor.k.KNull? then false
    else if row.k.KNull? then true
    else if v.descending then c < 0.0 else c > 0.0
  }

  predicate Before(v: View, p: Payload, q: Payload) {
    RowsCompare(v, p, q) < 0.0
  }

  // ----------------------------------------------------------------------- page

  datatype Page<T> = Page(items: seq<Row<T>>, nextPageToken: Option<string>)

  const PAGE_SIZE_DEFAULT := 20
  const PAGE_SIZE_MAX := 100

  function Truncate(x: real): int {
    if x < 0.0 then -(-x).Floor else x.Floor
  }

  function PageSizeResolve(pageSize: Option<real>): (size: nat)
    ensures 1 <= size <= PAGE_SIZE_MAX
  {
    var wanted := match pageSize case Some(x) => Truncate(x) case None => PAGE_SIZE_DEFAULT;
    var capped := if wanted < PAGE_SIZE_MAX then wanted else PAGE_SIZE_MAX;
    if 1 < capped then capped else 1
  }

  /** The page size is the whole part of what was asked for, 20 if nothing was, kept between 1 and 100. */
  lemma {:induction false} PageSizeExactly(pageSize: Option<real>)
    ensures pageSize.None? ==> PageSizeResolve(pageSize) == 20
    ensures pageSize.Some? && pageSize.value < 2.0 ==> PageSizeResolve(pageSize) == 1
    ensures pageSize.Some? && 100.0 <= pageSize.value ==> PageSizeResolve(pageSize) == 100
    ensures pageSize.Some? && 2.0 <= pageSize.value < 100.0 ==>
              PageSizeResolve(pageSize) as real <= pageSize.value < (PageSizeResolve(pageSize) + 1) as real
  {
    if pageSize.Some? { WholePart(pageSize.value); }
  }

  lemma {:induction false} WholePart(x: real)
    ensures x < 2.0 ==> Truncate(x) <= 1
    ensures 0.0 <= x ==> Truncate(x) as real <= x < (Truncate(x) + 1) as real
  {
    if x < 0.0 { assert (-x).Floor >= 0; }
  }

  /** A stable sort: each row goes before the first row that compares after it. */
  function Sorted<T>(v: View, rows: seq<Row<T>>): seq<Row<T>> {
    if rows == [] then [] else Insert(v, Sorted(v, rows[..|rows| - 1]), rows[|rows| - 1])
  }

  function Insert<T>(v: View, sorted: seq<Row<T>>, row: Row<T>): (all: seq<Row<T>>)
    ensures |all| == |sorted| + 1
  {
    if sorted == [] || RowsCompare(v, Slot(sorted[|sorted| - 1]), Slot(row)) <= 0.0 then sorted + [row]
    else Insert(v, sorted[..|sorted| - 1], row) + [sorted[|sorted| - 1]]
  }

  function AfterCursor<T>(v: View, rows: seq<Row<T>>, cursor: Payload): (kept: seq<Row<T>>)
    ensures |kept| <= |rows|
  {
    if rows == [] then []
    else
      var last := rows[|rows| - 1];
      AfterCursor(v, rows[..|rows| - 1], cursor) + if IsAfterCursor(v, Slot(last), cursor) then [last] else []
  }

  function PageFromRows<T>(v: View, rows: seq<Row<T>>, size: int): Page<T>
    requires 1 <= size
  {
    if |rows| <= size then Page(rows, None)
    else Page(rows[..size], Some(CursorEncode(v.number, Slot(rows[size - 1]))))
  }

  function RowsPage<T>(v: View, rows: seq<Row<T>>, pageSize: Option<real>, token: Option<string>): Result<Page<T>> {
    var size := PageSizeResolve(pageSize);
    match token
    case None => Ok(PageFromRows(v, Sorted(v, rows), size))
    case Some(text) =>
      match CursorDecode(v.number, text)
      case Err(message) => Err(message)
      case Ok(cursor) => Ok(PageFromRows(v, AfterCursor(v, Sorted(v, rows), cursor), size))
  }

  // --------------------------------------------------------------- assumptions

  /** `localeCompare` is a consistent three-way comparison. */
  ghost predicate IsCollation(compare: (JsString, JsString) -> int) {
    && (forall a, b :: compare(a, b) < 0 <==> 0 < compare(b, a))
    && (forall a, b, c :: compare(a, b) <= 0 && compare(b, c) <= 0 ==> compare(a, c) <= 0)
  }

  /** The collation says whether `a` goes before `b` as their code units do. */
  predicate IdsAgree(v: View, a: JsString, b: JsString) {
    a != b ==> (v.compare(a, b) < 0 <==> UnitsBefore(a, b))
  }

  lemma {:induction false} UnitsOrder(a: JsString, b: JsString)
    ensures a != b ==> (UnitsBefore(a, b) <==> !UnitsBefore(b, a))
    ensures !UnitsBefore(a, a)
  {
    if a != [] {
      UnitsOrder(a[1..], a[1..]);
      if b != [] && a[0] == b[0] {
        assert a == [a[0]] + a[1..] && b == [b[0]] + b[1..];
        UnitsOrder(a[1..], b[1..]);
      }
    }
  }

  lemma {:induction false} UnitsTransitive(a: JsString, b: JsString, c: JsString)
    requires UnitsBefore(a, b) && UnitsBefore(b, c)
    ensures UnitsBefore(a, c)
  {
    if a != [] && a[0] == b[0] == c[0] { UnitsTransitive(a[1..], b[1..], c[1..]); }
  }

  // ------------------------------------------- the two predicates, compared exactly

  /** Nulls are where the resuming predicate expects them. */
  predicate NullsAgree(v: View, p: Payload, q: Payload) {
    v.nullsLast || (p.k.KNull? <==> q.k.KNull?)
  }

  /** Neither key goes before the other, so the ids decide. */
  predicate KeysTie(v: View, a: Key, b: Key) {
    SortValueCompare(v, a, b).compared == 0.0
  }

  /** Between equal keys collation and code units agree on the two ids; between others nulls are where they are expected. */
  predicate PlacesAgree(v: View, row: Payload, cursor: Payload) {
    if !KeysTie(v, row.k, cursor.k) then NullsAgree(v, row, cursor)
    else if v.descending then IdsAgree(v, row.id, cursor.id)
    else IdsAgree(v, cursor.id, row.id)
  }

  /** Resuming after a cursor agrees with the sort order exactly where places agree. */
  lemma {:induction false} ResumeAgreesExactly(v: View, row: Payload, cursor: Payload)
    requires IsCollation(v.compare)
    ensures (IsAfterCursor(v, row, cursor) <==> Before(v, cursor, row)) <==> PlacesAgree(v, row, cursor)
  {
    UnitsOrder(row.id, cursor.id);
    SortValueCompareFlips(v, row.k, cursor.k);
    assert v.compare(row.id, cursor.id) < 0 <==> 0 < v.compare(cursor.id, row.id);
  }

  lemma {:induction false} SortValueCompareFlips(v: View, a: Key, b: Key)
    requires IsCollation(v.compare)
    ensures SortValueCompare(v, a, b).compared < 0.0 <==> SortValueCompare(v, b, a).compared > 0.0
    ensures SortValueCompare(v, b, a).compared < 0.0 <==> SortValueCompare(v, a, b).compared > 0.0
  {
    if !a.KNull? && !b.KNull? {
      assert v.compare(KeyString(v, a), KeyString(v, b)) < 0 <==> 0 < v.compare(KeyString(v, b), KeyString(v, a));
      assert v.compare(KeyString(v, b), KeyString(v, a)) < 0 <==> 0 < v.compare(KeyString(v, a), KeyString(v, b));
    }
  }

  // ------------------------------------------------- the assumptions can be met

  /** The collation by code units. */
  function UnitsCompare(a: JsString, b: JsString): int {
    if a == b then 0 else if UnitsBefore(a, b) then -1 else 1
  }

  lemma {:induction false} UnitsCompareIsCollation()
    ensures IsCollation(UnitsCompare)
  {
    forall a, b
      ensures UnitsCompare(a, b) < 0 <==> 0 < UnitsCompare(b, a)
    {
      UnitsOrder(a, b);
    }
    forall a, b, c | UnitsCompare(a, b) <= 0 && UnitsCompare(b, c) <= 0
      ensures UnitsCompare(a, c) <= 0
    {
      if a != b && b != c { UnitsTransitive(a, b, c); }
    }
  }

  // ------------------------------------------------------------------ what is refused

  /** A request is refused exactly if it has a token that does not decode, and with that error. */
  lemma {:induction false} RefusedExactly<T>(v: View, rows: seq<Row<T>>, pageSize: Option<real>, token: string)
    ensures RowsPage(v, rows, pageSize, None).Ok?
    ensures RowsPage(v, rows, pageSize, Some(token)).Err? <==> CursorDecode(v.number, token).Err?
    ensures CursorDecode(v.number, token).Err? ==> CursorDecode(v.number, token) == Err("The list cursor is invalid.")
    ensures RowsPage(v, rows, pageSize, Some(token)).Err? ==> RowsPage(v, rows, pageSize, Some(token)) == Err("The list cursor is invalid.")
  {
  }
}
