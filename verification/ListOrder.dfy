/** The order the list comparator defines, and what sorting and resuming do to it. */
module ListOrder {
  import opened Utf8
  import opened JsonText
  import opened ListCursor
  import opened ListPage

  /** Both numbers or both strings, unless one is null. */
  predicate KeysAlike(a: Key, b: Key) {
    !(a.KNum? && b.KStr?) && !(a.KStr? && b.KNum?)
  }

  /** A consistent collation and keys of one kind: all the comparator needs in order to be transitive. */
  ghost predicate Comparable(v: View, slots: set<Payload>) {
    IsCollation(v.compare) && forall p, q {:trigger KeysAlike(p.k, q.k)} | p in slots && q in slots :: KeysAlike(p.k, q.k)
  }

  /** Where only the ids differ, the collation tells them apart. */
  ghost predicate ToldApart(v: View, slots: set<Payload>) {
    forall p, q {:trigger v.compare(p.id, q.id)} | p in slots && q in slots && KeysTie(v, p.k, q.k) && p.id != q.id ::
      v.compare(p.id, q.id) != 0
  }

  /** Cursors to these places can be read back. */
  ghost predicate Readable(v: View, slots: set<Payload>) {
    forall p | p in slots :: 1 <= |p.id| <= 128 && KeyReadsBack(v.number, p.k)
  }

  /** What a list needs to have exactly one order. Nothing is said of code units or of nulls. */
  ghost predicate Sortable(v: View, slots: set<Payload>) {
    Comparable(v, slots) && ToldApart(v, slots)
  }

  /** Resuming after the cursor agrees with the sort order on all of these places. */
  ghost predicate AgreesAt(v: View, slots: set<Payload>, cursor: Payload) {
    forall p {:trigger PlacesAgree(v, p, cursor)} | p in slots :: PlacesAgree(v, p, cursor)
  }

  /** It does so after each of them. */
  ghost predicate AgreesThroughout(v: View, slots: set<Payload>) {
    forall cursor {:trigger AgreesAt(v, slots, cursor)} | cursor in slots :: AgreesAt(v, slots, cursor)
  }

  // -------------------------------------------------- where the assumptions hold

  ghost predicate NullsAlike(v: View, slots: set<Payload>) {
    forall p, q {:trigger NullsAgree(v, p, q)} | p in slots && q in slots :: NullsAgree(v, p, q)
  }

  /** Collation and code units agree wherever ids decide. */
  ghost predicate TiesAgree(v: View, slots: set<Payload>) {
    forall p, q {:trigger IdsAgree(v, p.id, q.id)} | p in slots && q in slots && KeysTie(v, p.k, q.k) :: IdsAgree(v, p.id, q.id)
  }

  /** There are only these two causes of disagreement. */
  lemma {:induction false} AgreesThroughoutExactly(v: View, slots: set<Payload>)
    requires IsCollation(v.compare)
    ensures AgreesThroughout(v, slots) <==> TiesAgree(v, slots) && NullsAlike(v, slots)
  {
    forall p, q | p in slots && q in slots
      ensures PlacesAgree(v, p, q) && PlacesAgree(v, q, p) <==>
              NullsAgree(v, p, q) && (KeysTie(v, p.k, q.k) ==> IdsAgree(v, p.id, q.id) && IdsAgree(v, q.id, p.id))
      ensures KeysTie(v, p.k, q.k) <==> KeysTie(v, q.k, p.k)
    {
      PlacesAgreeBothWays(v, p, q);
    }
    if AgreesThroughout(v, slots) {
      forall p, q | p in slots && q in slots
        ensures PlacesAgree(v, p, q) && PlacesAgree(v, q, p)
      {
        assert AgreesAt(v, slots, p) && AgreesAt(v, slots, q);
      }
    }
  }

  lemma {:induction false} PlacesAgreeBothWays(v: View, p: Payload, q: Payload)
    requires IsCollation(v.compare)
    ensures PlacesAgree(v, p, q) && PlacesAgree(v, q, p) <==>
            NullsAgree(v, p, q) && (KeysTie(v, p.k, q.k) ==> IdsAgree(v, p.id, q.id) && IdsAgree(v, q.id, p.id))
    ensures KeysTie(v, p.k, q.k) <==> KeysTie(v, q.k, p.k)
  {
    SortValueCompareFlips(v, p.k, q.k);
  }

  /** No two places tie on their keys, so no id is ever compared. */
  ghost predicate KeysDiffer(v: View, slots: set<Payload>) {
    forall p, q {:trigger KeysTie(v, p.k, q.k)} | p in slots && q in slots && KeysTie(v, p.k, q.k) :: p.id == q.id
  }

  /** A list without ties is sortable, and agrees throughout if its nulls do, whatever its ids and the collation are. */
  lemma {:induction false} KeysWithoutTies(v: View, slots: set<Payload>)
    requires Comparable(v, slots) && KeysDiffer(v, slots)
    ensures Sortable(v, slots) && (NullsAlike(v, slots) ==> AgreesThroughout(v, slots))
  {
  }

  /** Whole-number or null keys and ids collated by code units meet every assumption, nulls apart. */
  lemma {:induction false} WholeNumbersQualify(v: View, slots: set<Payload>)
    requires v.compare == UnitsCompare && v.number == INTEGERS
    requires forall p | p in slots :: 1 <= |p.id| <= 128 && !p.k.KStr? && (p.k.KNum? ==> p.k.n.Floor as real == p.k.n)
    ensures Sortable(v, slots) && Readable(v, slots) && (NullsAlike(v, slots) ==> AgreesThroughout(v, slots))
  {
    UnitsCompareIsCollation();
    forall p, q | p in slots && q in slots
      ensures IdsAgree(v, p.id, q.id)
    {
      UnitsOrder(p.id, q.id);
    }
    forall p | p in slots
      ensures KeyReadsBack(v.number, p.k)
    {
      IntegersReadBack(if p.k.KNum? then p.k.n.Floor else 0);
    }
  }

  // ------------------------------------------------------------- a strict order

  /** The key part of the comparison, direction applied. */
  function KeyOrder(v: View, a: Key, b: Key): real {
    var c := SortValueCompare(v, a, b);
    if c.nullRank == 0 && v.descending then -c.compared else c.compared
  }

  lemma {:induction false} KeyOrderFlips(v: View, a: Key, b: Key)
    requires IsCollation(v.compare)
    ensures KeyOrder(v, a, b) < 0.0 <==> KeyOrder(v, b, a) > 0.0
  {
    SortValueCompareFlips(v, a, b);
  }

  lemma {:induction false} KeyOrderTransitive(v: View, a: Key, b: Key, c: Key)
    requires IsCollation(v.compare) && KeysAlike(a, b) && KeysAlike(b, c) && KeysAlike(a, c)
    requires KeyOrder(v, a, b) <= 0.0 && KeyOrder(v, b, c) <= 0.0
    ensures KeyOrder(v, a, c) <= 0.0
  {
    if a.KStr? && b.KStr? && c.KStr? {
      StringsTransitive(v, a.s, b.s, c.s);
    }
  }

  lemma {:induction false} StringsTransitive(v: View, a: JsString, b: JsString, c: JsString)
    requires IsCollation(v.compare)
    ensures v.compare(a, b) <= 0 && v.compare(b, c) <= 0 ==> v.compare(a, c) <= 0
    ensures v.compare(a, b) >= 0 && v.compare(b, c) >= 0 ==> v.compare(a, c) >= 0
  {
    assert v.compare(c, b) < 0 <==> 0 < v.compare(b, c);
    assert v.compare(b, a) < 0 <==> 0 < v.compare(a, b);
    assert v.compare(a, b) < 0 <==> 0 < v.compare(b, a);
    assert v.compare(b, c) < 0 <==> 0 < v.compare(c, b);
    assert v.compare(a, c) < 0 <==> 0 < v.compare(c, a);
    assert v.compare(c, b) <= 0 && v.compare(b, a) <= 0 ==> v.compare(c, a) <= 0;
  }

  /** The id part of the comparison, direction applied. */
  function IdOrder(v: View, a: JsString, b: JsString): int {
    if v.descending then -v.compare(a, b) else v.compare(a, b)
  }

  lemma {:induction false} BeforeByParts(v: View, p: Payload, q: Payload)
    requires IsCollation(v.compare)
    ensures Before(v, p, q) <==> KeyOrder(v, p.k, q.k) < 0.0 || (KeyOrder(v, p.k, q.k) == 0.0 && IdOrder(v, p.id, q.id) < 0)
  {
    assert v.compare(p.id, p.id) < 0 <==> 0 < v.compare(p.id, p.id);
  }

  lemma {:induction false} IdOrderFlips(v: View, a: JsString, b: JsString)
    requires IsCollation(v.compare)
    ensures IdOrder(v, a, b) < 0 <==> IdOrder(v, b, a) > 0
    ensures IdOrder(v, b, a) < 0 <==> IdOrder(v, a, b) > 0
  {
    assert v.compare(a, b) < 0 <==> 0 < v.compare(b, a);
    assert v.compare(b, a) < 0 <==> 0 < v.compare(a, b);
  }

  lemma {:induction false} BeforeIsStrict(v: View, slots: set<Payload>, p: Payload, q: Payload)
    requires Sortable(v, slots) && p in slots && q in slots
    ensures !Before(v, p, p)
    ensures Before(v, p, q) ==> !Before(v, q, p)
    ensures p.id != q.id ==> Before(v, p, q) || Before(v, q, p)
  {
    BeforeByParts(v, p, q);
    BeforeByParts(v, q, p);
    KeyOrderFlips(v, p.k, q.k);
    KeyOrderFlips(v, q.k, p.k);
    KeyOrderFlips(v, p.k, p.k);
    IdOrderFlips(v, p.id, q.id);
  }

  lemma {:induction false} IdOrderTransitive(v: View, a: JsString, b: JsString, c: JsString)
    requires IsCollation(v.compare) && IdOrder(v, a, b) < 0 && IdOrder(v, b, c) < 0
    ensures IdOrder(v, a, c) < 0
  {
    StringsTransitive(v, a, b, c);
    StringsTransitive(v, c, a, b);
    StringsTransitive(v, b, c, a);
    IdOrderFlips(v, a, b);
    IdOrderFlips(v, b, c);
    IdOrderFlips(v, a, c);
  }

  /** Chaining the two parts of a lexicographic order. */
  lemma {:induction false} KeyChain(v: View, a: Key, b: Key, c: Key)
    requires IsCollation(v.compare) && KeysAlike(a, b) && KeysAlike(b, c) && KeysAlike(a, c)
    requires KeyOrder(v, a, b) <= 0.0 && KeyOrder(v, b, c) <= 0.0
    ensures KeyOrder(v, a, c) < 0.0 || (KeyOrder(v, a, b) == KeyOrder(v, b, c) == KeyOrder(v, a, c) == 0.0)
  {
    KeyOrderTransitive(v, a, b, c);
    KeyOrderFlips(v, a, b);
    KeyOrderFlips(v, b, c);
    KeyOrderFlips(v, a, c);
    KeyOrderFlips(v, b, a);
    KeyOrderFlips(v, c, b);
    KeyOrderFlips(v, c, a);
    if KeyOrder(v, a, c) == 0.0 {
      KeyOrderTransitive(v, b, c, a);
      KeyOrderTransitive(v, c, a, b);
    }
  }

  lemma {:induction false} BeforeTransitive(v: View, slots: set<Payload>, p: Payload, q: Payload, r: Payload)
    requires Comparable(v, slots) && p in slots && q in slots && r in slots
    requires Before(v, p, q) && Before(v, q, r)
    ensures Before(v, p, r)
  {
    BeforeByParts(v, p, q);
    BeforeByParts(v, q, r);
    BeforeByParts(v, p, r);
    KeyChain(v, p.k, q.k, r.k);
    if KeyOrder(v, p.k, r.k) == 0.0 { IdOrderTransitive(v, p.id, q.id, r.id); }
  }

  // --------------------------------------------------------------------- sorting

  function Slots<T>(rows: seq<Row<T>>): set<Payload> {
    set i | 0 <= i < |rows| :: Slot(rows[i])
  }

  ghost predicate DistinctIds<T>(rows: seq<Row<T>>) {
    forall i, j | 0 <= i < j < |rows| :: rows[i].id != rows[j].id
  }

  ghost predicate Increasing<T>(v: View, rows: seq<Row<T>>) {
    forall i, j | 0 <= i < j < |rows| :: Before(v, Slot(rows[i]), Slot(rows[j]))
  }

  lemma {:induction false} InsertMember<T>(v: View, sorted: seq<Row<T>>, row: Row<T>, r: Row<T>)
    ensures r in Insert(v, sorted, row) <==> r in sorted || r == row
  {
    if sorted != [] {
      var n := |sorted| - 1;
      assert sorted == sorted[..n] + [sorted[n]];
      InsertMember(v, sorted[..n], row, r);
    }
  }

  lemma {:induction false} AppendIncreasing<T>(v: View, slots: set<Payload>, sorted: seq<Row<T>>, row: Row<T>)
    requires Sortable(v, slots) && Slots(sorted) <= slots && Slot(row) in slots && Increasing(v, sorted)
    requires sorted == [] || Before(v, Slot(sorted[|sorted| - 1]), Slot(row))
    ensures Increasing(v, sorted + [row])
  {
    forall i | 0 <= i < |sorted|
      ensures Before(v, Slot(sorted[i]), Slot(row))
    {
      var last := sorted[|sorted| - 1];
      assert Slot(sorted[i]) in Slots(sorted) && Slot(last) in Slots(sorted);
      if i < |sorted| - 1 { BeforeTransitive(v, slots, Slot(sorted[i]), Slot(last), Slot(row)); }
    }
  }

  lemma {:induction false} InsertIncreasing<T>(v: View, slots: set<Payload>, sorted: seq<Row<T>>, row: Row<T>)
    requires Sortable(v, slots) && Slots(sorted) <= slots && Slot(row) in slots
    requires Increasing(v, sorted) && forall i | 0 <= i < |sorted| :: sorted[i].id != row.id
    ensures Increasing(v, Insert(v, sorted, row))
  {
    if sorted == [] {
      AppendIncreasing(v, slots, sorted, row);
    } else {
      var n := |sorted| - 1;
      var before, last := sorted[..n], sorted[n];
      assert Slot(last) in Slots(sorted);
      BeforeIsStrict(v, slots, Slot(last), Slot(row));
      BeforeIsStrict(v, slots, Slot(row), Slot(last));
      if RowsCompare(v, Slot(last), Slot(row)) <= 0.0 {
        AppendIncreasing(v, slots, sorted, row);
      } else {
        SlotsOfPrefix(sorted, n);
        InsertIncreasing(v, slots, before, row);
        InsertBefore(v, before, row, last);
      }
    }
  }

  lemma {:induction false} SlotsOfPrefix<T>(rows: seq<Row<T>>, n: nat)
    requires n <= |rows|
    ensures Slots(rows[..n]) <= Slots(rows)
  {
  }

  lemma {:induction false} InsertBefore<T>(v: View, before: seq<Row<T>>, row: Row<T>, last: Row<T>)
    requires Increasing(v, Insert(v, before, row)) && Before(v, Slot(row), Slot(last))
    requires forall i | 0 <= i < |before| :: Before(v, Slot(before[i]), Slot(last))
    ensures Increasing(v, Insert(v, before, row) + [last])
  {
    var all := Insert(v, before, row);
    forall i | 0 <= i < |all|
      ensures Before(v, Slot(all[i]), Slot(last))
    {
      InsertMember(v, before, row, all[i]);
    }
  }

  lemma {:induction false} SortedMember<T(!new)>(v: View, rows: seq<Row<T>>, r: Row<T>)
    ensures r in Sorted(v, rows) <==> r in rows
  {
    if rows != [] {
      var n := |rows| - 1;
      assert rows == rows[..n] + [rows[n]];
      SortedMember(v, rows[..n], r);
      InsertMember(v, Sorted(v, rows[..n]), rows[n], r);
    }
  }

  lemma {:induction false} SortedLength<T>(v: View, rows: seq<Row<T>>)
    ensures |Sorted(v, rows)| == |rows|
  {
    if rows != [] { SortedLength(v, rows[..|rows| - 1]); }
  }

  lemma {:induction false} SlotsOfSorted<T(!new)>(v: View, rows: seq<Row<T>>)
    ensures Slots(Sorted(v, rows)) == Slots(rows)
  {
    forall r
      ensures r in Sorted(v, rows) <==> r in rows
    {
      SortedMember(v, rows, r);
    }
    SlotsOfPart(rows, Sorted(v, rows));
    SlotsOfPart(Sorted(v, rows), rows);
  }

  lemma {:induction false} SortedIncreasing<T(!new)>(v: View, slots: set<Payload>, rows: seq<Row<T>>)
    requires Sortable(v, slots) && Slots(rows) <= slots && DistinctIds(rows)
    ensures Increasing(v, Sorted(v, rows))
  {
    if rows != [] {
      var n := |rows| - 1;
      var front := Sorted(v, rows[..n]);
      SlotsOfPrefix(rows, n);
      SortedIncreasing(v, slots, rows[..n]);
      SlotsOfSorted(v, rows[..n]);
      forall i | 0 <= i < |front|
        ensures front[i].id != rows[n].id
      {
        SortedMember(v, rows[..n], front[i]);
      }
      LastRowIsIn(rows);
      InsertIncreasing(v, slots, front, rows[n]);
    }
  }

  lemma {:induction false} LastRowIsIn<T>(rows: seq<Row<T>>)
    ensures rows != [] ==> Slot(rows[|rows| - 1]) in Slots(rows)
  {
  }

  /** Sorting keeps exactly the rows and puts them in strict order. */
  lemma {:induction false} SortedFacts<T(!new)>(v: View, slots: set<Payload>, rows: seq<Row<T>>)
    requires Sortable(v, slots) && Slots(rows) <= slots && DistinctIds(rows)
    ensures Increasing(v, Sorted(v, rows))
    ensures forall r :: r in Sorted(v, rows) <==> r in rows
    ensures |Sorted(v, rows)| == |rows| && Slots(Sorted(v, rows)) == Slots(rows)
  {
    SortedIncreasing(v, slots, rows);
    SortedLength(v, rows);
    SlotsOfSorted(v, rows);
    forall r
      ensures r in Sorted(v, rows) <==> r in rows
    {
      SortedMember(v, rows, r);
    }
  }

  lemma {:induction false} SlotsOfPart<T(!new)>(all: seq<Row<T>>, part: seq<Row<T>>)
    requires forall r | r in part :: r in all
    ensures Slots(part) <= Slots(all)
  {
    forall p | p in Slots(part)
      ensures p in Slots(all)
    {
      var i :| 0 <= i < |part| && Slot(part[i]) == p;
      assert part[i] in part;
      var j :| 0 <= j < |all| && all[j] == part[i];
    }
  }

  ghost predicate SameRows<T(!new)>(a: seq<Row<T>>, b: seq<Row<T>>) {
    forall r :: r in a <==> r in b
  }

  lemma {:induction false} FirstIsIn<T>(rows: seq<Row<T>>)
    ensures rows != [] ==> rows[0] in rows
  {
  }

  /** A strict order leaves only one way to list the same rows. */
  lemma {:induction false} IncreasingIsUnique<T(!new)>(v: View, slots: set<Payload>, a: seq<Row<T>>, b: seq<Row<T>>)
    requires Sortable(v, slots) && Slots(a) <= slots && Slots(b) <= slots
    requires Increasing(v, a) && Increasing(v, b) && SameRows(a, b)
    ensures a == b
    decreases |a|
  {
    if a == [] || b == [] {
      FirstIsIn(a);
      FirstIsIn(b);
    } else {
      var m, n := |a| - 1, |b| - 1;
      SameLast(v, slots, a, b);
      SameFront(v, slots, a, b);
      SlotsOfPrefix(a, m);
      SlotsOfPrefix(b, n);
      IncreasingIsUnique(v, slots, a[..m], b[..n]);
      assert a == a[..m] + [a[m]] && b == b[..n] + [b[n]];
    }
  }

  lemma {:induction false} SameFront<T(!new)>(v: View, slots: set<Payload>, a: seq<Row<T>>, b: seq<Row<T>>)
    requires Sortable(v, slots) && Slots(a) <= slots && Slots(b) <= slots && a != [] && b != []
    requires Increasing(v, a) && Increasing(v, b) && SameRows(a, b) && a[|a| - 1] == b[|b| - 1]
    ensures SameRows(a[..|a| - 1], b[..|b| - 1])
  {
    var frontA, frontB := a[..|a| - 1], b[..|b| - 1];
    forall r
      ensures r in frontA <==> r in frontB
    {
      InFront(v, slots, a, r);
      InFront(v, slots, b, r);
    }
  }

  lemma {:induction false} NoneAfterLast<T>(v: View, slots: set<Payload>, a: seq<Row<T>>, r: Row<T>)
    requires Sortable(v, slots) && Slots(a) <= slots && Increasing(v, a) && r in a
    ensures !Before(v, Slot(a[|a| - 1]), Slot(r))
  {
    var j, n :| 0 <= j < |a| && a[j] == r && n == |a| - 1;
    assert Slot(a[j]) in Slots(a) && Slot(a[n]) in Slots(a);
    BeforeIsStrict(v, slots, Slot(a[j]), Slot(a[n]));
  }

  lemma {:induction false} SameLast<T(!new)>(v: View, slots: set<Payload>, a: seq<Row<T>>, b: seq<Row<T>>)
    requires Sortable(v, slots) && Slots(a) <= slots && Slots(b) <= slots && a != [] && b != []
    requires Increasing(v, a) && Increasing(v, b) && SameRows(a, b)
    ensures a[|a| - 1] == b[|b| - 1]
  {
    var m, n := |a| - 1, |b| - 1;
    assert a[m] in b && b[n] in a;
    NoneAfterLast(v, slots, b, a[m]);
    var i :| 0 <= i <= m && a[i] == b[n];
  }

  lemma {:induction false} InFront<T(!new)>(v: View, slots: set<Payload>, a: seq<Row<T>>, r: Row<T>)
    requires Sortable(v, slots) && Slots(a) <= slots && a != [] && Increasing(v, a)
    ensures r in a[..|a| - 1] <==> r in a && r != a[|a| - 1]
  {
    var m := |a| - 1;
    assert a == a[..m] + [a[m]];
    if r in a[..m] {
      var i :| 0 <= i < m && a[i] == r;
      assert Slot(a[m]) in Slots(a);
      BeforeIsStrict(v, slots, Slot(a[m]), Slot(a[m]));
    }
  }

  // -------------------------------------------------------------------- resuming

  lemma {:induction false} AfterCursorMember<T(!new)>(v: View, rows: seq<Row<T>>, cursor: Payload, r: Row<T>)
    ensures r in AfterCursor(v, rows, cursor) <==> r in rows && IsAfterCursor(v, Slot(r), cursor)
  {
    if rows != [] {
      var n := |rows| - 1;
      AfterCursorMember(v, rows[..n], cursor, r);
      assert rows == rows[..n] + [rows[n]];
    }
  }

  lemma {:induction false} AfterCursorIncreasing<T(!new)>(v: View, rows: seq<Row<T>>, cursor: Payload)
    requires Increasing(v, rows)
    ensures Increasing(v, AfterCursor(v, rows, cursor))
  {
    if rows != [] {
      var n := |rows| - 1;
      var kept := AfterCursor(v, rows[..n], cursor);
      AfterCursorIncreasing(v, rows[..n], cursor);
      forall i | 0 <= i < |kept|
        ensures Before(v, Slot(kept[i]), Slot(rows[n]))
      {
        AfterCursorMember(v, rows[..n], cursor, kept[i]);
        var j :| 0 <= j < n && rows[j] == kept[i];
      }
    }
  }

  // -------------------------------------------------- the order of the cursors

  predicate UnitsInOrder(v: View, a: JsString, b: JsString) {
    if v.descending then UnitsBefore(b, a) else UnitsBefore(a, b)
  }

  /** The order the resuming predicate keeps: nulls last, then keys as sorted, then ids by code units. */
  lemma {:induction false} AfterByParts(v: View, row: Payload, cursor: Payload)
    requires IsCollation(v.compare)
    ensures IsAfterCursor(v, row, cursor) <==>
            if row.k.KNull? != cursor.k.KNull? then row.k.KNull?
            else KeyOrder(v, cursor.k, row.k) < 0.0 || (KeyOrder(v, cursor.k, row.k) == 0.0 && UnitsInOrder(v, cursor.id, row.id))
  {
    SortValueCompareFlips(v, row.k, cursor.k);
  }

  lemma {:induction false} NotAfterItself(v: View, p: Payload)
    requires IsCollation(v.compare)
    ensures !IsAfterCursor(v, p, p)
  {
    AfterByParts(v, p, p);
    KeyOrderFlips(v, p.k, p.k);
    UnitsOrder(p.id, p.id);
  }

  /** What resumes after a later cursor resumes after an earlier one: rows skipped once stay skipped. */
  lemma {:induction false} AfterTransitive(v: View, slots: set<Payload>, p: Payload, q: Payload, r: Payload)
    requires Comparable(v, slots) && p in slots && q in slots && r in slots
    requires IsAfterCursor(v, q, p) && IsAfterCursor(v, r, q)
    ensures IsAfterCursor(v, r, p)
  {
    AfterByParts(v, q, p);
    AfterByParts(v, r, q);
    AfterByParts(v, r, p);
    if p.k.KNull? == q.k.KNull? == r.k.KNull? {
      KeyChain(v, p.k, q.k, r.k);
      if KeyOrder(v, p.k, r.k) == 0.0 { UnitsInOrderTransitive(v, p.id, q.id, r.id); }
    }
  }

  lemma {:induction false} UnitsInOrderTransitive(v: View, a: JsString, b: JsString, c: JsString)
    requires UnitsInOrder(v, a, b) && UnitsInOrder(v, b, c)
    ensures UnitsInOrder(v, a, c)
  {
    if v.descending { UnitsTransitive(c, b, a); } else { UnitsTransitive(a, b, c); }
  }

  // ------------------------------------------------------------ which way it goes

  /** Smaller numbers come first when ascending, and last when descending. */
  lemma {:induction false} NumbersInOrder(v: View, p: Payload, q: Payload)
    requires p.k.KNum? && q.k.KNum? && p.k.n < q.k.n
    ensures if v.descending then Before(v, q, p) && !Before(v, p, q) else Before(v, p, q) && !Before(v, q, p)
  {
  }

  /** Texts that the collation puts first do too; a number beside a text is compared as its printed form. */
  lemma {:induction false} TextsInOrder(v: View, p: Payload, q: Payload, a: JsString, b: JsString)
    requires IsCollation(v.compare) && (p.k == KStr(a) || (p.k.KNum? && a == v.number.show(p.k.n)))
    requires (q.k == KStr(b) || (q.k.KNum? && b == v.number.show(q.k.n))) && (p.k.KStr? || q.k.KStr?)
    requires v.compare(a, b) < 0
    ensures if v.descending then Before(v, q, p) && !Before(v, p, q) else Before(v, p, q) && !Before(v, q, p)
  {
    assert v.compare(b, a) > 0;
    assert v.compare(b, a) < 0 <==> 0 < v.compare(a, b);
  }

  /** Nulls come last or first in both directions. */
  lemma {:induction false} NullsInOrder(v: View, p: Payload, q: Payload)
    requires p.k.KNull? && !q.k.KNull?
    ensures if v.nullsLast then Before(v, q, p) && !Before(v, p, q) else Before(v, p, q) && !Before(v, q, p)
  {
  }

  /** Equal keys leave it to the collation of the ids, in the direction asked for. */
  lemma {:induction false} TiesInOrder(v: View, p: Payload, q: Payload)
    requires IsCollation(v.compare) && p.k == q.k && v.compare(p.id, q.id) < 0
    ensures if v.descending then Before(v, q, p) && !Before(v, p, q) else Before(v, p, q) && !Before(v, q, p)
  {
    SortValueCompareFlips(v, p.k, q.k);
    assert v.compare(q.id, p.id) > 0;
    assert v.compare(q.id, p.id) < 0 <==> 0 < v.compare(p.id, q.id);
    assert p.id != q.id;
  }

  ghost predicate KeysInOrder<T>(v: View, rows: seq<Row<T>>) {
    forall i, j | 0 <= i < j < |rows| :: KeyOrder(v, rows[i].key, rows[j].key) <= 0.0
  }

  lemma {:induction false} ComparedKeys(v: View, p: Payload, q: Payload)
    requires IsCollation(v.compare)
    ensures RowsCompare(v, p, q) <= 0.0 ==> KeyOrder(v, p.k, q.k) <= 0.0
    ensures RowsCompare(v, p, q) > 0.0 ==> KeyOrder(v, q.k, p.k) <= 0.0
  {
    KeyOrderFlips(v, p.k, q.k);
    KeyOrderFlips(v, q.k, p.k);
  }

  lemma {:induction false} KeyBeforeLast<T>(v: View, slots: set<Payload>, sorted: seq<Row<T>>, k: Key, i: nat)
    requires Comparable(v, slots) && Slots(sorted) <= slots && KeysInOrder(v, sorted) && i < |sorted|
    requires (exists p :: p in slots && p.k == k) && KeyOrder(v, sorted[|sorted| - 1].key, k) <= 0.0
    ensures KeyOrder(v, sorted[i].key, k) <= 0.0
  {
    var last := sorted[|sorted| - 1];
    var p :| p in slots && p.k == k;
    assert Slot(sorted[i]) in Slots(sorted) && Slot(last) in Slots(sorted);
    assert KeysAlike(Slot(sorted[i]).k, Slot(last).k) && KeysAlike(Slot(last).k, p.k) && KeysAlike(Slot(sorted[i]).k, p.k);
    if i < |sorted| - 1 { KeyOrderTransitive(v, sorted[i].key, last.key, k); }
  }

  lemma {:induction false} InsertKeysInOrder<T(!new)>(v: View, slots: set<Payload>, sorted: seq<Row<T>>, row: Row<T>)
    requires Comparable(v, slots) && Slots(sorted) <= slots && Slot(row) in slots && KeysInOrder(v, sorted)
    ensures KeysInOrder(v, Insert(v, sorted, row))
  {
    if sorted != [] {
      var n := |sorted| - 1;
      var front, last := sorted[..n], sorted[n];
      ComparedKeys(v, Slot(last), Slot(row));
      if RowsCompare(v, Slot(last), Slot(row)) <= 0.0 {
        forall i | 0 <= i <= n
          ensures KeyOrder(v, sorted[i].key, row.key) <= 0.0
        {
          KeyBeforeLast(v, slots, sorted, row.key, i);
        }
      } else {
        SlotsOfPrefix(sorted, n);
        InsertKeysInOrder(v, slots, front, row);
        AppendInOrder(v, Insert(v, front, row), front, row, last);
      }
    }
  }

  lemma {:induction false} AppendInOrder<T(!new)>(v: View, all: seq<Row<T>>, front: seq<Row<T>>, row: Row<T>, last: Row<T>)
    requires all == Insert(v, front, row) && KeysInOrder(v, all) && KeyOrder(v, row.key, last.key) <= 0.0
    requires forall i | 0 <= i < |front| :: KeyOrder(v, front[i].key, last.key) <= 0.0
    ensures KeysInOrder(v, all + [last])
  {
    forall i | 0 <= i < |all|
      ensures KeyOrder(v, all[i].key, last.key) <= 0.0
    {
      InsertMember(v, front, row, all[i]);
    }
  }

  /** Sorting puts keys in order, whatever their ids are. */
  lemma {:induction false} SortedKeysInOrder<T(!new)>(v: View, slots: set<Payload>, rows: seq<Row<T>>)
    requires Comparable(v, slots) && Slots(rows) <= slots
    ensures KeysInOrder(v, Sorted(v, rows))
  {
    if rows != [] {
      var n := |rows| - 1;
      SlotsOfPrefix(rows, n);
      SortedKeysInOrder(v, slots, rows[..n]);
      SlotsOfSorted(v, rows[..n]);
      LastRowIsIn(rows);
      InsertKeysInOrder(v, slots, Sorted(v, rows[..n]), rows[n]);
    }
  }

  /** A list sorted by numbers, such as times, goes up when ascending and down when descending. */
  lemma {:induction false} SortedByNumbers<T(!new)>(v: View, rows: seq<Row<T>>, i: nat, j: nat)
    requires IsCollation(v.compare) && (forall r | r in rows :: r.key.KNum?) && i < j < |Sorted(v, rows)|
    ensures Sorted(v, rows)[i] in rows && Sorted(v, rows)[j] in rows
    ensures var a, b := Sorted(v, rows)[i].key.n, Sorted(v, rows)[j].key.n; if v.descending then b <= a else a <= b
  {
    var sorted := Sorted(v, rows);
    forall p | p in Slots(rows)
      ensures p.k.KNum?
    {
      var k :| 0 <= k < |rows| && Slot(rows[k]) == p;
      assert rows[k] in rows;
    }
    SortedKeysInOrder(v, Slots(rows), rows);
    SortedMember(v, rows, sorted[i]);
    SortedMember(v, rows, sorted[j]);
    assert KeyOrder(v, sorted[i].key, sorted[j].key) <= 0.0;
  }

  /** And one sorted by texts goes along the collation, or against it. */
  lemma {:induction false} SortedByTexts<T(!new)>(v: View, rows: seq<Row<T>>, i: nat, j: nat)
    requires IsCollation(v.compare) && (forall r | r in rows :: r.key.KStr?) && i < j < |Sorted(v, rows)|
    ensures Sorted(v, rows)[i] in rows && Sorted(v, rows)[j] in rows
    ensures var c := v.compare(Sorted(v, rows)[i].key.s, Sorted(v, rows)[j].key.s); if v.descending then c >= 0 else c <= 0
  {
    var sorted := Sorted(v, rows);
    forall p | p in Slots(rows)
      ensures p.k.KStr?
    {
      var k :| 0 <= k < |rows| && Slot(rows[k]) == p;
      assert rows[k] in rows;
    }
    SortedKeysInOrder(v, Slots(rows), rows);
    SortedMember(v, rows, sorted[i]);
    SortedMember(v, rows, sorted[j]);
    assert KeyOrder(v, sorted[i].key, sorted[j].key) <= 0.0;
  }
}
