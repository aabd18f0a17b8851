/**
 * What goes wrong at a page boundary where resuming disagrees with the sort order:
 * rows that are lost or shown twice. Nulls and the collation of ids are the two causes.
 */
module ListBoundaries {
  import opened Wrappers
  import opened Utf8
  import opened ListCursor
  import opened ListPage
  import opened ListOrder
  import opened ListWalk
  import opened ListStill

  /** On lists that may change in any way: what does not resume after a page is on no later page. */
  lemma {:induction false} SkippedIsLost<T(!new)>(
    v: View, slots: set<Payload>, fetches: seq<Fetch<T>>, pages: seq<Page<T>>, first: seq<Page<T>>, p: Payload
  )
    requires Comparable(v, slots) && Readable(v, slots) && WithinSlots(fetches, slots) && IsTraversal(v, fetches, pages)
    requires first != [] && first <= pages && Place(first).Some? && !IsAfterCursor(v, p, Place(first).value)
    ensures p !in Slots(ItemsFrom(pages, |first|))
  {
    var rest := ItemsFrom(pages, |first|);
    TraversalWalks(v, slots, fetches, pages);
    if i :| 0 <= i < |rest| && Slot(rest[i]) == p {
      LaterIsResumed(v, slots, fetches, pages, first, rest[i]);
    }
  }

  // ------------------------------------------------------------ the first boundary

  /** A whole walk of more than one page begins with the first rows, cut before the boundary. */
  lemma {:induction false} FirstPage<T>(v: View, sorted: seq<Row<T>>, size: nat, pages: seq<Page<T>>)
    requires CutsThrough(v, sorted, size, pages) && IsFinished(pages) && 1 <= size < |sorted|
    ensures |pages| > 1 && pages[0].items == sorted[..size] && Place(pages[..1]) == Some(Slot(sorted[size - 1]))
    ensures AllItems(pages) == sorted[..size] + ItemsFrom(pages, 1)
  {
    var one := pages[..1];
    CutPrefix(v, sorted, size, pages, one);
    assert |pages| == 1 ==> one == pages;
    OnePage(v, sorted, size, one);
    ItemsSplit(pages, 1);
  }

  lemma {:induction false} OnePage<T>(v: View, sorted: seq<Row<T>>, size: nat, one: seq<Page<T>>)
    requires CutsThrough(v, sorted, size, one) && |one| == 1 && 1 <= size < |sorted|
    ensures one[0].items == sorted[..size] && Continues(one) && AllItems(one) == sorted[..size]
    ensures Place(one) == Some(Slot(sorted[size - 1]))
  {
    assert one[..0] == [] && AllItems(one[..0]) == [];
  }

  lemma {:induction false} CutPrefix<T>(v: View, sorted: seq<Row<T>>, size: nat, pages: seq<Page<T>>, first: seq<Page<T>>)
    requires CutsThrough(v, sorted, size, pages) && first <= pages
    ensures CutsThrough(v, sorted, size, first)
    decreases |pages|
  {
    if |first| == |pages| {
      assert first == pages;
    } else {
      CutPrefix(v, sorted, size, pages[..|pages| - 1], first);
    }
  }

  /** The second page is cut from what resumes after the boundary. */
  lemma {:induction false} SecondPage<T>(v: View, sorted: seq<Row<T>>, size: nat, pages: seq<Page<T>>)
    requires CutsThrough(v, sorted, size, pages) && IsFinished(pages) && 1 <= size < |sorted|
    ensures |pages| > 1 && pages[0].items == sorted[..size]
    ensures IsCut(AfterCursor(v, sorted, Slot(sorted[size - 1])), size, pages[1])
  {
    FirstPage(v, sorted, size, pages);
    CutPrefix(v, sorted, size, pages, pages[..2]);
    assert pages[..2][..1] == pages[..1];
  }

  /** The sorted list and the first boundary of a whole walk. */
  lemma {:induction false} WholeWalkCuts<T(!new)>(v: View, fetch: Fetch<T>, fetches: seq<Fetch<T>>, pages: seq<Page<T>>)
    requires Readable(v, Slots(fetch.rows)) && IsWholeWalk(v, fetch, fetches, pages)
    ensures CutsThrough(v, Sorted(v, fetch.rows), PageSizeResolve(fetch.pageSize), pages)
  {
    StillWithin(fetches, fetch);
    TraversalWalks(v, Slots(fetch.rows), fetches, pages);
    StillCutsThrough(v, fetch, fetches, pages);
  }

  lemma {:induction false} NotAmongFirst<T>(sorted: seq<Row<T>>, size: nat, i: nat)
    requires DistinctIds(sorted) && size <= i < |sorted|
    ensures Slot(sorted[i]) !in Slots(sorted[..size])
  {
  }

  /** A row listed after the first page that does not resume there is never shown, whatever the comparator does. */
  lemma {:induction false} UnresumedIsLost<T(!new)>(
    v: View, fetch: Fetch<T>, fetches: seq<Fetch<T>>, pages: seq<Page<T>>, size: nat, sorted: seq<Row<T>>, i: nat
  )
    requires Comparable(v, Slots(fetch.rows)) && Readable(v, Slots(fetch.rows)) && DistinctIds(fetch.rows)
    requires size == PageSizeResolve(fetch.pageSize) && sorted == Sorted(v, fetch.rows) && IsWholeWalk(v, fetch, fetches, pages)
    requires size <= i < |sorted| && !IsAfterCursor(v, Slot(sorted[i]), Slot(sorted[size - 1]))
    ensures Slot(sorted[i]) !in Slots(AllItems(pages))
  {
    WholeWalkCuts(v, fetch, fetches, pages);
    FirstPage(v, sorted, size, pages);
    SortedDistinct(v, fetch.rows);
    NotAmongFirst(sorted, size, i);
    StillWithin(fetches, fetch);
    SkippedIsLost(v, Slots(fetch.rows), fetches, pages, pages[..1], Slot(sorted[i]));
    SlotsOfBoth(sorted[..size], ItemsFrom(pages, 1));
  }

  /** A row of the first page that resumes after it makes the second page begin with it or one listed before it. */
  lemma {:induction false} ResumedIsRepeated<T(!new)>(
    v: View, fetch: Fetch<T>, fetches: seq<Fetch<T>>, pages: seq<Page<T>>, size: nat, sorted: seq<Row<T>>, i: nat
  )
    requires Readable(v, Slots(fetch.rows)) && IsWholeWalk(v, fetch, fetches, pages)
    requires size == PageSizeResolve(fetch.pageSize) && sorted == Sorted(v, fetch.rows)
    requires i < size < |sorted| && IsAfterCursor(v, Slot(sorted[i]), Slot(sorted[size - 1]))
    ensures |pages| > 1 && pages[1].items != [] && pages[0].items == sorted[..size] && pages[1].items[0] in sorted[..i + 1]
  {
    WholeWalkCuts(v, fetch, fetches, pages);
    SecondPage(v, sorted, size, pages);
    var j := FirstThatResumes(v, sorted, Slot(sorted[size - 1]), i);
    CutBegins(AfterCursor(v, sorted, Slot(sorted[size - 1])), size, pages[1]);
    assert sorted[..i + 1][j] == sorted[j];
  }

  lemma {:induction false} CutBegins<T>(all: seq<Row<T>>, size: nat, page: Page<T>)
    requires IsCut(all, size, page) && all != [] && 1 <= size
    ensures page.items != [] && page.items[0] == all[0]
  {
  }

  /** A row that sorts after the first boundary but does not resume there is never shown. */
  lemma {:induction false} BoundaryLoses<T(!new)>(
    v: View, fetch: Fetch<T>, fetches: seq<Fetch<T>>, pages: seq<Page<T>>, size: nat, sorted: seq<Row<T>>, p: Payload
  )
    requires Sortable(v, Slots(fetch.rows)) && Readable(v, Slots(fetch.rows)) && DistinctIds(fetch.rows)
    requires size == PageSizeResolve(fetch.pageSize) && sorted == Sorted(v, fetch.rows) && size < |sorted|
    requires IsWholeWalk(v, fetch, fetches, pages) && p in Slots(fetch.rows)
    requires Before(v, Slot(sorted[size - 1]), p) && !PlacesAgree(v, p, Slot(sorted[size - 1]))
    ensures p !in Slots(AllItems(pages))
  {
    SortedFacts(v, Slots(fetch.rows), fetch.rows);
    var i := LaterUnresumed(v, Slots(fetch.rows), sorted, size, p);
    UnresumedIsLost(v, fetch, fetches, pages, size, sorted, i);
  }

  lemma {:induction false} LaterUnresumed<T>(v: View, slots: set<Payload>, sorted: seq<Row<T>>, size: nat, p: Payload) returns (i: nat)
    requires Sortable(v, slots) && Slots(sorted) <= slots && Increasing(v, sorted) && 1 <= size < |sorted| && p in Slots(sorted)
    requires Before(v, Slot(sorted[size - 1]), p) && !PlacesAgree(v, p, Slot(sorted[size - 1]))
    ensures size <= i < |sorted| && Slot(sorted[i]) == p && !IsAfterCursor(v, p, Slot(sorted[size - 1]))
  {
    i :| i < |sorted| && Slot(sorted[i]) == p;
    BeforeByIndex(v, slots, sorted, size - 1, i);
    ResumeAgreesExactly(v, p, Slot(sorted[size - 1]));
  }

  /** A row that sorts before the first boundary but resumes there makes the second page begin with it or one sorted before it. */
  lemma {:induction false} BoundaryRepeats<T(!new)>(
    v: View, fetch: Fetch<T>, fetches: seq<Fetch<T>>, pages: seq<Page<T>>, size: nat, sorted: seq<Row<T>>, i: nat
  )
    requires Sortable(v, Slots(fetch.rows)) && Readable(v, Slots(fetch.rows)) && DistinctIds(fetch.rows)
    requires size == PageSizeResolve(fetch.pageSize) && sorted == Sorted(v, fetch.rows) && i < size < |sorted|
    requires IsWholeWalk(v, fetch, fetches, pages) && !PlacesAgree(v, Slot(sorted[i]), Slot(sorted[size - 1]))
    ensures |pages| > 1 && pages[1].items != [] && pages[0].items == sorted[..size] && pages[1].items[0] in sorted[..i + 1]
  {
    SortedFacts(v, Slots(fetch.rows), fetch.rows);
    BeforeByIndex(v, Slots(fetch.rows), sorted, size - 1, i);
    ResumeAgreesExactly(v, Slot(sorted[i]), Slot(sorted[size - 1]));
    ResumedIsRepeated(v, fetch, fetches, pages, size, sorted, i);
  }

  // ------------------------------------------------------------------------- nulls

  lemma {:induction false} OnePageHasNoBoundary<T>(v: View, sorted: seq<Row<T>>, size: nat)
    requires |sorted| <= size
    ensures BoundariesAgree(v, sorted, size)
  {
    forall count: nat
      ensures AgreesAfter(v, sorted, size, count)
    {
      if count > 0 { ProductGrows(1, count, size); }
    }
  }

  lemma {:induction false} ThroughoutMeansBoundaries<T>(v: View, sorted: seq<Row<T>>, size: nat)
    requires AgreesThroughout(v, Slots(sorted))
    ensures BoundariesAgree(v, sorted, size)
  {
    forall count: nat
      ensures AgreesAfter(v, sorted, size, count)
    {
      var done := Product(count, size);
      if 0 < done < |sorted| { SlotIsIn(sorted, sorted[done - 1]); }
    }
  }

  lemma {:induction false} AgreementNeedsNullsAlike<T>(v: View, sorted: seq<Row<T>>, size: nat)
    requires BoundariesAgree(v, sorted, size) && 1 <= size < |sorted|
    ensures NullsAlike(v, Slots(sorted))
  {
    var boundary := Slot(sorted[size - 1]);
    assert AgreesAfter(v, sorted, size, 1) && Product(1, size) == Product(0, size) + size == size;
    forall p, q | p in Slots(sorted) && q in Slots(sorted)
      ensures NullsAgree(v, p, q)
    {
      assert PlacesAgree(v, p, boundary) && PlacesAgree(v, q, boundary);
    }
  }

  /**
   * Where collation and code units agree on ids, a whole walk shows the sorted list if and only if
   * one page holds it, nulls sort last, or the keys are alike in nullness.
   */
  lemma {:induction false} NullsDecide<T(!new)>(v: View, fetch: Fetch<T>, fetches: seq<Fetch<T>>, pages: seq<Page<T>>)
    requires Sortable(v, Slots(fetch.rows)) && Readable(v, Slots(fetch.rows)) && DistinctIds(fetch.rows)
    requires TiesAgree(v, Slots(fetch.rows)) && IsWholeWalk(v, fetch, fetches, pages)
    ensures AllItems(pages) == Sorted(v, fetch.rows) <==>
            |fetch.rows| <= PageSizeResolve(fetch.pageSize) || NullsAlike(v, Slots(fetch.rows))
  {
    var size, sorted := PageSizeResolve(fetch.pageSize), Sorted(v, fetch.rows);
    WalkIsRightExactly(v, fetch, fetches, pages);
    SortedFacts(v, Slots(fetch.rows), fetch.rows);
    if |sorted| <= size {
      OnePageHasNoBoundary(v, sorted, size);
    } else if NullsAlike(v, Slots(sorted)) {
      AgreesThroughoutExactly(v, Slots(sorted));
      ThroughoutMeansBoundaries(v, sorted, size);
    } else if BoundariesAgree(v, sorted, size) {
      AgreementNeedsNullsAlike(v, sorted, size);
    }
  }

  /** Nulls first, and the first page ends on a null: no row with a sort value is ever shown. */
  lemma {:induction false} NullBoundaryLosesRows<T(!new)>(
    v: View, fetch: Fetch<T>, fetches: seq<Fetch<T>>, pages: seq<Page<T>>, size: nat, sorted: seq<Row<T>>, p: Payload
  )
    requires Sortable(v, Slots(fetch.rows)) && Readable(v, Slots(fetch.rows)) && DistinctIds(fetch.rows) && !v.nullsLast
    requires size == PageSizeResolve(fetch.pageSize) && sorted == Sorted(v, fetch.rows) && size < |sorted|
    requires IsWholeWalk(v, fetch, fetches, pages) && sorted[size - 1].key.KNull?
    requires p in Slots(fetch.rows) && !p.k.KNull?
    ensures p !in Slots(AllItems(pages))
  {
    NullsDisagree(v, p, Slot(sorted[size - 1]));
    BoundaryLoses(v, fetch, fetches, pages, size, sorted, p);
  }

  lemma {:induction false} NullsDisagree(v: View, p: Payload, cursor: Payload)
    requires !v.nullsLast && p.k.KNull? != cursor.k.KNull?
    ensures !PlacesAgree(v, p, cursor) && (cursor.k.KNull? ==> Before(v, cursor, p))
  {
  }

  /** Nulls first, and the first page goes from a null to a sort value: the second page begins with the same row. */
  lemma {:induction false} ValueBoundaryRepeatsRows<T(!new)>(
    v: View, fetch: Fetch<T>, fetches: seq<Fetch<T>>, pages: seq<Page<T>>, size: nat, sorted: seq<Row<T>>
  )
    requires Sortable(v, Slots(fetch.rows)) && Readable(v, Slots(fetch.rows)) && DistinctIds(fetch.rows) && !v.nullsLast
    requires size == PageSizeResolve(fetch.pageSize) && sorted == Sorted(v, fetch.rows) && size < |sorted|
    requires IsWholeWalk(v, fetch, fetches, pages) && sorted[0].key.KNull? && !sorted[size - 1].key.KNull?
    ensures |pages| > 1 && pages[0].items != [] && pages[1].items != [] && pages[1].items[0] == pages[0].items[0]
  {
    NullsDisagree(v, Slot(sorted[0]), Slot(sorted[size - 1]));
    BoundaryRepeats(v, fetch, fetches, pages, size, sorted, 0);
  }

  // ------------------------------------------------------------------ two rows

  lemma {:induction false} SortedPair<T>(v: View, a: Row<T>, b: Row<T>)
    requires RowsCompare(v, Slot(a), Slot(b)) <= 0.0
    ensures Sorted(v, [a, b]) == [a, b] && Slots([a, b]) == {Slot(a), Slot(b)}
  {
    assert [a, b][..1] == [a] && [a][..0] == [];
    assert Sorted(v, [a]) == [a];
    assert [a, b][0] == a && [a, b][1] == b;
  }

  lemma {:induction false} PairResumes<T>(v: View, a: Row<T>, b: Row<T>)
    requires IsCollation(v.compare) && IsAfterCursor(v, Slot(b), Slot(a))
    ensures BoundariesResume(v, [a, b], 1)
  {
    NotAfterItself(v, Slot(a));
    forall count: nat
      ensures ResumesAfter(v, [a, b], 1, count)
    {
      if count >= 2 { ProductGrows(2, count, 1); }
    }
  }

  /** Two rows in sorted order, one a page: the second is shown if and only if it resumes after the first. */
  lemma {:induction false} TwoRowsResume<T(!new)>(
    v: View, a: Row<T>, b: Row<T>, fetch: Fetch<T>, fetches: seq<Fetch<T>>, pages: seq<Page<T>>
  )
    requires Comparable(v, {Slot(a), Slot(b)}) && Readable(v, {Slot(a), Slot(b)}) && a.id != b.id
    requires RowsCompare(v, Slot(a), Slot(b)) <= 0.0 && fetch == Fetch([a, b], Some(1.0))
    requires IsWholeWalk(v, fetch, fetches, pages)
    ensures Slot(b) in Slots(AllItems(pages)) <==> IsAfterCursor(v, Slot(b), Slot(a))
  {
    SortedPair(v, a, b);
    if IsAfterCursor(v, Slot(b), Slot(a)) {
      PairResumes(v, a, b);
      WalkResumesExactly(v, fetch, fetches, pages);
    } else {
      UnresumedIsLost(v, fetch, fetches, pages, 1, [a, b], 1);
    }
  }

  /** In terms of the sort order: it is shown if and only if the two places agree. */
  lemma {:induction false} TwoRowsExactly<T(!new)>(
    v: View, a: Row<T>, b: Row<T>, fetch: Fetch<T>, fetches: seq<Fetch<T>>, pages: seq<Page<T>>
  )
    requires Comparable(v, {Slot(a), Slot(b)}) && Readable(v, {Slot(a), Slot(b)}) && a.id != b.id
    requires Before(v, Slot(a), Slot(b)) && fetch == Fetch([a, b], Some(1.0)) && IsWholeWalk(v, fetch, fetches, pages)
    ensures Slot(b) in Slots(AllItems(pages)) <==> PlacesAgree(v, Slot(b), Slot(a))
  {
    TwoRowsResume(v, a, b, fetch, fetches, pages);
    ResumeAgreesExactly(v, Slot(b), Slot(a));
  }

  /**
   * Keys that tie and ids that the collation calls equal, as it does canonically equivalent texts:
   * the stable sort keeps the rows as listed, and the second is shown if and only if its code units
   * come second too. So of the two ways to list them exactly one loses a row.
   */
  lemma {:induction false} EqualIdsExactly<T(!new)>(
    v: View, a: Row<T>, b: Row<T>, fetch: Fetch<T>, fetches: seq<Fetch<T>>, pages: seq<Page<T>>
  )
    requires Comparable(v, {Slot(a), Slot(b)}) && Readable(v, {Slot(a), Slot(b)}) && a.id != b.id
    requires KeysTie(v, a.key, b.key) && v.compare(a.id, b.id) == 0
    requires fetch == Fetch([a, b], Some(1.0)) && IsWholeWalk(v, fetch, fetches, pages)
    ensures Slot(b) in Slots(AllItems(pages)) <==> UnitsInOrder(v, a.id, b.id)
    ensures UnitsInOrder(v, a.id, b.id) <==> !UnitsInOrder(v, b.id, a.id)
  {
    TwoRowsResume(v, a, b, fetch, fetches, pages);
    SortValueCompareFlips(v, a.key, b.key);
    UnitsOrder(a.id, b.id);
  }

  // ----------------------------------------------------------- exactly when complete

  /** Every finished walk over lists within these places, however they change, shows each row that stays exactly once. */
  ghost predicate AlwaysComplete<T(!new)>(v: View, slots: set<Payload>) {
    forall fetches: seq<Fetch<T>>, pages, p |
        WithinSlots(fetches, slots) && DistinctThroughout(fetches) && IsTraversal(v, fetches, pages)
        && IsFinished(pages) && StaysThroughout(fetches, p) ::
      ShownOnce(AllItems(pages), p)
  }

  ghost predicate IdsTellApart(slots: set<Payload>) {
    forall p, q | p in slots && q in slots && p.id == q.id :: p == q
  }

  lemma {:induction false} DisagreementGoesBothWays(v: View, slots: set<Payload>, p: Payload, q: Payload)
    requires Sortable(v, slots) && p in slots && q in slots && p.id != q.id
    ensures PlacesAgree(v, p, q) <==> PlacesAgree(v, q, p)
  {
    SortValueCompareFlips(v, p.k, q.k);
    UnitsOrder(p.id, q.id);
    if KeysTie(v, p.k, q.k) {
      assert v.compare(p.id, q.id) < 0 <==> 0 < v.compare(q.id, p.id);
      assert v.compare(q.id, p.id) < 0 <==> 0 < v.compare(p.id, q.id);
      assert v.compare(p.id, q.id) != 0 && v.compare(q.id, p.id) != 0;
    }
  }

  /** Two places that disagree make a list of two rows whose walk loses the second. */
  lemma {:induction false} DisagreementLoses<T(!new)>(v: View, slots: set<Payload>, p: Payload, q: Payload, item: T)
      returns (fetches: seq<Fetch<T>>, pages: seq<Page<T>>)
    requires Sortable(v, slots) && Readable(v, slots) && p in slots && q in slots && p.id != q.id
    requires Before(v, p, q) && !PlacesAgree(v, q, p)
    ensures WithinSlots(fetches, slots) && DistinctThroughout(fetches) && IsTraversal(v, fetches, pages)
    ensures IsFinished(pages) && StaysThroughout(fetches, q) && q !in Slots(AllItems(pages))
  {
    var a, b := Row(p.id, p.k, item), Row(q.id, q.k, item);
    var fetch := Fetch([a, b], Some(1.0));
    SortedPair(v, a, b);
    fetches, pages := SomeWholeWalk(v, fetch);
    TwoRowsExactly(v, a, b, fetch, fetches, pages);
    StillWithin(fetches, fetch);
    StillStays(fetches, fetch, q);
  }

  lemma {:induction false} SomeWholeWalk<T(!new)>(v: View, fetch: Fetch<T>) returns (fetches: seq<Fetch<T>>, pages: seq<Page<T>>)
    requires Comparable(v, Slots(fetch.rows)) && Readable(v, Slots(fetch.rows))
    ensures IsWholeWalk(v, fetch, fetches, pages)
  {
    WalkEnds(v, fetch, [], []);
    fetches, pages :| IsWholeWalk(v, fetch, fetches, pages) && [] <= pages;
  }

  lemma {:induction false} StillStays<T>(fetches: seq<Fetch<T>>, fetch: Fetch<T>, p: Payload)
    requires StandsStill(fetches, fetch) && p in Slots(fetch.rows)
    ensures StaysThroughout(fetches, p)
  {
  }

  /** Over changing lists: every finished walk is complete if and only if resuming agrees with the sort order on all places. */
  lemma {:induction false} WalksAreCompleteExactly<T(!new)>(v: View, slots: set<Payload>, item: T)
    requires Sortable(v, slots) && Readable(v, slots) && IdsTellApart(slots)
    ensures AlwaysComplete<T>(v, slots) <==> AgreesThroughout(v, slots)
  {
    if AgreesThroughout(v, slots) {
      forall fetches: seq<Fetch<T>>, pages, p |
          WithinSlots(fetches, slots) && DistinctThroughout(fetches) && IsTraversal(v, fetches, pages)
          && IsFinished(pages) && StaysThroughout(fetches, p)
        ensures ShownOnce(AllItems(pages), p)
      {
        FinishedWalkIsComplete(v, slots, fetches, pages, p);
      }
    } else {
      var p, q := SomeDisagree(v, slots);
      var fetches: seq<Fetch<T>>, pages := DisagreementLoses(v, slots, p, q, item);
      assert !ShownOnce(AllItems(pages), q);
    }
  }

  lemma {:induction false} SomeDisagree(v: View, slots: set<Payload>) returns (p: Payload, q: Payload)
    requires Sortable(v, slots) && IdsTellApart(slots) && !AgreesThroughout(v, slots)
    ensures p in slots && q in slots && p.id != q.id && Before(v, p, q) && !PlacesAgree(v, q, p)
  {
    p :| p in slots && !AgreesAt(v, slots, p);
    q :| q in slots && !PlacesAgree(v, q, p);
    assert p != q by { if p == q { AgreesWithItself(v, p); } }
    BeforeIsStrict(v, slots, p, q);
    DisagreementGoesBothWays(v, slots, p, q);
    if !Before(v, p, q) { p, q := q, p; }
  }

  lemma {:induction false} AgreesWithItself(v: View, p: Payload)
    ensures PlacesAgree(v, p, p)
  {
  }

  /** Numbers, ids by code units, nulls first. */
  const NULLS_FIRST := View(UnitsCompare, INTEGERS, false, false)

  /** A null and a number, one a page: the row with the number is lost. */
  lemma {:induction false} NullHidesNumber<T(!new)>(item: T) returns (fetches: seq<Fetch<T>>, pages: seq<Page<T>>)
    ensures var a, b := Row(LOWER_A, KNull, item), Row(UPPER_B, KNum(1.0), item);
            IsWholeWalk(NULLS_FIRST, Fetch([a, b], Some(1.0)), fetches, pages) && Slot(b) !in Slots(AllItems(pages))
  {
    var v, a, b := NULLS_FIRST, Row(LOWER_A, KNull, item), Row(UPPER_B, KNum(1.0), item);
    var fetch := Fetch([a, b], Some(1.0));
    UnitsCompareIsCollation();
    IntegersReadBack(1);
    NullsDisagree(v, Slot(b), Slot(a));
    SortedPair(v, a, b);
    fetches, pages := SomeWholeWalk(v, fetch);
    assert LOWER_A[0] == 0x61 && UPPER_B[0] == 0x42;
    TwoRowsExactly(v, a, b, fetch, fetches, pages);
  }

  const LOWER_A: JsString := [0x61]
  const UPPER_B: JsString := [0x42]

  /** A dictionary order that puts "a" before "B" loses the row "B" of two rows with equal keys. */
  lemma {:induction false} MixedCaseRowIsLost<T(!new)>(
    v: View, a: Row<T>, b: Row<T>, fetch: Fetch<T>, fetches: seq<Fetch<T>>, pages: seq<Page<T>>
  )
    requires IsCollation(v.compare) && v.compare(LOWER_A, UPPER_B) < 0 && !v.descending
    requires a.id == LOWER_A && b.id == UPPER_B && a.key == b.key && KeyReadsBack(v.number, a.key)
    requires fetch == Fetch([a, b], Some(1.0)) && IsWholeWalk(v, fetch, fetches, pages)
    ensures Slot(b) !in Slots(AllItems(pages))
  {
    SortValueCompareFlips(v, a.key, a.key);
    assert v.compare(UPPER_B, LOWER_A) < 0 <==> 0 < v.compare(LOWER_A, UPPER_B);
    assert v.compare(LOWER_A, UPPER_B) < 0 <==> 0 < v.compare(UPPER_B, LOWER_A);
    assert LOWER_A[0] == 0x61 && UPPER_B[0] == 0x42;
    TwoRowsExactly(v, a, b, fetch, fetches, pages);
  }
}
