/**
 * Walking a list that stands still: exactly when its pages concatenate to the sorted
 * list, in how many fetches, and why every walk comes to an end.
 */
module ListStill {
  import opened Wrappers
  import opened ListCursor
  import opened ListPage
  import opened ListOrder
  import opened ListWalk

  /** Every fetch is of the same rows with the same page size. */
  predicate StandsStill<T(==)>(fetches: seq<Fetch<T>>, fetch: Fetch<T>) {
    forall i | 0 <= i < |fetches| :: fetches[i] == fetch
  }

  lemma {:induction false} StillWithin<T>(fetches: seq<Fetch<T>>, fetch: Fetch<T>)
    requires StandsStill(fetches, fetch)
    ensures WithinSlots(fetches, Slots(fetch.rows))
    ensures DistinctIds(fetch.rows) ==> DistinctThroughout(fetches)
  {
  }

  /** What is left of a walk when its fetches are all the same: pages cut from one sorted list. */
  predicate CutsThrough<T(==)>(v: View, sorted: seq<Row<T>>, size: nat, pages: seq<Page<T>>) {
    pages == [] ||
    var n := |pages| - 1;
    && CutsThrough(v, sorted, size, pages[..n]) && Continues(pages[..n])
    && IsCut(Left(v, sorted, Place(pages[..n])), size, pages[n])
  }

  lemma {:induction false} StillCutsThrough<T>(v: View, fetch: Fetch<T>, fetches: seq<Fetch<T>>, pages: seq<Page<T>>)
    requires StandsStill(fetches, fetch) && Walks(v, fetches, pages)
    ensures CutsThrough(v, Sorted(v, fetch.rows), PageSizeResolve(fetch.pageSize), pages)
    decreases |pages|
  {
    if pages != [] {
      var n := |pages| - 1;
      LastCut(v, fetches, pages);
      assert fetches[n] == fetch;
      StillCutsThrough(v, fetch, fetches[..n], pages[..n]);
    }
  }

  lemma {:induction false} LastCutThrough<T>(v: View, sorted: seq<Row<T>>, size: nat, pages: seq<Page<T>>)
    requires CutsThrough(v, sorted, size, pages) && pages != [] && 1 <= size
    ensures var n := |pages| - 1;
      && CutsThrough(v, sorted, size, pages[..n]) && Continues(pages[..n])
      && IsCut(Left(v, sorted, Place(pages[..n])), size, pages[n])
      && AllItems(pages) == AllItems(pages[..n]) + pages[n].items
      && (Continues(pages) ==> Place(pages) == LastSlot(AllItems(pages)))
  {
  }

  // ---------------------------------------------------------------- counting rows

  /** `count` times `size`, counted up. */
  function Product(count: nat, size: nat): nat {
    if count == 0 then 0 else Product(count - 1, size) + size
  }

  lemma {:induction false} ProductIsProduct(count: nat, size: nat)
    ensures Product(count, size) == count * size
  {
    if count > 0 {
      ProductIsProduct(count - 1, size);
      assert count * size == (count - 1) * size + size;
    }
  }

  /** How many of `length` rows `count` pages of `size` reach. */
  function Reach(count: nat, size: nat, length: nat): (n: nat)
    ensures n <= length
  {
    if Product(count, size) < length then Product(count, size) else length
  }

  /** `count` pages of `size` rows of a list of `length`: they go on exactly while rows are left. */
  predicate CountedOut(continues: bool, count: nat, size: nat, length: nat) {
    (continues <==> count == 0 || Product(count, size) < length) && (count > 1 ==> Product(count - 1, size) < length)
  }

  lemma {:induction false} Counts(count: nat, size: nat, length: nat)
    requires CountedOut(true, count, size, length)
    ensures Product(count, size) <= length && Reach(count, size, length) == Product(count, size)
    ensures Reach(count + 1, size, length) == var next := Product(count, size) + size; if next < length then next else length
    ensures CountedOut(Product(count, size) + size < length, count + 1, size, length)
  {
  }

  lemma {:induction false} ProductGrows(less: nat, more: nat, size: nat)
    requires less <= more
    ensures Product(less, size) <= Product(more, size)
    decreases more
  {
    if less < more { ProductGrows(less, more - 1, size); }
  }

  // --------------------------------------------- resuming at the page boundaries

  /** What resumes after the first `done` rows is what is listed after them. */
  ghost predicate ResumesAt<T>(v: View, sorted: seq<Row<T>>, done: nat)
    requires 0 < done <= |sorted|
  {
    forall i | 0 <= i < |sorted| :: IsAfterCursor(v, Slot(sorted[i]), Slot(sorted[done - 1])) <==> done <= i
  }

  /** It is so after `count` full pages that are not all. */
  ghost predicate ResumesAfter<T>(v: View, sorted: seq<Row<T>>, size: nat, count: nat) {
    var done := Product(count, size);
    0 < done < |sorted| ==> ResumesAt(v, sorted, done)
  }

  /** At every page boundary of the sorted list exactly the later rows resume. */
  ghost predicate BoundariesResume<T>(v: View, sorted: seq<Row<T>>, size: nat) {
    forall count: nat :: ResumesAfter(v, sorted, size, count)
  }

  lemma {:induction false} DropSnoc<T>(rows: seq<Row<T>>, done: nat)
    requires done < |rows|
    ensures rows[done..] == rows[..|rows| - 1][done..] + [rows[|rows| - 1]]
  {
  }

  lemma {:induction false} AfterCursorByIndex<T>(v: View, rows: seq<Row<T>>, cursor: Payload, done: nat)
    requires forall i | 0 <= i < |rows| :: IsAfterCursor(v, Slot(rows[i]), cursor) <==> done <= i
    ensures |rows| <= done ==> AfterCursor(v, rows, cursor) == []
    ensures done <= |rows| ==> AfterCursor(v, rows, cursor) == rows[done..]
  {
    if rows != [] {
      var n := |rows| - 1;
      AfterCursorByIndex(v, rows[..n], cursor, done);
      if done <= n {
        assert IsAfterCursor(v, Slot(rows[n]), cursor);
        DropSnoc(rows, done);
      }
    }
  }

  lemma {:induction false} NoneResumes<T>(v: View, rows: seq<Row<T>>, cursor: Payload, k: nat)
    requires AfterCursor(v, rows, cursor) == [] && k < |rows|
    ensures !IsAfterCursor(v, Slot(rows[k]), cursor)
  {
    if k < |rows| - 1 { NoneResumes(v, rows[..|rows| - 1], cursor, k); }
  }

  /** The first row that a cursor leaves is no later than any that resumes. */
  lemma {:induction false} FirstThatResumes<T>(v: View, rows: seq<Row<T>>, cursor: Payload, i: nat) returns (j: nat)
    requires i < |rows| && IsAfterCursor(v, Slot(rows[i]), cursor)
    ensures j <= i && AfterCursor(v, rows, cursor) != [] && AfterCursor(v, rows, cursor)[0] == rows[j]
  {
    if AfterCursor(v, rows, cursor) == [] { NoneResumes(v, rows, cursor, i); }
    j := FirstKept(v, rows, cursor);
    if j > i { NoneResumes(v, rows[..j], cursor, i); }
  }

  lemma {:induction false} FirstKept<T>(v: View, rows: seq<Row<T>>, cursor: Payload) returns (j: nat)
    requires AfterCursor(v, rows, cursor) != []
    ensures j < |rows| && AfterCursor(v, rows, cursor)[0] == rows[j] && AfterCursor(v, rows[..j], cursor) == []
  {
    var n := |rows| - 1;
    j := n;
    if AfterCursor(v, rows[..n], cursor) != [] {
      j := FirstKept(v, rows[..n], cursor);
      assert rows[..n][..j] == rows[..j];
    }
  }

  lemma {:induction false} InsertDistinct<T(!new)>(v: View, sorted: seq<Row<T>>, row: Row<T>)
    requires DistinctIds(sorted) && forall r | r in sorted :: r.id != row.id
    ensures DistinctIds(Insert(v, sorted, row))
  {
    if sorted != [] && RowsCompare(v, Slot(sorted[|sorted| - 1]), Slot(row)) > 0.0 {
      var n := |sorted| - 1;
      var all := Insert(v, sorted[..n], row);
      InsertDistinct(v, sorted[..n], row);
      forall i | 0 <= i < n + 1
        ensures all[i].id != sorted[n].id
      {
        InsertMember(v, sorted[..n], row, all[i]);
        assert all[i] in all;
      }
    }
  }

  /** Sorting keeps ids distinct, whatever the comparator does. */
  lemma {:induction false} SortedDistinct<T(!new)>(v: View, rows: seq<Row<T>>)
    requires DistinctIds(rows)
    ensures DistinctIds(Sorted(v, rows))
  {
    if rows != [] {
      var n := |rows| - 1;
      SortedDistinct(v, rows[..n]);
      forall r | r in Sorted(v, rows[..n])
        ensures r.id != rows[n].id
      {
        SortedMember(v, rows[..n], r);
        var i :| 0 <= i < n && rows[..n][i] == r;
      }
      InsertDistinct(v, Sorted(v, rows[..n]), rows[n]);
    }
  }

  // ------------------------------------------------- that gives the sorted list

  /** The pages so far are the first pages' worth of the sorted list, and go on exactly while rows are left. */
  ghost predicate IsPrefix<T>(sorted: seq<Row<T>>, size: nat, pages: seq<Page<T>>) {
    && AllItems(pages) == sorted[..Reach(|pages|, size, |sorted|)]
    && CountedOut(Continues(pages), |pages|, size, |sorted|)
  }

  /** After the first `done` rows of the sorted list come the rest of it. */
  lemma {:induction false} LeftIsRest<T>(v: View, sorted: seq<Row<T>>, done: nat, place: Option<Payload>)
    requires done <= |sorted| && place == LastSlot(sorted[..done]) && (done > 0 ==> ResumesAt(v, sorted, done))
    ensures Left(v, sorted, place) == sorted[done..]
  {
    if done > 0 {
      assert place == Some(Slot(sorted[done - 1]));
      AfterCursorByIndex(v, sorted, Slot(sorted[done - 1]), done);
    } else {
      assert sorted[..done] == [] && sorted[done..] == sorted;
    }
  }

  lemma {:induction false} CutAfter<T>(
    sorted: seq<Row<T>>, done: nat, size: nat, next: nat, before: seq<Row<T>>, page: Page<T>
  )
    requires done <= |sorted| && before == sorted[..done] && IsCut(sorted[done..], size, page)
    requires next == if done + size < |sorted| then done + size else |sorted|
    ensures before + page.items == sorted[..next] && (page.nextPageToken.Some? <==> done + size < |sorted|)
  {
  }

  /** One more page, cut from the rest of the sorted list. */
  lemma {:induction false} PageKeepsPrefix<T>(
    sorted: seq<Row<T>>, size: nat, before: seq<Page<T>>, page: Page<T>, pages: seq<Page<T>>, done: nat, rest: seq<Row<T>>
  )
    requires Continues(before) && IsPrefix(sorted, size, before)
    requires done == Product(|before|, size) && done <= |sorted| && rest == sorted[done..] && IsCut(rest, size, page)
    requires |pages| == |before| + 1 && pages[|before|] == page && AllItems(pages) == AllItems(before) + page.items
    ensures IsPrefix(sorted, size, pages)
  {
    Counts(|before|, size, |sorted|);
    CutAfter(sorted, done, size, Reach(|before| + 1, size, |sorted|), AllItems(before), page);
  }

  lemma {:induction false} PrefixSoFar<T>(sorted: seq<Row<T>>, size: nat, pages: seq<Page<T>>, done: nat)
    requires IsPrefix(sorted, size, pages) && Continues(pages) && done == Product(|pages|, size)
    ensures (done == 0 || done < |sorted|) && AllItems(pages) == sorted[..done]
  {
    Counts(|pages|, size, |sorted|);
  }

  lemma {:induction false} NextCutIsRest<T>(
    v: View, sorted: seq<Row<T>>, size: nat, before: seq<Page<T>>, page: Page<T>, done: nat
  )
    requires ResumesAfter(v, sorted, size, |before|)
    requires IsPrefix(sorted, size, before) && Continues(before) && Place(before) == LastSlot(AllItems(before))
    requires done == Product(|before|, size) && IsCut(Left(v, sorted, Place(before)), size, page)
    ensures done <= |sorted| && IsCut(sorted[done..], size, page)
  {
    PrefixSoFar(sorted, size, before, done);
    assert Place(before) == LastSlot(sorted[..done]);
    LeftIsRest(v, sorted, done, Place(before));
  }

  lemma {:induction false} PagesArePrefix<T>(v: View, sorted: seq<Row<T>>, size: nat, pages: seq<Page<T>>)
    requires 1 <= size && BoundariesResume(v, sorted, size) && CutsThrough(v, sorted, size, pages)
    ensures IsPrefix(sorted, size, pages)
    ensures Continues(pages) ==> Place(pages) == LastSlot(AllItems(pages))
    decreases |pages|
  {
    if pages != [] {
      var n := |pages| - 1;
      var before, done := pages[..n], Product(n, size);
      LastCutThrough(v, sorted, size, pages);
      PagesArePrefix(v, sorted, size, before);
      assert ResumesAfter(v, sorted, size, n);
      NextCutIsRest(v, sorted, size, before, pages[n], done);
      PageKeepsPrefix(sorted, size, before, pages[n], pages, done, sorted[done..]);
    }
  }

  // ------------------------------------------- the sorted list needs it

  /** All pages but the last are full. */
  lemma {:induction false} PagesAreFull<T>(v: View, sorted: seq<Row<T>>, size: nat, pages: seq<Page<T>>)
    requires CutsThrough(v, sorted, size, pages) && 1 <= size
    ensures Continues(pages) ==> |AllItems(pages)| == Product(|pages|, size)
    ensures |AllItems(pages)| <= Product(|pages|, size)
    decreases |pages|
  {
    if pages != [] {
      var n := |pages| - 1;
      var before, page := pages[..n], pages[n];
      LastCutThrough(v, sorted, size, pages);
      PagesAreFull(v, sorted, size, before);
      CutSize(Left(v, sorted, Place(before)), size, page);
      assert Continues(pages) <==> page.nextPageToken.Some?;
      assert |AllItems(pages)| == |AllItems(before)| + |page.items| && Product(n + 1, size) == Product(n, size) + size;
    }
  }

  lemma {:induction false} CutSize<T>(all: seq<Row<T>>, size: nat, page: Page<T>)
    requires IsCut(all, size, page)
    ensures |page.items| <= size && (page.nextPageToken.Some? ==> |page.items| == size)
  {
  }

  /** A page that begins right after a boundary was cut from rows none of which is listed before it. */
  lemma {:induction false} NothingBeforeIsResumed<T>(v: View, sorted: seq<Row<T>>, size: nat, page: Page<T>, done: nat, i: nat)
    requires DistinctIds(sorted) && 1 <= size
    requires i < done < |sorted| && IsCut(AfterCursor(v, sorted, Slot(sorted[done - 1])), size, page)
    requires page.items != [] ==> page.items[0] == sorted[done]
    ensures !IsAfterCursor(v, Slot(sorted[i]), Slot(sorted[done - 1]))
  {
    if IsAfterCursor(v, Slot(sorted[i]), Slot(sorted[done - 1])) {
      var j := FirstThatResumes(v, sorted, Slot(sorted[done - 1]), i);
      assert false;
    }
  }

  /** Facts of a walk that shows the sorted list, cut after its first `count` pages. */
  lemma {:induction false} SplitAtBoundary<T(!new)>(
    v: View, fetch: Fetch<T>, fetches: seq<Fetch<T>>, pages: seq<Page<T>>, count: nat, sorted: seq<Row<T>>, done: nat
  )
    requires StandsStill(fetches, fetch) && Walks(v, fetches, pages) && AllItems(pages) == sorted
    requires done == Product(count, PageSizeResolve(fetch.pageSize)) && 0 < done < |sorted|
    ensures count < |pages| && ItemsFrom(pages, count) == sorted[done..]
    ensures Walks(v, fetches[..count], pages[..count]) && Place(pages[..count]) == Some(Slot(sorted[done - 1]))
  {
    var size := PageSizeResolve(fetch.pageSize);
    StillCutsThrough(v, fetch, fetches, pages);
    PagesAreFull(v, Sorted(v, fetch.rows), size, pages);
    if count >= |pages| { ProductGrows(|pages|, count, size); }
    var first := pages[..count];
    WalkPrefix(v, fetches, pages, fetches[..count], first);
    StillCutsThrough(v, fetch, fetches[..count], first);
    PagesAreFull(v, Sorted(v, fetch.rows), size, first);
    PlaceIsLast(v, fetches[..count], first);
    ItemsSplit(pages, count);
    assert sorted[..done] == AllItems(first);
  }

  lemma {:induction false} RestBeginsWithPage<T>(pages: seq<Page<T>>, count: nat)
    requires count < |pages|
    ensures pages[count].items <= ItemsFrom(pages, count)
    decreases |pages|
  {
    var front := pages[..|pages| - 1];
    if count < |front| {
      RestBeginsWithPage(front, count);
    } else {
      assert ItemsFrom(front, count) == [];
    }
  }

  lemma {:induction false} PageCutAt<T>(v: View, fetches: seq<Fetch<T>>, pages: seq<Page<T>>, first: seq<Page<T>>)
    requires Walks(v, fetches, pages) && first <= pages && |first| < |pages|
    ensures var count := |first|;
      IsCut(Fetched(v, fetches[count].rows, Place(first)), PageSizeResolve(fetches[count].pageSize), pages[count])
    decreases |pages|
  {
    var n := |pages| - 1;
    LastCut(v, fetches, pages);
    if |first| == n {
      assert pages[..n] == first;
    } else {
      PageCutAt(v, fetches[..n], pages[..n], first);
    }
  }

  /** No row before a boundary resumes there: the page after it begins with the next row. */
  lemma {:induction false} EarlierIsNotResumed<T(!new)>(
    v: View, fetch: Fetch<T>, fetches: seq<Fetch<T>>, pages: seq<Page<T>>, count: nat, sorted: seq<Row<T>>, done: nat, i: nat
  )
    requires DistinctIds(fetch.rows) && sorted == Sorted(v, fetch.rows)
    requires StandsStill(fetches, fetch) && Walks(v, fetches, pages) && count < |pages|
    requires i < done < |sorted| && ItemsFrom(pages, count) == sorted[done..]
    requires Place(pages[..count]) == Some(Slot(sorted[done - 1]))
    ensures !IsAfterCursor(v, Slot(sorted[i]), Slot(sorted[done - 1]))
  {
    PageCutAt(v, fetches, pages, pages[..count]);
    RestBeginsWithPage(pages, count);
    assert fetches[count] == fetch;
    assert pages[count].items != [] ==> pages[count].items[0] == sorted[done..][0];
    SortedDistinct(v, fetch.rows);
    NothingBeforeIsResumed(v, sorted, PageSizeResolve(fetch.pageSize), pages[count], done, i);
  }

  lemma {:induction false} LaterResumes<T(!new)>(
    v: View, fetch: Fetch<T>, fetches: seq<Fetch<T>>, pages: seq<Page<T>>, count: nat, sorted: seq<Row<T>>, done: nat, i: nat
  )
    requires Comparable(v, Slots(fetch.rows)) && StandsStill(fetches, fetch) && Walks(v, fetches, pages)
    requires 0 < count < |pages| && done <= i < |sorted| && ItemsFrom(pages, count) == sorted[done..]
    ensures Place(pages[..count]).Some? && IsAfterCursor(v, Slot(sorted[i]), Place(pages[..count]).value)
  {
    StillWithin(fetches, fetch);
    assert sorted[done..][i - done] == sorted[i];
    LaterIsResumed(v, Slots(fetch.rows), fetches, pages, pages[..count], sorted[i]);
  }

  lemma {:induction false} RowAgreesAtBoundary<T(!new)>(
    v: View, fetch: Fetch<T>, fetches: seq<Fetch<T>>, pages: seq<Page<T>>, count: nat, sorted: seq<Row<T>>, done: nat, i: nat
  )
    requires Comparable(v, Slots(fetch.rows)) && DistinctIds(fetch.rows) && sorted == Sorted(v, fetch.rows)
    requires StandsStill(fetches, fetch) && Walks(v, fetches, pages) && AllItems(pages) == sorted
    requires done == Product(count, PageSizeResolve(fetch.pageSize)) && 0 < done < |sorted| && i < |sorted|
    ensures IsAfterCursor(v, Slot(sorted[i]), Slot(sorted[done - 1])) <==> done <= i
  {
    SplitAtBoundary(v, fetch, fetches, pages, count, sorted, done);
    if i < done {
      EarlierIsNotResumed(v, fetch, fetches, pages, count, sorted, done, i);
    } else {
      LaterResumes(v, fetch, fetches, pages, count, sorted, done, i);
    }
  }

  ghost predicate IsWholeWalk<T>(v: View, fetch: Fetch<T>, fetches: seq<Fetch<T>>, pages: seq<Page<T>>) {
    StandsStill(fetches, fetch) && IsTraversal(v, fetches, pages) && IsFinished(pages)
  }

  lemma {:induction false} RightResumes<T(!new)>(
    v: View, fetch: Fetch<T>, fetches: seq<Fetch<T>>, pages: seq<Page<T>>, count: nat, sorted: seq<Row<T>>, done: nat
  )
    requires Comparable(v, Slots(fetch.rows)) && DistinctIds(fetch.rows) && sorted == Sorted(v, fetch.rows)
    requires StandsStill(fetches, fetch) && Walks(v, fetches, pages) && AllItems(pages) == sorted
    requires done == Product(count, PageSizeResolve(fetch.pageSize)) && 0 < done < |sorted|
    ensures ResumesAt(v, sorted, done)
  {
    forall i | 0 <= i < |sorted|
      ensures IsAfterCursor(v, Slot(sorted[i]), Slot(sorted[done - 1])) <==> done <= i
    {
      RowAgreesAtBoundary(v, fetch, fetches, pages, count, sorted, done, i);
    }
  }

  lemma {:induction false} RightMeansResumes<T(!new)>(
    v: View, fetch: Fetch<T>, fetches: seq<Fetch<T>>, pages: seq<Page<T>>, size: nat, sorted: seq<Row<T>>
  )
    requires Comparable(v, Slots(fetch.rows)) && DistinctIds(fetch.rows)
    requires StandsStill(fetches, fetch) && Walks(v, fetches, pages)
    requires size == PageSizeResolve(fetch.pageSize) && sorted == Sorted(v, fetch.rows) && AllItems(pages) == sorted
    ensures BoundariesResume(v, sorted, size)
  {
    forall count: nat
      ensures ResumesAfter(v, sorted, size, count)
    {
      var done := Product(count, size);
      if 0 < done < |sorted| { RightResumes(v, fetch, fetches, pages, count, sorted, done); }
    }
  }

  /**
   * A whole walk over a list that stands still shows exactly the sorted list if and only if, at
   * each page boundary, exactly the rows listed later resume. The sort is stable, so this covers
   * ids that the collation calls equal too.
   */
  lemma {:induction false} WalkResumesExactly<T(!new)>(v: View, fetch: Fetch<T>, fetches: seq<Fetch<T>>, pages: seq<Page<T>>)
    requires Comparable(v, Slots(fetch.rows)) && Readable(v, Slots(fetch.rows)) && DistinctIds(fetch.rows)
    requires IsWholeWalk(v, fetch, fetches, pages)
    ensures AllItems(pages) == Sorted(v, fetch.rows) <==> BoundariesResume(v, Sorted(v, fetch.rows), PageSizeResolve(fetch.pageSize))
  {
    var size, sorted := PageSizeResolve(fetch.pageSize), Sorted(v, fetch.rows);
    StillWithin(fetches, fetch);
    TraversalWalks(v, Slots(fetch.rows), fetches, pages);
    if AllItems(pages) == sorted { RightMeansResumes(v, fetch, fetches, pages, size, sorted); }
    if BoundariesResume(v, sorted, size) {
      StillCutsThrough(v, fetch, fetches, pages);
      PagesArePrefix(v, sorted, size, pages);
    }
  }

  /** Where it does, `n` rows take `max(1, ceil(n / size))` fetches. */
  lemma {:induction false} WalkLength<T(!new)>(v: View, fetch: Fetch<T>, fetches: seq<Fetch<T>>, pages: seq<Page<T>>)
    requires Readable(v, Slots(fetch.rows)) && IsWholeWalk(v, fetch, fetches, pages)
    requires BoundariesResume(v, Sorted(v, fetch.rows), PageSizeResolve(fetch.pageSize))
    ensures |fetch.rows| <= |pages| * PageSizeResolve(fetch.pageSize)
    ensures |pages| > 1 ==> (|pages| - 1) * PageSizeResolve(fetch.pageSize) < |fetch.rows|
  {
    var size := PageSizeResolve(fetch.pageSize);
    StillWithin(fetches, fetch);
    TraversalWalks(v, Slots(fetch.rows), fetches, pages);
    StillCutsThrough(v, fetch, fetches, pages);
    PagesArePrefix(v, Sorted(v, fetch.rows), size, pages);
    SortedLength(v, fetch.rows);
    ProductIsProduct(|pages|, size);
    if |pages| > 1 { ProductIsProduct(|pages| - 1, size); }
  }

  // --------------------------------------------- in terms of the sort order

  /** After the last of `count` full pages that are not all, resuming agrees with the sort order on every row. */
  ghost predicate AgreesAfter<T>(v: View, sorted: seq<Row<T>>, size: nat, count: nat) {
    var done := Product(count, size);
    0 < done < |sorted| ==> AgreesAt(v, Slots(sorted), Slot(sorted[done - 1]))
  }

  /** It does so at every page boundary of the sorted list. */
  ghost predicate BoundariesAgree<T>(v: View, sorted: seq<Row<T>>, size: nat) {
    forall count: nat :: AgreesAfter(v, sorted, size, count)
  }

  lemma {:induction false} BeforeByIndex<T>(v: View, slots: set<Payload>, sorted: seq<Row<T>>, i: nat, j: nat)
    requires Sortable(v, slots) && Slots(sorted) <= slots && Increasing(v, sorted) && i < |sorted| && j < |sorted|
    ensures Before(v, Slot(sorted[i]), Slot(sorted[j])) <==> i < j
  {
    SlotIsIn(sorted, sorted[i]);
    SlotIsIn(sorted, sorted[j]);
    BeforeIsStrict(v, slots, Slot(sorted[i]), Slot(sorted[j]));
    BeforeIsStrict(v, slots, Slot(sorted[j]), Slot(sorted[i]));
  }

  lemma {:induction false} AgreesByIndex<T>(v: View, slots: set<Payload>, sorted: seq<Row<T>>, size: nat, count: nat)
    requires Sortable(v, slots) && Slots(sorted) <= slots && Increasing(v, sorted)
    ensures AgreesAfter(v, sorted, size, count) <==> ResumesAfter(v, sorted, size, count)
  {
    var done := Product(count, size);
    if 0 < done < |sorted| {
      forall i | 0 <= i < |sorted|
        ensures PlacesAgree(v, Slot(sorted[i]), Slot(sorted[done - 1])) <==>
                (IsAfterCursor(v, Slot(sorted[i]), Slot(sorted[done - 1])) <==> done <= i)
        ensures Slot(sorted[i]) in Slots(sorted)
      {
        BeforeByIndex(v, slots, sorted, done - 1, i);
        ResumeAgreesExactly(v, Slot(sorted[i]), Slot(sorted[done - 1]));
      }
    }
  }

  /**
   * Where the collation tells tied ids apart: a whole walk over a list that stands still shows
   * exactly the sorted list if and only if, at each page boundary, resuming agrees with the sort
   * order on every row.
   */
  lemma {:induction false} WalkIsRightExactly<T(!new)>(v: View, fetch: Fetch<T>, fetches: seq<Fetch<T>>, pages: seq<Page<T>>)
    requires Sortable(v, Slots(fetch.rows)) && Readable(v, Slots(fetch.rows)) && DistinctIds(fetch.rows)
    requires IsWholeWalk(v, fetch, fetches, pages)
    ensures AllItems(pages) == Sorted(v, fetch.rows) <==> BoundariesAgree(v, Sorted(v, fetch.rows), PageSizeResolve(fetch.pageSize))
  {
    var size, sorted := PageSizeResolve(fetch.pageSize), Sorted(v, fetch.rows);
    WalkResumesExactly(v, fetch, fetches, pages);
    SortedFacts(v, Slots(fetch.rows), fetch.rows);
    forall count: nat
      ensures AgreesAfter(v, sorted, size, count) <==> ResumesAfter(v, sorted, size, count)
    {
      AgreesByIndex(v, Slots(fetch.rows), sorted, size, count);
    }
  }

  // -------------------------------------------------------------- every walk ends

  /** Past a later cursor there is less left. */
  lemma {:induction false} LessIsLeft<T>(v: View, slots: set<Payload>, rows: seq<Row<T>>, p: Payload, q: Payload)
    requires Comparable(v, slots) && Slots(rows) <= slots && p in slots && q in slots && IsAfterCursor(v, q, p)
    ensures |AfterCursor(v, rows, q)| <= |AfterCursor(v, rows, p)|
    ensures q in Slots(rows) ==> |AfterCursor(v, rows, q)| < |AfterCursor(v, rows, p)|
    decreases |rows|
  {
    if rows != [] {
      var n := |rows| - 1;
      SlotsOfPrefix(rows, n);
      LastRowIsIn(rows);
      LessIsLeft(v, slots, rows[..n], p, q);
      NotAfterItself(v, q);
      if IsAfterCursor(v, Slot(rows[n]), q) { AfterTransitive(v, slots, p, q, Slot(rows[n])); }
      SlotsButLast(rows, q);
    }
  }

  lemma {:induction false} SlotsButLast<T>(rows: seq<Row<T>>, q: Payload)
    requires rows != []
    ensures q in Slots(rows) <==> q in Slots(rows[..|rows| - 1]) || q == Slot(rows[|rows| - 1])
  {
    assert rows == rows[..|rows| - 1] + [rows[|rows| - 1]];
    SlotsOfBoth(rows[..|rows| - 1], [rows[|rows| - 1]]);
  }

  lemma {:induction false} LessThanAll<T>(v: View, rows: seq<Row<T>>, q: Payload)
    requires IsCollation(v.compare) && q in Slots(rows)
    ensures |AfterCursor(v, rows, q)| < |rows|
    decreases |rows|
  {
    NotAfterItself(v, q);
    SlotsButLast(rows, q);
    if q in Slots(rows[..|rows| - 1]) { LessThanAll(v, rows[..|rows| - 1], q); }
  }

  /** Bounds the fetches still to come. */
  function Remaining<T>(v: View, rows: seq<Row<T>>, pages: seq<Page<T>>): nat {
    if Continues(pages) then 1 + |Fetched(v, rows, Place(pages))| else 0
  }

  /** A page that goes on leaves less than was left before it. */
  lemma {:induction false} LessAfterPage<T>(
    v: View, slots: set<Payload>, sorted: seq<Row<T>>, place: Option<Payload>, last: Payload
  )
    requires Comparable(v, slots) && Slots(sorted) <= slots && last in Slots(sorted)
    requires place.Some? ==> place.value in slots && IsAfterCursor(v, last, place.value)
    ensures |Left(v, sorted, Some(last))| < |Left(v, sorted, place)|
  {
    if place.Some? { LessIsLeft(v, slots, sorted, place.value, last); } else { LessThanAll(v, sorted, last); }
  }

  lemma {:induction false} RemainingShrinks<T(!new)>(
    v: View, fetch: Fetch<T>, fetches: seq<Fetch<T>>, pages: seq<Page<T>>, before: seq<Page<T>>
  )
    requires Comparable(v, Slots(fetch.rows)) && StandsStill(fetches, fetch) && Walks(v, fetches, pages)
    requires pages != [] && before == pages[..|pages| - 1]
    ensures Remaining(v, fetch.rows, pages) < Remaining(v, fetch.rows, before)
  {
    var n, slots := |pages| - 1, Slots(fetch.rows);
    LastCut(v, fetches, pages);
    if Continues(pages) {
      StillWithin(fetches, fetch);
      SlotsOfSorted(v, fetch.rows);
      var last := pages[n].items[|pages[n].items| - 1];
      LastItem(v, fetches, pages, last);
      SlotIsIn(fetch.rows, last);
      if n > 0 { PlaceWithin(v, slots, fetches[..n], before); }
      LessAfterPage(v, slots, Sorted(v, fetch.rows), Place(before), Slot(last));
    }
  }

  lemma {:induction false} AddPage<T>(v: View, fetches: seq<Fetch<T>>, pages: seq<Page<T>>, next: Fetch<T>, page: Page<T>)
    requires IsTraversal(v, fetches, pages) && Continues(pages)
    requires RowsPage(v, next.rows, next.pageSize, Token(pages)) == Ok(page)
    ensures IsTraversal(v, fetches + [next], pages + [page])
  {
    assert (fetches + [next])[..|pages|] == fetches && (pages + [page])[..|pages|] == pages;
  }

  /** Every walk over a list that stands still can be carried to its end, right or wrong. */
  lemma {:induction false} WalkEnds<T(!new)>(v: View, fetch: Fetch<T>, fetches: seq<Fetch<T>>, pages: seq<Page<T>>)
    requires Comparable(v, Slots(fetch.rows)) && Readable(v, Slots(fetch.rows))
    requires StandsStill(fetches, fetch) && IsTraversal(v, fetches, pages)
    ensures exists allFetches, allPages :: IsWholeWalk(v, fetch, allFetches, allPages) && pages <= allPages
    decreases Remaining(v, fetch.rows, pages)
  {
    if Continues(pages) {
      var page := OneMoreFetch(v, fetch, fetches, pages);
      WalkEnds(v, fetch, fetches + [fetch], pages + [page]);
      var allFetches, allPages :| IsWholeWalk(v, fetch, allFetches, allPages) && pages + [page] <= allPages;
    } else {
      assert IsWholeWalk(v, fetch, fetches, pages);
    }
  }

  lemma {:induction false} OneMoreFetch<T(!new)>(v: View, fetch: Fetch<T>, fetches: seq<Fetch<T>>, pages: seq<Page<T>>)
      returns (page: Page<T>)
    requires Comparable(v, Slots(fetch.rows)) && Readable(v, Slots(fetch.rows))
    requires StandsStill(fetches, fetch) && IsTraversal(v, fetches, pages) && Continues(pages)
    ensures StandsStill(fetches + [fetch], fetch) && IsTraversal(v, fetches + [fetch], pages + [page])
    ensures Remaining(v, fetch.rows, pages + [page]) < Remaining(v, fetch.rows, pages)
  {
    var slots := Slots(fetch.rows);
    StillWithin(fetches, fetch);
    NextFetchSucceeds(v, slots, fetches, pages, fetch);
    page := RowsPage(v, fetch.rows, fetch.pageSize, Token(pages)).data;
    AddPage(v, fetches, pages, fetch, page);
    StillWithin(fetches + [fetch], fetch);
    TraversalWalks(v, slots, fetches + [fetch], pages + [page]);
    assert (pages + [page])[..|pages|] == pages;
    RemainingShrinks(v, fetch, fetches + [fetch], pages + [page], pages);
  }
}
