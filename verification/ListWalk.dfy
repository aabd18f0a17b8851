/**
 * Walking a list by its cursors while it may change between fetches: what a client
 * sees over a whole traversal.
 */
module ListWalk {
  import opened Wrappers
  import opened ListCursor
  import opened ListPage
  import opened ListOrder

  /** One request of a traversal: the rows as they are then, and the page size asked for. */
  datatype Fetch<T> = Fetch(rows: seq<Row<T>>, pageSize: Option<real>)

  /** The token a client holds after the pages it has: none before the first. */
  function Token<T>(pages: seq<Page<T>>): Option<string> {
    if pages == [] then None else pages[|pages| - 1].nextPageToken
  }

  predicate Continues<T>(pages: seq<Page<T>>) {
    pages == [] || Token(pages).Some?
  }

  predicate IsFinished<T>(pages: seq<Page<T>>) {
    !Continues(pages)
  }

  /** The pages of successive fetches, each resuming from the token of the one before. */
  predicate IsTraversal<T(==)>(v: View, fetches: seq<Fetch<T>>, pages: seq<Page<T>>) {
    |pages| == |fetches| &&
    (pages == [] ||
     var n := |pages| - 1;
     && IsTraversal(v, fetches[..n], pages[..n]) && Continues(pages[..n])
     && RowsPage(v, fetches[n].rows, fetches[n].pageSize, Token(pages[..n])) == Ok(pages[n]))
  }

  function AllItems<T>(pages: seq<Page<T>>): seq<Row<T>> {
    if pages == [] then [] else AllItems(pages[..|pages| - 1]) + pages[|pages| - 1].items
  }

  /** Every list the traversal meets lies in `slots`. */
  ghost predicate WithinSlots<T>(fetches: seq<Fetch<T>>, slots: set<Payload>) {
    forall i | 0 <= i < |fetches| :: Slots(fetches[i].rows) <= slots
  }

  ghost predicate DistinctThroughout<T>(fetches: seq<Fetch<T>>) {
    forall i | 0 <= i < |fetches| :: DistinctIds(fetches[i].rows)
  }

  // -------------------------------------------------------------------- one page

  /** The rows of a sorted list that are left after the cursor, if there is one. */
  function Left<T>(v: View, sorted: seq<Row<T>>, cursor: Option<Payload>): seq<Row<T>> {
    match cursor
    case None => sorted
    case Some(c) => AfterCursor(v, sorted, c)
  }

  /** The rows a fetch pages through. */
  function Fetched<T>(v: View, rows: seq<Row<T>>, cursor: Option<Payload>): seq<Row<T>> {
    Left(v, Sorted(v, rows), cursor)
  }

  /** The page shows the first `size` of the rows, and says whether there are more. */
  predicate IsCut<T(==)>(all: seq<Row<T>>, size: nat, page: Page<T>) {
    page.items == (if |all| <= size then all else all[..size]) && (page.nextPageToken.Some? <==> size < |all|)
  }

  function LastSlot<T>(items: seq<Row<T>>): Option<Payload> {
    if items == [] then None else Some(Slot(items[|items| - 1]))
  }

  /** The place of the last row the client has been shown. */
  function Place<T>(pages: seq<Page<T>>): Option<Payload> {
    if pages == [] then None else LastSlot(pages[|pages| - 1].items)
  }

  lemma {:induction false} FetchedMember<T(!new)>(v: View, rows: seq<Row<T>>, cursor: Option<Payload>, r: Row<T>)
    ensures r in Fetched(v, rows, cursor) <==> r in rows && (cursor.Some? ==> IsAfterCursor(v, Slot(r), cursor.value))
  {
    SortedMember(v, rows, r);
    if cursor.Some? { AfterCursorMember(v, Sorted(v, rows), cursor.value, r); }
  }

  lemma {:induction false} FetchedIncreasing<T(!new)>(
    v: View, slots: set<Payload>, rows: seq<Row<T>>, cursor: Option<Payload>
  )
    requires Sortable(v, slots) && Slots(rows) <= slots && DistinctIds(rows)
    ensures Increasing(v, Fetched(v, rows, cursor))
  {
    SortedIncreasing(v, slots, rows);
    if cursor.Some? { AfterCursorIncreasing(v, Sorted(v, rows), cursor.value); }
  }

  lemma {:induction false} CutMember<T>(all: seq<Row<T>>, size: nat, page: Page<T>, r: Row<T>)
    requires IsCut(all, size, page) && r in page.items
    ensures r in all
  {
    var i :| 0 <= i < |page.items| && page.items[i] == r;
    assert all[i] == r;
  }

  lemma {:induction false} SlotIsIn<T>(rows: seq<Row<T>>, r: Row<T>)
    requires r in rows
    ensures Slot(r) in Slots(rows)
  {
    var i :| 0 <= i < |rows| && rows[i] == r;
  }

  // ------------------------------------------------------------ tokens read back

  /** The token names a place, or is missing when there is none yet. */
  predicate Names(v: View, token: Option<string>, cursor: Option<Payload>) {
    match token
    case None => cursor.None?
    case Some(text) => cursor.Some? && CursorDecode(v.number, text) == Ok(cursor.value)
  }

  lemma {:induction false} PageIsCut<T>(v: View, all: seq<Row<T>>, size: nat)
    requires 1 <= size
    ensures IsCut(all, size, PageFromRows(v, all, size))
    ensures size < |all| ==>
              PageFromRows(v, all, size).nextPageToken == Some(CursorEncode(v.number, Slot(all[size - 1])))
  {
  }

  lemma {:induction false} RowsPageIsCut<T>(
    v: View, fetch: Fetch<T>, token: Option<string>, cursor: Option<Payload>, page: Page<T>
  )
    requires Names(v, token, cursor) && RowsPage(v, fetch.rows, fetch.pageSize, token) == Ok(page)
    ensures page == PageFromRows(v, Fetched(v, fetch.rows, cursor), PageSizeResolve(fetch.pageSize))
  {
  }

  lemma {:induction false} TokenReadsBack(v: View, slots: set<Payload>, p: Payload)
    requires Readable(v, slots) && p in slots
    ensures Names(v, Some(CursorEncode(v.number, p)), Some(p))
  {
    CursorRoundTrip(v.number, p);
  }

  /** A page shows rows of its list, and its token names the last of them. */
  lemma {:induction false} PageFacts<T(!new)>(
    v: View, slots: set<Payload>, fetch: Fetch<T>, token: Option<string>, cursor: Option<Payload>, page: Page<T>
  )
    requires Readable(v, slots) && Slots(fetch.rows) <= slots
    requires Names(v, token, cursor) && RowsPage(v, fetch.rows, fetch.pageSize, token) == Ok(page)
    ensures IsCut(Fetched(v, fetch.rows, cursor), PageSizeResolve(fetch.pageSize), page)
    ensures page.nextPageToken.Some? ==> page.items != [] && Names(v, page.nextPageToken, LastSlot(page.items))
  {
    var all, size := Fetched(v, fetch.rows, cursor), PageSizeResolve(fetch.pageSize);
    RowsPageIsCut(v, fetch, token, cursor, page);
    PageIsCut(v, all, size);
    if size < |all| {
      FetchedMember(v, fetch.rows, cursor, all[size - 1]);
      SlotIsIn(fetch.rows, all[size - 1]);
      TokenReadsBack(v, slots, Slot(all[size - 1]));
    }
  }

  /** A traversal with its tokens replaced by the places they name. */
  predicate Walks<T(==)>(v: View, fetches: seq<Fetch<T>>, pages: seq<Page<T>>) {
    |pages| == |fetches| &&
    (pages == [] ||
     var n := |pages| - 1;
     && Walks(v, fetches[..n], pages[..n]) && Continues(pages[..n])
     && IsCut(Fetched(v, fetches[n].rows, Place(pages[..n])), PageSizeResolve(fetches[n].pageSize), pages[n]))
  }

  lemma {:induction false} TraversalWalks<T(!new)>(v: View, slots: set<Payload>, fetches: seq<Fetch<T>>, pages: seq<Page<T>>)
    requires Readable(v, slots) && WithinSlots(fetches, slots) && IsTraversal(v, fetches, pages)
    ensures Walks(v, fetches, pages) && (Continues(pages) ==> Names(v, Token(pages), Place(pages)))
    decreases |pages|
  {
    if pages != [] {
      var n := |pages| - 1;
      TraversalWalks(v, slots, fetches[..n], pages[..n]);
      PageFacts(v, slots, fetches[n], Token(pages[..n]), Place(pages[..n]), pages[n]);
    }
  }

  /** A client that has a token, or none yet, always gets a page: its own token is never refused. */
  lemma {:induction false} NextFetchSucceeds<T(!new)>(
    v: View, slots: set<Payload>, fetches: seq<Fetch<T>>, pages: seq<Page<T>>, next: Fetch<T>
  )
    requires Readable(v, slots) && WithinSlots(fetches, slots)
    requires IsTraversal(v, fetches, pages) && Continues(pages)
    ensures RowsPage(v, next.rows, next.pageSize, Token(pages)).Ok?
  {
    TraversalWalks(v, slots, fetches, pages);
  }

  /** No page shows a row that was not in the list when it was fetched. */
  lemma {:induction false} LastPageShowsItsFetch<T(!new)>(v: View, fetches: seq<Fetch<T>>, pages: seq<Page<T>>, r: Row<T>)
    requires IsTraversal(v, fetches, pages) && pages != [] && r in pages[|pages| - 1].items
    ensures r in fetches[|pages| - 1].rows
  {
    var n := |pages| - 1;
    var token := Token(pages[..n]);
    var cursor := match token case None => None case Some(text) => Some(CursorDecode(v.number, text).data);
    RowsPageIsCut(v, fetches[n], token, cursor, pages[n]);
    var all := Fetched(v, fetches[n].rows, cursor);
    PageIsCut(v, all, PageSizeResolve(fetches[n].pageSize));
    CutMember(all, PageSizeResolve(fetches[n].pageSize), pages[n], r);
    FetchedMember(v, fetches[n].rows, cursor, r);
  }

  // ------------------------------------------------------- the shape of a walk

  /** The last page of a walk: it is cut from the rows after the client's place. */
  lemma {:induction false} LastCut<T>(v: View, fetches: seq<Fetch<T>>, pages: seq<Page<T>>)
    requires Walks(v, fetches, pages) && pages != []
    ensures var n := |pages| - 1;
      && Walks(v, fetches[..n], pages[..n]) && Continues(pages[..n])
      && IsCut(Fetched(v, fetches[n].rows, Place(pages[..n])), PageSizeResolve(fetches[n].pageSize), pages[n])
      && AllItems(pages) == AllItems(pages[..n]) + pages[n].items
      && (Continues(pages) ==> pages[n].items != [])
  {
  }

  lemma {:induction false} WalkPrefix<T>(
    v: View, fetches: seq<Fetch<T>>, pages: seq<Page<T>>, earlier: seq<Fetch<T>>, first: seq<Page<T>>
  )
    requires Walks(v, fetches, pages) && earlier <= fetches && first <= pages && |earlier| == |first|
    ensures Walks(v, earlier, first) && (first != pages ==> Continues(first))
    decreases |pages|
  {
    var n := |pages| - 1;
    if |first| == |pages| {
      assert first == pages && earlier == fetches;
    } else {
      LastCut(v, fetches, pages);
      assert |first| == n ==> first == pages[..n];
      WalkPrefix(v, fetches[..n], pages[..n], earlier, first);
    }
  }

  /** The rows of the pages after the first `k`. */
  function ItemsFrom<T>(pages: seq<Page<T>>, k: nat): seq<Row<T>> {
    if |pages| <= k then [] else ItemsFrom(pages[..|pages| - 1], k) + pages[|pages| - 1].items
  }

  lemma {:induction false} ItemsSplit<T>(pages: seq<Page<T>>, k: nat)
    requires k <= |pages|
    ensures AllItems(pages) == AllItems(pages[..k]) + ItemsFrom(pages, k)
    decreases |pages|
  {
    if k < |pages| {
      var front := pages[..|pages| - 1];
      ItemsSplit(front, k);
      assert front[..k] == pages[..k];
    } else {
      assert pages[..k] == pages;
    }
  }

  /** While a walk goes on, the client's place is that of the last row of all. */
  lemma {:induction false} PlaceIsLast<T>(v: View, fetches: seq<Fetch<T>>, pages: seq<Page<T>>)
    requires Walks(v, fetches, pages) && Continues(pages)
    ensures Place(pages) == LastSlot(AllItems(pages)) && (pages != [] ==> AllItems(pages) != [])
  {
    if pages != [] { LastCut(v, fetches, pages); }
  }

  lemma {:induction false} ItemsWithin<T(!new)>(v: View, slots: set<Payload>, fetches: seq<Fetch<T>>, pages: seq<Page<T>>)
    requires WithinSlots(fetches, slots) && Walks(v, fetches, pages)
    ensures Slots(AllItems(pages)) <= slots
    decreases |pages|
  {
    if pages != [] {
      var n := |pages| - 1;
      LastCut(v, fetches, pages);
      ItemsWithin(v, slots, fetches[..n], pages[..n]);
      LastItemsWithin(v, fetches, pages);
      SlotsOfBoth(AllItems(pages[..n]), pages[n].items);
    }
  }

  /** Every row of the last page is in its list and resumes after the client's place. */
  lemma {:induction false} LastItem<T(!new)>(v: View, fetches: seq<Fetch<T>>, pages: seq<Page<T>>, r: Row<T>)
    requires Walks(v, fetches, pages) && pages != [] && r in pages[|pages| - 1].items
    ensures r in fetches[|pages| - 1].rows
    ensures Place(pages[..|pages| - 1]).Some? ==> IsAfterCursor(v, Slot(r), Place(pages[..|pages| - 1]).value)
  {
    var n := |pages| - 1;
    LastCut(v, fetches, pages);
    var rows, place := fetches[n].rows, Place(pages[..n]);
    CutMember(Fetched(v, rows, place), PageSizeResolve(fetches[n].pageSize), pages[n], r);
    FetchedMember(v, rows, place, r);
  }

  lemma {:induction false} LastItemsWithin<T(!new)>(v: View, fetches: seq<Fetch<T>>, pages: seq<Page<T>>)
    requires Walks(v, fetches, pages) && pages != []
    ensures Slots(pages[|pages| - 1].items) <= Slots(fetches[|pages| - 1].rows)
  {
    var items, rows := pages[|pages| - 1].items, fetches[|pages| - 1].rows;
    forall r | r in items
      ensures r in rows
    {
      LastItem(v, fetches, pages, r);
    }
    SlotsOfPart(rows, items);
  }

  lemma {:induction false} SlotsOfBoth<T>(a: seq<Row<T>>, b: seq<Row<T>>)
    ensures Slots(a + b) == Slots(a) + Slots(b)
  {
    forall p | p in Slots(b)
      ensures p in Slots(a + b)
    {
      var j :| 0 <= j < |b| && Slot(b[j]) == p;
      assert (a + b)[|a| + j] == b[j];
    }
    forall p | p in Slots(a)
      ensures p in Slots(a + b)
    {
      var i :| 0 <= i < |a| && Slot(a[i]) == p;
      assert (a + b)[i] == a[i];
    }
  }

  // --------------------------------------------------- cursors only go forward

  /**
   * Everything shown after the first pages resumes after the place they ended at, whatever the
   * lists, the nulls and the collation are: a row skipped once is never shown later.
   */
  lemma {:induction false} LaterIsResumed<T(!new)>(
    v: View, slots: set<Payload>, fetches: seq<Fetch<T>>, pages: seq<Page<T>>, first: seq<Page<T>>, r: Row<T>
  )
    requires Comparable(v, slots) && WithinSlots(fetches, slots) && Walks(v, fetches, pages)
    requires first != [] && first <= pages && r in ItemsFrom(pages, |first|)
    ensures Place(first).Some? && IsAfterCursor(v, Slot(r), Place(first).value)
    decreases |pages|
  {
    var n := |pages| - 1;
    if r in pages[n].items {
      LastPageIsResumed(v, slots, fetches, pages, first, r);
    } else {
      LastCut(v, fetches, pages);
      LaterIsResumed(v, slots, fetches[..n], pages[..n], first, r);
    }
  }

  lemma {:induction false} LastPageIsResumed<T(!new)>(
    v: View, slots: set<Payload>, fetches: seq<Fetch<T>>, pages: seq<Page<T>>, first: seq<Page<T>>, r: Row<T>
  )
    requires Comparable(v, slots) && WithinSlots(fetches, slots) && Walks(v, fetches, pages)
    requires first != [] && first <= pages && |first| < |pages| && r in pages[|pages| - 1].items
    ensures Place(first).Some? && IsAfterCursor(v, Slot(r), Place(first).value)
    decreases |pages|, 0
  {
    var n := |pages| - 1;
    var front := pages[..n];
    LastCut(v, fetches, pages);
    LastItem(v, fetches, pages, r);
    PlaceWithin(v, slots, fetches[..n], front);
    if |first| < n {
      PlaceIsResumed(v, slots, fetches[..n], front, first);
      LastItemsWithin(v, fetches, pages);
      SlotIsIn(pages[n].items, r);
      AfterTransitive(v, slots, Place(first).value, Place(front).value, Slot(r));
    } else {
      assert first == front;
    }
  }

  lemma {:induction false} PlaceIsResumed<T(!new)>(
    v: View, slots: set<Payload>, fetches: seq<Fetch<T>>, pages: seq<Page<T>>, first: seq<Page<T>>
  )
    requires Comparable(v, slots) && WithinSlots(fetches, slots) && Walks(v, fetches, pages) && Continues(pages)
    requires first != [] && first <= pages && |first| < |pages|
    ensures Place(first).Some? && Place(first).value in slots && Place(pages).Some?
    ensures IsAfterCursor(v, Place(pages).value, Place(first).value)
    decreases |pages|, 1
  {
    var items := pages[|pages| - 1].items;
    LastCut(v, fetches, pages);
    LastPageIsResumed(v, slots, fetches, pages, first, items[|items| - 1]);
    WalkPrefix(v, fetches, pages, fetches[..|first|], first);
    PlaceWithin(v, slots, fetches[..|first|], first);
  }

  lemma {:induction false} PlaceWithin<T(!new)>(v: View, slots: set<Payload>, fetches: seq<Fetch<T>>, pages: seq<Page<T>>)
    requires WithinSlots(fetches, slots) && Walks(v, fetches, pages) && pages != [] && Continues(pages)
    ensures Place(pages).Some? && Place(pages).value in slots
  {
    LastCut(v, fetches, pages);
    LastItemsWithin(v, fetches, pages);
    LastRowIsIn(pages[|pages| - 1].items);
  }

  // ------------------------------------------------------ order over the walk

  /** One page after another, each resuming after the last row of the one before. */
  lemma {:induction false} AppendRun<T>(v: View, slots: set<Payload>, a: seq<Row<T>>, b: seq<Row<T>>)
    requires Comparable(v, slots) && Slots(a) <= slots && Slots(b) <= slots && Increasing(v, a) && Increasing(v, b)
    requires a == [] || forall j | 0 <= j < |b| :: Before(v, Slot(a[|a| - 1]), Slot(b[j]))
    ensures Increasing(v, a + b)
  {
    forall i, j | 0 <= i < |a| && 0 <= j < |b|
      ensures Before(v, Slot(a[i]), Slot(b[j]))
    {
      assert Slot(b[j]) in Slots(b);
      AfterAll(v, slots, a, Slot(b[j]), i);
    }
  }

  lemma {:induction false} AfterAll<T>(v: View, slots: set<Payload>, a: seq<Row<T>>, p: Payload, i: nat)
    requires Comparable(v, slots) && Slots(a) <= slots && Increasing(v, a) && p in slots && i < |a|
    requires Before(v, Slot(a[|a| - 1]), p)
    ensures Before(v, Slot(a[i]), p)
  {
    assert Slot(a[i]) in Slots(a) && Slot(a[|a| - 1]) in Slots(a);
    if i < |a| - 1 { BeforeTransitive(v, slots, Slot(a[i]), Slot(a[|a| - 1]), p); }
  }

  lemma {:induction false} PageIncreasing<T(!new)>(v: View, slots: set<Payload>, fetches: seq<Fetch<T>>, pages: seq<Page<T>>)
    requires Sortable(v, slots) && WithinSlots(fetches, slots) && DistinctThroughout(fetches)
    requires Walks(v, fetches, pages) && pages != []
    ensures Increasing(v, pages[|pages| - 1].items)
  {
    var n := |pages| - 1;
    LastCut(v, fetches, pages);
    FetchedIncreasing(v, slots, fetches[n].rows, Place(pages[..n]));
  }

  /** Whatever happens to the list between fetches, the places shown strictly increase. */
  lemma {:induction false} WalkInOrder<T(!new)>(v: View, slots: set<Payload>, fetches: seq<Fetch<T>>, pages: seq<Page<T>>)
    requires Sortable(v, slots) && AgreesThroughout(v, slots) && WithinSlots(fetches, slots) && DistinctThroughout(fetches)
    requires Walks(v, fetches, pages)
    ensures Increasing(v, AllItems(pages))
    decreases |pages|
  {
    if pages != [] {
      var n := |pages| - 1;
      var before, items := AllItems(pages[..n]), pages[n].items;
      LastCut(v, fetches, pages);
      WalkInOrder(v, slots, fetches[..n], pages[..n]);
      ItemsWithin(v, slots, fetches[..n], pages[..n]);
      LastItemsWithin(v, fetches, pages);
      PageIncreasing(v, slots, fetches, pages);
      AllNextFollow(v, slots, fetches, pages, before, items);
      AppendRun(v, slots, before, items);
    }
  }

  lemma {:induction false} AllNextFollow<T(!new)>(
    v: View, slots: set<Payload>, fetches: seq<Fetch<T>>, pages: seq<Page<T>>, before: seq<Row<T>>, items: seq<Row<T>>
  )
    requires Comparable(v, slots) && AgreesThroughout(v, slots) && WithinSlots(fetches, slots) && Walks(v, fetches, pages)
    requires pages != [] && before == AllItems(pages[..|pages| - 1]) && items == pages[|pages| - 1].items
    ensures before == [] || forall j | 0 <= j < |items| :: Before(v, Slot(before[|before| - 1]), Slot(items[j]))
  {
    forall j | before != [] && 0 <= j < |items|
      ensures Before(v, Slot(before[|before| - 1]), Slot(items[j]))
    {
      NextItemsFollow(v, slots, fetches, pages, items[j]);
    }
  }

  lemma {:induction false} AgreesFor(v: View, slots: set<Payload>, p: Payload, cursor: Payload)
    requires IsCollation(v.compare) && AgreesThroughout(v, slots) && p in slots && cursor in slots
    ensures IsAfterCursor(v, p, cursor) <==> Before(v, cursor, p)
  {
    assert AgreesAt(v, slots, cursor) && PlacesAgree(v, p, cursor);
    ResumeAgreesExactly(v, p, cursor);
  }

  lemma {:induction false} NextItemsFollow<T(!new)>(
    v: View, slots: set<Payload>, fetches: seq<Fetch<T>>, pages: seq<Page<T>>, r: Row<T>
  )
    requires Comparable(v, slots) && AgreesThroughout(v, slots) && WithinSlots(fetches, slots)
    requires Walks(v, fetches, pages) && pages != [] && r in pages[|pages| - 1].items
    ensures var before := AllItems(pages[..|pages| - 1]);
      before != [] ==> Before(v, Slot(before[|before| - 1]), Slot(r))
  {
    var n := |pages| - 1;
    LastCut(v, fetches, pages);
    PlaceIsLast(v, fetches[..n], pages[..n]);
    if n > 0 {
      LastItem(v, fetches, pages, r);
      LastItemsWithin(v, fetches, pages);
      SlotIsIn(pages[n].items, r);
      PlaceWithin(v, slots, fetches[..n], pages[..n]);
      AgreesFor(v, slots, Slot(r), Place(pages[..n]).value);
    }
  }

  // ------------------------------------------------------------ nothing is missed

  /** A row with this id and key is there at every fetch. */
  ghost predicate StaysThroughout<T>(fetches: seq<Fetch<T>>, p: Payload) {
    forall i | 0 <= i < |fetches| :: p in Slots(fetches[i].rows)
  }

  predicate ShownOrToCome<T>(v: View, pages: seq<Page<T>>, p: Payload) {
    p in Slots(AllItems(pages))
    || (Continues(pages) && (pages == [] || (Place(pages).Some? && IsAfterCursor(v, p, Place(pages).value))))
  }

  /** A row that resumes is on the page or resumes after it. */
  lemma {:induction false} OnPageOrAfter<T(!new)>(
    v: View, slots: set<Payload>, fetches: seq<Fetch<T>>, pages: seq<Page<T>>, r: Row<T>
  )
    requires Sortable(v, slots) && AgreesThroughout(v, slots) && WithinSlots(fetches, slots) && DistinctThroughout(fetches)
    requires Walks(v, fetches, pages) && pages != []
    requires r in Fetched(v, fetches[|pages| - 1].rows, Place(pages[..|pages| - 1]))
    ensures r in pages[|pages| - 1].items
         || (Continues(pages) && Place(pages).Some? && IsAfterCursor(v, Slot(r), Place(pages).value))
  {
    var n := |pages| - 1;
    var rows, items := fetches[n].rows, pages[n].items;
    var all := Fetched(v, rows, Place(pages[..n]));
    LastCut(v, fetches, pages);
    FetchedIncreasing(v, slots, rows, Place(pages[..n]));
    var i :| 0 <= i < |all| && all[i] == r;
    if i < |items| {
      assert items[i] == r;
    } else {
      LastItemsWithin(v, fetches, pages);
      LastRowIsIn(items);
      FetchedMember(v, rows, Place(pages[..n]), r);
      SlotIsIn(rows, r);
      assert all[|items| - 1] == items[|items| - 1] && Before(v, Slot(all[|items| - 1]), Slot(all[i]));
      AgreesFor(v, slots, Slot(r), Slot(items[|items| - 1]));
    }
  }

  lemma {:induction false} PageMissesNothing<T(!new)>(
    v: View, slots: set<Payload>, fetches: seq<Fetch<T>>, pages: seq<Page<T>>, p: Payload
  )
    requires Sortable(v, slots) && AgreesThroughout(v, slots) && WithinSlots(fetches, slots) && DistinctThroughout(fetches)
    requires Walks(v, fetches, pages) && pages != []
    requires p in Slots(fetches[|pages| - 1].rows) && ShownOrToCome(v, pages[..|pages| - 1], p)
    ensures ShownOrToCome(v, pages, p)
  {
    var n := |pages| - 1;
    var rows := fetches[n].rows;
    LastCut(v, fetches, pages);
    SlotsOfBoth(AllItems(pages[..n]), pages[n].items);
    if p !in Slots(AllItems(pages[..n])) {
      var j :| 0 <= j < |rows| && Slot(rows[j]) == p;
      FetchedMember(v, rows, Place(pages[..n]), rows[j]);
      OnPageOrAfter(v, slots, fetches, pages, rows[j]);
      if rows[j] in pages[n].items { SlotIsIn(pages[n].items, rows[j]); }
    }
  }

  lemma {:induction false} WalkMissesNothing<T(!new)>(
    v: View, slots: set<Payload>, fetches: seq<Fetch<T>>, pages: seq<Page<T>>, p: Payload
  )
    requires Sortable(v, slots) && AgreesThroughout(v, slots) && WithinSlots(fetches, slots) && DistinctThroughout(fetches)
    requires Walks(v, fetches, pages) && StaysThroughout(fetches, p)
    ensures ShownOrToCome(v, pages, p)
    decreases |pages|
  {
    if pages != [] {
      var n := |pages| - 1;
      LastCut(v, fetches, pages);
      WalkMissesNothing(v, slots, fetches[..n], pages[..n], p);
      PageMissesNothing(v, slots, fetches, pages, p);
    }
  }

  // ------------------------------------------------------------ what a client sees

  /**
   * However the list changes between fetches: where resuming agrees with the sort order, the
   * places shown strictly increase and the token names the last of them.
   */
  lemma {:induction false} TraversalInOrder<T(!new)>(
    v: View, slots: set<Payload>, fetches: seq<Fetch<T>>, pages: seq<Page<T>>
  )
    requires Sortable(v, slots) && Readable(v, slots) && AgreesThroughout(v, slots)
    requires WithinSlots(fetches, slots) && DistinctThroughout(fetches) && IsTraversal(v, fetches, pages)
    ensures Increasing(v, AllItems(pages)) && (Continues(pages) ==> Names(v, Token(pages), LastSlot(AllItems(pages))))
  {
    TraversalWalks(v, slots, fetches, pages);
    WalkInOrder(v, slots, fetches, pages);
    if Continues(pages) { PlaceIsLast(v, fetches, pages); }
  }

  /** A row whose id and key stay throughout has been shown or is still ahead of the client's place. */
  lemma {:induction false} TraversalMissesNothing<T(!new)>(
    v: View, slots: set<Payload>, fetches: seq<Fetch<T>>, pages: seq<Page<T>>, p: Payload
  )
    requires Sortable(v, slots) && Readable(v, slots) && AgreesThroughout(v, slots)
    requires WithinSlots(fetches, slots) && DistinctThroughout(fetches) && IsTraversal(v, fetches, pages)
    requires StaysThroughout(fetches, p)
    ensures ShownOrToCome(v, pages, p)
  {
    TraversalWalks(v, slots, fetches, pages);
    WalkMissesNothing(v, slots, fetches, pages, p);
  }

  ghost predicate ShownOnce<T>(items: seq<Row<T>>, p: Payload) {
    exists i | 0 <= i < |items| :: Slot(items[i]) == p && forall j | 0 <= j < |items| && j != i :: Slot(items[j]) != p
  }

  /** A finished walk over a changing list gives every row that stays exactly once. */
  lemma {:induction false} FinishedWalkIsComplete<T(!new)>(
    v: View, slots: set<Payload>, fetches: seq<Fetch<T>>, pages: seq<Page<T>>, p: Payload
  )
    requires Sortable(v, slots) && Readable(v, slots) && AgreesThroughout(v, slots)
    requires WithinSlots(fetches, slots) && DistinctThroughout(fetches) && IsTraversal(v, fetches, pages)
    requires IsFinished(pages) && StaysThroughout(fetches, p)
    ensures ShownOnce(AllItems(pages), p)
  {
    TraversalWalks(v, slots, fetches, pages);
    ItemsWithin(v, slots, fetches, pages);
    WalkInOrder(v, slots, fetches, pages);
    WalkMissesNothing(v, slots, fetches, pages, p);
    OnceOnly(v, slots, AllItems(pages), p);
  }

  lemma {:induction false} OnceOnly<T>(v: View, slots: set<Payload>, all: seq<Row<T>>, p: Payload)
    requires Sortable(v, slots) && Slots(all) <= slots && Increasing(v, all) && p in Slots(all)
    ensures ShownOnce(all, p)
  {
    var i :| 0 <= i < |all| && Slot(all[i]) == p;
    BeforeIsStrict(v, slots, p, p);
    assert forall j | 0 <= j < |all| && j != i :: Slot(all[j]) != p;
  }
}
