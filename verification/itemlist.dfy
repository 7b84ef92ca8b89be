/**
 * The listing screen (ItemList.jsx): the page fetched from the table, the
 * pagination controls, the name filter, the urgency overlays, and the
 * handlers that change quantities and delete rows.
 */
module ItemList {
  import opened Wrappers
  import opened Strings
  import opened Dates
  import opened Store

  /** `ITEMS_PER_PAGE`. */
  const ItemsPerPage: int := 20

  /** One entry of the screen's `data` state. */
  datatype Item = Item(id: int, name: string, expiryDate: string, size: int, photo: Option<string>)

  /** The items `fetchData` builds from fetched rows: the same fields, `photo` taken from `photo_base64`. */
  function ItemsOf(rows: seq<Row>): seq<Item> {
    seq(|rows|, i requires 0 <= i < |rows| =>
      Item(rows[i].id, rows[i].name, rows[i].expiryDate, rows[i].size, rows[i].photoBase64))
  }

  /** The `for` loop of `fetchData` that pushes one item per fetched row into `temp`. */
  method RowsToItems(rows: seq<Row>) returns (temp: seq<Item>)
    ensures |temp| == |rows|
    ensures forall i :: 0 <= i < |rows| ==>
              && temp[i].id == rows[i].id && temp[i].name == rows[i].name
              && temp[i].expiryDate == rows[i].expiryDate && temp[i].size == rows[i].size
              && temp[i].photo == rows[i].photoBase64
    ensures temp == ItemsOf(rows)
  {
    temp := [];
    var i := 0;
    while i < |rows|
      invariant 0 <= i <= |rows|
      invariant temp == ItemsOf(rows[..i])
    {
      var row := rows[i];
      temp := temp + [Item(row.id, row.name, row.expiryDate, row.size, row.photoBase64)];
      i := i + 1;
      assert rows[..i] == rows[..i - 1] + [row];
    }
    assert rows[..i] == rows;
  }

  // ---------------------------------------------------------------------
  // Pagination

  /** The offset `fetchData` passes to `LIMIT ?, ?` for a page. */
  function Offset(page: int): int {
    page * ItemsPerPage
  }

  /** The page `fetchData` shows for a table: rows in expiry order, from `Offset(page)`, at most 20. */
  function PageRows(rows: seq<Row>, page: int): seq<Row> {
    Window(OrderByExpiry(rows), Offset(page), ItemsPerPage)
  }

  /** A window of rows in expiry order is itself in expiry order. */
  lemma WindowKeepsOrder(s: seq<Row>, offset: int, limit: int)
    requires SortedByExpiry(s)
    ensures SortedByExpiry(Window(s, offset, limit))
  {
    var w := Window(s, offset, limit);
    var start := if offset < 0 then 0 else offset;
    forall i, j | 0 <= i < j < |w|
      ensures LexLe(w[i].expiryDate, w[j].expiryDate)
    {
      assert w[i] == s[start + i] && w[j] == s[start + j];
    }
  }

  /** A fetched page: at most 20 rows, in expiry order, read from row `page * 20` of the ordered table on, and empty exactly past the end. */
  lemma FetchedPage(rows: seq<Row>, page: int)
    requires page >= 0
    ensures |PageRows(rows, page)| <= ItemsPerPage
    ensures SortedByExpiry(PageRows(rows, page))
    ensures forall k :: 0 <= k < |PageRows(rows, page)| ==>
              Offset(page) + k < |rows| && PageRows(rows, page)[k] == OrderByExpiry(rows)[Offset(page) + k]
    ensures PageRows(rows, page) == [] <==> Offset(page) >= |rows|
    ensures Offset(page) < |rows| ==>
              |PageRows(rows, page)| == if Offset(page) + ItemsPerPage <= |rows| then ItemsPerPage else |rows| - Offset(page)
  {
    var ordered := OrderByExpiry(rows);
    assert Offset(page) >= 0 && |ordered| == |rows|;
    assert PageRows(rows, page) == Window(ordered, Offset(page), ItemsPerPage);
    WindowKeepsOrder(ordered, Offset(page), ItemsPerPage);
  }

  /** `total > ITEMS_PER_PAGE`: whether the pagination bar is rendered. */
  predicate ShowsPagination(total: int) {
    total > ItemsPerPage
  }

  /** `page != 0`: whether the previous-page button is rendered. */
  predicate ShowsPrev(page: int) {
    page != 0
  }

  /** `total - (page + 1) * ITEMS_PER_PAGE > 0`: whether the next-page button is rendered. */
  predicate ShowsNext(total: int, page: int) {
    total - (page + 1) * ItemsPerPage > 0
  }

  /** `Math.ceil(total / ITEMS_PER_PAGE)`: the fewest pages of 20 that hold `total` rows. */
  function PageCount(total: int): (n: int)
    requires total >= 0
    ensures n >= 0
    ensures n * ItemsPerPage >= total
    ensures n > 0 ==> (n - 1) * ItemsPerPage < total
  {
    (total + ItemsPerPage - 1) / ItemsPerPage
  }

  /** The label `{page + 1} / {Math.ceil(total / ITEMS_PER_PAGE)}`. */
  function PageLabel(page: int, total: int): (int, int)
    requires total >= 0
  {
    (page + 1, PageCount(total))
  }

  /** A page holds rows exactly when its number is below the page count. */
  lemma PageInRange(total: int, page: int)
    requires total >= 0 && page >= 0
    ensures Offset(page) < total <==> page < PageCount(total)
  {
  }

  /** The next button is shown exactly when a later page holds rows. */
  lemma NextShownIffLaterPage(total: int, page: int)
    requires total >= 0 && page >= 0
    ensures ShowsNext(total, page) <==> page + 1 < PageCount(total)
  {
    PageInRange(total, page + 1);
  }

  /** Pressing next where the button is shown leads to a page that is not empty. */
  lemma NextShownIffNextPageHasRows(rows: seq<Row>, page: int)
    requires page >= 0
    ensures ShowsNext(|rows|, page) <==> PageRows(rows, page + 1) != []
  {
  }

  /** The bar is shown exactly when there are at least two pages. */
  lemma PaginationShownIffSeveralPages(total: int)
    requires total >= 0
    ensures ShowsPagination(total) <==> PageCount(total) >= 2
  {
    PageInRange(total, 1);
  }

  /** On a page that holds rows, the label reads `p / n` with 1 <= p <= n. */
  lemma LabelInRange(total: int, page: int)
    requires total >= 0 && page >= 0 && Offset(page) < total
    ensures 1 <= PageLabel(page, total).0 <= PageLabel(page, total).1
  {
    PageInRange(total, page);
  }

  /**
   * The label is not bounded by the page count in general: with 41 rows on
   * page 2, deleting that page's only row leaves 40 rows. The page is then
   * empty while the bar still shows, with Prev but no Next, labelled 3 / 2.
   */
  lemma LabelPastEnd(rows: seq<Row>, id: int)
    requires IdsAscending(rows) && |rows| == 41 && HasId(rows, id)
    ensures var after := DeleteWhereId(rows, id);
            && PageRows(after, 2) == []
            && ShowsPagination(|after|) && ShowsPrev(2) && !ShowsNext(|after|, 2)
            && PageLabel(2, |after|) == (3, 2)
  {
    var after := DeleteWhereId(rows, id);
    DeleteWhereIdCount(rows, id);
    assert |after| == 40 && Offset(2) == 40;
    assert PageRows(after, 2) == Window(OrderByExpiry(after), 40, ItemsPerPage);
    assert PageCount(40) == 2;
  }

  /** The Prev button is shown exactly when `handlePrev` would move back. */
  lemma PrevShownIffCanGoBack(page: int)
    requires page >= 0
    ensures ShowsPrev(page) <==> page > 0
  {
  }

  /** The pages from `page` on, concatenated until the first empty one. */
  function PagesFrom<T>(s: seq<T>, page: nat): seq<T>
    decreases |s| - Offset(page)
  {
    if Offset(page) >= |s| then [] else Window(s, Offset(page), ItemsPerPage) + PagesFrom(s, page + 1)
  }

  lemma {:induction false} PagesFromRest<T>(s: seq<T>, page: nat)
    requires Offset(page) <= |s|
    ensures PagesFrom(s, page) == s[Offset(page)..]
    decreases |s| - Offset(page)
  {
    if Offset(page) < |s| {
      if Offset(page + 1) <= |s| {
        PagesFromRest(s, page + 1);
        assert s[Offset(page)..] == s[Offset(page)..Offset(page + 1)] + s[Offset(page + 1)..];
      } else {
        assert PagesFrom(s, page + 1) == [];
      }
    }
  }

  /** Reading every page from page 0 on gives back the whole ordered table, each row once. */
  lemma AllPagesCoverTable(rows: seq<Row>)
    ensures PagesFrom(OrderByExpiry(rows), 0) == OrderByExpiry(rows)
  {
    PagesFromRest(OrderByExpiry(rows), 0);
  }

  // ---------------------------------------------------------------------
  // Search

  predicate NameMatches(item: Item, search: string) {
    Includes(ToLower(item.name), ToLower(search))
  }

  /** `a` is `b` with some elements left out and the rest in order. */
  predicate IsSubsequence<T(==)>(a: seq<T>, b: seq<T>)
    decreases |b|
  {
    if b == [] then a == []
    else (a != [] && a[0] == b[0] && IsSubsequence(a[1..], b[1..])) || IsSubsequence(a, b[1..])
  }
  /** Leaving every element out gives a subsequence of any list. */
  lemma {:induction false} EmptySubsequence<T>(b: seq<T>)
    ensures IsSubsequence([], b)
    decreases |b|
  {
    if b != [] {
      EmptySubsequence(b[1..]);
    }
  }


  /**
   * The list the screen renders: `data.filter(item =>
   * item.name.toLowerCase().includes(search.toLowerCase()))`. Only the
   * fetched page is filtered, not the whole table.
   */
  function FilterByName(data: seq<Item>, search: string): (r: seq<Item>)
    ensures IsSubsequence(r, data)
    ensures forall i :: 0 <= i < |r| ==> NameMatches(r[i], search)
    ensures forall x :: multiset(r)[x] == if NameMatches(x, search) then multiset(data)[x] else 0
  {
    if data == [] then []
    else
      var rest := FilterByName(data[1..], search);
      assert data == [data[0]] + data[1..];
      if NameMatches(data[0], search) then
        assert ([data[0]] + rest)[1..] == rest;
        [data[0]] + rest
      else
        rest
  }

  /** Two search terms that match the same items filter any page the same way. */
  lemma {:induction false} FilterSameMatches(data: seq<Item>, s: string, t: string)
    requires forall x :: NameMatches(x, s) == NameMatches(x, t)
    ensures FilterByName(data, s) == FilterByName(data, t)
  {
    if data != [] { FilterSameMatches(data[1..], s, t); }
  }

  /** An empty search box keeps every fetched item. */
  lemma {:induction false} EmptySearchKeepsAll(data: seq<Item>)
    ensures FilterByName(data, "") == data
  {
    if data != [] {
      IncludesEmpty(ToLower(data[0].name));
      EmptySearchKeepsAll(data[1..]);
      assert data == [data[0]] + data[1..];
    }
  }

  /** Case does not matter: searching for a term or its lower-case form gives the same list. */
  lemma SearchIgnoresCase(data: seq<Item>, search: string)
    ensures FilterByName(data, ToLower(search)) == FilterByName(data, search)
  {
    ToLowerIdempotent(search);
    FilterSameMatches(data, ToLower(search), search);
  }

  /** Filtering the rendered list again with the same term changes nothing. */
  lemma {:induction false} FilterIdempotent(data: seq<Item>, search: string)
    ensures FilterByName(FilterByName(data, search), search) == FilterByName(data, search)
  {
    if data != [] {
      FilterIdempotent(data[1..], search);
      var rest := FilterByName(data[1..], search);
      if NameMatches(data[0], search) {
        assert ([data[0]] + rest)[1..] == rest;
      }
    }
  }

  // ---------------------------------------------------------------------
  // Urgency overlays

  /** The overlays `renderGridItem` can draw over an item. */
  datatype Overlay = Expired | Red | Orange | Yellow

  /**
   * The overlays drawn for a day difference: `renderGridItem` tests four
   * conditions one after another, each drawing its own overlay.
   */
  function RenderedOverlays(daysDifference: int): set<Overlay> {
    (if daysDifference == 3 then {Yellow} else {})
    + (if daysDifference == 2 then {Orange} else {})
    + (if daysDifference == 1 then {Red} else {})
    + (if daysDifference < 1 then {Expired} else {})
  }

  /** The urgency of an item, from its whole days until expiry; None for four days or more. */
  function Urgency(daysDifference: int): (o: Option<Overlay>)
    ensures o == Some(Expired) <==> daysDifference < 1
    ensures o == Some(Red) <==> daysDifference == 1
    ensures o == Some(Orange) <==> daysDifference == 2
    ensures o == Some(Yellow) <==> daysDifference == 3
    ensures o == None <==> daysDifference >= 4
  {
    if daysDifference < 1 then Some(Expired)
    else if daysDifference == 1 then Some(Red)
    else if daysDifference == 2 then Some(Orange)
    else if daysDifference == 3 then Some(Yellow)
    else None
  }

  /** The four conditions exclude each other: at most one overlay is drawn, the one `Urgency` names. */
  lemma OneOverlayAtMost(daysDifference: int)
    ensures RenderedOverlays(daysDifference) ==
            if Urgency(daysDifference).Some? then {Urgency(daysDifference).value} else {}
  {
  }

  // ---------------------------------------------------------------------
  // Quantity changes

  /**
   * What `handleSize(itemId, newSize)` does to the table: a new size of 0
   * deletes the row, any other size is written into it.
   */
  function SizeEffect(rows: seq<Row>, itemId: int, newSize: int): seq<Row> {
    if newSize == 0 then DeleteWhereId(rows, itemId) else SetSizeWhereId(rows, itemId, newSize)
  }

  /** Pressing minus on an item of quantity at least 1 keeps every stored quantity at least 1. */
  lemma MinusKeepsSizesPositive(rows: seq<Row>, itemId: int, size: int)
    requires SizesPositive(rows) && size >= 1
    ensures SizesPositive(SizeEffect(rows, itemId, size - 1))
  {
    var r := SizeEffect(rows, itemId, size - 1);
    if size == 1 {
      forall i | 0 <= i < |r|
        ensures r[i].size >= 1
      {
        assert r[i] in rows;
      }
    }
  }

  /** A nonzero size changes only the size of the row with that id; an absent id changes nothing. */
  lemma SetSizeTouchesOneRow(rows: seq<Row>, itemId: int, newSize: int)
    requires newSize != 0
    ensures |SizeEffect(rows, itemId, newSize)| == |rows|
    ensures forall i :: 0 <= i < |rows| ==>
              var r := SizeEffect(rows, itemId, newSize)[i];
              && r.id == rows[i].id && r.name == rows[i].name
              && r.expiryDate == rows[i].expiryDate && r.photoBase64 == rows[i].photoBase64
              && r.size == (if rows[i].id == itemId then newSize else rows[i].size)
    ensures !HasId(rows, itemId) ==> SizeEffect(rows, itemId, newSize) == rows
  {
  }

  /**
   * The minus button passes `item.size - 1`: an item of size 1 leaves the
   * table, a larger one stays with one less.
   */
  lemma MinusOnItem(rows: seq<Row>, i: int)
    requires IdsAscending(rows) && 0 <= i < |rows|
    ensures rows[i].size == 1 ==>
              var r := SizeEffect(rows, rows[i].id, rows[i].size - 1);
              |r| == |rows| - 1 && !HasId(r, rows[i].id)
    ensures rows[i].size != 1 ==>
              var r := SizeEffect(rows, rows[i].id, rows[i].size - 1);
              |r| == |rows| && r[i] == rows[i].(size := rows[i].size - 1)
  {
    DeleteWhereIdCount(rows, rows[i].id);
  }

  // ---------------------------------------------------------------------
  // The screen

  class Screen {
    /** The database handle the component opens. */
    const db: Database
    var data: seq<Item>
    var search: string
    var page: int
    var total: int
    var isLoading: bool

    ghost predicate Valid()
      reads this, db
    {
      page >= 0 && total >= 0 && db.Valid()
    }

    /** The state after a successful `fetchData`: the current page of the table and its row count. */
    ghost predicate Refreshed()
      reads this, db
    {
      data == ItemsOf(PageRows(db.rows, page)) && total == |db.rows| && !isLoading
    }

    /** What the list shows: nothing while loading (the spinner replaces it), otherwise the fetched page filtered by the search box. */
    function Visible(): (shown: seq<Item>)
      reads this
      ensures isLoading ==> shown == []
      ensures !isLoading ==> shown == FilterByName(data, search)
      ensures IsSubsequence(shown, data)
      ensures forall x :: x in shown ==> x in data && NameMatches(x, search)
    {
      if isLoading then EmptySubsequence(data); [] else FilterByName(data, search)
    }

    /** The initial `useState` values. */
    constructor (db: Database)
      requires db.Valid()
      ensures Valid() && this.db == db
      ensures data == [] && search == "" && page == 0 && total == 0 && !isLoading
    {
      this.db := db;
      data, search, page, total, isLoading := [], "", 0, 0, false;
    }

    /** The search box's `onChangeText`. */
    method ChangeSearch(text: string)
      modifies this`search
      ensures search == text
    {
      search := text;
    }

    /** `getTotalItems`: `total` becomes the row count; a failed count leaves it. */
    method GetTotalItems()
      requires Valid()
      modifies this`total
      ensures Valid()
      ensures total == if db.available && db.hasTable then |db.rows| else old(total)
    {
      var st, n := db.CountAll();
      if st == Ok {
        total := n;
      }
    }

    /**
     * `fetchData`: loads the current page and the count. When the query
     * fails, the error path calls an undefined `onError`, so the spinner
     * stays on and `data` keeps its old value.
     */
    method FetchData()
      requires Valid()
      modifies this`data, this`total, this`isLoading
      ensures Valid()
      ensures db.available && db.hasTable ==> Refreshed()
      ensures !(db.available && db.hasTable) ==> data == old(data) && total == old(total) && isLoading
    {
      isLoading := true;
      var offset := Offset(page);
      var st, rows := db.SelectByExpiry(offset, ItemsPerPage);
      if st == Ok {
        var temp := RowsToItems(rows);
        data := temp;
        GetTotalItems();
        isLoading := false;
      }
    }

    /** `handleNext`: moves to the next page unconditionally. */
    method HandleNext()
      requires Valid()
      modifies this`page
      ensures Valid()
      ensures page == old(page) + 1
    {
      page := page + 1;
    }

    /** `handlePrev`: moves back a page, never below page 0. */
    method HandlePrev()
      requires Valid()
      modifies this`page
      ensures Valid()
      ensures page == if old(page) > 0 then old(page) - 1 else old(page)
    {
      if page > 0 {
        page := page - 1;
      }
    }

    /** `handleDelete`: deletes the row with that id and reloads the page only when a row was deleted. */
    method HandleDelete(itemId: int)
      requires Valid()
      modifies this`data, this`total, this`isLoading, db
      ensures Valid()
      ensures db.hasTable == old(db.hasTable) && db.sequence == old(db.sequence)
      ensures db.rows == if db.available && db.hasTable then DeleteWhereId(old(db.rows), itemId) else old(db.rows)
      ensures if db.available && db.hasTable && HasId(old(db.rows), itemId) then Refreshed()
              else data == old(data) && total == old(total) && isLoading == old(isLoading)
    {
      var st, affected := db.DeleteById(itemId);
      if st == Ok && affected > 0 {
        FetchData();
      }
    }

    /**
     * `handleSize`: a new size of 0 goes through `handleDelete`; any other
     * size is written with UPDATE, and the page is reloaded when a row changed.
     */
    method HandleSize(itemId: int, newSize: int)
      requires Valid()
      modifies this`data, this`total, this`isLoading, db
      ensures Valid()
      ensures db.hasTable == old(db.hasTable) && db.sequence == old(db.sequence)
      ensures db.rows == if db.available && db.hasTable then SizeEffect(old(db.rows), itemId, newSize) else old(db.rows)
      ensures if db.available && db.hasTable && HasId(old(db.rows), itemId) then Refreshed()
              else data == old(data) && total == old(total) && isLoading == old(isLoading)
    {
      if newSize == 0 {
        HandleDelete(itemId);
      } else {
        var st, affected := db.UpdateSize(itemId, newSize);
        if st == Ok && affected > 0 {
          FetchData();
        }
      }
    }

    /** The minus icon (and a short press on the delete button): `handleSize(item.id, item.size - 1)`. */
    method PressMinus(item: Item)
      requires Valid()
      modifies this`data, this`total, this`isLoading, db
      ensures Valid()
      ensures db.hasTable == old(db.hasTable) && db.sequence == old(db.sequence)
      ensures db.rows == if db.available && db.hasTable then SizeEffect(old(db.rows), item.id, item.size - 1) else old(db.rows)
      ensures if db.available && db.hasTable && HasId(old(db.rows), item.id) then Refreshed()
              else data == old(data) && total == old(total) && isLoading == old(isLoading)
      ensures SizesPositive(old(db.rows)) && item.size >= 1 ==> SizesPositive(db.rows)
    {
      ghost var before := db.rows;
      HandleSize(item.id, item.size - 1);
      if SizesPositive(before) && item.size >= 1 {
        MinusKeepsSizesPositive(before, item.id, item.size);
      }
    }

    /** The confirmed branch of `handleDeleteAll`: `DELETE FROM Items`, then a reload. */
    method HandleDeleteAll()
      requires Valid()
      modifies this`data, this`total, this`isLoading, db
      ensures Valid()
      ensures db.hasTable == old(db.hasTable) && db.sequence == old(db.sequence)
      ensures db.rows == if db.available && db.hasTable then [] else old(db.rows)
      ensures db.available && db.hasTable ==> Refreshed() && data == [] && total == 0
      ensures !(db.available && db.hasTable) ==> data == old(data) && total == old(total) && isLoading == old(isLoading)
    {
      var st := db.DeleteAll();
      if st == Ok {
        FetchData();
      }
    }
  }

  /** The screen reaches the state `LabelPastEnd` describes: delete the only row of page 2 out of 41. */
  method LabelPastEndReachable(s: Screen, id: int)
    requires s.Valid() && s.db.available && s.db.hasTable
    requires s.page == 2 && |s.db.rows| == 41 && HasId(s.db.rows, id)
    modifies s`data, s`total, s`isLoading, s.db
    ensures s.data == [] && ShowsPagination(s.total) && ShowsPrev(s.page) && !ShowsNext(s.total, s.page)
    ensures PageLabel(s.page, s.total) == (3, 2)
  {
    LabelPastEnd(s.db.rows, id);
    s.HandleDelete(id);
  }
}
