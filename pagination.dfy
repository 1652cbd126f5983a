/**
 * The integer logic of the comment list: the row range requested for a page,
 * the page count, the page to show after a delete, the Prev/Next controls and
 * the page buttons. Page numbers are 1-based; the list uses 5 rows per page.
 */
module Pagination {
  import opened Wrappers

  /** The number of comments per page (`useState(5)`). */
  const PerPage: int := 5

  function Max(a: int, b: int): int { if a >= b then a else b }
  function Min(a: int, b: int): int { if a <= b then a else b }

  /** `Math.ceil(a / b)` for a positive divisor; Dafny's `/` rounds down when `b > 0`. */
  function CeilDiv(a: int, b: int): (r: int)
    requires b > 0
    ensures (r - 1) * b < a <= r * b
  {
    var q := (-a) / b;
    assert -a == q * b + (-a) % b;
    -q
  }

  /** The inclusive row range `[start, end]` asked of the store for a page. */
  datatype RowRange = RowRange(start: int, end: int)

  function PageRange(page: int, perPage: int): (r: RowRange)
    requires perPage > 0
    ensures r.end - r.start + 1 == perPage
    ensures page >= 1 <==> r.start >= 0
  {
    RowRange((page - 1) * perPage, page * perPage - 1)
  }

  /** Multiplying by a positive number keeps order. */
  lemma MulMonotone(x: int, y: int, n: int)
    requires x <= y && n > 0
    ensures x * n <= y * n
  {
    var d := y - x;
    assert d >= 0;
    assert y * n == x * n + d * n;
  }

  /** Consecutive pages ask for adjacent, non-overlapping ranges. */
  lemma RangesAdjacent(page: int, perPage: int)
    requires perPage > 0
    ensures PageRange(page, perPage).end + 1 == PageRange(page + 1, perPage).start
  {
  }

  /** Every row index belongs to the range of exactly one page. */
  lemma RowOnExactlyOnePage(row: int, perPage: int)
    requires perPage > 0 && row >= 0
    ensures var p := row / perPage + 1;
      p >= 1 && PageRange(p, perPage).start <= row <= PageRange(p, perPage).end
    ensures forall page :: PageRange(page, perPage).start <= row <= PageRange(page, perPage).end ==>
      page == row / perPage + 1
  {
    var q := row / perPage;
    var p := q + 1;
    assert row == q * perPage + row % perPage;
    assert PageRange(p, perPage).start == q * perPage;
    assert PageRange(p, perPage).end == q * perPage + perPage - 1;
    forall page | PageRange(page, perPage).start <= row <= PageRange(page, perPage).end
      ensures page == p
    {
      assert (page - 1) * perPage <= row <= (page - 1) * perPage + perPage - 1;
      if page < p {
        MulMonotone(page, q, perPage);
      } else if page > p {
        MulMonotone(q + 1, page - 1, perPage);
      }
    }
  }

  /** `Math.max(1, Math.ceil(total / perPage))`. */
  function TotalPages(total: int, perPage: int): (r: int)
    requires perPage > 0
    ensures r >= 1
    ensures total <= r * perPage
    ensures r == 1 || (r - 1) * perPage < total
    ensures total > 0 ==> (r - 1) * perPage < total
  {
    Max(1, CeilDiv(total, perPage))
  }

  /** One more row never needs fewer pages, and at most one more page. */
  lemma TotalPagesStep(total: int, perPage: int)
    requires perPage > 0 && total >= 0
    ensures TotalPages(total, perPage) <= TotalPages(total + 1, perPage) <= TotalPages(total, perPage) + 1
  {
    var a := TotalPages(total, perPage);
    var b := TotalPages(total + 1, perPage);
    if b > a + 1 {
      MulMonotone(a + 1, b - 1, perPage);
    }
    if b < a {
      MulMonotone(b, a - 1, perPage);
    }
  }

  /**
   * For a collection of `total > 0` rows, every page from 1 to the page count
   * starts inside the collection; each page before the last is full, and the
   * last page's range reaches the end of the collection.
   */
  lemma PagesCoverTotal(total: int, page: int, perPage: int)
    requires perPage > 0 && total > 0
    requires 1 <= page <= TotalPages(total, perPage)
    ensures PageRange(page, perPage).start < total
    ensures page < TotalPages(total, perPage) ==> PageRange(page, perPage).end < total
    ensures page == TotalPages(total, perPage) ==> total <= PageRange(page, perPage).end + 1
  {
    var t := TotalPages(total, perPage);
    MulMonotone(page - 1, t - 1, perPage);
    if page < t {
      MulMonotone(page, t - 1, perPage);
    }
  }

  /** What the store returns for a page: the rows (possibly absent) and the exact count (possibly absent). */
  datatype Response<T> = Response(data: Option<seq<T>>, count: Option<int>)

  /** The rows handed to setPosts: `data || []`. */
  function ReturnedRows<T>(resp: Response<T>): seq<T>
  {
    match resp.data
    case Some(d) => d
    case None => []
  }

  /** The total: the server's count if it is a number, else the number of returned rows, else 0. */
  function FetchedTotal<T>(resp: Response<T>): (total: int)
    ensures resp.count.Some? ==> total == resp.count.value
    ensures resp.count.None? ==> total == |ReturnedRows(resp)|
    ensures (resp.count.Some? ==> resp.count.value >= 0) ==> total >= 0
  {
    match resp.count
    case Some(c) => c
    case None =>
      match resp.data
      case Some(d) => |d|
      case None => 0
  }

  /**
   * What the comment list shows: the rows held by the comment slice, and the
   * component's `totalCount` and `totalPages`.
   */
  datatype Pager<T> = Pager(rows: seq<T>, totalCount: int, totalPages: int)

  /** The state before the first fetch: an empty slice, `useState(0)` and `useState(1)`. */
  function InitialPager<T>(): Pager<T>
  {
    Pager([], 0, 1)
  }

  /** `totalPages` is the page count of `totalCount`. */
  ghost predicate Consistent<T>(st: Pager<T>, perPage: int)
    requires perPage > 0
  {
    st.totalPages == TotalPages(st.totalCount, perPage)
  }

  /** The state after a successful fetch (setPosts, setTotalCount, then setTotalPages). */
  function AfterFetch<T>(resp: Response<T>, perPage: int): (st: Pager<T>)
    requires perPage > 0
    ensures resp.data.Some? ==> st.rows == resp.data.value
    ensures resp.data.None? ==> st.rows == []
    ensures st.totalCount == FetchedTotal(resp)
    ensures resp.count.None? ==> st.totalCount == |st.rows|
    ensures Consistent(st, perPage) && st.totalPages >= 1
  {
    var total := FetchedTotal(resp);
    Pager(ReturnedRows(resp), total, TotalPages(total, perPage))
  }

  /** The initial state is consistent; AfterFetch establishes consistency afresh after each fetch. */
  lemma InitialConsistent<T>()
    ensures Consistent(InitialPager<T>(), PerPage)
  {
    assert CeilDiv(0, PerPage) == 0;
  }

  /** The values computed by handleDelete. */
  datatype DeleteOutcome = DeleteOutcome(newTotal: int, newTotalPages: int, newPage: int)

  /** handleDelete: one row fewer, the new page count, and the current page clamped to it. */
  function AfterDelete(totalCount: int, page: int, perPage: int): (r: DeleteOutcome)
    requires perPage > 0
    ensures r.newTotal == Max(0, totalCount - 1) && r.newTotal >= 0
    ensures r.newTotalPages == TotalPages(r.newTotal, perPage)
    ensures r.newPage <= page && r.newPage <= r.newTotalPages
    ensures page >= 1 ==> 1 <= r.newPage
    ensures r.newPage == page || r.newPage == r.newTotalPages
  {
    var newTotal := Max(0, totalCount - 1);
    var newTotalPages := Max(1, CeilDiv(newTotal, perPage));
    DeleteOutcome(newTotal, newTotalPages, Min(page, newTotalPages))
  }

  /** Deleting one row from a valid page stays on it or moves back exactly one page. */
  lemma DeleteMovesBackAtMostOne(totalCount: int, page: int, perPage: int)
    requires perPage > 0 && totalCount >= 1
    requires 1 <= page <= TotalPages(totalCount, perPage)
    ensures AfterDelete(totalCount, page, perPage).newPage >= page - 1
    ensures page < TotalPages(totalCount, perPage) ==> AfterDelete(totalCount, page, perPage).newPage == page
  {
    TotalPagesStep(totalCount - 1, perPage);
  }

  /** Deleting the only comment on page 2 of 6 sends the viewer to page 1 of 1. */
  lemma DeleteLastOnLastPage()
    ensures AfterDelete(6, 2, PerPage) == DeleteOutcome(5, 1, 1)
  {
    assert CeilDiv(5, PerPage) == 1;
  }

  /** The Prev button's target, `Math.max(1, page - 1)`. */
  function PrevTarget(page: int): (r: int)
    ensures r >= 1 && r >= page - 1
  {
    Max(1, page - 1)
  }

  /** The Prev button is disabled on page 1. */
  predicate PrevDisabled(page: int)
  {
    page == 1
  }

  /** The Next button's target, `Math.min(totalPages, page + 1)`. */
  function NextTarget(page: int, totalPages: int): (r: int)
    ensures r <= totalPages && r <= page + 1
  {
    Min(totalPages, page + 1)
  }

  /** The Next button is disabled from the last page on. */
  predicate NextDisabled(page: int, totalPages: int)
  {
    page >= totalPages
  }

  /**
   * On a page at or after the first, the Prev target stays within range and the
   * button is disabled exactly when following it would not change the page; when
   * enabled it moves back by one.
   */
  lemma PrevSpec(page: int)
    requires page >= 1
    ensures 1 <= PrevTarget(page) <= page
    ensures PrevDisabled(page) <==> PrevTarget(page) == page
    ensures !PrevDisabled(page) ==> PrevTarget(page) == page - 1
  {
    assert PrevTarget(page) == if page == 1 then 1 else page - 1;
  }

  /**
   * On a page within range, the Next target stays within range and the button
   * is disabled exactly when following it would not change the page; when
   * enabled it moves forward by one. Past the last page it is disabled.
   */
  lemma NextSpec(page: int, totalPages: int)
    requires 1 <= page
    ensures page <= totalPages ==> page <= NextTarget(page, totalPages) <= totalPages
    ensures page <= totalPages ==> (NextDisabled(page, totalPages) <==> NextTarget(page, totalPages) == page)
    ensures !NextDisabled(page, totalPages) ==> NextTarget(page, totalPages) == page + 1
    ensures page > totalPages ==> NextDisabled(page, totalPages) && NextTarget(page, totalPages) < page
  {
    assert NextTarget(page, totalPages) == if page + 1 <= totalPages then page + 1 else totalPages;
  }

  /** The page buttons: `Array.from({ length: Math.max(1, totalPages) })` mapped to `i + 1`. */
  function PageButtons(totalPages: int): (r: seq<int>)
    ensures |r| == Max(1, totalPages)
  {
    seq(Max(1, totalPages), i => i + 1)
  }

  /** The buttons are exactly the pages 1 .. max(1, totalPages), in increasing order. */
  lemma PageButtonsSpec(totalPages: int)
    ensures PageButtons(totalPages)[0] == 1
    ensures PageButtons(totalPages)[|PageButtons(totalPages)| - 1] == Max(1, totalPages)
    ensures forall i, j :: 0 <= i < j < |PageButtons(totalPages)| ==>
      PageButtons(totalPages)[i] < PageButtons(totalPages)[j]
    ensures forall p :: p in PageButtons(totalPages) <==> 1 <= p <= Max(1, totalPages)
  {
    var r := PageButtons(totalPages);
    forall p | 1 <= p <= Max(1, totalPages)
      ensures p in r
    {
      assert r[p - 1] == p;
    }
  }

  /** Exactly one button is marked active when the page is within range, none otherwise. */
  lemma ActiveButton(page: int, totalPages: int)
    ensures 1 <= page <= Max(1, totalPages) ==>
      PageButtons(totalPages)[page - 1] == page &&
      forall i :: 0 <= i < |PageButtons(totalPages)| && i != page - 1 ==> PageButtons(totalPages)[i] != page
    ensures !(1 <= page <= Max(1, totalPages)) ==> page !in PageButtons(totalPages)
  {
  }
}
