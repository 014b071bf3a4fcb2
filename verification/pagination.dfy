/** The pagination arithmetic that every list view of the bookstore repeats:
    `indexOfLastItem = currentPage * itemsPerPage`,
    `indexOfFirstItem = indexOfLastItem - itemsPerPage`,
    `currentItems = list.slice(indexOfFirstItem, indexOfLastItem)` and
    `totalPages = Math.ceil(list.length / itemsPerPage)`.
    Pages are numbered from 1; nothing here stops a caller from passing 0. */
module Pagination {
  import opened JsArray

  /** `indexOfFirstItem`: the zero-based index of the first row of a page. */
  function FirstIndex(page: int, perPage: int): int
  {
    page * perPage - perPage
  }

  /** `indexOfLastItem`: one past the last row of a full page. */
  function LastIndex(page: int, perPage: int): int
  {
    page * perPage
  }

  /** The rows a view renders for `page`. */
  function PageSlice<T>(xs: seq<T>, page: int, perPage: int): (r: seq<T>)
    ensures |r| <= |xs|
    ensures 1 <= page && 0 <= perPage ==> |r| <= perPage
  {
    assert 1 <= page && 0 <= perPage ==> 0 <= FirstIndex(page, perPage) by {
      assert FirstIndex(page, perPage) == (page - 1) * perPage;
    }
    Slice(xs, FirstIndex(page, perPage), LastIndex(page, perPage))
  }

  /** `Math.ceil(length / perPage)`. */
  function TotalPages(len: nat, perPage: int): (r: nat)
    requires 1 <= perPage
    ensures len <= r * perPage
    ensures len == 0 ==> r == 0
    ensures 0 < len ==> (r - 1) * perPage < len
  {
    var r := (len + perPage - 1) / perPage;
    assert r * perPage <= len + perPage - 1 < r * perPage + perPage;
    r
  }

  function Min(a: int, b: int): int { if a <= b then a else b }
  function Max(a: int, b: int): int { if a <= b then b else a }

  /** For a page number from 1 on, the view shows the rows from
      `(page-1)*perPage` up to `page*perPage`, both cut off at the end of
      the list. */
  lemma PageSliceRows<T>(xs: seq<T>, page: int, perPage: int)
    requires 1 <= page && 1 <= perPage
    ensures (page - 1) * perPage >= 0
    ensures PageSlice(xs, page, perPage)
         == xs[Min((page - 1) * perPage, |xs|)..Min(page * perPage, |xs|)]
    ensures PageSlice(xs, page, perPage) == PageRows(xs, page, perPage)
  {
    assert FirstIndex(page, perPage) == (page - 1) * perPage;
    assert (page - 1) * perPage <= page * perPage;
  }

  /** Page `page + 1` carries on exactly where page `page` stops: the two
      pages side by side are the slice spanning both. */
  lemma NeighbourPagesJoin<T>(xs: seq<T>, page: int, perPage: int)
    requires 1 <= page && 1 <= perPage
    ensures PageSlice(xs, page, perPage) + PageSlice(xs, page + 1, perPage)
         == Slice(xs, FirstIndex(page, perPage), LastIndex(page + 1, perPage))
  {
    assert FirstIndex(page + 1, perPage) == LastIndex(page, perPage);
    assert 0 <= FirstIndex(page, perPage) <= LastIndex(page, perPage) by {
      assert FirstIndex(page, perPage) == (page - 1) * perPage;
    }
    SliceJoin(xs, FirstIndex(page, perPage), LastIndex(page, perPage), LastIndex(page + 1, perPage));
  }

  /** What a page from 1 on should show, by index arithmetic alone: rows
      `(page-1)*perPage` up to `page*perPage`, cut off at the list's end. */
  function PageRows<T>(xs: seq<T>, page: int, perPage: int): seq<T>
    requires 1 <= page && 1 <= perPage
  {
    MulMono(0, page - 1, perPage);
    MulMono(page - 1, page, perPage);
    xs[Min((page - 1) * perPage, |xs|)..Min(page * perPage, |xs|)]
  }

  /** `currentItems` of a list view in state `s`: for a page from 1 on,
      exactly the rows `PageRows` names. */
  function CurrentItems<T>(xs: seq<T>, s: PageState): (r: seq<T>)
    ensures 1 <= s.page && 1 <= s.perPage ==> r == PageRows(xs, s.page, s.perPage)
    ensures 1 <= s.page && 0 <= s.perPage ==> |r| <= s.perPage
    ensures |r| <= |xs|
  {
    var r := PageSlice(xs, s.page, s.perPage);
    if 1 <= s.page && 1 <= s.perPage then PageSliceRows(xs, s.page, s.perPage); r else r
  }

  /** A page from 1 on is empty exactly when the rows before it already
      take up the whole list. */
  lemma PageEmptyIff<T>(xs: seq<T>, page: int, perPage: int)
    requires 1 <= page && 1 <= perPage
    ensures PageSlice(xs, page, perPage) == [] <==> (page - 1) * perPage >= |xs|
  {
    PageSliceRows(xs, page, perPage);
    assert page * perPage == (page - 1) * perPage + perPage;
  }

  /** Multiplying by a non-negative factor keeps the order. */
  lemma MulMono(a: int, b: int, c: int)
    requires a <= b && 0 <= c
    ensures a * c <= b * c
  {
    assert b * c - a * c == (b - a) * c;
  }

  /** Every page before the last is full, the last page holds what is left,
      and every page after it is empty. */
  lemma PageSizes<T>(xs: seq<T>, page: int, perPage: int)
    requires 1 <= page && 1 <= perPage
    ensures var total := TotalPages(|xs|, perPage);
      && (page < total ==> |PageSlice(xs, page, perPage)| == perPage)
      && (page == total ==> |PageSlice(xs, page, perPage)| == |xs| - perPage * (total - 1) > 0)
      && (page > total ==> PageSlice(xs, page, perPage) == [])
  {
    var total := TotalPages(|xs|, perPage);
    PageSliceRows(xs, page, perPage);
    var lo, hi := (page - 1) * perPage, page * perPage;
    assert hi == lo + perPage;
    if page < total {
      MulMono(page, total - 1, perPage);
      assert hi <= (total - 1) * perPage < |xs|;
    } else if page == total {
      assert lo < |xs| <= hi;
      assert perPage * (total - 1) == lo;
    } else {
      MulMono(total, page - 1, perPage);
      assert |xs| <= total * perPage <= lo;
    }
  }

  /** Page 0, which the catalog search switches to, is empty whatever the
      list: its slice runs from `-perPage` (counted back from the end) up to
      index 0. */
  lemma PageZeroIsEmpty<T>(xs: seq<T>, perPage: int)
    requires 0 <= perPage
    ensures PageSlice(xs, 0, perPage) == []
  {
    assert LastIndex(0, perPage) == 0;
  }

  /** The pages 1..k, read one after the other, are the list's first
      `k*perPage` rows. */
  function Pages<T>(xs: seq<T>, k: nat, perPage: int): seq<T>
  {
    if k == 0 then [] else Pages(xs, k - 1, perPage) + PageSlice(xs, k, perPage)
  }

  lemma {:induction false} PagesPrefix<T>(xs: seq<T>, k: nat, perPage: int)
    requires 1 <= perPage
    ensures Pages(xs, k, perPage) == xs[..Min(k * perPage, |xs|)]
  {
    if k > 0 {
      PagesPrefix(xs, k - 1, perPage);
      PageSliceRows(xs, k, perPage);
      PagesPrefixStep(xs, k, perPage);
    }
  }

  lemma PagesPrefixStep<T>(xs: seq<T>, k: nat, perPage: int)
    requires 1 <= perPage && 1 <= k
    ensures xs[..Min((k - 1) * perPage, |xs|)] + xs[Min((k - 1) * perPage, |xs|)..Min(k * perPage, |xs|)]
         == xs[..Min(k * perPage, |xs|)]
  {
    var a, b := Min((k - 1) * perPage, |xs|), Min(k * perPage, |xs|);
    assert 0 <= a <= b by {
      assert k * perPage == (k - 1) * perPage + perPage;
    }
    assert xs[..a] + xs[a..b] == xs[..b];
  }

  /** Paging loses and repeats nothing: the pages 1..totalPages in order
      are the whole list. */
  lemma PagesCoverList<T>(xs: seq<T>, perPage: int)
    requires 1 <= perPage
    ensures Pages(xs, TotalPages(|xs|, perPage), perPage) == xs
  {
    PagesPrefix(xs, TotalPages(|xs|, perPage), perPage);
  }

  /** The first number of the "Showing a to b of n" caption. */
  function ShowingFrom(page: int, perPage: int): int
  {
    FirstIndex(page, perPage) + 1
  }

  /** The second number of the "Showing a to b of n" caption. */
  function ShowingTo(page: int, perPage: int, len: nat): int
  {
    Min(LastIndex(page, perPage), len)
  }

  /** The serial number printed in the first column of row `index` of the
      page: `indexOfFirstItem + index + 1`. */
  function SerialNumber(page: int, perPage: int, index: int): int
  {
    FirstIndex(page, perPage) + index + 1
  }

  /** On an existing page the caption counts exactly the rows shown, and row
      `i` of the page is list element number `SerialNumber(page, perPage, i)`
      counting from 1. */
  lemma CaptionAndSerials<T>(xs: seq<T>, page: int, perPage: int)
    requires 1 <= perPage && 1 <= page <= TotalPages(|xs|, perPage)
    ensures var rows := PageSlice(xs, page, perPage);
      && |rows| == ShowingTo(page, perPage, |xs|) - ShowingFrom(page, perPage) + 1
      && forall i :: 0 <= i < |rows| ==>
           1 <= SerialNumber(page, perPage, i) <= |xs|
           && rows[i] == xs[SerialNumber(page, perPage, i) - 1]
  {
    PageSliceRows(xs, page, perPage);
    PageSizes(xs, page, perPage);
    assert FirstIndex(page, perPage) == (page - 1) * perPage;
    assert (page - 1) * perPage < |xs|;
  }

  /** BookDetails' Previous button: `Math.max(prev - 1, 1)`. */
  function PrevPage(page: int): int
  {
    Max(page - 1, 1)
  }

  /** BookDetails' Next button: `Math.min(prev + 1, totalPages)`. */
  function NextPage(page: int, total: int): int
  {
    Min(page + 1, total)
  }

  /** From a page that exists, the clamped Previous and Next buttons move at
      most one page and never leave 1..totalPages; each stays put exactly at
      its own end. */
  lemma PrevNextStayInRange(page: int, total: int)
    requires 1 <= page <= total
    ensures 1 <= PrevPage(page) <= page && page <= NextPage(page, total) <= total
    ensures PrevPage(page) == page <==> page == 1
    ensures NextPage(page, total) == page <==> page == total
    ensures page > 1 ==> PrevPage(page) == page - 1
    ensures page < total ==> NextPage(page, total) == page + 1
  {
  }

  /** On an empty list there are no pages, and Next (which stays enabled
      because `1 !== 0`) moves the view from page 1 to page 0. */
  lemma NextOnEmptyList(perPage: int)
    requires 1 <= perPage
    ensures TotalPages(0, perPage) == 0 && NextPage(1, TotalPages(0, perPage)) == 0
    ensures !NextDisabled(1, TotalPages(0, perPage))
  {
  }

  /** `disabled={currentPage === 1}` */
  predicate PrevDisabled(page: int)
  {
    page == 1
  }

  /** `disabled={currentPage === totalPages}` */
  predicate NextDisabled(page: int, total: int)
  {
    page == total
  }

  /** The unclamped `paginate(currentPage - 1)` / `paginate(currentPage + 1)`
      of the orders and notifications views: a button that is enabled on an
      existing page leads to an existing page. */
  lemma EnabledButtonsStayInRange(page: int, total: int)
    requires 1 <= page <= total
    ensures !PrevDisabled(page) ==> 1 <= page - 1 <= total
    ensures !NextDisabled(page, total) ==> 1 <= page + 1 <= total
    ensures PrevDisabled(page) <==> page - 1 < 1
    ensures NextDisabled(page, total) <==> page + 1 > total
  {
  }

  /** Which page a list view shows and how many rows a page holds. */
  datatype PageState = PageState(page: int, perPage: int)

  /** `handleItemsPerPageChange` of the orders, notifications and purchase
      history views: the new size, and back to page 1. */
  function ChangePerPage(s: PageState, perPage: int): (r: PageState)
    ensures r.perPage == perPage && r.page == 1
  {
    PageState(1, perPage)
  }

  /** After a page-size change the view shows the list's first rows, for
      whatever page it was on before. */
  lemma ChangePerPageShowsFirstRows<T>(xs: seq<T>, s: PageState, perPage: int)
    requires 1 <= perPage
    ensures var r := ChangePerPage(s, perPage);
      PageSlice(xs, r.page, r.perPage) == xs[..Min(perPage, |xs|)]
      && (|xs| > 0 ==> PageSlice(xs, r.page, r.perPage) != [])
  {
    PageSliceRows(xs, 1, perPage);
  }
}
