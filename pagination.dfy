/**
 * The pagination bar: the window of page-number buttons around the current
 * page, and the "Previous" and "Next" buttons beside it.
 */
module Pagination {
  import opened JsValues

  /** At most this many page-number buttons are shown. */
  const MaxVisiblePages: int := 5

  /**
   * `getPageNumbers()`: consecutive page numbers, clamped to `[1, totalPages]`,
   * as many as fit up to five, placed so that the current page is in the middle
   * when it can be and the window slides to an end otherwise.
   */
  method GetPageNumbers(currentPage: int, totalPages: int) returns (pages: seq<int>)
    ensures |pages| == if 1 <= totalPages then Min(MaxVisiblePages, totalPages) else 0
    ensures forall k :: 0 <= k < |pages| ==> 1 <= pages[k] <= totalPages
    ensures forall k :: 0 < k < |pages| ==> pages[k] == pages[k - 1] + 1
    ensures |pages| > 0 ==> pages[0] == Max(1, Min(currentPage - 2, totalPages - 4))
    ensures 1 <= currentPage <= totalPages ==> currentPage in pages
    ensures 3 <= currentPage <= totalPages - 2 ==>
      pages == [currentPage - 2, currentPage - 1, currentPage, currentPage + 1, currentPage + 2]
  {
    pages := [];
    var startPage := Max(1, currentPage - MaxVisiblePages / 2);
    var endPage := Min(totalPages, startPage + MaxVisiblePages - 1);

    if endPage - startPage + 1 < MaxVisiblePages {
      startPage := Max(1, endPage - MaxVisiblePages + 1);
    }

    var i := startPage;
    while i <= endPage
      invariant startPage <= i
      invariant i <= endPage + 1 || i == startPage
      invariant |pages| == i - startPage
      invariant forall k :: 0 <= k < |pages| ==> pages[k] == startPage + k
    {
      pages := pages + [i];
      i := i + 1;
    }
    if 1 <= currentPage <= totalPages {
      assert pages[currentPage - startPage] == currentPage;
    }
  }

  /** One page-number button: the page it selects, and whether it is the highlighted current page. */
  datatype PageButton = PageButton(page: int, active: bool)

  /** What the component renders. */
  datatype View =
    | Hidden
    | Bar(previousDisabled: bool, previousPage: int, buttons: seq<PageButton>, nextDisabled: bool, nextPage: int)

  /**
   * The `Pagination` component: nothing for a single page or none; otherwise
   * "Previous" (asking for the page before, disabled on page 1), the window of
   * page buttons with the current one highlighted, and "Next" (asking for the
   * page after, disabled on the last page).
   */
  method Render(currentPage: int, totalPages: int) returns (view: View)
    ensures view.Hidden? <==> totalPages <= 1
    ensures view.Bar? ==>
      view.previousDisabled == (currentPage == 1) && view.previousPage == currentPage - 1 &&
      view.nextDisabled == (currentPage == totalPages) && view.nextPage == currentPage + 1
    ensures view.Bar? ==> |view.buttons| == Min(MaxVisiblePages, totalPages)
    ensures view.Bar? ==> forall k :: 0 <= k < |view.buttons| ==>
      1 <= view.buttons[k].page <= totalPages &&
      (view.buttons[k].active <==> view.buttons[k].page == currentPage)
    ensures view.Bar? ==> view.buttons[0].page == Max(1, Min(currentPage - 2, totalPages - 4))
    ensures view.Bar? ==> forall k :: 0 < k < |view.buttons| ==> view.buttons[k].page == view.buttons[k - 1].page + 1
    ensures view.Bar? && 1 <= currentPage <= totalPages ==>
      exists k :: 0 <= k < |view.buttons| && view.buttons[k] == PageButton(currentPage, true)
  {
    if totalPages <= 1 {
      return Hidden;
    }
    var pages := GetPageNumbers(currentPage, totalPages);
    var buttons := seq(|pages|, k requires 0 <= k < |pages| => PageButton(pages[k], pages[k] == currentPage));
    if 1 <= currentPage <= totalPages {
      var k :| 0 <= k < |pages| && pages[k] == currentPage;
      assert buttons[k] == PageButton(currentPage, true);
    }
    view := Bar(currentPage == 1, currentPage - 1, buttons, currentPage == totalPages, currentPage + 1);
  }
}
