/**
 * The pagination bar of the user table: which page buttons are shown for a
 * given current page and page count, and which buttons are enabled and what
 * page they request.
 */
module Pagination {
  import opened Wrappers

  /** One button of the page list: a page number or the "..." marker. */
  datatype PageItem = Page(n: int) | Ellipsis

  /** Up to this many pages the bar lists every page and no marker. */
  const MaxVisiblePages: int := 5

  /**
   * The page list (getPages): every page when there are at most five,
   * otherwise one of three windows around the current page.
   * A negative page count gives an empty list, as a negative array length does.
   */
  function GetPages(currentPage: int, totalPages: int): (pages: seq<PageItem>)
    ensures |pages| <= MaxVisiblePages + 2
  {
    if totalPages <= MaxVisiblePages then
      seq(if totalPages < 0 then 0 else totalPages, i => Page(i + 1))
    else if currentPage <= 3 then
      [Page(1), Page(2), Page(3), Page(4), Ellipsis, Page(totalPages - 1), Page(totalPages)]
    else if currentPage >= totalPages - 2 then
      [Page(1), Ellipsis, Page(totalPages - 3), Page(totalPages - 2), Page(totalPages - 1), Page(totalPages)]
    else
      [Page(1), Ellipsis, Page(currentPage - 1), Page(currentPage), Page(currentPage + 1), Ellipsis, Page(totalPages)]
  }

  /** Page numbers strictly increase from left to right. */
  ghost predicate Increasing(pages: seq<PageItem>)
  {
    forall i, j :: 0 <= i < j < |pages| && pages[i].Page? && pages[j].Page? ==> pages[i].n < pages[j].n
  }

  /** Every page number is a real page. */
  ghost predicate WithinPages(pages: seq<PageItem>, totalPages: int)
  {
    forall i :: 0 <= i < |pages| && pages[i].Page? ==> 1 <= pages[i].n <= totalPages
  }

  /** A marker never opens or closes the list and always sits between two page numbers. */
  ghost predicate MarkersBetweenPages(pages: seq<PageItem>)
  {
    forall k :: 0 <= k < |pages| && pages[k].Ellipsis? ==> 0 < k < |pages| - 1 && pages[k - 1].Page? && pages[k + 1].Page?
  }

  /** Two page numbers side by side are consecutive pages: nothing is skipped without a marker. */
  ghost predicate NoSilentGap(pages: seq<PageItem>)
  {
    forall k :: 0 <= k < |pages| - 1 && pages[k].Page? && pages[k + 1].Page? ==> pages[k + 1].n == pages[k].n + 1
  }

  /** Page p is not listed but lies strictly between the two neighbours of the marker at k. */
  ghost predicate HiddenBehind(pages: seq<PageItem>, k: int, p: int)
  {
    0 < k < |pages| - 1 && pages[k].Ellipsis? && pages[k - 1].Page? && pages[k + 1].Page? && pages[k - 1].n < p < pages[k + 1].n
  }

  /** Every marker stands for at least one page that is not listed. */
  ghost predicate MarkersHidePages(pages: seq<PageItem>)
  {
    forall k :: 0 < k < |pages| - 1 && pages[k].Ellipsis? && pages[k - 1].Page? && pages[k + 1].Page? ==> pages[k - 1].n + 1 < pages[k + 1].n
  }

  /** With at most five pages the list is 1, 2, ..., totalPages, without markers. */
  lemma ShortListIsEveryPage(currentPage: int, totalPages: int)
    requires totalPages <= MaxVisiblePages
    ensures var pages := GetPages(currentPage, totalPages);
      && |pages| == (if totalPages < 0 then 0 else totalPages)
      && (forall i :: 0 <= i < |pages| ==> pages[i] == Page(i + 1))
      && Ellipsis !in pages
  {
  }

  /** With more than five pages the list is one of three windows, chosen by the current page. */
  lemma LongListWindows(currentPage: int, totalPages: int)
    requires totalPages > MaxVisiblePages
    ensures currentPage <= 3 ==>
      GetPages(currentPage, totalPages)
        == [Page(1), Page(2), Page(3), Page(4), Ellipsis, Page(totalPages - 1), Page(totalPages)]
    ensures 3 < currentPage && totalPages - 2 <= currentPage ==>
      GetPages(currentPage, totalPages)
        == [Page(1), Ellipsis, Page(totalPages - 3), Page(totalPages - 2), Page(totalPages - 1), Page(totalPages)]
    ensures 3 < currentPage < totalPages - 2 ==>
      GetPages(currentPage, totalPages)
        == [Page(1), Ellipsis, Page(currentPage - 1), Page(currentPage), Page(currentPage + 1), Ellipsis, Page(totalPages)]
  {
  }

  /**
   * The list is short, ordered, within 1..totalPages, starts at page 1 and
   * ends at the last page, and its markers sit between page numbers.
   */
  lemma PageListWellFormed(currentPage: int, totalPages: int)
    ensures WellFormed(GetPages(currentPage, totalPages), totalPages)
  {
    var pages := GetPages(currentPage, totalPages);
    if totalPages <= MaxVisiblePages {
      assert forall i :: 0 <= i < |pages| ==> pages[i] == Page(i + 1);
    } else if currentPage <= 3 {
      LeadingWindowWellFormed(currentPage, totalPages);
    } else if currentPage >= totalPages - 2 {
      TrailingWindowWellFormed(currentPage, totalPages);
    } else {
      MiddleWindowWellFormed(currentPage, totalPages);
    }
  }

  /** The shape every page list has, for a list of page count totalPages. */
  ghost predicate WellFormed(pages: seq<PageItem>, totalPages: int)
  {
    && |pages| <= MaxVisiblePages + 2
    && Increasing(pages)
    && WithinPages(pages, totalPages)
    && MarkersBetweenPages(pages)
    && NoSilentGap(pages)
    && (totalPages >= 1 ==> |pages| > 0 && pages[0] == Page(1) && pages[|pages| - 1] == Page(totalPages))
    && (totalPages <= 0 ==> pages == [])
  }

  lemma LeadingWindowWellFormed(currentPage: int, totalPages: int)
    requires totalPages > MaxVisiblePages && currentPage <= 3
    ensures WellFormed(GetPages(currentPage, totalPages), totalPages)
  {
  }

  lemma TrailingWindowWellFormed(currentPage: int, totalPages: int)
    requires totalPages > MaxVisiblePages && 3 < currentPage && totalPages - 2 <= currentPage
    ensures WellFormed(GetPages(currentPage, totalPages), totalPages)
  {
  }

  lemma MiddleWindowWellFormed(currentPage: int, totalPages: int)
    requires totalPages > MaxVisiblePages && 3 < currentPage < totalPages - 2
    ensures WellFormed(GetPages(currentPage, totalPages), totalPages)
  {
  }

  /** Every page 1..totalPages is either listed or hidden behind a marker. */
  lemma EveryPageReachable(currentPage: int, totalPages: int, p: int)
    requires 1 <= p <= totalPages
    ensures var pages := GetPages(currentPage, totalPages);
      Page(p) in pages || exists k :: HiddenBehind(pages, k, p)
  {
    var pages := GetPages(currentPage, totalPages);
    if totalPages <= MaxVisiblePages {
      assert pages[p - 1] == Page(p);
    } else if currentPage <= 3 {
      if p <= 4 {
        assert pages[p - 1] == Page(p);
      } else if p < totalPages - 1 {
        assert HiddenBehind(pages, 4, p);
      } else {
        assert pages[6 - (totalPages - p)] == Page(p);
      }
    } else if currentPage >= totalPages - 2 {
      if p == 1 {
        assert pages[0] == Page(p);
      } else if p < totalPages - 3 {
        assert HiddenBehind(pages, 1, p);
      } else {
        assert pages[5 - (totalPages - p)] == Page(p);
      }
    } else {
      if p == 1 {
        assert pages[0] == Page(p);
      } else if p < currentPage - 1 {
        assert HiddenBehind(pages, 1, p);
      } else if p <= currentPage + 1 {
        assert pages[p - currentPage + 3] == Page(p);
      } else if p < totalPages {
        assert HiddenBehind(pages, 5, p);
      } else {
        assert pages[6] == Page(p);
      }
    }
  }

  /**
   * Every marker hides at least one page, except in one layout: with six
   * pages and the current page at most 3 the list reads 1 2 3 4 ... 5 6.
   */
  lemma MarkersHidePagesExceptSixPages(currentPage: int, totalPages: int)
    ensures MarkersHidePages(GetPages(currentPage, totalPages)) <==> !(totalPages == 6 && currentPage <= 3)
  {
    var pages := GetPages(currentPage, totalPages);
    if totalPages == 6 && currentPage <= 3 {
      assert pages[3] == Page(4) && pages[4] == Ellipsis && pages[5] == Page(5);
    }
  }

  /** A current page within 1..totalPages is listed exactly once, so exactly one button is active. */
  lemma CurrentPageListedOnce(currentPage: int, totalPages: int)
    requires 1 <= currentPage <= totalPages
    ensures var pages := GetPages(currentPage, totalPages);
      exists k :: 0 <= k < |pages| && pages[k] == Page(currentPage)
        && forall j :: 0 <= j < |pages| && pages[j] == Page(currentPage) ==> j == k
  {
    var pages := GetPages(currentPage, totalPages);
    PageListWellFormed(currentPage, totalPages);
    var k :=
      if totalPages <= MaxVisiblePages || currentPage <= 3 then currentPage - 1
      else if currentPage >= totalPages - 2 then 5 - (totalPages - currentPage)
      else 3;
    assert pages[k] == Page(currentPage);
    IncreasingListsOnce(pages, k);
  }

  /** In an increasing list a page number occurs at one position only. */
  lemma IncreasingListsOnce(pages: seq<PageItem>, k: int)
    requires Increasing(pages) && 0 <= k < |pages| && pages[k].Page?
    ensures forall j :: 0 <= j < |pages| && pages[j] == pages[k] ==> j == k
  {
  }

  /** The "<" button is disabled on page 1. */
  function PrevDisabled(currentPage: int): (r: bool)
    ensures currentPage >= 1 ==> (r <==> PrevTarget(currentPage) < 1)
  {
    currentPage == 1
  }

  /** The ">" button is disabled on the last page. */
  function NextDisabled(currentPage: int, totalPages: int): (r: bool)
    ensures currentPage <= totalPages ==> (r <==> NextTarget(currentPage) > totalPages)
  {
    currentPage == totalPages
  }

  /** The page the "<" button requests. */
  function PrevTarget(currentPage: int): (r: int)
    ensures r < currentPage && NextTarget(r) == currentPage
  {
    currentPage - 1
  }

  /** The page the ">" button requests. */
  function NextTarget(currentPage: int): (r: int)
    ensures r > currentPage && r - currentPage == 1
  {
    currentPage + 1
  }

  /** The page a list button requests when clicked: only page numbers request anything. */
  function ItemTarget(item: PageItem): (r: Option<int>)
    ensures r.Some? <==> item.Page?
    ensures item.Page? ==> r.value == item.n
  {
    match item
    case Page(n) => Some(n)
    case Ellipsis => None
  }

  /** A list button is disabled when it is a marker. */
  function ItemDisabled(item: PageItem): (r: bool)
    ensures r <==> ItemTarget(item).None?
  {
    item == Ellipsis
  }

  /** A list button is highlighted when it shows the current page. */
  function ItemActive(item: PageItem, currentPage: int): (r: bool)
    ensures r <==> ItemTarget(item) == Some(currentPage)
  {
    item.Page? && item.n == currentPage
  }

  /**
   * On a real page, each arrow is disabled exactly when the page it would
   * request lies outside 1..totalPages, so an enabled arrow always requests
   * a real page, and the two arrows move by one page.
   */
  lemma ArrowsStayInRange(currentPage: int, totalPages: int)
    requires 1 <= currentPage <= totalPages
    ensures PrevDisabled(currentPage) <==> !(1 <= PrevTarget(currentPage) <= totalPages)
    ensures NextDisabled(currentPage, totalPages) <==> !(1 <= NextTarget(currentPage) <= totalPages)
    ensures PrevTarget(currentPage) == currentPage - 1 && NextTarget(currentPage) == currentPage + 1
  {
  }

  /**
   * Before any page count is known (totalPages = 0, page 1) the list is empty
   * and the ">" button is enabled and requests page 2.
   */
  lemma NoPagesNextEnabled()
    ensures GetPages(1, 0) == []
    ensures PrevDisabled(1) && !NextDisabled(1, 0) && NextTarget(1) == 2
  {
  }

  /**
   * A list button is enabled exactly when it shows a page number, an enabled
   * one requests a real page, and it is highlighted exactly when that page
   * is the current page.
   */
  lemma ListButtonsRequestRealPages(currentPage: int, totalPages: int, k: int)
    requires 0 <= k < |GetPages(currentPage, totalPages)|
    ensures var item := GetPages(currentPage, totalPages)[k];
      && (ItemDisabled(item) <==> ItemTarget(item).None?)
      && (ItemTarget(item).Some? ==> 1 <= ItemTarget(item).value <= totalPages)
      && (ItemActive(item, currentPage) <==> ItemTarget(item) == Some(currentPage))
  {
    PageListWellFormed(currentPage, totalPages);
  }
}
