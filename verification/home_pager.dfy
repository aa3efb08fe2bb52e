/**
 * The home page's card slider: eight cards split into pages by the
 * container width, a current page, and the offset that shows it.
 */
module HomePager {
  import opened JsMath

  const TotalCards: nat := 8
  const CardWidth: nat := 200

  /** `Math.ceil(totalCards / cardsPerPage)`: dividing by zero cards a page
   *  gives `Infinity`. */
  datatype Pages = Finite(n: nat) | Infinity

  /** The slider offset: the initial `'0%'`, or `calc(percent% - px px)`. */
  datatype Position = Initial | Offset(percent: int, px: int)

  datatype Pager = Pager(currentPage: int, cardsPerPage: nat, totalPages: Pages, position: Position)

  /** `getCardsPerPage`: whole cards of 200 pixels in the container. */
  function CardsPerPage(width: nat): (k: nat)
    ensures k * CardWidth <= width < (k + 1) * CardWidth
    ensures k == 0 <==> width < CardWidth
  {
    FloorDiv(width, CardWidth)
  }

  /** The page count `initializeSlider` computes: the fewest pages that
   *  hold every card. */
  function TotalPages(cardsPerPage: nat): (p: Pages)
    ensures p.Infinity? <==> cardsPerPage == 0
    ensures p.Finite? ==> p.n >= 1 && (p.n - 1) * cardsPerPage < TotalCards <= p.n * cardsPerPage
  {
    if cardsPerPage == 0 then Infinity else Finite(CeilDiv(TotalCards, cardsPerPage))
  }

  /** The current page lies inside the slider. */
  predicate InRange(p: Pager)
  {
    1 <= p.currentPage && (p.totalPages.Finite? ==> p.currentPage <= p.totalPages.n)
  }

  /** `ngOnInit`: page 1 of the slider for the container width. */
  function Init(width: nat): (p: Pager)
    ensures InRange(p) && p.currentPage == 1 && p.position == Initial
    ensures p.cardsPerPage == CardsPerPage(width) && p.totalPages == TotalPages(p.cardsPerPage)
  {
    var k := CardsPerPage(width);
    Pager(1, k, TotalPages(k), Initial)
  }

  /** `populatePagePosition`: page `p` starts `p - 1` container widths and
   *  gaps to the left. */
  function PagePosition(page: int): (pos: Position)
    ensures pos.Offset? && pos.percent == -10 * pos.px
    ensures page == 1 <==> pos == Offset(0, 0)
  {
    Offset(-100 * (page - 1), 10 * (page - 1))
  }

  /** Different pages sit at different offsets. */
  lemma PagePositionInjective(a: int, b: int)
    ensures PagePosition(a) == PagePosition(b) <==> a == b
  {
  }

  /** `changePage`: moves by the increment, with no bounds check. */
  function ChangePage(p: Pager, increment: int): (r: Pager)
    ensures r.currentPage == p.currentPage + increment && r.position == PagePosition(r.currentPage)
    ensures r.cardsPerPage == p.cardsPerPage && r.totalPages == p.totalPages
  {
    var page := p.currentPage + increment;
    p.(currentPage := page, position := PagePosition(page))
  }

  /** Moving back undoes moving forward, and a move stays in the slider
   *  exactly when the target page does. */
  lemma ChangePageRoundTrip(p: Pager, increment: int)
    ensures ChangePage(ChangePage(p, increment), -increment) == p.(position := PagePosition(p.currentPage))
    ensures InRange(ChangePage(p, increment)) <==>
              1 <= p.currentPage + increment && (p.totalPages.Finite? ==> p.currentPage + increment <= p.totalPages.n)
  {
  }

  /** Going past the last page is not prevented: one step forward from the
   *  last of four pages leaves the slider. */
  lemma ChangePageLeavesRange()
    ensures var p := Pager(4, 2, TotalPages(2), PagePosition(4));
            && InRange(p) && !InRange(ChangePage(p, 1))
  {
    assert TotalPages(2) == Finite(4);
  }

  /** `windowResize`: nothing happens unless the cards a page change; then
   *  the slider is rebuilt and a page past the new end moves to the last
   *  page. */
  function WindowResize(p: Pager, width: nat): (r: Pager)
    ensures CardsPerPage(width) == p.cardsPerPage ==> r == p
    ensures CardsPerPage(width) != p.cardsPerPage ==>
              && r.cardsPerPage == CardsPerPage(width) && r.totalPages == TotalPages(r.cardsPerPage)
              && (r.currentPage == p.currentPage || (r.totalPages.Finite? && r.currentPage == r.totalPages.n < p.currentPage))
    ensures r.currentPage != p.currentPage ==> r.position == PagePosition(r.currentPage)
    ensures 1 <= p.currentPage && CardsPerPage(width) != p.cardsPerPage ==> InRange(r)
  {
    var k := CardsPerPage(width);
    if k == p.cardsPerPage then p
    else
      var total := TotalPages(k);
      var rebuilt := p.(cardsPerPage := k, totalPages := total);
      if total.Finite? && p.currentPage > total.n then
        rebuilt.(currentPage := total.n, position := PagePosition(total.n))
      else rebuilt
  }

  /** The slider stays in range across resizes, and resizing twice to the
   *  same width is resizing once. */
  lemma ResizeInvariant(p: Pager, width: nat)
    requires InRange(p) && p.totalPages == TotalPages(p.cardsPerPage)
    ensures InRange(WindowResize(p, width))
    ensures WindowResize(p, width).totalPages == TotalPages(WindowResize(p, width).cardsPerPage)
    ensures WindowResize(WindowResize(p, width), width) == WindowResize(p, width)
  {
  }

  /** Below one card's width the page count is infinite, so no resize ever
   *  clamps the page. */
  lemma NarrowContainerNeverClamps(p: Pager, width: nat)
    requires width < CardWidth && p.cardsPerPage != 0
    ensures WindowResize(p, width).totalPages == Infinity
    ensures WindowResize(p, width).currentPage == p.currentPage
  {
  }
}
