/** `ProductStockScreen`: the component state (filter text and current page), the
    handlers that change it, and the data one render of the screen shows. */
module StockScreen {
  import opened Text
  import opened Records
  import opened Sorting
  import opened View
  import opened Paging

  /** What `useGetProductsQuery()` reports: the records (absent until they arrive) and two flags. */
  datatype Query = Query(data: Option<seq<Product>>, isLoading: bool, isError: bool)

  /** The `Pagination` control and what it is given. */
  datatype Pager = Pager(currentPage: int, totalPages: nat)

  /** Below the heading: the empty-state message, or the table of the current page with its
      total and, when there is more than one page, the pagination control. */
  datatype Listing =
    | EmptyState
    | Table(rows: seq<Product>, page: int, pageTotal: int, pager: Option<Pager>)

  /** The three things the component can return. */
  datatype Screen =
    | Spinner
    | FetchError
    | Stock(filter: string, grandTotal: int, listing: Listing)

  /** One render. The memo and the sums are computed before the loading and error checks, as
      in the component; they are only shown when neither flag is set. */
  function Render(q: Query, filter: string, page: int): Screen
  {
    var view := DeriveView(q.data, filter);
    var totalPages := TotalPages(|view|);
    var currentProducts := Window(view, page);
    var sumOfCurrentPage := SumStock(currentProducts);
    var totalSumOfFiltered := SumStock(view);
    if q.isLoading then Spinner
    else if q.isError then FetchError
    else Stock(filter, totalSumOfFiltered,
      if |view| == 0 then EmptyState
      else Table(currentProducts, page, sumOfCurrentPage,
                 if totalPages > 1 then Some(Pager(page, totalPages)) else None))
  }

  /** The empty-state message shows exactly when the query has settled and no fetched record
      is selected: none in stock, or none whose code contains the filter. */
  lemma RenderEmptyState(q: Query, filter: string, page: int)
    ensures Render(q, filter, page).Stock? && Render(q, filter, page).listing == EmptyState <==>
      !q.isLoading && !q.isError && (q.data == None || forall x | x in q.data.value :: !Selected(x, filter))
  {
    if q.data.Some? {
      var ps := q.data.value;
      var view := DeriveView(q.data, filter);
      if |view| > 0 {
        ViewMembership(ps, filter, view[0]);
      } else {
        forall x | x in ps
          ensures !Selected(x, filter)
        {
          ViewMembership(ps, filter, x);
        }
      }
    }
  }

  /** What a table shows is consistent: at most 32 rows for a page from 1 on, all of them selected
      records; a page total no larger than the grand total; a positive grand total equal to the
      stock of the selected records; and a pagination control exactly when there are more than 32. */
  lemma RenderTable(q: Query, filter: string, page: int)
    requires Render(q, filter, page).Stock? && Render(q, filter, page).listing.Table?
    ensures var s := Render(q, filter, page);
      && q.data.Some?
      && (page >= 1 ==> |s.listing.rows| <= ItemsPerPage)
      && (forall x | x in s.listing.rows :: x in q.data.value && Selected(x, filter))
      && s.listing.pageTotal <= s.grandTotal
      && 0 < s.grandTotal == SumStock(Matching(q.data.value, filter))
      && (s.listing.pager.Some? <==> |DeriveView(q.data, filter)| > ItemsPerPage)
  {
    var view := DeriveView(q.data, filter);
    var s := Render(q, filter, page);
    assert q.data.Some? && |view| > 0;
    assert s.grandTotal == SumStock(view);
    assert s.listing.rows == Window(view, page);
    assert s.listing.pageTotal == SumStock(Window(view, page));
    TableFacts(q.data.value, filter, page);
  }

  /** The facts behind RenderTable, stated on the view itself. */
  lemma TableFacts(ps: seq<Product>, filter: string, page: int)
    requires |DeriveView(Some(ps), filter)| > 0
    ensures var view := DeriveView(Some(ps), filter);
      && (forall x | x in Window(view, page) :: x in ps && Selected(x, filter))
      && SumStock(Window(view, page)) <= SumStock(view)
      && 0 < SumStock(view) == SumStock(Matching(ps, filter))
  {
    var view := DeriveView(Some(ps), filter);
    ViewSelected(Some(ps), filter);
    assert NoNegativeStock(view);
    PageTotalBounded(view, page);
    ViewTotal(ps, filter);
    forall x | x in Window(view, page)
      ensures x in ps && Selected(x, filter)
    {
      WindowInView(view, page, x);
      ViewMembership(ps, filter, x);
    }
    PositiveTotal(view);
  }

  /** A non-empty list of records that all have stock has a positive total. */
  lemma PositiveTotal(view: seq<Product>)
    requires |view| > 0
    requires forall i | 0 <= i < |view| :: view[i].existencia > 0
    ensures SumStock(view) > 0
  {
    assert NoNegativeStock(view[..|view| - 1]);
  }

  /** The current page is never clamped: if the records shrink under a page that held rows (a
      refetch, say) the table stays up with no rows, a page total of 0 and, with a single page
      left, no pagination control to leave that page by. */
  lemma StalePageShowsNoRows(q: Query, filter: string, page: int)
    requires !q.isLoading && !q.isError
    requires 0 < |DeriveView(q.data, filter)| <= ItemsPerPage
    requires page >= 2
    ensures Render(q, filter, page) == Stock(filter, SumStock(DeriveView(q.data, filter)), Table([], page, 0, None))
  {
  }

  /** Every record of a window is a record of the view. */
  lemma WindowInView(view: seq<Product>, page: int, x: Product)
    requires x in Window(view, page)
    ensures x in view
  {
    var from, to := RelativeIndex(page * ItemsPerPage - ItemsPerPage, |view|), RelativeIndex(page * ItemsPerPage, |view|);
    var i :| 0 <= i < |view[from..to]| && view[from..to][i] == x;
    assert view[from + i] == x;
  }

  /** The component's own state. */
  class ProductStockScreen {
    var filterCodigo: string
    var currentPage: int

    /** `useState("")` and `useState(1)`. */
    constructor ()
      ensures filterCodigo == "" && currentPage == 1
    {
      filterCodigo := "";
      currentPage := 1;
    }

    /** The filter input's `onChange`: takes the new text and goes back to page 1, whether or
        not the text changes what is listed. */
    method OnFilterChange(text: string)
      modifies this
      ensures filterCodigo == text && currentPage == 1
      ensures forall q :: Show(q) == Render(q, text, 1)
    {
      filterCodigo := text;
      currentPage := 1;
    }

    /** `handlePageChange`: takes the page the pagination control asks for, unchecked. */
    method HandlePageChange(page: int)
      modifies this
      ensures currentPage == page && filterCodigo == old(filterCodigo)
      ensures forall q :: Show(q) == Render(q, old(filterCodigo), page)
    {
      currentPage := page;
    }

    /** What the component renders for the query in its current state. */
    function Show(q: Query): Screen
      reads this
    {
      Render(q, filterCodigo, currentPage)
    }
  }
}
