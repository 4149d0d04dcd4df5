/** Pagination of the derived view: `totalPages`, the window `currentProducts` of the
    current page, and how the windows of all pages tile the view. */
module Paging {
  import opened Records

  /** `const [itemsPerPage] = useState(32)`: never updated. */
  const ItemsPerPage: nat := 32

  function Min(a: int, b: int): int {
    if a <= b then a else b
  }

  /** `Math.ceil(count / itemsPerPage)`: the fewest pages of 32 that hold count records. */
  function TotalPages(count: nat): (r: nat)
    ensures (r - 1) * ItemsPerPage < count <= r * ItemsPerPage
    ensures r == 0 <==> count == 0
  {
    (count + ItemsPerPage - 1) / ItemsPerPage
  }

  /** The position `Array.prototype.slice` reads an index argument as: a negative index
      counts back from the end, and the result is clamped to 0..len. */
  function RelativeIndex(i: int, len: nat): (r: nat)
    ensures r <= len
  {
    if i < 0 then (if len + i < 0 then 0 else len + i)
    else if i < len then i else len
  }

  /** `s.slice(start, end)` */
  function Slice<T>(s: seq<T>, start: int, end: int): seq<T>
  {
    var from, to := RelativeIndex(start, |s|), RelativeIndex(end, |s|);
    if from < to then s[from..to] else []
  }

  /** `currentProducts`: `view.slice(indexOfFirstItem, indexOfLastItem)` for the given page.
      For a page from 1 on it is the page's run of at most 32 records, empty once the page
      starts past the end; page 0 gives the empty window. */
  function Window(view: seq<Product>, page: int): (w: seq<Product>)
    ensures page >= 1 ==> |w| <= ItemsPerPage
    ensures page >= 1 && (page - 1) * ItemsPerPage >= |view| ==> w == []
    ensures page >= 1 && (page - 1) * ItemsPerPage < |view| ==>
      w == view[(page - 1) * ItemsPerPage..Min(page * ItemsPerPage, |view|)]
    ensures page == 0 ==> w == []
  {
    var indexOfLastItem := page * ItemsPerPage;
    var indexOfFirstItem := indexOfLastItem - ItemsPerPage;
    Slice(view, indexOfFirstItem, indexOfLastItem)
  }

  /** Every page before the last one is full. */
  lemma WindowFull(view: seq<Product>, page: int)
    requires 1 <= page < TotalPages(|view|)
    ensures |Window(view, page)| == ItemsPerPage
  {
    assert page * ItemsPerPage <= (TotalPages(|view|) - 1) * ItemsPerPage;
  }

  /** The last page holds what is left over, at least one record. */
  lemma WindowLast(view: seq<Product>)
    requires |view| > 0
    ensures 0 < |Window(view, TotalPages(|view|))| == |view| - (TotalPages(|view|) - 1) * ItemsPerPage
  {
  }

  /** A page past the last one shows nothing: the current page is never clamped. */
  lemma WindowBeyond(view: seq<Product>, page: int)
    requires page > TotalPages(|view|)
    ensures Window(view, page) == []
  {
    assert (page - 1) * ItemsPerPage >= TotalPages(|view|) * ItemsPerPage;
  }

  /** The windows of pages 1 to k, laid end to end. */
  function PagesUpTo(view: seq<Product>, k: nat): seq<Product>
  {
    if k == 0 then [] else PagesUpTo(view, k - 1) + Window(view, k)
  }

  lemma {:induction false} PagesUpToPrefix(view: seq<Product>, k: nat)
    ensures PagesUpTo(view, k) == view[..Min(k * ItemsPerPage, |view|)]
  {
    if k > 0 {
      PagesUpToPrefix(view, k - 1);
      var first := (k - 1) * ItemsPerPage;
      if first < |view| {
        assert view[..first] + view[first..Min(k * ItemsPerPage, |view|)] == view[..Min(k * ItemsPerPage, |view|)];
      }
    }
  }

  /** The windows of pages 1 to totalPages tile the view: no gap, no overlap, nothing extra. */
  lemma WindowsTile(view: seq<Product>)
    ensures PagesUpTo(view, TotalPages(|view|)) == view
  {
    PagesUpToPrefix(view, TotalPages(|view|));
  }

  /** `sumOfCurrentPage` added up over pages 1 to k. */
  function PageTotalsUpTo(view: seq<Product>, k: nat): int
  {
    if k == 0 then 0 else PageTotalsUpTo(view, k - 1) + SumStock(Window(view, k))
  }

  lemma {:induction false} PageTotalsUpToSum(view: seq<Product>, k: nat)
    ensures PageTotalsUpTo(view, k) == SumStock(PagesUpTo(view, k))
  {
    if k > 0 {
      var before, w := PagesUpTo(view, k - 1), Window(view, k);
      assert PagesUpTo(view, k) == before + w;
      assert PageTotalsUpTo(view, k) == PageTotalsUpTo(view, k - 1) + SumStock(w);
      PageTotalsUpToSum(view, k - 1);
      SumStockAppend(before, w);
    }
  }

  /** The page totals over all pages add up to `totalSumOfFiltered`. */
  lemma PageTotalsPartition(view: seq<Product>)
    ensures PageTotalsUpTo(view, TotalPages(|view|)) == SumStock(view)
  {
    PageTotalsUpToSum(view, TotalPages(|view|));
    WindowsTile(view);
  }

  /** With no negative counts, the total of any page (whatever the page number) is at most
      the total of the whole view. */
  lemma PageTotalBounded(view: seq<Product>, page: int)
    requires NoNegativeStock(view)
    ensures SumStock(Window(view, page)) <= SumStock(view)
  {
    var from, to := RelativeIndex(page * ItemsPerPage - ItemsPerPage, |view|), RelativeIndex(page * ItemsPerPage, |view|);
    if from < to {
      SumStockSliceBound(view, from, to);
    }
  }
}
