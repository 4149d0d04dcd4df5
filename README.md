# Product stock screen: a verified model

The inventory screen of this business-administration frontend
(`frontend/src/screens/ProductStockScreen.jsx`) fetches every product record
and lists the ones that have stock. Each record has a code (`codigo`), a brand
(`marca`) and a stock count (`existencia`). The user types a code filter. The
screen:

- drops the records with no stock (`existencia <= 0`);
- for a non-empty filter, keeps the records whose code contains the filter,
  ignoring case;
- sorts what is left by code;
- shows it 32 records per page;
- shows the stock total of the current page and of all matching records.

Changing the filter sends the user back to page 1. The pagination control sets
the page, unchecked.

The model is in six Dafny modules, one file each, plus a seventh of worked examples:

- `Text` (`text.dfy`): the JavaScript string operations the screen relies on.
  These are `toLowerCase`, `includes` and `localeCompare`.
- `Records` (`records.dfy`): the product record, the `Option` that stands for the
  query's `data`, and the `reduce` stock sum.
- `Sorting` (`sorting.dfy`): `result.sort(...)` as a stable sort by code. Its
  specification is insertion sort written as a function, with lemmas for
  sortedness, permutation and stability. `SortInPlace` sorts an `array` in place
  and is proved to produce exactly that function's result.
- `View` (`view.dfy`): the `filteredAndSortedProducts` memo. `DeriveView` is the
  specification. `FilteredAndSorted` runs the memo's steps: filter into a fresh
  array, then sort it in place.
- `Paging` (`paging.dfy`): `totalPages`, the `slice` window of the current page
  (with JavaScript's `slice` index rules, negative indices included), the page
  sums, and the tiling of the view by the windows.
- `StockScreen` (`screen.dfy`): the render data of one render (`Render`) and
  the component's state as a class. The class has the two fields `filterCodigo`
  and `currentPage`, and one method per handler.

`Scenarios` (`scenarios.dfy`) works through small examples: the two three-record lists, 65
records on three pages, the loading state, and a filter change on page 3.

Where the written description of the screen and the code differ, the model
follows the code:

- The page number is not validated anywhere. `HandlePageChange` takes any
  integer, and `Window` gives JavaScript's `slice` result for every page,
  including page 0 and negative pages.
- The memo and both sums are computed on every render, before the loading and
  error checks. The data being absent gives the empty view (`Render`).
- Stock counts are not assumed non-negative. Records with a count of 0 or less
  are dropped by the first filter. The page-total bound is proved for the view,
  whose counts are all positive.

## Model

| member | source | states |
|---|---|---|
| Text.LowerChar | frontend/src/screens/ProductStockScreen.jsx:20 | `toLowerCase` on one character: the result is never an ASCII capital. A capital maps to the letter 32 code points above it. Every other character is unchanged. |
| Text.Lower | frontend/src/screens/ProductStockScreen.jsx:20 | `toLowerCase` keeps the length, turns each ASCII capital into the letter 32 code points above it, keeps every other character, and leaves no capital. |
| Text.LowerIdempotent | frontend/src/screens/ProductStockScreen.jsx:20 | Lower-casing twice gives the same string as lower-casing once. |
| Text.IncludesIff | frontend/src/screens/ProductStockScreen.jsx:20 | `includes` holds exactly when the pattern occurs at some index of the string (both directions). |
| Text.Cmp | frontend/src/screens/ProductStockScreen.jsx:24 | The comparator returns -1, 0 or 1. |
| Text.CmpZeroIff | frontend/src/screens/ProductStockScreen.jsx:24 | The comparator returns 0 exactly when the two codes are equal. |
| Text.CmpFlip | frontend/src/screens/ProductStockScreen.jsx:24 | Swapping the operands negates the comparison. |
| Text.CmpTransitive | frontend/src/screens/ProductStockScreen.jsx:24 | "Compares at most 0" is transitive, so the comparator is a consistent total order for `sort`. |
| Text.CmpNegativeIff | frontend/src/screens/ProductStockScreen.jsx:24 | The comparator is negative exactly when the first code is a proper prefix of the second, or has the smaller character at the first difference. |
| Records.SumStock | frontend/src/screens/ProductStockScreen.jsx:36-43 | The `reduce` sum of stock counts is never negative when no count is negative. |
| Records.SumStockAppend | frontend/src/screens/ProductStockScreen.jsx:36-43 | The sum over a concatenation is the sum of the sums. |
| Records.SumStockSliceBound | frontend/src/screens/ProductStockScreen.jsx:36-43 | With no negative counts, any contiguous part of a list sums to at most the whole. |
| Sorting.WithCodeAppend | frontend/src/screens/ProductStockScreen.jsx:24 | Picking out the records with one code commutes with concatenation. |
| Sorting.WithCodeSingle | frontend/src/screens/ProductStockScreen.jsx:24 | A one-record list yields its record exactly when the codes agree. |
| Sorting.InsertPermutes | frontend/src/screens/ProductStockScreen.jsx:24 | One insertion step adds exactly the inserted record to the multiset of records. |
| Sorting.SortedCons | frontend/src/screens/ProductStockScreen.jsx:24 | A record whose code is at most every code of a sorted list can head it, and the list stays sorted. |
| Sorting.InsertSorted | frontend/src/screens/ProductStockScreen.jsx:24 | Inserting into a list sorted by code keeps it sorted. |
| Sorting.InsertAt | frontend/src/screens/ProductStockScreen.jsx:24 | In a sorted list, the record goes after every code at most its own and before every greater code. |
| Sorting.AllAbove | frontend/src/screens/ProductStockScreen.jsx:24 | If the head of a sorted list may not stand before the record, every code in the list is above the record's code. |
| Sorting.WithCodeInsert | frontend/src/screens/ProductStockScreen.jsx:24 | Insertion places the record behind the records with the same code, and leaves the order of each code's records alone. |
| Sorting.WithCodeLater | frontend/src/screens/ProductStockScreen.jsx:24 | No record with a strictly greater code has the inserted record's code. |
| Sorting.SortPermutes | frontend/src/screens/ProductStockScreen.jsx:24 | The sort returns a permutation of its input: nothing is added, dropped or duplicated. |
| Sorting.SortSorted | frontend/src/screens/ProductStockScreen.jsx:24 | The sort returns its input in ascending order of code. |
| Sorting.SortStable | frontend/src/screens/ProductStockScreen.jsx:24 | The sort is stable: records with the same code keep their input order. |
| Sorting.ShiftGreater | frontend/src/screens/ProductStockScreen.jsx:24 | The shifting loop of one in-place insertion step moves every record above the new code one place right and keeps the rest. It returns a gap whose left neighbour's code is at most the new code. |
| Sorting.ShiftedIsInsert | frontend/src/screens/ProductStockScreen.jsx:24 | The array after a shift and a store into the gap is exactly the functional insertion into the sorted prefix. |
| Sorting.InsertLast | frontend/src/screens/ProductStockScreen.jsx:24 | One in-place step turns a sorted prefix plus the next element into the sorted insertion of that element. The rest of the array is unchanged. |
| Sorting.SortInPlace | frontend/src/screens/ProductStockScreen.jsx:24 | `result.sort(...)` in place: afterwards the array holds exactly the stable sort by code of what it held. |
| View.InStock | frontend/src/screens/ProductStockScreen.jsx:17 | The first `filter` keeps only records with stock and never grows the list. |
| View.CodeMatching | frontend/src/screens/ProductStockScreen.jsx:19-21 | The second `filter` keeps only records whose lower-cased code contains the lower-cased filter, and never grows the list. |
| View.FilteredAndSorted | frontend/src/screens/ProductStockScreen.jsx:14-27 | The memo's steps return the derived view: `[]` for absent data, otherwise the in-stock records, narrowed by a non-empty filter, copied to a fresh array and sorted in place. |
| View.InStockCount | frontend/src/screens/ProductStockScreen.jsx:17 | Each record occurs in the first filter's result as often as in its input if it has stock, and otherwise not at all. |
| View.CodeMatchingCount | frontend/src/screens/ProductStockScreen.jsx:20 | The same multiplicity statement for the code filter. |
| View.ViewCount | frontend/src/screens/ProductStockScreen.jsx:14-27 | The view is a permutation of the selected fetched records: each record occurs as often as in the fetch if selected, and otherwise never. |
| View.ViewMembership | frontend/src/screens/ProductStockScreen.jsx:17-21 | A record is in the view if and only if it was fetched, has stock, and (for a non-empty filter) has a matching code. With an empty filter, every fetched record with stock is kept. |
| View.ViewLength | frontend/src/screens/ProductStockScreen.jsx:14-27 | The view is never longer than the fetched list. |
| View.ViewSelected | frontend/src/screens/ProductStockScreen.jsx:15-21 | Every record of the view has `existencia > 0`. With a non-empty filter, every code contains the filter, ignoring case. This holds for absent data too. |
| View.ViewSorted | frontend/src/screens/ProductStockScreen.jsx:24 | The view is sorted by code: every pair, and in particular every adjacent pair, compares at most 0. |
| View.InStockWithCode | frontend/src/screens/ProductStockScreen.jsx:17 | The stock filter commutes with picking out one code, so it keeps order. |
| View.CodeMatchingWithCode | frontend/src/screens/ProductStockScreen.jsx:20 | The code filter commutes with picking out one code, so it keeps order. |
| View.ViewStable | frontend/src/screens/ProductStockScreen.jsx:17-26 | Records with the same code appear in the view in the order the fetch returned them. |
| View.CodeMatchingSameLower | frontend/src/screens/ProductStockScreen.jsx:20 | Two filters with the same lower-case form keep the same records. |
| View.ViewCaseInsensitive | frontend/src/screens/ProductStockScreen.jsx:19-21 | The view depends on the filter only through its lower-case form. |
| View.SumStockInsert | frontend/src/screens/ProductStockScreen.jsx:24 | An insertion step adds exactly the inserted record's stock to the sum. |
| View.SumStockSorted | frontend/src/screens/ProductStockScreen.jsx:24 | Sorting does not change the stock sum. |
| View.ViewTotal | frontend/src/screens/ProductStockScreen.jsx:41-43 | `totalSumOfFiltered` equals the stock of the selected records before sorting. |
| Paging.TotalPages | frontend/src/screens/ProductStockScreen.jsx:30 | `Math.ceil(len / 32)`: the least page count whose pages hold every record. It is 0 exactly for an empty view. |
| Paging.Window | frontend/src/screens/ProductStockScreen.jsx:31-33 | For page p >= 1: at most 32 records; `view[(p-1)*32 .. min(p*32, len)]` when that start is inside the view; empty once it is not. Page 0 is empty. |
| Paging.WindowFull | frontend/src/screens/ProductStockScreen.jsx:30-33 | Every page before the last has exactly 32 records. |
| Paging.WindowLast | frontend/src/screens/ProductStockScreen.jsx:30-33 | The last page of a non-empty view holds the leftover records, at least one. |
| Paging.WindowBeyond | frontend/src/screens/ProductStockScreen.jsx:30-33 | A page past `totalPages` shows nothing. |
| Paging.PagesUpToPrefix | frontend/src/screens/ProductStockScreen.jsx:31-33 | The windows of pages 1 to k, laid end to end, are the first min(32k, len) records of the view. |
| Paging.WindowsTile | frontend/src/screens/ProductStockScreen.jsx:30-33 | The windows of pages 1 to `totalPages` tile the view: no gap, no overlap. |
| Paging.PageTotalsUpToSum | frontend/src/screens/ProductStockScreen.jsx:36-38 | The page totals of pages 1 to k add up to the stock of those pages' records. |
| Paging.PageTotalsPartition | frontend/src/screens/ProductStockScreen.jsx:30-43 | `sumOfCurrentPage` added up over every page equals `totalSumOfFiltered`. |
| Paging.PageTotalBounded | frontend/src/screens/ProductStockScreen.jsx:31-43 | With no negative counts, any page's total (whatever the page number) is at most the total of the view. |
| StockScreen.RenderEmptyState | frontend/src/screens/ProductStockScreen.jsx:55-61 | The empty-state message shows if and only if the query is neither loading nor failed, and no fetched record has stock and a matching code. |
| StockScreen.RenderTable | frontend/src/screens/ProductStockScreen.jsx:30-43 | A rendered table has fetched, selected rows, at most 32 of them for a page from 1 on. Its page total is at most the grand total. The grand total is positive and equals the selected records' stock. The pagination control shows exactly when more than 32 records match (`totalPages > 1`). |
| StockScreen.TableFacts | frontend/src/screens/ProductStockScreen.jsx:30-43 | Every window row is a fetched, selected record. Any page's total is at most the view's total, which is positive and equals the stock of the selected records. |
| StockScreen.PositiveTotal | frontend/src/screens/ProductStockScreen.jsx:41-43 | A non-empty list whose counts are all positive has a positive stock sum. |
| StockScreen.StalePageShowsNoRows | frontend/src/screens/ProductStockScreen.jsx:31-33 | The page is never clamped: with 1 to 32 matches and a page from 2 on, the table shows no rows, a page total of 0 and no pagination control. |
| StockScreen.WindowInView | frontend/src/screens/ProductStockScreen.jsx:33 | Every record of a window is a record of the view. |
| StockScreen.ProductStockScreen.constructor | frontend/src/screens/ProductStockScreen.jsx:10-11 | The state starts with an empty filter on page 1. |
| StockScreen.ProductStockScreen.OnFilterChange | frontend/src/screens/ProductStockScreen.jsx:76-79 | A filter change stores the new text and resets the page to 1 unconditionally, so the next render is `Render` with that text on page 1. |
| StockScreen.ProductStockScreen.HandlePageChange | frontend/src/screens/ProductStockScreen.jsx:46-48 | A page change stores the given page with no bounds check and leaves the filter unchanged, so the next render is `Render` with the same filter on that page. |
| Scenarios.InStockExample | frontend/src/screens/ProductStockScreen.jsx:17 | Of [B1:5, A1:0, A2:3], the stock filter keeps [B1, A2]. |
| Scenarios.NoFilterListsInStockByCode | frontend/src/screens/ProductStockScreen.jsx:14-27 | With an empty filter, [B1:5, A1:0, A2:3] gives the view [A2, B1] with total 8. |
| Scenarios.FilterIgnoresCase | frontend/src/screens/ProductStockScreen.jsx:19-21 | The filter "b" gives the view [B1] with total 5. |
| Scenarios.SixtyFiveRecords | frontend/src/screens/ProductStockScreen.jsx:30-33 | 65 records make 3 pages of 32, 32 and 1 records; page 4 is empty. |
| Scenarios.LoadingShowsSpinner | frontend/src/screens/ProductStockScreen.jsx:55-57 | While loading, the spinner shows. |

## Left out

- `frontend/src/screens/HomeScreen.jsx` and `frontend/src/components/LoadingSpinner.jsx` are not part of this model. They are navigation and presentation only.
- The `useGetProductsQuery` fetch is modelled only by what it reports: the `Query` datatype, with the data as an `Option` and the two flags. Network, caching and retries are out.
- `window.print()` and `console.log` are host side effects with nothing to state.
- JSX markup is not modelled. This covers the table rows and their keys, the CSS classes, and the heading text built with `toUpperCase` and string concatenation. `Render` keeps the data the markup shows: the filter, the grand total, the empty state or table, the page total, and the `totalPages > 1` pagination gate.
- The `Pagination` component is not part of this model. Its pages reach the model only through `HandlePageChange`.
- `useMemo` caching and React's re-render scheduling are not modelled. They are not observable, so each derivation is a pure function of its inputs.
- Text.Lower: lower-cases ASCII capitals only. JavaScript's `toLowerCase` follows Unicode case mappings, some of which change a string's length. Those live in the runtime's data tables.
- Text.Cmp: plain lexicographic order on code points stands in for `localeCompare`. The real collation depends on the runtime's locale data: it orders accents and case differently and may rank distinct strings as equal. The sort lemmas use only the facts proved about `Cmp`: a total, transitive order whose 0 means equality.
- The engine's own sorting algorithm is not visible. The model uses stable insertion sort; the language standard has required `sort` to be stable since ES2019.
- JavaScript numbers are doubles. The model uses unbounded integers for stock counts, sums and page numbers, so sums beyond 2^53 and fractional pages are not modelled.
- `SortInPlace` is proved against the specification function. The memo's records are a sequence value, so the claim that the fetched array is never modified holds by construction rather than by a frame proof.
