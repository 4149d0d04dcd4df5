/** `filteredAndSortedProducts`: the records the stock screen lists, derived from the
    fetched records and the code filter. Records out of stock are dropped, a non-empty
    filter keeps the codes that contain it (ignoring case), and the rest is sorted by code. */
module View {
  import opened Text
  import opened Records
  import opened Sorting

  predicate HasStock(p: Product) {
    p.existencia > 0
  }

  /** `product.codigo.toLowerCase().includes(filterCodigo.toLowerCase())` */
  predicate CodeMatches(p: Product, filter: string) {
    Includes(Lower(p.codigo), Lower(filter))
  }

  /** The whole selection rule: in stock, and, when the filter is not empty, a matching code. */
  predicate Selected(p: Product, filter: string) {
    HasStock(p) && (filter == "" || CodeMatches(p, filter))
  }

  /** `products.filter((product) => product.existencia > 0)` */
  function InStock(ps: seq<Product>): (r: seq<Product>)
    ensures |r| <= |ps|
    ensures forall i | 0 <= i < |r| :: HasStock(r[i])
  {
    if ps == [] then []
    else (if HasStock(ps[0]) then [ps[0]] else []) + InStock(ps[1..])
  }

  /** `result.filter((product) => <code matches>)` */
  function CodeMatching(ps: seq<Product>, filter: string): (r: seq<Product>)
    ensures |r| <= |ps|
    ensures forall i | 0 <= i < |r| :: CodeMatches(r[i], filter)
  {
    if ps == [] then []
    else (if CodeMatches(ps[0], filter) then [ps[0]] else []) + CodeMatching(ps[1..], filter)
  }

  /** The array the memo hands to `sort`: the in-stock records, narrowed by a non-empty filter.
      An empty filter is falsy in `if (filterCodigo)`, so it narrows nothing. */
  function Matching(ps: seq<Product>, filter: string): seq<Product>
  {
    var inStock := InStock(ps);
    if filter != "" then CodeMatching(inStock, filter) else inStock
  }

  /** The derived view; absent records (still loading, or the fetch failed) give the empty view. */
  function DeriveView(products: Option<seq<Product>>, filter: string): seq<Product>
  {
    match products
    case None => []
    case Some(ps) => SortByCodigo(Matching(ps, filter))
  }

  /** The memo's steps as the screen runs them: filter into a fresh array, sort that array in
      place, and hand it on. The fetched records are a sequence value, so they cannot change. */
  method FilteredAndSorted(products: Option<seq<Product>>, filter: string) returns (view: seq<Product>)
    ensures view == DeriveView(products, filter)
  {
    if products == None {
      return [];
    }
    var result := InStock(products.value);
    if filter != "" {
      result := CodeMatching(result, filter);
    }
    var a := new Product[|result|](i requires 0 <= i < |result| => result[i]);
    assert a[..] == result;
    SortInPlace(a);
    view := a[..];
  }

  lemma {:induction false} InStockCount(ps: seq<Product>, x: Product)
    ensures multiset(InStock(ps))[x] == if HasStock(x) then multiset(ps)[x] else 0
    decreases |ps|
  {
    if ps != [] {
      InStockCount(ps[1..], x);
      assert ps == [ps[0]] + ps[1..];
    }
  }

  lemma {:induction false} CodeMatchingCount(ps: seq<Product>, filter: string, x: Product)
    ensures multiset(CodeMatching(ps, filter))[x] == if CodeMatches(x, filter) then multiset(ps)[x] else 0
    decreases |ps|
  {
    if ps != [] {
      CodeMatchingCount(ps[1..], filter, x);
      assert ps == [ps[0]] + ps[1..];
    }
  }

  /** Each record occurs in the view exactly as often as in the fetched records when it is
      selected, and not at all otherwise: the view is a permutation of the selected records. */
  lemma ViewCount(ps: seq<Product>, filter: string, x: Product)
    ensures multiset(DeriveView(Some(ps), filter))[x] == if Selected(x, filter) then multiset(ps)[x] else 0
  {
    SortPermutes(Matching(ps, filter));
    InStockCount(ps, x);
    if filter != "" {
      CodeMatchingCount(InStock(ps), filter, x);
    }
  }

  /** A record is in the view exactly when it is among the fetched records and selected:
      in stock, and with a code containing a non-empty filter. */
  lemma ViewMembership(ps: seq<Product>, filter: string, x: Product)
    ensures x in DeriveView(Some(ps), filter) <==> x in ps && Selected(x, filter)
  {
    ViewCount(ps, filter, x);
  }

  /** The view never holds more records than were fetched. */
  lemma ViewLength(ps: seq<Product>, filter: string)
    ensures |DeriveView(Some(ps), filter)| <= |ps|
  {
    var m := Matching(ps, filter);
    SortPermutes(m);
    assert |multiset(SortByCodigo(m))| == |multiset(m)|;
  }

  /** Every record in the view has stock, and every code matches a non-empty filter. */
  lemma ViewSelected(products: Option<seq<Product>>, filter: string)
    ensures forall i | 0 <= i < |DeriveView(products, filter)| :: Selected(DeriveView(products, filter)[i], filter)
  {
    if products.Some? {
      var view := DeriveView(products, filter);
      forall i | 0 <= i < |view|
        ensures Selected(view[i], filter)
      {
        ViewMembership(products.value, filter, view[i]);
      }
    }
  }

  /** The view is in ascending order of code; in particular each adjacent pair compares at most zero. */
  lemma ViewSorted(products: Option<seq<Product>>, filter: string)
    ensures SortedByCodigo(DeriveView(products, filter))
    ensures forall i | 0 <= i < |DeriveView(products, filter)| - 1 ::
      Cmp(DeriveView(products, filter)[i].codigo, DeriveView(products, filter)[i + 1].codigo) <= 0
  {
    if products.Some? {
      SortSorted(Matching(products.value, filter));
    }
  }

  lemma {:induction false} InStockWithCode(ps: seq<Product>, c: string)
    ensures WithCode(InStock(ps), c) == InStock(WithCode(ps, c))
    decreases |ps|
  {
    if ps != [] {
      InStockWithCode(ps[1..], c);
      var p, rest := ps[0], ps[1..];
      var w := WithCode(rest, c);
      var head := if HasStock(p) then [p] else [];
      assert InStock(ps) == head + InStock(rest);
      WithCodeAppend(head, InStock(rest), c);
      if head != [] {
        WithCodeSingle(p, c);
      }
      if p.codigo == c {
        assert WithCode(ps, c) == [p] + w;
        assert ([p] + w)[1..] == w;
        assert WithCode(head, c) == head;
      } else {
        assert WithCode(ps, c) == w;
        assert WithCode(head, c) == [];
      }
    }
  }

  lemma {:induction false} CodeMatchingWithCode(ps: seq<Product>, filter: string, c: string)
    ensures WithCode(CodeMatching(ps, filter), c) == CodeMatching(WithCode(ps, c), filter)
    decreases |ps|
  {
    if ps != [] {
      CodeMatchingWithCode(ps[1..], filter, c);
      var p, rest := ps[0], ps[1..];
      var w := WithCode(rest, c);
      var head := if CodeMatches(p, filter) then [p] else [];
      assert CodeMatching(ps, filter) == head + CodeMatching(rest, filter);
      WithCodeAppend(head, CodeMatching(rest, filter), c);
      if head != [] {
        WithCodeSingle(p, c);
      }
      if p.codigo == c {
        assert WithCode(ps, c) == [p] + w;
        assert ([p] + w)[1..] == w;
        assert WithCode(head, c) == head;
      } else {
        assert WithCode(ps, c) == w;
        assert WithCode(head, c) == [];
      }
    }
  }

  /** Records that share a code appear in the view in the order the fetch returned them
      (the sort is stable and the filters keep order). */
  lemma ViewStable(ps: seq<Product>, filter: string, c: string)
    ensures WithCode(DeriveView(Some(ps), filter), c) == Matching(WithCode(ps, c), filter)
  {
    SortStable(Matching(ps, filter), c);
    InStockWithCode(ps, c);
    if filter != "" {
      CodeMatchingWithCode(InStock(ps), filter, c);
    }
  }

  lemma {:induction false} CodeMatchingSameLower(ps: seq<Product>, f1: string, f2: string)
    requires Lower(f1) == Lower(f2)
    ensures CodeMatching(ps, f1) == CodeMatching(ps, f2)
    decreases |ps|
  {
    if ps != [] {
      CodeMatchingSameLower(ps[1..], f1, f2);
    }
  }

  /** The filter ignores case: two filters that lower-case alike give the same view. */
  lemma ViewCaseInsensitive(products: Option<seq<Product>>, f1: string, f2: string)
    requires Lower(f1) == Lower(f2)
    ensures DeriveView(products, f1) == DeriveView(products, f2)
  {
    assert |f1| == |f2|;
    if products.Some? {
      CodeMatchingSameLower(InStock(products.value), f1, f2);
    }
  }

  lemma {:induction false} SumStockInsert(x: Product, s: seq<Product>)
    ensures SumStock(Insert(x, s)) == SumStock(s) + x.existencia
    decreases |s|
  {
    if s == [] {
      assert SumStock([x]) == SumStock([x][..0]) + x.existencia;
    } else {
      assert s == [s[0]] + s[1..];
      SumStockAppend([s[0]], s[1..]);
      assert SumStock([s[0]]) == SumStock([s[0]][..0]) + s[0].existencia;
      assert SumStock([x]) == SumStock([x][..0]) + x.existencia;
      if CodeLe(s[0], x) {
        SumStockInsert(x, s[1..]);
        SumStockAppend([s[0]], Insert(x, s[1..]));
      } else {
        SumStockAppend([x], s);
      }
    }
  }

  lemma {:induction false} SumStockSorted(s: seq<Product>)
    ensures SumStock(SortByCodigo(s)) == SumStock(s)
    decreases |s|
  {
    if s != [] {
      SumStockSorted(s[..|s| - 1]);
      SumStockInsert(s[|s| - 1], SortByCodigo(s[..|s| - 1]));
    }
  }

  /** `totalSumOfFiltered` is the stock of the selected records, whatever order they are listed in. */
  lemma ViewTotal(ps: seq<Product>, filter: string)
    ensures SumStock(DeriveView(Some(ps), filter)) == SumStock(Matching(ps, filter))
  {
    SumStockSorted(Matching(ps, filter));
  }
}
