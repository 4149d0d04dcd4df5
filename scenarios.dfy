/** Worked examples of the stock screen on small inputs. */
module Scenarios {
  import opened Records
  import opened Sorting
  import opened View
  import opened Paging
  import opened StockScreen

  const B1 := Product("1", "B1", "", 5)
  const A1 := Product("2", "A1", "", 0)
  const A2 := Product("3", "A2", "", 3)

  lemma InStockExample()
    ensures InStock([B1, A1, A2]) == [B1, A2]
  {
    assert [A2][1..] == [];
    assert InStock([A2]) == [A2] + InStock([]);
    assert [A1, A2][1..] == [A2];
    assert InStock([A1, A2]) == [] + InStock([A2]);
    assert [B1, A1, A2][1..] == [A1, A2];
    assert InStock([B1, A1, A2]) == [B1] + InStock([A1, A2]);
  }

  /** With no filter, the out-of-stock A1 is dropped and the rest is listed by code. */
  lemma NoFilterListsInStockByCode()
    ensures DeriveView(Some([B1, A1, A2]), "") == [A2, B1]
    ensures SumStock(DeriveView(Some([B1, A1, A2]), "")) == 8
  {
    InStockExample();
    assert [B1, A2][..1] == [B1];
    assert SortByCodigo([B1]) == [B1] by {
      assert [B1][..0] == [];
    }
    assert [B1][1..] == [];
    assert [A2, B1][..1] == [A2];
    assert [A2][..0] == [];
    assert DeriveView(Some([B1, A1, A2]), "") == [A2, B1];
    assert SumStock([A2]) == 3;
    assert SumStock([A2, B1]) == SumStock([A2]) + 5;
  }

  /** A lower-case filter matches the upper-case code B1 and nothing else. */
  lemma FilterIgnoresCase()
    ensures DeriveView(Some([B1, A1, A2]), "b") == [B1]
    ensures SumStock(DeriveView(Some([B1, A1, A2]), "b")) == 5
  {
    InStockExample();
    assert CodeMatches(B1, "b") by {
      assert Text.Lower("B1") == "b1";
      assert Text.StartsWith("b1", "b");
    }
    assert !CodeMatches(A2, "b") by {
      assert Text.Lower("A2") == "a2";
      assert "a2"[..1] == "a";
      assert "a2"[1..] == "2";
      assert "2"[..1] == "2";
      assert "2"[1..] == "";
      assert !Text.Includes("", "b");
      assert !Text.Includes("2", "b");
      assert !Text.Includes("a2", "b");
    }
    assert CodeMatching([B1, A2], "b") == [B1] by {
      assert [B1, A2][1..] == [A2];
      assert [A2][1..] == [];
      assert CodeMatching([A2], "b") == [] + CodeMatching([], "b");
      assert CodeMatching([B1, A2], "b") == [B1] + CodeMatching([A2], "b");
    }
    assert Matching([B1, A1, A2], "b") == [B1];
    assert [B1][..0] == [];
    assert SortByCodigo([B1]) == Insert(B1, []);
  }

  /** Sixty-five records make three pages: two full ones and a last one with a single record. */
  lemma SixtyFiveRecords(view: seq<Product>)
    requires |view| == 65
    ensures TotalPages(|view|) == 3
    ensures |Window(view, 1)| == 32 && |Window(view, 2)| == 32 && |Window(view, 3)| == 1
    ensures Window(view, 4) == []
  {
  }

  /** While the query is loading the spinner shows, whatever the filter and page. */
  lemma LoadingShowsSpinner(filter: string, page: int)
    ensures Render(Query(None, true, false), filter, page) == Spinner
  {
  }

  /** Moving to page 3 under filter "a" and then typing "b" brings the screen back to page 1. */
  method FilterChangeResetsPage() {
    var screen := new ProductStockScreen();
    assert screen.currentPage == 1;
    screen.OnFilterChange("a");
    screen.HandlePageChange(3);
    assert screen.currentPage == 3 && screen.filterCodigo == "a";
    screen.OnFilterChange("b");
    assert screen.currentPage == 1 && screen.filterCodigo == "b";
    var q := Query(Some([B1, A1, A2]), false, false);
    FilterIgnoresCase();
    assert Window([B1], 1) == [B1][0..1] == [B1];
    assert screen.Show(q) == Stock("b", 5, Table([B1], 1, 5, None));
  }
}
