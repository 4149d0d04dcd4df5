/** The product record the inventory API returns, and the stock total the screen
    reduces a list of records to. */
module Records {

  /** The result of the products query: absent while loading or after a failed fetch. */
  datatype Option<T> = None | Some(value: T)

  /** One inventory record: its database id, product code, brand and units in stock. */
  datatype Product = Product(id: string, codigo: string, marca: string, existencia: int)

  predicate NoNegativeStock(s: seq<Product>) {
    forall i | 0 <= i < |s| :: s[i].existencia >= 0
  }

  /** `reduce((acc, product) => acc + product.existencia, 0)`: units in stock over a list. */
  function SumStock(s: seq<Product>): (r: int)
    ensures NoNegativeStock(s) ==> r >= 0
  {
    if s == [] then 0 else SumStock(s[..|s| - 1]) + s[|s| - 1].existencia
  }

  /** Summing a concatenation is summing the parts. */
  lemma {:induction false} SumStockAppend(a: seq<Product>, b: seq<Product>)
    ensures SumStock(a + b) == SumStock(a) + SumStock(b)
    decreases |b|
  {
    if b == [] {
      assert a + b == a;
    } else {
      var b' := b[..|b| - 1];
      assert (a + b)[..|a + b| - 1] == a + b';
      SumStockAppend(a, b');
    }
  }

  /** With no negative counts, any contiguous part of a list sums to at most the whole. */
  lemma SumStockSliceBound(s: seq<Product>, from: nat, to: nat)
    requires from <= to <= |s|
    requires NoNegativeStock(s)
    ensures SumStock(s[from..to]) <= SumStock(s)
  {
    assert s == s[..from] + s[from..to] + s[to..];
    SumStockAppend(s[..from] + s[from..to], s[to..]);
    SumStockAppend(s[..from], s[from..to]);
    assert NoNegativeStock(s[..from]) && NoNegativeStock(s[to..]);
  }
}
