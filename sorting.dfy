/** `result.sort((a, b) => a.codigo.localeCompare(b.codigo))`: a stable sort of the
    records by code. The specification is insertion sort written as a function;
    SortInPlace is the in-place sort on an array, proved to produce exactly it. */
module Sorting {
  import opened Text
  import opened Records

  /** a may stand before b: the comparator does not return a positive number. */
  predicate CodeLe(a: Product, b: Product) {
    Cmp(a.codigo, b.codigo) <= 0
  }

  predicate SortedByCodigo(s: seq<Product>) {
    forall i, j | 0 <= i < j < |s| :: CodeLe(s[i], s[j])
  }

  /** Inserts x into s after every leading record whose code is at most x's,
      so that x lands behind the records with the same code. */
  function Insert(x: Product, s: seq<Product>): seq<Product>
  {
    if s == [] then [x]
    else if CodeLe(s[0], x) then [s[0]] + Insert(x, s[1..])
    else [x] + s
  }

  /** Stable insertion sort by code: each record is inserted, in input order, behind the
      sorted records that came before it. */
  function SortByCodigo(s: seq<Product>): seq<Product>
  {
    if s == [] then [] else Insert(s[|s| - 1], SortByCodigo(s[..|s| - 1]))
  }

  /** The records of s with code c, in the order s holds them. */
  function WithCode(s: seq<Product>, c: string): seq<Product>
  {
    if s == [] then []
    else (if s[0].codigo == c then [s[0]] else []) + WithCode(s[1..], c)
  }

  lemma {:induction false} WithCodeAppend(a: seq<Product>, b: seq<Product>, c: string)
    ensures WithCode(a + b, c) == WithCode(a, c) + WithCode(b, c)
    decreases |a|
  {
    if a == [] {
      assert a + b == b;
    } else {
      var head := if a[0].codigo == c then [a[0]] else [];
      assert (a + b)[0] == a[0];
      assert (a + b)[1..] == a[1..] + b;
      WithCodeAppend(a[1..], b, c);
      calc {
        WithCode(a + b, c);
        head + WithCode(a[1..] + b, c);
        head + (WithCode(a[1..], c) + WithCode(b, c));
        (head + WithCode(a[1..], c)) + WithCode(b, c);
      }
    }
  }

  lemma {:induction false} InsertPermutes(x: Product, s: seq<Product>)
    ensures multiset(Insert(x, s)) == multiset(s) + multiset{x}
    decreases |s|
  {
    if s != [] {
      assert s == [s[0]] + s[1..];
      if CodeLe(s[0], x) {
        InsertPermutes(x, s[1..]);
      }
    }
  }

  /** A record that may stand before every record of a sorted list may head it. */
  lemma SortedCons(y: Product, t: seq<Product>)
    requires SortedByCodigo(t)
    requires forall j | 0 <= j < |t| :: CodeLe(y, t[j])
    ensures SortedByCodigo([y] + t)
  {
    var r := [y] + t;
    forall i, j | 0 <= i < j < |r|
      ensures CodeLe(r[i], r[j])
    {
      assert r[j] == t[j - 1];
      if i > 0 {
        assert r[i] == t[i - 1];
      }
    }
  }

  lemma {:induction false} InsertSorted(x: Product, s: seq<Product>)
    requires SortedByCodigo(s)
    ensures SortedByCodigo(Insert(x, s))
    decreases |s|
  {
    if s == [] {
    } else if CodeLe(s[0], x) {
      var tail := Insert(x, s[1..]);
      InsertSorted(x, s[1..]);
      InsertPermutes(x, s[1..]);
      forall j | 0 <= j < |tail|
        ensures CodeLe(s[0], tail[j])
      {
        assert tail[j] in multiset(tail);
        if tail[j] != x {
          assert tail[j] in multiset(s[1..]);
          var k :| 0 <= k < |s[1..]| && s[1..][k] == tail[j];
          assert s[k + 1] == tail[j];
        }
      }
      SortedCons(s[0], tail);
    } else {
      forall j | 0 <= j < |s|
        ensures CodeLe(x, s[j])
      {
        CmpFlip(s[0].codigo, x.codigo);
        if j > 0 {
          CmpTransitive(x.codigo, s[0].codigo, s[j].codigo);
        }
      }
      SortedCons(x, s);
    }
  }

  /** Inserting into a sorted list puts x at the position where every record before it
      may stand before x and every record after it has a strictly greater code. */
  lemma {:induction false} InsertAt(x: Product, s: seq<Product>, k: nat)
    requires SortedByCodigo(s)
    requires k <= |s|
    requires k > 0 ==> CodeLe(s[k - 1], x)
    requires forall i | k <= i < |s| :: Cmp(s[i].codigo, x.codigo) > 0
    ensures Insert(x, s) == s[..k] + [x] + s[k..]
    decreases |s|
  {
    if s != [] && k > 0 {
      if k > 1 {
        CmpTransitive(s[0].codigo, s[k - 1].codigo, x.codigo);
      }
      InsertAt(x, s[1..], k - 1);
      assert s[..k] == [s[0]] + s[1..][..k - 1];
      assert s[k..] == s[1..][k - 1..];
    }
  }

  /** The sort returns a permutation of its input: nothing added, dropped or duplicated. */
  lemma {:induction false} SortPermutes(s: seq<Product>)
    ensures multiset(SortByCodigo(s)) == multiset(s)
    decreases |s|
  {
    if s != [] {
      var init := s[..|s| - 1];
      SortPermutes(init);
      InsertPermutes(s[|s| - 1], SortByCodigo(init));
      assert s == init + [s[|s| - 1]];
    }
  }

  /** The sort returns its input ordered by code. */
  lemma {:induction false} SortSorted(s: seq<Product>)
    ensures SortedByCodigo(SortByCodigo(s))
    decreases |s|
  {
    if s != [] {
      SortSorted(s[..|s| - 1]);
      InsertSorted(s[|s| - 1], SortByCodigo(s[..|s| - 1]));
    }
  }

  lemma WithCodeSingle(x: Product, c: string)
    ensures WithCode([x], c) == if x.codigo == c then [x] else []
  {
    assert [x][1..] == [];
  }

  /** When the head of a sorted list may not stand before x, every code in the list is above x's. */
  lemma AllAbove(x: Product, s: seq<Product>)
    requires SortedByCodigo(s)
    requires s != [] && !CodeLe(s[0], x)
    ensures forall i | 0 <= i < |s| :: Cmp(s[i].codigo, x.codigo) > 0
  {
    forall i | 0 <= i < |s|
      ensures Cmp(s[i].codigo, x.codigo) > 0
    {
      if i > 0 && Cmp(s[i].codigo, x.codigo) <= 0 {
        CmpTransitive(s[0].codigo, s[i].codigo, x.codigo);
      }
    }
  }

  /** Inserting x into a sorted list puts x behind the records that share its code and
      leaves the order of every other code alone. */
  lemma {:induction false} WithCodeInsert(x: Product, s: seq<Product>, c: string)
    requires SortedByCodigo(s)
    ensures WithCode(Insert(x, s), c) == WithCode(s, c) + WithCode([x], c)
    decreases |s|
  {
    if s == [] {
      assert Insert(x, s) == [x];
    } else if CodeLe(s[0], x) {
      var rest := Insert(x, s[1..]);
      assert Insert(x, s) == [s[0]] + rest;
      WithCodeInsert(x, s[1..], c);
      WithCodeAppend([s[0]], rest, c);
      assert s == [s[0]] + s[1..];
      WithCodeAppend([s[0]], s[1..], c);
    } else {
      assert Insert(x, s) == [x] + s;
      AllAbove(x, s);
      WithCodeAppend([x], s, c);
      WithCodeSingle(x, c);
      if x.codigo == c {
        WithCodeLater(s, x, c);
      }
    }
  }

  /** The sort is stable: records with equal codes keep their input order. */
  lemma {:induction false} SortStable(s: seq<Product>, c: string)
    ensures WithCode(SortByCodigo(s), c) == WithCode(s, c)
    decreases |s|
  {
    if s != [] {
      var init, x := s[..|s| - 1], s[|s| - 1];
      SortStable(init, c);
      SortSorted(init);
      WithCodeInsert(x, SortByCodigo(init), c);
      assert s == init + [x];
      WithCodeAppend(init, [x], c);
    }
  }

  /** No record after x's insertion point shares x's code. */
  lemma {:induction false} WithCodeLater(t: seq<Product>, x: Product, c: string)
    requires x.codigo == c
    requires forall i | 0 <= i < |t| :: Cmp(t[i].codigo, x.codigo) > 0
    ensures WithCode(t, c) == []
    decreases |t|
  {
    if t != [] {
      CmpZeroIff(t[0].codigo, x.codigo);
      WithCodeLater(t[1..], x, c);
    }
  }

  /** The array contents one insertion step leaves: the sorted records before position j,
      then x, then the sorted records from j on, all of which have codes above x's. */
  lemma ShiftedIsInsert(b: seq<Product>, x: Product, sorted: seq<Product>, j: nat)
    requires SortedByCodigo(sorted)
    requires j <= |sorted| && |b| == |sorted| + 1
    requires forall k | 0 <= k < j :: b[k] == sorted[k]
    requires b[j] == x
    requires forall k | j < k < |b| :: b[k] == sorted[k - 1]
    requires forall k | j <= k < |sorted| :: Cmp(sorted[k].codigo, x.codigo) > 0
    requires j > 0 ==> CodeLe(sorted[j - 1], x)
    ensures b == Insert(x, sorted)
  {
    InsertAt(x, sorted, j);
    assert b == sorted[..j] + [x] + sorted[j..];
  }

  /** The loop of one insertion step: shifts the records of a[..i] whose codes are above x's
      one place right, starting from the end, and returns the gap where x belongs. */
  method ShiftGreater(a: array<Product>, i: nat, x: Product) returns (j: nat)
    requires i < a.Length
    modifies a
    ensures j <= i
    ensures forall k | 0 <= k < j :: a[k] == old(a[k])
    ensures forall k | j < k <= i :: a[k] == old(a[k - 1])
    ensures forall k | j <= k < i :: Cmp(old(a[k]).codigo, x.codigo) > 0
    ensures j > 0 ==> CodeLe(old(a[j - 1]), x)
    ensures forall k | i < k < a.Length :: a[k] == old(a[k])
  {
    j := i;
    while j > 0 && Cmp(a[j - 1].codigo, x.codigo) > 0
      invariant 0 <= j <= i
      invariant forall k | 0 <= k < j :: a[k] == old(a[k])
      invariant forall k | j < k <= i :: a[k] == old(a[k - 1])
      invariant forall k | j <= k < i :: Cmp(old(a[k]).codigo, x.codigo) > 0
      invariant forall k | i < k < a.Length :: a[k] == old(a[k])
    {
      a[j] := a[j - 1];
      j := j - 1;
    }
  }

  /** One step of the in-place sort: with a[..i] sorted, moves a[i] back past the records
      with a strictly greater code, so that a[..i + 1] becomes Insert(a[i], a[..i]). */
  method InsertLast(a: array<Product>, i: nat)
    requires i < a.Length
    requires SortedByCodigo(a[..i])
    modifies a
    ensures a[..i + 1] == Insert(old(a[i]), old(a[..i]))
    ensures forall k | i < k < a.Length :: a[k] == old(a[k])
  {
    ghost var sorted := a[..i];
    var x := a[i];
    var j := ShiftGreater(a, i, x);
    a[j] := x;
    ShiftedIsInsert(a[..i + 1], x, sorted, j);
  }

  /** Sorts the array in place; afterwards it holds exactly the stable sort of what it held. */
  method SortInPlace(a: array<Product>)
    modifies a
    ensures a[..] == SortByCodigo(old(a[..]))
  {
    ghost var orig := a[..];
    var i := 0;
    while i < a.Length
      invariant 0 <= i <= a.Length
      invariant a[..i] == SortByCodigo(orig[..i])
      invariant forall k | i <= k < a.Length :: a[k] == orig[k]
    {
      SortSorted(orig[..i]);
      InsertLast(a, i);
      assert orig[..i + 1] == orig[..i] + [orig[i]];
      i := i + 1;
    }
    assert orig[..a.Length] == orig;
  }
}
