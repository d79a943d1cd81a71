/**
 * FaultCatalog::loadJsonl (services/control/fault/fault_catalog.cpp) once the items are read: each
 * code keeps its best duplicate, and the code lists come out sorted the same way whatever order
 * the hash table is walked in.
 */
module FaultCatalog {
  import opened Words
  import opened Sorting

  /** FaultMeta, without its texts. */
  datatype Meta = Meta(code: U16, rank: int, order: int, recordDb: bool, showCurrent: bool, showHistory: bool)

  predicate Better(a: Meta, b: Meta) {
    a.rank < b.rank || (a.rank == b.rank && a.order < b.order)
  }

  /** The order of the code lists. */
  predicate Before(a: Meta, b: Meta) {
    if a.rank != b.rank then a.rank < b.rank
    else if a.order != b.order then a.order < b.order
    else a.code < b.code
  }

  function Kept(m: map<U16, Meta>, item: Meta): map<U16, Meta> {
    if item.code !in m || Better(item, m[item.code]) then m[item.code := item] else m
  }

  /** The table after reading the items. */
  function Table(items: seq<Meta>): map<U16, Meta> {
    if |items| == 0 then map[] else Kept(Table(items[..|items| - 1]), items[|items| - 1])
  }

  /** Item k has the lowest rank of its code, of those the lowest order, and of those comes first. */
  predicate IsBest(items: seq<Meta>, k: nat)
    requires k < |items|
  {
    forall j :: 0 <= j < |items| && items[j].code == items[k].code ==>
      || items[k].rank < items[j].rank
      || (items[k].rank == items[j].rank && items[k].order < items[j].order)
      || (items[k].rank == items[j].rank && items[k].order == items[j].order && k <= j)
  }

  /** Item k of the items is the one the table keeps for its code. */
  predicate KeptAt(items: seq<Meta>, c: U16, item: Meta, k: nat) {
    k < |items| && items[k] == item && items[k].code == c && IsBest(items, k)
  }

  /** Each code of the items, and no other, is in the table with its first best item. */
  lemma {:induction false} TableKeepsBest(items: seq<Meta>, c: U16)
    ensures c in Table(items) <==> exists k :: 0 <= k < |items| && items[k].code == c
    ensures c in Table(items) ==> exists k: nat :: KeptAt(items, c, Table(items)[c], k)
  {
    TableHasCodes(items, c);
    if c in Table(items) {
      var k := KeptBest(items, c);
    }
  }

  lemma {:induction false} TableHasCodes(items: seq<Meta>, c: U16)
    ensures c in Table(items) <==> exists k :: 0 <= k < |items| && items[k].code == c
  {
    if |items| > 0 {
      var n := |items| - 1;
      TableHasCodes(items[..n], c);
      if k :| 0 <= k < n && items[..n][k].code == c {
        assert items[k].code == c;
      }
    }
  }

  lemma {:induction false} KeptBest(items: seq<Meta>, c: U16) returns (k: nat)
    requires c in Table(items)
    ensures KeptAt(items, c, Table(items)[c], k)
  {
    var n := |items| - 1;
    var pre, item := items[..n], items[n];
    assert items == pre + [item];
    TableHasCodes(pre, c);
    if c in Table(pre) {
      k := KeptBest(pre, c);
      if item.code == c && Better(item, pre[k]) {
        BestOfMore(pre, item, k);
        k := n;
      }
    } else {
      k := n;
      assert forall j :: 0 <= j < n ==> pre[j].code != c;
    }
  }

  lemma BestOfMore(pre: seq<Meta>, item: Meta, k: nat)
    requires k < |pre| && IsBest(pre, k) && item.code == pre[k].code && Better(item, pre[k])
    ensures IsBest(pre + [item], |pre|)
  {}

  // ---- The lists -------------------------------------------------------------------------

  /** The table's values in the sort order. */
  ghost predicate Lists(metas: seq<Meta>, m: map<U16, Meta>) {
    Sorted(metas, Before) && Elements(metas) == m.Values
  }

  predicate WellKeyed(m: map<U16, Meta>) {
    forall c :: c in m ==> m[c].code == c
  }

  lemma {:induction false} TableWellKeyed(items: seq<Meta>)
    ensures WellKeyed(Table(items))
  {
    if |items| > 0 {
      TableWellKeyed(items[..|items| - 1]);
    }
  }

  lemma BeforeOrders(m: map<U16, Meta>)
    requires WellKeyed(m)
    ensures OrdersStrictly(Before, m.Values)
  {}

  /** The lists do not depend on how the table was walked. */
  lemma ListingUnique(a: seq<Meta>, b: seq<Meta>, m: map<U16, Meta>)
    requires WellKeyed(m) && Lists(a, m) && Lists(b, m)
    ensures a == b
  {
    BeforeOrders(m);
    SortedUnique(a, b, Before);
  }

  function Codes(metas: seq<Meta>): seq<U16> {
    if |metas| == 0 then [] else Codes(metas[..|metas| - 1]) + [metas[|metas| - 1].code]
  }

  /** The codes of the items that ask for something, in their order. */
  function Asking(metas: seq<Meta>, asks: Meta -> bool): seq<U16> {
    if |metas| == 0 then []
    else
      var n := |metas| - 1;
      var before := Asking(metas[..n], asks);
      if asks(metas[n]) then before + [metas[n].code] else before
  }

  predicate ForCurrent(m: Meta) { m.showCurrent }

  predicate ForHistory(m: Meta) { m.showHistory }

  function CurrentCodes(metas: seq<Meta>): seq<U16> {
    Asking(metas, ForCurrent)
  }

  function HistoryCodes(metas: seq<Meta>): seq<U16> {
    Asking(metas, ForHistory)
  }

  lemma {:induction false} AskingExact(metas: seq<Meta>, asks: Meta -> bool, c: U16)
    ensures c in Asking(metas, asks) <==> exists k :: 0 <= k < |metas| && metas[k].code == c && asks(metas[k])
  {
    if |metas| > 0 {
      var n := |metas| - 1;
      AskingExact(metas[..n], asks, c);
      if c in Asking(metas[..n], asks) {
        var k :| 0 <= k < n && metas[..n][k].code == c && asks(metas[..n][k]);
        assert metas[k].code == c && asks(metas[k]);
      }
    }
  }

  lemma {:induction false} AskingDistinct(metas: seq<Meta>, asks: Meta -> bool)
    requires forall i, j :: 0 <= i < j < |metas| ==> metas[i].code != metas[j].code
    ensures Distinct(Asking(metas, asks))
  {
    if |metas| > 0 {
      var n := |metas| - 1;
      AskingDistinct(metas[..n], asks);
      AskingExact(metas[..n], asks, metas[n].code);
      assert forall k :: 0 <= k < n ==> metas[..n][k].code != metas[n].code;
    }
  }

  /** By rank, then by order, then by code. */
  predicate InOrder(a: Meta, b: Meta) {
    a.rank < b.rank || (a.rank == b.rank && (a.order < b.order || (a.order == b.order && a.code < b.code)))
  }

  /** A list of codes of the table runs by rank, order and code. */
  predicate RunsInOrder(list: seq<U16>, m: map<U16, Meta>) {
    && (forall i :: 0 <= i < |list| ==> list[i] in m)
    && (forall i, j :: 0 <= i < j < |list| ==> InOrder(m[list[i]], m[list[j]]))
  }

  lemma {:induction false} AskingInOrder(metas: seq<Meta>, asks: Meta -> bool, m: map<U16, Meta>)
    requires forall i :: 0 <= i < |metas| ==> metas[i].code in m && m[metas[i].code] == metas[i]
    requires forall i, j :: 0 <= i < j < |metas| ==> InOrder(metas[i], metas[j])
    ensures RunsInOrder(Asking(metas, asks), m)
  {
    if |metas| > 0 {
      var n := |metas| - 1;
      AskingInOrder(metas[..n], asks, m);
      forall c | c in Asking(metas[..n], asks)
        ensures c in m && InOrder(m[c], metas[n])
      {
        AskingExact(metas[..n], asks, c);
        var k :| 0 <= k < n && metas[..n][k].code == c && asks(metas[..n][k]);
        assert metas[k].code == c && InOrder(metas[k], metas[n]);
      }
    }
  }

  lemma ListedOnce(metas: seq<Meta>, m: map<U16, Meta>)
    requires WellKeyed(m) && Lists(metas, m)
    ensures forall i, j :: 0 <= i < j < |metas| ==> metas[i].code != metas[j].code
  {
    BeforeOrders(m);
    SortedDistinct(metas, Before);
    forall i, j | 0 <= i < j < |metas|
      ensures metas[i].code != metas[j].code
    {
      assert metas[i] in Elements(metas) && metas[j] in Elements(metas);
    }
  }

  lemma {:induction false} ListExact(items: seq<Meta>, metas: seq<Meta>, asks: Meta -> bool, c: U16)
    requires Lists(metas, Table(items))
    ensures c in Asking(metas, asks) <==> c in Table(items) && asks(Table(items)[c])
    ensures Distinct(Asking(metas, asks)) && RunsInOrder(Asking(metas, asks), Table(items))
  {
    var m := Table(items);
    TableWellKeyed(items);
    ListedOnce(metas, m);
    AskingDistinct(metas, asks);
    AskingExact(metas, asks, c);
    assert forall i :: 0 <= i < |metas| ==> metas[i] in Elements(metas);
    AskingInOrder(metas, asks, m);
    if c in Asking(metas, asks) {
      var k :| 0 <= k < |metas| && metas[k].code == c && asks(metas[k]);
      assert metas[k] in Elements(metas);
    }
    if c in m && asks(m[c]) {
      assert m[c] in Elements(metas);
      var k :| 0 <= k < |metas| && metas[k] == m[c];
    }
  }

  /** The current list holds exactly the codes whose best item asks for it, each once, by rank, order
      and code. */
  lemma {:induction false} CurrentListExact(items: seq<Meta>, metas: seq<Meta>, c: U16)
    requires Lists(metas, Table(items))
    ensures c in CurrentCodes(metas) <==> c in Table(items) && Table(items)[c].showCurrent
    ensures Distinct(CurrentCodes(metas)) && RunsInOrder(CurrentCodes(metas), Table(items))
  {
    ListExact(items, metas, ForCurrent, c);
  }

  /** The history list those whose best item asks for that. */
  lemma {:induction false} HistoryListExact(items: seq<Meta>, metas: seq<Meta>, c: U16)
    requires Lists(metas, Table(items))
    ensures c in HistoryCodes(metas) <==> c in Table(items) && Table(items)[c].showHistory
    ensures Distinct(HistoryCodes(metas)) && RunsInOrder(HistoryCodes(metas), Table(items))
  {
    ListExact(items, metas, ForHistory, c);
  }

  /** The list of all codes holds those of the table, in the same order. */
  lemma {:induction false} AllListExact(items: seq<Meta>, metas: seq<Meta>, c: U16)
    requires Lists(metas, Table(items))
    ensures c in Codes(metas) <==> c in Table(items)
    ensures Distinct(Codes(metas)) && RunsInOrder(Codes(metas), Table(items))
  {
    ListExact(items, metas, Everything, c);
    AllAsk(metas);
  }

  predicate Everything(m: Meta) { true }

  lemma {:induction false} AllAsk(metas: seq<Meta>)
    ensures Asking(metas, Everything) == Codes(metas)
  {
    if |metas| > 0 {
      AllAsk(metas[..|metas| - 1]);
    }
  }

  // ---- Loading ---------------------------------------------------------------------------

  /** The table is walked in an arbitrary order and sorted; the results do not depend on it. */
  method Load(items: seq<Meta>)
    returns (table: map<U16, Meta>, metas: seq<Meta>, all: seq<U16>, current: seq<U16>, history: seq<U16>)
    ensures table == Table(items) && Lists(metas, table)
    ensures all == Codes(metas) && current == CurrentCodes(metas) && history == HistoryCodes(metas)
  {
    table := map[];
    var i := 0;
    while i < |items|
      invariant 0 <= i <= |items| && table == Table(items[..i])
    {
      assert items[..i + 1][..i] == items[..i];
      var item := items[i];
      if item.code !in table {
        table := table[item.code := item];
      } else if Better(item, table[item.code]) {
        table := table[item.code := item];
      }
      i := i + 1;
    }
    assert items[..i] == items;
    TableWellKeyed(items);
    metas := Walk(table);
    metas := SortMetas(metas, table);
    all, current, history := [], [], [];
    i := 0;
    while i < |metas|
      invariant 0 <= i <= |metas|
      invariant all == Codes(metas[..i]) && current == CurrentCodes(metas[..i]) && history == HistoryCodes(metas[..i])
    {
      assert metas[..i + 1][..i] == metas[..i];
      all := all + [metas[i].code];
      if metas[i].showCurrent { current := current + [metas[i].code]; }
      if metas[i].showHistory { history := history + [metas[i].code]; }
      i := i + 1;
    }
    assert metas[..i] == metas;
  }

  /** One pass over the table, in some order. */
  method Walk(m: map<U16, Meta>) returns (metas: seq<Meta>)
    requires WellKeyed(m)
    ensures Elements(metas) == m.Values && Distinct(metas)
  {
    metas := [];
    var left := m.Keys;
    while left != {}
      invariant left <= m.Keys && Distinct(metas)
      invariant forall x :: x in metas <==> x in m.Values && x.code !in left
      decreases left
    {
      var c :| c in left;
      metas := metas + [m[c]];
      left := left - {c};
    }
  }

  method SortMetas(metas: seq<Meta>, ghost m: map<U16, Meta>) returns (sorted: seq<Meta>)
    requires WellKeyed(m) && Elements(metas) == m.Values && Distinct(metas)
    ensures Lists(sorted, m)
  {
    BeforeOrders(m);
    sorted := Sort(metas, Before);
    SortElements(metas, Before);
    SortSorts(metas, Before);
  }
}
