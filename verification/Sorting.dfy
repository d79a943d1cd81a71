/** Strictly sorted sequences, insertion into them, and why a sort has only one possible result. */
module Sorting {

  /** Irreflexive, transitive, and any two different elements of the set are comparable. */
  ghost predicate OrdersStrictly<T(!new)>(less: (T, T) -> bool, over: set<T>) {
    && (forall x :: x in over ==> !less(x, x))
    && (forall x, y, z :: x in over && y in over && z in over && less(x, y) && less(y, z) ==> less(x, z))
    && (forall x, y :: x in over && y in over && x != y ==> less(x, y) || less(y, x))
  }

  predicate Sorted<T(!new)>(s: seq<T>, less: (T, T) -> bool) {
    forall i, j :: 0 <= i < j < |s| ==> less(s[i], s[j])
  }

  function Elements<T>(s: seq<T>): set<T> {
    set x | x in s
  }

  predicate Distinct<T(==)>(s: seq<T>) {
    forall i, j :: 0 <= i < j < |s| ==> s[i] != s[j]
  }

  function Insert<T>(s: seq<T>, x: T, less: (T, T) -> bool): seq<T> {
    if |s| == 0 || less(x, s[0]) then [x] + s else [s[0]] + Insert(s[1..], x, less)
  }

  function Sort<T>(s: seq<T>, less: (T, T) -> bool): seq<T> {
    if |s| == 0 then [] else Insert(Sort(s[1..], less), s[0], less)
  }

  lemma NoElements<T>(s: seq<T>)
    ensures Elements(s) == {} <==> s == []
  {
    if |s| > 0 {
      assert s[0] in Elements(s);
    }
  }

  lemma Cons<T>(x: T, s: seq<T>)
    ensures Elements([x] + s) == {x} + Elements(s)
  {}

  lemma {:induction false} InsertElements<T>(s: seq<T>, x: T, less: (T, T) -> bool)
    ensures |Insert(s, x, less)| == |s| + 1
    ensures Elements(Insert(s, x, less)) == Elements(s) + {x}
  {
    if |s| == 0 || less(x, s[0]) {
      Cons(x, s);
    } else {
      InsertElements(s[1..], x, less);
      Cons(s[0], s[1..]);
      Cons(s[0], Insert(s[1..], x, less));
      assert s == [s[0]] + s[1..];
    }
  }

  lemma {:induction false} InsertSorted<T(!new)>(s: seq<T>, x: T, less: (T, T) -> bool, over: set<T>)
    requires OrdersStrictly(less, over) && Elements(s) <= over && x in over && x !in s && Sorted(s, less)
    ensures Sorted(Insert(s, x, less), less)
  {
    if |s| > 0 {
      assert forall i :: 0 <= i < |s| ==> s[i] in Elements(s);
      if !less(x, s[0]) {
        var rest := Insert(s[1..], x, less);
        assert Elements(s[1..]) <= Elements(s);
        InsertSorted(s[1..], x, less, over);
        InsertElements(s[1..], x, less);
        forall i | 0 <= i < |rest|
          ensures less(s[0], rest[i])
        {
          assert rest[i] in Elements(rest);
        }
      }
    }
  }

  lemma {:induction false} SortElements<T>(s: seq<T>, less: (T, T) -> bool)
    ensures |Sort(s, less)| == |s| && Elements(Sort(s, less)) == Elements(s)
  {
    if |s| > 0 {
      SortElements(s[1..], less);
      InsertElements(Sort(s[1..], less), s[0], less);
      assert s == [s[0]] + s[1..];
    }
  }

  lemma {:induction false} SortSorts<T(!new)>(s: seq<T>, less: (T, T) -> bool)
    requires OrdersStrictly(less, Elements(s)) && Distinct(s)
    ensures Sorted(Sort(s, less), less)
  {
    if |s| > 0 {
      assert Elements(s[1..]) <= Elements(s);
      SortSorts(s[1..], less);
      SortElements(s[1..], less);
      assert s[0] !in Elements(s[1..]);
      assert Sort(s[1..], less) == [] || s[0] !in Sort(s[1..], less) by {
        assert s[0] !in Elements(Sort(s[1..], less));
      }
      InsertSorted(Sort(s[1..], less), s[0], less, Elements(s));
    }
  }

  lemma SortedDistinct<T(!new)>(s: seq<T>, less: (T, T) -> bool)
    requires Sorted(s, less) && OrdersStrictly(less, Elements(s))
    ensures Distinct(s)
  {
    forall i, j | 0 <= i < j < |s|
      ensures s[i] != s[j]
    {
      assert s[i] in Elements(s);
    }
  }

  lemma Tail<T>(s: seq<T>)
    requires |s| > 0 && s[0] !in s[1..]
    ensures Elements(s[1..]) == Elements(s) - {s[0]}
  {
    assert s == [s[0]] + s[1..];
  }

  /** Strictly sorted sequences of the same elements are equal: any correct sort gives the same
      result, from any order of its input. */
  lemma {:induction false} SortedUnique<T(!new)>(a: seq<T>, b: seq<T>, less: (T, T) -> bool)
    requires Sorted(a, less) && Sorted(b, less) && Elements(a) == Elements(b)
    requires OrdersStrictly(less, Elements(a))
    ensures a == b
  {
    NoElements(a);
    NoElements(b);
    if |a| > 0 {
      assert a[0] in Elements(b);
      var k :| 0 <= k < |b| && b[k] == a[0];
      assert b[0] in Elements(a);
      var l :| 0 <= l < |a| && a[l] == b[0];
      assert a[0] == b[0];
      SortedDistinct(a, less);
      SortedDistinct(b, less);
      Tail(a);
      Tail(b);
      SortedUnique(a[1..], b[1..], less);
      assert a == [a[0]] + a[1..] && b == [b[0]] + b[1..];
    }
  }

  lemma SubsetSize<T>(a: set<T>, b: set<T>)
    requires a <= b
    ensures |a| <= |b|
  {
    assert b == a + (b - a);
  }

  lemma {:induction false} DistinctSize<T>(s: seq<T>)
    requires Distinct(s)
    ensures |Elements(s)| == |s|
  {
    if |s| > 0 {
      DistinctSize(s[1..]);
      Tail(s);
    }
  }
}
