/** Insertion sort, as a specification of Python's `sorted`.

  `before` says which of two elements may come first.  Sorting by a total order keeps the
  elements and puts them in order. */
module Sorting {
  ghost predicate TotalOrder<T(!new)>(before: (T, T) -> bool) {
    && (forall a, b :: before(a, b) || before(b, a))
    && (forall a, b, c :: before(a, b) && before(b, c) ==> before(a, c))
  }

  ghost predicate Ordered<T>(s: seq<T>, before: (T, T) -> bool) {
    forall i, j :: 0 <= i < j < |s| ==> before(s[i], s[j])
  }

  function Insert<T>(s: seq<T>, x: T, before: (T, T) -> bool): (r: seq<T>)
    ensures |r| == |s| + 1
  {
    if s == [] || before(x, s[0]) then [x] + s else [s[0]] + Insert(s[1..], x, before)
  }

  function Sorted<T>(s: seq<T>, before: (T, T) -> bool): (r: seq<T>)
    ensures |r| == |s|
  {
    if s == [] then [] else Insert(Sorted(s[1..], before), s[0], before)
  }

  lemma {:induction false} InsertMembers<T>(s: seq<T>, x: T, before: (T, T) -> bool)
    ensures multiset(Insert(s, x, before)) == multiset(s) + multiset{x}
  {
    if s != [] {
      assert s == [s[0]] + s[1..];
      if !before(x, s[0]) {
        InsertMembers(s[1..], x, before);
      }
    }
  }

  lemma {:induction false} InsertOrders<T(!new)>(s: seq<T>, x: T, before: (T, T) -> bool)
    requires TotalOrder(before) && Ordered(s, before)
    ensures Ordered(Insert(s, x, before), before)
  {
    if s != [] && !before(x, s[0]) {
      InsertOrders(s[1..], x, before);
      InsertMembers(s[1..], x, before);
      var r := Insert(s[1..], x, before);
      forall j | 0 <= j < |r| ensures before(s[0], r[j]) {
        assert r[j] in multiset(r);
        assert r[j] in s[1..] || r[j] == x;
      }
    }
  }

  /** What is in order already stays as it is. */
  lemma {:induction false} SortedAlready<T>(s: seq<T>, before: (T, T) -> bool)
    requires Ordered(s, before)
    ensures Sorted(s, before) == s
  {
    if s != [] {
      SortedAlready(s[1..], before);
      assert s == [s[0]] + s[1..];
    }
  }

  /** Sorting orders a list and keeps its elements. */
  lemma {:induction false} SortedOrders<T(!new)>(s: seq<T>, before: (T, T) -> bool)
    requires TotalOrder(before)
    ensures Ordered(Sorted(s, before), before) && multiset(Sorted(s, before)) == multiset(s)
  {
    if s != [] {
      SortedOrders(s[1..], before);
      InsertOrders(Sorted(s[1..], before), s[0], before);
      InsertMembers(Sorted(s[1..], before), s[0], before);
      assert s == [s[0]] + s[1..];
    }
  }
}
