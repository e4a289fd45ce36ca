/** Stable sorting by a comparison, as a list's own `sort` does it, and the order of string values. */
module Sorting {
  import opened Prelude

  function Insert<T>(le: (T, T) -> bool, x: T, s: seq<T>): seq<T> {
    if s == [] || le(x, s[0]) then [x] + s else [s[0]] + Insert(le, x, s[1..])
  }

  function Sort<T>(le: (T, T) -> bool, s: seq<T>): seq<T> {
    if s == [] then [] else Insert(le, s[0], Sort(le, s[1..]))
  }

  predicate Sorted<T>(le: (T, T) -> bool, s: seq<T>) {
    forall i, j :: 0 <= i < j < |s| ==> le(s[i], s[j])
  }

  /** `le` orders the values of `s`: any two compare, and comparisons chain. */
  ghost predicate Orders<T(!new)>(le: (T, T) -> bool) {
    && (forall x, y :: le(x, y) || le(y, x))
    && (forall x, y, z :: le(x, y) && le(y, z) ==> le(x, z))
  }

  lemma {:induction false} InsertMultiset<T>(le: (T, T) -> bool, x: T, s: seq<T>)
    ensures multiset(Insert(le, x, s)) == multiset(s) + multiset{x}
  {
    if !(s == [] || le(x, s[0])) {
      InsertMultiset(le, x, s[1..]);
      assert s == [s[0]] + s[1..];
    }
  }

  lemma {:induction false} SortMultiset<T>(le: (T, T) -> bool, s: seq<T>)
    ensures multiset(Sort(le, s)) == multiset(s)
  {
    if s != [] {
      SortMultiset(le, s[1..]);
      InsertMultiset(le, s[0], Sort(le, s[1..]));
      assert s == [s[0]] + s[1..];
    }
  }

  lemma SortElems<T>(le: (T, T) -> bool, s: seq<T>)
    ensures Elems(Sort(le, s)) == Elems(s)
    ensures |Sort(le, s)| == |s|
    ensures Distinct(s) <==> Distinct(Sort(le, s))
  {
    SortMultiset(le, s);
    MultisetElems(s, Sort(le, s));
    MultisetElems(Sort(le, s), s);
    assert |multiset(s)| == |s| && |multiset(Sort(le, s))| == |Sort(le, s)|;
  }

  lemma {:induction false} InsertSorted<T(!new)>(le: (T, T) -> bool, x: T, s: seq<T>)
    requires Orders(le) && Sorted(le, s)
    ensures Sorted(le, Insert(le, x, s))
  {
    if s == [] {
    } else if le(x, s[0]) {
      var r := [x] + s;
      forall i, j | 0 <= i < j < |r| ensures le(r[i], r[j]) {
        if i == 0 { assert le(x, s[0]) && (j == 1 || le(s[0], s[j - 1])); }
      }
    } else {
      InsertSorted(le, x, s[1..]);
      InsertMultiset(le, x, s[1..]);
      var t := Insert(le, x, s[1..]);
      forall k | 0 <= k < |t| ensures le(s[0], t[k]) {
        assert t[k] in multiset(t);
        assert t[k] == x || t[k] in s[1..];
      }
    }
  }

  lemma {:induction false} SortSorted<T(!new)>(le: (T, T) -> bool, s: seq<T>)
    requires Orders(le)
    ensures Sorted(le, Sort(le, s))
  {
    if s != [] {
      SortSorted(le, s[1..]);
      InsertSorted(le, s[0], Sort(le, s[1..]));
    }
  }

  /** A sorted list is determined by its values when the comparison tells them apart. */
  lemma {:induction false} SortedUnique<T>(le: (T, T) -> bool, a: seq<T>, b: seq<T>)
    requires Sorted(le, a) && Sorted(le, b) && multiset(a) == multiset(b)
    requires forall x, y :: x in a && y in a && le(x, y) && le(y, x) ==> x == y
    ensures a == b
  {
    assert |multiset(a)| == |a| && |multiset(b)| == |b|;
    if a != [] {
      assert a[0] in multiset(b) && b[0] in multiset(a);
      assert a[0] == b[0];
      assert a == [a[0]] + a[1..] && b == [b[0]] + b[1..];
      assert multiset(a[1..]) == multiset(a) - multiset{a[0]};
      assert multiset(b[1..]) == multiset(b) - multiset{b[0]};
      SortedUnique(le, a[1..], b[1..]);
    }
  }

  /** Sorting forgets the order it was given, when the comparison tells the values apart. */
  lemma SortForgetsOrder<T(!new)>(le: (T, T) -> bool, a: seq<T>, b: seq<T>)
    requires Orders(le) && multiset(a) == multiset(b)
    requires forall x, y :: x in a && y in a && le(x, y) && le(y, x) ==> x == y
    ensures Sort(le, a) == Sort(le, b)
  {
    SortSorted(le, a);
    SortSorted(le, b);
    SortMultiset(le, a);
    SortMultiset(le, b);
    SortElems(le, a);
    forall x | x in Sort(le, a) ensures x in a { assert x in Elems(Sort(le, a)); }
    SortedUnique(le, Sort(le, a), Sort(le, b));
  }

  // ---------------------------------------------------------------- by place in a list

  /** Where a value first stands in `order`; its length when it does not. */
  function IndexOf<T(==)>(order: seq<T>, x: T): (i: nat)
    ensures i <= |order|
    ensures x in order <==> i < |order|
    ensures i < |order| ==> order[i] == x
  {
    if order == [] then 0 else if order[0] == x then 0 else 1 + IndexOf(order[1..], x)
  }

  function ByIndex<T(==)>(order: seq<T>): (T, T) -> bool {
    (a, b) => IndexOf(order, a) <= IndexOf(order, b)
  }

  lemma ByIndexOrders<T(!new)>(order: seq<T>)
    ensures Orders(ByIndex(order))
  {
  }

  lemma IndexTellsApart<T>(order: seq<T>, x: T, y: T)
    requires x in order && ByIndex(order)(x, y) && ByIndex(order)(y, x)
    ensures x == y
  {
  }

  /** Two duplicate-free lists of the same declared values sort to one list. */
  lemma SortByIndexForgetsOrder<T(!new)>(order: seq<T>, a: seq<T>, b: seq<T>)
    requires Distinct(a) && Distinct(b) && Elems(a) == Elems(b) && Elems(a) <= Elems(order)
    ensures Sort(ByIndex(order), a) == Sort(ByIndex(order), b)
  {
    DistinctMultiset(a);
    DistinctMultiset(b);
    ByIndexOrders(order);
    forall x, y | x in a && y in a && ByIndex(order)(x, y) && ByIndex(order)(y, x) ensures x == y {
      assert x in Elems(order);
      IndexTellsApart(order, x, y);
    }
    SortForgetsOrder(ByIndex(order), a, b);
  }

  // ---------------------------------------------------------------- by string value

  /** The order of two strings, by their first differing character. */
  predicate StringLe(a: string, b: string) {
    if a == [] then true
    else if b == [] then false
    else if a[0] != b[0] then a[0] < b[0]
    else StringLe(a[1..], b[1..])
  }

  lemma {:induction false} StringTotal(a: string, b: string)
    ensures StringLe(a, b) || StringLe(b, a)
    ensures StringLe(a, b) && StringLe(b, a) ==> a == b
  {
    if a != [] && b != [] && a[0] == b[0] {
      StringTotal(a[1..], b[1..]);
      assert a == [a[0]] + a[1..] && b == [b[0]] + b[1..];
    }
  }

  lemma {:induction false} StringTransitive(a: string, b: string, c: string)
    requires StringLe(a, b) && StringLe(b, c)
    ensures StringLe(a, c)
  {
    if a != [] && b != [] && c != [] && a[0] == b[0] == c[0] {
      StringTransitive(a[1..], b[1..], c[1..]);
    }
  }

  lemma StringOrders()
    ensures Orders(StringLe)
    ensures forall a, b :: StringLe(a, b) && StringLe(b, a) ==> a == b
  {
    forall a: string, b: string
      ensures StringLe(a, b) || StringLe(b, a)
      ensures StringLe(a, b) && StringLe(b, a) ==> a == b
    {
      StringTotal(a, b);
    }
    forall a: string, b: string, c: string | StringLe(a, b) && StringLe(b, c) ensures StringLe(a, c) {
      StringTransitive(a, b, c);
    }
  }
}
