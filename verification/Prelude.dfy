/** The optional value, and the facts about sequences the other modules share. */
module Prelude {

  datatype Option<+T> = None | Some(value: T)

  /** No value of `s` occurs twice. */
  predicate Distinct<T(==)>(s: seq<T>) {
    forall i, j :: 0 <= i < j < |s| ==> s[i] != s[j]
  }

  function Elems<T>(s: seq<T>): set<T> {
    set x | x in s
  }

  function Map<S, T>(f: S -> T, s: seq<S>): (r: seq<T>)
    ensures |r| == |s|
    ensures forall i :: 0 <= i < |s| ==> r[i] == f(s[i])
  {
    if s == [] then [] else [f(s[0])] + Map(f, s[1..])
  }

  function Filter<T(!new)>(p: T -> bool, s: seq<T>): (r: seq<T>)
    ensures forall x :: x in r <==> x in s && p(x)
  {
    if s == [] then []
    else if p(s[0]) then [s[0]] + Filter(p, s[1..])
    else Filter(p, s[1..])
  }

  function Flatten<T>(ss: seq<seq<T>>): seq<T> {
    if ss == [] then [] else ss[0] + Flatten(ss[1..])
  }

  lemma {:induction false} FlattenSnoc<T>(ss: seq<seq<T>>, s: seq<T>)
    ensures Flatten(ss + [s]) == Flatten(ss) + s
  {
    if ss == [] {
      assert ss + [s] == [s];
      assert Flatten([s]) == s + Flatten([]);
    } else {
      FlattenSnoc(ss[1..], s);
      assert (ss + [s])[1..] == ss[1..] + [s];
    }
  }

  lemma {:induction false} FlattenElems<T>(ss: seq<seq<T>>, x: T)
    ensures x in Flatten(ss) <==> exists s :: s in ss && x in s
  {
    if ss != [] {
      FlattenElems(ss[1..], x);
      assert forall s :: s in ss <==> s == ss[0] || s in ss[1..];
    }
  }

  lemma {:induction false} FilterDistinct<T(!new)>(p: T -> bool, s: seq<T>)
    requires Distinct(s)
    ensures Distinct(Filter(p, s))
  {
    if s != [] {
      FilterDistinct(p, s[1..]);
      assert s[0] !in s[1..];
    }
  }

  lemma {:induction false} FilterAll<T(!new)>(p: T -> bool, s: seq<T>)
    requires forall x :: x in s ==> p(x)
    ensures Filter(p, s) == s
  {
    if s != [] { FilterAll(p, s[1..]); }
  }

  lemma {:induction false} FilterNone<T(!new)>(p: T -> bool, s: seq<T>)
    requires forall x :: x in s ==> !p(x)
    ensures Filter(p, s) == []
  {
    if s != [] { FilterNone(p, s[1..]); }
  }

  lemma {:induction false} FilterConcat<T(!new)>(p: T -> bool, a: seq<T>, b: seq<T>)
    ensures Filter(p, a + b) == Filter(p, a) + Filter(p, b)
  {
    if a == [] {
      assert a + b == b;
    } else {
      FilterConcat(p, a[1..], b);
      assert (a + b)[1..] == a[1..] + b;
    }
  }

  /** A sequence is duplicate-free exactly when it has as many places as values. */
  lemma {:induction false} DistinctCard<T>(s: seq<T>)
    ensures |Elems(s)| <= |s|
    ensures Distinct(s) <==> |Elems(s)| == |s|
  {
    if s != [] {
      DistinctCard(s[1..]);
      assert Elems(s) == Elems(s[1..]) + {s[0]};
      if s[0] in s[1..] {
        assert Elems(s) == Elems(s[1..]);
      } else if Distinct(s[1..]) {
        forall i, j | 0 <= i < j < |s| ensures s[i] != s[j] {
          assert s[j] == s[1..][j - 1];
          if i > 0 { assert s[i] == s[1..][i - 1]; }
        }
      } else {
        var i, j :| 0 <= i < j < |s[1..]| && s[1..][i] == s[1..][j];
        assert s[i + 1] == s[j + 1];
      }
    }
  }

  lemma {:induction false} DistinctMultiset<T>(s: seq<T>)
    requires Distinct(s)
    ensures multiset(s) == multiset(Elems(s))
  {
    if s != [] {
      DistinctMultiset(s[1..]);
      assert s == [s[0]] + s[1..];
      assert s[0] !in s[1..];
      assert Elems(s) == Elems(s[1..]) + {s[0]};
    }
  }

  lemma SubsetCardEqual<T>(a: set<T>, b: set<T>)
    requires a <= b && |a| >= |b|
    ensures a == b
  {
    assert b == a + (b - a);
    assert |b| == |a| + |b - a|;
  }

  /** Two duplicate-free sequences of one length, the first drawn from the second, hold the same values. */
  lemma Pigeonhole<T>(a: seq<T>, b: seq<T>)
    requires Distinct(a) && Distinct(b) && |a| == |b|
    requires Elems(a) <= Elems(b)
    ensures multiset(a) == multiset(b)
  {
    DistinctCard(a);
    DistinctCard(b);
    SubsetCardEqual(Elems(a), Elems(b));
    DistinctMultiset(a);
    DistinctMultiset(b);
  }

  lemma MultisetElems<T>(a: seq<T>, b: seq<T>)
    requires multiset(a) == multiset(b)
    ensures Elems(a) == Elems(b)
    ensures Distinct(a) ==> Distinct(b)
  {
    forall x ensures x in a <==> x in b {
      assert x in multiset(a) <==> x in a;
      assert x in multiset(b) <==> x in b;
    }
    if Distinct(a) {
      DistinctCard(a);
      assert |multiset(a)| == |multiset(b)|;
      DistinctCard(b);
    }
  }
}
