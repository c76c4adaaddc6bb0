/** The library's stable sort, as a function, with what the engine relies on. */
module Sorting {
  import opened Types

  ghost predicate TotalPreorder<T(!new)>(le: (T, T) -> bool) {
    && (forall a, b :: le(a, b) || le(b, a))
    && (forall a, b, c :: le(a, b) && le(b, c) ==> le(a, c))
  }

  predicate SortedBy<T>(le: (T, T) -> bool, s: seq<T>) {
    forall i, j :: 0 <= i < j < |s| ==> le(s[i], s[j])
  }

  /** Puts `x` behind every element that does not exceed it. */
  function InsertSorted<T>(le: (T, T) -> bool, s: seq<T>, x: T): seq<T> {
    if s == [] || le(s[|s| - 1], x) then s + [x]
    else
      var n := |s| - 1;
      InsertSorted(le, s[..n], x) + [s[n]]
  }

  function SortBy<T>(le: (T, T) -> bool, s: seq<T>): seq<T> {
    if s == [] then []
    else
      var n := |s| - 1;
      InsertSorted(le, SortBy(le, s[..n]), s[n])
  }

  lemma {:induction false} InsertMultiset<T>(le: (T, T) -> bool, s: seq<T>, x: T)
    ensures multiset(InsertSorted(le, s, x)) == multiset(s) + multiset{x}
  {
    if s != [] && !le(s[|s| - 1], x) {
      var n := |s| - 1;
      assert s == s[..n] + [s[n]];
      InsertMultiset(le, s[..n], x);
    }
  }

  /** Sorting permutes. */
  lemma {:induction false} SortByMultiset<T>(le: (T, T) -> bool, s: seq<T>)
    ensures multiset(SortBy(le, s)) == multiset(s)
    ensures |SortBy(le, s)| == |s|
  {
    if s != [] {
      var n := |s| - 1;
      assert s == s[..n] + [s[n]];
      SortByMultiset(le, s[..n]);
      InsertMultiset(le, SortBy(le, s[..n]), s[n]);
    }
    assert |multiset(SortBy(le, s))| == |SortBy(le, s)|;
    assert |multiset(s)| == |s|;
  }

  lemma {:induction false} InsertKeepsSorted<T(!new)>(le: (T, T) -> bool, s: seq<T>, x: T)
    requires TotalPreorder(le) && SortedBy(le, s)
    ensures SortedBy(le, InsertSorted(le, s, x))
  {
    if s != [] && !le(s[|s| - 1], x) {
      var n := |s| - 1;
      var r := InsertSorted(le, s[..n], x);
      InsertKeepsSorted(le, s[..n], x);
      InsertMultiset(le, s[..n], x);
      forall i | 0 <= i < |r|
        ensures le(r[i], s[n])
      {
        assert r[i] in multiset(r);
        assert r[i] in s[..n] || r[i] == x;
      }
    }
  }

  lemma {:induction false} SortBySorted<T(!new)>(le: (T, T) -> bool, s: seq<T>)
    requires TotalPreorder(le)
    ensures SortedBy(le, SortBy(le, s))
  {
    if s != [] {
      var n := |s| - 1;
      SortBySorted(le, s[..n]);
      InsertKeepsSorted(le, SortBy(le, s[..n]), s[n]);
    }
  }

  lemma {:induction false} SortByElements<T(!new)>(le: (T, T) -> bool, s: seq<T>)
    ensures forall x :: x in SortBy(le, s) <==> x in s
  {
    SortByMultiset(le, s);
    forall x
      ensures x in SortBy(le, s) <==> x in s
    {
      assert x in multiset(SortBy(le, s)) <==> x in multiset(s);
    }
  }

  /** Sorting what is sorted already changes nothing. */
  lemma {:induction false} SortByFixed<T(!new)>(le: (T, T) -> bool, s: seq<T>)
    requires SortedBy(le, s)
    ensures SortBy(le, s) == s
  {
    if s != [] {
      var n := |s| - 1;
      SortByFixed(le, s[..n]);
      assert n > 0 ==> le(s[n - 1], s[n]);
      assert s == s[..n] + [s[n]];
    }
  }

  lemma {:induction false} LastIsMaximal<T(!new)>(le: (T, T) -> bool, a: seq<T>, x: T)
    requires TotalPreorder(le) && SortedBy(le, a) && x in a
    ensures le(x, a[|a| - 1])
  {
    var j :| 0 <= j < |a| && a[j] == x;
    assert j < |a| - 1 ==> le(a[j], a[|a| - 1]);
  }

  lemma {:induction false} SplitLast<T>(a: seq<T>)
    requires a != []
    ensures a == a[..|a| - 1] + [a[|a| - 1]]
    ensures multiset(a[..|a| - 1]) == multiset(a) - multiset{a[|a| - 1]}
  {
    assert a == a[..|a| - 1] + [a[|a| - 1]];
  }

  /** Two sorted arrangements of the same elements agree when no two of the elements tie. */
  lemma {:induction false} SortedUnique<T(!new)>(le: (T, T) -> bool, a: seq<T>, b: seq<T>)
    requires TotalPreorder(le)
    requires SortedBy(le, a) && SortedBy(le, b) && multiset(a) == multiset(b)
    requires forall x, y :: x in a && y in a && le(x, y) && le(y, x) ==> x == y
    ensures a == b
  {
    assert |multiset(a)| == |a| && |multiset(b)| == |b|;
    if a != [] {
      var n := |a| - 1;
      SplitLast(a);
      SplitLast(b);
      assert a[n] == b[n] by {
        assert a[n] in multiset(b) && b[n] in multiset(a);
        LastIsMaximal(le, a, b[n]);
        LastIsMaximal(le, b, a[n]);
      }
      forall x | x in a[..n]
        ensures x in a
      {
      }
      SortedUnique(le, a[..n], b[..n]);
    }
  }

  /** Stability, and more: sorting commutes with keeping a class of elements. */
  lemma {:induction false} FilterInsert<T(!new)>(le: (T, T) -> bool, p: T -> bool, s: seq<T>, x: T)
    requires TotalPreorder(le) && SortedBy(le, s)
    ensures Filter(p, InsertSorted(le, s, x)) ==
            if p(x) then InsertSorted(le, Filter(p, s), x) else Filter(p, s)
  {
    var f := Filter(p, s);
    if s == [] || le(s[|s| - 1], x) {
      FilterPush(p, s, x);
      if f != [] {
        InFilter(p, s, f[|f| - 1]);
        LastIsMaximal(le, s, f[|f| - 1]);
      }
    } else {
      var n := |s| - 1;
      FilterInsert(le, p, s[..n], x);
      FilterPush(p, InsertSorted(le, s[..n], x), s[n]);
      if p(x) && p(s[n]) {
        assert f[..|f| - 1] == Filter(p, s[..n]);
      }
    }
  }

  lemma {:induction false} FilterSort<T(!new)>(le: (T, T) -> bool, p: T -> bool, s: seq<T>)
    requires TotalPreorder(le)
    ensures Filter(p, SortBy(le, s)) == SortBy(le, Filter(p, s))
  {
    if s != [] {
      var n := |s| - 1;
      FilterSort(le, p, s[..n]);
      SortBySorted(le, s[..n]);
      FilterInsert(le, p, SortBy(le, s[..n]), s[n]);
      SortByPush(le, Filter(p, s[..n]), s[n]);
    }
  }

  lemma {:induction false} SortByPush<T>(le: (T, T) -> bool, s: seq<T>, x: T)
    ensures SortBy(le, s + [x]) == InsertSorted(le, SortBy(le, s), x)
  {
    assert (s + [x])[..|s|] == s;
  }
}
