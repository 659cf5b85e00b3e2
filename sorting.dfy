/**
 * List<T>.Sort(IComparer<T>) of the .NET runtime, which both the named-colour
 * registry and SelectionList call. The runtime promises a permutation of the
 * list ordered by the comparer; the model reaches that with an insertion sort.
 */
module Sorting {

  /**
   * `cmp(a, b) <= 0` means a may stand before b. On the elements of s the
   * comparer is total and transitive, as IComparer requires.
   */
  ghost predicate IsComparerOn<T>(cmp: (T, T) -> int, s: seq<T>)
  {
    && (forall a, b | a in s && b in s :: cmp(a, b) <= 0 || cmp(b, a) <= 0)
    && (forall a, b, c | a in s && b in s && c in s :: cmp(a, b) <= 0 && cmp(b, c) <= 0 ==> cmp(a, c) <= 0)
  }

  /** Every element may stand before every later one. */
  ghost predicate SortedBy<T>(cmp: (T, T) -> int, s: seq<T>)
  {
    forall i, j | 0 <= i < j < |s| :: cmp(s[i], s[j]) <= 0
  }

  /** Puts x before the first element it may precede. */
  function Insert<T(==)>(x: T, s: seq<T>, cmp: (T, T) -> int): (r: seq<T>)
    ensures multiset(r) == multiset(s) + multiset{x}
  {
    if s == [] then [x]
    else if cmp(x, s[0]) <= 0 then [x] + s
    else
      assert s == [s[0]] + s[1..];
      [s[0]] + Insert(x, s[1..], cmp)
  }

  function InsertionSort<T(==)>(s: seq<T>, cmp: (T, T) -> int): (r: seq<T>)
    ensures multiset(r) == multiset(s)
  {
    if s == [] then []
    else
      assert s == [s[0]] + s[1..];
      Insert(s[0], InsertionSort(s[1..], cmp), cmp)
  }

  lemma ComparerOnSmaller<T>(cmp: (T, T) -> int, s: seq<T>, t: seq<T>)
    requires IsComparerOn(cmp, s)
    requires forall x | x in t :: x in s
    ensures IsComparerOn(cmp, t)
  {
  }

  /** A sequence with a head is sorted when its tail is and the head may precede every element of the tail. */
  lemma SortedCons<T>(cmp: (T, T) -> int, a: T, s: seq<T>)
    requires SortedBy(cmp, s)
    requires forall y | y in s :: cmp(a, y) <= 0
    ensures SortedBy(cmp, [a] + s)
  {
    var r := [a] + s;
    forall i, j | 0 <= i < j < |r| ensures cmp(r[i], r[j]) <= 0 {
      assert r[j] == s[j - 1];
      if 0 < i {
        assert r[i] == s[i - 1];
      }
    }
  }

  lemma {:induction false} InsertSorted<T>(x: T, s: seq<T>, cmp: (T, T) -> int)
    requires SortedBy(cmp, s)
    requires IsComparerOn(cmp, [x] + s)
    ensures SortedBy(cmp, Insert(x, s, cmp))
  {
    if s == [] {
    } else if cmp(x, s[0]) <= 0 {
      forall y | y in s ensures cmp(x, y) <= 0 {
        var m :| 0 <= m < |s| && s[m] == y;
        if 0 < m {
          assert cmp(s[0], s[m]) <= 0;
          assert x in [x] + s && s[0] in [x] + s && y in [x] + s;
        }
      }
      SortedCons(cmp, x, s);
    } else {
      var tail := s[1..];
      assert x in [x] + s && s[0] in [x] + s;
      assert cmp(s[0], x) <= 0;
      ComparerOnSmaller(cmp, [x] + s, [x] + tail);
      assert SortedBy(cmp, tail) by {
        forall i, j | 0 <= i < j < |tail| ensures cmp(tail[i], tail[j]) <= 0 {
          assert tail[i] == s[i + 1] && tail[j] == s[j + 1];
        }
      }
      InsertSorted(x, tail, cmp);
      var ins := Insert(x, tail, cmp);
      forall y | y in ins ensures cmp(s[0], y) <= 0 {
        assert y in multiset(ins);
        if y != x {
          assert y in multiset(tail);
          var m :| 0 <= m < |tail| && tail[m] == y;
          assert s[m + 1] == y;
        }
      }
      SortedCons(cmp, s[0], ins);
    }
  }

  lemma {:induction false} InsertionSortSorted<T>(s: seq<T>, cmp: (T, T) -> int)
    requires IsComparerOn(cmp, s)
    ensures SortedBy(cmp, InsertionSort(s, cmp))
  {
    if s != [] {
      ComparerOnSmaller(cmp, s, s[1..]);
      InsertionSortSorted(s[1..], cmp);
      var sorted := InsertionSort(s[1..], cmp);
      forall y | y in [s[0]] + sorted ensures y in s {
        if y != s[0] {
          assert y in multiset(sorted);
          assert y in multiset(s[1..]);
        }
      }
      ComparerOnSmaller(cmp, s, [s[0]] + sorted);
      InsertSorted(s[0], sorted, cmp);
    }
  }

  /** The sort List<T>.Sort performs: a permutation of s, ordered by cmp. */
  function Sort<T(==)>(s: seq<T>, cmp: (T, T) -> int): (r: seq<T>)
    requires IsComparerOn(cmp, s)
    ensures multiset(r) == multiset(s)
    ensures SortedBy(cmp, r)
  {
    InsertionSortSorted(s, cmp);
    InsertionSort(s, cmp)
  }
}
