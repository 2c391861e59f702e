/**
 * A stable insertion sort over a strict "comes before" relation, the shape of
 * the comparator-driven sorts of the visible set.
 */
module Sorting {

  ghost predicate Irreflexive<T(!new)>(lt: (T, T) -> bool)
  {
    forall x :: !lt(x, x)
  }

  ghost predicate Transitive<T(!new)>(lt: (T, T) -> bool)
  {
    forall x, y, z :: lt(x, y) && lt(y, z) ==> lt(x, z)
  }

  ghost predicate StrictOrder<T(!new)>(lt: (T, T) -> bool)
  {
    Irreflexive(lt) && Transitive(lt)
  }

  /** No element is strictly smaller than one placed before it. */
  predicate SortedBy<T>(s: seq<T>, lt: (T, T) -> bool)
  {
    forall i, j :: 0 <= i < j < |s| ==> !lt(s[j], s[i])
  }

  /** Places `x` in front of the first element it strictly precedes. */
  function Insert<T>(x: T, s: seq<T>, lt: (T, T) -> bool): (r: seq<T>)
    ensures |r| == |s| + 1
    ensures multiset(r) == multiset(s) + multiset{x}
  {
    if |s| == 0 then [x]
    else if lt(x, s[0]) then [x] + s
    else
      assert s == [s[0]] + s[1..];
      [s[0]] + Insert(x, s[1..], lt)
  }

  /** Inserts the elements one by one, in their original order. */
  function InsertionSort<T>(s: seq<T>, lt: (T, T) -> bool): (r: seq<T>)
    ensures |r| == |s|
    ensures multiset(r) == multiset(s)
  {
    if |s| == 0 then []
    else
      assert s == s[..|s| - 1] + [s[|s| - 1]];
      Insert(s[|s| - 1], InsertionSort(s[..|s| - 1], lt), lt)
  }

  lemma {:induction false} InsertSorted<T(!new)>(x: T, s: seq<T>, lt: (T, T) -> bool)
    requires StrictOrder(lt)
    requires SortedBy(s, lt)
    ensures SortedBy(Insert(x, s, lt), lt)
  {
    if |s| == 0 {
    } else if lt(x, s[0]) {
      var r := [x] + s;
      forall i, j | 0 <= i < j < |r|
        ensures !lt(r[j], r[i])
      {
        if i == 0 {
          assert r[j] == s[j - 1];
          assert j - 1 == 0 || !lt(s[j - 1], s[0]);
        }
      }
    } else {
      var t := s[1..];
      InsertSorted(x, t, lt);
      var it := Insert(x, t, lt);
      var r := [s[0]] + it;
      forall i, j | 0 <= i < j < |r|
        ensures !lt(r[j], r[i])
      {
        if i == 0 {
          var y := r[j];
          assert y in multiset(it);
          assert y == x || y in multiset(t);
          if y != x {
            var k :| 0 <= k < |t| && t[k] == y;
            assert s[k + 1] == y;
          }
        }
      }
    }
  }

  lemma {:induction false} SortSorted<T(!new)>(s: seq<T>, lt: (T, T) -> bool)
    requires StrictOrder(lt)
    ensures SortedBy(InsertionSort(s, lt), lt)
  {
    if |s| > 0 {
      SortSorted(s[..|s| - 1], lt);
      InsertSorted(s[|s| - 1], InsertionSort(s[..|s| - 1], lt), lt);
    }
  }

  /** An element that precedes nothing already present goes to the end. */
  lemma {:induction false} InsertAtEnd<T>(x: T, s: seq<T>, lt: (T, T) -> bool)
    requires forall i :: 0 <= i < |s| ==> !lt(x, s[i])
    ensures Insert(x, s, lt) == s + [x]
  {
    if |s| > 0 {
      InsertAtEnd(x, s[1..], lt);
      assert [s[0]] + (s[1..] + [x]) == s + [x];
    }
  }

  /** Sorting input that is already in order changes nothing. */
  lemma {:induction false} SortKeepsSorted<T>(s: seq<T>, lt: (T, T) -> bool)
    requires SortedBy(s, lt)
    ensures InsertionSort(s, lt) == s
  {
    if |s| > 0 {
      var p, x := s[..|s| - 1], s[|s| - 1];
      SortedSplit(s, p, x, lt);
      SortKeepsSorted(p, lt);
      InsertAtEnd(x, p, lt);
      assert p + [x] == s;
    }
  }

  /** Dropping the last element keeps the order, and the last element precedes none before it. */
  lemma SortedSplit<T>(s: seq<T>, p: seq<T>, x: T, lt: (T, T) -> bool)
    requires SortedBy(s, lt)
    requires s == p + [x]
    ensures SortedBy(p, lt)
    ensures forall i :: 0 <= i < |p| ==> !lt(x, p[i])
  {
    forall i, j | 0 <= i < j < |p|
      ensures !lt(p[j], p[i])
    {
      assert p[j] == s[j] && p[i] == s[i];
    }
    forall i | 0 <= i < |p|
      ensures !lt(x, p[i])
    {
      assert p[i] == s[i] && x == s[|p|];
    }
  }
}
