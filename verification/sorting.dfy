/**
  Sorting as the puzzles use it (`sort`, `sort_by`, `sort_by_key`): a
  functional insertion sort parameterised by a "may come before" relation.
*/
module Sorting {

  /** Every earlier element may come before every later one. */
  predicate SortedBy<T>(xs: seq<T>, le: (T, T) -> bool)
  {
    forall i, j :: 0 <= i < j < |xs| ==> le(xs[i], xs[j])
  }

  /** `le` is a total preorder on the elements of `xs`. */
  ghost predicate TotalPreorderOn<T>(le: (T, T) -> bool, xs: seq<T>)
  {
    && (forall a, b :: a in xs && b in xs ==> le(a, b) || le(b, a))
    && (forall a, b, c :: a in xs && b in xs && c in xs && le(a, b) && le(b, c) ==> le(a, c))
  }

  /** Puts `x` before the first element it may precede. */
  function Insert<T>(x: T, xs: seq<T>, le: (T, T) -> bool): (r: seq<T>)
    ensures multiset(r) == multiset(xs) + multiset{x}
  {
    if |xs| == 0 then [x]
    else if le(x, xs[0]) then [x] + xs
    else
      assert xs == [xs[0]] + xs[1..];
      [xs[0]] + Insert(x, xs[1..], le)
  }

  /** A permutation of `xs`, ordered by `le` whenever `le` is a total preorder on it. */
  function InsertionSort<T>(xs: seq<T>, le: (T, T) -> bool): (r: seq<T>)
    ensures multiset(r) == multiset(xs)
  {
    if |xs| == 0 then []
    else
      assert xs == [xs[0]] + xs[1..];
      Insert(xs[0], InsertionSort(xs[1..], le), le)
  }

  lemma {:induction false} InsertSorted<T>(x: T, xs: seq<T>, le: (T, T) -> bool)
    requires SortedBy(xs, le)
    requires TotalPreorderOn(le, [x] + xs)
    ensures SortedBy(Insert(x, xs, le), le)
    decreases |xs|
  {
    if |xs| > 0 && !le(x, xs[0]) {
      assert xs[0] in [x] + xs && x in [x] + xs;
      assert le(xs[0], x);
      var tail := xs[1..];
      assert SortedBy(tail, le);
      assert TotalPreorderOn(le, [x] + tail) by {
        forall a | a in [x] + tail ensures a in [x] + xs {
          if a != x { assert a in xs; }
        }
      }
      InsertSorted(x, tail, le);
      var r := Insert(x, tail, le);
      assert multiset(r) == multiset(tail) + multiset{x};
      forall j | 0 <= j < |r| ensures le(xs[0], r[j]) {
        assert r[j] in multiset(r);
        if r[j] == x {
        } else {
          assert r[j] in multiset(tail);
          var k :| 0 <= k < |tail| && tail[k] == r[j];
          assert xs[k + 1] == r[j];
        }
      }
    }
  }

  /** The sorted result is ordered when `le` is a total preorder on the input. */
  lemma {:induction false} SortIsSorted<T>(xs: seq<T>, le: (T, T) -> bool)
    requires TotalPreorderOn(le, xs)
    ensures SortedBy(InsertionSort(xs, le), le)
    decreases |xs|
  {
    if |xs| > 0 {
      var tail := xs[1..];
      assert xs == [xs[0]] + tail;
      assert TotalPreorderOn(le, tail) by {
        forall a | a in tail ensures a in xs { }
      }
      SortIsSorted(tail, le);
      var s := InsertionSort(tail, le);
      assert TotalPreorderOn(le, [xs[0]] + s) by {
        forall a | a in [xs[0]] + s ensures a in xs {
          if a != xs[0] {
            assert a in multiset(s);
            assert a in multiset(tail);
          }
        }
      }
      InsertSorted(xs[0], s, le);
    }
  }

  /** Two ascending integer sequences with the same elements are equal. */
  lemma {:induction false} SortedUnique(a: seq<int>, b: seq<int>)
    requires forall i, j :: 0 <= i < j < |a| ==> a[i] <= a[j]
    requires forall i, j :: 0 <= i < j < |b| ==> b[i] <= b[j]
    requires multiset(a) == multiset(b)
    ensures a == b
    decreases |a|
  {
    assert |a| == |multiset(a)| == |multiset(b)| == |b|;
    if |a| > 0 {
      assert a[0] == b[0] by {
        assert a[0] in multiset(b) && b[0] in multiset(a);
        var i :| 0 <= i < |b| && b[i] == a[0];
        var j :| 0 <= j < |a| && a[j] == b[0];
      }
      assert multiset(a[1..]) == multiset(b[1..]) by {
        HeadTail(a);
        HeadTail(b);
      }
      SortedUnique(a[1..], b[1..]);
    }
  }

  lemma HeadTail(a: seq<int>)
    requires |a| > 0
    ensures multiset(a[1..]) == multiset(a) - multiset{a[0]}
  {
    assert a == [a[0]] + a[1..];
  }
}
