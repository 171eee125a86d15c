/** `ORDER BY` on a result set: a stable insertion sort under a total
    preorder. SQL leaves the order of ties unspecified, so the contracts below
    promise only that the result is sorted and a permutation of the input. */
module Sorting {

  ghost predicate TotalPreorder<T(!new)>(leq: (T, T) -> bool)
  {
    && (forall a, b :: leq(a, b) || leq(b, a))
    && (forall a, b, c :: leq(a, b) && leq(b, c) ==> leq(a, c))
  }

  predicate SortedBy<T>(s: seq<T>, leq: (T, T) -> bool)
  {
    forall i, j | 0 <= i < j < |s| :: leq(s[i], s[j])
  }

  function Insert<T(!new)>(x: T, s: seq<T>, leq: (T, T) -> bool): (r: seq<T>)
    requires TotalPreorder(leq) && SortedBy(s, leq)
    ensures SortedBy(r, leq)
    ensures multiset(r) == multiset(s) + multiset{x}
  {
    if s == [] || leq(x, s[0]) then
      [x] + s
    else
      var tail := Insert(x, s[1..], leq);
      assert s == [s[0]] + s[1..];
      assert forall y | y in tail :: leq(s[0], y) by {
        forall y | y in tail ensures leq(s[0], y) {
          assert y in multiset(tail);
          if y != x { FirstPrecedes(s, y, leq); }
        }
      }
      [s[0]] + tail
  }

  lemma FirstPrecedes<T>(s: seq<T>, y: T, leq: (T, T) -> bool)
    requires SortedBy(s, leq) && s != [] && y in multiset(s[1..])
    ensures leq(s[0], y)
  {
    var j :| 0 <= j < |s[1..]| && s[1..][j] == y;
    assert s[j + 1] == y;
  }

  function InsertionSort<T(!new)>(s: seq<T>, leq: (T, T) -> bool): (r: seq<T>)
    requires TotalPreorder(leq)
    ensures SortedBy(r, leq)
    ensures multiset(r) == multiset(s)
  {
    if s == [] then []
    else
      assert s == [s[0]] + s[1..];
      Insert(s[0], InsertionSort(s[1..], leq), leq)
  }

  /** The elements of `s` that satisfy `keep`, in their original order (a
      `WHERE` clause applied to an ordered result). */
  function Filter<T(!new)>(s: seq<T>, keep: T -> bool): (r: seq<T>)
    ensures |r| <= |s|
    ensures forall x :: x in r <==> x in s && keep(x)
    ensures multiset(r) <= multiset(s)
  {
    if s == [] then []
    else
      assert s == [s[0]] + s[1..];
      var rest := Filter(s[1..], keep);
      if keep(s[0]) then [s[0]] + rest else rest
  }

  lemma {:induction false} FilterKeepsSorted<T(!new)>(s: seq<T>, keep: T -> bool, leq: (T, T) -> bool)
    requires SortedBy(s, leq)
    ensures SortedBy(Filter(s, keep), leq)
  {
    if s != [] {
      FilterKeepsSorted(s[1..], keep, leq);
      forall y | y in Filter(s[1..], keep) ensures leq(s[0], y) {
        FirstPrecedes(s, y, leq);
      }
    }
  }

  /** No element occurs twice (a query returns each selected row once). */
  predicate Distinct<T(==)>(s: seq<T>)
  {
    forall i, j | 0 <= i < j < |s| :: s[i] != s[j]
  }

  /** An element of a sequence without repeats occurs in it at most once. */
  lemma {:induction false} DistinctOnce<T>(s: seq<T>, x: T)
    requires Distinct(s)
    ensures multiset(s)[x] <= 1
  {
    if s != [] {
      assert s == [s[0]] + s[1..];
      assert Distinct(s[1..]) by {
        forall i, j | 0 <= i < j < |s[1..]| ensures s[1..][i] != s[1..][j] {
          assert s[1..][i] == s[i + 1] && s[1..][j] == s[j + 1];
        }
      }
      DistinctOnce(s[1..], x);
      if s[0] == x {
        assert x !in s[1..] by {
          forall j | 0 <= j < |s[1..]| ensures s[1..][j] != x {
            assert s[1..][j] == s[j + 1];
          }
        }
      }
    }
  }

  /** Rows taken from a sequence without repeats, each no more often than
      it occurs there, are without repeats too. */
  lemma DistinctSub<T>(s: seq<T>, r: seq<T>)
    requires Distinct(s) && multiset(r) <= multiset(s)
    ensures Distinct(r)
  {
    forall i, j | 0 <= i < j < |r| ensures r[i] != r[j] {
      if r[i] == r[j] {
        var x := r[i];
        assert r == r[..j] + [r[j]] + r[j + 1..];
        assert r[..j][i] == x;
        assert multiset(r)[x] >= 2;
        DistinctOnce(s, x);
        assert false;
      }
    }
  }

  /** `LIMIT n` on an ordered result: its first `n` rows, so every row it
      leaves out comes after every row it keeps. */
  function Take<T(==)>(s: seq<T>, n: nat, leq: (T, T) -> bool): (items: seq<T>)
    requires SortedBy(s, leq)
    ensures items == s[..if n < |s| then n else |s|]
    ensures Distinct(s) ==> Distinct(items)
    ensures |items| <= n
    ensures SortedBy(items, leq)
    ensures forall x | x in items :: x in s
    ensures forall i, x | 0 <= i < |items| && x in s && x !in items :: leq(items[i], x)
    ensures |items| < n ==> forall x | x in s :: x in items
  {
    var items := if n < |s| then s[..n] else s;
    assert forall i, x | 0 <= i < |items| && x in s && x !in items :: leq(items[i], x) by {
      forall i, x | 0 <= i < |items| && x in s && x !in items ensures leq(items[i], x) {
        var j :| 0 <= j < |s| && s[j] == x;
        assert j >= |items|;
      }
    }
    items
  }
}
