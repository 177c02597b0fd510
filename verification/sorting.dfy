/** `[...xs].sort(compare)` as an insertion sort: for a comparator that is a total preorder on
    the elements the result is a sorted permutation. `le(a, b)` says that `a` may stand before
    `b`. */
module Sorting {
  import opened Seqs

  /** `le` orders any two elements of `s` one way or the other. */
  ghost predicate TotalOn<T(!new)>(s: seq<T>, le: (T, T) -> bool) {
    forall a, b | a in s && b in s :: le(a, b) || le(b, a)
  }

  /** `le` is transitive on the elements of `s`. */
  ghost predicate TransitiveOn<T(!new)>(s: seq<T>, le: (T, T) -> bool) {
    forall a, b, c | a in s && b in s && c in s && le(a, b) && le(b, c) :: le(a, c)
  }

  /** Each element may stand before its successor. */
  ghost predicate AdjacentSorted<T>(s: seq<T>, le: (T, T) -> bool) {
    forall i | 0 < i < |s| :: le(s[i - 1], s[i])
  }

  /** Each element may stand before every later one. */
  ghost predicate Sorted<T>(s: seq<T>, le: (T, T) -> bool) {
    forall i, j | 0 <= i < j < |s| :: le(s[i], s[j])
  }

  /** `x` placed before the first element it may precede. */
  function Insert<T>(x: T, s: seq<T>, le: (T, T) -> bool): (r: seq<T>)
    ensures multiset(r) == multiset(s) + multiset{x}
    ensures |r| == |s| + 1
  {
    if s == [] then [x]
    else if le(x, s[0]) then [x] + s
    else
      assert s == [s[0]] + s[1..];
      [s[0]] + Insert(x, s[1..], le)
  }

  /** The insertion sort: a permutation of the input. */
  function SortBy<T>(s: seq<T>, le: (T, T) -> bool): (r: seq<T>)
    ensures multiset(r) == multiset(s)
    ensures |r| == |s|
  {
    if s == [] then []
    else
      assert s == [s[0]] + s[1..];
      Insert(s[0], SortBy(s[1..], le), le)
  }

  lemma {:induction false} InsertSorted<T(!new)>(x: T, s: seq<T>, le: (T, T) -> bool)
    requires AdjacentSorted(s, le)
    requires forall y | y in s :: le(x, y) || le(y, x)
    ensures AdjacentSorted(Insert(x, s, le), le)
    ensures Insert(x, s, le)[0] == x || (s != [] && Insert(x, s, le)[0] == s[0])
  {
    var r := Insert(x, s, le);
    if s == [] {
    } else if le(x, s[0]) {
      assert r == [x] + s;
      forall i | 0 < i < |r| ensures le(r[i - 1], r[i]) {
        if i > 1 {
          assert r[i - 1] == s[i - 2] && r[i] == s[i - 1];
        }
      }
    } else {
      var tail := s[1..];
      assert AdjacentSorted(tail, le) by {
        forall i | 0 < i < |tail| ensures le(tail[i - 1], tail[i]) {
          assert tail[i - 1] == s[i] && tail[i] == s[i + 1];
        }
      }
      assert forall y | y in tail :: le(x, y) || le(y, x) by {
        forall y | y in tail ensures le(x, y) || le(y, x) {
          assert y in s;
        }
      }
      InsertSorted(x, tail, le);
      var rt := Insert(x, tail, le);
      assert r == [s[0]] + rt;
      assert le(s[0], x) by {
        assert s[0] in s;
      }
      forall i | 0 < i < |r| ensures le(r[i - 1], r[i]) {
        if i == 1 {
          assert r[0] == s[0] && r[1] == rt[0];
          if rt[0] != x {
            assert rt[0] == s[1];
            assert le(s[0], s[1]);
          }
        } else {
          assert r[i - 1] == rt[i - 2] && r[i] == rt[i - 1];
          assert le(rt[i - 2], rt[i - 1]);
        }
      }
    }
  }

  /** With a comparator that orders every pair of elements, the result is in order. */
  lemma {:induction false} SortByAdjacentSorted<T(!new)>(s: seq<T>, le: (T, T) -> bool)
    requires TotalOn(s, le)
    ensures AdjacentSorted(SortBy(s, le), le)
  {
    if s != [] {
      var tail := s[1..];
      assert TotalOn(tail, le) by {
        forall a, b | a in tail && b in tail ensures le(a, b) || le(b, a) {
          assert a in s && b in s;
        }
      }
      SortByAdjacentSorted(tail, le);
      var sorted := SortBy(tail, le);
      forall y | y in sorted ensures le(s[0], y) || le(y, s[0]) {
        assert y in multiset(sorted);
        assert y in multiset(tail);
        assert y in s;
      }
      InsertSorted(s[0], sorted, le);
    }
  }

  /** A sequence in order step by step is in order throughout when `le` is transitive on it. */
  lemma {:induction false} AdjacentToSorted<T(!new)>(s: seq<T>, le: (T, T) -> bool)
    requires AdjacentSorted(s, le)
    requires TransitiveOn(s, le)
    ensures Sorted(s, le)
  {
    forall i, j | 0 <= i < j < |s| ensures le(s[i], s[j]) {
      var k := i + 1;
      while k < j
        invariant i + 1 <= k <= j
        invariant le(s[i], s[k])
      {
        assert le(s[k], s[k + 1]);
        k := k + 1;
      }
    }
  }

  /** The sort is in order for every pair of positions. */
  lemma SortBySorted<T(!new)>(s: seq<T>, le: (T, T) -> bool)
    requires TotalOn(s, le) && TransitiveOn(s, le)
    ensures Sorted(SortBy(s, le), le)
  {
    var r := SortBy(s, le);
    SortByAdjacentSorted(s, le);
    assert forall x | x in r :: x in s by {
      forall x | x in r ensures x in s {
        assert x in multiset(r);
      }
    }
    AdjacentToSorted(r, le);
  }

  /** The sort keeps exactly the elements it was given. */
  lemma SortByMembers<T(!new)>(s: seq<T>, le: (T, T) -> bool)
    ensures forall x :: x in SortBy(s, le) <==> x in s
  {
    var r := SortBy(s, le);
    forall x ensures x in r <==> x in s {
      assert x in r <==> x in multiset(r);
      assert x in s <==> x in multiset(s);
    }
  }

  /** Filtering a sorted sequence keeps it sorted. */
  lemma {:induction false} FilterSorted<T(!new)>(s: seq<T>, le: (T, T) -> bool, p: T -> bool)
    requires Sorted(s, le)
    ensures Sorted(Filter(s, p), le)
  {
    if s != [] {
      var tail := s[1..];
      assert Sorted(tail, le) by {
        forall i, j | 0 <= i < j < |tail| ensures le(tail[i], tail[j]) {
          assert tail[i] == s[i + 1] && tail[j] == s[j + 1];
        }
      }
      FilterSorted(tail, le, p);
      if p(s[0]) {
        var rest := Filter(tail, p);
        var r := [s[0]] + rest;
        forall i, j | 0 <= i < j < |r| ensures le(r[i], r[j]) {
          if i == 0 {
            assert r[j] in tail;
            var k :| 0 <= k < |tail| && tail[k] == r[j];
            assert s[k + 1] == r[j];
          } else {
            assert r[i] == rest[i - 1] && r[j] == rest[j - 1];
          }
        }
      }
    }
  }
}
