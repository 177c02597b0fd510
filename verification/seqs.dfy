/** Sequence helpers that stand for the array idioms the application uses:
    `filter`, `[...new Set(xs)]`, and the "remove if present, else append" toggle. */
module Seqs {

  /** No element occurs twice. */
  predicate NoDuplicates<T(==,!new)>(s: seq<T>) {
    forall i, j | 0 <= i < j < |s| :: s[i] != s[j]
  }

  /** `s.filter(p)`: the elements satisfying `p`, in their original order. */
  function Filter<T(!new)>(s: seq<T>, p: T -> bool): (r: seq<T>)
    ensures |r| <= |s|
    ensures forall x :: x in r <==> x in s && p(x)
    ensures multiset(r) <= multiset(s)
  {
    if s == [] then []
    else
      assert s == [s[0]] + s[1..];
      if p(s[0]) then [s[0]] + Filter(s[1..], p)
      else Filter(s[1..], p)
  }

  lemma {:induction false} FilterAppend<T(!new)>(a: seq<T>, b: seq<T>, p: T -> bool)
    ensures Filter(a + b, p) == Filter(a, p) + Filter(b, p)
  {
    if a == [] {
      assert a + b == b;
    } else {
      assert (a + b)[1..] == a[1..] + b;
      FilterAppend(a[1..], b, p);
    }
  }

  lemma {:induction false} FilterNoDuplicates<T(!new)>(s: seq<T>, p: T -> bool)
    requires NoDuplicates(s)
    ensures NoDuplicates(Filter(s, p))
  {
    if s != [] {
      assert NoDuplicates(s[1..]) by {
        forall i, j | 0 <= i < j < |s[1..]| ensures s[1..][i] != s[1..][j] {
          assert s[1..][i] == s[i + 1] && s[1..][j] == s[j + 1];
        }
      }
      FilterNoDuplicates(s[1..], p);
      assert s[0] !in s[1..] by {
        forall k | 0 <= k < |s[1..]| ensures s[1..][k] != s[0] {
          assert s[1..][k] == s[k + 1];
        }
      }
    }
  }

  /** `[...new Set(s)]`: first occurrences, in order of first occurrence. */
  function Dedup<T(==,!new)>(s: seq<T>): (r: seq<T>)
    ensures NoDuplicates(r)
    ensures forall x :: x in r <==> x in s
    ensures |r| <= |s|
  {
    if s == [] then []
    else
      var d := Dedup(s[..|s| - 1]);
      if s[|s| - 1] in d then d else d + [s[|s| - 1]]
  }

  /** Adding one element to the input adds it to the output exactly when it is new. */
  lemma DedupSnoc<T(!new)>(s: seq<T>, x: T)
    ensures Dedup(s + [x]) == if x in Dedup(s) then Dedup(s) else Dedup(s) + [x]
  {
    assert (s + [x])[..|s + [x]| - 1] == s;
  }

  /** The position of the first occurrence of `x` in `s`. */
  function FirstIndex<T(==)>(s: seq<T>, x: T): (k: nat)
    requires x in s
    ensures k < |s| && s[k] == x && x !in s[..k]
  {
    if s[0] == x then 0 else 1 + FirstIndex(s[1..], x)
  }

  /** The first occurrence is the only position holding `x` with no `x` before it. */
  lemma FirstIndexUnique<T>(s: seq<T>, x: T, k: nat)
    requires k < |s| && s[k] == x && x !in s[..k]
    ensures FirstIndex(s, x) == k
  {
  }

  /** `[...new Set(s)]` lists the distinct elements in the order of their first occurrence
      in `s`. */
  lemma {:induction false} DedupFirstOccurrence<T(!new)>(s: seq<T>)
    ensures forall i, j | 0 <= i < j < |Dedup(s)| ::
      FirstIndex(s, Dedup(s)[i]) < FirstIndex(s, Dedup(s)[j])
  {
    if s != [] {
      var init, x := s[..|s| - 1], s[|s| - 1];
      var d := Dedup(init);
      DedupFirstOccurrence(init);
      assert s == init + [x];
      forall y | y in init ensures FirstIndex(s, y) == FirstIndex(init, y) {
        var k := FirstIndex(init, y);
        assert s[..k] == init[..k];
        FirstIndexUnique(s, y, k);
      }
      if x !in d {
        assert x !in s[..|s| - 1];
        FirstIndexUnique(s, x, |s| - 1);
      }
    }
  }

  /** A sequence without repeats is its own deduplication. */
  lemma {:induction false} DedupOfDistinct<T(!new)>(s: seq<T>)
    requires NoDuplicates(s)
    ensures Dedup(s) == s
  {
    if s != [] {
      var init := s[..|s| - 1];
      assert NoDuplicates(init) by {
        forall i, j | 0 <= i < j < |init| ensures init[i] != init[j] {
          assert init[i] == s[i] && init[j] == s[j];
        }
      }
      DedupOfDistinct(init);
      assert s[|s| - 1] !in init by {
        forall k | 0 <= k < |init| ensures init[k] != s[|s| - 1] {
          assert init[k] == s[k];
        }
      }
      assert init + [s[|s| - 1]] == s;
    }
  }

  /** A sequence without repeats has as many distinct elements as positions. */
  lemma {:induction false} DistinctCardinality<T(!new)>(s: seq<T>)
    requires NoDuplicates(s)
    ensures |set x | x in s| == |s|
  {
    if s != [] {
      var tail := s[1..];
      assert NoDuplicates(tail) by {
        forall i, j | 0 <= i < j < |tail| ensures tail[i] != tail[j] {
          assert tail[i] == s[i + 1] && tail[j] == s[j + 1];
        }
      }
      DistinctCardinality(tail);
      assert s[0] !in tail by {
        forall k | 0 <= k < |tail| ensures tail[k] != s[0] {
          assert tail[k] == s[k + 1];
        }
      }
      assert (set x | x in s) == (set x | x in tail) + {s[0]};
    }
  }

  /** Two repeat-free sequences of the same length, one inside the other, hold the same elements. */
  lemma SameLengthSubsetIsSameSet<T(!new)>(small: seq<T>, big: seq<T>)
    requires NoDuplicates(small) && NoDuplicates(big)
    requires forall x | x in small :: x in big
    requires |small| == |big|
    ensures forall x | x in big :: x in small
  {
    var a := set x | x in small;
    var b := set x | x in big;
    DistinctCardinality(small);
    DistinctCardinality(big);
    assert a <= b;
    var extra := b - a;
    assert b == a + extra && a !! extra;
    assert |b| == |a| + |extra|;
    assert extra == {};
    forall x | x in big ensures x in small {
      assert x in b;
      assert x !in extra;
    }
  }

  /** `s.filter(y => y !== x)`. */
  function Remove<T(==,!new)>(s: seq<T>, x: T): (r: seq<T>)
    ensures forall y :: y in r <==> y in s && y != x
    ensures |r| <= |s|
  {
    if s == [] then []
    else if s[0] == x then Remove(s[1..], x)
    else [s[0]] + Remove(s[1..], x)
  }

  lemma {:induction false} RemoveAbsent<T(!new)>(s: seq<T>, x: T)
    requires x !in s
    ensures Remove(s, x) == s
  {
    if s != [] {
      RemoveAbsent(s[1..], x);
    }
  }

  lemma {:induction false} RemoveNoDuplicates<T(!new)>(s: seq<T>, x: T)
    requires NoDuplicates(s)
    ensures NoDuplicates(Remove(s, x))
  {
    if s != [] {
      assert NoDuplicates(s[1..]) by {
        forall i, j | 0 <= i < j < |s[1..]| ensures s[1..][i] != s[1..][j] {
          assert s[1..][i] == s[i + 1] && s[1..][j] == s[j + 1];
        }
      }
      RemoveNoDuplicates(s[1..], x);
      assert s[0] !in s[1..] by {
        forall k | 0 <= k < |s[1..]| ensures s[1..][k] != s[0] {
          assert s[1..][k] == s[k + 1];
        }
      }
    }
  }

  /** `prev.includes(x) ? prev.filter(y => y !== x) : [...prev, x]`. */
  function Toggle<T(==,!new)>(s: seq<T>, x: T): seq<T>
  {
    if x in s then Remove(s, x) else s + [x]
  }

  /** Toggling flips the membership of `x`, leaves every other element's membership alone,
      and keeps a repeat-free selection repeat-free. */
  lemma ToggleMembership<T(!new)>(s: seq<T>, x: T)
    requires NoDuplicates(s)
    ensures x in Toggle(s, x) <==> x !in s
    ensures forall y | y != x :: y in Toggle(s, x) <==> y in s
    ensures NoDuplicates(Toggle(s, x))
  {
    if x in s {
      RemoveNoDuplicates(s, x);
    }
  }

  /** Toggling the same element twice restores a selection that lacked it, and restores the
      elements (moving `x` to the end) of one that held it. */
  lemma ToggleTwice<T(!new)>(s: seq<T>, x: T)
    requires NoDuplicates(s)
    ensures x !in s ==> Toggle(Toggle(s, x), x) == s
    ensures x in s ==> Toggle(Toggle(s, x), x) == Remove(s, x) + [x]
    ensures forall y :: y in Toggle(Toggle(s, x), x) <==> y in s
  {
    if x !in s {
      assert x in s + [x];
      RemoveAppendLast(s, x);
    }
  }

  lemma {:induction false} RemoveAppendLast<T(!new)>(s: seq<T>, x: T)
    requires x !in s
    ensures Remove(s + [x], x) == s
  {
    if s == [] {
      assert [x][1..] == [];
    } else {
      assert (s + [x])[1..] == s[1..] + [x];
      RemoveAppendLast(s[1..], x);
    }
  }

  /** An element at two positions occurs at least twice. */
  lemma RepeatCount<T(!new)>(s: seq<T>, i: int, j: int)
    requires 0 <= i < j < |s| && s[i] == s[j]
    ensures multiset(s)[s[j]] >= 2
  {
    var front := s[..j];
    assert s == front + [s[j]] + s[j + 1..];
    assert s[i] == front[i];
    assert s[j] in multiset(front);
  }

  /** In a duplicate-free sequence every element occurs once. */
  lemma {:induction false} DistinctCount<T(!new)>(s: seq<T>, x: T)
    requires NoDuplicates(s)
    ensures multiset(s)[x] <= 1
  {
    if s != [] {
      var tail := s[1..];
      assert s == [s[0]] + tail;
      assert NoDuplicates(tail) by {
        forall i, j | 0 <= i < j < |tail| ensures tail[i] != tail[j] {
          assert tail[i] == s[i + 1] && tail[j] == s[j + 1];
        }
      }
      DistinctCount(tail, x);
      if x == s[0] {
        assert x !in tail by {
          forall k | 0 <= k < |tail| ensures tail[k] != x {
            assert tail[k] == s[k + 1];
          }
        }
      }
    }
  }

  /** A permutation of a duplicate-free sequence is duplicate-free. */
  lemma PermutationNoDuplicates<T(!new)>(a: seq<T>, b: seq<T>)
    requires NoDuplicates(a) && multiset(a) == multiset(b)
    ensures NoDuplicates(b)
  {
    forall i, j | 0 <= i < j < |b| ensures b[i] != b[j] {
      if b[i] == b[j] {
        RepeatCount(b, i, j);
        DistinctCount(a, b[j]);
        assert false;
      }
    }
  }

  /** A filter that every element passes keeps the whole sequence. */
  lemma {:induction false} FilterAll<T(!new)>(s: seq<T>, p: T -> bool)
    requires forall x | x in s :: p(x)
    ensures Filter(s, p) == s
  {
    if s != [] {
      FilterAll(s[1..], p);
    }
  }

  /** A filter that no element passes gives the empty sequence. */
  lemma {:induction false} FilterNone<T(!new)>(s: seq<T>, p: T -> bool)
    requires forall x | x in s :: !p(x)
    ensures Filter(s, p) == []
  {
    if s != [] {
      FilterNone(s[1..], p);
    }
  }

  /** Filters that agree on the elements of `s` give the same result. */
  lemma {:induction false} FilterCongruent<T(!new)>(s: seq<T>, p: T -> bool, q: T -> bool)
    requires forall x | x in s :: p(x) == q(x)
    ensures Filter(s, p) == Filter(s, q)
  {
    if s != [] {
      FilterCongruent(s[1..], p, q);
    }
  }

  /** `s.filter((_, index) => index % 2 === 0)`: the first, third, fifth ... elements. */
  function EvenPositions<T>(s: seq<T>): (r: seq<T>)
    ensures |r| == (|s| + 1) / 2
    ensures forall i | 0 <= i < |r| :: r[i] == s[2 * i]
  {
    if |s| <= 1 then s
    else
      var rest := EvenPositions(s[2..]);
      assert forall i | 0 <= i < |rest| :: rest[i] == s[2 * (i + 1)];
      [s[0]] + rest
  }

  /** Filtering twice is filtering once by both tests. */
  lemma {:induction false} FilterFilter<T(!new)>(s: seq<T>, p: T -> bool, q: T -> bool, pq: T -> bool)
    requires forall x | x in s :: pq(x) == (p(x) && q(x))
    ensures Filter(Filter(s, p), q) == Filter(s, pq)
  {
    if s != [] {
      FilterFilter(s[1..], p, q, pq);
    }
  }

  /** Joining two duplicate-free sequences with no common element gives a duplicate-free one. */
  lemma NoDuplicatesAppend<T(!new)>(a: seq<T>, b: seq<T>)
    requires NoDuplicates(a) && NoDuplicates(b)
    requires forall x | x in a :: x !in b
    ensures NoDuplicates(a + b)
  {
    var ab := a + b;
    forall i, j | 0 <= i < j < |ab| ensures ab[i] != ab[j] {
      if i < |a| && j >= |a| {
        assert ab[i] in a && ab[j] == b[j - |a|];
      }
    }
  }

  /** Removing the same element from two permutations of each other leaves permutations. */
  lemma RemoveFromMultiset<T>(init: seq<T>, x: T, before: seq<T>, after: seq<T>)
    requires multiset(init + [x]) == multiset(before + [x] + after)
    ensures multiset(init) == multiset(before + after)
  {
    var rest := before + after;
    assert multiset(init + [x]) == multiset(init) + multiset{x};
    assert multiset(before + [x] + after) == multiset(rest) + multiset{x};
    forall y ensures multiset(init)[y] == multiset(rest)[y] {
      assert (multiset(init) + multiset{x})[y] == (multiset(rest) + multiset{x})[y];
    }
  }
}
