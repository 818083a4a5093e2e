/** A pure, stable insertion sort: the model of `Array.prototype.sort` with a
    consistent comparator. The array is sorted in place in JavaScript; here the
    sorted sequence is returned instead. */
module Sorting {
  import opened Ordering

  /** Places `x` after the last element of `t` that is `le`-below it, so that
      `x` follows every element it ties with (stability). */
  function Insert<T>(t: seq<T>, x: T, le: (T, T) -> bool): (r: seq<T>)
    ensures |r| == |t| + 1
    ensures multiset(r) == multiset(t) + multiset{x}
  {
    if |t| == 0 then [x]
    else if le(t[|t| - 1], x) then t + [x]
    else
      assert t == t[..|t| - 1] + [t[|t| - 1]];
      Insert(t[..|t| - 1], x, le) + [t[|t| - 1]]
  }

  function InsertionSort<T>(s: seq<T>, le: (T, T) -> bool): (r: seq<T>)
    ensures |r| == |s|
    ensures multiset(r) == multiset(s)
  {
    if |s| == 0 then []
    else
      assert s == s[..|s| - 1] + [s[|s| - 1]];
      Insert(InsertionSort(s[..|s| - 1], le), s[|s| - 1], le)
  }

  lemma {:induction false} InsertSorted<T(!new)>(t: seq<T>, x: T, le: (T, T) -> bool)
    requires TotalPreorder(le)
    requires SortedBy(t, le)
    ensures SortedBy(Insert(t, x, le), le)
    decreases |t|
  {
    if |t| > 0 && !le(t[|t| - 1], x) {
      var last := t[|t| - 1];
      var front := t[..|t| - 1];
      InsertSorted(front, x, le);
      var u := Insert(front, x, le);
      forall k | 0 <= k < |u| ensures le(u[k], last) {
        assert u[k] in multiset(u);
        if u[k] != x {
          assert u[k] in multiset(front);
          var i :| 0 <= i < |front| && front[i] == u[k];
          assert t[i] == u[k];
        }
      }
    }
  }

  /** The sort returns its input rearranged into ascending order. */
  lemma {:induction false} SortIsSorted<T(!new)>(s: seq<T>, le: (T, T) -> bool)
    requires TotalPreorder(le)
    ensures SortedBy(InsertionSort(s, le), le)
    ensures multiset(InsertionSort(s, le)) == multiset(s)
    decreases |s|
  {
    if |s| > 0 {
      SortIsSorted(s[..|s| - 1], le);
      InsertSorted(InsertionSort(s[..|s| - 1], le), s[|s| - 1], le);
    }
  }

  /** Sorting an already sorted sequence changes nothing. */
  lemma {:induction false} SortOfSorted<T>(s: seq<T>, le: (T, T) -> bool)
    requires SortedBy(s, le)
    ensures InsertionSort(s, le) == s
    decreases |s|
  {
    if |s| > 0 {
      var front := s[..|s| - 1];
      assert SortedBy(front, le);
      SortOfSorted(front, le);
      assert s == front + [s[|s| - 1]];
    }
  }

  /** Sorting twice is sorting once. */
  lemma SortIdempotent<T(!new)>(s: seq<T>, le: (T, T) -> bool)
    requires TotalPreorder(le)
    ensures InsertionSort(InsertionSort(s, le), le) == InsertionSort(s, le)
  {
    SortIsSorted(s, le);
    SortOfSorted(InsertionSort(s, le), le);
  }

  /** A permutation of a sequence without repeats has no repeats either. */
  lemma {:induction false} DistinctPermutation<T>(s: seq<T>, r: seq<T>)
    requires Distinct(s)
    requires multiset(r) == multiset(s)
    ensures Distinct(r)
  {
    forall i, j | 0 <= i < j < |r| ensures r[i] != r[j] {
      if r[i] == r[j] {
        assert r == r[..i] + [r[i]] + r[i + 1..j] + [r[j]] + r[j + 1..];
        assert multiset(r)[r[i]] >= 2;
        DistinctCount(s, r[i]);
        assert false;
      }
    }
  }

  lemma {:induction false} DistinctCount<T>(s: seq<T>, x: T)
    requires Distinct(s)
    ensures multiset(s)[x] <= 1
    decreases |s|
  {
    if |s| > 0 {
      var front := s[..|s| - 1];
      assert s == front + [s[|s| - 1]];
      assert Distinct(front);
      DistinctCount(front, x);
      if x == s[|s| - 1] {
        assert x !in front;
      }
    }
  }

  /** With no repeats and a total order, the sort is strictly ascending. */
  lemma SortStrictlyAscending<T(!new)>(s: seq<T>, le: (T, T) -> bool)
    requires TotalOrder(le)
    requires Distinct(s)
    ensures Distinct(InsertionSort(s, le))
    ensures forall i, j | 0 <= i < j < |s| ::
      le(InsertionSort(s, le)[i], InsertionSort(s, le)[j]) && InsertionSort(s, le)[i] != InsertionSort(s, le)[j]
  {
    SortIsSorted(s, le);
    DistinctPermutation(s, InsertionSort(s, le));
  }

  /** The elements of `s` that compare equal to `p` in both directions, in
      their order in `s`. */
  function Ties<T>(s: seq<T>, le: (T, T) -> bool, p: T): seq<T> {
    if |s| == 0 then []
    else
      var x := s[|s| - 1];
      Ties(s[..|s| - 1], le, p) + (if le(x, p) && le(p, x) then [x] else [])
  }

  lemma {:induction false} InsertTies<T(!new)>(t: seq<T>, x: T, le: (T, T) -> bool, p: T)
    requires TotalPreorder(le)
    ensures Ties(Insert(t, x, le), le, p) == Ties(t, le, p) + (if le(x, p) && le(p, x) then [x] else [])
    decreases |t|
  {
    if |t| == 0 {
      assert Insert(t, x, le) == [x];
      assert [x][..0] == [];
    } else if le(t[|t| - 1], x) {
      assert (t + [x])[..|t|] == t;
    } else {
      var front := t[..|t| - 1];
      var last := t[|t| - 1];
      InsertTies(front, x, le, p);
      var u := Insert(front, x, le);
      var tie := if le(last, p) && le(p, last) then [last] else [];
      assert Insert(t, x, le) == u + [last];
      assert (u + [last])[..|u|] == u;
      assert Ties(u + [last], le, p) == Ties(u, le, p) + tie;
      assert t[..|t| - 1] == front;
      assert Ties(t, le, p) == Ties(front, le, p) + tie;
    }
  }

  /** The sort is stable: elements that compare equal keep their input order. */
  lemma {:induction false} SortStable<T(!new)>(s: seq<T>, le: (T, T) -> bool, p: T)
    requires TotalPreorder(le)
    ensures Ties(InsertionSort(s, le), le, p) == Ties(s, le, p)
    decreases |s|
  {
    if |s| > 0 {
      SortStable(s[..|s| - 1], le, p);
      InsertTies(InsertionSort(s[..|s| - 1], le), s[|s| - 1], le, p);
    }
  }
}
