/** A reference sort to compare the quicksort against: insertion sort on values, in the
    role Collections.sort plays for the list's own sort. */
module ReferenceSort {
  import opened Comparators

  /** `x` placed before the first element of `s` it is not greater than. */
  function InsertBy<T>(cmp: (T, T) -> int, x: T, s: seq<T>): (r: seq<T>)
    ensures |r| == |s| + 1
  {
    if s == [] then [x]
    else if cmp(x, s[0]) <= 0 then [x] + s
    else [s[0]] + InsertBy(cmp, x, s[1..])
  }

  /** Insertion sort by `cmp`. */
  function InsertionSort<T>(cmp: (T, T) -> int, s: seq<T>): (r: seq<T>)
    ensures |r| == |s|
  {
    if s == [] then [] else InsertBy(cmp, s[0], InsertionSort(cmp, s[1..]))
  }

  /** Inserting adds exactly `x`. */
  lemma {:induction false} InsertByAddsOne<T>(cmp: (T, T) -> int, x: T, s: seq<T>)
    ensures multiset(InsertBy(cmp, x, s)) == multiset(s) + multiset{x}
  {
    if s != [] && cmp(x, s[0]) > 0 {
      InsertByAddsOne(cmp, x, s[1..]);
      calc {
        multiset(InsertBy(cmp, x, s));
        multiset([s[0]] + InsertBy(cmp, x, s[1..]));
        multiset{s[0]} + multiset(s[1..]) + multiset{x};
        { assert s == [s[0]] + s[1..]; }
        multiset(s) + multiset{x};
      }
    }
  }

  /** An element at most every element of an ordered sequence can go in front of it. */
  lemma SortedCons<T>(cmp: (T, T) -> int, a: T, t: seq<T>)
    requires SortedBy(cmp, t)
    requires forall j :: 0 <= j < |t| ==> cmp(a, t[j]) <= 0
    ensures SortedBy(cmp, [a] + t)
  {
    var r := [a] + t;
    forall i, j | 0 <= i < j < |r|
      ensures cmp(r[i], r[j]) <= 0
    {
      assert r[j] == t[j - 1];
      if i > 0 {
        assert r[i] == t[i - 1];
      }
    }
  }

  /** A bound on every element of a sequence holds for every element of a sequence
      holding the same elements plus one that also meets it. */
  lemma BoundCarries<T>(cmp: (T, T) -> int, a: T, s: seq<T>, x: T, t: seq<T>)
    requires multiset(t) == multiset(s) + multiset{x}
    requires forall j :: 0 <= j < |s| ==> cmp(a, s[j]) <= 0
    requires cmp(a, x) <= 0
    ensures forall j :: 0 <= j < |t| ==> cmp(a, t[j]) <= 0
  {
    forall j | 0 <= j < |t|
      ensures cmp(a, t[j]) <= 0
    {
      assert t[j] in multiset(t);
      if t[j] != x {
        assert t[j] in multiset(s);
        var m :| 0 <= m < |s| && s[m] == t[j];
      }
    }
  }

  /** Inserting into an ordered sequence keeps it ordered. */
  lemma {:induction false} InsertByIsOrderedInsert<T(!new)>(cmp: (T, T) -> int, x: T, s: seq<T>)
    requires TotalPreorder(cmp) && SortedBy(cmp, s)
    ensures SortedBy(cmp, InsertBy(cmp, x, s))
    ensures multiset(InsertBy(cmp, x, s)) == multiset(s) + multiset{x}
  {
    InsertByAddsOne(cmp, x, s);
    if s == [] {
    } else if cmp(x, s[0]) <= 0 {
      forall j | 0 <= j < |s|
        ensures cmp(x, s[j]) <= 0
      {
        if j > 0 {
          assert cmp(s[0], s[j]) <= 0;
        }
      }
      SortedCons(cmp, x, s);
    } else {
      SortedTail(cmp, s);
      InsertByIsOrderedInsert(cmp, x, s[1..]);
      Flip(cmp, x, s[0]);
      forall j | 0 <= j < |s[1..]|
        ensures cmp(s[0], s[1..][j]) <= 0
      {
        assert s[1..][j] == s[j + 1];
      }
      BoundCarries(cmp, s[0], s[1..], x, InsertBy(cmp, x, s[1..]));
      SortedCons(cmp, s[0], InsertBy(cmp, x, s[1..]));
    }
  }

  /** Insertion sort orders its input and keeps its elements. */
  lemma {:induction false} InsertionSortIsSort<T(!new)>(cmp: (T, T) -> int, s: seq<T>)
    requires TotalPreorder(cmp)
    ensures SortedBy(cmp, InsertionSort(cmp, s))
    ensures multiset(InsertionSort(cmp, s)) == multiset(s)
  {
    if s != [] {
      var sortedTail := InsertionSort(cmp, s[1..]);
      InsertionSortIsSort(cmp, s[1..]);
      InsertByIsOrderedInsert(cmp, s[0], sortedTail);
      assert InsertionSort(cmp, s) == InsertBy(cmp, s[0], sortedTail);
      assert s == [s[0]] + s[1..];
    }
  }

  /** Under a comparator consistent with equals, a sequence ordered by it and holding the
      elements of `s` is the reference sort of `s`. */
  lemma MatchesReference<T(!new)>(cmp: (T, T) -> int, s: seq<T>, t: seq<T>)
    requires TotalPreorder(cmp) && ConsistentWithEquals(cmp)
    requires SortedBy(cmp, t) && multiset(t) == multiset(s)
    ensures t == InsertionSort(cmp, s)
  {
    InsertionSortIsSort(cmp, s);
    SortedPermutationUnique(cmp, t, InsertionSort(cmp, s));
  }

  /** Sorting an ordered sequence changes nothing: the reference sort is idempotent. */
  lemma SortIdempotent<T(!new)>(cmp: (T, T) -> int, s: seq<T>)
    requires TotalPreorder(cmp) && ConsistentWithEquals(cmp)
    ensures InsertionSort(cmp, InsertionSort(cmp, s)) == InsertionSort(cmp, s)
  {
    InsertionSortIsSort(cmp, s);
    MatchesReference(cmp, InsertionSort(cmp, s), InsertionSort(cmp, s));
  }
}
