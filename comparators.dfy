/** Comparison functions in the manner of Java's Comparable and Comparator: negative,
    zero or positive as the first argument is less than, equal to or greater than the
    second. */
module Comparators {

  /** The Comparator contract the sort relies on: the sign flips when the arguments are
      exchanged, and "not greater than" is transitive. Then `cmp(a, b) <= 0` is a total
      preorder. */
  ghost predicate TotalPreorder<T(!new)>(cmp: (T, T) -> int)
  {
    && (forall a, b :: cmp(a, b) < 0 <==> cmp(b, a) > 0)
    && (forall a, b, c :: cmp(a, b) <= 0 && cmp(b, c) <= 0 ==> cmp(a, c) <= 0)
  }

  /** A comparator that is zero only on equal values, as Integer.compareTo is. */
  ghost predicate ConsistentWithEquals<T(!new)>(cmp: (T, T) -> int)
  {
    forall a, b :: cmp(a, b) == 0 ==> a == b
  }

  /** `s` is ordered by `cmp`: no element compares greater than one after it. */
  ghost predicate SortedBy<T>(cmp: (T, T) -> int, s: seq<T>)
  {
    forall i, j :: 0 <= i < j < |s| ==> cmp(s[i], s[j]) <= 0
  }

  /** Every value compares equal to itself. */
  ghost predicate Reflexive<T(!new)>(cmp: (T, T) -> int)
  {
    forall x :: cmp(x, x) == 0
  }

  /** A total preorder is reflexive: the sign flip leaves `cmp(x, x)` no sign but zero. */
  lemma TotalPreorderIsReflexive<T(!new)>(cmp: (T, T) -> int)
    requires TotalPreorder(cmp)
    ensures Reflexive(cmp)
  {
    forall x
      ensures cmp(x, x) == 0
    {
      assert cmp(x, x) < 0 <==> cmp(x, x) > 0;
    }
  }

  /** "a is at least b" read from the other side. */
  lemma Flip<T(!new)>(cmp: (T, T) -> int, a: T, b: T)
    requires TotalPreorder(cmp)
    ensures cmp(a, b) >= 0 <==> cmp(b, a) <= 0
  {
    assert cmp(b, a) < 0 <==> cmp(a, b) > 0;
  }

  /** Whatever is at most the pivot is at most whatever is at least the pivot. */
  lemma ThroughPivot<T(!new)>(cmp: (T, T) -> int, a: T, pivot: T, b: T)
    requires TotalPreorder(cmp)
    requires cmp(a, pivot) <= 0 && cmp(b, pivot) >= 0
    ensures cmp(a, b) <= 0
  {
    Flip(cmp, b, pivot);
  }

  /** Integer.compareTo: -1, 0 or 1. */
  function IntCompare(a: int, b: int): (r: int)
    ensures r < 0 <==> a < b
    ensures r == 0 <==> a == b
    ensures r > 0 <==> a > b
  {
    if a < b then -1 else if a == b then 0 else 1
  }

  /** Collections.reverseOrder(): the comparator with its arguments exchanged. */
  function ReverseOrder<T(!new)>(cmp: (T, T) -> int): (r: (T, T) -> int)
    ensures forall a, b :: r(a, b) == cmp(b, a)
  {
    (a, b) => cmp(b, a)
  }

  /** Integer.compareTo is a total order. */
  lemma IntCompareIsTotalOrder()
    ensures TotalPreorder(IntCompare) && ConsistentWithEquals(IntCompare)
  {
  }

  /** Reversing a comparator keeps it a total preorder, and keeps it consistent with
      equals. */
  lemma ReverseOrderIsTotalPreorder<T(!new)>(cmp: (T, T) -> int)
    requires TotalPreorder(cmp)
    ensures TotalPreorder(ReverseOrder(cmp))
    ensures ConsistentWithEquals(cmp) ==> ConsistentWithEquals(ReverseOrder(cmp))
  {
  }

  /** Ordered by Integer.compareTo is exactly non-decreasing. */
  lemma SortedByIntCompare(s: seq<int>)
    ensures SortedBy(IntCompare, s) <==> forall i, j :: 0 <= i < j < |s| ==> s[i] <= s[j]
  {
  }

  /** Ordered by the reverse of Integer.compareTo is exactly non-increasing. */
  lemma SortedByReverseIntCompare(s: seq<int>)
    ensures SortedBy(ReverseOrder(IntCompare), s) <==> forall i, j :: 0 <= i < j < |s| ==> s[i] >= s[j]
  {
    forall i, j | 0 <= i < j < |s|
      ensures ReverseOrder(IntCompare)(s[i], s[j]) == IntCompare(s[j], s[i])
    {
    }
  }

  /** The first element of an ordered sequence is at most every element of it. */
  lemma HeadIsLeast<T(!new)>(cmp: (T, T) -> int, s: seq<T>, x: T)
    requires TotalPreorder(cmp) && SortedBy(cmp, s) && x in s
    ensures cmp(s[0], x) <= 0
  {
    var i :| 0 <= i < |s| && s[i] == x;
    if i == 0 {
      TotalPreorderIsReflexive(cmp);
    }
  }

  /** Two values each at most the other are equal under a comparator consistent with
      equals. */
  lemma Antisymmetric<T(!new)>(cmp: (T, T) -> int, x: T, y: T)
    requires TotalPreorder(cmp) && ConsistentWithEquals(cmp)
    requires cmp(x, y) <= 0 && cmp(y, x) <= 0
    ensures x == y
  {
    Flip(cmp, x, y);
  }

  /** Equal heads and equal multisets leave equal multisets of the tails. */
  lemma TailsPermuted<T>(s: seq<T>, t: seq<T>)
    requires s != [] && t != [] && s[0] == t[0] && multiset(s) == multiset(t)
    ensures multiset(s[1..]) == multiset(t[1..])
  {
    assert s == [s[0]] + s[1..] && t == [t[0]] + t[1..];
    calc {
      multiset(s[1..]);
      multiset(s) - multiset{s[0]};
      multiset(t) - multiset{t[0]};
      multiset(t[1..]);
    }
  }

  /** Two ordered sequences with the same elements start with the same element. */
  lemma SortedHeadsEqual<T(!new)>(cmp: (T, T) -> int, s: seq<T>, t: seq<T>)
    requires TotalPreorder(cmp) && ConsistentWithEquals(cmp)
    requires SortedBy(cmp, s) && SortedBy(cmp, t)
    requires multiset(s) == multiset(t) && s != []
    ensures t != [] && s[0] == t[0]
  {
    assert s[0] in multiset(t);
    assert t[0] in multiset(s);
    HeadIsLeast(cmp, t, s[0]);
    HeadIsLeast(cmp, s, t[0]);
    Antisymmetric(cmp, s[0], t[0]);
  }

  /** The tail of an ordered sequence is ordered. */
  lemma SortedTail<T>(cmp: (T, T) -> int, s: seq<T>)
    requires SortedBy(cmp, s) && s != []
    ensures SortedBy(cmp, s[1..])
  {
    forall i, j | 0 <= i < j < |s| - 1
      ensures cmp(s[1..][i], s[1..][j]) <= 0
    {
      assert s[1..][i] == s[i + 1] && s[1..][j] == s[j + 1];
    }
  }

  /** Under a comparator consistent with equals there is only one ordering of a multiset:
      two ordered sequences with the same elements are equal. So sorting a sorted list
      changes nothing, and any two correct sorts of the same elements agree. */
  lemma {:induction false} SortedPermutationUnique<T(!new)>(cmp: (T, T) -> int, s: seq<T>, t: seq<T>)
    requires TotalPreorder(cmp) && ConsistentWithEquals(cmp)
    requires SortedBy(cmp, s) && SortedBy(cmp, t)
    requires multiset(s) == multiset(t)
    ensures s == t
  {
    if s == [] {
      assert |t| == |multiset(t)| == 0;
    } else {
      SortedHeadsEqual(cmp, s, t);
      TailsPermuted(s, t);
      SortedTail(cmp, s);
      SortedTail(cmp, t);
      SortedPermutationUnique(cmp, s[1..], t[1..]);
      assert s == [s[0]] + s[1..] && t == [t[0]] + t[1..];
    }
  }
}
