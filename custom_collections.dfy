/** In-place recursive quicksort of a list, working only through its get, replace and
    size: a midpoint pivot and two markers that scan inward, swap and step. The two
    sort overloads of the source differ only in how they compare, so one comparator
    parameter covers both. */
module CustomCollections {
  import opened Failures
  import opened CustomLists
  import opened Comparators
  import opened ReferenceSort

  /** `s` is ordered by `cmp` between the indices `lo` and `hi`, both included. */
  ghost predicate SortedBetween<T>(cmp: (T, T) -> int, s: seq<T>, lo: int, hi: int)
  {
    forall i, j :: 0 <= lo <= i < j <= hi < |s| ==> cmp(s[i], s[j]) <= 0
  }

  /** `s` and `t` have the same length and agree outside the indices `lo` to `hi`. */
  ghost predicate SameOutside<T>(s: seq<T>, t: seq<T>, lo: int, hi: int)
  {
    |s| == |t| && forall k :: 0 <= k < |s| && (k < lo || hi < k) ==> s[k] == t[k]
  }

  /** Exchanging two elements inside `lo`..`hi` keeps the elements of that range. */
  lemma SwapKeepsRange<T>(s: seq<T>, i: int, j: int, lo: int, hi: int)
    requires 0 <= lo <= i <= hi < |s| && lo <= j <= hi
    ensures multiset(s[i := s[j]][j := s[i]][lo..hi + 1]) == multiset(s[lo..hi + 1])
  {
    var r := s[lo..hi + 1];
    assert s[i := s[j]][j := s[i]][lo..hi + 1] == r[i - lo := r[j - lo]][j - lo := r[i - lo]];
  }

  /** A property of every element of a range survives a permutation of that range. */
  lemma PermutationKeeps<T>(s: seq<T>, t: seq<T>, lo: int, hi: int, p: T -> bool)
    requires 0 <= lo && hi < |s| == |t|
    requires lo <= hi ==> multiset(s[lo..hi + 1]) == multiset(t[lo..hi + 1])
    requires forall k :: lo <= k <= hi ==> p(s[k])
    ensures forall k :: lo <= k <= hi ==> p(t[k])
  {
    forall k | lo <= k <= hi
      ensures p(t[k])
    {
      assert t[k] == t[lo..hi + 1][k - lo];
      assert t[k] in multiset(s[lo..hi + 1]);
      var m :| 0 <= m < hi + 1 - lo && s[lo..hi + 1][m] == t[k];
      assert s[lo + m] == t[k];
    }
  }

  /** Permuting the range `a`..`b` inside `lo`..`hi` permutes `lo`..`hi`. */
  lemma PermutationWidens<T>(s: seq<T>, t: seq<T>, lo: int, a: int, b: int, hi: int)
    requires 0 <= lo <= a && b <= hi < |s| && a <= b + 1
    requires SameOutside(s, t, a, b)
    requires a <= b ==> multiset(s[a..b + 1]) == multiset(t[a..b + 1])
    ensures multiset(s[lo..hi + 1]) == multiset(t[lo..hi + 1])
  {
    assert s[lo..hi + 1] == s[lo..a] + s[a..b + 1] + s[b + 1..hi + 1];
    assert t[lo..hi + 1] == t[lo..a] + t[a..b + 1] + t[b + 1..hi + 1];
    assert s[lo..a] == t[lo..a];
    assert s[b + 1..hi + 1] == t[b + 1..hi + 1];
  }

  /** Once both sides of a partition are sorted, the whole range is: every element of the
      left side is at most the pivot, every element of the right side at least it, and
      an element between the sides is both. */
  lemma JoinSortedSides<T(!new)>(cmp: (T, T) -> int, s: seq<T>, pivot: T,
                                                    lo: int, rightMarker: int, leftMarker: int, hi: int)
    requires TotalPreorder(cmp)
    requires 0 <= lo <= leftMarker <= hi + 1 && lo - 1 <= rightMarker <= hi < |s| && rightMarker < leftMarker
    requires SortedBetween(cmp, s, lo, rightMarker) && SortedBetween(cmp, s, leftMarker, hi)
    requires forall k :: lo <= k < leftMarker && k <= hi ==> cmp(s[k], pivot) <= 0
    requires forall k :: rightMarker < k <= hi && lo <= k ==> cmp(s[k], pivot) >= 0
    ensures SortedBetween(cmp, s, lo, hi)
  {
    forall i, j | lo <= i < j <= hi
      ensures cmp(s[i], s[j]) <= 0
    {
      if j <= rightMarker || leftMarker <= i {
      } else {
        ThroughPivot(cmp, s[i], pivot, s[j]);
      }
    }
  }

  /** The step from a partitioned range and its two sorted sides to the sorted range:
      `parted` is `s` after the partition, `leftDone` after sorting the left side,
      `sorted` after sorting the right side. */
  lemma QuickSortStep<T(!new)>(cmp: (T, T) -> int, s: seq<T>, parted: seq<T>,
                                                  leftDone: seq<T>, sorted: seq<T>, pivot: T,
                                                  lo: int, rightMarker: int, leftMarker: int, hi: int)
    requires TotalPreorder(cmp)
    requires 0 <= lo < leftMarker <= hi + 1 && lo - 1 <= rightMarker < hi < |s|
    requires rightMarker < leftMarker
    requires SameOutside(parted, s, lo, hi)
    requires multiset(parted[lo..hi + 1]) == multiset(s[lo..hi + 1])
    requires forall k :: lo <= k < leftMarker ==> cmp(parted[k], pivot) <= 0
    requires forall k :: rightMarker < k <= hi ==> cmp(parted[k], pivot) >= 0
    requires SameOutside(leftDone, parted, lo, rightMarker)
    requires lo <= rightMarker ==> multiset(leftDone[lo..rightMarker + 1]) == multiset(parted[lo..rightMarker + 1])
    requires SortedBetween(cmp, leftDone, lo, rightMarker)
    requires SameOutside(sorted, leftDone, leftMarker, hi)
    requires leftMarker <= hi ==> multiset(sorted[leftMarker..hi + 1]) == multiset(leftDone[leftMarker..hi + 1])
    requires SortedBetween(cmp, sorted, leftMarker, hi)
    ensures SameOutside(sorted, s, lo, hi)
    ensures multiset(sorted[lo..hi + 1]) == multiset(s[lo..hi + 1])
    ensures SortedBetween(cmp, sorted, lo, hi)
  {
    var atMost := x => cmp(x, pivot) <= 0;
    var atLeast := x => cmp(x, pivot) >= 0;
    // The left side keeps its bound through the left sort and is untouched by the right one.
    PermutationKeeps(parted, leftDone, lo, rightMarker, atMost);
    forall k | lo <= k < leftMarker
      ensures cmp(sorted[k], pivot) <= 0
    {
      assert sorted[k] == leftDone[k];
      if rightMarker < k {
        assert leftDone[k] == parted[k];
      } else {
        assert atMost(leftDone[k]);
      }
    }
    // The right side is untouched by the left sort and keeps its bound through the right one.
    forall k | leftMarker <= k <= hi
      ensures atLeast(leftDone[k])
    {
      assert leftDone[k] == parted[k];
    }
    PermutationKeeps(leftDone, sorted, leftMarker, hi, atLeast);
    forall k | rightMarker < k <= hi
      ensures cmp(sorted[k], pivot) >= 0
    {
      if k < leftMarker {
        assert sorted[k] == leftDone[k] == parted[k];
      } else {
        assert atLeast(sorted[k]);
      }
    }
    forall i, j | lo <= i < j <= rightMarker
      ensures cmp(sorted[i], sorted[j]) <= 0
    {
      assert sorted[i] == leftDone[i] && sorted[j] == leftDone[j];
    }
    JoinSortedSides(cmp, sorted, pivot, lo, rightMarker, leftMarker, hi);
    PermutationWidens(parted, leftDone, lo, lo, rightMarker, hi);
    PermutationWidens(leftDone, sorted, lo, leftMarker, hi, hi);
  }

  /** Swapping the element under the left marker (at least the pivot) with the one under
      the right marker (at most the pivot) extends both bounded sides by one. */
  lemma SwapExtendsSides<T>(cmp: (T, T) -> int, s: seq<T>, t: seq<T>, pivot: T, lo: int, leftMarker: int, rightMarker: int, hi: int)
    requires 0 <= lo <= leftMarker <= rightMarker <= hi < |s|
    requires t == s[leftMarker := s[rightMarker]][rightMarker := s[leftMarker]]
    requires forall k :: lo <= k < leftMarker ==> cmp(s[k], pivot) <= 0
    requires forall k :: rightMarker < k <= hi ==> cmp(s[k], pivot) >= 0
    requires cmp(s[leftMarker], pivot) >= 0 && cmp(s[rightMarker], pivot) <= 0
    ensures forall k :: lo <= k <= leftMarker ==> cmp(t[k], pivot) <= 0
    ensures forall k :: rightMarker <= k <= hi ==> cmp(t[k], pivot) >= 0
  {
  }

  /** swap(list, i, j): exchange two elements through get and replace. */
  method Swap<T(==)>(list: CustomArrayList<T>, i: int, j: int)
    requires list.Valid() && 0 <= i < |list.Contents| && 0 <= j < |list.Contents|
    modifies list`Contents, list.elementData
    ensures list.Valid()
    ensures list.Contents == old(list.Contents)[i := old(list.Contents)[j]][j := old(list.Contents)[i]]
  {
    var temp := list.Get(i);
    var other := list.Get(j);
    var replaced := list.Replace(i, other.value);
    replaced := list.Replace(j, temp.value);
  }

  /** The inner loop that moves the left marker: it steps past elements less than the
      pivot and stops on the first that is not. `stop` is an index whose element is not
      less than the pivot, which keeps the scan inside the list. */
  method ScanUp<T(==)>(list: CustomArrayList<T>, from: int, pivot: T, cmp: (T, T) -> int, ghost stop: int)
    returns (marker: int)
    requires list.Valid() && 0 <= from <= stop < |list.Contents| && cmp(list.Contents[stop], pivot) >= 0
    ensures from <= marker <= stop && cmp(list.Contents[marker], pivot) >= 0
    ensures forall k :: from <= k < marker ==> cmp(list.Contents[k], pivot) < 0
  {
    marker := from;
    var current := list.Get(marker);
    while cmp(current.value, pivot) < 0
      invariant from <= marker <= stop && current == Success(list.Contents[marker])
      invariant forall k :: from <= k < marker ==> cmp(list.Contents[k], pivot) < 0
      decreases stop - marker
    {
      marker := marker + 1;
      current := list.Get(marker);
    }
  }

  /** The inner loop that moves the right marker: it steps past elements greater than
      the pivot and stops on the first that is not. `stop` is an index whose element is
      not greater than the pivot. */
  method ScanDown<T(==)>(list: CustomArrayList<T>, from: int, pivot: T, cmp: (T, T) -> int, ghost stop: int)
    returns (marker: int)
    requires list.Valid() && 0 <= stop <= from < |list.Contents| && cmp(list.Contents[stop], pivot) <= 0
    ensures stop <= marker <= from && cmp(list.Contents[marker], pivot) <= 0
    ensures forall k :: marker < k <= from ==> cmp(list.Contents[k], pivot) > 0
  {
    marker := from;
    var current := list.Get(marker);
    while cmp(current.value, pivot) > 0
      invariant stop <= marker <= from && current == Success(list.Contents[marker])
      invariant forall k :: marker < k <= from ==> cmp(list.Contents[k], pivot) > 0
      decreases marker - stop
    {
      marker := marker - 1;
      current := list.Get(marker);
    }
  }

  /** What holds between passes of the partition loop over `lo`..`hi`, for the current
      elements `s` of a list whose elements were `s0`: the markers stay within one step
      outside the range, only the range has been permuted, everything before the left
      marker is at most the pivot and everything after the right marker at least it.
      While the markers have not crossed, `stopLeft` and `stopRight` are indices of
      elements that stop the next two scans inside the range. */
  ghost predicate Partitioning<T>(cmp: (T, T) -> int, s: seq<T>, s0: seq<T>, pivot: T, lo: int, hi: int,
                                  leftMarker: int, rightMarker: int, stopLeft: int, stopRight: int)
  {
    && 0 <= lo <= leftMarker <= hi + 1 && lo - 1 <= rightMarker <= hi < |s|
    && leftMarker <= rightMarker + 2
    && SameOutside(s, s0, lo, hi)
    && multiset(s[lo..hi + 1]) == multiset(s0[lo..hi + 1])
    && (forall k :: lo <= k < leftMarker ==> cmp(s[k], pivot) <= 0)
    && (forall k :: rightMarker < k <= hi ==> cmp(s[k], pivot) >= 0)
    && (|| (leftMarker == lo && rightMarker == hi && stopLeft == stopRight)
        || (lo < leftMarker && rightMarker < hi))
    && (leftMarker <= rightMarker ==>
          && leftMarker <= stopLeft <= hi && stopLeft <= rightMarker + 1
          && cmp(s[stopLeft], pivot) >= 0
          && lo <= stopRight <= rightMarker
          && cmp(s[stopRight], pivot) <= 0)
  }

  /** The swap and step at the end of a pass: with the markers not crossed, each on an
      element that stopped its scan, swapping those elements and stepping both markers
      inward keeps the partition invariant, with the swapped elements stopping the next
      scans. */
  lemma SwapKeepsPartitioning<T>(cmp: (T, T) -> int, s: seq<T>, t: seq<T>, s0: seq<T>, pivot: T, lo: int, hi: int,
                                 leftMarker: int, rightMarker: int)
    requires 0 <= lo <= leftMarker <= rightMarker <= hi < |s|
    requires t == s[leftMarker := s[rightMarker]][rightMarker := s[leftMarker]]
    requires SameOutside(s, s0, lo, hi)
    requires multiset(s[lo..hi + 1]) == multiset(s0[lo..hi + 1])
    requires forall k :: lo <= k < leftMarker ==> cmp(s[k], pivot) <= 0
    requires forall k :: rightMarker < k <= hi ==> cmp(s[k], pivot) >= 0
    requires cmp(s[leftMarker], pivot) >= 0 && cmp(s[rightMarker], pivot) <= 0
    ensures Partitioning(cmp, t, s0, pivot, lo, hi, leftMarker + 1, rightMarker - 1, rightMarker, leftMarker)
  {
    SwapKeepsRange(s, leftMarker, rightMarker, lo, hi);
    SwapExtendsSides(cmp, s, t, pivot, lo, leftMarker, rightMarker, hi);
  }

  /** One pass of the partition loop while the markers have not crossed: both scans,
      then, if the markers still have not crossed, a swap and a step of each marker. The
      distance between the markers shrinks. */
  method PartitionPass<T(==)>(list: CustomArrayList<T>, lo: int, hi: int, cmp: (T, T) -> int, pivot: T,
                              leftMarker: int, rightMarker: int, ghost stopLeft: int, ghost stopRight: int,
                              ghost s0: seq<T>)
    returns (newLeft: int, newRight: int, ghost newStopLeft: int, ghost newStopRight: int)
    requires list.Valid() && leftMarker <= rightMarker
    requires Partitioning(cmp, list.Contents, s0, pivot, lo, hi, leftMarker, rightMarker, stopLeft, stopRight)
    modifies list`Contents, list.elementData
    ensures list.Valid()
    ensures Partitioning(cmp, list.Contents, s0, pivot, lo, hi, newLeft, newRight, newStopLeft, newStopRight)
    ensures newRight - newLeft < rightMarker - leftMarker
  {
    newLeft := ScanUp(list, leftMarker, pivot, cmp, stopLeft);
    ghost var stop := if lo < newLeft && stopRight < newLeft - 1 then newLeft - 1 else stopRight;
    newRight := ScanDown(list, rightMarker, pivot, cmp, stop);
    newStopLeft, newStopRight := stopLeft, stopRight;
    if newLeft <= newRight {
      ghost var s := list.Contents;
      SwapKeepsPartitioning(cmp, s, s[newLeft := s[newRight]][newRight := s[newLeft]], s0, pivot, lo, hi, newLeft, newRight);
      Swap(list, newLeft, newRight);
      newStopLeft, newStopRight := newRight, newLeft;
      newLeft := newLeft + 1;
      newRight := newRight - 1;
    }
  }

  /** The partition loop of quickSort on the range `leftIndex`..`rightIndex`: the pivot
      is the element at the midpoint; the markers scan inward past elements less than
      (greater than) the pivot, and while they have not crossed, the elements under them
      are swapped and both step inward. Every index handed to get and replace lies in the
      range. The markers end crossed, each side strictly inside the range. */
  method Partition<T(==, !new)>(list: CustomArrayList<T>, leftIndex: int, rightIndex: int, cmp: (T, T) -> int)
    returns (pivot: T, leftMarker: int, rightMarker: int)
    requires list.Valid() && Reflexive(cmp)
    requires 0 <= leftIndex < rightIndex < |list.Contents|
    modifies list`Contents, list.elementData
    ensures list.Valid()
    ensures pivot == old(list.Contents)[(leftIndex + rightIndex) / 2]
    ensures leftIndex < leftMarker <= rightIndex + 1 && leftIndex - 1 <= rightMarker < rightIndex
    ensures rightMarker < leftMarker <= rightMarker + 2
    ensures SameOutside(list.Contents, old(list.Contents), leftIndex, rightIndex)
    ensures multiset(list.Contents[leftIndex..rightIndex + 1]) == multiset(old(list.Contents)[leftIndex..rightIndex + 1])
    ensures forall k :: leftIndex <= k < leftMarker ==> cmp(list.Contents[k], pivot) <= 0
    ensures forall k :: rightMarker < k <= rightIndex ==> cmp(list.Contents[k], pivot) >= 0
  {
    var middle := list.Get((leftIndex + rightIndex) / 2);
    pivot := middle.value;
    leftMarker, rightMarker := leftIndex, rightIndex;
    ghost var stopLeft, stopRight := (leftIndex + rightIndex) / 2, (leftIndex + rightIndex) / 2;
    assert cmp(pivot, pivot) == 0;
    while leftMarker <= rightMarker
      invariant list.Valid()
      invariant Partitioning(cmp, list.Contents, old(list.Contents), pivot, leftIndex, rightIndex,
                             leftMarker, rightMarker, stopLeft, stopRight)
      decreases rightMarker + 2 - leftMarker
    {
      leftMarker, rightMarker, stopLeft, stopRight :=
        PartitionPass(list, leftIndex, rightIndex, cmp, pivot, leftMarker, rightMarker, stopLeft, stopRight, old(list.Contents));
    }
  }

  /** quickSort(list, leftIndex, rightIndex[, comparator]): sorts the range
      `leftIndex`..`rightIndex` in place, permuting only that range; an empty list or a
      range of at most one element is left alone. */
  method QuickSort<T(==, !new)>(list: CustomArrayList<T>, leftIndex: int, rightIndex: int, cmp: (T, T) -> int)
    requires list.Valid() && TotalPreorder(cmp)
    requires 0 <= leftIndex && rightIndex < |list.Contents|
    modifies list`Contents, list.elementData
    ensures list.Valid()
    ensures SameOutside(list.Contents, old(list.Contents), leftIndex, rightIndex)
    ensures leftIndex <= rightIndex ==>
              multiset(list.Contents[leftIndex..rightIndex + 1]) == multiset(old(list.Contents)[leftIndex..rightIndex + 1])
    ensures SortedBetween(cmp, list.Contents, leftIndex, rightIndex)
    decreases rightIndex - leftIndex
  {
    if list.Size() == 0 || leftIndex >= rightIndex {
      return;
    }
    TotalPreorderIsReflexive(cmp);
    var pivot, leftMarker, rightMarker := Partition(list, leftIndex, rightIndex, cmp);
    ghost var parted := list.Contents;
    if leftIndex < rightMarker {
      QuickSort(list, leftIndex, rightMarker, cmp);
    }
    ghost var leftDone := list.Contents;
    if rightIndex > leftMarker {
      QuickSort(list, leftMarker, rightIndex, cmp);
    }
    QuickSortStep(cmp, old(list.Contents), parted, leftDone, list.Contents, pivot,
                  leftIndex, rightMarker, leftMarker, rightIndex);
  }

  /** sort(list, comparator): the list ends ordered by the comparator, with the same
      elements and the same size. Under a comparator consistent with equals there is
      only one such order, so the result is the reference sort's, and sorting a sorted
      list changes nothing. */
  method Sort<T(==, !new)>(list: CustomArrayList<T>, cmp: (T, T) -> int)
    requires list.Valid() && TotalPreorder(cmp)
    modifies list`Contents, list.elementData
    ensures list.Valid()
    ensures SortedBy(cmp, list.Contents)
    ensures multiset(list.Contents) == multiset(old(list.Contents))
    ensures ConsistentWithEquals(cmp) ==> list.Contents == InsertionSort(cmp, old(list.Contents))
    ensures ConsistentWithEquals(cmp) && SortedBy(cmp, old(list.Contents)) ==> list.Contents == old(list.Contents)
  {
    QuickSort(list, 0, list.Size() - 1, cmp);
    if |list.Contents| > 0 {
      assert list.Contents[0..|list.Contents|] == list.Contents;
      assert old(list.Contents)[0..|list.Contents|] == old(list.Contents);
    }
    if ConsistentWithEquals(cmp) {
      MatchesReference(cmp, old(list.Contents), list.Contents);
      if SortedBy(cmp, old(list.Contents)) {
        SortedPermutationUnique(cmp, list.Contents, old(list.Contents));
      }
    }
  }

  /** sort(list) for Integer elements: the list ends non-decreasing, holding the same
      elements; it is what the reference sort by Integer.compareTo gives. */
  method SortNatural(list: CustomArrayList<int>)
    requires list.Valid()
    modifies list`Contents, list.elementData
    ensures list.Valid()
    ensures forall i, j :: 0 <= i < j < |list.Contents| ==> list.Contents[i] <= list.Contents[j]
    ensures multiset(list.Contents) == multiset(old(list.Contents))
    ensures list.Contents == InsertionSort(IntCompare, old(list.Contents))
  {
    IntCompareIsTotalOrder();
    Sort(list, IntCompare);
    SortedByIntCompare(list.Contents);
  }

  /** sort(list, Collections.reverseOrder()) for Integer elements: the list ends
      non-increasing, holding the same elements; it is what the reference sort by the
      reversed comparator gives. */
  method SortDescending(list: CustomArrayList<int>)
    requires list.Valid()
    modifies list`Contents, list.elementData
    ensures list.Valid()
    ensures forall i, j :: 0 <= i < j < |list.Contents| ==> list.Contents[i] >= list.Contents[j]
    ensures multiset(list.Contents) == multiset(old(list.Contents))
    ensures list.Contents == InsertionSort(ReverseOrder(IntCompare), old(list.Contents))
  {
    IntCompareIsTotalOrder();
    ReverseOrderIsTotalPreorder(IntCompare);
    Sort(list, ReverseOrder(IntCompare));
    SortedByReverseIntCompare(list.Contents);
  }
}
