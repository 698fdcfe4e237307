# CustomArrayList and CustomCollections in Dafny

This project models the two components of the `ru.aston.customList` package and proves their behaviour:

- `CustomArrayList<T>` is a growable array list: a backing array `elementData` and a logical `size`.
  - It appends, inserts by index with a right shift, and gets and replaces by index.
  - It removes by index with a left shift, and removes the first element equal to a value.
  - It clears, and it grows by doubling when one free slot is left.
  - It hands out a cursor iterator.
- `CustomCollections` sorts such a list in place with a recursive quicksort. It uses a midpoint pivot and two markers that scan inward, swap and step. It touches the list only through `get`, `replace` and `size`.

The list is a Dafny class, `CustomLists.CustomArrayList`. It has three fields:
- an `array<Slot<T>>`, where a slot is `Null` or `Elem(value)`, so Java's nulls in the array are explicit;
- a `size: nat`;
- a ghost `Contents: seq<T>`, the elements in index order.

Its `Valid()` invariant says three things:
- the first `size` slots hold `Contents`;
- `size` never exceeds the capacity;
- a free slot is always left after the elements. This guard slot is kept by the checkFullness policy, except in a list built with capacity 0.

Every method states its new `Contents` and its new array contents. The calls that throw in Java are modelled in two ways:
- most return `Fail(...)` or `Failure(...)` (module `Failures`) and change nothing;
- the exception is `add(elem)` on a list of capacity 0. Java throws it there after `size++` has already run. The model excludes this case with a precondition; see "## Left out".

The sorter is one method, `CustomCollections.QuickSort`. It takes a comparison function `(T, T) -> int` and covers both Java overloads:
- `Comparable` is modelled by `int` elements with `Comparators.IntCompare`;
- `Comparator` is any function that is a total preorder (`Comparators.TotalPreorder`).

Its proof covers five things:
- the range ends sorted;
- it is a permutation of the range;
- positions outside the range are unchanged;
- every index the partition loop hands to `get` and `replace` lies in the range;
- it terminates.

An insertion sort on values, `ReferenceSort.InsertionSort`, plays the part of `Collections.sort` in the tests. Under a comparator consistent with equals, the quicksort result is proved equal to it.

Where the code and its documentation disagree, the model follows the code:
- Four methods use `checkIndex` (`CustomArrayList.java:176-179`), which admits only 0 ≤ index < size. Their doc comments say the exception comes for an index less than 0 or greater than the size, so they allow `index == size`:
  - `add(index, elem)`, doc comment at `:67`. The model is `AddAt`, and the documented range is `AddAtOrAppend`; see "## Findings".
  - `get`, doc comment at `:85-86`. The model is `Get`.
  - `remove(index)`, doc comment at `:98-99`. The model is `RemoveAt`.
  - `replace`, doc comment at `:133-134`. The model is `Replace`.
- For `get`, `remove(index)` and `replace` there is no element at `size`, so only `add(index, elem)` is listed as a finding.
- A list built with capacity 0 cannot take its first `add`, even though the class comment at `:9-10` says the capacity grows as elements are added.

## Model

| member | source | states |
|---|---|---|
| CustomLists.Nulls | src/main/java/ru/aston/customList/CustomArrayList.java:39 | a freshly allocated array of `n` slots holds `n` nulls |
| CustomLists.CustomArrayList.Valid | src/main/java/ru/aston/customList/CustomArrayList.java:9-27 | the class invariant: the first `size` slots hold the elements in order, the size is at most the capacity, and a free slot always follows the elements unless the capacity is 0 |
| CustomLists.CustomArrayList.IndexInRange | src/main/java/ru/aston/customList/CustomArrayList.java:176-179 | checkIndex admits exactly the indices of existing elements, 0 ≤ index < size; `AddAt`, `Get`, `RemoveAt` and `Replace` pass or fail by it |
| CustomLists.CheckedSlots | src/main/java/ru/aston/customList/CustomArrayList.java:161-174 | the slots after checkFullness are doubled exactly when capacity − size == 1, keep every old slot at its index and are null beyond the old capacity; otherwise they are unchanged |
| CustomLists.CheckFullnessWriteInBounds | src/main/java/ru/aston/customList/CustomArrayList.java:56-58 | after checkFullness the write at index `size` is in bounds exactly when it was before, and then at least two free slots exist; so capacity 0 is never rescued |
| CustomLists.CustomArrayList.constructor | src/main/java/ru/aston/customList/CustomArrayList.java:45-47 | an empty valid list with a fresh array of 10 nulls |
| CustomLists.CustomArrayList.WithCapacity | src/main/java/ru/aston/customList/CustomArrayList.java:39 | an empty valid list with a fresh array of exactly `capacity` nulls |
| CustomLists.CustomArrayList.New | src/main/java/ru/aston/customList/CustomArrayList.java:35-40 | fails with IllegalArgument exactly when the capacity is negative; otherwise a fresh, valid, empty list whose array has exactly that capacity |
| CustomLists.CustomArrayList.Size | src/main/java/ru/aston/customList/CustomArrayList.java:157-159 | the size is the number of elements |
| CustomLists.CustomArrayList.IncreaseCapacity | src/main/java/ru/aston/customList/CustomArrayList.java:161-168 | a fresh array of twice the capacity holding every old slot at the same index and nulls after them; the elements and the invariant are kept |
| CustomLists.CustomArrayList.CheckFullness | src/main/java/ru/aston/customList/CustomArrayList.java:170-174 | grows (into a fresh array) exactly when capacity − size == 1, otherwise keeps the same array; elements kept; a list with a free slot then has at least two |
| CustomLists.CustomArrayList.Add | src/main/java/ru/aston/customList/CustomArrayList.java:56-59 | for capacity ≠ 0: the elements become old ++ [elem], the slots become the checked slots with `elem` written at the old size, and the guard-slot invariant holds |
| CustomLists.CustomArrayList.AddAt | src/main/java/ru/aston/customList/CustomArrayList.java:70-78 | passes exactly when 0 ≤ index < size (checkIndex), then the elements become old[..index] ++ [elem] ++ old[index..] and the slots are the checked slots shifted right from `index`; otherwise throws IndexOutOfBounds with nothing changed |
| CustomLists.CustomArrayList.AddAtOrAppend | src/main/java/ru/aston/customList/CustomArrayList.java:61-78 | the documented range: passes exactly when 0 ≤ index ≤ size, inserting at `index` (appending at `size`); otherwise throws with nothing changed |
| CustomLists.CustomArrayList.Insert | src/main/java/ru/aston/customList/CustomArrayList.java:73-77 | after the checks: the elements gain `elem` at `index`, the same array holds the old slots shifted right from `index` with `elem` at `index` |
| CustomLists.CustomArrayList.ShiftRight | src/main/java/ru/aston/customList/CustomArrayList.java:73-75 | the shift loop moves the slots `index..size-1` one place on and leaves every other slot unchanged |
| CustomLists.CustomArrayList.Get | src/main/java/ru/aston/customList/CustomArrayList.java:89-92 | the element at an index in [0, size), otherwise IndexOutOfBounds |
| CustomLists.CustomArrayList.RemoveAt | src/main/java/ru/aston/customList/CustomArrayList.java:102-109 | passes exactly when 0 ≤ index < size, then the elements lose the one at `index` and the slots shift left with the vacated slot nulled, except that removing the last element leaves its slot set; otherwise throws with nothing changed |
| CustomLists.CustomArrayList.ShiftLeft | src/main/java/ru/aston/customList/CustomArrayList.java:104-107 | the shift loop moves the slots after `index` one place back and nulls the last one only when the loop ran |
| CustomLists.CustomArrayList.GetIndex | src/main/java/ru/aston/customList/CustomArrayList.java:182-189 | the search loop returns the first index holding `elem`, or -1 when there is none |
| CustomLists.CustomArrayList.Remove | src/main/java/ru/aston/customList/CustomArrayList.java:119-126 | null throws IllegalArgument with nothing changed; otherwise the first element equal to `elem` is removed, with the slots laid out as remove(index) at that index, and nothing changes when no element is equal |
| CustomLists.CustomArrayList.RemoveFound | src/main/java/ru/aston/customList/CustomArrayList.java:123-124 | once the first index of `x` is known, the elements become those without that first `x`, and the slots are laid out as remove(index) at that index |
| CustomLists.CustomArrayList.Replace | src/main/java/ru/aston/customList/CustomArrayList.java:137-140 | passes exactly when 0 ≤ index < size, then exactly the element and slot at `index` become `elem`, size unchanged; otherwise nothing changes |
| CustomLists.CustomArrayList.Clear | src/main/java/ru/aston/customList/CustomArrayList.java:146-149 | no elements and a fresh array of 10 nulls |
| CustomLists.CustomArrayList.Iterator | src/main/java/ru/aston/customList/CustomArrayList.java:191-194 | a fresh cursor over this list at index 0 with nothing returned yet |
| CustomLists.CustomArrayListIterator.constructor | src/main/java/ru/aston/customList/CustomArrayList.java:196-198 | cursor 0 and lastReturned −1 |
| CustomLists.CustomArrayListIterator.HasNext | src/main/java/ru/aston/customList/CustomArrayList.java:201-203 | true exactly when the cursor is not at the size |
| CustomLists.CustomArrayListIterator.Next | src/main/java/ru/aston/customList/CustomArrayList.java:206-214 | below the size: the element under the cursor, the cursor advances and lastReturned records it; otherwise NoSuchElement and nothing moves |
| CustomLists.Traverse | src/main/java/ru/aston/customList/CustomArrayList.java:191-214 | a for-each loop over the iterator yields exactly the elements, in order |
| CustomLists.FirstIndexOf | src/main/java/ru/aston/customList/CustomArrayList.java:182-189 | −1 exactly when `x` does not occur; otherwise an index holding `x` with no `x` before it |
| CustomLists.RemoveFirst | src/main/java/ru/aston/customList/CustomArrayList.java:119-126 | when `x` occurs, one element shorter with exactly one `x` fewer; otherwise unchanged |
| CustomLists.RemoveFirstSplits | src/main/java/ru/aston/customList/CustomArrayList.java:119-126 | the removal splits the sequence around an `x` that has no `x` before it and joins the two parts |
| CustomLists.RemoveUndoesInsert | src/main/java/ru/aston/customList/CustomArrayList.java:70-109 | removing at an index what add(index, elem) put there gives the old elements back |
| Comparators.TotalPreorderIsReflexive | src/main/java/ru/aston/customList/CustomCollections.java:52-68 | a comparator meeting the Comparator contract compares every value equal to itself, so the pivot stops both scans |
| Comparators.ThroughPivot | src/main/java/ru/aston/customList/CustomCollections.java:48-49 | an element at most the pivot is at most any element at least the pivot |
| Comparators.IntCompare | src/main/java/ru/aston/customList/CustomCollections.java:34-50 | Integer.compareTo: negative, zero or positive exactly as a <, ==, > b |
| Comparators.IntCompareIsTotalOrder | src/main/java/ru/aston/customList/CustomCollections.java:34-50 | Integer.compareTo is a total preorder consistent with equals |
| Comparators.ReverseOrder | src/test/java/ru/aston/customList/SortTest.java:37-39 | Collections.reverseOrder(): the reversed comparator compares `a` with `b` exactly as the original compares `b` with `a` |
| Comparators.ReverseOrderIsTotalPreorder | src/test/java/ru/aston/customList/SortTest.java:35-41 | Collections.reverseOrder of a total preorder is one, and stays consistent with equals |
| Comparators.SortedByIntCompare | src/main/java/ru/aston/customList/CustomCollections.java:19-21 | ordered by Integer.compareTo is exactly non-decreasing |
| Comparators.SortedByReverseIntCompare | src/test/java/ru/aston/customList/SortTest.java:35-41 | ordered by the reversed Integer.compareTo is exactly non-increasing |
| Comparators.SortedPermutationUnique | src/test/java/ru/aston/customList/SortTest.java:26-41 | under a comparator consistent with equals, two ordered sequences with the same elements are equal, so a correct sort has only one possible result |
| ReferenceSort.InsertBy | src/test/java/ru/aston/customList/SortTest.java:28 | the insertion step of the reference sort: `x` goes before the first element it is not greater than, and the result is one longer |
| ReferenceSort.InsertionSort | src/test/java/ru/aston/customList/SortTest.java:28 | the reference sort standing for `Collections.sort`; it keeps the length, and `InsertionSortIsSort` proves it ordered and a permutation |
| ReferenceSort.InsertByIsOrderedInsert | src/test/java/ru/aston/customList/SortTest.java:28 | inserting into an ordered sequence keeps it ordered and adds exactly that element |
| ReferenceSort.InsertionSortIsSort | src/test/java/ru/aston/customList/SortTest.java:28 | the reference sort orders its input and keeps its elements |
| ReferenceSort.MatchesReference | src/test/java/ru/aston/customList/SortTest.java:26-41 | any ordered permutation equals the reference sort under a comparator consistent with equals |
| ReferenceSort.SortIdempotent | src/test/java/ru/aston/customList/SortTest.java:28 | the reference sort, applied to its own output, changes nothing. This reaches `sort` only through `CustomCollections.Sort`, whose contract equates its result with the reference sort |
| CustomCollections.Swap | src/main/java/ru/aston/customList/CustomCollections.java:70-74 | exactly the elements at `i` and `j` are exchanged |
| CustomCollections.SwapKeepsRange | src/main/java/ru/aston/customList/CustomCollections.java:43 | a swap inside a range keeps the multiset of that range |
| CustomCollections.SwapExtendsSides | src/main/java/ru/aston/customList/CustomCollections.java:42-46 | swapping the elements under the markers extends the at-most-pivot side and the at-least-pivot side by one each |
| CustomCollections.SwapKeepsPartitioning | src/main/java/ru/aston/customList/CustomCollections.java:42-46 | with the markers not crossed and each on the element that stopped its scan, swapping and stepping both markers keeps the partition invariant |
| CustomCollections.ScanUp | src/main/java/ru/aston/customList/CustomCollections.java:40 | the left scan stops at the first element not less than the pivot and stays in bounds; everything it passed is less |
| CustomCollections.ScanDown | src/main/java/ru/aston/customList/CustomCollections.java:41 | the right scan stops at the first element not greater than the pivot and stays in bounds; everything it passed is greater |
| CustomCollections.PartitionPass | src/main/java/ru/aston/customList/CustomCollections.java:39-47 | one pass of the partition loop keeps the partition invariant and brings the markers closer |
| CustomCollections.Partition | src/main/java/ru/aston/customList/CustomCollections.java:36-47 | pivot = the midpoint element; the markers end crossed (rightMarker < leftMarker ≤ rightMarker + 2) and strictly inside the range; only the range is permuted; [leftIndex, leftMarker) ≤ pivot and (rightMarker, rightIndex] ≥ pivot |
| CustomCollections.JoinSortedSides | src/main/java/ru/aston/customList/CustomCollections.java:48-49 | a partitioned range whose two sides are sorted is sorted |
| CustomCollections.QuickSortStep | src/main/java/ru/aston/customList/CustomCollections.java:36-49 | partition followed by sorting both sides permutes only the range and leaves it sorted |
| CustomCollections.QuickSort | src/main/java/ru/aston/customList/CustomCollections.java:34-68 | the range ends sorted and permuted, every position outside it is unchanged, and an empty list or a range with leftIndex ≥ rightIndex is left alone |
| CustomCollections.Sort | src/main/java/ru/aston/customList/CustomCollections.java:30-32 | the list ends ordered by the comparator with the same elements; under a comparator consistent with equals it equals the reference sort, and a sorted list is left unchanged |
| CustomCollections.SortNatural | src/main/java/ru/aston/customList/CustomCollections.java:19-21 | the list ends non-decreasing with the same elements, equal to the reference sort by Integer.compareTo |
| CustomCollections.SortDescending | src/test/java/ru/aston/customList/SortTest.java:35-41 | sort with Collections.reverseOrder leaves the list non-increasing with the same elements, equal to the reference sort by the reversed order |
| ListScenarios.GrowFromCapacityTwo | src/main/java/ru/aston/customList/CustomArrayList.java:56-59 | three appends to a list of capacity 2 give those elements, and the array doubles once, to 4 |
| ListScenarios.InsertInTheMiddle | src/main/java/ru/aston/customList/CustomArrayList.java:70-78 | appending 5, 3, 8, 1 and inserting 9 at index 2 gives 5, 3, 9, 8, 1 |
| ListScenarios.InsertAtFrontOfEmpty | src/test/java/ru/aston/customList/CustomArrayListTest.java:162-168 | as written, add(0, elem) on a new empty list throws IndexOutOfBounds and the list stays empty |
| ListScenarios.InsertAtFrontOfEmptyAsDocumented | src/test/java/ru/aston/customList/CustomArrayListTest.java:162-168 | with the documented range, two insertions at index 0 of a new list both pass and put the later element first |

## Findings

| source | as written | input that shows it | evidently intended | confidence | as-written member | corrected member |
|---|---|---|---|---|---|---|
| src/main/java/ru/aston/customList/CustomArrayList.java:70-71 | `add(index, elem)` checks the index with `checkIndex`, which admits only 0 ≤ index < size | `add(0, x)` on a new empty list, the first call of the test at CustomArrayListTest.java:162-168, throws IndexOutOfBoundsException | the range of the doc comment at :67, 0 ≤ index ≤ size, so that inserting at `size` appends | high (not executed) | ListScenarios.InsertAtFrontOfEmpty | CustomLists.CustomArrayList.AddAtOrAppend |

## Left out

- CustomLists.CustomArrayList.Add: requires a capacity other than 0. With capacity 0, `checkFullness` does not grow (0 − 0 ≠ 1), so the write at `CustomArrayList.java:58` is out of bounds. In Java that throws ArrayIndexOutOfBoundsException after `size++` has already run. The model does not describe that failed state; `CheckFullnessWriteInBounds` states when the write is in bounds.
- CustomLists.CustomArrayList.AddAt: keeps checkIndex's range, as the code does. The documented range is `AddAtOrAppend`, as described under Findings.
- Java `int` overflow is not modelled; integers are unbounded. This affects `elementData.length * 2` at `CustomArrayList.java:162` and `(leftIndex + rightIndex) / 2` in `CustomCollections.java`.
- Stored nulls are not modelled. `Add`, `AddAt` and `Replace` take a `T`, so a slot below `size` always holds an element. This rules out the NullPointerException that `getIndex` would raise on a stored null.
- `Object.equals` is modelled as Dafny equality `==`.
- CustomLists.CustomArrayList.Remove takes a `Slot<T>` so that Java's `null` argument can be expressed.
- `remove(elem)` calls `getIndex` twice. The model does the same; the two calls agree.
- `CustomList.java` is a Java interface: signatures only.
  - The sorter takes a `CustomArrayList` directly instead of the interface.
  - Comparators are plain functions `(T, T) -> int`, not objects.
- The `Comparable` overloads of `sort` and `quickSort` are modelled only for `int` elements with `IntCompare` (Integer.compareTo). The `Comparator` overloads are modelled for any element type with a total preorder.
- `Collections.reverseOrder()` is modelled as `ReverseOrder`, which swaps the comparator's arguments.
- The iterator is not wired into Java's `Iterable`/for-each machinery. `Traverse` writes out the loop that for-each performs.
  - `lastReturned` is read only to fetch the element just returned (`:213`); no other operation uses it.
  - Concurrent modification during iteration is not modelled.
- Sort stability is not claimed: this quicksort is not stable. With a comparator that ties unequal elements, only sortedness and the permutation are stated.
- Implementation split: these parts of the code are separate methods here. The code and its order of effects are unchanged.
  - The part of `add(index, elem)` after its checks (`Insert`) and its shift loop (`ShiftRight`).
  - The shift loop of `remove(index)` (`ShiftLeft`).
  - The removal in `remove(elem)` once the index is found (`RemoveFound`).
  - The two scan loops of `quickSort` (`ScanUp`, `ScanDown`), one pass of its partition loop (`PartitionPass`), and the partition loop as a whole (`Partition`).
- The tests' JUnit and AssertJ machinery and their random data (`Math.random`, `Random`) are left out. `ListScenarios` states a few of their scenarios on fixed values.
