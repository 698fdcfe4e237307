/** A growable array list: a backing array of slots and a logical size. */
module CustomLists {
  import opened Failures

  /** One slot of the backing array: Java's `null` or a reference to an element. */
  datatype Slot<T> = Null | Elem(value: T)

  /** The capacity of the no-argument constructor and of a cleared list. */
  const DefaultCapacity: nat := 10

  /** A fresh Java array of `n` slots: every slot is null. */
  function Nulls<T>(n: nat): (r: seq<Slot<T>>)
    ensures |r| == n && forall k :: 0 <= k < n ==> r[k] == Null
  {
    seq(n, _ => Null)
  }

  /** The backing slots after checkFullness: doubled (old slots first, then nulls)
      exactly when one free slot is left, otherwise untouched. */
  function CheckedSlots<T>(slots: seq<Slot<T>>, size: int): (r: seq<Slot<T>>)
    ensures |slots| - size == 1 ==> |r| == 2 * |slots|
    ensures |slots| - size != 1 ==> r == slots
    ensures r[..|slots|] == slots
    ensures forall k :: |slots| <= k < |r| ==> r[k] == Null
  {
    if |slots| - size == 1 then slots + Nulls(|slots|) else slots
  }

  /** The write at index `size` that follows checkFullness is in bounds exactly when it
      already was: checkFullness never rescues a full array, so an array of capacity 0
      is written out of bounds by the first add. */
  lemma CheckFullnessWriteInBounds<T>(slots: seq<Slot<T>>, size: nat)
    requires size <= |slots|
    ensures size < |CheckedSlots(slots, size)| <==> size < |slots|
    ensures size < |slots| ==> size + 2 <= |CheckedSlots(slots, size)|
  {
  }

  class CustomArrayList<T(==)> {
    /** The backing array; slots at and beyond `size` are unspecified. */
    var elementData: array<Slot<T>>
    /** The number of elements of the list. */
    var size: nat
    /** The elements of the list, in index order. */
    ghost var Contents: seq<T>

    /** The list invariant: the first `size` slots hold the elements, and a free slot is
        always left after them, except in a list built with capacity 0. */
    ghost predicate Valid()
      reads this, elementData
      ensures Valid() ==> |Contents| == size <= elementData.Length
    {
      && size <= elementData.Length
      && (size < elementData.Length || elementData.Length == 0)
      && |Contents| == size
      && Holds(elementData[..], Contents)
    }

    /** new CustomArrayList(): an empty list of the default capacity. */
    constructor ()
      ensures Valid() && fresh(elementData)
      ensures Contents == [] && elementData[..] == Nulls(DefaultCapacity)
    {
      elementData := new Slot<T>[DefaultCapacity](_ => Null);
      size := 0;
      Contents := [];
    }

    /** new CustomArrayList(capacity) once the capacity has passed its check. */
    constructor WithCapacity(capacity: nat)
      ensures Valid() && fresh(elementData)
      ensures Contents == [] && elementData[..] == Nulls(capacity)
    {
      elementData := new Slot<T>[capacity](_ => Null);
      size := 0;
      Contents := [];
    }

    /** new CustomArrayList(capacity): a negative capacity throws IllegalArgumentException,
        any other gives an empty list whose array has exactly that capacity. */
    static method New(capacity: int) returns (r: Result<CustomArrayList<T>>)
      ensures r.Failure? <==> capacity < 0
      ensures r.Failure? ==> r.error == IllegalArgument
      ensures r.Success? ==> && fresh(r.value) && fresh(r.value.elementData)
                             && r.value.Valid() && r.value.Contents == []
                             && r.value.elementData.Length == capacity
    {
      if capacity < 0 {
        return Failure(IllegalArgument);
      }
      var list := new CustomArrayList<T>.WithCapacity(capacity);
      return Success(list);
    }

    /** size(): the number of elements. */
    function Size(): (n: nat)
      reads this, elementData
      requires Valid()
      ensures n == |Contents|
    {
      size
    }

    /** increaseCapacity(): a new array of twice the capacity holding every old slot at
        the same index, nulls after them. */
    method IncreaseCapacity()
      requires Valid()
      modifies this
      ensures Valid() && fresh(elementData)
      ensures size == old(size) && Contents == old(Contents)
      ensures elementData.Length == 2 * old(elementData.Length)
      ensures elementData[..] == old(elementData[..]) + Nulls(old(elementData.Length))
    {
      var newCapacity := elementData.Length * 2;
      var newElementData := new Slot<T>[newCapacity](_ => Null);
      var i := 0;
      while i < elementData.Length
        modifies newElementData
        invariant 0 <= i <= elementData.Length
        invariant forall k :: 0 <= k < i ==> newElementData[k] == elementData[k]
        invariant forall k :: i <= k < newCapacity ==> newElementData[k] == Null
      {
        newElementData[i] := elementData[i];
        i := i + 1;
      }
      elementData := newElementData;
    }

    /** checkFullness(): grow when exactly one free slot is left. Afterwards a list that
        had a free slot has at least two. */
    method CheckFullness()
      requires Valid()
      modifies this
      ensures Valid() && size == old(size) && Contents == old(Contents)
      ensures elementData[..] == CheckedSlots(old(elementData[..]), old(size))
      ensures old(elementData.Length) - size == 1 ==> fresh(elementData)
      ensures old(elementData.Length) - size != 1 ==> elementData == old(elementData)
      ensures size < old(elementData.Length) ==> size + 2 <= elementData.Length
    {
      if elementData.Length - size == 1 {
        IncreaseCapacity();
      }
    }

    /** add(elem): append at the end, after checkFullness. The source demands a capacity
        other than 0: with capacity 0 it writes index 0 of an empty array. */
    method Add(elem: T)
      requires Valid()
      requires elementData.Length != 0
      modifies this, elementData
      ensures Valid()
      ensures Contents == old(Contents) + [elem]
      ensures elementData[..] == CheckedSlots(old(elementData[..]), old(size))[old(size) := Elem(elem)]
      ensures old(elementData.Length) - old(size) == 1 ==> fresh(elementData)
      ensures old(elementData.Length) - old(size) != 1 ==> elementData == old(elementData)
    {
      CheckFullness();
      elementData[size] := Elem(elem);
      size := size + 1;
      Contents := Contents + [elem];
    }

    /** checkIndex(index): the indices of the elements. An index outside them makes
        add(index, elem), get, remove(index) and replace throw. */
    predicate IndexInRange(index: int): (r: bool)
      requires Valid()
      reads this, elementData
      ensures r <==> 0 <= index < |Contents|
    {
      0 <= index < size
    }

    /** add(index, elem): insert before the element at `index`, shifting the tail right.
        checkIndex admits only existing indices, so inserting at `size` throws. */
    method AddAt(index: int, elem: T) returns (r: Outcome)
      requires Valid()
      modifies this, elementData
      ensures Valid()
      ensures r == if old(IndexInRange(index)) then Pass else Fail(IndexOutOfBounds)
      ensures r.Pass? ==> Contents == old(Contents)[..index] + [elem] + old(Contents)[index..]
      ensures r.Pass? ==> elementData[..] == InsertedSlots(CheckedSlots(old(elementData[..]), old(size)), index, old(size), Elem(elem))
      ensures r.Pass? && old(elementData.Length) - old(size) == 1 ==> fresh(elementData)
      ensures r.Pass? && old(elementData.Length) - old(size) != 1 ==> elementData == old(elementData)
      ensures r.Fail? ==> size == old(size) && Contents == old(Contents) && elementData == old(elementData)
      ensures r.Fail? ==> elementData[..] == old(elementData[..])
    {
      if !IndexInRange(index) {
        return Fail(IndexOutOfBounds);
      }
      CheckFullness();
      Insert(index, elem);
      return Pass;
    }

    /** add(index, elem) with the range its documentation gives, 0 to `size` inclusive:
        inserting at `size` appends. A list of capacity 0 is excluded, as for add(elem). */
    method AddAtOrAppend(index: int, elem: T) returns (r: Outcome)
      requires Valid()
      requires elementData.Length != 0
      modifies this, elementData
      ensures Valid()
      ensures r == if 0 <= index <= old(size) then Pass else Fail(IndexOutOfBounds)
      ensures r.Pass? ==> Contents == old(Contents)[..index] + [elem] + old(Contents)[index..]
      ensures r.Pass? ==> elementData[..] == InsertedSlots(CheckedSlots(old(elementData[..]), old(size)), index, old(size), Elem(elem))
      ensures r.Pass? && old(elementData.Length) - old(size) == 1 ==> fresh(elementData)
      ensures r.Pass? && old(elementData.Length) - old(size) != 1 ==> elementData == old(elementData)
      ensures r.Fail? ==> size == old(size) && Contents == old(Contents) && elementData == old(elementData)
      ensures r.Fail? ==> elementData[..] == old(elementData[..])
    {
      if !(0 <= index <= size) {
        return Fail(IndexOutOfBounds);
      }
      if index == size {
        ghost var c := CheckedSlots(elementData[..], size);
        CheckFullnessWriteInBounds(elementData[..], size);
        AppendIsInsertAtEnd(c, index, Elem(elem));
        Add(elem);
      } else {
        CheckFullness();
        Insert(index, elem);
      }
      return Pass;
    }

    /** The insertion of add(index, elem) once checkIndex and checkFullness have passed:
        the right shift, the write at `index` and the new size. */
    method Insert(index: nat, elem: T)
      requires Valid() && index < size && size + 1 < elementData.Length
      modifies this, elementData
      ensures Valid() && elementData == old(elementData)
      ensures Contents == old(Contents)[..index] + [elem] + old(Contents)[index..]
      ensures elementData[..] == InsertedSlots(old(elementData[..]), index, old(size), Elem(elem))
    {
      ghost var c := elementData[..];
      ShiftRight(index);
      ShiftedRightDone(c, index, size, Elem(elem));
      elementData[index] := Elem(elem);
      InsertedHolds(c, Contents, index, elem);
      size := size + 1;
      Contents := Contents[..index] + [elem] + Contents[index..];
    }

    /** The shift loop of add(index, elem): every slot from `size` down to `index + 1`
        takes the slot before it, so the slots from `index` on move one place further. */
    method ShiftRight(index: nat)
      requires index < size < elementData.Length
      modifies elementData
      ensures elementData[..] == old(elementData[..index + 1]) + old(elementData[index..size])
                                 + old(elementData[size + 1..])
    {
      ghost var c := elementData[..];
      var i := size;
      while i > index
        invariant index <= i <= size
        invariant forall k :: 0 <= k <= i ==> elementData[k] == c[k]
        invariant forall k :: i < k <= size ==> elementData[k] == c[k - 1]
        invariant forall k :: size < k < elementData.Length ==> elementData[k] == c[k]
      {
        elementData[i] := elementData[i - 1];
        i := i - 1;
      }
      ShiftedRight(elementData[..], c, index, size);
    }

    /** get(index): the element at an existing index; any other index throws. */
    method Get(index: int) returns (r: Result<T>)
      requires Valid()
      ensures r == if IndexInRange(index) then Success(Contents[index]) else Failure(IndexOutOfBounds)
    {
      if !IndexInRange(index) {
        return Failure(IndexOutOfBounds);
      }
      return Success(elementData[index].value);
    }

    /** remove(index): delete the element at an existing index, shifting the tail left and
        nulling each slot it vacates; removing the last element leaves its slot as it was. */
    method RemoveAt(index: int) returns (r: Outcome)
      requires Valid()
      modifies this, elementData
      ensures Valid() && elementData == old(elementData)
      ensures r == if old(IndexInRange(index)) then Pass else Fail(IndexOutOfBounds)
      ensures r.Pass? ==> Contents == old(Contents)[..index] + old(Contents)[index + 1..]
      ensures r.Pass? ==> elementData[..] == RemovedSlots(old(elementData[..]), index, old(size))
      ensures r.Fail? ==> size == old(size) && Contents == old(Contents)
      ensures r.Fail? ==> elementData[..] == old(elementData[..])
    {
      if !IndexInRange(index) {
        return Fail(IndexOutOfBounds);
      }
      ghost var o := elementData[..];
      ShiftLeft(index);
      RemovedHolds(o, Contents, index);
      size := size - 1;
      Contents := Contents[..index] + Contents[index + 1..];
      return Pass;
    }

    /** The shift loop of remove(index): every slot from `index` to `size - 2` takes the
        slot after it, which is then nulled; when `index` is the last index the loop
        does not run and nothing is nulled. */
    method ShiftLeft(index: nat)
      requires index < size <= elementData.Length
      modifies elementData
      ensures elementData[..] == RemovedSlots(old(elementData[..]), index, size)
    {
      ghost var o := elementData[..];
      var i := index;
      while i < size - 1
        invariant index <= i <= size - 1
        invariant forall k :: 0 <= k < index ==> elementData[k] == o[k]
        invariant forall k :: index <= k < i ==> elementData[k] == o[k + 1]
        invariant elementData[i] == if i > index then Null else o[index]
        invariant forall k :: i < k < elementData.Length ==> elementData[k] == o[k]
      {
        elementData[i] := elementData[i + 1];
        elementData[i + 1] := Null;
        i := i + 1;
      }
      ShiftedLeft(elementData[..], o, index, size);
    }

    /** getIndex(elem): the first index holding an element equal to `elem`, or -1. */
    method GetIndex(elem: T) returns (i: int)
      requires Valid()
      ensures i == FirstIndexOf(Contents, elem)
    {
      i := 0;
      while i < size
        invariant 0 <= i <= size
        invariant elem !in Contents[..i]
      {
        if elementData[i].value == elem {
          FirstIndexOfUnique(Contents, elem, i);
          return i;
        }
        assert Contents[..i + 1] == Contents[..i] + [Contents[i]];
        i := i + 1;
      }
      assert Contents[..i] == Contents;
      return -1;
    }

    /** remove(elem): removing null throws IllegalArgumentException; otherwise the first
        element equal to `elem` is removed, and nothing changes when there is none. */
    method Remove(elem: Slot<T>) returns (r: Outcome)
      requires Valid()
      modifies this, elementData
      ensures Valid() && elementData == old(elementData)
      ensures r == if elem.Null? then Fail(IllegalArgument) else Pass
      ensures r.Pass? ==> Contents == RemoveFirst(old(Contents), elem.value)
      ensures (elem.Null? || elem.value !in old(Contents)) ==> Contents == old(Contents)
      ensures (elem.Null? || elem.value !in old(Contents)) ==> elementData[..] == old(elementData[..])
      ensures elem.Elem? && elem.value in old(Contents) ==>
                elementData[..] == RemovedSlots(old(elementData[..]), FirstIndexOf(old(Contents), elem.value), old(size))
    {
      if elem.Null? {
        return Fail(IllegalArgument);
      }
      // The source searches twice: once to test for a match, once for the index to remove.
      var found := GetIndex(elem.value);
      if found >= 0 {
        var index := GetIndex(elem.value);
        RemoveFound(elem.value, index);
      }
      return Pass;
    }

    /** The removal in remove(elem) once getIndex has found the first index of `x`. */
    method RemoveFound(x: T, index: int)
      requires Valid() && 0 <= index && index == FirstIndexOf(Contents, x)
      modifies this, elementData
      ensures Valid() && elementData == old(elementData)
      ensures Contents == RemoveFirst(old(Contents), x)
      ensures elementData[..] == RemovedSlots(old(elementData[..]), index, old(size))
    {
      RemoveFirstAt(Contents, x, index);
      var r := RemoveAt(index);
    }

    /** replace(index, elem): overwrite the element at an existing index in place; any
        other index throws. */
    method Replace(index: int, elem: T) returns (r: Outcome)
      requires Valid()
      modifies this`Contents, elementData
      ensures Valid()
      ensures r == if old(IndexInRange(index)) then Pass else Fail(IndexOutOfBounds)
      ensures Contents == if r.Pass? then old(Contents)[index := elem] else old(Contents)
      ensures elementData[..] == if r.Pass? then old(elementData[..])[index := Elem(elem)] else old(elementData[..])
    {
      if !IndexInRange(index) {
        return Fail(IndexOutOfBounds);
      }
      elementData[index] := Elem(elem);
      Contents := Contents[index := elem];
      return Pass;
    }

    /** clear(): drop every element and start again from a fresh default-capacity array. */
    method Clear()
      modifies this
      ensures Valid() && fresh(elementData)
      ensures Contents == [] && elementData[..] == Nulls(DefaultCapacity)
    {
      elementData := new Slot<T>[DefaultCapacity](_ => Null);
      size := 0;
      Contents := [];
    }

    /** iterator(): a cursor at the first element. */
    method Iterator() returns (it: CustomArrayListIterator<T>)
      ensures fresh(it) && it.list == this && it.cursor == 0 && it.lastReturned == -1
    {
      it := new CustomArrayListIterator(this);
    }
  }

  /** The first |contents| slots hold the elements of `contents`, in order. */
  ghost predicate Holds<T>(slots: seq<Slot<T>>, contents: seq<T>)
  {
    |contents| <= |slots| && forall k :: 0 <= k < |contents| ==> slots[k] == Elem(contents[k])
  }

  /** Shifting the slots right from `index` and writing `x` there holds the elements with
      `x` inserted at `index`. */
  lemma InsertedHolds<T>(c: seq<Slot<T>>, contents: seq<T>, index: nat, x: T)
    requires Holds(c, contents) && index < |contents| < |c|
    ensures Holds(InsertedSlots(c, index, |contents|, Elem(x)), contents[..index] + [x] + contents[index..])
  {
    var a := c[..index] + [Elem(x)] + c[index..|contents|] + c[|contents| + 1..];
    var t := contents[..index] + [x] + contents[index..];
    forall k | 0 <= k < |t|
      ensures a[k] == Elem(t[k])
    {
      if k > index {
        assert a[k] == c[k - 1] && t[k] == contents[k - 1];
      }
    }
  }

  /** Slots that agree with `c` up to `index`, with `c` moved one place on from there up
      to `size`, and with `c` after `size` are that concatenation. */
  lemma ShiftedRight<S>(a: seq<S>, c: seq<S>, index: nat, size: nat)
    requires index <= size < |c| == |a|
    requires forall k :: 0 <= k <= index ==> a[k] == c[k]
    requires forall k :: index < k <= size ==> a[k] == c[k - 1]
    requires forall k :: size < k < |a| ==> a[k] == c[k]
    ensures a == c[..index + 1] + c[index..size] + c[size + 1..]
  {
  }

  /** The right shift of add(index, elem) done, writing `x` at `index` gives the slots with
      `x` inserted at `index` and the slot after the old last element overwritten. */
  lemma ShiftedRightDone<S>(c: seq<S>, index: nat, size: nat, x: S)
    requires index <= size < |c|
    ensures var a := c[..index + 1] + c[index..size] + c[size + 1..];
            |a| == |c| && a[index := x] == InsertedSlots(c, index, size, x)
  {
  }

  /** Writing `x` just after the elements is inserting it at the end. */
  lemma AppendIsInsertAtEnd<S>(c: seq<S>, size: nat, x: S)
    requires size < |c|
    ensures c[size := x] == InsertedSlots(c, size, size, x)
  {
    assert c[size..size] == [];
  }

  /** Slots `c` with `x` inserted at `index`, the slots up to `size` moved one place on
      and the slot at `size` overwritten. */
  ghost function InsertedSlots<S>(c: seq<S>, index: nat, size: nat, x: S): seq<S>
    requires index <= size < |c|
  {
    c[..index] + [x] + c[index..size] + c[size + 1..]
  }

  /** The slots after the left shift of remove(index): the slots after `index` up to
      `size` one place back, the last of them nulled when the loop ran at all. */
  lemma ShiftedLeft<S>(a: seq<Slot<S>>, o: seq<Slot<S>>, index: nat, size: nat)
    requires index < size <= |o| == |a|
    requires forall k :: 0 <= k < index ==> a[k] == o[k]
    requires forall k :: index <= k < size - 1 ==> a[k] == o[k + 1]
    requires a[size - 1] == if size - 1 > index then Null else o[index]
    requires forall k :: size - 1 < k < |a| ==> a[k] == o[k]
    ensures a == RemovedSlots(o, index, size)
  {
  }

  /** Slots `o` after remove(index) on `size` elements: the slots after `index` up to
      `size` one place back, then the slot at `size - 1` nulled, or left as it was when
      `index` was the last index. */
  ghost function RemovedSlots<S>(o: seq<Slot<S>>, index: nat, size: nat): seq<Slot<S>>
    requires index < size <= |o|
  {
    o[..index] + o[index + 1..size] + [if index < size - 1 then Null else o[index]] + o[size..]
  }

  /** Shifting the slots left over `index` holds the elements without the one at `index`. */
  lemma RemovedHolds<T>(o: seq<Slot<T>>, contents: seq<T>, index: nat)
    requires Holds(o, contents) && index < |contents|
    ensures Holds(o[..index] + o[index + 1..|contents|] + o[|contents|..], contents[..index] + contents[index + 1..])
  {
    var a := o[..index] + o[index + 1..|contents|] + o[|contents|..];
    var t := contents[..index] + contents[index + 1..];
    forall k | 0 <= k < |t|
      ensures a[k] == Elem(t[k])
    {
      if k >= index {
        assert a[k] == o[k + 1] && t[k] == contents[k + 1];
      }
    }
  }

  /** The first index of `x` in `s`, or -1 when `x` does not occur. */
  function FirstIndexOf<T(==)>(s: seq<T>, x: T): (r: int)
    ensures -1 <= r < |s|
    ensures r == -1 <==> x !in s
    ensures 0 <= r ==> s[r] == x && x !in s[..r]
  {
    if |s| == 0 then -1
    else if s[0] == x then 0
    else
      var k := FirstIndexOf(s[1..], x);
      assert k >= 0 ==> s[..k + 1] == [s[0]] + s[1..][..k];
      if k < 0 then -1 else k + 1
  }

  /** An index holding `x` with no `x` before it is the first index of `x`. */
  lemma FirstIndexOfUnique<T>(s: seq<T>, x: T, i: int)
    requires 0 <= i < |s| && s[i] == x && x !in s[..i]
    ensures FirstIndexOf(s, x) == i
  {
  }

  /** `s` without its first occurrence of `x`; `s` itself when `x` does not occur. */
  function RemoveFirst<T(==)>(s: seq<T>, x: T): (r: seq<T>)
    ensures x in s ==> |r| == |s| - 1 && multiset(r) == multiset(s) - multiset{x}
    ensures x !in s ==> r == s
  {
    var k := FirstIndexOf(s, x);
    if k < 0 then s
    else
      assert s == s[..k] + [s[k]] + s[k + 1..];
      s[..k] + s[k + 1..]
  }

  /** Removing the first occurrence removes the element at the first index. */
  lemma RemoveFirstAt<T>(s: seq<T>, x: T, index: int)
    requires 0 <= index && index == FirstIndexOf(s, x)
    ensures RemoveFirst(s, x) == s[..index] + s[index + 1..]
  {
  }

  /** What removing the first occurrence means: `s` splits around an `x` with no `x`
      before it, and the removal joins the two parts. */
  lemma RemoveFirstSplits<T>(s: seq<T>, x: T) returns (before: seq<T>, after: seq<T>)
    requires x in s
    ensures s == before + [x] + after && x !in before
    ensures RemoveFirst(s, x) == before + after
  {
    var k := FirstIndexOf(s, x);
    before, after := s[..k], s[k + 1..];
    assert s == before + [s[k]] + after;
  }

  /** Removing at an index what was just inserted there gives the sequence back: remove(index)
      undoes add(index, elem). */
  lemma RemoveUndoesInsert<T>(s: seq<T>, index: nat, x: T)
    requires index <= |s|
    ensures var t := s[..index] + [x] + s[index..];
            t[index] == x && t[..index] + t[index + 1..] == s
  {
    var t := s[..index] + [x] + s[index..];
    assert t[..index] == s[..index];
    assert t[index + 1..] == s[index..];
    assert s == s[..index] + s[index..];
  }

  /** The cursor of iterator(): the index of the next element to return. */
  class CustomArrayListIterator<T(==)> {
    const list: CustomArrayList<T>
    var cursor: nat
    var lastReturned: int

    constructor (list: CustomArrayList<T>)
      ensures this.list == list && cursor == 0 && lastReturned == -1
    {
      this.list := list;
      cursor := 0;
      lastReturned := -1;
    }

    /** hasNext(): the cursor has not reached the size (it may have passed it if the
        list shrank meanwhile). */
    function HasNext(): (b: bool)
      reads this, list, list.elementData
      requires list.Valid()
      ensures b <==> cursor != |list.Contents|
    {
      cursor != list.size
    }

    /** next(): the element under the cursor, advancing past it; at or beyond the size it
        throws NoSuchElementException and moves nothing. */
    method Next() returns (r: Result<T>)
      requires list.Valid()
      modifies this
      ensures old(cursor) < |list.Contents| ==> && r == Success(list.Contents[old(cursor)])
                                                 && cursor == old(cursor) + 1
                                                 && lastReturned == old(cursor)
      ensures |list.Contents| <= old(cursor) ==> && r == Failure(NoSuchElement)
                                                  && cursor == old(cursor)
                                                  && lastReturned == old(lastReturned)
    {
      var current := cursor;
      if current >= list.size {
        return Failure(NoSuchElement);
      }
      cursor := current + 1;
      lastReturned := current;
      return Success(list.elementData[lastReturned].value);
    }
  }

  /** A for-each loop over the list: the iterator yields exactly the elements, in order. */
  method Traverse<T(==)>(list: CustomArrayList<T>) returns (s: seq<T>)
    requires list.Valid()
    ensures s == list.Contents
  {
    var it := list.Iterator();
    s := [];
    while it.HasNext()
      invariant it.list == list && fresh(it)
      invariant it.cursor <= |list.Contents| && s == list.Contents[..it.cursor]
      decreases |list.Contents| - it.cursor
    {
      var x := it.Next();
      s := s + [x.value];
    }
  }
}
