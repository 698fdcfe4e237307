/** Small client runs of the list on fresh lists: the growth schedule of checkFullness and
    insertions by index. */
module ListScenarios {
  import opened Failures
  import opened CustomLists

  /** Three appends to a list of capacity 2: the second append finds one free slot and
      doubles the array, the third finds two and does not. */
  method GrowFromCapacityTwo() returns (contents: seq<int>, capacity: int)
    ensures contents == [7, 8, 9] && capacity == 4
  {
    var made := CustomArrayList<int>.New(2);
    var list := made.value;
    list.Add(7);
    assert list.elementData.Length == 2;
    list.Add(8);
    assert list.elementData.Length == 4;
    list.Add(9);
    contents := Traverse(list);
    capacity := list.elementData.Length;
  }

  /** add(0, elem) on a new empty list, as written: checkIndex rejects index 0 of an empty
      list, so the first insertion of a run of front insertions throws and the list stays
      empty. */
  method InsertAtFrontOfEmpty() returns (r: Outcome, contents: seq<int>)
    ensures r == Fail(IndexOutOfBounds) && contents == []
  {
    var list := new CustomArrayList<int>();
    r := list.AddAt(0, 5);
    contents := Traverse(list);
  }

  /** The same insertions with the documented range 0 to size: each goes to the front. */
  method InsertAtFrontOfEmptyAsDocumented() returns (r: Outcome, contents: seq<int>)
    ensures r == Pass && contents == [6, 5]
  {
    var list := new CustomArrayList<int>();
    r := list.AddAtOrAppend(0, 5);
    r := list.AddAtOrAppend(0, 6);
    contents := Traverse(list);
  }

  /** Appending 5, 3, 8, 1 and inserting 9 at index 2 shifts 8 and 1 one place on. */
  method InsertInTheMiddle() returns (r: Outcome, contents: seq<int>)
    ensures r == Pass && contents == [5, 3, 9, 8, 1]
  {
    var list := new CustomArrayList<int>();
    list.Add(5);
    list.Add(3);
    list.Add(8);
    list.Add(1);
    r := list.AddAt(2, 9);
    contents := Traverse(list);
  }
}
