/** Client scenarios checked against the contracts of the model.
    `ElementAccess`, `CollectionQueries` and the first two pushes of
    `PushInOrder` follow the examples in the Array documentation strings
    (src/Array.c:30-86), with integers in place of reals. The rest exercise
    operations those examples do not show: insertion and removal in the
    middle, sorting, reversal and copying. */
module ArrayUsage {
  import opened ArrayErrors
  import opened Sequences
  import opened Ordering
  import opened CelloArray

  /** Element access, as in the documentation example (src/Array.c:42-52):
      [32, 6] reads back in order and `set` overwrites slot 0. The
      out-of-bounds read is an addition. */
  method ElementAccess() {
    var x := new Array<int>.New([32, 6]);
    assert x.Len() == 2;
    assert x.Get(0) == Ok(32) && x.Get(1) == Ok(6);
    assert x.Get(2) == Err(IndexOutOfBounds);
    var r := x.Set(0, 500);
    assert r == Pass && x.Get(0) == Ok(500) && x.Get(1) == Ok(6);
  }

  /** Collection queries, as in the documentation example
      (src/Array.c:54-72): on ['a', 'b', 'c', 'd'], 'c' is there until it is
      discarded, and clearing empties the array. Discarding 'c' a second
      time (ValueError) and popping the empty array (IndexOutOfBounds) are
      additions. */
  method CollectionQueries() {
    var x := new Array<char>.New(['a', 'b', 'c', 'd']);
    var found := x.Mem('c');
    assert found && x.Len() == 4;
    ghost var s := x.Elements();
    var r := x.Rem('c');
    assert s[2] == 'c' && s[0] != 'c' && s[1] != 'c';
    assert FirstIndex(s, 'c') == 2;
    assert RemoveAt(s, 2) == ['a', 'b', 'd'];
    assert r == Pass && x.Elements() == ['a', 'b', 'd'];
    found := x.Mem('c');
    assert !found && x.Len() == 3;
    r := x.Rem('c');
    assert r == Fail(ValueError);
    x.Clear();
    assert x.Len() == 0;
    r := x.Pop();
    assert r == Fail(IndexOutOfBounds);
  }

  /** Pushing onto an empty array appends in order, as in the construction
      example (src/Array.c:32-40). Inserting in the middle and removing the
      inserted element again are additions. */
  method PushInOrder() {
    var x := new Array<char>.New([]);
    x.Push('a');
    x.Push('b');
    assert x.Elements() == ['a', 'b'];
    x.PushAt('z', 1);
    assert x.Elements() == InsertAt(['a', 'b'], 1, 'z');
    var r := x.PopAt(1);
    InsertThenRemove(['a', 'b'], 1, 'z');
    assert r == Pass && x.Elements() == ['a', 'b'];
  }

  /** Sorting [5, 3, 1, 4, 2] gives [1, 2, 3, 4, 5]. */
  method SortFive() {
    var x := new Array<int>.New([5, 3, 1, 4, 2]);
    assert StrictOrder(IntLess);
    x.Sort(IntLess);
    SortFiveExample(x.Elements());
    assert x.Elements() == [1, 2, 3, 4, 5];
  }

  /** Reversing [1, 2, 3] gives [3, 2, 1], and reversing again restores it. */
  method ReverseTwice() {
    var x := new Array<int>.New([1, 2, 3]);
    x.Reverse();
    ghost var s := [1, 2, 3];
    ReversedAt(s, 0);
    ReversedAt(s, 1);
    ReversedAt(s, 2);
    assert x.Elements() == [3, 2, 1];
    x.Reverse();
    ReverseInvolutive(s);
    assert x.Elements() == [1, 2, 3];
  }

  /** A copy is equal to its source and does not share storage with it. */
  method CopyIsIndependent() {
    var x := new Array<int>.New([1, 2, 3]);
    var y := x.Copy();
    var same := y.Eq(x.Elements());
    assert same;
    y.Push(4);
    assert x.Elements() == [1, 2, 3];
    assert y.Elements() == [1, 2, 3, 4];
  }
}
