/** The Array container of src/Array.c: a growable, contiguous sequence of
    elements of one type. `data` is the slot buffer, `nitems` the number of
    live elements (the first `nitems` slots) and `nslots` the number of
    allocated slots. Slots from `nitems` on are reserve space. */
module CelloArray {
  import opened ArrayErrors
  import opened Capacity
  import opened Sequences
  import opened Ordering

  /** A position handed out by the iterator: a live slot, or the end. */
  datatype Cursor = Terminal | At(index: nat)

  class Array<T(0, ==, !new)> {
    var data: array<T>
    var nitems: nat
    var nslots: nat

    /** The buffer has exactly `nslots` slots, they hold all live elements,
        and the capacity policy never leaves more than half as many spare
        slots as there are elements. */
    ghost predicate Valid()
      reads this
    {
      data.Length == nslots && nitems <= nslots <= MaxSlots(nitems)
    }

    /** The live elements, in order. */
    function Elements(): seq<T>
      reads this, data
      requires Valid()
    {
      data[..nitems]
    }

    /** Array_New: length and capacity both equal the number of initial
        elements (no slack), and the elements are stored in order. */
    constructor New(init: seq<T>)
      ensures Valid() && fresh(data)
      ensures Elements() == init
      ensures nitems == nslots == |init|
    {
      nitems := |init|;
      nslots := |init|;
      var buf := new T[|init|];
      for i := 0 to |init|
        invariant buf[..i] == init[..i]
      {
        buf[i] := init[i];
      }
      data := buf;
    }

    /** realloc: a buffer of `n` slots that keeps the first slots of the old
        buffer, as many as fit. */
    method Realloc(n: nat)
      modifies this
      ensures fresh(data) && data.Length == n
      ensures nitems == old(nitems) && nslots == old(nslots)
      ensures n <= old(data.Length) ==> data[..] == old(data[..n])
      ensures old(data.Length) <= n ==> data[..old(data.Length)] == old(data[..])
    {
      var prev := data;
      var kept := if n < prev.Length then n else prev.Length;
      data := new T[n];
      forall k | 0 <= k < kept {
        data[k] := prev[k];
      }
    }

    /** Array_Clear: every element goes and both counters drop to 0. */
    method Clear()
      modifies this
      ensures Valid() && fresh(data)
      ensures Elements() == [] && nitems == 0 && nslots == 0
    {
      data := new T[0];
      nitems := 0;
      nslots := 0;
    }

    /** Array_Assign: the old contents are cleared, then length and capacity
        both become the source's length and the source's elements are stored
        in order. */
    method Assign(src: seq<T>)
      modifies this
      ensures Valid() && fresh(data)
      ensures Elements() == src
      ensures nitems == nslots == |src|
    {
      Clear();
      nitems := |src|;
      nslots := nitems;
      data := new T[nslots];
      for i := 0 to nitems
        invariant fresh(data) && data.Length == nslots == nitems == |src|
        invariant data[..i] == src[..i]
      {
        data[i] := src[i];
      }
    }

    /** Array_Reserve_More, called once `nitems` has been raised: if it now
        exceeds the slot count, the buffer grows to one and a half times
        `nitems`, keeping every old slot. */
    method ReserveMore()
      requires data.Length == nslots && nslots <= MaxSlots(nitems)
      modifies this
      ensures Valid()
      ensures nitems == old(nitems)
      ensures nslots == GrowCapacity(nitems, old(nslots))
      ensures forall k :: 0 <= k < old(nslots) ==> data[k] == old(data[k])
      ensures data == old(data) || fresh(data)
    {
      if nitems > nslots {
        nslots := nitems + nitems / 2;
        Realloc(nslots);
      }
    }

    /** Array_Reserve_Less, called after a removal: a buffer holding more than
        one and a half times `nitems` slots shrinks to exactly `nitems`,
        keeping the live elements. */
    method ReserveLess()
      requires data.Length == nslots && nitems <= nslots
      modifies this
      ensures Valid()
      ensures nitems == old(nitems)
      ensures nslots == ShrinkCapacity(nitems, old(nslots))
      ensures data[..nitems] == old(data[..nitems])
      ensures data == old(data) || fresh(data)
    {
      if nslots > nitems + nitems / 2 {
        nslots := nitems;
        Realloc(nslots);
      }
    }

    /** Array_Concat: every element of `other` is appended in order, after a
        single capacity check for the whole batch. */
    method Concat(other: seq<T>)
      requires Valid()
      modifies this, data
      ensures Valid()
      ensures Elements() == old(Elements()) + other
      ensures nslots == GrowCapacity(old(nitems) + |other|, old(nslots))
      ensures data == old(data) || fresh(data)
    {
      ghost var before := Elements();
      var olen := |other|;
      nitems := nitems + olen;
      ReserveMore();
      ghost var grown := nslots;
      assert data[..nitems - olen] == before;
      var i := 0;
      while i < olen
        invariant 0 <= i <= olen && Valid() && nitems - olen == |before| && nslots == grown
        invariant data == old(data) || fresh(data)
        invariant data[..nitems - olen] == before
        invariant forall k :: 0 <= k < i ==> data[|before| + k] == other[k]
      {
        data[nitems - olen + i] := other[i];
        i := i + 1;
      }
      assert forall k :: 0 <= k < olen ==> data[..nitems][|before| + k] == other[k];
      assert data[..nitems] == before + other;
    }

    /** Array_Copy: a new, independent array of the same elements, built by
        concatenating this one onto an empty array. */
    method Copy() returns (b: Array<T>)
      requires Valid()
      ensures fresh(b) && fresh(b.data)
      ensures b.Valid() && b.Elements() == Elements()
      ensures b.nslots == GrowCapacity(nitems, 0)
    {
      b := new Array<T>.New([]);
      b.Concat(Elements());
    }

    /** Array_Eq: false when the lengths differ, otherwise true exactly when
        every pair of corresponding elements is equal. */
    method Eq(other: seq<T>) returns (eq: bool)
      requires Valid()
      ensures eq <==> Elements() == other
    {
      if nitems != |other| {
        return false;
      }
      var i := 0;
      while i < nitems
        invariant 0 <= i <= nitems
        invariant data[..i] == other[..i]
      {
        if data[i] != other[i] {
          return false;
        }
        i := i + 1;
      }
      return true;
    }

    /** Array_Len: the number of live elements. */
    function Len(): (n: nat)
      reads this, data
      requires Valid()
      ensures n == |Elements()|
    {
      nitems
    }

    /** Array_Mem: true exactly when some element equals `x`. */
    method Mem(x: T) returns (found: bool)
      requires Valid()
      ensures found <==> x in Elements()
    {
      var i := 0;
      while i < nitems
        invariant 0 <= i <= nitems
        invariant x !in data[..i]
      {
        if data[i] == x {
          assert data[..nitems][i] == x;
          return true;
        }
        i := i + 1;
      }
      return false;
    }

    /** Array_Pop_At: an index outside [0, nitems) throws IndexOutOfBounds and
        changes nothing; otherwise the element at `i` is removed, the ones
        after it move one slot left, and the capacity may shrink. */
    method PopAt(i: int) returns (r: Outcome)
      requires Valid()
      modifies this, data
      ensures Valid()
      ensures r == Pass <==> 0 <= i < old(nitems)
      ensures r != Pass ==> r == Fail(IndexOutOfBounds) && Elements() == old(Elements())
                            && nslots == old(nslots)
      ensures r == Pass ==> Elements() == RemoveAt(old(Elements()), i)
                            && nslots == ShrinkCapacity(old(nitems) - 1, old(nslots))
      ensures data == old(data) || fresh(data)
    {
      if i < 0 || i >= nitems {
        return Fail(IndexOutOfBounds);
      }
      ghost var before := Elements();
      forall k | i <= k < nitems - 1 {
        data[k] := data[k + 1];
      }
      nitems := nitems - 1;
      assert data[..nitems] == RemoveAt(before, i);
      ReserveLess();
      r := Pass;
    }

    /** Array_Rem: removes the first element equal to `x`, or throws
        ValueError and changes nothing when there is none. */
    method Rem(x: T) returns (r: Outcome)
      requires Valid()
      modifies this, data
      ensures Valid()
      ensures r == Pass <==> x in old(Elements())
      ensures r != Pass ==> r == Fail(ValueError) && Elements() == old(Elements())
                            && nslots == old(nslots)
      ensures r == Pass ==> Elements() == RemoveFirst(old(Elements()), x)
                            && nslots == ShrinkCapacity(old(nitems) - 1, old(nslots))
      ensures data == old(data) || fresh(data)
    {
      var i := 0;
      while i < nitems
        invariant 0 <= i <= nitems
        invariant x !in data[..i]
      {
        if data[i] == x {
          ghost var s := Elements();
          assert s[i] == x;
          assert forall j :: 0 <= j < i ==> s[j] == data[..i][j];
          assert FirstIndex(s, x) == i;
          r := PopAt(i);
          return;
        }
        i := i + 1;
      }
      return Fail(ValueError);
    }

    /** Array_Push: `x` becomes the new last element, growing the buffer if
        needed; earlier elements are untouched. */
    method Push(x: T)
      requires Valid()
      modifies this, data
      ensures Valid()
      ensures Elements() == old(Elements()) + [x]
      ensures nslots == GrowCapacity(old(nitems) + 1, old(nslots))
      ensures data == old(data) || fresh(data)
    {
      ghost var before := Elements();
      nitems := nitems + 1;
      ReserveMore();
      data[nitems - 1] := x;
      assert data[..nitems] == data[..nitems - 1] + [x];
    }

    /** Array_Push_At: `x` lands at position `i`, the elements from `i` on
        move one slot right. The source performs no bounds check, so callers
        must keep `i` within [0, nitems]; `i == nitems` appends. */
    method PushAt(x: T, i: int)
      requires Valid()
      requires 0 <= i <= nitems
      modifies this, data
      ensures Valid()
      ensures Elements() == InsertAt(old(Elements()), i, x)
      ensures nslots == GrowCapacity(old(nitems) + 1, old(nslots))
      ensures data == old(data) || fresh(data)
    {
      ghost var before := Elements();
      nitems := nitems + 1;
      ReserveMore();
      assert forall k :: 0 <= k < |before| ==> data[k] == before[k];
      forall k | i < k < nitems {
        data[k] := data[k - 1];
      }
      assert forall k :: i < k < nitems ==> data[k] == before[k - 1];
      data[i] := x;
      ghost var after := InsertAt(before, i, x);
      assert forall k :: 0 <= k < nitems ==> data[k] == after[k] by {
        forall k | 0 <= k < nitems ensures data[k] == after[k] {
          if k > i {
            assert after[(k - 1) + 1] == before[k - 1];
          }
        }
      }
      assert data[..nitems] == after;
    }

    /** Array_Pop: on an empty array throws IndexOutOfBounds and changes
        nothing; otherwise drops the last element and the capacity may
        shrink. */
    method Pop() returns (r: Outcome)
      requires Valid()
      modifies this, data
      ensures Valid()
      ensures r == Pass <==> old(nitems) > 0
      ensures r != Pass ==> r == Fail(IndexOutOfBounds) && Elements() == old(Elements())
                            && nslots == old(nslots)
      ensures r == Pass ==> Elements() == old(Elements())[..old(nitems) - 1]
                            && nslots == ShrinkCapacity(old(nitems) - 1, old(nslots))
      ensures data == old(data) || fresh(data)
    {
      if nitems == 0 {
        return Fail(IndexOutOfBounds);
      }
      nitems := nitems - 1;
      ReserveLess();
      r := Pass;
    }

    /** Array_Get: the element at `i`, or IndexOutOfBounds when `i` is outside
        [0, nitems). */
    function Get(i: int): (r: Result<T>)
      reads this, data
      requires Valid()
      ensures r.Ok? <==> 0 <= i < |Elements()|
      ensures r.Ok? ==> r.value == Elements()[i]
      ensures r.Err? ==> r.error == IndexOutOfBounds
    {
      if i < 0 || i >= nitems then Err(IndexOutOfBounds) else Ok(data[i])
    }

    /** Array_Set: overwrites position `i` only, or throws IndexOutOfBounds
        and changes nothing; length and capacity are unchanged. */
    method Set(i: int, x: T) returns (r: Outcome)
      requires Valid()
      modifies data
      ensures Valid()
      ensures r == Pass <==> 0 <= i < nitems
      ensures r == Pass ==> Elements() == old(Elements())[i := x]
      ensures r != Pass ==> r == Fail(IndexOutOfBounds) && Elements() == old(Elements())
    {
      if i < 0 || i >= nitems {
        return Fail(IndexOutOfBounds);
      }
      data[i] := x;
      r := Pass;
    }

    /** Array_Iter_Init: the first slot, or the end for an empty array. */
    function IterInit(): (c: Cursor)
      reads this
      requires Valid()
      ensures c == Terminal <==> nitems == 0
      ensures c.At? ==> c.index == 0
    {
      if nitems == 0 then Terminal else At(0)
    }

    /** Array_Iter_Next: the end after the last live slot, otherwise the next
        slot. */
    function IterNext(c: Cursor): (n: Cursor)
      reads this
      requires Valid() && c.At? && c.index < nitems
      ensures n == Terminal <==> c.index == nitems - 1
      ensures n.At? ==> n.index == c.index + 1 < nitems
    {
      if c.index >= nitems - 1 then Terminal else At(c.index + 1)
    }

    /** The elements an iteration visits from cursor `c` to the end. */
    ghost function Visit(c: Cursor): seq<T>
      reads this, data
      requires Valid() && (c.At? ==> c.index < nitems)
      decreases if c.At? then nitems - c.index else 0
    {
      if c == Terminal then [] else [data[c.index]] + Visit(IterNext(c))
    }

    /** Iterating from slot `i` visits the live elements from `i` on, in order. */
    lemma {:induction false} VisitFrom(i: nat)
      requires Valid() && i < nitems
      ensures Visit(At(i)) == Elements()[i..]
      decreases nitems - i
    {
      if i < nitems - 1 {
        VisitFrom(i + 1);
      }
    }

    /** A whole iteration visits exactly the live elements, in order. */
    lemma IterationVisitsElements()
      requires Valid()
      ensures Visit(IterInit()) == Elements()
    {
      if nitems > 0 {
        VisitFrom(0);
      }
    }

    /** Array_Swap: exchanges the slots `i` and `j` (nothing to do when they
        are the same). */
    method Swap(i: int, j: int)
      requires Valid() && 0 <= i < nitems && 0 <= j < nitems
      modifies data
      ensures Valid()
      ensures data[i] == old(data[j]) && data[j] == old(data[i])
      ensures forall k :: 0 <= k < data.Length && k != i && k != j ==> data[k] == old(data[k])
      ensures multiset(data[..]) == old(multiset(data[..]))
    {
      if i == j {
        return;
      }
      var tmp := data[i];
      data[i] := data[j];
      data[j] := tmp;
    }

    /** Array_Reverse: element `k` moves to position `nitems - 1 - k`. */
    method Reverse()
      requires Valid()
      modifies data
      ensures Valid()
      ensures Elements() == Reversed(old(Elements()))
    {
      ghost var before := Elements();
      var l := Len();
      for i := 0 to l / 2
        invariant forall k :: 0 <= k < i ==> data[k] == before[l - 1 - k] && data[l - 1 - k] == before[k]
        invariant forall k :: i <= k < l - i ==> data[k] == before[k]
      {
        Swap(i, l - 1 - i);
      }
      forall k | 0 <= k < l
        ensures Elements()[k] == Reversed(before)[k]
      {
        ReversedAt(before, k);
      }
    }

    /** Array_Sort_Partition on the slots [l, r]: the middle element is the
        pivot; afterwards the pivot sits at the returned position `s`, every
        element of [l, s) is less than it, none of (s, r] is, the slots are a
        permutation of the old ones and nothing outside [l, r] moved. */
    method SortPartition(l: int, r: int, lt: (T, T) -> bool) returns (s: int)
      requires Valid() && 0 <= l < r < nitems
      modifies data
      ensures Valid()
      ensures l <= s <= r
      ensures data[s] == old(data[l + (r - l) / 2])
      ensures AllBelow(data[l..s], data[s], lt)
      ensures NoneBelow(data[s + 1..r + 1], data[s], lt)
      ensures forall k :: 0 <= k < l || r < k < data.Length ==> data[k] == old(data[k])
      ensures multiset(data[..]) == old(multiset(data[..]))
    {
      var p := l + (r - l) / 2;
      var pivot := data[p];
      Swap(p, r);
      s := l;
      for i := l to r
        invariant l <= s <= i && Valid()
        invariant data[r] == pivot
        invariant forall k :: l <= k < s ==> lt(data[k], pivot)
        invariant forall k :: s <= k < i ==> !lt(data[k], pivot)
        invariant forall k :: 0 <= k < l || r < k < data.Length ==> data[k] == old(data[k])
        invariant multiset(data[..]) == old(multiset(data[..]))
      {
        if lt(data[i], pivot) {
          Swap(i, s);
          s := s + 1;
        }
      }
      Swap(s, r);
    }

    /** Array_Sort_Part on the slots [l, r]: they end sorted and a permutation
        of what they held; nothing outside [l, r] moves. */
    method SortPart(l: int, r: int, lt: (T, T) -> bool)
      requires Valid() && StrictOrder(lt) && 0 <= l <= r + 1 <= nitems
      modifies data
      ensures Valid()
      ensures Sorted(data[l..r + 1], lt)
      ensures forall k :: 0 <= k < l || r < k < data.Length ==> data[k] == old(data[k])
      ensures multiset(data[..]) == old(multiset(data[..]))
      decreases r - l + 1
    {
      if l < r {
        var s := SortPartition(l, r, lt);
        ghost var parted := data[..];
        SortPart(l, s - 1, lt);
        ghost var leftDone := data[..];
        SortPart(s + 1, r, lt);
        PartitionSortStep(parted, leftDone, data[..], l, s, r, lt);
      }
    }

    /** Array_Sort: the live elements end non-decreasing under `lt` and are a
        permutation of the old ones. */
    method Sort(lt: (T, T) -> bool)
      requires Valid() && StrictOrder(lt)
      modifies data
      ensures Valid()
      ensures Sorted(Elements(), lt)
      ensures multiset(Elements()) == old(multiset(Elements()))
    {
      SortPart(0, Len() - 1, lt);
      RangeMultiset(old(data[..]), data[..], 0, nitems);
    }
  }
}
