# Cello `Array`: a verified model

This project models the `Array` type of the Cello C library (`src/Array.c`): a
growable, contiguous sequence container in the style of `std::vector`. An
array holds a slot buffer, a count of live elements `nitems` and a count of
allocated slots `nslots`. The live elements occupy the first `nitems` slots;
the rest is reserve space.

The model is the class `CelloArray.Array<T>` (`array.dfy`). It keeps three
of the five fields of `struct Array`: `data` (an `array<T>` of exactly
`nslots` slots), `nitems` and `nslots`; `type` and `tsize` are replaced by the
type parameter `T`. Every operation of the C file not listed under
"## Left out" is a method or function of the class. Each one's contract relates the new live elements,
`Elements() == data[..nitems]`, and the new counters to the old ones. The
abstract meaning of the positional operations is defined once, on sequences,
in `sequences.dfy` (`InsertAt`, `RemoveAt`, `FirstIndex`, `RemoveFirst`,
`Reversed`). The capacity policy is in `capacity.dfy`. The element order used
by the sort, and what "sorted" means, are in `ordering.dfy`. The exceptions
are in `errors.dfy`: `IndexOutOfBounds` and `ValueError`, returned as
`Outcome`/`Result` values.

The object invariant `Valid()` states `data.Length == nslots` and
`nitems <= nslots <= nitems + nitems / 2`. The upper bound is not written
down in the source. It follows from the two capacity rules:
- growth sets `nslots` to exactly `nitems + nitems / 2`;
- shrinking fires whenever `nslots` is above that bound;
- construction and assignment leave no slack at all.

Every mutating method of the class except the `Realloc` helper (which
`ReserveMore` and `ReserveLess` call mid-update) is proved to keep this
invariant.

How the source's mechanisms are represented:
- Elements are a generic `T` with equality. Element equality stands in for
  the element type's `eq` capability.
- The sort's `lt(a, b)` is a parameter standing in for the element type's
  less-than capability. It must be a strict order (irreflexive and
  transitive).
- A single `memmove` of a slot range (`Pop_At`, `Push_At`) is a parallel
  `forall` assignment over that range.
- `realloc` is the helper `Realloc`. It returns a fresh buffer that keeps as
  many old slots as fit.
- The iterator is an index cursor (`Cursor`: `At(i)` or `Terminal`).
- The source collections given to `Assign`, `Concat` and `Eq` are sequences.
  The source reads them through `len`, `get` and iteration, and a sequence
  gives that view as long as the collection is not the array itself (see
  "## Left out" for self-assignment and self-concatenation).

`usage.dfy` holds client scenarios checked against the contracts alone.
Three of them follow the examples in the source's documentation strings
(`src/Array.c:30-86`), using integers and characters only:
- `PushInOrder` starts with the construction example: push two elements onto
  an empty array;
- `ElementAccess`: construct `[32, 6]`, read it back and overwrite one
  element;
- `CollectionQueries`: query, discard and clear `['a', 'b', 'c', 'd']`.

The documentation's iteration example is not replayed; iteration is covered
by `IterationVisitsElements`. The remaining scenarios, and parts of these, exercise what the
documentation does not show:
- `PushInOrder` goes on to insert into the middle and remove again;
- `ElementAccess` and `CollectionQueries` add the error cases (reading past
  the end, discarding an absent element, popping an empty array);
- `SortFive` sorts `[5, 3, 1, 4, 2]` into `[1, 2, 3, 4, 5]`;
- `ReverseTwice` reverses twice;
- `CopyIsIndependent` copies an array, then pushes onto the copy without
  changing the original.

## Model

| member | source | states |
|---|---|---|
| Capacity.GrowCapacity | src/Array.c:200-210 | Growth never yields fewer slots than elements or than before. It changes nothing unless `nitems > nslots`, and then gives exactly `nitems + nitems/2`. It keeps the bound `nslots <= nitems + nitems/2`. |
| Capacity.ShrinkCapacity | src/Array.c:266-271 | Shrinking keeps `nitems <= r <= nslots` and always ends within `nitems + nitems/2`. It changes `nslots` only when it was above that bound, and then sets it to exactly `nitems`. |
| Sequences.InsertAt | src/Array.c:315-327 | Insert-at-i has length plus one and `v` at `i`. Elements before `i` stay put and the rest shift right by one. The multiset gains exactly `v`. |
| Sequences.RemoveAt | src/Array.c:273-294 | Remove-at-i has length minus one. Elements before `i` stay put and the rest shift left by one. The multiset loses exactly `s[i]`. |
| Sequences.InsertThenRemove | src/Array.c:273-327 | Push_At(i, v) followed by Pop_At(i) restores the original sequence. |
| Sequences.RemoveThenInsert | src/Array.c:273-327 | Pop_At(i) followed by Push_At of the removed element at i restores the original sequence. |
| Sequences.FirstIndex | src/Array.c:296-305 | The scan in Rem finds a position holding `x`, and no earlier position holds `x`. |
| Sequences.RemoveFirstSpec | src/Array.c:296-305 | Removing the first `x` removes exactly one copy of `x` and shortens by one. `x` is still present afterwards iff it occurred more than once. |
| Sequences.ReversedAt | src/Array.c:401-408 | Reversal puts element `l-1-k` at position `k`. |
| Sequences.ReverseInvolutive | src/Array.c:401-408 | Reversing twice is the identity. |
| Ordering.SortedJoin | src/Array.c:431-437 | A sorted run of elements below the pivot, then the pivot, then a sorted run of elements not below it, is sorted. |
| Ordering.PartitionSortStep | src/Array.c:431-437 | One quicksort step is correct. Partitioning [l, r] around the pivot and then sorting [l, s) and (s, r] by permutations that touch nothing else leaves [l, r] sorted. |
| Ordering.SortedPermutationUnique | src/Array.c:439-441 | For integers, two sorted permutations of each other are equal, so Sort's result is determined by its input. |
| Ordering.SortFiveExample | src/Array.c:439-441 | Any sorted permutation of `[5, 3, 1, 4, 2]` is `[1, 2, 3, 4, 5]`. |
| CelloArray.Array.New | src/Array.c:116-141 | Construction stores the initial elements in order. Length and capacity both equal their count, with no slack. |
| CelloArray.Array.Clear | src/Array.c:159-170 | Clearing leaves no elements and resets both counters to 0. |
| CelloArray.Array.Assign | src/Array.c:172-198 | Assignment replaces the contents with the source elements in order. Length and capacity both become the source length. |
| CelloArray.Array.ReserveMore | src/Array.c:200-210 | After `nitems` was raised, `nslots` becomes `GrowCapacity(nitems, old nslots)`. Every old slot is kept and the invariant (with the slack bound) is restored. |
| CelloArray.Array.ReserveLess | src/Array.c:266-271 | After a removal, `nslots` becomes `ShrinkCapacity(nitems, old nslots)`. The live elements are kept and the invariant holds. |
| CelloArray.Array.Concat | src/Array.c:212-228 | The new elements are the old ones followed by all of `other` in order. Capacity is grown by one check for the whole batch. |
| CelloArray.Array.Copy | src/Array.c:230-235 | Copy returns a fresh array with its own fresh buffer and the same elements. Its capacity is that of concatenating onto an empty array. |
| CelloArray.Array.Eq | src/Array.c:237-249 | The result is true iff the lengths agree and every corresponding pair is equal, i.e. iff the element sequences are equal. |
| CelloArray.Array.Len | src/Array.c:251-254 | The length is the number of live elements. |
| CelloArray.Array.Mem | src/Array.c:256-264 | The result is true iff some live element equals `x`. |
| CelloArray.Array.PopAt | src/Array.c:273-294 | An index outside [0, nitems) gives IndexOutOfBounds and changes nothing. Otherwise the elements become `RemoveAt(old, i)` and the capacity follows the shrink rule. |
| CelloArray.Array.Rem | src/Array.c:296-305 | If `x` is present, its first occurrence is removed and the capacity follows the shrink rule of Pop_At. Otherwise the result is ValueError and neither the elements nor the capacity change. |
| CelloArray.Array.Push | src/Array.c:307-313 | `x` becomes the new last element and earlier elements are unchanged. The capacity follows the grow rule for length plus one. |
| CelloArray.Array.PushAt | src/Array.c:315-327 | For `0 <= i <= nitems` the elements become `InsertAt(old, i, x)`. The capacity follows the grow rule. |
| CelloArray.Array.Pop | src/Array.c:329-344 | On an empty array the result is IndexOutOfBounds and nothing changes. Otherwise the last element is dropped, the prefix is kept and the capacity follows the shrink rule. |
| CelloArray.Array.Get | src/Array.c:346-359 | Get returns the element at `i` iff `0 <= i < nitems`. Otherwise it returns IndexOutOfBounds. |
| CelloArray.Array.Set | src/Array.c:361-375 | In range, only position `i` changes and length and capacity stay the same. Out of range, the result is IndexOutOfBounds and nothing changes. |
| CelloArray.Array.IterInit | src/Array.c:377-381 | The first cursor is `Terminal` iff the array is empty, and slot 0 otherwise. |
| CelloArray.Array.IterNext | src/Array.c:383-390 | From the last live slot the next cursor is `Terminal`. Otherwise it is the following slot, which is still live. |
| CelloArray.Array.VisitFrom | src/Array.c:383-390 | Iterating from slot `i` yields the live elements from `i` on, in order. |
| CelloArray.Array.IterationVisitsElements | src/Array.c:377-390 | A full iteration from IterInit yields exactly the live elements, in order. |
| CelloArray.Array.Swap | src/Array.c:392-399 | Slots `i` and `j` are exchanged and no other slot changes. The buffer's multiset is preserved. |
| CelloArray.Array.Reverse | src/Array.c:401-408 | The elements become `Reversed(old elements)`. |
| CelloArray.Array.SortPartition | src/Array.c:410-429 | The middle element of [l, r] ends at the returned `s`. Everything in [l, s) is less than it, nothing in (s, r] is, [l, r] is permuted and nothing outside it moves. |
| CelloArray.Array.SortPart | src/Array.c:431-437 | Slots [l, r] end sorted and permuted, and nothing outside them moves. |
| CelloArray.Array.Sort | src/Array.c:439-441 | The live elements end non-decreasing under `lt` and are a permutation of the old ones. |

## Left out

- Slot headers (`struct CelloHeader`), `Array_Step`, `Array_Item` and `Array_Alloc`: slot byte layout and address arithmetic. A slot is one element of the Dafny buffer.
- Element lifecycle (`assign`, `destruct`): an element is a value copied by assignment, and destruction has no observable effect on the model. So `Array_Del` (destroy every element, free the buffer) and the destruct loop of `Array_Clear` are not modelled, and `Set` is a plain overwrite.
- `Array_Size`, `Array_Show` and the `Doc` strings: a `sizeof`, output formatting and documentation text, not logic.
- OutOfMemoryError: `malloc` and `realloc` are assumed to succeed, so the three allocation-failure paths are not modelled.
- The `CELLO_BOUNDS_CHECK` build flag: only the checked behaviour is modelled.
- Key coercion (`type_of(key) is Int ? … : c_int(key)`): indices are plain integers.
- The `type` and `tsize` fields: the element type is the generic parameter `T`.
- Integer widths: `size_t` and `int64_t` are unbounded integers, so overflow of `nitems + nitems/2` or of the slot byte size is not modelled.
- CelloArray.Array.PushAt: the source does no bounds check, and an index outside [0, nitems] makes `memmove` run out of the buffer (undefined behaviour). The model requires `0 <= i <= nitems` instead of modelling that behaviour.
- CelloArray.Array.IterNext: the source compares slot addresses and accepts any slot address. The model requires a cursor on a live slot, which is what iteration produces.
- CelloArray.Array.Assign: `src` is a sequence value, so assigning an array to itself is not modelled. In the source that case empties the array, because `Array_Clear` runs before `len(obj)` is read (src/Array.c:175-182); the model would keep the elements.
- CelloArray.Array.Concat: `other` is a sequence value, so concatenating an array onto itself (the source then iterates over its own, already lengthened, storage) is not modelled.
- CelloArray.Array.Sort: the less-than is a parameter required to be a strict order. A type without less-than is a dispatch failure outside this model. Recursion depth and stack use are not modelled.
- CelloArray.Array.Get: the source returns a pointer into the slot buffer (src/Array.c:358), not a copy. Writing through that pointer, and its invalidation when the buffer is reallocated by growth or shrinking (src/Array.c:204, 269) or its slots are shifted by `memmove` (src/Array.c:288-290, 321-323), are not modelled: `Get` returns a value. So passing an element of the same array to `Push`, `PushAt` or `Set` is not modelled either; in the source `Push` may then read freed storage (src/Array.c:309-312) and `PushAt` copies the already-zeroed slot (src/Array.c:321-326).
- Iterator invalidation: a cursor is an index, so it stays meaningful across reallocation. The source's address-based cursor does not.
