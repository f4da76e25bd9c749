/** The ordering Array_Sort relies on (the element type's less-than) and what
    "sorted" means for it. */
module Ordering {
  import opened Sequences

  /** `lt` is a strict order: irreflexive and transitive. */
  ghost predicate StrictOrder<T(!new)>(lt: (T, T) -> bool) {
    (forall x :: !lt(x, x)) &&
    (forall x, y, z :: lt(x, y) && lt(y, z) ==> lt(x, z))
  }

  /** No later element is less than an earlier one (non-decreasing). */
  ghost predicate Sorted<T>(s: seq<T>, lt: (T, T) -> bool) {
    forall i, j :: 0 <= i < j < |s| ==> !lt(s[j], s[i])
  }

  /** Every element of `s` is less than `p`. */
  ghost predicate AllBelow<T>(s: seq<T>, p: T, lt: (T, T) -> bool) {
    forall k :: 0 <= k < |s| ==> lt(s[k], p)
  }

  /** No element of `s` is less than `p`. */
  ghost predicate NoneBelow<T>(s: seq<T>, p: T, lt: (T, T) -> bool) {
    forall k :: 0 <= k < |s| ==> !lt(s[k], p)
  }

  /** Rearranging a sequence keeps all of it below `p`. */
  lemma AllBelowPermutation<T>(a: seq<T>, b: seq<T>, p: T, lt: (T, T) -> bool)
    requires multiset(a) == multiset(b) && AllBelow(a, p, lt)
    ensures AllBelow(b, p, lt)
  {
    forall k | 0 <= k < |b| ensures lt(b[k], p) {
      assert b[k] in multiset(a);
      var j :| 0 <= j < |a| && a[j] == b[k];
    }
  }

  /** Rearranging a sequence keeps all of it not below `p`. */
  lemma NoneBelowPermutation<T>(a: seq<T>, b: seq<T>, p: T, lt: (T, T) -> bool)
    requires multiset(a) == multiset(b) && NoneBelow(a, p, lt)
    ensures NoneBelow(b, p, lt)
  {
    forall k | 0 <= k < |b| ensures !lt(b[k], p) {
      assert b[k] in multiset(a);
      var j :| 0 <= j < |a| && a[j] == b[k];
    }
  }

  /** A sorted run of elements below the pivot, the pivot, and a sorted run of
      elements not below it form a sorted sequence: the step that makes the
      recursive partition sort correct. */
  lemma SortedJoin<T(!new)>(left: seq<T>, p: T, right: seq<T>, lt: (T, T) -> bool)
    requires StrictOrder(lt)
    requires Sorted(left, lt) && Sorted(right, lt)
    requires AllBelow(left, p, lt) && NoneBelow(right, p, lt)
    ensures Sorted(left + [p] + right, lt)
  {
  }

  /** One step of the partition sort, on snapshots of the buffer: `parted` is
      partitioned around `p` at `s` over [l, r]; `leftDone` sorts [l, s) of it
      by a permutation touching nothing else; `done` sorts (s, r] of
      `leftDone` the same way. Then [l, r] of `done` is sorted. */
  lemma PartitionSortStep<T(!new)>(parted: seq<T>, leftDone: seq<T>, done: seq<T>,
                                   l: int, s: int, r: int, lt: (T, T) -> bool)
    requires StrictOrder(lt)
    requires 0 <= l <= s <= r < |parted| == |leftDone| == |done|
    requires AllBelow(parted[l..s], parted[s], lt)
    requires NoneBelow(parted[s + 1..r + 1], parted[s], lt)
    requires multiset(leftDone) == multiset(parted)
    requires forall k :: 0 <= k < l || s <= k < |parted| ==> leftDone[k] == parted[k]
    requires Sorted(leftDone[l..s], lt)
    requires multiset(done) == multiset(leftDone)
    requires forall k :: 0 <= k < s + 1 || r < k < |parted| ==> done[k] == leftDone[k]
    requires Sorted(done[s + 1..r + 1], lt)
    ensures Sorted(done[l..r + 1], lt)
  {
    var p := parted[s];
    RangeMultiset(parted, leftDone, l, s);
    RangeMultiset(leftDone, done, s + 1, r + 1);
    assert done[l..s] == leftDone[l..s];
    assert leftDone[s + 1..r + 1] == parted[s + 1..r + 1];
    AllBelowPermutation(parted[l..s], done[l..s], p, lt);
    NoneBelowPermutation(parted[s + 1..r + 1], done[s + 1..r + 1], p, lt);
    SortedJoin(done[l..s], p, done[s + 1..r + 1], lt);
    assert done[l..r + 1] == done[l..s] + [p] + done[s + 1..r + 1];
  }

  /** Integers under `<`. */
  function IntLess(x: int, y: int): bool {
    x < y
  }

  /** The first element of a non-empty sorted integer sequence is its least. */
  lemma SortedHeadLeast(s: seq<int>, x: int)
    requires Sorted(s, IntLess) && x in s
    ensures s[0] <= x
  {
    var k :| 0 <= k < |s| && s[k] == x;
    if k > 0 {
      assert !IntLess(s[k], s[0]);
    }
  }

  /** Dropping the first element keeps a sequence sorted. */
  lemma SortedTail<T>(s: seq<T>, lt: (T, T) -> bool)
    requires Sorted(s, lt) && s != []
    ensures Sorted(s[1..], lt)
  {
    forall i, j | 0 <= i < j < |s| - 1
      ensures !lt(s[1..][j], s[1..][i])
    {
      assert s[1..][j] == s[j + 1] && s[1..][i] == s[i + 1];
    }
  }

  /** Two permutations with the same first element are permutations after it. */
  lemma PermutationTail<T>(a: seq<T>, b: seq<T>)
    requires multiset(a) == multiset(b) && a != [] && b != [] && a[0] == b[0]
    ensures multiset(a[1..]) == multiset(b[1..])
  {
    assert a == [a[0]] + a[1..] && b == [b[0]] + b[1..];
    assert multiset(a) == multiset{a[0]} + multiset(a[1..]);
    assert multiset(b) == multiset{a[0]} + multiset(b[1..]);
    forall x ensures multiset(a[1..])[x] == multiset(b[1..])[x] {
      assert multiset(a)[x] == multiset(b)[x];
    }
  }

  /** Two sorted permutations of one another are equal: for integers, a
      sorted permutation of the input is the unique sorted result. */
  lemma {:induction false} SortedPermutationUnique(a: seq<int>, b: seq<int>)
    requires Sorted(a, IntLess) && Sorted(b, IntLess)
    requires multiset(a) == multiset(b)
    ensures a == b
  {
    assert |a| == |multiset(a)| == |multiset(b)| == |b|;
    if a != [] {
      assert a[0] in multiset(b) && b[0] in multiset(a);
      SortedHeadLeast(a, b[0]);
      SortedHeadLeast(b, a[0]);
      PermutationTail(a, b);
      SortedTail(a, IntLess);
      SortedTail(b, IntLess);
      SortedPermutationUnique(a[1..], b[1..]);
      assert a == [a[0]] + a[1..] && b == [b[0]] + b[1..];
    }
  }

  /** Sorting [5, 3, 1, 4, 2] gives [1, 2, 3, 4, 5]. */
  lemma SortFiveExample(r: seq<int>)
    requires Sorted(r, IntLess)
    requires multiset(r) == multiset([5, 3, 1, 4, 2])
    ensures r == [1, 2, 3, 4, 5]
  {
  }
}
