/** The abstract meaning of the Array container's positional operations, stated
    on the sequence of live elements. */
module Sequences {

  /** The sequence after inserting `v` so that it lands at position `i`
      (Array_Push_At). Everything from `i` on moves one place to the right. */
  function InsertAt<T>(s: seq<T>, i: nat, v: T): (r: seq<T>)
    requires i <= |s|
    ensures |r| == |s| + 1
    ensures r[i] == v
    ensures forall k :: 0 <= k < i ==> r[k] == s[k]
    ensures forall k :: i <= k < |s| ==> r[k + 1] == s[k]
    ensures multiset(r) == multiset(s) + multiset{v}
  {
    assert s == s[..i] + s[i..];
    s[..i] + [v] + s[i..]
  }

  /** The sequence after deleting position `i` (Array_Pop_At). Everything after
      `i` moves one place to the left. */
  function RemoveAt<T>(s: seq<T>, i: nat): (r: seq<T>)
    requires i < |s|
    ensures |r| == |s| - 1
    ensures forall k :: 0 <= k < i ==> r[k] == s[k]
    ensures forall k :: i <= k < |r| ==> r[k] == s[k + 1]
    ensures multiset(r) == multiset(s) - multiset{s[i]}
  {
    assert s == s[..i] + [s[i]] + s[i + 1..];
    s[..i] + s[i + 1..]
  }

  /** Inserting at `i` and then removing at `i` gives back the original sequence. */
  lemma InsertThenRemove<T>(s: seq<T>, i: nat, v: T)
    requires i <= |s|
    ensures RemoveAt(InsertAt(s, i, v), i) == s
  {
  }

  /** Removing at `i` and putting the removed element back at `i` gives back
      the original sequence. */
  lemma RemoveThenInsert<T>(s: seq<T>, i: nat)
    requires i < |s|
    ensures InsertAt(RemoveAt(s, i), i, s[i]) == s
  {
  }

  /** Position of the first element equal to `x` (the scan in Array_Rem). */
  function FirstIndex<T(==)>(s: seq<T>, x: T): (k: nat)
    requires x in s
    ensures k < |s| && s[k] == x
    ensures forall j :: 0 <= j < k ==> s[j] != x
  {
    if s[0] == x then 0 else 1 + FirstIndex(s[1..], x)
  }

  /** The sequence with its first occurrence of `x` deleted (Array_Rem). */
  function RemoveFirst<T(==)>(s: seq<T>, x: T): seq<T>
    requires x in s
  {
    RemoveAt(s, FirstIndex(s, x))
  }

  /** Removing the first `x` takes away exactly one copy of `x`, keeps every
      element before that copy where it was and shifts the rest left. */
  lemma RemoveFirstSpec<T>(s: seq<T>, x: T)
    requires x in s
    ensures multiset(RemoveFirst(s, x)) == multiset(s) - multiset{x}
    ensures |RemoveFirst(s, x)| == |s| - 1
    ensures x in RemoveFirst(s, x) <==> multiset(s)[x] > 1
  {
    var r := RemoveFirst(s, x);
    assert multiset(r)[x] == multiset(s)[x] - 1;
  }

  /** The sequence in the opposite order: the last element first. */
  function Reversed<T>(s: seq<T>): (r: seq<T>)
    ensures |r| == |s|
  {
    if s == [] then [] else [s[|s| - 1]] + Reversed(s[..|s| - 1])
  }

  /** Element `k` of the reversed sequence is element `|s| - 1 - k` of the
      original: Array_Reverse moves element i to position l-1-i. */
  lemma {:induction false} ReversedAt<T>(s: seq<T>, k: nat)
    requires k < |s|
    ensures Reversed(s)[k] == s[|s| - 1 - k]
  {
    if k > 0 {
      ReversedAt(s[..|s| - 1], k - 1);
    }
  }

  /** Reversing twice is the identity. */
  lemma ReverseInvolutive<T>(s: seq<T>)
    ensures Reversed(Reversed(s)) == s
  {
    var r := Reversed(s);
    forall k | 0 <= k < |s|
      ensures Reversed(r)[k] == s[k]
    {
      ReversedAt(r, k);
      ReversedAt(s, |s| - 1 - k);
    }
  }

  /** Equal sums with equal outer parts have equal middle parts. */
  lemma MultisetCancel<T>(x: multiset<T>, y: multiset<T>, w: multiset<T>, z: multiset<T>)
    requires x + y + z == x + w + z
    ensures y == w
  {
    forall e ensures y[e] == w[e] {
      assert (x + y + z)[e] == (x + w + z)[e];
    }
  }

  /** Two sequences that agree outside [lo, hi) and hold the same elements
      hold the same elements inside [lo, hi). */
  lemma RangeMultiset<T>(a: seq<T>, b: seq<T>, lo: int, hi: int)
    requires 0 <= lo <= hi <= |a| == |b|
    requires multiset(a) == multiset(b)
    requires forall k :: 0 <= k < lo || hi <= k < |a| ==> a[k] == b[k]
    ensures multiset(a[lo..hi]) == multiset(b[lo..hi])
  {
    var a1, a2, a3 := a[..lo], a[lo..hi], a[hi..];
    var b2 := b[lo..hi];
    assert a == a1 + a2 + a3;
    assert b == a1 + b2 + a3;
    MultisetCancel(multiset(a1), multiset(a2), multiset(b2), multiset(a3));
  }
}
