/** The capacity policy of the Array container: how many slots are allocated
    for a given number of live elements. */
module Capacity {

  /** Largest number of slots the policy ever keeps for `nitems` elements. */
  function MaxSlots(nitems: nat): nat {
    nitems + nitems / 2
  }

  /** Array_Reserve_More: once the element count exceeds the slot count,
      the slot count becomes one and a half times the element count. */
  function GrowCapacity(nitems: nat, nslots: nat): (r: nat)
    ensures nitems <= r
    ensures nslots <= r
    ensures nitems <= nslots ==> r == nslots
    ensures nitems > nslots ==> r == MaxSlots(nitems)
    ensures nslots <= MaxSlots(nitems) ==> r <= MaxSlots(nitems)
  {
    if nitems > nslots then nitems + nitems / 2 else nslots
  }

  /** Array_Reserve_Less: when more than half as many spare slots as elements
      are held, the slot count drops to exactly the element count. */
  function ShrinkCapacity(nitems: nat, nslots: nat): (r: nat)
    requires nitems <= nslots
    ensures nitems <= r <= nslots
    ensures r <= MaxSlots(nitems)
    ensures nslots <= MaxSlots(nitems) ==> r == nslots
    ensures nslots > MaxSlots(nitems) ==> r == nitems
  {
    if nslots > nitems + nitems / 2 then nitems else nslots
  }
}
