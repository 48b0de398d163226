/**
 * The growable arrays of malcrepl.c (`Type_Array`, `Value_Array`) and the
 * `da_append` macro that grows them (malcrepl.c:123-136).
 *
 * The live elements items[0..count) are the sequence `items`; the slots
 * between count and capacity hold nothing the program reads again.
 */
module DynamicArray {

  /** The capacity `da_append` moves to when the array is full: 8 at first, then twice the old one. */
  function Grown(capacity: nat): (r: nat)
    ensures r > capacity
    ensures IsCapacity(capacity) ==> IsCapacity(r) && r >= 8
  {
    assert capacity > 0 ==> (capacity * 2) / 2 == capacity;
    if capacity == 0 then 8 else capacity * 2
  }

  /** The capacities da_append produces: 0, or 8 doubled some number of times. */
  predicate IsCapacity(c: nat)
    decreases c
  {
    c == 0 || c == 8 || (c > 8 && c % 2 == 0 && IsCapacity(c / 2))
  }

  /** The capacity after n appends to an array created as `{0}`. */
  function CapacityAfter(n: nat): nat {
    if n == 0 then 0
    else if n - 1 >= CapacityAfter(n - 1) then Grown(CapacityAfter(n - 1))
    else CapacityAfter(n - 1)
  }

  /**
   * After n appends from empty the array holds them all, in at most twice
   * the room they need (never less than 8 once anything was appended), and
   * the capacity is one that doubling from 8 reaches.
   */
  lemma {:induction false} CapacityAfterBounds(n: nat)
    ensures n <= CapacityAfter(n) && IsCapacity(CapacityAfter(n))
    ensures n > 0 ==> CapacityAfter(n) == 8 || CapacityAfter(n) < 2 * n
  {
    if n > 0 {
      CapacityAfterBounds(n - 1);
    }
  }

  class DynArray<T> {
    var items: seq<T>
    var capacity: nat

    ghost predicate Valid()
      reads this
    {
      |items| <= capacity && IsCapacity(capacity)
    }

    /** `= {0}`: no items, no storage. */
    constructor ()
      ensures Valid() && items == [] && capacity == 0
    {
      items, capacity := [], 0;
    }

    /**
     * da_append (malcrepl.c:123-136): when count has reached capacity, grow
     * to Grown(capacity); then store the item at index count.
     */
    method Append(item: T)
      requires Valid()
      modifies this
      ensures Valid() && items == old(items) + [item]
      ensures capacity == if |old(items)| >= old(capacity) then Grown(old(capacity)) else old(capacity)
    {
      if |items| >= capacity {
        capacity := Grown(capacity);
      }
      items := items + [item];
    }

    /** `count = 0` (malcrepl.c:1233-1234): forget the items, keep the storage. */
    method Clear()
      requires Valid()
      modifies this
      ensures Valid() && items == [] && capacity == old(capacity)
    {
      items := [];
    }
  }
}
