/**
 * The ARRAY(type, name) macro of bfvm.c: a growable buffer with a size and a
 * capacity that doubles when the buffer is full. The compiler instantiates it
 * for the program words and the jump stack, the code generator for the
 * change record.
 */
module Growable {

  /** Capacities the buffer can reach: 0 before the first insert, then 1, 2, 4, ... */
  ghost predicate PowerOfTwo(n: nat)
    decreases n
  {
    n == 1 || (n > 1 && n % 2 == 0 && PowerOfTwo(n / 2))
  }

  /** The capacity after inserting into a buffer holding `size` elements with room for `capacity`. */
  function NextCapacity(size: nat, capacity: nat): nat
  {
    if size == capacity then (if capacity == 0 then 1 else 2 * capacity) else capacity
  }

  /** The capacity of a buffer that received `n` inserts after its initialisation. */
  function CapacityAfter(n: nat): nat
  {
    if n == 0 then 0 else NextCapacity(n - 1, CapacityAfter(n - 1))
  }

  /** n inserts leave the smallest power of two that holds n elements. */
  lemma {:induction false} CapacityAfterInserts(n: nat)
    requires n >= 1
    ensures PowerOfTwo(CapacityAfter(n))
    ensures n <= CapacityAfter(n) < 2 * n
  {
    if n > 1 {
      CapacityAfterInserts(n - 1);
    }
  }

  class GrowArray<T(0)> {
    var values: array<T>
    var size: int
    var capacity: int

    ghost predicate Valid()
      reads this
    {
      0 <= size <= capacity && capacity == values.Length && (capacity == 0 || PowerOfTwo(capacity))
    }

    /** The elements currently stored, in insertion order. */
    ghost function Contents(): seq<T>
      reads this, values
      requires Valid()
    {
      values[..size]
    }

    /** The array's init function: empty, no storage. */
    constructor Init()
      ensures Valid() && fresh(values)
      ensures size == 0 && capacity == 0 && Contents() == []
    {
      values := new T[0];
      size := 0;
      capacity := 0;
    }

    /** realloc to `newCapacity` elements, keeping the stored ones. */
    method Resize(newCapacity: int)
      requires 0 <= size <= newCapacity && size <= values.Length
      modifies this
      ensures fresh(values) && values.Length == newCapacity
      ensures capacity == newCapacity && size == old(size)
      ensures values[..size] == old(values[..size])
    {
      var grown := new T[newCapacity];
      forall k | 0 <= k < size {
        grown[k] := values[k];
      }
      values := grown;
      capacity := newCapacity;
    }

    method Insert(x: T)
      requires Valid()
      modifies this, values
      ensures Valid()
      ensures Contents() == old(Contents()) + [x]
      ensures size == old(size) + 1
      ensures capacity == NextCapacity(old(size), old(capacity))
      ensures values == old(values) || fresh(values)
    {
      if size == capacity {
        if capacity == 0 {
          capacity := 1;
        } else {
          capacity := capacity * 2;
        }
        Resize(capacity);
      }
      values[size] := x;
      size := size + 1;
    }

    /** A direct write `values[i] = x` into a stored element. */
    method Set(i: int, x: T)
      requires Valid() && 0 <= i < size
      modifies values
      ensures Valid()
      ensures Contents() == old(Contents())[i := x]
    {
      values[i] := x;
    }

    method Free()
      modifies this
      ensures Valid() && fresh(values)
      ensures size == 0 && capacity == 0 && Contents() == []
    {
      values := new T[0];
      capacity := 0;
      size := 0;
    }
  }
}
