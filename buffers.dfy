// The two fixed-size buffers of a capture session and the shared pool they are
// rented from (`ArrayPool<T>.Shared`).

module Buffers {

  /** Writes `items` into `dst` from index `at` on, leaving every other element alone. */
  method CopyInto<T>(items: seq<T>, dst: array<T>, at: nat)
    requires at + |items| <= dst.Length
    modifies dst
    ensures dst[..at + |items|] == old(dst[..at]) + items
    ensures dst[at + |items|..] == old(dst[at + |items|..])
  {
    var i := 0;
    while i < |items|
      invariant i <= |items|
      invariant forall k :: 0 <= k < i ==> dst[at + k] == items[k]
      invariant forall k :: 0 <= k < dst.Length && !(at <= k < at + i) ==> dst[k] == old(dst[k])
    {
      dst[at + i] := items[i];
      i := i + 1;
    }
    assert dst[..at + |items|] == old(dst[..at]) + items;
  }

  /** A pool that lends arrays of at least a requested length and keeps the arrays
      given back for the next renter. Which array a renter receives, and how much
      longer than requested it is, is the pool's choice. */
  class ArrayPool<T(0)> {
    /** Arrays that were given back and are held for reuse. */
    var shelf: seq<array<T>>
    /** Arrays currently lent out. */
    ghost var lent: set<array<T>>

    /** No array is both on the shelf and lent out, and none is on the shelf twice. */
    ghost predicate Valid()
      reads this
    {
      (forall i :: 0 <= i < |shelf| ==> shelf[i] !in lent)
      && (forall i, j :: 0 <= i < j < |shelf| ==> shelf[i] != shelf[j])
    }

    constructor ()
      ensures Valid() && shelf == [] && lent == {}
    {
      shelf := [];
      lent := {};
    }

    /** `Rent(minimumLength)`: hands out the most recently returned array when it is
        long enough, a new one otherwise; either way the renter now holds it. */
    method Rent(minimumLength: nat) returns (a: array<T>)
      requires Valid()
      modifies this
      ensures Valid()
      ensures a.Length >= minimumLength
      ensures a !in old(lent) && lent == old(lent) + {a}
      ensures old(|shelf| > 0 && shelf[|shelf| - 1].Length >= minimumLength) ==>
                a == old(shelf[|shelf| - 1]) && shelf == old(shelf[..|shelf| - 1])
      ensures !old(|shelf| > 0 && shelf[|shelf| - 1].Length >= minimumLength) ==>
                fresh(a) && shelf == old(shelf)
    {
      if |shelf| > 0 && shelf[|shelf| - 1].Length >= minimumLength {
        a := shelf[|shelf| - 1];
        shelf := shelf[..|shelf| - 1];
      } else {
        a := new T[minimumLength];
      }
      lent := lent + {a};
    }

    /** `Return(array)`: takes back an array it lent and keeps it for reuse. */
    method Return(a: array<T>)
      requires Valid() && a in lent
      modifies this
      ensures Valid()
      ensures lent == old(lent) - {a}
      ensures shelf == old(shelf) + [a]
    {
      shelf := shelf + [a];
      lent := lent - {a};
    }
  }
}
