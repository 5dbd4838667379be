/** Ascending in-place sort of a buffer of values, standing for the
    program's calls to `std::sort`. */
module Sorting {

  import opened Common

  /** Insertion sort: the result is ascending and a permutation of the input. */
  method Sort(a: array<nat>)
    modifies a
    ensures Sorted(a[..])
    ensures multiset(a[..]) == old(multiset(a[..]))
  {
    for i := 0 to a.Length
      invariant Sorted(a[..i])
      invariant multiset(a[..]) == old(multiset(a[..]))
    {
      var j := i;
      while j > 0 && a[j - 1] > a[j]
        invariant 0 <= j <= i
        invariant forall k, l :: 0 <= k < l <= i && k != j && l != j ==> a[k] <= a[l]
        invariant forall l :: j < l <= i ==> a[j] <= a[l]
        invariant multiset(a[..]) == old(multiset(a[..]))
      {
        Swap(a, j - 1, j);
        j := j - 1;
      }
    }
  }

  /** Exchanges two elements; nothing else changes. */
  method Swap(a: array<nat>, i: nat, j: nat)
    requires i < j < a.Length
    modifies a
    ensures a[..] == old(a[..])[i := old(a[j])][j := old(a[i])]
    ensures multiset(a[..]) == old(multiset(a[..]))
  {
    a[i], a[j] := a[j], a[i];
  }

  /** A permutation of 64-bit values holds only 64-bit values. */
  lemma PermutationKeepsU64(s: seq<nat>, t: seq<nat>)
    requires multiset(s) == multiset(t) && AllU64(s)
    ensures AllU64(t)
  {
    forall i | 0 <= i < |t|
      ensures IsU64(t[i])
    {
      assert t[i] in multiset(t);
      assert t[i] in s;
    }
  }
}
