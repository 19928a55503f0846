/** `sort.Sort(sort.StringSlice(r))`: the in-place sort `Done` runs on the
    collected ids. Go's sort is not an insertion sort; any in-place sort
    with the same contract would serve, and the contract is what `Done`
    relies on. */
module Sorting {
  import opened StringOrder

  /** Sorts `a` into ascending lexicographic order, in place. */
  method SortInPlace(a: array<string>)
    modifies a
    ensures Sorted(a[..])
    ensures multiset(a[..]) == old(multiset(a[..]))
  {
    var i := 1;
    while i < a.Length
      invariant a.Length == 0 || 1 <= i <= a.Length
      invariant AdjacentSorted(a[..if a.Length == 0 then 0 else i])
      invariant multiset(a[..]) == old(multiset(a[..]))
    {
      Sink(a, i);
      i := i + 1;
    }
    assert a[..if a.Length == 0 then 0 else i] == a[..];
    AdjacentSortedIsSorted(a[..]);
  }

  /** Moves `a[i]` left past every greater neighbour, so that the first
      `i + 1` elements are in order when the first `i` were. */
  method Sink(a: array<string>, i: nat)
    requires 0 < i < a.Length
    requires AdjacentSorted(a[..i])
    modifies a
    ensures AdjacentSorted(a[..i + 1])
    ensures multiset(a[..]) == old(multiset(a[..]))
  {
    var j := i;
    while j > 0 && Less(a[j], a[j - 1])
      invariant 0 <= j <= i
      invariant forall k :: 0 <= k < i && k + 1 != j ==> LessEq(a[k], a[k + 1])
      invariant 0 < j < i ==> LessEq(a[j - 1], a[j + 1])
      invariant multiset(a[..]) == old(multiset(a[..]))
    {
      SwapWithLeft(a, j);
      j := j - 1;
    }
    if j > 0 {
      NotLessIsLessEq(a[j], a[j - 1]);
    }
  }

  /** Exchanges `a[j - 1]` and `a[j]`. */
  method SwapWithLeft(a: array<string>, j: nat)
    requires 0 < j < a.Length
    modifies a
    ensures a[j - 1] == old(a[j]) && a[j] == old(a[j - 1])
    ensures forall k :: 0 <= k < a.Length && k != j - 1 && k != j ==> a[k] == old(a[k])
    ensures multiset(a[..]) == old(multiset(a[..]))
  {
    a[j - 1], a[j] := a[j], a[j - 1];
  }
}
