/** The contract of Go's `sort.Sort` and `sort.Slice`: the slice is permuted in place until no
    later element compares less than an earlier one.  Neither function is stable, so the contract
    says nothing about the order of elements that compare equal. */
module Sorting {

  ghost predicate TotalPreorder<T(!new)>(less: (T, T) -> bool) {
    && (forall x, y :: less(x, y) ==> !less(y, x))
    && (forall x, y, z :: !less(x, y) && !less(y, z) ==> !less(x, z))
  }

  ghost predicate Sorted<T>(less: (T, T) -> bool, s: seq<T>) {
    forall i, j :: 0 <= i < j < |s| ==> !less(s[j], s[i])
  }

  method Swap<T>(a: array<T>, i: nat, j: nat)
    requires i < a.Length && j < a.Length
    modifies a
    ensures a[..] == old(a[..])[i := old(a[j])][j := old(a[i])]
    ensures multiset(a[..]) == multiset(old(a[..]))
  {
    a[i], a[j] := a[j], a[i];
  }

  method Sort<T(!new)>(a: array<T>, less: (T, T) -> bool)
    requires TotalPreorder(less)
    modifies a
    ensures Sorted(less, a[..])
    ensures multiset(a[..]) == multiset(old(a[..]))
  {
    for n := 0 to a.Length
      invariant Sorted(less, a[..n])
      invariant forall i, j :: 0 <= i < n <= j < a.Length ==> !less(a[j], a[i])
      invariant multiset(a[..]) == multiset(old(a[..]))
    {
      var least := n;
      for k := n + 1 to a.Length
        invariant n <= least < a.Length
        invariant forall j :: n <= j < k ==> !less(a[j], a[least])
      {
        if less(a[k], a[least]) {
          least := k;
        }
      }
      Swap(a, n, least);
    }
    assert a[..] == a[..a.Length];
  }
}
