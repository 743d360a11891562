/** The in-place sort of the ledger by the trades' own comparison. The
    system's list sort is an unstable introsort; only what it promises is
    kept here: afterwards the array is sorted newest first and holds the
    same trades. The algorithm below (a selection sort) is one way to keep
    that promise; the order it leaves among equal timestamps is not meant
    to match the system's.
 */
module Sorting {
  import opened Outcomes
  import opened Trades

  /** The index of a newest trade among a[from..]. */
  method IndexOfNewest(a: array<Trade>, from: nat) returns (m: nat)
    requires from < a.Length
    ensures from <= m < a.Length
    ensures forall k :: from <= k < a.Length ==> a[m].timestamp >= a[k].timestamp
  {
    m := from;
    var j := from + 1;
    while j < a.Length
      invariant from <= m < j <= a.Length
      invariant forall k :: from <= k < j ==> a[m].timestamp >= a[k].timestamp
    {
      if CompareTo(a[j], Some(a[m])) < 0 {
        m := j;
      }
      j := j + 1;
    }
  }

  /** Exchanges a[i] and a[j], leaving every other element where it was. */
  method Swap(a: array<Trade>, i: nat, j: nat)
    requires i < a.Length && j < a.Length
    modifies a
    ensures a[i] == old(a[j]) && a[j] == old(a[i])
    ensures forall k :: 0 <= k < a.Length && k != i && k != j ==> a[k] == old(a[k])
    ensures multiset(a[..]) == multiset(old(a[..]))
  {
    a[i], a[j] := a[j], a[i];
  }

  /** Sorts `a` in place, newest trade first. */
  method SortTrades(a: array<Trade>)
    modifies a
    ensures SortedByCompareTo(a[..])
    ensures multiset(a[..]) == multiset(old(a[..]))
  {
    var i := 0;
    while i < a.Length
      invariant 0 <= i <= a.Length
      invariant forall p, q :: 0 <= p < q < i ==> a[p].timestamp >= a[q].timestamp
      invariant forall p, q :: 0 <= p < i <= q < a.Length ==> a[p].timestamp >= a[q].timestamp
      invariant multiset(a[..]) == multiset(old(a[..]))
    {
      var m := IndexOfNewest(a, i);
      Swap(a, i, m);
      i := i + 1;
    }
    SortedIsNewestFirst(a[..]);
  }
}
