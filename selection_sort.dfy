// SelectionSort (sorting/selection-sort): for each i, find the smallest value
// of a[i..] and exchange it into slot i.
module SelectionSort {
  import opened SortBasics

  /** a[..i] is sorted, and no value in it exceeds a value after it. */
  ghost predicate Settled(s: seq<int>, i: int)
    requires 0 <= i <= |s|
  {
    && SortedRange(s, 0, i)
    && forall p, q :: 0 <= p < i <= q < |s| ==> s[p] <= s[q]
  }

  /** Exchanging a smallest value of s[i..] into slot i settles slot i. */
  lemma SettledStep(s: seq<int>, i: int, min: int)
    requires 0 <= i <= min < |s| && Settled(s, i)
    requires forall k :: i <= k < |s| ==> s[min] <= s[k]
    ensures Settled(s[i := s[min]][min := s[i]], i + 1)
  {
    var t := s[i := s[min]][min := s[i]];
    forall p, q | 0 <= p < i + 1 <= q < |t|
      ensures t[p] <= t[q]
    {
      if q == min {
        assert t[q] == s[i];
      } else {
        assert t[q] == s[q];
      }
    }
    forall p, q | 0 <= p < q < i + 1
      ensures t[p] <= t[q]
    {
      if q < i {
        assert t[p] == s[p] && t[q] == s[q];
      } else if min == i {
        assert t[p] == s[p];
      } else {
        assert t[p] == s[p] && t[q] == s[min];
      }
    }
  }

  /** Leaves a sorted permutation of the values it was given. */
  method Sort(a: array<int>)
    modifies a
    ensures Sorted(a[..])
    ensures multiset(a[..]) == old(multiset(a[..]))
  {
    for i := 0 to a.Length
      invariant Settled(a[..], i)
      invariant multiset(a[..]) == old(multiset(a[..]))
    {
      var min := MinFrom(a, i);
      SettledStep(a[..], i, min);
      Exchange(a, i, min);
    }
  }

  /** The inner loop: the index of a smallest value of a[i..]. */
  method MinFrom(a: array<int>, i: int) returns (min: int)
    requires 0 <= i < a.Length
    ensures i <= min < a.Length
    ensures forall k :: i <= k < a.Length ==> a[min] <= a[k]
  {
    min := i;
    for j := i + 1 to a.Length
      invariant i <= min < j
      invariant forall k :: i <= k < j ==> a[min] <= a[k]
    {
      if a[j] < a[min] {
        min := j;
      }
    }
  }
}
