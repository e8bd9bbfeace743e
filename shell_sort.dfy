// ShellSort (sorting/shell-sort): insertion sort over the gaps of Knuth's
// sequence 1, 4, 13, 40, ..., largest first. A pass with gap h leaves every
// value no larger than the one h slots on; the last pass, h = 1, is plain
// insertion sort and leaves the array sorted.
module ShellSort {
  import opened SortBasics

  /** Every value is no larger than the one h slots later. */
  ghost predicate HSorted(s: seq<int>, h: int)
    requires h >= 1
  {
    forall k :: h <= k < |s| ==> s[k - h] <= s[k]
  }

  /** The first i slots are h-sorted. */
  ghost predicate HSortedBelow(s: seq<int>, h: int, i: int)
    requires h >= 1
  {
    forall k :: h <= k < i && k < |s| ==> s[k - h] <= s[k]
  }

  /** A member of 1, 4, 13, 40, ...: 1, or 3g + 1 for a member g. */
  ghost predicate Gap(h: int)
    decreases if h > 0 then h else 0
  {
    h == 1 || (h > 1 && h % 3 == 1 && Gap(h / 3))
  }

  /** The gap after h is floor(h / 3); after the gap 1 it is 0 and the sort stops. */
  lemma NextGap(h: int)
    requires Gap(h)
    ensures h / 3 == 0 || Gap(h / 3)
    ensures h / 3 == 0 ==> h == 1
  {
  }

  /** A 1-sorted sequence is sorted. */
  lemma OneSorted(s: seq<int>)
    requires HSorted(s, 1)
    ensures Sorted(s)
  {
    assert AdjacentSorted(s);
    AdjacentIsSorted(s);
  }

  /**
   * The first loop: the first member of 1, 4, 13, ... that is not below floor(n / 3).
   * The member before it, if any, is below floor(n / 3).
   */
  method InitialGap(n: int) returns (h: int)
    ensures Gap(h) && h >= n / 3
    ensures h == 1 || (h - 1) / 3 < n / 3
  {
    h := 1;
    while h < n / 3
      invariant Gap(h) && (h == 1 || (h - 1) / 3 < n / 3)
      decreases n - h
    {
      assert (3 * h + 1) / 3 == h;
      h := 3 * h + 1;
    }
  }

  /** Leaves a sorted permutation of the values it was given. */
  method Sort(a: array<int>)
    modifies a
    ensures Sorted(a[..])
    ensures multiset(a[..]) == old(multiset(a[..]))
  {
    var h := InitialGap(a.Length);
    while h >= 1
      invariant h == 0 || Gap(h)
      invariant h == 0 ==> HSorted(a[..], 1)
      invariant multiset(a[..]) == old(multiset(a[..]))
      decreases h
    {
      HPass(a, h);
      NextGap(h);
      h := h / 3;
    }
    OneSorted(a[..]);
  }

  /** Slots 0..i are h-sorted except possibly where the value now at j meets the one h below it. */
  ghost predicate SortedExcept(s: seq<int>, h: int, i: int, j: int)
    requires h >= 1
  {
    && (forall k :: h <= k <= i && k < |s| && k != j ==> s[k - h] <= s[k])
    && (h <= j && j + h <= i && j + h < |s| ==> s[j - h] <= s[j + h])
  }

  /** One exchange of the inner loop moves the exception h slots down. */
  lemma ExceptStep(s: seq<int>, h: int, i: int, j: int)
    requires 1 <= h <= j <= i < |s| && SortedExcept(s, h, i, j) && s[j] < s[j - h]
    ensures SortedExcept(s[j := s[j - h]][j - h := s[j]], h, i, j - h)
  {
    var t := s[j := s[j - h]][j - h := s[j]];
    forall k | h <= k <= i && k != j - h
      ensures t[k - h] <= t[k]
    {
      if k == j + h {
        assert t[k - h] == s[j - h] && t[k] == s[j + h];
      } else if k != j {
        assert t[k - h] == s[k - h] && t[k] == s[k];
      }
    }
    if h <= j - h {
      assert t[j - 2 * h] == s[j - 2 * h] && t[j] == s[j - h];
      assert s[j - h - h] <= s[j - h];
    }
  }

  /** When the inner loop stops, slots 0..i are h-sorted. */
  lemma ExceptDone(s: seq<int>, h: int, i: int, j: int)
    requires 1 <= h && 0 <= j <= i < |s| && SortedExcept(s, h, i, j)
    requires j < h || s[j - h] <= s[j]
    ensures HSortedBelow(s, h, i + 1)
  {
  }

  /** One pass of insertion sort with gap h: afterwards the array is h-sorted. */
  method HPass(a: array<int>, h: int)
    requires h >= 1
    modifies a
    ensures HSorted(a[..], h)
    ensures multiset(a[..]) == old(multiset(a[..]))
  {
    var i := h;
    while i < a.Length
      invariant h <= i && HSortedBelow(a[..], h, i)
      invariant multiset(a[..]) == old(multiset(a[..]))
      decreases a.Length - i
    {
      var j := i;
      while j >= h && a[j] < a[j - h]
        invariant 0 <= j <= i && SortedExcept(a[..], h, i, j)
        invariant multiset(a[..]) == old(multiset(a[..]))
        decreases j
      {
        ExceptStep(a[..], h, i, j);
        Exchange(a, j, j - h);
        j := j - h;
      }
      ExceptDone(a[..], h, i, j);
      i := i + 1;
    }
  }
}
