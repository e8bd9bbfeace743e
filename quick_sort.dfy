// QuickSort (sorting/quick-sort): Sedgewick's two-pointer partition around
// v = a[lo], then recursion on the two sides. A range of at most six slots is
// handed to InsertionSort.sort, which is called on the whole array; so every
// call, whatever its bounds, leaves the whole array sorted.
module QuickSort {
  import opened SortBasics
  import ShellSort

  /** Every value of s[p..q) is at most v. */
  ghost predicate AtMost(s: seq<int>, p: int, q: int, v: int)
  {
    forall k :: p <= k < q && 0 <= k < |s| ==> s[k] <= v
  }

  /** Every value of s[p..q) is at least v. */
  ghost predicate AtLeast(s: seq<int>, p: int, q: int, v: int)
  {
    forall k :: p <= k < q && 0 <= k < |s| ==> s[k] >= v
  }

  /**
   * The first inner loop, `while (less(a[++i], v)) if (i === hi) break`: it stops at the
   * first slot after i holding a value that is not below v, or at hi.
   */
  method ScanRight(a: array<int>, i: int, hi: int, v: int) returns (i': int)
    requires 0 <= i < hi < a.Length
    ensures i < i' <= hi
    ensures forall k :: i < k < i' ==> a[k] < v
    ensures a[i'] >= v || i' == hi
  {
    i' := i + 1;
    while a[i'] < v && i' != hi
      invariant i < i' <= hi
      invariant forall k :: i < k < i' ==> a[k] < v
      decreases hi - i'
    {
      i' := i' + 1;
    }
  }

  /**
   * The second inner loop, `while (less(v, a[--j])) if (j === lo) break`: it stops at the
   * first slot before j holding a value that is not above v, or at lo.
   */
  method ScanLeft(a: array<int>, lo: int, j: int, v: int) returns (j': int)
    requires 0 <= lo < j <= a.Length
    ensures lo <= j' < j
    ensures forall k :: j' < k < j ==> a[k] > v
    ensures a[j'] <= v || j' == lo
  {
    j' := j - 1;
    while v < a[j'] && j' != lo
      invariant lo <= j' < j
      invariant forall k :: j' < k < j ==> a[k] > v
      decreases j'
    {
      j' := j' - 1;
    }
  }

  /** Exchanging a too-large a[i] with a too-small a[j] extends both settled sides by one slot. */
  lemma SwapStep(s: seq<int>, lo: int, i: int, j: int, hi: int, v: int)
    requires 0 <= lo < i < j <= hi < |s|
    requires AtMost(s, lo + 1, i, v) && AtLeast(s, j + 1, hi + 1, v) && s[i] >= v && s[j] <= v
    ensures var t := s[i := s[j]][j := s[i]];
      AtMost(t, lo + 1, i + 1, v) && AtLeast(t, j, hi + 1, v) && t[lo] == s[lo]
  {
  }

  /**
   * When the pointers cross, exchanging a[lo] = v into slot j leaves values at most v
   * before j and values at least v after it.
   */
  lemma CrossedStep(s: seq<int>, lo: int, i: int, j: int, hi: int, v: int)
    requires 0 <= lo <= j <= i <= hi < |s| && lo < i && s[lo] == v
    requires AtMost(s, lo + 1, i, v) && AtLeast(s, j + 1, hi + 1, v) && (s[j] <= v || j == lo)
    ensures var t := s[lo := s[j]][j := s[lo]];
      t[j] == v && AtMost(t, lo, j, v) && AtLeast(t, j + 1, hi + 1, v)
  {
  }

  /**
   * partition(a, lo, hi) for lo < hi, the only calls sort makes: it returns j in [lo, hi]
   * holding the original a[lo], with no larger value before it and no smaller one after it
   * in [lo, hi], and it only permutes a[lo..hi].
   */
  method Partition(a: array<int>, lo: int, hi: int) returns (j: int)
    requires 0 <= lo < hi < a.Length
    modifies a
    ensures lo <= j <= hi && a[j] == old(a[lo])
    ensures AtMost(a[..], lo, j, a[j]) && AtLeast(a[..], j + 1, hi + 1, a[j])
    ensures multiset(a[lo..hi + 1]) == old(multiset(a[lo..hi + 1]))
    ensures a[..lo] == old(a[..lo]) && a[hi + 1..] == old(a[hi + 1..])
  {
    ghost var s := a[..];
    var i := lo;
    j := hi + 1;
    var v := a[lo];
    while true
      invariant lo <= i < hi && i < j <= hi + 1 && a[lo] == v
      invariant AtMost(a[..], lo + 1, i + 1, v) && AtLeast(a[..], j, hi + 1, v)
      invariant multiset(a[..]) == multiset(s) && SameOutside(s, a[..], lo, hi)
      decreases j - i
    {
      var i' := ScanRight(a, i, hi, v);
      var j' := ScanLeft(a, lo, j, v);
      assert AtMost(a[..], lo + 1, i', v);
      assert AtLeast(a[..], j' + 1, hi + 1, v);
      if i' >= j' {
        CrossedStep(a[..], lo, i', j', hi, v);
        ExchangeOutside(s, a[..], lo, j', lo, hi);
        Exchange(a, lo, j');
        j := j';
        break;
      }
      SwapStep(a[..], lo, i', j', hi, v);
      ExchangeOutside(s, a[..], i', j', lo, hi);
      Exchange(a, i', j');
      i, j := i', j';
    }
    RangeMultiset(s, a[..], lo, hi);
    OutsideSlices(s, a[..], lo, hi);
  }

  /**
   * InsertionSort.sort(array), which sorts the whole array. Its module is not part of this
   * model; it is stood in for by the gap-1 pass of shell sort, which is insertion sort.
   */
  method InsertionSort(a: array<int>)
    modifies a
    ensures Sorted(a[..]) && multiset(a[..]) == old(multiset(a[..]))
  {
    ShellSort.HPass(a, 1);
    ShellSort.OneSorted(a[..]);
  }

  /**
   * sort(a, lo, hi). Every call ends in a base case, which sorts the whole array, so the
   * whole array ends sorted whatever lo and hi are, slots outside [lo, hi] included.
   */
  method Sort(a: array<int>, lo: int, hi: int)
    requires hi <= lo + 5 || (0 <= lo && hi < a.Length)
    modifies a
    ensures Sorted(a[..]) && multiset(a[..]) == old(multiset(a[..]))
    decreases hi - lo
  {
    if hi <= lo + 5 {
      InsertionSort(a);
      return;
    }
    ghost var s := a[..];
    var j := Partition(a, lo, hi);
    PartitionMultiset(s, a[..], lo, hi);
    Sort(a, lo, j - 1);
    Sort(a, j + 1, hi);
  }

  /** Permuting [lo, hi] and keeping the rest permutes the whole. */
  lemma PartitionMultiset(s: seq<int>, t: seq<int>, lo: int, hi: int)
    requires 0 <= lo <= hi < |s| && |t| == |s|
    requires multiset(t[lo..hi + 1]) == multiset(s[lo..hi + 1])
    requires t[..lo] == s[..lo] && t[hi + 1..] == s[hi + 1..]
    ensures multiset(t) == multiset(s)
  {
    assert s == s[..lo] + s[lo..hi + 1] + s[hi + 1..];
    assert t == t[..lo] + t[lo..hi + 1] + t[hi + 1..];
  }
}
