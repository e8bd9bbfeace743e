// QuickSort, 3-way (sorting/quick-sort-3-way): Dijkstra's three-band
// partition around v = a[lo] (values below v, equal to v, above v), then
// recursion on the outer two bands. Its `partition` is the two-pointer one of
// sorting/quick-sort, word for word, and sort never calls it; it is modelled
// once, as QuickSort.Partition.
module QuickSort3 {
  import opened SortBasics

  /** Every value of s[p..q) is below v. */
  ghost predicate Below(s: seq<int>, p: int, q: int, v: int)
  {
    forall k :: p <= k < q && 0 <= k < |s| ==> s[k] < v
  }

  /** Every value of s[p..q) is v. */
  ghost predicate Equal(s: seq<int>, p: int, q: int, v: int)
  {
    forall k :: p <= k < q && 0 <= k < |s| ==> s[k] == v
  }

  /** Every value of s[p..q) is above v. */
  ghost predicate Above(s: seq<int>, p: int, q: int, v: int)
  {
    forall k :: p <= k < q && 0 <= k < |s| ==> s[k] > v
  }

  /**
   * What sort(a, lo, hi) does to the array s, leaving t: nothing when hi <= lo; otherwise
   * t[lo..hi] is sorted, t permutes s, and nothing outside [lo, hi] moves.
   */
  ghost predicate SortsRange(s: seq<int>, t: seq<int>, lo: int, hi: int)
  {
    if hi <= lo then t == s
    else SortedRange(t, lo, hi + 1) && multiset(t) == multiset(s) && SameOutside(s, t, lo, hi)
  }

  /**
   * The loop of sort: afterwards a[lo..lt) < v, a[lt..gt] == v and a(gt..hi] > v, where
   * v is the original a[lo]; only slots of [lo, hi] are exchanged.
   */
  method ThreeWay(a: array<int>, lo: int, hi: int) returns (lt: int, gt: int)
    requires 0 <= lo < hi < a.Length
    modifies a
    ensures lo <= lt <= gt <= hi
    ensures Below(a[..], lo, lt, old(a[lo])) && Equal(a[..], lt, gt + 1, old(a[lo]))
    ensures Above(a[..], gt + 1, hi + 1, old(a[lo]))
    ensures multiset(a[..]) == old(multiset(a[..])) && SameOutside(old(a[..]), a[..], lo, hi)
  {
    ghost var s := a[..];
    lt := lo;
    var i := lo + 1;
    gt := hi;
    var v := a[lo];
    while i <= gt
      invariant lo <= lt < i <= gt + 1 <= hi + 1
      invariant Below(a[..], lo, lt, v) && Equal(a[..], lt, i, v) && Above(a[..], gt + 1, hi + 1, v)
      invariant multiset(a[..]) == multiset(s) && SameOutside(s, a[..], lo, hi)
      decreases gt - i + 1
    {
      var cmp := a[i] - v;
      if cmp < 0 {
        BelowStep(a[..], lo, lt, i, gt, hi, v);
        ExchangeOutside(s, a[..], lt, i, lo, hi);
        Exchange(a, lt, i);
        lt, i := lt + 1, i + 1;
      } else if cmp > 0 {
        AboveStep(a[..], lo, lt, i, gt, hi, v);
        ExchangeOutside(s, a[..], i, gt, lo, hi);
        Exchange(a, i, gt);
        gt := gt - 1;
      } else {
        i := i + 1;
      }
    }
  }

  /** exchange(lt++, i++) for a[i] < v: the v at lt moves to i, and both bands grow. */
  lemma BelowStep(s: seq<int>, lo: int, lt: int, i: int, gt: int, hi: int, v: int)
    requires 0 <= lo <= lt < i <= gt <= hi < |s| && s[i] < v
    requires Below(s, lo, lt, v) && Equal(s, lt, i, v) && Above(s, gt + 1, hi + 1, v)
    ensures var t := s[lt := s[i]][i := s[lt]];
      Below(t, lo, lt + 1, v) && Equal(t, lt + 1, i + 1, v) && Above(t, gt + 1, hi + 1, v)
  {
  }

  /** exchange(i, gt--) for a[i] > v: the upper band grows by one. */
  lemma AboveStep(s: seq<int>, lo: int, lt: int, i: int, gt: int, hi: int, v: int)
    requires 0 <= lo <= lt < i <= gt <= hi < |s| && s[i] > v
    requires Below(s, lo, lt, v) && Equal(s, lt, i, v) && Above(s, gt + 1, hi + 1, v)
    ensures var t := s[i := s[gt]][gt := s[i]];
      Below(t, lo, lt, v) && Equal(t, lt, i, v) && Above(t, gt, hi + 1, v)
  {
  }

  /**
   * sort(a, lo, hi): sorts a[lo..hi] as a permutation and leaves the rest of the array as it
   * was; for hi <= lo it does nothing.
   */
  method Sort(a: array<int>, lo: int, hi: int)
    requires hi <= lo || (0 <= lo && hi < a.Length)
    modifies a
    ensures SortsRange(old(a[..]), a[..], lo, hi)
    ensures lo < hi ==> multiset(a[lo..hi + 1]) == old(multiset(a[lo..hi + 1]))
    decreases hi - lo
  {
    if hi <= lo {
      return;
    }
    ghost var s0 := a[..];
    ghost var v := a[lo];
    var lt, gt := ThreeWay(a, lo, hi);
    ghost var s1 := a[..];
    Sort(a, lo, lt - 1);
    ghost var s2 := a[..];
    Sort(a, gt + 1, hi);
    Combine(s1, s2, a[..], lo, lt, gt, hi, v);
    OutsideTrans(s0, s1, a[..], lo, hi);
    RangeMultiset(s0, a[..], lo, hi);
  }

  /** Agreement outside [lo, hi] is transitive. */
  lemma OutsideTrans(s: seq<int>, t: seq<int>, u: seq<int>, lo: int, hi: int)
    requires SameOutside(s, t, lo, hi) && SameOutside(t, u, lo, hi)
    ensures SameOutside(s, u, lo, hi)
  {
  }

  /** A band bound holds of every permutation of the band. */
  lemma PermutedBelow(s: seq<int>, t: seq<int>, p: int, q: int, v: int)
    requires 0 <= p <= q < |s| && |t| == |s| && multiset(t[p..q + 1]) == multiset(s[p..q + 1])
    requires Below(s, p, q + 1, v)
    ensures Below(t, p, q + 1, v)
  {
    forall k | p <= k <= q
      ensures t[k] < v
    {
      assert t[k] == t[p..q + 1][k - p];
      assert t[k] in multiset(s[p..q + 1]);
      var m :| 0 <= m < q + 1 - p && s[p..q + 1][m] == t[k];
      assert s[p + m] == t[k];
    }
  }

  /** A band bound holds of every permutation of the band. */
  lemma PermutedAbove(s: seq<int>, t: seq<int>, p: int, q: int, v: int)
    requires 0 <= p <= q < |s| && |t| == |s| && multiset(t[p..q + 1]) == multiset(s[p..q + 1])
    requires Above(s, p, q + 1, v)
    ensures Above(t, p, q + 1, v)
  {
    forall k | p <= k <= q
      ensures t[k] > v
    {
      assert t[k] == t[p..q + 1][k - p];
      assert t[k] in multiset(s[p..q + 1]);
      var m :| 0 <= m < q + 1 - p && s[p..q + 1][m] == t[k];
      assert s[p + m] == t[k];
    }
  }

  /** Sorting the lower band keeps it below v; the rest of the array does not move. */
  lemma LowerSorted(s1: seq<int>, s2: seq<int>, lo: int, lt: int, hi: int, v: int)
    requires 0 <= lo <= lt <= hi < |s1| && Below(s1, lo, lt, v) && SortsRange(s1, s2, lo, lt - 1)
    ensures SortedRange(s2, lo, lt) && Below(s2, lo, lt, v) && multiset(s2) == multiset(s1)
    ensures SameOutside(s1, s2, lo, lt - 1)
  {
    if lo < lt - 1 {
      RangeMultiset(s1, s2, lo, lt - 1);
      PermutedBelow(s1, s2, lo, lt - 1, v);
    }
  }

  /** Sorting the upper band keeps it above v; the rest of the array does not move. */
  lemma UpperSorted(s2: seq<int>, s3: seq<int>, lo: int, gt: int, hi: int, v: int)
    requires 0 <= lo <= gt <= hi < |s2| && Above(s2, gt + 1, hi + 1, v) && SortsRange(s2, s3, gt + 1, hi)
    ensures SortedRange(s3, gt + 1, hi + 1) && Above(s3, gt + 1, hi + 1, v) && multiset(s3) == multiset(s2)
    ensures SameOutside(s2, s3, gt + 1, hi)
  {
    if gt + 1 < hi {
      RangeMultiset(s2, s3, gt + 1, hi);
      PermutedAbove(s2, s3, gt + 1, hi, v);
    }
  }

  /** Below v, sorted; then v; then above v, sorted: the whole range is sorted. */
  lemma BandsSorted(s: seq<int>, lo: int, lt: int, gt: int, hi: int, v: int)
    requires 0 <= lo <= lt <= gt <= hi < |s|
    requires SortedRange(s, lo, lt) && Below(s, lo, lt, v) && Equal(s, lt, gt + 1, v)
    requires SortedRange(s, gt + 1, hi + 1) && Above(s, gt + 1, hi + 1, v)
    ensures SortedRange(s, lo, hi + 1)
  {
  }

  /** The two recursive calls on the outer bands leave [lo, hi] sorted. */
  lemma Combine(s1: seq<int>, s2: seq<int>, s3: seq<int>, lo: int, lt: int, gt: int, hi: int, v: int)
    requires 0 <= lo <= lt <= gt <= hi < |s1|
    requires Below(s1, lo, lt, v) && Equal(s1, lt, gt + 1, v) && Above(s1, gt + 1, hi + 1, v)
    requires SortsRange(s1, s2, lo, lt - 1) && SortsRange(s2, s3, gt + 1, hi)
    ensures SortedRange(s3, lo, hi + 1) && multiset(s3) == multiset(s1) && SameOutside(s1, s3, lo, hi)
  {
    LowerSorted(s1, s2, lo, lt, hi, v);
    assert Equal(s2, lt, gt + 1, v) && Above(s2, gt + 1, hi + 1, v);
    UpperSorted(s2, s3, lo, gt, hi, v);
    assert SortedRange(s3, lo, lt) && Below(s3, lo, lt, v) && Equal(s3, lt, gt + 1, v);
    BandsSorted(s3, lo, lt, gt, hi, v);
  }
}
