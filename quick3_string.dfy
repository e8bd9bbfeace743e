// Quick3String (strings/quick-3-string): three-way string quicksort. _sort
// partitions a[lo..hi] on the character code v = charAt(a[lo], d) into codes
// below v, equal to v and above v, sorts the outer bands on the same position
// and the middle band on the next position, unless v is -1: then every string
// of the middle band has ended and there is nothing left to compare. The
// strings end in the order of StringOrder, a proper prefix first.
module Quick3String {
  import opened SortBasics
  import opened StringOrder

  /** charAt(s, d): the character code at d, or -1 once s has ended. */
  function CharAt(s: string, d: nat): (c: int)
    ensures c == -1 <==> d >= |s|
    ensures d < |s| ==> c == s[d] as int
  {
    if d < |s| then s[d] as int else -1
  }

  /** What is left of s from position d on; nothing once s has ended. */
  function Drop(s: string, d: nat): (r: string)
    ensures d <= |s| ==> r == s[d..]
    ensures d >= |s| ==> r == []
  {
    if d <= |s| then s[d..] else []
  }

  /** s[lo..hi) is in order on what is left of each string from d on. */
  ghost predicate SortedFrom(s: seq<string>, lo: int, hi: int, d: nat)
  {
    forall i, j :: lo <= i < j < hi && 0 <= i && j < |s| ==> LexLeq(Drop(s[i], d), Drop(s[j], d))
  }

  /** Every string of s[p..q) has a code at d below v. */
  ghost predicate Below(s: seq<string>, p: int, q: int, d: nat, v: int)
  {
    forall k :: p <= k < q && 0 <= k < |s| ==> CharAt(s[k], d) < v
  }

  /** Every string of s[p..q) has the code v at d. */
  ghost predicate Equal(s: seq<string>, p: int, q: int, d: nat, v: int)
  {
    forall k :: p <= k < q && 0 <= k < |s| ==> CharAt(s[k], d) == v
  }

  /** Every string of s[p..q) has a code at d above v. */
  ghost predicate Above(s: seq<string>, p: int, q: int, d: nat, v: int)
  {
    forall k :: p <= k < q && 0 <= k < |s| ==> CharAt(s[k], d) > v
  }

  /** No string of s is longer than L. */
  ghost predicate Bounded(s: seq<string>, L: nat)
  {
    forall k :: 0 <= k < |s| ==> |s[k]| <= L
  }

  /**
   * What _sort(a, lo, hi, d) does to the array s, leaving t: nothing when hi <= lo;
   * otherwise t[lo..hi] is in order from d, t permutes s, and nothing outside [lo, hi] moves.
   */
  ghost predicate SortsRange(s: seq<string>, t: seq<string>, lo: int, hi: int, d: nat)
  {
    if hi <= lo then t == s
    else SortedFrom(t, lo, hi + 1, d) && multiset(t) == multiset(s) && SameOutside(s, t, lo, hi)
  }

  /** A string ending at d comes first from d on; otherwise the codes at d decide. */
  lemma CodeLess(x: string, y: string, d: nat)
    requires CharAt(x, d) < CharAt(y, d)
    ensures LexLess(Drop(x, d), Drop(y, d))
  {
    LexLessAt(Drop(x, d), Drop(y, d), 0);
  }

  /** Strings sharing the code at d, and in order from d + 1, are in order from d. */
  lemma CodeEqual(x: string, y: string, d: nat)
    requires CharAt(x, d) == CharAt(y, d) && LexLeq(Drop(x, d + 1), Drop(y, d + 1))
    ensures LexLeq(Drop(x, d), Drop(y, d))
  {
    if d < |x| {
      var a, b := Drop(x, d), Drop(y, d);
      assert a[0] == b[0];
      assert a[1..] == Drop(x, d + 1) && b[1..] == Drop(y, d + 1);
    }
  }

  /**
   * The partition loop of _sort: afterwards a[lo..lt) has codes at d below v, a[lt..gt]
   * has code v and a(gt..hi] codes above v, where v is the code of the original a[lo];
   * only slots of [lo, hi] are exchanged.
   */
  method ThreeWay(a: array<string>, lo: int, hi: int, d: nat) returns (lt: int, gt: int)
    requires 0 <= lo < hi < a.Length
    modifies a
    ensures lo <= lt <= gt <= hi
    ensures Below(a[..], lo, lt, d, CharAt(old(a[lo]), d)) && Equal(a[..], lt, gt + 1, d, CharAt(old(a[lo]), d))
    ensures Above(a[..], gt + 1, hi + 1, d, CharAt(old(a[lo]), d))
    ensures multiset(a[..]) == old(multiset(a[..])) && SameOutside(old(a[..]), a[..], lo, hi)
  {
    ghost var s := a[..];
    lt := lo;
    gt := hi;
    var v := CharAt(a[lo], d);
    var i := lo + 1;
    while i <= gt
      invariant lo <= lt < i <= gt + 1 <= hi + 1
      invariant Below(a[..], lo, lt, d, v) && Equal(a[..], lt, i, d, v) && Above(a[..], gt + 1, hi + 1, d, v)
      invariant multiset(a[..]) == multiset(s) && SameOutside(s, a[..], lo, hi)
      decreases gt - i + 1
    {
      var t := CharAt(a[i], d);
      if t < v {
        BelowStep(a[..], lo, lt, i, gt, hi, d, v);
        ExchangeOutside(s, a[..], lt, i, lo, hi);
        Exchange(a, lt, i);
        lt, i := lt + 1, i + 1;
      } else if t > v {
        AboveStep(a[..], lo, lt, i, gt, hi, d, v);
        ExchangeOutside(s, a[..], i, gt, lo, hi);
        Exchange(a, i, gt);
        gt := gt - 1;
      } else {
        i := i + 1;
      }
    }
  }

  /** exchange(a, lt++, i++) for a code below v: the string with v at lt moves to i, and both bands grow. */
  lemma BelowStep(s: seq<string>, lo: int, lt: int, i: int, gt: int, hi: int, d: nat, v: int)
    requires 0 <= lo <= lt < i <= gt <= hi < |s| && CharAt(s[i], d) < v
    requires Below(s, lo, lt, d, v) && Equal(s, lt, i, d, v) && Above(s, gt + 1, hi + 1, d, v)
    ensures var t := s[lt := s[i]][i := s[lt]];
      Below(t, lo, lt + 1, d, v) && Equal(t, lt + 1, i + 1, d, v) && Above(t, gt + 1, hi + 1, d, v)
  {
  }

  /** exchange(a, i, gt--) for a code above v: the upper band grows by one. */
  lemma AboveStep(s: seq<string>, lo: int, lt: int, i: int, gt: int, hi: int, d: nat, v: int)
    requires 0 <= lo <= lt < i <= gt <= hi < |s| && CharAt(s[i], d) > v
    requires Below(s, lo, lt, d, v) && Equal(s, lt, i, d, v) && Above(s, gt + 1, hi + 1, d, v)
    ensures var t := s[i := s[gt]][gt := s[i]];
      Below(t, lo, lt, d, v) && Equal(t, lt, i, d, v) && Above(t, gt, hi + 1, d, v)
  {
  }

  /**
   * _sort(a, lo, hi, d): sorts a[lo..hi] on what is left of each string from d on, as a
   * permutation, and leaves the rest of the array as it was; for hi <= lo it does nothing.
   * L bounds the string lengths: the middle band goes one position deeper only while its
   * strings have not ended, so L - d and then hi - lo decrease.
   */
  method SortFrom(a: array<string>, lo: int, hi: int, d: nat, ghost L: nat)
    requires hi <= lo || (0 <= lo && hi < a.Length)
    requires Bounded(a[..], L) && d <= L
    modifies a
    ensures SortsRange(old(a[..]), a[..], lo, hi, d)
    ensures Bounded(a[..], L)
    decreases L - d, hi - lo
  {
    if hi <= lo {
      return;
    }
    ghost var s0 := a[..];
    var v := CharAt(a[lo], d);
    var lt, gt := ThreeWay(a, lo, hi, d);
    ghost var s1 := a[..];
    assert Bands(s1, lo, lt, gt, hi, d, v);
    StillBounded(s0, s1, L);
    SortFrom(a, lo, lt - 1, d, L);
    ghost var s2 := a[..];
    if v >= 0 {
      assert |s0[lo]| <= L;
      SortFrom(a, lt, gt, d + 1, L);
      assert SortsRange(s2, a[..], lt, gt, d + 1);
    }
    ghost var s3 := a[..];
    SortFrom(a, gt + 1, hi, d, L);
    ghost var s4 := a[..];
    Combine(s1, s2, s3, s4, lo, lt, gt, hi, d, v);
    OutsideTrans(s0, s1, s4, lo, hi);
  }

  /** sort(a): _sort(a, 0, a.length - 1, 0). The array ends a permutation of its strings in order. */
  method Sort(a: array<string>)
    modifies a
    ensures forall i, j :: 0 <= i < j < a.Length ==> LexLeq(a[i], a[j])
    ensures multiset(a[..]) == multiset(old(a[..]))
  {
    ghost var L := MaxLength(a[..]);
    SortFrom(a, 0, a.Length - 1, 0, L);
    forall i, j | 0 <= i < j < a.Length
      ensures LexLeq(a[i], a[j])
    {
      assert Drop(a[..][i], 0) == a[i] && Drop(a[..][j], 0) == a[j];
    }
  }

  /** The length of the longest string of s, 0 for none. */
  ghost function MaxLength(s: seq<string>): (L: nat)
    ensures Bounded(s, L)
  {
    if |s| == 0 then 0
    else
      var m := MaxLength(s[..|s| - 1]);
      assert forall k :: 0 <= k < |s| - 1 ==> s[k] == s[..|s| - 1][k];
      if |s[|s| - 1]| > m then |s[|s| - 1]| else m
  }

  /** A permutation keeps the length bound. */
  lemma StillBounded(s: seq<string>, t: seq<string>, L: nat)
    requires Bounded(s, L) && multiset(t) == multiset(s)
    ensures Bounded(t, L)
  {
    forall k | 0 <= k < |t|
      ensures |t[k]| <= L
    {
      assert t[k] in multiset(s);
      var m :| 0 <= m < |s| && s[m] == t[k];
    }
  }

  /** Agreement outside [lo, hi] is transitive. */
  lemma OutsideTrans(s: seq<string>, t: seq<string>, u: seq<string>, lo: int, hi: int)
    requires SameOutside(s, t, lo, hi) && SameOutside(t, u, lo, hi)
    ensures SameOutside(s, u, lo, hi)
  {
  }

  /** Agreement outside a sub-range of [lo, hi] is agreement outside [lo, hi]. */
  lemma OutsideWiden(s: seq<string>, t: seq<string>, p: int, q: int, lo: int, hi: int)
    requires lo <= p && q <= hi && SameOutside(s, t, p, q)
    ensures SameOutside(s, t, lo, hi)
  {
  }

  /** What holds of each string of a band holds of each string of a permutation of it. */
  lemma PermutedMember(s: seq<string>, t: seq<string>, p: int, q: int, k: int) returns (m: int)
    requires 0 <= p <= k <= q < |s| && |t| == |s| && multiset(t[p..q + 1]) == multiset(s[p..q + 1])
    ensures p <= m <= q && s[m] == t[k]
  {
    assert t[k] == t[p..q + 1][k - p];
    assert t[k] in multiset(s[p..q + 1]);
    var j :| 0 <= j < q + 1 - p && s[p..q + 1][j] == t[k];
    m := p + j;
  }

  /** A band's code bound holds of every permutation of the band. */
  lemma PermutedBands(s: seq<string>, t: seq<string>, p: int, q: int, d: nat, v: int)
    requires 0 <= p <= q < |s| && |t| == |s| && multiset(t[p..q + 1]) == multiset(s[p..q + 1])
    ensures Below(s, p, q + 1, d, v) ==> Below(t, p, q + 1, d, v)
    ensures Equal(s, p, q + 1, d, v) ==> Equal(t, p, q + 1, d, v)
    ensures Above(s, p, q + 1, d, v) ==> Above(t, p, q + 1, d, v)
  {
    forall k | p <= k <= q
      ensures exists m :: p <= m <= q && s[m] == t[k]
    {
      var m := PermutedMember(s, t, p, q, k);
    }
  }

  /** Sorting a band of [lo, hi] keeps its code bounds, permutes it, and moves nothing else. */
  lemma BandSorted(s: seq<string>, t: seq<string>, p: int, q: int, lo: int, hi: int, d: nat, d': nat, v: int)
    requires 0 <= lo <= p && q <= hi < |s| && SortsRange(s, t, p, q, d')
    ensures Below(s, p, q + 1, d, v) ==> Below(t, p, q + 1, d, v)
    ensures Equal(s, p, q + 1, d, v) ==> Equal(t, p, q + 1, d, v)
    ensures Above(s, p, q + 1, d, v) ==> Above(t, p, q + 1, d, v)
    ensures multiset(t) == multiset(s) && SameOutside(s, t, p, q) && SameOutside(s, t, lo, hi)
  {
    if p < q {
      RangeMultiset(s, t, p, q);
      PermutedBands(s, t, p, q, d, v);
      OutsideWiden(s, t, p, q, lo, hi);
    }
  }

  /** The middle band, all with the code v at d: in order from d + 1 (or v == -1) means in order from d. */
  lemma MiddleFrom(s: seq<string>, lt: int, gt: int, d: nat, v: int)
    requires 0 <= lt <= gt < |s| && Equal(s, lt, gt + 1, d, v)
    requires v >= 0 ==> SortedFrom(s, lt, gt + 1, d + 1)
    ensures SortedFrom(s, lt, gt + 1, d)
  {
    forall i, j | lt <= i < j < gt + 1
      ensures LexLeq(Drop(s[i], d), Drop(s[j], d))
    {
      if v >= 0 {
        CodeEqual(s[i], s[j], d);
      } else {
        assert Drop(s[i], d) == [] == Drop(s[j], d);
      }
    }
  }

  /** Codes below v, sorted; then code v, sorted; then codes above v, sorted: the whole range is sorted. */
  lemma BandsSorted(s: seq<string>, lo: int, lt: int, gt: int, hi: int, d: nat, v: int)
    requires 0 <= lo <= lt <= gt <= hi < |s|
    requires SortedFrom(s, lo, lt, d) && Below(s, lo, lt, d, v)
    requires SortedFrom(s, lt, gt + 1, d) && Equal(s, lt, gt + 1, d, v)
    requires SortedFrom(s, gt + 1, hi + 1, d) && Above(s, gt + 1, hi + 1, d, v)
    ensures SortedFrom(s, lo, hi + 1, d)
  {
    forall i, j | lo <= i < j < hi + 1
      ensures LexLeq(Drop(s[i], d), Drop(s[j], d))
    {
      if CharAt(s[i], d) < CharAt(s[j], d) {
        CodeLess(s[i], s[j], d);
      }
    }
  }

  /** The three bands of [lo, hi] around the code v at d. */
  ghost predicate Bands(s: seq<string>, lo: int, lt: int, gt: int, hi: int, d: nat, v: int)
  {
    0 <= lo <= lt <= gt <= hi < |s|
    && Below(s, lo, lt, d, v) && Equal(s, lt, gt + 1, d, v) && Above(s, gt + 1, hi + 1, d, v)
  }

  /** A range in order stays in order when only slots outside it change. */
  lemma SortedKept(s: seq<string>, t: seq<string>, p: int, q: int, lo: int, hi: int, d: nat)
    requires SortedFrom(s, p, q, d) && SameOutside(s, t, lo, hi) && (q <= lo || hi < p)
    ensures SortedFrom(t, p, q, d)
  {
  }

  /** Sorting the lower band: it goes in order, and the bands stay. */
  lemma AfterLower(s1: seq<string>, s2: seq<string>, lo: int, lt: int, gt: int, hi: int, d: nat, v: int)
    requires Bands(s1, lo, lt, gt, hi, d, v) && SortsRange(s1, s2, lo, lt - 1, d)
    ensures Bands(s2, lo, lt, gt, hi, d, v) && SortedFrom(s2, lo, lt, d)
    ensures multiset(s2) == multiset(s1) && SameOutside(s1, s2, lo, hi) && SameOutside(s1, s2, lo, lt - 1)
  {
    BandSorted(s1, s2, lo, lt - 1, lo, hi, d, d, v);
  }

  /** Sorting the middle band one position deeper: it goes in order from d, and the rest stays. */
  lemma AfterMiddle(s2: seq<string>, s3: seq<string>, lo: int, lt: int, gt: int, hi: int, d: nat, v: int)
    requires Bands(s2, lo, lt, gt, hi, d, v) && SortedFrom(s2, lo, lt, d)
    requires if v >= 0 then SortsRange(s2, s3, lt, gt, d + 1) else s3 == s2
    ensures Bands(s3, lo, lt, gt, hi, d, v) && SortedFrom(s3, lo, lt, d) && SortedFrom(s3, lt, gt + 1, d)
    ensures multiset(s3) == multiset(s2) && SameOutside(s2, s3, lo, hi) && SameOutside(s2, s3, lt, gt)
  {
    if v >= 0 {
      BandSorted(s2, s3, lt, gt, lo, hi, d, d + 1, v);
      SortedKept(s2, s3, lo, lt, lt, gt, d);
    }
    MiddleFrom(s3, lt, gt, d, v);
  }

  /** Sorting the upper band: it goes in order, and the rest stays. */
  lemma AfterUpper(s3: seq<string>, s4: seq<string>, lo: int, lt: int, gt: int, hi: int, d: nat, v: int)
    requires Bands(s3, lo, lt, gt, hi, d, v) && SortedFrom(s3, lo, lt, d) && SortedFrom(s3, lt, gt + 1, d)
    requires SortsRange(s3, s4, gt + 1, hi, d)
    ensures Bands(s4, lo, lt, gt, hi, d, v) && SortedFrom(s4, lo, lt, d) && SortedFrom(s4, lt, gt + 1, d)
    ensures SortedFrom(s4, gt + 1, hi + 1, d)
    ensures multiset(s4) == multiset(s3) && SameOutside(s3, s4, lo, hi)
  {
    BandSorted(s3, s4, gt + 1, hi, lo, hi, d, d, v);
    SortedKept(s3, s4, lo, lt, gt + 1, hi, d);
    SortedKept(s3, s4, lt, gt + 1, gt + 1, hi, d);
  }

  /** The three recursive calls on the bands leave [lo, hi] sorted from d. */
  lemma Combine(s1: seq<string>, s2: seq<string>, s3: seq<string>, s4: seq<string>,
                lo: int, lt: int, gt: int, hi: int, d: nat, v: int)
    requires Bands(s1, lo, lt, gt, hi, d, v)
    requires SortsRange(s1, s2, lo, lt - 1, d)
    requires if v >= 0 then SortsRange(s2, s3, lt, gt, d + 1) else s3 == s2
    requires SortsRange(s3, s4, gt + 1, hi, d)
    ensures SortedFrom(s4, lo, hi + 1, d) && multiset(s4) == multiset(s1) && SameOutside(s1, s4, lo, hi)
  {
    AfterLower(s1, s2, lo, lt, gt, hi, d, v);
    AfterMiddle(s2, s3, lo, lt, gt, hi, d, v);
    AfterUpper(s3, s4, lo, lt, gt, hi, d, v);
    BandsSorted(s4, lo, lt, gt, hi, d, v);
    OutsideTrans(s1, s2, s3, lo, hi);
    OutsideTrans(s1, s3, s4, lo, hi);
  }
}
