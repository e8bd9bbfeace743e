// What the comparison sorts of sorting/ share: the order they establish, the
// `exchange` they permute with and the `isSorted` check they each carry. The
// values are JavaScript numbers compared with `<`, modelled as integers; the
// exchange and the framing lemmas hold for elements of any type.
module SortBasics {

  /** Non-decreasing from left to right. */
  ghost predicate Sorted(s: seq<int>)
  {
    forall i, j :: 0 <= i < j < |s| ==> s[i] <= s[j]
  }

  /** s[lo..hi) is non-decreasing. */
  ghost predicate SortedRange(s: seq<int>, lo: int, hi: int)
  {
    forall i, j :: lo <= i < j < hi && 0 <= i && j < |s| ==> s[i] <= s[j]
  }

  /** Each value is no larger than its successor. */
  ghost predicate AdjacentSorted(s: seq<int>)
  {
    forall k :: 0 < k < |s| ==> s[k - 1] <= s[k]
  }

  /** Order between neighbours is order between all pairs. */
  lemma {:induction false} AdjacentIsSorted(s: seq<int>)
    requires AdjacentSorted(s)
    ensures Sorted(s)
  {
    if |s| > 1 {
      AdjacentIsSorted(s[1..]);
      forall j | 1 <= j < |s|
        ensures s[0] <= s[j]
      {
        assert s[1..][0] <= s[1..][j - 1];
      }
    }
  }

  /** s and t have the same length and agree outside [lo, hi]. */
  ghost predicate SameOutside<T>(s: seq<T>, t: seq<T>, lo: int, hi: int)
  {
    |t| == |s| && forall k :: 0 <= k < |s| && (k < lo || hi < k) ==> t[k] == s[k]
  }

  /** Agreeing outside [lo, hi] is agreeing on the slices before lo and after hi. */
  lemma OutsideSlices<T>(s: seq<T>, t: seq<T>, lo: int, hi: int)
    requires 0 <= lo <= hi < |s| && SameOutside(s, t, lo, hi)
    ensures t[..lo] == s[..lo] && t[hi + 1..] == s[hi + 1..]
  {
    assert |t[hi + 1..]| == |s[hi + 1..]|;
  }

  /** Exchanging two slots of [lo, hi] keeps agreement outside [lo, hi]. */
  lemma ExchangeOutside<T>(s: seq<T>, t: seq<T>, i: int, j: int, lo: int, hi: int)
    requires lo <= i <= hi && lo <= j <= hi && 0 <= i < |t| && 0 <= j < |t| && SameOutside(s, t, lo, hi)
    ensures SameOutside(s, t[i := t[j]][j := t[i]], lo, hi)
  {
  }

  /** A permutation of the whole that keeps the outside of [lo, hi] permutes [lo, hi]. */
  lemma RangeMultiset<T>(s: seq<T>, t: seq<T>, lo: int, hi: int)
    requires 0 <= lo <= hi < |s| && SameOutside(s, t, lo, hi) && multiset(t) == multiset(s)
    ensures multiset(t[lo..hi + 1]) == multiset(s[lo..hi + 1])
  {
    OutsideSlices(s, t, lo, hi);
    assert s == s[..lo] + s[lo..hi + 1] + s[hi + 1..];
    assert t == t[..lo] + t[lo..hi + 1] + t[hi + 1..];
    assert multiset(s) == multiset(s[..lo]) + multiset(s[lo..hi + 1]) + multiset(s[hi + 1..]);
    assert multiset(t) == multiset(s[..lo]) + multiset(t[lo..hi + 1]) + multiset(s[hi + 1..]);
    assert multiset(t[lo..hi + 1]) == multiset(t) - multiset(s[..lo]) - multiset(s[hi + 1..]);
  }

  /** Exchanges the values at i and j and changes nothing else. */
  method Exchange<T>(a: array<T>, i: int, j: int)
    requires 0 <= i < a.Length && 0 <= j < a.Length
    modifies a
    ensures a[..] == old(a[..])[i := old(a[j])][j := old(a[i])]
    ensures multiset(a[..]) == old(multiset(a[..]))
  {
    var temp := a[i];
    a[i] := a[j];
    a[j] := temp;
  }

  /**
   * isSorted: false at the first value smaller than its predecessor. At i = 0 the
   * predecessor a[-1] is undefined, and a comparison with undefined is false.
   */
  method IsSorted(a: array<int>) returns (b: bool)
    ensures b <==> Sorted(a[..])
  {
    for i := 0 to a.Length
      invariant AdjacentSorted(a[..i])
    {
      if i > 0 && a[i] < a[i - 1] {
        assert !Sorted(a[..]) by {
          assert a[..][i - 1] > a[..][i];
        }
        return false;
      }
      assert a[..i + 1] == a[..i] + [a[i]];
    }
    assert a[..a.Length] == a[..];
    AdjacentIsSorted(a[..]);
    return true;
  }
}
