// MergeSort (sorting/merge-sort): top-down merge sort of array[lo..hi], with
// both bounds inclusive. merge copies array[lo..hi] to aux and merges the two
// sorted halves back; on a tie it takes from the left half, which keeps the
// sort stable.
module MergeSort {
  import opened SortBasics

  /** The merge of xs and ys that takes the head of ys only when it is strictly smaller. */
  function Merged(xs: seq<int>, ys: seq<int>): (r: seq<int>)
    ensures |r| == |xs| + |ys|
    decreases |xs| + |ys|
  {
    if xs == [] then ys
    else if ys == [] then xs
    else if ys[0] < xs[0] then [ys[0]] + Merged(xs, ys[1..])
    else [xs[0]] + Merged(xs[1..], ys)
  }

  /** The merge holds exactly the values of both inputs. */
  lemma {:induction false} MergedMultiset(xs: seq<int>, ys: seq<int>)
    ensures multiset(Merged(xs, ys)) == multiset(xs) + multiset(ys)
    decreases |xs| + |ys|
  {
    if xs != [] && ys != [] {
      if ys[0] < xs[0] {
        MergedMultiset(xs, ys[1..]);
        assert Merged(xs, ys) == [ys[0]] + Merged(xs, ys[1..]);
        assert ys == [ys[0]] + ys[1..];
      } else {
        MergedMultiset(xs[1..], ys);
        assert Merged(xs, ys) == [xs[0]] + Merged(xs[1..], ys);
        assert xs == [xs[0]] + xs[1..];
      }
    }
  }

  /** The merge of two sorted sequences is sorted. */
  lemma MergedSorted(xs: seq<int>, ys: seq<int>)
    requires Sorted(xs) && Sorted(ys)
    ensures Sorted(Merged(xs, ys))
  {
    MergedAdjacent(xs, ys);
    AdjacentIsSorted(Merged(xs, ys));
  }

  /** Each value of the merge of two sorted sequences is no larger than the next. */
  lemma {:induction false} MergedAdjacent(xs: seq<int>, ys: seq<int>)
    requires Sorted(xs) && Sorted(ys)
    ensures AdjacentSorted(Merged(xs, ys))
    decreases |xs| + |ys|
  {
    if xs == [] {
      assert AdjacentSorted(ys);
    } else if ys == [] {
      assert AdjacentSorted(xs);
    } else if ys[0] < xs[0] {
      var rest := Merged(xs, ys[1..]);
      MergedAdjacent(xs, ys[1..]);
      if ys[1..] != [] && ys[1] < xs[0] {
        assert rest[0] == ys[1];
      } else {
        assert rest[0] == xs[0];
      }
      AdjacentCons(ys[0], rest);
    } else {
      var rest := Merged(xs[1..], ys);
      MergedAdjacent(xs[1..], ys);
      if xs[1..] == [] || ys[0] < xs[1] {
        assert rest[0] == ys[0];
      } else {
        assert rest[0] == xs[1];
      }
      AdjacentCons(xs[0], rest);
    }
  }

  /** Putting a value no larger than the head in front keeps neighbours in order. */
  lemma AdjacentCons(v: int, s: seq<int>)
    requires AdjacentSorted(s) && (s != [] ==> v <= s[0])
    ensures AdjacentSorted([v] + s)
  {
    var t := [v] + s;
    forall k | 0 < k < |t|
      ensures t[k - 1] <= t[k]
    {
      if k > 1 {
        assert t[k - 1] == s[k - 2] && t[k] == s[k - 1];
      }
    }
  }

  /**
   * Merges the sorted runs array[lo..mid] and array[mid+1..hi] in place, through aux.
   * aux is allocated with hi - lo + 1 slots and written at lo..hi, which a JavaScript
   * array allows by growing; it is modelled with hi + 1 slots.
   */
  method Merge(a: array<int>, lo: int, mid: int, hi: int)
    requires 0 <= lo <= mid <= hi < a.Length
    modifies a
    ensures a[lo..hi + 1] == Merged(old(a[lo..mid + 1]), old(a[mid + 1..hi + 1]))
    ensures a[..lo] == old(a[..lo]) && a[hi + 1..] == old(a[hi + 1..])
  {
    var aux := CopyToAux(a, lo, hi);
    assert aux[lo..mid + 1] == a[lo..mid + 1] && aux[mid + 1..hi + 1] == a[mid + 1..hi + 1] by {
      assert aux[lo..mid + 1] == aux[lo..hi + 1][..mid + 1 - lo];
      assert a[lo..mid + 1] == a[lo..hi + 1][..mid + 1 - lo];
      assert aux[mid + 1..hi + 1] == aux[lo..hi + 1][mid + 1 - lo..];
      assert a[mid + 1..hi + 1] == a[lo..hi + 1][mid + 1 - lo..];
    }
    MergeBack(a, aux, lo, mid, hi);
  }

  /** The first loop of merge: aux[lo..hi] := array[lo..hi]. */
  method CopyToAux(a: array<int>, lo: int, hi: int) returns (aux: array<int>)
    requires 0 <= lo <= hi < a.Length
    ensures fresh(aux) && aux.Length == hi + 1 && aux[lo..hi + 1] == a[lo..hi + 1]
  {
    aux := new int[hi + 1];
    for k := lo to hi + 1
      invariant forall m :: lo <= m < k ==> aux[m] == a[m]
    {
      aux[k] := a[k];
    }
  }

  /** The array while merging: the first k - lo values of M written over slots lo..k - 1 of s. */
  ghost function Written(s: seq<int>, M: seq<int>, lo: int, k: int): seq<int>
    requires 0 <= lo <= k <= |s| && k - lo <= |M|
  {
    s[..lo] + M[..k - lo] + s[k..]
  }

  /** Writing the next value of M extends what is written by one slot. */
  lemma WrittenStep(s: seq<int>, M: seq<int>, lo: int, k: int)
    requires 0 <= lo <= k < |s| && k - lo < |M|
    ensures Written(s, M, lo, k)[k := M[k - lo]] == Written(s, M, lo, k + 1)
  {
    assert M[..k + 1 - lo] == M[..k - lo] + [M[k - lo]];
  }

  /** With all of the merge written, slots lo..hi hold Merged of the two runs and the rest of s is as it was. */
  lemma MergeDone(s: seq<int>, A: seq<int>, M: seq<int>, lo: int, mid: int, hi: int)
    requires 0 <= lo <= mid <= hi < |s| && hi < |A| && M == MergeFrom(A, lo, mid, mid + 1, hi)
    ensures Written(s, M, lo, hi + 1)[lo..hi + 1] == Merged(A[lo..mid + 1], A[mid + 1..hi + 1])
    ensures Written(s, M, lo, hi + 1)[..lo] == s[..lo] && Written(s, M, lo, hi + 1)[hi + 1..] == s[hi + 1..]
  {
    MergeFromIsMerged(A, lo, mid, mid + 1, hi);
  }

  /** The second loop of merge: array[lo..hi] receives the merge of the two runs held in aux. */
  method MergeBack(a: array<int>, aux: array<int>, lo: int, mid: int, hi: int)
    requires a != aux && 0 <= lo <= mid <= hi < a.Length && hi < aux.Length
    modifies a
    ensures a[lo..hi + 1] == Merged(aux[lo..mid + 1], aux[mid + 1..hi + 1])
    ensures a[..lo] == old(a[..lo]) && a[hi + 1..] == old(a[hi + 1..])
  {
    ghost var s := a[..];
    ghost var A := aux[..];
    ghost var M := MergeFrom(A, lo, mid, mid + 1, hi);
    var i, j := lo, mid + 1;
    for k := lo to hi + 1
      invariant Pending(A, M, lo, mid, hi, i, j, k)
      invariant a[..] == Written(s, M, lo, k)
    {
      i, j := MergeStep(a, aux, lo, mid, hi, i, j, k, s, A, M);
    }
    MergeDone(s, A, M, lo, mid, hi);
  }

  /**
   * One pass of the loop: array[k] receives aux[j++] when the left run is used up or
   * aux[j] is strictly smaller, aux[i++] otherwise; that is the next value of the merge.
   */
  method MergeStep(a: array<int>, aux: array<int>, lo: int, mid: int, hi: int, i: int, j: int, k: int,
                   ghost s: seq<int>, ghost A: seq<int>, ghost M: seq<int>) returns (i': int, j': int)
    requires a != aux && A == aux[..] && Pending(A, M, lo, mid, hi, i, j, k) && k <= hi < a.Length == |s|
    requires a[..] == Written(s, M, lo, k)
    modifies a
    ensures Pending(A, M, lo, mid, hi, i', j', k + 1)
    ensures a[..] == Written(s, M, lo, k + 1)
  {
    WrittenStep(s, M, lo, k);
    i', j' := i, j;
    if i > mid {
      Advance(M, k - lo, A[j], MergeFrom(A, i, mid, j + 1, hi));
      a[k] := aux[j];
      j' := j + 1;
    } else if j > hi {
      Advance(M, k - lo, A[i], MergeFrom(A, i + 1, mid, j, hi));
      a[k] := aux[i];
      i' := i + 1;
    } else if aux[j] < aux[i] {
      Advance(M, k - lo, A[j], MergeFrom(A, i, mid, j + 1, hi));
      a[k] := aux[j];
      j' := j + 1;
    } else {
      Advance(M, k - lo, A[i], MergeFrom(A, i + 1, mid, j, hi));
      a[k] := aux[i];
      i' := i + 1;
    }
  }

  /** After k - lo steps the left run is at i, the right run at j, and M[k - lo..] is left to write. */
  ghost predicate Pending(A: seq<int>, M: seq<int>, lo: int, mid: int, hi: int, i: int, j: int, k: int)
  {
    && 0 <= lo <= i <= mid + 1 <= j <= hi + 1 <= |A| && k == i + j - mid - 1 && |M| == hi + 1 - lo
    && MergeFrom(A, i, mid, j, hi) == M[k - lo..]
  }

  /**
   * The rest of the merge once the left run has advanced to i and the right run to j,
   * following the loop's four cases.
   */
  ghost function MergeFrom(A: seq<int>, i: int, mid: int, j: int, hi: int): (r: seq<int>)
    requires 0 <= i <= mid + 1 <= j <= hi + 1 <= |A|
    ensures |r| == mid + 1 - i + hi + 1 - j
    decreases mid + 1 - i + hi + 1 - j
  {
    if i > mid && j > hi then []
    else if i > mid then [A[j]] + MergeFrom(A, i, mid, j + 1, hi)
    else if j > hi then [A[i]] + MergeFrom(A, i + 1, mid, j, hi)
    else if A[j] < A[i] then [A[j]] + MergeFrom(A, i, mid, j + 1, hi)
    else [A[i]] + MergeFrom(A, i + 1, mid, j, hi)
  }

  /** The loop's merge is Merged of the two runs. */
  lemma {:induction false} MergeFromIsMerged(A: seq<int>, i: int, mid: int, j: int, hi: int)
    requires 0 <= i <= mid + 1 <= j <= hi + 1 <= |A|
    ensures MergeFrom(A, i, mid, j, hi) == Merged(A[i..mid + 1], A[j..hi + 1])
    decreases mid + 1 - i + hi + 1 - j
  {
    var X, Y := A[i..mid + 1], A[j..hi + 1];
    if i > mid && j > hi {
      assert X == [] && Y == [];
    } else if i > mid || (j <= hi && A[j] < A[i]) {
      DropRange(A, j, hi + 1);
      if i <= mid {
        DropRange(A, i, mid + 1);
      }
      MergeFromIsMerged(A, i, mid, j + 1, hi);
      RightFirst(X, Y);
    } else {
      DropRange(A, i, mid + 1);
      if j <= hi {
        DropRange(A, j, hi + 1);
      }
      MergeFromIsMerged(A, i + 1, mid, j, hi);
      LeftFirst(X, Y);
    }
  }

  /** Dropping the head of s[p..q] leaves s[p + 1..q]. */
  lemma DropRange(s: seq<int>, p: int, q: int)
    requires 0 <= p < q <= |s|
    ensures s[p..q] != [] && s[p..q][0] == s[p] && s[p..q][1..] == s[p + 1..q]
  {
  }

  /** A suffix that starts with v: v is at p and the rest follows it. */
  lemma Advance(M: seq<int>, p: int, v: int, rest: seq<int>)
    requires 0 <= p <= |M| && M[p..] == [v] + rest
    ensures p < |M| && M[p] == v && M[p + 1..] == rest
  {
    assert M[p..][0] == v;
    assert M[p + 1..] == M[p..][1..];
  }

  /** The merge starts with the head of ys when xs is empty or its head is larger. */
  lemma RightFirst(xs: seq<int>, ys: seq<int>)
    requires ys != [] && (xs == [] || ys[0] < xs[0])
    ensures Merged(xs, ys) == [ys[0]] + Merged(xs, ys[1..])
  {
    if xs == [] {
      assert ys == [ys[0]] + ys[1..];
    }
  }

  /** The merge starts with the head of xs when ys is empty or its head is not smaller. */
  lemma LeftFirst(xs: seq<int>, ys: seq<int>)
    requires xs != [] && (ys == [] || xs[0] <= ys[0])
    ensures Merged(xs, ys) == [xs[0]] + Merged(xs[1..], ys)
  {
    if ys == [] {
      assert xs == [xs[0]] + xs[1..];
    }
  }

  /** Sorts array[lo..hi] as a permutation and leaves every other slot as it was. */
  method Sort(a: array<int>, lo: int, hi: int)
    requires hi <= lo || (0 <= lo && hi < a.Length)
    modifies a
    ensures hi <= lo ==> a[..] == old(a[..])
    ensures lo < hi ==> Sorted(a[lo..hi + 1]) && multiset(a[lo..hi + 1]) == old(multiset(a[lo..hi + 1]))
    ensures lo < hi ==> a[..lo] == old(a[..lo]) && a[hi + 1..] == old(a[hi + 1..])
    decreases hi - lo
  {
    if hi <= lo {
      return;
    }
    var mid := lo + (hi - lo) / 2;
    ghost var s0 := a[..];
    Sort(a, lo, mid);
    ghost var s1 := a[..];
    Sort(a, mid + 1, hi);
    ghost var s2 := a[..];
    Halves(s0, s1, s2, lo, mid, hi);
    Merge(a, lo, mid, hi);
    MergedSorted(s2[lo..mid + 1], s2[mid + 1..hi + 1]);
    MergedMultiset(s2[lo..mid + 1], s2[mid + 1..hi + 1]);
    assert a[..lo] == s0[..lo] && a[hi + 1..] == s0[hi + 1..];
  }

  /** What the two recursive calls leave: two sorted runs holding the values of the range. */
  lemma Halves(s0: seq<int>, s1: seq<int>, s2: seq<int>, lo: int, mid: int, hi: int)
    requires 0 <= lo <= mid < hi < |s0| == |s1| == |s2|
    requires mid <= lo ==> s1 == s0
    requires lo < mid ==> Sorted(s1[lo..mid + 1]) && multiset(s1[lo..mid + 1]) == multiset(s0[lo..mid + 1])
    requires lo < mid ==> s1[..lo] == s0[..lo] && s1[mid + 1..] == s0[mid + 1..]
    requires hi <= mid + 1 ==> s2 == s1
    requires mid + 1 < hi ==> Sorted(s2[mid + 1..hi + 1]) && multiset(s2[mid + 1..hi + 1]) == multiset(s1[mid + 1..hi + 1])
    requires mid + 1 < hi ==> s2[..mid + 1] == s1[..mid + 1] && s2[hi + 1..] == s1[hi + 1..]
    ensures Sorted(s2[lo..mid + 1]) && Sorted(s2[mid + 1..hi + 1])
    ensures multiset(s2[lo..mid + 1]) + multiset(s2[mid + 1..hi + 1]) == multiset(s0[lo..hi + 1])
    ensures s2[..lo] == s0[..lo] && s2[hi + 1..] == s0[hi + 1..]
  {
    assert s2[lo..mid + 1] == s1[lo..mid + 1] by {
      assert s2[lo..mid + 1] == s2[..mid + 1][lo..];
      assert s1[lo..mid + 1] == s1[..mid + 1][lo..];
    }
    assert s1[mid + 1..hi + 1] == s0[mid + 1..hi + 1] by {
      if lo < mid {
        assert s1[mid + 1..hi + 1] == s1[mid + 1..][..hi - mid];
        assert s0[mid + 1..hi + 1] == s0[mid + 1..][..hi - mid];
      }
    }
    assert s0[lo..hi + 1] == s0[lo..mid + 1] + s0[mid + 1..hi + 1];
    assert s2[..lo] == s0[..lo] by {
      if mid + 1 < hi {
        assert s2[..lo] == s2[..mid + 1][..lo];
        assert s1[..lo] == s1[..mid + 1][..lo];
      }
    }
    assert s2[hi + 1..] == s0[hi + 1..] by {
      if lo < mid {
        assert s1[hi + 1..] == s1[mid + 1..][hi - mid..];
        assert s0[hi + 1..] == s0[mid + 1..][hi - mid..];
      }
    }
  }
}
