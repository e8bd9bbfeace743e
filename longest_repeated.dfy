// LongestRepeated (strings/longest-repeated-string): the longest substring
// that occurs at two different positions of a text. find builds the text's
// suffixes, sorts them with the three-way string quicksort, and scans the
// neighbours of the sorted array: two suffixes sharing a prefix are
// neighbours or have neighbours between them that share it too, so the
// longest common prefix of neighbours is the longest repeat. The strict `>`
// keeps the first such prefix in sorted order, the least of the longest
// repeats.
module LongestRepeated {
  import opened StringOrder
  import Quick3String
  import SuffixArrays

  /** lcp(x, y): compares up to the shorter length and stops at the first difference. */
  method Lcp(x: string, y: string) returns (r: int)
    ensures r == StringOrder.Lcp(x, y)
  {
    var n := if |x| <= |y| then |x| else |y|;
    for i := 0 to n
      invariant x[..i] == y[..i]
    {
      if x[i] != y[i] {
        SuffixArrays.LcpIs(x, y, i);
        return i;
      }
      assert x[..i + 1] == x[..i] + [x[i]] && y[..i + 1] == y[..i] + [y[i]];
    }
    SuffixArrays.LcpIs(x, y, n);
    return n;
  }

  /** t occurs in s starting at position i. */
  ghost predicate OccursAt(s: string, t: string, i: int)
  {
    0 <= i && i + |t| <= |s| && s[i..i + |t|] == t
  }

  /** t occurs in s at two different positions. */
  ghost predicate Repeated(s: string, t: string)
  {
    exists i, j :: 0 <= i < j && OccursAt(s, t, i) && OccursAt(s, t, j)
  }

  /** The suffixes of s, longest first: what the first loop of find stores. */
  ghost function Suffixes(s: string): (u: seq<string>)
    ensures |u| == |s| && forall k :: 0 <= k < |s| ==> u[k] == s[k..]
  {
    seq(|s|, k requires 0 <= k < |s| => s[k..])
  }

  /** The sorted suffix array of s: a permutation of its suffixes, in order. */
  ghost predicate SortedSuffixes(s: string, t: seq<string>)
  {
    |t| == |s| && multiset(t) == multiset(Suffixes(s))
    && forall i, j :: 0 <= i < j < |t| ==> LexLeq(t[i], t[j])
  }

  /**
   * find(s): the suffixes, sorted; then lrs keeps the longest common prefix seen so far of two
   * neighbours, replaced only by a strictly longer one. The result is "" for texts of at most
   * one character, occurs twice in s when it is not empty, is as long as every repeated
   * substring, and comes first in order among the repeated substrings of its length.
   */
  method Find(s: string) returns (lrs: string)
    ensures |s| <= 1 ==> lrs == ""
    ensures |lrs| > 0 ==> Repeated(s, lrs)
    ensures forall x :: Repeated(s, x) ==> |x| <= |lrs|
    ensures forall x :: Repeated(s, x) && |x| == |lrs| ==> LexLeq(lrs, x)
  {
    var n := |s|;
    var suffixes := SortedSuffixArray(s);
    ghost var t := suffixes[..];
    lrs := "";
    ghost var m := 0;
    var i := 0;
    while i < n - 1
      invariant suffixes[..] == t
      invariant Scanned(t, i, m, lrs)
    {
      var len := Lcp(suffixes[i], suffixes[i + 1]);
      ScanStep(t, i, m, lrs, len);
      if len > |lrs| {
        lrs := suffixes[i][..len];
        m := i;
      }
      i := i + 1;
    }
    Conclude(s, t, i, m, lrs);
  }

  /** The first part of find: the suffixes of s, stored longest first, then sorted. */
  method SortedSuffixArray(s: string) returns (suffixes: array<string>)
    ensures fresh(suffixes) && SortedSuffixes(s, suffixes[..])
  {
    var n := |s|;
    suffixes := new string[n];
    for i := 0 to n
      invariant forall k :: 0 <= k < i ==> suffixes[k] == s[k..]
    {
      suffixes[i] := s[i..n];
    }
    assert suffixes[..] == Suffixes(s);
    Quick3String.Sort(suffixes);
  }

  /**
   * The scan's state after the neighbours before i: none of them shares more than |lrs|
   * characters, and a non-empty lrs came from the earliest that share that many.
   */
  ghost predicate Scanned(t: seq<string>, i: int, m: int, lrs: string)
  {
    0 <= i && (i == 0 || i < |t|)
    && (forall k :: 0 <= k < i ==> StringOrder.Lcp(t[k], t[k + 1]) <= |lrs|)
    && (|lrs| > 0 ==> Earliest(t, m, i, lrs))
  }

  /** One round of the scan: a strictly longer common prefix replaces lrs, any other leaves it. */
  lemma ScanStep(t: seq<string>, i: int, m: int, lrs: string, len: int)
    requires Scanned(t, i, m, lrs) && i + 1 < |t| && len == StringOrder.Lcp(t[i], t[i + 1])
    ensures len > |lrs| ==> Scanned(t, i + 1, i, t[i][..len])
    ensures len <= |lrs| ==> Scanned(t, i + 1, m, lrs)
  {
    if len > |lrs| {
      Longer(t, i, m, lrs, len);
    } else {
      assert forall k :: 0 <= k < i + 1 ==> StringOrder.Lcp(t[k], t[k + 1]) <= |lrs|;
      assert |lrs| > 0 ==> Earliest(t, m, i + 1, lrs);
    }
  }

  /** A strictly longer common prefix at i starts a new record there. */
  lemma Longer(t: seq<string>, i: int, m: int, lrs: string, len: int)
    requires Scanned(t, i, m, lrs) && i + 1 < |t| && len == StringOrder.Lcp(t[i], t[i + 1]) && len > |lrs|
    ensures Scanned(t, i + 1, i, t[i][..len])
  {
    var x := t[i][..len];
    assert |x| == len;
    forall k | 0 <= k < i
      ensures StringOrder.Lcp(t[k], t[k + 1]) < len
    {
      assert StringOrder.Lcp(t[k], t[k + 1]) <= |lrs|;
    }
    assert Earliest(t, i, i + 1, x);
  }

  /** What the scan leaves, lrs and the place m it came from, answers find's promises. */
  lemma Conclude(s: string, t: seq<string>, i: int, m: int, lrs: string)
    requires SortedSuffixes(s, t) && Scanned(t, i, m, lrs) && i + 1 >= |t|
    ensures |lrs| > 0 ==> Repeated(s, lrs)
    ensures forall x :: Repeated(s, x) ==> |x| <= |lrs|
    ensures forall x :: Repeated(s, x) && |x| == |lrs| ==> LexLeq(lrs, x)
  {
    if |lrs| > 0 {
      AdjacentRepeated(s, t, m, |lrs|);
    }
    forall x | Repeated(s, x)
      ensures |x| <= |lrs|
      ensures |x| == |lrs| ==> LexLeq(lrs, x)
    {
      if |x| > 0 {
        var p := Neighbours(s, t, x);
        if |x| == |lrs| {
          Least(t, m, p, |lrs|);
        }
      } else if |lrs| == 0 {
        assert x == lrs;
      }
    }
  }

  /**
   * lrs is the prefix of length |lrs| of t[m], the neighbours m and m + 1 share exactly that
   * many characters, and no earlier neighbours share as many.
   */
  ghost predicate Earliest(t: seq<string>, m: int, i: int, lrs: string)
  {
    0 <= m < i && m + 1 < |t| && StringOrder.Lcp(t[m], t[m + 1]) == |lrs| && lrs == t[m][..|lrs|]
    && forall k :: 0 <= k < m ==> StringOrder.Lcp(t[k], t[k + 1]) < |lrs|
  }

  /** Each entry of the sorted suffix array is the suffix starting at some position. */
  lemma StartOf(s: string, t: seq<string>, p: int) returns (i: int)
    requires SortedSuffixes(s, t) && 0 <= p < |t|
    ensures 0 <= i < |s| && t[p] == s[i..]
  {
    var u := Suffixes(s);
    assert t[p] in multiset(u);
    var k :| 0 <= k < |u| && u[k] == t[p];
    i := k;
  }

  /** Each suffix has a place in the sorted suffix array. */
  lemma PlaceOf(s: string, t: seq<string>, i: int) returns (p: int)
    requires SortedSuffixes(s, t) && 0 <= i < |s|
    ensures 0 <= p < |t| && t[p] == s[i..]
  {
    var u := Suffixes(s);
    assert u[i] in multiset(t);
    var k :| 0 <= k < |t| && t[k] == u[i];
    p := k;
  }

  /** The suffixes of s are all different, so each is counted once. */
  lemma {:induction false} CountedOnce(s: string, n: nat)
    requires n <= |s|
    ensures forall y :: multiset(Suffixes(s)[..n])[y] <= 1
  {
    if n > 0 {
      var u := Suffixes(s);
      CountedOnce(s, n - 1);
      assert u[..n] == u[..n - 1] + [u[n - 1]];
      var front := u[..n - 1];
      assert u[n - 1] !in front by {
        forall k | 0 <= k < |front|
          ensures front[k] != u[n - 1]
        {
          assert |u[k]| != |u[n - 1]|;
        }
      }
    }
  }

  /** Two places of the sorted suffix array hold different suffixes. */
  lemma Apart(s: string, t: seq<string>, p: int, q: int)
    requires SortedSuffixes(s, t) && 0 <= p < q < |t|
    ensures t[p] != t[q]
  {
    CountedOnce(s, |s|);
    assert Suffixes(s)[..|s|] == Suffixes(s);
    assert multiset(t)[t[p]] <= 1;
    assert t == t[..q] + t[q..];
    assert t[p] == t[..q][p] && t[q] == t[q..][0];
    assert multiset(t) == multiset(t[..q]) + multiset(t[q..]);
    assert multiset(t[..q])[t[p]] >= 1;
  }

  /** The common prefix of two neighbours, up to its full length, occurs twice in s. */
  lemma AdjacentRepeated(s: string, t: seq<string>, m: int, len: int)
    requires SortedSuffixes(s, t) && 0 <= m && m + 1 < |t| && 0 <= len <= StringOrder.Lcp(t[m], t[m + 1])
    ensures Repeated(s, t[m][..len])
  {
    var i := StartOf(s, t, m);
    var j := StartOf(s, t, m + 1);
    Apart(s, t, m, m + 1);
    var n := StringOrder.Lcp(t[m], t[m + 1]);
    assert t[m][..len] == t[m][..n][..len] && t[m + 1][..len] == t[m + 1][..n][..len];
    TwoStarts(s, i, j, t[m][..len]);
  }

  /** A string that starts both the suffix at i and the suffix at j, for i != j, occurs twice. */
  lemma TwoStarts(s: string, i: int, j: int, x: string)
    requires 0 <= i < |s| && 0 <= j < |s| && i != j
    requires |x| <= |s| - i && |x| <= |s| - j && s[i..][..|x|] == x && s[j..][..|x|] == x
    ensures Repeated(s, x)
  {
    assert s[i..i + |x|] == s[i..][..|x|] && s[j..j + |x|] == s[j..][..|x|];
    if i < j {
      assert 0 <= i < j && OccursAt(s, x, i) && OccursAt(s, x, j);
    } else {
      assert 0 <= j < i && OccursAt(s, x, j) && OccursAt(s, x, i);
    }
  }

  /** A string between two that share their first L characters shares them too. */
  lemma Between(x: string, y: string, z: string, L: int)
    requires LexLeq(x, y) && LexLeq(y, z)
    requires 0 <= L <= |x| && L <= |z| && x[..L] == z[..L]
    ensures StringOrder.Lcp(x, y) >= L
  {
    var n := StringOrder.Lcp(x, y);
    if n < L {
      LexAtLcp(x, y);
      assert z[..n] == x[..n] && z[n] == x[n];
      assert x[n] < y[n] by {
        assert x != y;
      }
      LexLessAt(z, y, n);
      LexTotal(y, z);
      assert false;
    }
  }

  /** Every repeated substring is a common prefix of some neighbours of the sorted suffix array. */
  lemma Neighbours(s: string, t: seq<string>, x: string) returns (p: int)
    requires SortedSuffixes(s, t) && Repeated(s, x) && |x| > 0
    ensures 0 <= p && p + 1 < |t| && StringOrder.Lcp(t[p], t[p + 1]) >= |x| && x == t[p][..|x|]
  {
    var q;
    p, q := TwoPlaces(s, t, x);
    assert LexLeq(t[p], t[p + 1]);
    assert LexLeq(t[p + 1], t[q]) by {
      if p + 1 < q {
        assert LexLeq(t[p + 1], t[q]);
      }
    }
    Between(t[p], t[p + 1], t[q], |x|);
  }

  /** A repeated substring starts two different places of the sorted suffix array. */
  lemma TwoPlaces(s: string, t: seq<string>, x: string) returns (p: int, q: int)
    requires SortedSuffixes(s, t) && Repeated(s, x) && |x| > 0
    ensures 0 <= p < q < |t| && |x| <= |t[p]| && |x| <= |t[q]| && t[p][..|x|] == x && t[q][..|x|] == x
  {
    var i, j :| 0 <= i < j && OccursAt(s, x, i) && OccursAt(s, x, j);
    var a := PlaceOf(s, t, i);
    var b := PlaceOf(s, t, j);
    assert s[i..][..|x|] == s[i..i + |x|] && s[j..][..|x|] == s[j..j + |x|];
    assert a != b;
    if a < b {
      p, q := a, b;
    } else {
      p, q := b, a;
    }
  }

  /** Order between strings of at least L characters is order between their first L characters. */
  lemma PrefixOrder(x: string, y: string, L: int)
    requires LexLeq(x, y) && 0 <= L <= |x| && L <= |y|
    ensures LexLeq(x[..L], y[..L])
  {
    var n := StringOrder.Lcp(x, y);
    if n < L {
      LexAtLcp(x, y);
      assert x != y;
      assert x[..L][..n] == x[..n] && y[..L][..n] == y[..n];
      LexLessAt(x[..L], y[..L], n);
    } else {
      assert x[..L] == x[..n][..L] && y[..L] == y[..n][..L];
    }
  }

  /** The earliest neighbours sharing L characters give the least common prefix of that length. */
  lemma Least(t: seq<string>, m: int, p: int, L: int)
    requires 0 < L && 0 <= m && m + 1 < |t| && p + 1 < |t| && forall i, j :: 0 <= i < j < |t| ==> LexLeq(t[i], t[j])
    requires StringOrder.Lcp(t[m], t[m + 1]) == L && forall k :: 0 <= k < m ==> StringOrder.Lcp(t[k], t[k + 1]) < L
    requires 0 <= p && StringOrder.Lcp(t[p], t[p + 1]) >= L
    ensures LexLeq(t[m][..L], t[p][..L])
  {
    if m < p {
      PrefixOrder(t[m], t[p], L);
    }
  }
}
