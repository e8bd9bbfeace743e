// SuffixArray (strings/suffix-array): the suffixes of a text sorted by
// Suffix.compareTo, which is the lexicographic order of StringOrder. index,
// select and lcp read the sorted array and throw outside their ranges; rank
// binary-searches it for a query. As written, rank's midpoint
// `lo + (hi - lo) / 2` is not floored: whenever hi - lo is odd it is a fraction,
// `suffixes[mid]` is undefined and compare throws on it.
module SuffixArrays {
  import opened Common
  import opened StringOrder

  /** The suffix of text that starts at index. */
  datatype Suffix = Suffix(text: string, index: int)

  predicate ValidSuffix(s: Suffix)
  {
    0 <= s.index <= |s.text|
  }

  /** length(): the number of characters from index to the end of text. */
  function Length(s: Suffix): int
  {
    |s.text| - s.index
  }

  /** toString(): text.substring(index). */
  function Str(s: Suffix): (r: string)
    requires ValidSuffix(s)
    ensures |r| == Length(s)
  {
    s.text[s.index..]
  }

  /** charAt(i): the character at index + i of text, or '' past either end. */
  function CharAt(s: Suffix, i: int): (r: string)
    requires ValidSuffix(s)
    ensures 0 <= i < Length(s) ==> r == [Str(s)[i]] && r == [s.text[s.index + i]]
    ensures i < 0 || i >= Length(s) ==> r == ""
  {
    if 0 <= s.index + i < |s.text| && i >= 0 then [s.text[s.index + i]] else ""
  }

  function Min(a: int, b: int): int
  {
    if a <= b then a else b
  }

  /** Two strings first differing at i, where a has the smaller code: a comes first, and they differ. */
  lemma FirstDifference(a: string, b: string, i: int)
    requires 0 <= i < |a| && i < |b| && a[..i] == b[..i] && a[i] < b[i]
    ensures LexLess(a, b) && !LexLess(b, a) && a != b
  {
    LexLessAt(a, b, i);
    LexTotal(a, b);
  }

  /** Two strings that agree on their common length are ordered by their lengths. */
  lemma ByLength(a: string, b: string)
    requires a[..Min(|a|, |b|)] == b[..Min(|a|, |b|)]
    ensures LexLess(a, b) <==> |a| < |b|
    ensures LexLess(b, a) <==> |b| < |a|
    ensures a == b <==> |a| == |b|
  {
    LexTotal(a, b);
    if |a| < |b| {
      LexLessAt(a, b, |a|);
    } else if |b| < |a| {
      LexLessAt(b, a, |b|);
    } else {
      assert a == a[..|a|] && b == b[..|b|];
      LexIrreflexive(a);
    }
  }

  /** Suffix.compareTo: negative, zero or positive as this suffix comes before, equals or comes after that one. */
  method CompareTo(x: Suffix, y: Suffix) returns (r: int)
    requires ValidSuffix(x) && ValidSuffix(y)
    ensures r < 0 <==> LexLess(Str(x), Str(y))
    ensures r > 0 <==> LexLess(Str(y), Str(x))
    ensures r == 0 <==> Str(x) == Str(y)
  {
    if x == y {
      LexIrreflexive(Str(x));
      return 0;
    }
    var n := Min(Length(x), Length(y));
    for i := 0 to n
      invariant Str(x)[..i] == Str(y)[..i]
    {
      var a, b := CharAt(x, i), CharAt(y, i);
      if a[0] < b[0] {
        FirstDifference(Str(x), Str(y), i);
        return -1;
      }
      if a[0] > b[0] {
        FirstDifference(Str(y), Str(x), i);
        return 1;
      }
      assert Str(x)[..i + 1] == Str(x)[..i] + [a[0]] && Str(y)[..i + 1] == Str(y)[..i] + [b[0]];
    }
    ByLength(Str(x), Str(y));
    return Length(x) - Length(y);
  }

  /** compare(query, suffix): negative, zero or positive as query comes before, equals or comes after the suffix. */
  method CompareQuery(query: string, y: Suffix) returns (r: int)
    requires ValidSuffix(y)
    ensures r < 0 <==> LexLess(query, Str(y))
    ensures r > 0 <==> LexLess(Str(y), query)
    ensures r == 0 <==> query == Str(y)
  {
    var n := Min(|query|, Length(y));
    for i := 0 to n
      invariant query[..i] == Str(y)[..i]
    {
      var b := CharAt(y, i);
      if query[i] < b[0] {
        FirstDifference(query, Str(y), i);
        return -1;
      }
      if query[i] > b[0] {
        FirstDifference(Str(y), query, i);
        return 1;
      }
      assert query[..i + 1] == query[..i] + [query[i]] && Str(y)[..i + 1] == Str(y)[..i] + [b[0]];
    }
    ByLength(query, Str(y));
    return |query| - Length(y);
  }

  /** lcpSuffix(s, t): the length of the longest common prefix of the two suffixes. */
  method LcpSuffix(s: Suffix, t: Suffix) returns (r: int)
    requires ValidSuffix(s) && ValidSuffix(t)
    ensures r == Lcp(Str(s), Str(t))
  {
    var n := Min(Length(s), Length(t));
    for i := 0 to n
      invariant Str(s)[..i] == Str(t)[..i]
    {
      if CharAt(s, i) != CharAt(t, i) {
        LcpIs(Str(s), Str(t), i);
        return i;
      }
      assert Str(s)[..i + 1] == Str(s)[..i] + [Str(s)[i]] && Str(t)[..i + 1] == Str(t)[..i] + [Str(t)[i]];
    }
    LcpIs(Str(s), Str(t), n);
    return n;
  }

  /** A position up to which two strings agree and where they differ or one ends is their common-prefix length. */
  lemma {:induction false} LcpIs(a: string, b: string, k: int)
    requires 0 <= k <= |a| && k <= |b| && a[..k] == b[..k]
    requires k == |a| || k == |b| || a[k] != b[k]
    ensures Lcp(a, b) == k
  {
    if k > 0 {
      assert a[0] == a[..k][0] && b[0] == b[..k][0];
      assert a[1..][..k - 1] == a[..k][1..] && b[1..][..k - 1] == b[..k][1..];
      LcpIs(a[1..], b[1..], k - 1);
    }
  }

  /** x is a suffix of text that starts at one of its characters. */
  predicate SuffixOf(x: Suffix, text: string)
  {
    x.text == text && 0 <= x.index < |text|
  }

  /** Every element is a suffix of text. */
  ghost predicate SuffixesOf(s: seq<Suffix>, text: string)
  {
    forall i :: 0 <= i < |s| ==> SuffixOf(s[i], text)
  }

  /** Every earlier suffix comes before or equals every later one. */
  ghost predicate SortedSuffixes(s: seq<Suffix>, text: string)
    requires SuffixesOf(s, text)
  {
    forall i, j :: 0 <= i < j < |s| ==> LexLeq(Str(s[i]), Str(s[j]))
  }

  /** Every suffix of s comes at or after lower. */
  ghost predicate AllAtLeast(s: seq<Suffix>, text: string, lower: string)
    requires SuffixesOf(s, text)
  {
    forall i :: 0 <= i < |s| ==> LexLeq(lower, Str(s[i]))
  }

  /** The n suffixes of text in order of their start index, as the constructor's loop fills them. */
  function AllSuffixes(text: string): (s: seq<Suffix>)
    ensures |s| == |text| && SuffixesOf(s, text)
    ensures forall i :: 0 <= i < |s| ==> s[i].index == i
  {
    seq(|text|, i => Suffix(text, i))
  }

  /** x placed before the first suffix of s that it does not follow. */
  function InsertSuffix(x: Suffix, s: seq<Suffix>, ghost text: string): (r: seq<Suffix>)
    requires SuffixOf(x, text) && SuffixesOf(s, text)
    ensures SuffixesOf(r, text) && multiset(r) == multiset(s) + multiset{x}
  {
    if |s| == 0 then [x]
    else if LexLeq(Str(x), Str(s[0])) then [x] + s
    else
      var rest := InsertSuffix(x, s[1..], text);
      assert s == [s[0]] + s[1..];
      [s[0]] + rest
  }

  /**
   * The sort that `Array.prototype.sort(Suffix.sort)` performs, carried out as an insertion sort:
   * only its result matters, a sorted permutation.
   */
  function SortSuffixes(s: seq<Suffix>, ghost text: string): (r: seq<Suffix>)
    requires SuffixesOf(s, text)
    ensures SuffixesOf(r, text) && multiset(r) == multiset(s)
  {
    if |s| == 0 then []
    else
      assert s == [s[0]] + s[1..];
      InsertSuffix(s[0], SortSuffixes(s[1..], text), text)
  }

  /** A lower bound of x and of every suffix of s bounds the insertion. */
  lemma {:induction false} InsertAtLeast(x: Suffix, s: seq<Suffix>, text: string, lower: string)
    requires SuffixOf(x, text) && SuffixesOf(s, text)
    requires AllAtLeast(s, text, lower) && LexLeq(lower, Str(x))
    ensures AllAtLeast(InsertSuffix(x, s, text), text, lower)
  {
    if |s| > 0 && !LexLeq(Str(x), Str(s[0])) {
      InsertAtLeast(x, s[1..], text, lower);
    }
  }

  /** Inserting into a sorted list keeps it sorted. */
  lemma {:induction false} InsertSorted(x: Suffix, s: seq<Suffix>, text: string)
    requires SuffixOf(x, text) && SuffixesOf(s, text) && SortedSuffixes(s, text)
    ensures SortedSuffixes(InsertSuffix(x, s, text), text)
  {
    var r := InsertSuffix(x, s, text);
    if |s| == 0 {
    } else if LexLeq(Str(x), Str(s[0])) {
      forall j | 0 < j < |r|
        ensures LexLeq(Str(r[0]), Str(r[j]))
      {
        LeqTrans(Str(x), Str(s[0]), Str(s[j - 1]));
      }
    } else {
      var rest := InsertSuffix(x, s[1..], text);
      InsertSorted(x, s[1..], text);
      LexTotal(Str(x), Str(s[0]));
      InsertAtLeast(x, s[1..], text, Str(s[0]));
      assert r == [s[0]] + rest;
    }
  }

  /** The sort leaves a sorted list. */
  lemma {:induction false} SortSorted(s: seq<Suffix>, text: string)
    requires SuffixesOf(s, text)
    ensures SortedSuffixes(SortSuffixes(s, text), text)
  {
    if |s| > 0 {
      SortSorted(s[1..], text);
      InsertSorted(s[0], SortSuffixes(s[1..], text), text);
    }
  }

  /** Two different suffixes of one text have different lengths, so different strings. */
  lemma DistinctSuffixes(x: Suffix, y: Suffix)
    requires ValidSuffix(x) && ValidSuffix(y) && x.text == y.text && x.index != y.index
    ensures Str(x) != Str(y)
  {
  }

  /** The suffix array: the suffixes of text, sorted. */
  class SuffixArray {
    ghost const text: string
    var suffixes: seq<Suffix>

    /** suffixes holds each suffix of text once, in ascending order. */
    ghost predicate Valid()
      reads this
    {
      SuffixesOf(suffixes, text) && multiset(suffixes) == multiset(AllSuffixes(text)) &&
      SortedSuffixes(suffixes, text)
    }

    /** constructor(text): one suffix per start index, then sorted. */
    constructor(text: string)
      ensures Valid() && this.text == text && |suffixes| == |text|
    {
      this.text := text;
      var n := |text|;
      var all: seq<Suffix> := [];
      for i := 0 to n
        invariant all == AllSuffixes(text)[..i]
      {
        all := all + [Suffix(text, i)];
      }
      assert all == AllSuffixes(text);
      SortSorted(all, text);
      suffixes := SortSuffixes(all, text);
      new;
      assert |multiset(suffixes)| == |multiset(all)|;
    }

    /** length(): the number of suffixes, one per character of text. */
    function Count(): (r: int)
      reads this
      requires Valid()
      ensures r == |text|
    {
      assert |multiset(suffixes)| == |multiset(AllSuffixes(text))|;
      |suffixes|
    }

    /** index(i): where the i-th smallest suffix starts; throws outside [0, n). */
    function Index(i: int): (r: Result<int, string>)
      reads this
      requires Valid()
      ensures r.Err? <==> i < 0 || i >= |text|
      ensures r.Ok? ==> 0 <= i < |suffixes| && r.value == suffixes[i].index && 0 <= r.value < |text|
    {
      assert Count() == |suffixes|;
      if i < 0 || i >= |suffixes| then Err("IllegalArgumentException")
      else Ok(suffixes[i].index)
    }

    /** select(i): the i-th smallest suffix itself, text from index(i) on; throws outside [0, n). */
    function Select(i: int): (r: Result<string, string>)
      reads this
      requires Valid()
      ensures r.Err? <==> i < 0 || i >= |text|
      ensures r.Ok? ==> Index(i).Ok? && r.value == text[Index(i).value..]
    {
      assert Count() == |suffixes|;
      if i < 0 || i >= |suffixes| then Err("IllegalArgumentException")
      else Ok(Str(suffixes[i]))
    }

    /** select is strictly ascending: each suffix comes before the next. */
    lemma SelectAscending(i: int)
      requires Valid() && 0 < i < |text|
      ensures LexLess(Select(i - 1).value, Select(i).value)
    {
      assert Count() == |suffixes|;
      assert LexLeq(Str(suffixes[i - 1]), Str(suffixes[i]));
      IndicesDistinct(i - 1, i);
    }

    /** No start index appears twice. */
    lemma IndicesDistinct(i: int, j: int)
      requires Valid() && 0 <= i < j < |suffixes|
      ensures suffixes[i].index != suffixes[j].index
    {
      if suffixes[i].index == suffixes[j].index {
        TwiceCounted(suffixes, i, j);
        AtMostOnce(AllSuffixes(text));
        assert false;
      }
    }

    /** lcp(i): the common-prefix length of the i-th and (i-1)-th smallest suffixes; throws outside [1, n). */
    method LcpAt(i: int) returns (r: Result<int, string>)
      requires Valid()
      ensures r.Err? <==> i < 1 || i >= |text|
      ensures r.Ok? ==> r.value == Lcp(Select(i).value, Select(i - 1).value)
    {
      assert Count() == |suffixes|;
      if i < 1 || i >= |suffixes| {
        return Err("IllegalArgumentException");
      }
      var n := LcpSuffix(suffixes[i], suffixes[i - 1]);
      return Ok(n);
    }

    /**
     * rank(query) with the midpoint floored: the position of a suffix equal to query, or else the
     * number of suffixes that come before query.
     */
    method Rank(query: string) returns (r: int)
      requires Valid()
      ensures 0 <= r <= |text|
      ensures (r < |text| && Select(r).value == query) ||
        ((forall k :: 0 <= k < r ==> LexLess(Select(k).value, query)) &&
         (forall k :: r <= k < |text| ==> LexLess(query, Select(k).value)))
    {
      assert Count() == |suffixes|;
      var lo, hi := 0, |suffixes| - 1;
      while lo <= hi
        invariant RankBounds(query, lo, hi)
        decreases hi - lo
      {
        var mid := lo + (hi - lo) / 2;
        var cmp := CompareQuery(query, suffixes[mid]);
        if cmp < 0 {
          RankBelow(query, lo, hi, mid);
          hi := mid - 1;
        } else if cmp > 0 {
          RankAbove(query, lo, hi, mid);
          lo := mid + 1;
        } else {
          return mid;
        }
      }
      return lo;
    }

    /**
     * rank(query) as written: `lo + (hi - lo) / 2` is a fraction when hi - lo is odd, and compare then
     * throws on the undefined `suffixes[mid]`. On a text of even length the very first midpoint is one.
     */
    method RankAsWritten(query: string) returns (r: Result<int, string>)
      requires Valid()
      ensures |text| >= 2 && |text| % 2 == 0 ==> r.Err?
      ensures r.Ok? ==> 0 <= r.value <= |text|
      ensures r.Ok? ==>
        ((r.value < |text| && Select(r.value).value == query) ||
         ((forall k :: 0 <= k < r.value ==> LexLess(Select(k).value, query)) &&
          (forall k :: r.value <= k < |text| ==> LexLess(query, Select(k).value))))
    {
      assert Count() == |suffixes|;
      var lo, hi := 0, |suffixes| - 1;
      while lo <= hi
        invariant RankBounds(query, lo, hi)
        invariant |text| >= 2 && |text| % 2 == 0 ==> lo == 0 && hi == |text| - 1
        decreases hi - lo
      {
        if (hi - lo) % 2 == 1 {
          return Err("TypeError");
        }
        var mid := lo + (hi - lo) / 2;
        var cmp := CompareQuery(query, suffixes[mid]);
        if cmp < 0 {
          RankBelow(query, lo, hi, mid);
          hi := mid - 1;
        } else if cmp > 0 {
          RankAbove(query, lo, hi, mid);
          lo := mid + 1;
        } else {
          return Ok(mid);
        }
      }
      return Ok(lo);
    }

    /** The binary search's window: everything left of lo comes before query, everything right of hi after it. */
    ghost predicate RankBounds(query: string, lo: int, hi: int)
      reads this
    {
      && Valid() && 0 <= lo <= hi + 1 <= |suffixes|
      && (forall k :: 0 <= k < lo ==> LexLess(Str(suffixes[k]), query))
      && (forall k :: hi < k < |suffixes| ==> LexLess(query, Str(suffixes[k])))
    }

    /** query before suffixes[mid]: the window shrinks to [lo, mid - 1]. */
    lemma RankBelow(query: string, lo: int, hi: int, mid: int)
      requires RankBounds(query, lo, hi) && lo <= mid <= hi && LexLess(query, Str(suffixes[mid]))
      ensures RankBounds(query, lo, mid - 1)
    {
      forall k | mid - 1 < k < |suffixes|
        ensures LexLess(query, Str(suffixes[k]))
      {
        if k > mid && Str(suffixes[mid]) != Str(suffixes[k]) {
          LexTrans(query, Str(suffixes[mid]), Str(suffixes[k]));
        }
      }
    }

    /** query after suffixes[mid]: the window shrinks to [mid + 1, hi]. */
    lemma RankAbove(query: string, lo: int, hi: int, mid: int)
      requires RankBounds(query, lo, hi) && lo <= mid <= hi && LexLess(Str(suffixes[mid]), query)
      ensures RankBounds(query, mid + 1, hi)
    {
      forall k | 0 <= k < mid + 1
        ensures LexLess(Str(suffixes[k]), query)
      {
        if k < mid && Str(suffixes[k]) != Str(suffixes[mid]) {
          LexTrans(Str(suffixes[k]), Str(suffixes[mid]), query);
        }
      }
    }
  }

  /** An element at two positions is counted at least twice. */
  lemma TwiceCounted(s: seq<Suffix>, i: int, j: int)
    requires 0 <= i < j < |s| && s[i] == s[j]
    ensures multiset(s)[s[i]] >= 2
  {
    assert s == s[..j] + s[j..];
    assert s[i] in s[..j] && s[j] in s[j..];
    assert multiset(s) == multiset(s[..j]) + multiset(s[j..]);
  }

  /** A sequence whose elements record their own positions holds each element at most once. */
  lemma {:induction false} AtMostOnce(all: seq<Suffix>)
    requires forall i :: 0 <= i < |all| ==> all[i].index == i
    ensures forall y :: multiset(all)[y] <= 1
  {
    var n := |all|;
    if n > 0 {
      var front := all[..n - 1];
      AtMostOnce(front);
      assert all == front + [all[n - 1]];
      assert all[n - 1] !in front by {
        assert forall i :: 0 <= i < |front| ==> front[i].index == i;
      }
    }
  }
}
