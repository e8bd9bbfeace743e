// BoyerMoore (strings/boyer-moore-substring-search): Boyer-Moore search with
// the bad-character rule only. right[c] is the last position of character c
// in the pattern, or -1; the search compares the pattern right to left
// against the text at each alignment i and, on a mismatch at j, moves the
// alignment on by j - right[c] for the text character c, at least 1.
//
// As written, the scan compares the pattern with itself (pattern position
// i + j instead of the text) and caps the skip at 1 instead of raising it to
// 1. SearchAsWritten models those two lines and shows that the search then
// answers 0 whenever the pattern is no longer than the text; the class's
// Search is the corrected algorithm.
module BoyerMoore {
  import opened Common
  import opened Substring

  /** The alphabet: extended ASCII character codes. */
  const R := 256

  /** Every character of s has a code below R. */
  ghost predicate Extended(s: string)
  {
    forall k :: 0 <= k < |s| ==> s[k] as int < R
  }

  /** The last position of the character with code c in p, or -1 when there is none. */
  ghost function LastOf(p: string, c: int): (r: int)
    ensures -1 <= r < |p|
    ensures r >= 0 ==> p[r] as int == c
    ensures forall k :: r < k < |p| ==> p[k] as int != c
  {
    if |p| == 0 then -1
    else if p[|p| - 1] as int == c then |p| - 1
    else LastOf(p[..|p| - 1], c)
  }

  class BoyerMoore {
    const pattern: string
    const right: array<int>

    /** The skip table the constructor builds: one entry per code, the last position of that code in the pattern. */
    ghost predicate Valid()
      reads right
    {
      right.Length == R && forall c :: 0 <= c < R ==> right[c] == LastOf(pattern, c)
    }

    /** Fills the table with -1, then records each pattern position from left to right, so the last one stays. */
    constructor (pattern: string)
      requires Extended(pattern)
      ensures this.pattern == pattern && Valid()
    {
      this.pattern := pattern;
      var t := new int[R](_ => -1);
      for j := 0 to |pattern|
        invariant forall c :: 0 <= c < R ==> t[c] == LastOf(pattern[..j], c)
      {
        LastOfSnoc(pattern, j);
        t[pattern[j] as int] := j;
      }
      assert pattern[..|pattern|] == pattern;
      this.right := t;
    }

    /** Appending p[j] to p[..j] makes j the last position of its code and leaves the others. */
    static lemma LastOfSnoc(p: string, j: int)
      requires 0 <= j < |p|
      ensures forall c :: LastOf(p[..j + 1], c) == if p[j] as int == c then j else LastOf(p[..j], c)
    {
      var s := p[..j + 1];
      assert s[..j] == p[..j] && s[j] == p[j];
      forall c
        ensures LastOf(s, c) == if p[j] as int == c then j else LastOf(p[..j], c)
      {
      }
    }

    /** right[c] is -1 exactly for codes absent from the pattern, otherwise the largest j with pattern[j] = c; every entry lies in [-1, m). */
    lemma RightTable(c: int)
      requires Valid() && 0 <= c < R
      ensures -1 <= right[c] < |pattern|
      ensures right[c] == -1 <==> forall k :: 0 <= k < |pattern| ==> pattern[k] as int != c
      ensures right[c] >= 0 ==> pattern[right[c]] as int == c
      ensures forall k :: right[c] < k < |pattern| ==> pattern[k] as int != c
    {
    }

    /**
     * search(text), corrected: at each alignment i <= n - m, scan the pattern from the
     * right; a full agreement answers i, otherwise move on by the skip. Returns n when the
     * alignments run out.
     */
    method Search(text: string) returns (r: int)
      requires Valid() && Extended(text)
      ensures r == FirstMatch(pattern, text)
    {
      var n := |text|;
      var m := |pattern|;
      var i := 0;
      while i <= n - m
        invariant 0 <= i
        invariant forall k :: 0 <= k < i ==> !MatchAt(pattern, text, k)
        decreases n - m - i + 1
      {
        var skip := Scan(text, i);
        if skip == 0 {
          FirstIs(pattern, text, i);
          return i;
        }
        i := i + skip;
      }
      NoneIs(pattern, text);
      return n;
    }

    /**
     * The inner loop at alignment i: 0 when every pattern character agrees with the text;
     * otherwise, at the rightmost disagreement j over text character c, the skip
     * j - right[c], raised to 1, past which no occurrence is missed.
     */
    method Scan(text: string, i: int) returns (skip: int)
      requires Valid() && Extended(text) && 0 <= i && i + |pattern| <= |text|
      ensures skip >= 0
      ensures skip == 0 ==> MatchAt(pattern, text, i)
      ensures forall k :: i <= k < i + skip ==> !MatchAt(pattern, text, k)
    {
      var m := |pattern|;
      skip := 0;
      var j := m - 1;
      while j >= 0
        invariant -1 <= j < m
        invariant forall q :: j < q < m ==> pattern[q] == text[i + q]
      {
        if pattern[j] != text[i + j] {
          var c := text[i + j] as int;
          skip := j - right[c];
          if skip < 1 {
            skip := 1;
          }
          SkipSafe(pattern, text, i, j, right[c], skip);
          return;
        }
        j := j - 1;
      }
      assert text[i..i + m] == pattern;
    }

    /** No occurrence starts in [i, i + skip) after a mismatch at j over a character whose last pattern position is rc. */
    static lemma SkipSafe(p: string, t: string, i: int, j: int, rc: int, skip: int)
      requires 0 <= i && 0 <= j < |p| && i + |p| <= |t| && p[j] != t[i + j]
      requires rc == LastOf(p, t[i + j] as int)
      requires skip == (if j - rc < 1 then 1 else j - rc)
      ensures forall k :: i <= k < i + skip ==> !MatchAt(p, t, k)
    {
      forall k | i <= k < i + skip && k + |p| <= |t|
        ensures !MatchAt(p, t, k)
      {
        var q := i + j - k;
        if k > i {
          assert rc < q < j;
        }
        assert p[q] != t[i + j];
        assert t[k..k + |p|][q] == t[i + j];
      }
    }

    /** The as-written search on this object's table answers 0 whenever the pattern fits in the text. */
    lemma AsWrittenAnswer(text: string, fuel: nat)
      requires Valid()
      ensures SearchAsWritten(pattern, right[..], text, 0, fuel + 1) == Some(if |pattern| <= |text| then 0 else |text|)
    {
      AsWrittenAnswersZero(pattern, right[..], text, fuel);
    }
  }

  /** charCodeAt: the code at k, or -1 for JavaScript's NaN when k is outside s. */
  function CodeAt(s: string, k: int): (r: int)
    ensures r == -1 <==> !(0 <= k < |s|)
    ensures 0 <= k < |s| ==> r == s[k] as int
  {
    if 0 <= k < |s| then s[k] as int else -1
  }

  /**
   * The inner loop as written for alignment i, from position j down: pattern[j] is compared
   * with pattern[i + j], and a mismatch gives skip = j - right[text[i + j]], capped at 1.
   * None stands for a NaN skip, from a text position or code outside the table.
   */
  function ScanAsWritten(p: string, right: seq<int>, t: string, i: int, j: int): (r: Option<int>)
    requires -1 <= j < |p|
    ensures r.Some? ==> r.value <= 1
    decreases j + 1
  {
    if j < 0 then Some(0)
    else if p[j] as int != CodeAt(p, i + j) then
      var c := CodeAt(t, i + j);
      if c < 0 || c >= |right| then None
      else
        var skip := j - right[c];
        Some(if skip > 1 then 1 else skip)
    else ScanAsWritten(p, right, t, i, j - 1)
  }

  /**
   * The outer loop as written from alignment i, for at most fuel rounds (None when the fuel
   * runs out): a zero skip answers i, a NaN skip fails the loop test and answers n, and any
   * other skip, possibly negative, moves i.
   */
  function SearchAsWritten(p: string, right: seq<int>, t: string, i: int, fuel: nat): Option<int>
    decreases fuel
  {
    if !(i <= |t| - |p|) then Some(|t|)
    else if fuel == 0 then None
    else match ScanAsWritten(p, right, t, i, |p| - 1)
      case None => Some(|t|)
      case Some(skip) => if skip == 0 then Some(i) else SearchAsWritten(p, right, t, i + skip, fuel - 1)
  }

  /** At alignment 0 the pattern is compared with itself, so the scan never finds a mismatch. */
  lemma {:induction false} ScanAtZero(p: string, right: seq<int>, t: string, j: int)
    requires -1 <= j < |p|
    ensures ScanAsWritten(p, right, t, 0, j) == Some(0)
    decreases j + 1
  {
    if j >= 0 {
      ScanAtZero(p, right, t, j - 1);
    }
  }

  /** So the search as written answers 0 in its first round whenever the pattern fits, and n otherwise. */
  lemma AsWrittenAnswersZero(p: string, right: seq<int>, t: string, fuel: nat)
    ensures SearchAsWritten(p, right, t, 0, fuel + 1) == Some(if |p| <= |t| then 0 else |t|)
  {
    ScanAtZero(p, right, t, |p| - 1);
  }

  /** Pattern "b" in text "ab": the as-written search answers 0, but the only occurrence is at 1. */
  lemma AsWrittenMissesMatch(right: seq<int>)
    ensures SearchAsWritten("b", right, "ab", 0, 1) == Some(0)
    ensures FirstMatch("b", "ab") == 1
  {
    AsWrittenAnswersZero("b", right, "ab", 0);
    assert MatchAt("b", "ab", 1);
    assert "ab"[0..1] != "b";
    FirstIs("b", "ab", 1);
  }
}
