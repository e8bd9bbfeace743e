// Substring (strings/substring-search): brute-force substring search, and the
// leftmost-occurrence specification that KMP and Boyer-Moore are also held to.
// A search returns the leftmost position where the pattern occurs in the text,
// or the text's length n when it occurs nowhere.
module Substring {

  /** The pattern p occurs in the text t starting at position i. */
  ghost predicate MatchAt(p: string, t: string, i: int)
  {
    0 <= i && i + |p| <= |t| && t[i..i + |p|] == p
  }

  /**
   * The leftmost occurrence of p in t at or after i, or |t| when there is none from i on.
   */
  ghost function FirstFrom(p: string, t: string, i: nat): (r: int)
    ensures i <= r <= |t| || (i > |t| && r == |t|)
    ensures MatchAt(p, t, r) || (r == |t| && forall k :: i <= k ==> !MatchAt(p, t, k))
    ensures forall k :: i <= k < r ==> !MatchAt(p, t, k)
    decreases |t| - i
  {
    if i + |p| > |t| then |t|
    else if t[i..i + |p|] == p then i
    else FirstFrom(p, t, i + 1)
  }

  /** The leftmost occurrence of p in t, or |t| when there is none. */
  ghost function FirstMatch(p: string, t: string): (r: int)
    ensures 0 <= r <= |t|
    ensures MatchAt(p, t, r) || (r == |t| && forall k :: !MatchAt(p, t, k))
    ensures forall k :: 0 <= k < r ==> !MatchAt(p, t, k)
  {
    FirstFrom(p, t, 0)
  }

  /** An occurrence with none before it is the leftmost one. */
  lemma {:induction false} FirstIs(p: string, t: string, r: int)
    requires MatchAt(p, t, r) && forall k :: 0 <= k < r ==> !MatchAt(p, t, k)
    ensures FirstMatch(p, t) == r
  {
    var f := FirstMatch(p, t);
    assert f < r ==> !MatchAt(p, t, f);
    assert f > r ==> !MatchAt(p, t, r);
  }

  /** With no occurrence anywhere the answer is the text's length. */
  lemma {:induction false} NoneIs(p: string, t: string)
    requires forall k :: 0 <= k <= |t| - |p| ==> !MatchAt(p, t, k)
    ensures FirstMatch(p, t) == |t|
  {
    var f := FirstMatch(p, t);
    assert f < |t| ==> MatchAt(p, t, f);
  }

  /** A pattern longer than the text occurs nowhere, so the answer is the text's length. */
  lemma LongPattern(p: string, t: string)
    requires |p| > |t|
    ensures FirstMatch(p, t) == |t|
  {
    NoneIs(p, t);
  }

  /** The empty pattern occurs at 0. */
  lemma EmptyPattern(t: string)
    ensures FirstMatch([], t) == 0
  {
    assert MatchAt([], t, 0);
    FirstIs([], t, 0);
  }

  /**
   * search(pattern, text): tries each start i <= n - m in turn and compares character by
   * character, returning the first start where all m characters agree, or n.
   */
  method Search(pattern: string, text: string) returns (r: int)
    ensures r == FirstMatch(pattern, text)
    ensures r < |text| ==> forall j :: 0 <= j < |pattern| ==> pattern[j] == text[r + j]
  {
    var n := |text|;
    var m := |pattern|;
    var i := 0;
    while i <= n - m
      invariant 0 <= i
      invariant forall k :: 0 <= k < i ==> !MatchAt(pattern, text, k)
    {
      var j := 0;
      while j < m
        invariant 0 <= j <= m
        invariant text[i..i + j] == pattern[..j]
      {
        if text[i + j] != pattern[j] {
          break;
        }
        assert text[i..i + j + 1] == text[i..i + j] + [text[i + j]];
        assert pattern[..j + 1] == pattern[..j] + [pattern[j]];
        j := j + 1;
      }
      if j == m {
        assert MatchAt(pattern, text, i);
        FirstIs(pattern, text, i);
        MatchChars(pattern, text, i);
        return i;
      }
      assert text[i..i + m][j] == text[i + j] != pattern[j];
      i := i + 1;
    }
    NoneIs(pattern, text);
    return n;
  }

  /** An occurrence agrees with the pattern character by character. */
  lemma MatchChars(p: string, t: string, r: int)
    requires MatchAt(p, t, r)
    ensures forall j :: 0 <= j < |p| ==> p[j] == t[r + j]
  {
    forall j | 0 <= j < |p|
      ensures p[j] == t[r + j]
    {
      assert t[r..r + |p|][j] == t[r + j];
    }
  }
}
