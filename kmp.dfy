// KMP (strings/kmp-substring-search): Knuth-Morris-Pratt search. The
// constructor fills `lps`, where lps[j] is the length of the longest proper
// prefix of pattern[0..j] that is also a suffix of it; search slides the
// pattern along the text and, on a mismatch after j matched characters,
// resumes with lps[j - 1] characters still matched instead of starting over.
// As written, search reads the module's constant `pattern` instead of this
// object's; SearchAsWritten models that loop, and KMP.Search the intended one.
module Kmp {
  import opened Common
  import opened Substring

  /** p[..k] is both a prefix and a suffix of p[..j]. */
  ghost predicate Border(p: string, j: int, k: int)
  {
    0 <= k <= j <= |p| && p[..k] == p[j - k..j]
  }

  /** k is the longest border of p[..j] shorter than p[..j] itself. */
  ghost predicate LongestBorder(p: string, j: int, k: int)
  {
    1 <= j && k < j && Border(p, j, k) && forall b :: k < b < j ==> !Border(p, j, b)
  }

  /** A border of a border is a border. */
  lemma BorderTrans(p: string, j: int, i: int, k: int)
    requires Border(p, j, i) && Border(p, i, k)
    ensures Border(p, j, k)
  {
    assert p[j - k..j] == p[j - i..j][i - k..i];
    assert p[..k] == p[..i][..k];
    assert p[i - k..i] == p[..i][i - k..i];
  }

  /** A border no longer than another border is a border of that one. */
  lemma BorderOfBorder(p: string, j: int, i: int, b: int)
    requires Border(p, j, i) && Border(p, j, b) && b <= i
    ensures Border(p, i, b)
  {
    assert p[i - b..i] == p[..i][i - b..i];
    assert p[j - b..j] == p[j - i..j][i - b..i];
  }

  /** A border of p[..j + 1] is a border of p[..j] followed by the character p[j]. */
  lemma BorderExtend(p: string, j: int, b: int)
    requires 1 <= b <= j + 1 <= |p|
    ensures Border(p, j + 1, b) <==> Border(p, j, b - 1) && p[b - 1] == p[j]
  {
    assert p[..b] == p[..b - 1] + [p[b - 1]];
    assert p[j + 1 - b..j + 1] == p[j + 1 - b..j] + [p[j]];
  }

  class KMP {
    const pattern: string
    const lps: array<int>

    /** The table the constructor builds: one entry per pattern character, and lps[0] == 0 even for the empty pattern. */
    ghost predicate Valid()
      reads lps
    {
      lps.Length == (if |pattern| == 0 then 1 else |pattern|) && lps[0] == 0
      && forall j :: 0 <= j < |pattern| ==> LongestBorder(pattern, j + 1, lps[j])
    }

    /**
     * Builds the table. For the empty pattern the zero-length fill leaves an empty array and
     * lps[0] = 0 then grows it to one entry.
     */
    constructor (pattern: string)
      ensures this.pattern == pattern && Valid()
    {
      this.pattern := pattern;
      var t := new int[if |pattern| == 0 then 1 else |pattern|];
      t[0] := 0;
      var i := 0;
      var j := 1;
      while j < |pattern|
        invariant t.Length == (if |pattern| == 0 then 1 else |pattern|) && t[0] == 0
        invariant 1 <= j <= t.Length
        invariant i == t[j - 1]
        invariant forall q :: 0 <= q < j && q < |pattern| ==> LongestBorder(pattern, q + 1, t[q])
      {
        i := Fallback(pattern, t, j, i);
        if pattern[i] == pattern[j] {
          Extend(pattern, j, i);
          i := i + 1;
        } else {
          NoExtend(pattern, j);
        }
        t[j] := i;
        j := j + 1;
      }
      this.lps := t;
    }

    /**
     * The inner while loop: from the longest proper border i of pattern[0..j], falls back
     * through shorter borders until the character after one of them matches pattern[j], or
     * until none is left.
     */
    static method Fallback(p: string, t: array<int>, j: int, i0: int) returns (i: int)
      requires 1 <= j < |p| && j <= t.Length
      requires forall q :: 0 <= q < j ==> LongestBorder(p, q + 1, t[q])
      requires LongestBorder(p, j, i0)
      ensures 0 <= i < j && Border(p, j, i)
      ensures i == 0 || p[i] == p[j]
      ensures forall b :: i < b < j && Border(p, j, b) ==> p[b] != p[j]
    {
      i := i0;
      while i > 0 && p[j] != p[i]
        invariant 0 <= i < j && Border(p, j, i)
        invariant forall b :: i < b < j && Border(p, j, b) ==> p[b] != p[j]
      {
        var k := t[i - 1];
        assert LongestBorder(p, i, k);
        BorderTrans(p, j, i, k);
        forall b | k < b < j && Border(p, j, b)
          ensures p[b] != p[j]
        {
          if b < i {
            BorderOfBorder(p, j, i, b);
          }
        }
        i := k;
      }
    }

    /** A longest border i of p[..j] whose next character is p[j] gives a longest border i + 1 of p[..j + 1]. */
    static lemma Extend(p: string, j: int, i: int)
      requires 0 <= i < j < |p| && Border(p, j, i) && p[i] == p[j]
      requires forall b :: i < b < j && Border(p, j, b) ==> p[b] != p[j]
      ensures LongestBorder(p, j + 1, i + 1)
    {
      BorderExtend(p, j, i + 1);
      var j1 := j + 1;
      forall b | i + 1 < b < j1
        ensures !Border(p, j1, b)
      {
        BorderExtend(p, j, b);
      }
    }

    /** When no border of p[..j] extends by p[j], the longest proper border of p[..j + 1] is empty. */
    static lemma NoExtend(p: string, j: int)
      requires 0 < j < |p| && p[0] != p[j]
      requires forall b :: 0 < b < j && Border(p, j, b) ==> p[b] != p[j]
      ensures LongestBorder(p, j + 1, 0)
    {
      var j1 := j + 1;
      forall b | 0 < b < j1
        ensures !Border(p, j1, b)
      {
        BorderExtend(p, j, b);
      }
    }

    /** lps[0] is 0 and every entry lies in [0, j]. */
    lemma TableBounds()
      requires Valid()
      ensures lps[0] == 0
      ensures forall j :: 0 <= j < |pattern| ==> 0 <= lps[j] <= j
    {
    }

    /**
     * search(text), reading this object's own pattern: i walks the text and j counts the
     * pattern characters matched so far; returns the leftmost occurrence, or n.
     */
    method Search(text: string) returns (r: int)
      requires Valid()
      ensures r == FirstMatch(pattern, text)
    {
      var n := |text|;
      var m := |pattern|;
      var i := 0;
      var j := 0;
      while i < n
        invariant Window(pattern, text, i, j) && (m > 0 ==> j < m) && (m == 0 ==> i == 0)
        decreases n - i, j
      {
        var found;
        i, j, found := Advance(pattern, text, lps, i, j);
        if found {
          Found(pattern, text, i);
          return i - j;
        }
      }
      Exhausted(pattern, text, j);
      return n;
    }

    /** The table the constructor builds for "a" is [0], on which search as written answers 1 for the text "a". */
    lemma AsWrittenAnswer()
      requires Valid() && pattern == "a"
      ensures lps[..] == [0]
      ensures SearchAsWritten(ModulePattern, lps[..], "a", 0, 0, 2) == Some(1)
    {
      assert lps[..] == [lps[0]];
      AsWrittenMissesMatch();
    }

    /**
     * One round of the search loop: compare once and advance both cursors on a match; then
     * report a complete match, or on a mismatch fall back to lps[j - 1] (or move on in the
     * text when nothing is matched).
     */
    static method Advance(p: string, t: string, lps: array<int>, i0: int, j0: int) returns (i: int, j: int, found: bool)
      requires lps.Length >= |p| && forall q :: 0 <= q < |p| ==> LongestBorder(p, q + 1, lps[q])
      requires Window(p, t, i0, j0) && i0 < |t| && (|p| > 0 ==> j0 < |p|)
      ensures found ==> j == |p| && Window(p, t, i, j)
      ensures !found ==> Window(p, t, i, j) && 0 < |p| && j < |p|
      ensures !found ==> i0 < i || (i == i0 && j < j0)
    {
      i, j := i0, j0;
      if j < |p| && p[j] == t[i] {
        MatchStep(p, t, i, j);
        j, i := j + 1, i + 1;
      }
      if j == |p| {
        return i, j, true;
      }
      if !(i < |t| && p[j] == t[i]) {
        if j != 0 {
          var k := lps[j - 1];
          Skip(p, t, i, j, k);
          j := k;
        } else {
          Restart(p, t, i);
          i := i + 1;
        }
      }
      found := false;
    }

    /** The search state: the last j characters read are pattern[0..j], and no occurrence starts before i - j. */
    static ghost predicate Window(p: string, t: string, i: int, j: int)
    {
      0 <= j <= i <= |t| && j <= |p| && t[i - j..i] == p[..j]
      && forall k :: 0 <= k < i - j ==> !MatchAt(p, t, k)
    }

    /** A matching character extends the window by one. */
    static lemma MatchStep(p: string, t: string, i: int, j: int)
      requires Window(p, t, i, j) && j < |p| && i < |t| && p[j] == t[i]
      ensures Window(p, t, i + 1, j + 1)
    {
      assert t[i - j..i + 1] == t[i - j..i] + [t[i]];
      assert p[..j + 1] == p[..j] + [p[j]];
    }

    /** A window holding the whole pattern is the leftmost occurrence. */
    static lemma Found(p: string, t: string, i: int)
      requires Window(p, t, i, |p|)
      ensures FirstMatch(p, t) == i - |p|
    {
      assert MatchAt(p, t, i - |p|);
      FirstIs(p, t, i - |p|);
    }

    /** With nothing matched and a mismatch at i, no occurrence starts at i either. */
    static lemma Restart(p: string, t: string, i: int)
      requires Window(p, t, i, 0) && 0 < |p| && i < |t| && p[0] != t[i]
      ensures Window(p, t, i + 1, 0)
    {
      assert i + |p| <= |t| ==> t[i..i + |p|][0] == t[i];
    }

    /** Reaching the end of the text with part of the pattern pending: no occurrence at all. */
    static lemma Exhausted(p: string, t: string, j: int)
      requires Window(p, t, |t|, j) && (|p| > 0 ==> j < |p|) && (|p| == 0 ==> |t| == 0)
      ensures FirstMatch(p, t) == |t|
    {
      if |p| == 0 {
        assert MatchAt(p, t, 0);
        FirstIs(p, t, 0);
      } else {
        NoneIs(p, t);
      }
    }

    /**
     * After j matched characters and a mismatch at text position i, no occurrence starts
     * before i - k, where k is the longest proper border of pattern[0..j], and the last k
     * characters read still match.
     */
    static lemma Skip(p: string, t: string, i: int, j: int, k: int)
      requires Window(p, t, i, j) && 0 < j < |p|
      requires i == |t| || p[j] != t[i]
      requires LongestBorder(p, j, k)
      ensures Window(p, t, i, k)
    {
      assert t[i - k..i] == t[i - j..i][j - k..j];
      assert p[j - k..j] == p[..j][j - k..j];
      forall q | i - j <= q < i - k
        ensures !MatchAt(p, t, q)
      {
        var b := i - q;
        if q + |p| <= |t| {
          if b == j {
            assert t[q..q + |p|][j] == t[i];
          } else {
            NotBorder(p, t, i, j, q);
          }
        }
      }
    }

    /** An occurrence starting strictly inside the matched window would give a border of p[..j] longer than b. */
    static lemma NotBorder(p: string, t: string, i: int, j: int, q: int)
      requires 0 < j < |p| && j <= i <= |t| && t[i - j..i] == p[..j]
      requires i - j < q < i && q + |p| <= |t|
      ensures MatchAt(p, t, q) ==> Border(p, j, i - q)
    {
      var b := i - q;
      assert t[q..i] == t[q..q + |p|][..b];
      assert t[q..i] == t[i - j..i][j - b..j];
      assert p[j - b..j] == p[..j][j - b..j];
      assert p[..b] == p[..|p|][..b];
    }
  }

  /** The string the module declares as `pattern`, the one search reads as written. */
  const ModulePattern: string := "ababdabacdababcabab"

  /** `s.charAt(k)`: the one-character string at k, or '' outside s. */
  function CharAt(s: string, k: int): (c: string)
    ensures |c| <= 1
    ensures 0 <= k < |s| ==> c == [s[k]]
    ensures !(0 <= k < |s|) ==> c == ""
  {
    if 0 <= k < |s| then [s[k]] else ""
  }

  /**
   * The loop of search as written, from the state (i, j), with p the string it reads for the
   * pattern and lps the object's table, whose entries the constructor keeps in 0..q. Each round is one pass of the while loop; fuel bounds
   * the rounds, and None means it ran out.
   */
  function SearchAsWritten(p: string, lps: seq<int>, t: string, i: int, j: int, fuel: nat): (r: Option<int>)
    requires 0 <= j <= i && forall q :: 0 <= q < |lps| ==> 0 <= lps[q] <= q
    ensures i >= |t| ==> r == Some(|t|)
    ensures r.Some? ==> 0 <= r.value <= |t|
    decreases fuel
  {
    if i >= |t| then Some(|t|)
    else if fuel == 0 then None
    else
      var matched := CharAt(p, j) == CharAt(t, i);
      var i1 := if matched then i + 1 else i;
      var j1 := if matched then j + 1 else j;
      if j1 == |p| then Some(i1 - j1)
      else if CharAt(p, j1) != CharAt(t, i1) then
        if j1 != 0 then
          if j1 - 1 < |lps| then SearchAsWritten(p, lps, t, i1, lps[j1 - 1], fuel - 1) else None
        else SearchAsWritten(p, lps, t, i1 + 1, j1, fuel - 1)
      else SearchAsWritten(p, lps, t, i1, j1, fuel - 1)
  }

  /**
   * new KMP("a").search("a"): the table is [0], the 'a' matches the constant's first
   * character, its 'b' then mismatches the end of the text, and search answers n = 1,
   * although "a" occurs at 0.
   */
  lemma AsWrittenMissesMatch()
    ensures SearchAsWritten(ModulePattern, [0], "a", 0, 0, 2) == Some(1)
    ensures FirstMatch("a", "a") == 0
  {
    assert CharAt(ModulePattern, 0) == "a" == CharAt("a", 0);
    assert CharAt(ModulePattern, 1) == "b" != CharAt("a", 1);
    assert SearchAsWritten(ModulePattern, [0], "a", 1, 0, 1) == Some(1);
    assert MatchAt("a", "a", 0);
    FirstIs("a", "a", 0);
  }
}
