// LsdRadixSort (strings/lsd-radix-sort): least-significant-digit radix sort
// of strings on their first W characters. For each position d from W - 1 down
// to 0 it runs key-indexed counting with the character code at d as the key
// (extended ASCII, R = 256). Because every pass is stable, after the pass at d
// the array is in order of the characters d..W-1, and after the last pass in
// order of the first W characters.
module LsdRadixSort {
  import opened StringOrder
  import opened KeyIndexed

  /** The alphabet: extended ASCII character codes. */
  const R := 256

  /** The key of the pass at d: charCodeAt(d), or -1 past the end of the string. */
  function Digit(d: int): (key: string -> int)
    ensures forall x :: 0 <= d < |x| ==> key(x) == x[d] as int
  {
    (x: string) => if 0 <= d < |x| then x[d] as int else -1
  }

  /** x has at least W characters and the first W are extended ASCII. */
  ghost predicate Fits(x: string, W: int)
  {
    |x| >= W && forall k :: 0 <= k < W ==> x[k] as int < R
  }

  /** Every string of s fits. */
  ghost predicate AllFit(s: seq<string>, W: int)
  {
    forall k :: 0 <= k < |s| ==> Fits(s[k], W)
  }

  /** The characters d..W-1 of x, the part the passes from d on have looked at. */
  function Part(x: string, d: int, W: int): (p: string)
    ensures 0 <= d <= W <= |x| ==> p == x[d..W]
    ensures !(0 <= d <= W <= |x|) ==> p == []
  {
    if 0 <= d <= W <= |x| then x[d..W] else []
  }

  /** s is in order of the characters d..W-1. */
  ghost predicate SortedOn(s: seq<string>, d: int, W: int)
  {
    forall i, j :: 0 <= i < j < |s| ==> LexLeq(Part(s[i], d, W), Part(s[j], d, W))
  }

  /** A smaller character at d puts x's part from d strictly first. */
  lemma DigitLess(x: string, y: string, d: int, W: int)
    requires Fits(x, W) && Fits(y, W) && 0 <= d < W
    requires Digit(d)(x) < Digit(d)(y)
    ensures LexLess(Part(x, d, W), Part(y, d, W))
  {
    var a, b := Part(x, d, W), Part(y, d, W);
    assert a[0] == x[d] && b[0] == y[d];
    LexLessAt(a, b, 0);
  }

  /** The same character at d leaves the order of the parts from d + 1. */
  lemma DigitEqual(x: string, y: string, d: int, W: int)
    requires Fits(x, W) && Fits(y, W) && 0 <= d < W
    requires Digit(d)(x) == Digit(d)(y) && LexLeq(Part(x, d + 1, W), Part(y, d + 1, W))
    ensures LexLeq(Part(x, d, W), Part(y, d, W))
  {
    var a, b := Part(x, d, W), Part(y, d, W);
    assert x[d] == y[d];
    assert a == [x[d]] + Part(x, d + 1, W) && b == [y[d]] + Part(y, d + 1, W);
    assert a[1..] == Part(x, d + 1, W) && b[1..] == Part(y, d + 1, W);
  }

  /** Selecting the strings of one key keeps their order. */
  lemma {:induction false} KeyedKeepsOrder(s: seq<string>, key: string -> int, r: int, i: nat, d: int, W: int)
    requires i <= |s| && SortedOn(s, d, W)
    ensures SortedOn(KeyedTo(s, key, r, i), d, W)
  {
    if i > 0 {
      KeyedKeepsOrder(s, key, r, i - 1, d, W);
      var k := KeyedTo(s, key, r, i - 1);
      if key(s[i - 1]) == r {
        var y := s[i - 1];
        KeyedWithin(s, key, r, i - 1);
        forall p, q | 0 <= p < q < |k + [y]|
          ensures LexLeq(Part((k + [y])[p], d, W), Part((k + [y])[q], d, W))
        {
          assert (k + [y])[p] == k[p];
          if q == |k| {
            assert k[p] in s[..i - 1];
            var m :| 0 <= m < i - 1 && s[..i - 1][m] == k[p];
            assert s[m] == k[p];
          } else {
            assert (k + [y])[q] == k[q];
          }
        }
      }
    }
  }

  /** With the array in order from d + 1, the blocks of the pass at d are in order from d. */
  lemma {:induction false} BlocksOrdered(s: seq<string>, d: int, W: int, r: int)
    requires AllFit(s, W) && 0 <= d < W && SortedOn(s, d + 1, W)
    ensures SortedOn(Blocks(s, Digit(d), r, R), d, W)
    decreases R - r
  {
    if r < R {
      var key := Digit(d);
      var k := Keyed(s, key, r);
      var rest := Blocks(s, key, r + 1, R);
      BlocksOrdered(s, d, W, r + 1);
      BlocksKeys(s, key, r + 1, R);
      KeyedMembers(s, key, r, |s|);
      KeyedKeepsOrder(s, key, r, |s|, d + 1, W);
      SameBlockOrdered(s, k, d, W, r);
      AcrossBlocks(s, k, rest, d, W, r);
      SortedOnConcat(k, rest, d, W);
    }
  }

  /** Strings of s sharing the character code r at d, in order from d + 1, are in order from d. */
  lemma SameBlockOrdered(s: seq<string>, k: seq<string>, d: int, W: int, r: int)
    requires AllFit(s, W) && 0 <= d < W && SortedOn(k, d + 1, W)
    requires forall x :: x in k ==> x in s && Digit(d)(x) == r
    ensures SortedOn(k, d, W)
  {
    forall i, j | 0 <= i < j < |k|
      ensures LexLeq(Part(k[i], d, W), Part(k[j], d, W))
    {
      assert k[i] in k && k[j] in k;
      DigitEqual(k[i], k[j], d, W);
    }
  }

  /** A string with code r at d comes from d on before one with a larger code there. */
  lemma AcrossBlocks(s: seq<string>, k: seq<string>, rest: seq<string>, d: int, W: int, r: int)
    requires AllFit(s, W) && 0 <= d < W
    requires forall x :: x in k ==> x in s && Digit(d)(x) == r
    requires forall y :: y in rest ==> y in s && r + 1 <= Digit(d)(y)
    ensures forall x, y :: x in k && y in rest ==> LexLeq(Part(x, d, W), Part(y, d, W))
  {
    forall x, y | x in k && y in rest
      ensures LexLeq(Part(x, d, W), Part(y, d, W))
    {
      DigitLess(x, y, d, W);
    }
  }

  /** Two sequences in order, every string of the first before every string of the second, concatenate in order. */
  lemma SortedOnConcat(k: seq<string>, rest: seq<string>, d: int, W: int)
    requires SortedOn(k, d, W) && SortedOn(rest, d, W)
    requires forall x, y :: x in k && y in rest ==> LexLeq(Part(x, d, W), Part(y, d, W))
    ensures SortedOn(k + rest, d, W)
  {
    forall i, j | 0 <= i < j < |k + rest|
      ensures LexLeq(Part((k + rest)[i], d, W), Part((k + rest)[j], d, W))
    {
      if j < |k| {
        assert (k + rest)[i] == k[i] && (k + rest)[j] == k[j];
      } else if i < |k| {
        assert (k + rest)[i] == k[i] && k[i] in k;
        assert (k + rest)[j] == rest[j - |k|] && rest[j - |k|] in rest;
      } else {
        assert (k + rest)[i] == rest[i - |k|] && (k + rest)[j] == rest[j - |k|];
      }
    }
  }

  /** Strings of s fit. */
  lemma MemberFits(s: seq<string>, W: int, x: string)
    requires AllFit(s, W) && x in s
    ensures Fits(x, W)
  {
  }

  /** The blocks hold strings of s, so they fit too. */
  lemma BlocksFit(s: seq<string>, key: string -> int, W: int)
    requires AllFit(s, W)
    ensures AllFit(Blocks(s, key, 0, R), W)
  {
    BlocksKeys(s, key, 0, R);
    var b := Blocks(s, key, 0, R);
    forall k | 0 <= k < |b|
      ensures Fits(b[k], W)
    {
      assert b[k] in b;
    }
  }

  /** The keys of a pass at d < W lie in [0, R). */
  lemma DigitKeys(s: seq<string>, d: int, W: int)
    requires AllFit(s, W) && 0 <= d < W
    ensures KeysIn(s, Digit(d), R)
  {
    forall k | 0 <= k < |s|
      ensures 0 <= Digit(d)(s[k]) < R
    {
      assert Fits(s[k], W);
    }
  }

  /** Strings of exactly W characters in order of their first W characters are in order. */
  lemma FixedWidth(s: seq<string>, W: int)
    requires SortedOn(s, 0, W) && forall k :: 0 <= k < |s| ==> |s[k]| == W
    ensures forall i, j :: 0 <= i < j < |s| ==> LexLeq(s[i], s[j])
  {
    forall i, j | 0 <= i < j < |s|
      ensures LexLeq(s[i], s[j])
    {
      assert Part(s[i], 0, W) == s[i] && Part(s[j], 0, W) == s[j];
    }
  }

  /** The strings of s whose characters d..W-1 are u, in their order in s. */
  ghost function Ties(s: seq<string>, d: int, W: int, u: string): (t: seq<string>)
    ensures |t| <= |s|
  {
    if |s| == 0 then []
    else Ties(s[..|s| - 1], d, W, u) + (if Part(s[|s| - 1], d, W) == u then [s[|s| - 1]] else [])
  }

  /** For every u, the strings whose characters d..W-1 are u come in s in the order they come in t. */
  ghost predicate Stable(s: seq<string>, t: seq<string>, d: int, W: int)
  {
    forall u :: Ties(s, d, W, u) == Ties(t, d, W, u)
  }

  /** Selecting the ties of u from s with one more string at the end. */
  lemma TiesSnoc(s: seq<string>, x: string, d: int, W: int, u: string)
    ensures Ties(s + [x], d, W, u) == Ties(s, d, W, u) + (if Part(x, d, W) == u then [x] else [])
  {
    assert (s + [x])[..|s|] == s;
  }

  /** Selecting by a key and selecting the ties of u commute. */
  lemma {:induction false} TiesKeyed(s: seq<string>, key: string -> int, r: int, d: int, W: int, u: string)
    ensures Ties(Keyed(s, key, r), d, W, u) == Keyed(Ties(s, d, W, u), key, r)
    decreases |s|
  {
    if |s| > 0 {
      var p, x := s[..|s| - 1], s[|s| - 1];
      assert s == p + [x];
      TiesKeyed(p, key, r, d, W, u);
      var K, T := Keyed(p, key, r), Ties(p, d, W, u);
      KeyedSnoc(p, x, key, r);
      TiesSnoc(p, x, d, W, u);
      var k := Keyed(s, key, r);
      if key(x) == r {
        assert k == K + [x];
        TiesSnoc(K, x, d, W, u);
      } else {
        assert k == K;
      }
      if Part(x, d, W) == u {
        assert Ties(s, d, W, u) == T + [x];
        KeyedSnoc(T, x, key, r);
      } else {
        assert Ties(s, d, W, u) == T;
      }
    }
  }

  /** The part of a fitting string from e is its character at e followed by its part from e + 1. */
  lemma PartStep(x: string, e: int, W: int, u: string)
    requires Fits(x, W) && 0 <= e < W
    ensures Part(x, e, W) == u <==> |u| > 0 && Digit(e)(x) == u[0] as int && Part(x, e + 1, W) == u[1..]
  {
    var q := Part(x, e, W);
    assert q == [x[e]] + Part(x, e + 1, W);
    if |u| > 0 && x[e] == u[0] && Part(x, e + 1, W) == u[1..] {
      assert u == [u[0]] + u[1..];
    }
  }

  /** The ties of u from e are the strings with code u[0] at e that tie on the rest of u from e + 1. */
  lemma {:induction false} TiesSplit(s: seq<string>, e: int, W: int, u: string)
    requires AllFit(s, W) && 0 <= e < W
    ensures Ties(s, e, W, u) == if |u| == 0 then [] else Ties(Keyed(s, Digit(e), u[0] as int), e + 1, W, u[1..])
    decreases |s|
  {
    if |s| > 0 {
      var p, x := s[..|s| - 1], s[|s| - 1];
      assert s == p + [x];
      assert AllFit(p, W) by {
        forall k | 0 <= k < |p|
          ensures Fits(p[k], W)
        {
          assert p[k] == s[k];
        }
      }
      assert Fits(x, W);
      TiesSplit(p, e, W, u);
      PartStep(x, e, W, u);
      TiesSnoc(p, x, e, W, u);
      var T := Ties(p, e, W, u);
      if |u| > 0 {
        var key, c, v := Digit(e), u[0] as int, u[1..];
        var K := Keyed(p, key, c);
        KeyedSnoc(p, x, key, c);
        if key(x) == c {
          assert Keyed(s, key, c) == K + [x];
          TiesSnoc(K, x, e + 1, W, v);
        } else {
          assert Keyed(s, key, c) == K;
        }
      } else {
        assert Ties(s, e, W, u) == T;
      }
    }
  }

  /**
   * A pass on the code at e that keeps the order of every key's strings takes strings whose ties
   * from e + 1 are in input order to strings whose ties from e are in input order.
   */
  lemma TiesKept(s: seq<string>, b: seq<string>, orig: seq<string>, e: int, W: int)
    requires AllFit(s, W) && AllFit(b, W) && AllFit(orig, W) && 0 <= e < W
    requires forall r :: 0 <= r < R ==> Keyed(b, Digit(e), r) == Keyed(s, Digit(e), r)
    requires Stable(s, orig, e + 1, W)
    ensures Stable(b, orig, e, W)
  {
    forall u
      ensures Ties(b, e, W, u) == Ties(orig, e, W, u)
    {
      TiesSplit(b, e, W, u);
      TiesSplit(orig, e, W, u);
      if |u| > 0 {
        var c, v := u[0] as int, u[1..];
        if c < R {
          assert Keyed(b, Digit(e), c) == Keyed(s, Digit(e), c);
          assert Ties(s, e + 1, W, v) == Ties(orig, e + 1, W, v);
          TiesOfKey(s, b, orig, Digit(e), c, e + 1, W, v);
        } else {
          DigitKeys(b, e, W);
          DigitKeys(orig, e, W);
          KeyedOutside(b, Digit(e), R, c);
          KeyedOutside(orig, Digit(e), R, c);
        }
      }
    }
  }

  /** Within one key's block, b and orig tie the same way once s has the block of b and the ties of orig. */
  lemma TiesOfKey(s: seq<string>, b: seq<string>, orig: seq<string>, key: string -> int, c: int, d: int, W: int, v: string)
    requires Keyed(b, key, c) == Keyed(s, key, c)
    requires Ties(s, d, W, v) == Ties(orig, d, W, v)
    ensures Ties(Keyed(b, key, c), d, W, v) == Ties(Keyed(orig, key, c), d, W, v)
  {
    TiesKeyed(s, key, c, d, W, v);
    TiesKeyed(orig, key, c, d, W, v);
  }

  /**
   * sort(a, W): one key-indexed counting pass per position d = W - 1, ..., 0. The array
   * ends a permutation of its strings in order of their first W characters, and strings that
   * agree on their first W characters stay in their input order.
   */
  method Sort(a: array<string>, W: nat)
    requires AllFit(a[..], W)
    modifies a
    ensures multiset(a[..]) == multiset(old(a[..]))
    ensures SortedOn(a[..], 0, W)
    ensures Stable(a[..], old(a[..]), 0, W)
  {
    ghost var orig := a[..];
    var d := W - 1;
    NothingCompared(a[..], W);
    while d >= 0
      invariant -1 <= d < W
      invariant multiset(a[..]) == multiset(orig)
      invariant Ready(a[..], d + 1, W)
      invariant Stable(a[..], orig, d + 1, W)
      decreases d
    {
      Round(a, d, W, orig);
      d := d - 1;
      assert Ready(a[..], d + 1, W);
      assert Stable(a[..], orig, d + 1, W);
    }
  }

  /** Before the first pass nothing is compared: every string's part from W on is empty. */
  lemma NothingCompared(s: seq<string>, W: int)
    requires AllFit(s, W)
    ensures Ready(s, W, W)
  {
    forall i, j | 0 <= i < j < |s|
      ensures LexLeq(Part(s[i], W, W), Part(s[j], W, W))
    {
      assert Part(s[i], W, W) == [] == Part(s[j], W, W);
    }
  }

  /** The state between passes: every string fits, and the strings are in order from d. */
  ghost predicate Ready(s: seq<string>, d: int, W: int)
  {
    AllFit(s, W) && SortedOn(s, d, W)
  }

  /**
   * One round of the d loop: the counting pass on the code at d, after which the strings,
   * in order from d + 1 before it, are in order from d, and ties from d + 1 kept in the order
   * of orig become ties from d kept in that order.
   */
  method Round(a: array<string>, d: int, W: int, ghost orig: seq<string>)
    requires 0 <= d < W && Ready(a[..], d + 1, W)
    requires AllFit(orig, W) && Stable(a[..], orig, d + 1, W)
    modifies a
    ensures multiset(a[..]) == multiset(old(a[..]))
    ensures Ready(a[..], d, W) && Stable(a[..], orig, d, W)
  {
    ghost var s := a[..];
    Pass(a, d, W);
    BlocksOrdered(s, d, W, 0);
    BlocksFit(s, Digit(d), W);
    TiesKept(s, a[..], orig, d, W);
  }

  /**
   * The body of the d loop: count, cumulate, distribute and copy back on the code at d. The
   * strings end block by block in order of that code. So the pass is a stable sort on it:
   * the strings end in order of the code, and the strings sharing each code keep their
   * relative order.
   */
  method Pass(a: array<string>, d: int, W: int)
    requires 0 <= d < W && AllFit(a[..], W)
    modifies a
    ensures a[..] == Blocks(old(a[..]), Digit(d), 0, R)
    ensures SortedBy(a[..], Digit(d))
    ensures forall r :: 0 <= r < R ==> Keyed(a[..], Digit(d), r) == Keyed(old(a[..]), Digit(d), r)
    ensures multiset(a[..]) == multiset(old(a[..]))
  {
    var s := a[..];
    var key := Digit(d);
    DigitKeys(s, d, W);
    var count := Tally(s, key, R);
    Cumulate(count, s, key, R);
    var aux := Distribute(s, key, R, count);
    CopyBack(a, aux);
    BlocksMultiset(s, key, R);
    BlocksSorted(s, key, 0, R);
    forall r | 0 <= r < R
      ensures Keyed(a[..], key, r) == Keyed(s, key, r)
    {
      BlocksStable(s, key, 0, R, r);
    }
  }
}
