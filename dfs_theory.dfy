// Depth-first marking as the recursive dfs of depth-first-directed.ts,
// connected-components.ts and the second pass of stongly-connected-components.ts
// runs it: the marked flags as a value, the invariant of one dfs(v) call, and
// the facts a completed search leaves. `S` is the set of vertices whose dfs
// call is still active (the recursion stack).
module DfsTheory {
  import opened Paths

  /** Every marked vertex outside `S` has all of its out-neighbours marked. */
  ghost predicate ClosedExcept(A: seq<seq<int>>, m: seq<bool>, S: set<int>)
  {
    |m| == |A| &&
    forall u, k :: 0 <= u < |A| && m[u] && u !in S && 0 <= k < |A[u]| ==> 0 <= A[u][k] < |A| && m[A[u][k]]
  }

  /** Marks are never removed. */
  ghost predicate Grows(m: seq<bool>, m': seq<bool>)
  {
    |m'| == |m| && forall x :: 0 <= x < |m| && m[x] ==> m'[x]
  }

  /** Every vertex marked between `m` and `m'` is reachable from `v`. */
  ghost predicate NewFrom(A: seq<seq<int>>, m: seq<bool>, m': seq<bool>, v: int)
  {
    |m| == |m'| && forall x :: 0 <= x < |m| && m'[x] && !m[x] ==> Reach(A, v, x)
  }

  /** Vertices marked between `m` and `m'` get label `c`; the others keep theirs. */
  ghost predicate Labelled(m: seq<bool>, m': seq<bool>, id: seq<int>, id': seq<int>, c: int)
  {
    |m| == |m'| == |id| == |id'| &&
    forall x :: 0 <= x < |m| ==> if m'[x] && !m[x] then id'[x] == c else id'[x] == id[x]
  }

  /** Labels given by a call and by the calls nested in it, with the same label, compose. */
  lemma LabelledTrans(m: seq<bool>, m1: seq<bool>, m2: seq<bool>, id: seq<int>, id1: seq<int>, id2: seq<int>, c: int)
    requires Grows(m, m1) && Grows(m1, m2) && Labelled(m, m1, id, id1, c) && Labelled(m1, m2, id1, id2, c)
    ensures Labelled(m, m2, id, id2, c)
  {
  }

  /** `o` with label `c` given to every vertex marked between `m` and `m'`. */
  ghost function Relabel(m: seq<bool>, m': seq<bool>, o: seq<int>, c: int): (o': seq<int>)
    requires |m| == |m'| == |o|
    ensures Labelled(m, m', o, o', c)
  {
    seq(|m|, x requires 0 <= x < |m| => if m'[x] && !m[x] then c else o[x])
  }

  /** The number of unmarked vertices: the measure of the recursion. */
  function Unmarked(m: seq<bool>): nat
  {
    if m == [] then 0 else Unmarked(m[..|m| - 1]) + (if m[|m| - 1] then 0 else 1)
  }

  lemma {:induction false} UnmarkedGrows(m: seq<bool>, m': seq<bool>)
    requires Grows(m, m')
    ensures Unmarked(m') <= Unmarked(m)
  {
    if m != [] {
      var n := |m| - 1;
      assert Grows(m[..n], m'[..n]);
      UnmarkedGrows(m[..n], m'[..n]);
    }
  }

  lemma {:induction false} UnmarkedMark(m: seq<bool>, v: int)
    requires 0 <= v < |m| && !m[v]
    ensures Unmarked(m[v := true]) + 1 == Unmarked(m)
  {
    var n := |m| - 1;
    if v < n {
      assert m[v := true][..n] == m[..n][v := true];
      UnmarkedMark(m[..n], v);
    } else {
      assert m[v := true][..n] == m[..n];
    }
  }

  /** A search that has marked nothing leaves nothing unclosed. */
  lemma ClosedEmpty(A: seq<seq<int>>, m: seq<bool>)
    requires |m| == |A| && forall x :: 0 <= x < |m| ==> !m[x]
    ensures ClosedExcept(A, m, {})
  {
  }

  /** The invariant of the loop over adj(v) inside dfs(v), entered from marks `m0`. */
  ghost predicate ScanInv(A: seq<seq<int>>, m0: seq<bool>, m: seq<bool>, S: set<int>, v: int, j: int)
  {
    && WellFormed(A) && 0 <= v < |A| && 0 <= j <= |A[v]|
    && ClosedExcept(A, m, S + {v})
    && Grows(m0, m) && m[v]
    && NewFrom(A, m0, m, v)
    && forall k :: 0 <= k < j ==> 0 <= A[v][k] < |m| && m[A[v][k]]
  }

  /** Marking v on entry to dfs(v). */
  lemma EnterStep(A: seq<seq<int>>, m: seq<bool>, S: set<int>, v: int)
    requires WellFormed(A) && ClosedExcept(A, m, S) && 0 <= v < |A| && !m[v]
    ensures ScanInv(A, m, m[v := true], S, v, 0)
    ensures Unmarked(m[v := true]) < Unmarked(m)
  {
    UnmarkedMark(m, v);
    ReachRefl(A, v);
  }

  /** A neighbour w that the inner dfs(w) call has just finished. */
  lemma ChildStep(A: seq<seq<int>>, m0: seq<bool>, m: seq<bool>, m': seq<bool>, S: set<int>, v: int, j: int)
    requires ScanInv(A, m0, m, S, v, j) && j < |A[v]| && 0 <= A[v][j] < |A|
    requires Grows(m, m') && m'[A[v][j]] && ClosedExcept(A, m', S + {v}) && NewFrom(A, m, m', A[v][j])
    ensures ScanInv(A, m0, m', S, v, j + 1)
  {
    var w := A[v][j];
    ReachEdge(A, v, w);
    forall x | 0 <= x < |m0| && m'[x] && !m0[x]
      ensures Reach(A, v, x)
    {
      if !m[x] {
        ReachTrans(A, v, w, x);
      }
    }
  }

  /** A neighbour that is already marked is skipped. */
  lemma SkipStep(A: seq<seq<int>>, m0: seq<bool>, m: seq<bool>, S: set<int>, v: int, j: int)
    requires ScanInv(A, m0, m, S, v, j) && j < |A[v]| && 0 <= A[v][j] < |A| && m[A[v][j]]
    ensures ScanInv(A, m0, m, S, v, j + 1)
  {
  }

  /** When adj(v) is exhausted, v no longer needs the exemption. */
  lemma ExitStep(A: seq<seq<int>>, m0: seq<bool>, m: seq<bool>, S: set<int>, v: int)
    requires 0 <= v < |A| && ScanInv(A, m0, m, S, v, |A[v]|)
    ensures ClosedExcept(A, m, S) && Grows(m0, m) && m[v] && NewFrom(A, m0, m, v)
  {
  }

  /** The recursion measure shrinks for every call made inside dfs(v), which marked v. */
  lemma MeasureStep(m0: seq<bool>, m: seq<bool>, v: int)
    requires 0 <= v < |m0| && !m0[v] && Grows(m0, m) && m[v]
    ensures Unmarked(m) < Unmarked(m0)
  {
    UnmarkedMark(m0, v);
    assert Grows(m0[v := true], m);
    UnmarkedGrows(m0[v := true], m);
  }

  lemma {:induction false} UnmarkedNone(m: seq<bool>)
    requires forall x :: 0 <= x < |m| ==> m[x]
    ensures Unmarked(m) == 0
  {
    if m != [] {
      UnmarkedNone(m[..|m| - 1]);
    }
  }

  lemma {:induction false} UnmarkedAll(n: nat)
    ensures Unmarked(seq(n, _ => false)) == n
  {
    if n > 0 {
      assert seq(n, _ => false)[..n - 1] == seq(n - 1, _ => false);
      UnmarkedAll(n - 1);
    }
  }

  /** A closed marked set contains everything reachable from its members. */
  lemma ClosedReach(A: seq<seq<int>>, m: seq<bool>, s: int, x: int)
    requires ClosedExcept(A, m, {}) && 0 <= s < |A| && m[s] && Reach(A, s, x)
    ensures 0 <= x < |A| && m[x]
  {
    var M := set y | 0 <= y < |A| && m[y];
    forall u, w | u in M && 0 <= u < |A| && w in A[u]
      ensures w in M
    {
      var k :| 0 <= k < |A[u]| && A[u][k] == w;
    }
    ClosedContainsReach(A, M, s, x);
  }
}
