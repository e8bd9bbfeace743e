// Paths and reachability over adjacency lists `A`, where `w in A[v]` is an edge v -> w.
// Every graph class of the model exposes its adjacency lists as such a sequence.
module Paths {
  import Common

  /** Every adjacency list of `A` names vertices of `A`. */
  ghost predicate WellFormed(A: seq<seq<int>>)
  {
    forall v, w :: 0 <= v < |A| && w in A[v] ==> 0 <= w < |A|
  }

  /** `p` is a non-empty walk through vertices of `A` along its edges. */
  ghost predicate IsPath(A: seq<seq<int>>, p: seq<int>)
  {
    && |p| >= 1
    && (forall i :: 0 <= i < |p| ==> 0 <= p[i] < |A|)
    && (forall i :: 0 <= i < |p| - 1 ==> p[i + 1] in A[p[i]])
  }

  /** `p` is a walk from `u` to `x`. */
  ghost predicate PathFromTo(A: seq<seq<int>>, p: seq<int>, u: int, x: int)
  {
    IsPath(A, p) && p[0] == u && p[|p| - 1] == x
  }

  /** `x` is reachable from `u` (every vertex reaches itself). */
  ghost predicate Reach(A: seq<seq<int>>, u: int, x: int)
  {
    exists p :: PathFromTo(A, p, u, x)
  }

  /** `u` and `x` reach each other. */
  ghost predicate Mutual(A: seq<seq<int>>, u: int, x: int)
  {
    Reach(A, u, x) && Reach(A, x, u)
  }

  /** Every neighbour of a vertex of the graph is a vertex of the graph. */
  lemma NeighbourInRange(A: seq<seq<int>>, v: int, j: int)
    requires WellFormed(A) && 0 <= v < |A| && 0 <= j < |A[v]|
    ensures 0 <= A[v][j] < |A|
  {
    assert A[v][j] in A[v];
  }

  lemma ReachRefl(A: seq<seq<int>>, u: int)
    requires 0 <= u < |A|
    ensures Reach(A, u, u)
  {
    assert PathFromTo(A, [u], u, u);
  }

  lemma ReachEdge(A: seq<seq<int>>, u: int, x: int)
    requires 0 <= u < |A| && 0 <= x < |A| && x in A[u]
    ensures Reach(A, u, x)
  {
    assert PathFromTo(A, [u, x], u, x);
  }

  lemma PathAppend(A: seq<seq<int>>, p: seq<int>, u: int, x: int, y: int)
    requires PathFromTo(A, p, u, x)
    requires 0 <= y < |A| && y in A[x]
    ensures PathFromTo(A, p + [y], u, y)
  {
  }

  lemma ReachStep(A: seq<seq<int>>, u: int, x: int, y: int)
    requires Reach(A, u, x)
    requires 0 <= y < |A| && y in A[x]
    ensures Reach(A, u, y)
  {
    var p :| PathFromTo(A, p, u, x);
    PathAppend(A, p, u, x, y);
  }

  lemma PathConcat(A: seq<seq<int>>, p: seq<int>, q: seq<int>, u: int, x: int, y: int)
    requires PathFromTo(A, p, u, x) && PathFromTo(A, q, x, y)
    ensures PathFromTo(A, p + q[1..], u, y)
  {
    var r := p + q[1..];
    forall i | 0 <= i < |r| - 1
      ensures r[i + 1] in A[r[i]]
    {
      if i < |p| - 1 {
      } else {
        assert r[i] == q[i - |p| + 1];
        assert r[i + 1] == q[i - |p| + 2];
      }
    }
  }

  lemma ReachTrans(A: seq<seq<int>>, u: int, x: int, y: int)
    requires Reach(A, u, x) && Reach(A, x, y)
    ensures Reach(A, u, y)
  {
    var p :| PathFromTo(A, p, u, x);
    var q :| PathFromTo(A, q, x, y);
    PathConcat(A, p, q, u, x, y);
  }

  /** Reachable vertices of a well-formed graph are vertices. */
  lemma ReachInRange(A: seq<seq<int>>, u: int, x: int)
    requires Reach(A, u, x)
    ensures 0 <= u < |A| && 0 <= x < |A|
  {
    var p :| PathFromTo(A, p, u, x);
    assert p[0] == u && p[|p| - 1] == x;
  }

  /** Mutual reachability is an equivalence relation on the vertices. */
  lemma MutualEquivalence(A: seq<seq<int>>, u: int, x: int, y: int)
    requires 0 <= u < |A|
    ensures Mutual(A, u, u)
    ensures Mutual(A, u, x) ==> Mutual(A, x, u)
    ensures Mutual(A, u, x) && Mutual(A, x, y) ==> Mutual(A, u, y)
  {
    ReachRefl(A, u);
    if Mutual(A, u, x) && Mutual(A, x, y) {
      ReachTrans(A, u, x, y);
      ReachTrans(A, y, x, u);
    }
  }

  /** `p` is a closed walk along at least one edge. */
  ghost predicate Cycle(A: seq<seq<int>>, p: seq<int>)
  {
    IsPath(A, p) && |p| >= 2 && p[0] == p[|p| - 1]
  }

  ghost predicate HasCycle(A: seq<seq<int>>)
  {
    exists p :: Cycle(A, p)
  }

  /** Two distinct vertices that reach each other lie on a cycle. */
  lemma MutualCycle(A: seq<seq<int>>, u: int, g: int)
    requires Mutual(A, u, g) && u != g
    ensures HasCycle(A)
  {
    var p :| PathFromTo(A, p, u, g);
    var q :| PathFromTo(A, q, g, u);
    PathConcat(A, p, q, u, g, u);
    assert Cycle(A, p + q[1..]);
  }

  /** A self-loop is a cycle. */
  lemma SelfLoopCycle(A: seq<seq<int>>, u: int)
    requires 0 <= u < |A| && u in A[u]
    ensures HasCycle(A)
  {
    assert Cycle(A, [u, u]);
  }

  /**
   * A set of vertices that contains `u` and is closed under edges contains every
   * vertex reachable from `u`.
   */
  lemma {:induction false} ClosedContainsReach(A: seq<seq<int>>, S: set<int>, u: int, x: int)
    requires u in S
    requires forall v, w :: v in S && 0 <= v < |A| && w in A[v] ==> w in S
    requires Reach(A, u, x)
    ensures x in S
  {
    var p :| PathFromTo(A, p, u, x);
    ClosedContainsPath(A, S, p);
  }

  lemma {:induction false} ClosedContainsPath(A: seq<seq<int>>, S: set<int>, p: seq<int>)
    requires IsPath(A, p) && p[0] in S
    requires forall v, w :: v in S && 0 <= v < |A| && w in A[v] ==> w in S
    ensures p[|p| - 1] in S
    decreases |p|
  {
    if |p| > 1 {
      var q := p[..|p| - 1];
      assert IsPath(A, q);
      ClosedContainsPath(A, S, q);
      assert p[|p| - 1] in A[q[|q| - 1]];
    }
  }

  /** Edge v -> w of `A` becomes w -> v. */
  ghost predicate ReverseOf(R: seq<seq<int>>, A: seq<seq<int>>)
  {
    |R| == |A| &&
    forall v, w :: 0 <= v < |A| && 0 <= w < |A| ==> (w in R[v] <==> v in A[w])
  }

  lemma {:induction false} ReversePath(R: seq<seq<int>>, A: seq<seq<int>>, p: seq<int>)
    requires ReverseOf(R, A)
    requires IsPath(A, p)
    ensures IsPath(R, Common.Reverse(p))
  {
    var r := Common.Reverse(p);
    forall i | 0 <= i < |r| - 1
      ensures r[i + 1] in R[r[i]]
    {
      assert r[i] == p[|p| - 1 - i];
      assert r[i + 1] == p[|p| - 2 - i];
      assert p[|p| - 1 - i] in A[p[|p| - 2 - i]];
    }
  }

  /** Reachability in the reverse graph is reachability in the original, read backwards. */
  lemma ReachReverse(R: seq<seq<int>>, A: seq<seq<int>>, u: int, x: int)
    requires ReverseOf(R, A)
    ensures Reach(R, u, x) <==> Reach(A, x, u)
  {
    if Reach(A, x, u) {
      var p :| PathFromTo(A, p, x, u);
      ReversePath(R, A, p);
      assert PathFromTo(R, Common.Reverse(p), u, x);
    }
    if Reach(R, u, x) {
      var p :| PathFromTo(R, p, u, x);
      assert ReverseOf(A, R);
      ReversePath(A, R, p);
      assert PathFromTo(A, Common.Reverse(p), x, u);
    }
  }

  /** Total number of entries over all adjacency lists. */
  function TotalLength(A: seq<seq<int>>): nat
  {
    if A == [] then 0 else TotalLength(A[..|A| - 1]) + |A[|A| - 1]|
  }

  lemma {:induction false} TotalLengthUpdate(A: seq<seq<int>>, i: int, s: seq<int>)
    requires 0 <= i < |A|
    ensures TotalLength(A[i := s]) + |A[i]| == TotalLength(A) + |s|
    decreases |A|
  {
    var n := |A| - 1;
    assert A[i := s][..n] == if i == n then A[..n] else A[..n][i := s];
    if i < n {
      TotalLengthUpdate(A[..n], i, s);
    }
  }

  lemma TotalLengthEmpty(n: nat)
    ensures TotalLength(seq<seq<int>>(n, _ => [])) == 0
  {
    if n > 0 {
      assert seq<seq<int>>(n, _ => [])[..n - 1] == seq<seq<int>>(n - 1, _ => []);
      TotalLengthEmpty(n - 1);
    }
  }
}
