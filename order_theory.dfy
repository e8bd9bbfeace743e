// Depth-first order as the dfs of graphs/directed/depth-first-order.ts runs
// it: the marked flags, the pre and post numbers, the preorder list `Q1` and
// the postorder list `Q2`, with `S` the set of vertices whose dfs call is
// still active. A vertex is finished once it is marked and no longer active.
// The key invariant, kept for every finished vertex u, is that either every
// vertex reachable from u finished no later than u, or some vertex that
// reaches u and is reachable from it finishes after u. Kosaraju's algorithm
// rests on it.
module DfsOrderTheory {
  import opened Paths
  import opened DfsTheory

  /** `Q1` lists the marked vertices in the order of their pre numbers. */
  ghost predicate PreList(A: seq<seq<int>>, m: seq<bool>, pre: seq<int>, Q1: seq<int>)
  {
    && |m| == |A| && |pre| == |A|
    && (forall i :: 0 <= i < |Q1| ==> 0 <= Q1[i] < |A| && m[Q1[i]] && pre[Q1[i]] == i)
    && (forall x :: 0 <= x < |A| && m[x] ==> 0 <= pre[x] < |Q1| && Q1[pre[x]] == x)
  }

  /** `Q2` lists the finished vertices in the order of their post numbers. */
  ghost predicate PostList(A: seq<seq<int>>, m: seq<bool>, post: seq<int>, Q2: seq<int>, S: set<int>)
  {
    && |m| == |A| && |post| == |A|
    && (forall i :: 0 <= i < |Q2| ==> 0 <= Q2[i] < |A| && m[Q2[i]] && Q2[i] !in S && post[Q2[i]] == i)
    && (forall x :: 0 <= x < |A| && m[x] && x !in S ==> 0 <= post[x] < |Q2| && Q2[post[x]] == x)
  }

  /** The active vertices are marked vertices. */
  ghost predicate StackMarked(A: seq<seq<int>>, m: seq<bool>, S: set<int>)
  {
    |m| == |A| && forall g :: g in S ==> 0 <= g < |A| && m[g]
  }

  /** Every active vertex reaches v: they are v's ancestors in the search. */
  ghost predicate StackReaches(A: seq<seq<int>>, S: set<int>, v: int)
  {
    forall g :: g in S ==> Reach(A, g, v)
  }

  /** The invariant for one finished vertex u. */
  ghost predicate Dominates(A: seq<seq<int>>, m: seq<bool>, post: seq<int>, S: set<int>, u: int)
    requires |m| == |A| && |post| == |A| && 0 <= u < |A|
  {
    || (forall x :: Reach(A, u, x) ==> 0 <= x < |A| && m[x] && x !in S && post[x] <= post[u])
    || (exists g :: Mutual(A, u, g) && 0 <= g < |A| && (!m[g] || g in S || post[g] > post[u]))
  }

  ghost predicate AllDominate(A: seq<seq<int>>, m: seq<bool>, post: seq<int>, S: set<int>)
  {
    |m| == |A| && |post| == |A| &&
    forall u :: 0 <= u < |A| && m[u] && u !in S ==> Dominates(A, m, post, S, u)
  }

  /** The state between two steps of the search. */
  ghost predicate OrderInv(A: seq<seq<int>>, m: seq<bool>, pre: seq<int>, post: seq<int>, Q1: seq<int>, Q2: seq<int>, S: set<int>)
  {
    && WellFormed(A)
    && PreList(A, m, pre, Q1)
    && PostList(A, m, post, Q2, S)
    && StackMarked(A, m, S)
    && ClosedExcept(A, m, S)
    && |Q1| + Unmarked(m) == |A|
    && |Q2| + |S| == |Q1|
    && AllDominate(A, m, post, S)
  }

  /** Nothing is marked before the outer loop. */
  lemma OrderStart(A: seq<seq<int>>, n: nat)
    requires WellFormed(A) && n == |A|
    ensures OrderInv(A, seq(n, _ => false), seq(n, _ => 0), seq(n, _ => 0), [], [], {})
  {
    UnmarkedAll(n);
  }

  // Entering dfs(v): v is marked, numbered and queued in preorder, and becomes active.

  lemma PreListEnter(A: seq<seq<int>>, m: seq<bool>, pre: seq<int>, Q1: seq<int>, v: int)
    requires PreList(A, m, pre, Q1) && 0 <= v < |A| && !m[v]
    ensures PreList(A, m[v := true], pre[v := |Q1|], Q1 + [v])
  {
  }

  lemma PostListEnter(A: seq<seq<int>>, m: seq<bool>, post: seq<int>, Q2: seq<int>, S: set<int>, v: int)
    requires PostList(A, m, post, Q2, S) && 0 <= v < |A| && !m[v]
    ensures PostList(A, m[v := true], post, Q2, S + {v})
  {
  }

  lemma DominateEnter(A: seq<seq<int>>, m: seq<bool>, post: seq<int>, S: set<int>, v: int)
    requires AllDominate(A, m, post, S) && 0 <= v < |A| && !m[v]
    ensures AllDominate(A, m[v := true], post, S + {v})
  {
    var m' := m[v := true];
    forall u | 0 <= u < |A| && m'[u] && u !in S + {v}
      ensures Dominates(A, m', post, S + {v}, u)
    {
      assert Dominates(A, m, post, S, u);
      if !(forall x :: Reach(A, u, x) ==> 0 <= x < |A| && m[x] && x !in S && post[x] <= post[u]) {
        var g :| Mutual(A, u, g) && 0 <= g < |A| && (!m[g] || g in S || post[g] > post[u]);
        assert !m'[g] || g in S + {v} || post[g] > post[u];
      }
    }
  }

  lemma EnterOrder(A: seq<seq<int>>, m: seq<bool>, pre: seq<int>, post: seq<int>, Q1: seq<int>, Q2: seq<int>, S: set<int>, v: int)
    requires OrderInv(A, m, pre, post, Q1, Q2, S) && 0 <= v < |A| && !m[v]
    ensures OrderScan(A, m, Q1, Q2, m[v := true], pre[v := |Q1|], post, Q1 + [v], Q2, S, v, 0)
  {
    PreListEnter(A, m, pre, Q1, v);
    PostListEnter(A, m, post, Q2, S, v);
    DominateEnter(A, m, post, S, v);
    UnmarkedMark(m, v);
    assert v !in S;
  }

  /** The invariant of the loop over adj(v), entered with marks `m0` and lists `Q10`, `Q20`. */
  ghost predicate OrderScan(A: seq<seq<int>>, m0: seq<bool>, Q10: seq<int>, Q20: seq<int>,
                            m: seq<bool>, pre: seq<int>, post: seq<int>, Q1: seq<int>, Q2: seq<int>,
                            S: set<int>, v: int, j: int)
  {
    && 0 <= v < |A| && v !in S && 0 <= j <= |A[v]|
    && OrderInv(A, m, pre, post, Q1, Q2, S + {v})
    && Grows(m0, m) && m[v]
    && Q10 + [v] <= Q1 && Q20 <= Q2
    && forall k :: 0 <= k < j ==> 0 <= A[v][k] < |A| && m[A[v][k]]
  }

  /** A neighbour whose dfs call has just returned. */
  lemma OrderChild(A: seq<seq<int>>, m0: seq<bool>, Q10: seq<int>, Q20: seq<int>,
                   m: seq<bool>, pre: seq<int>, post: seq<int>, Q1: seq<int>, Q2: seq<int>,
                   m': seq<bool>, pre': seq<int>, post': seq<int>, Q1': seq<int>, Q2': seq<int>,
                   S: set<int>, v: int, j: int)
    requires OrderScan(A, m0, Q10, Q20, m, pre, post, Q1, Q2, S, v, j) && j < |A[v]| && 0 <= A[v][j] < |A|
    requires OrderInv(A, m', pre', post', Q1', Q2', S + {v})
    requires Grows(m, m') && m'[A[v][j]] && Q1 + [A[v][j]] <= Q1' && Q2 <= Q2'
    ensures OrderScan(A, m0, Q10, Q20, m', pre', post', Q1', Q2', S, v, j + 1)
  {
    assert Q10 + [v] <= Q1';
  }

  /** A neighbour that is already marked is skipped. */
  lemma OrderSkip(A: seq<seq<int>>, m0: seq<bool>, Q10: seq<int>, Q20: seq<int>,
                  m: seq<bool>, pre: seq<int>, post: seq<int>, Q1: seq<int>, Q2: seq<int>,
                  S: set<int>, v: int, j: int)
    requires OrderScan(A, m0, Q10, Q20, m, pre, post, Q1, Q2, S, v, j) && j < |A[v]| && 0 <= A[v][j] < |A|
    requires m[A[v][j]]
    ensures OrderScan(A, m0, Q10, Q20, m, pre, post, Q1, Q2, S, v, j + 1)
  {
  }

  /** The calls that dfs(v) makes run with v's ancestors and v itself active. */
  lemma ChildReaches(A: seq<seq<int>>, S: set<int>, v: int, w: int)
    requires StackReaches(A, S, v) && 0 <= v < |A| && 0 <= w < |A| && w in A[v]
    ensures StackReaches(A, S + {v}, w)
  {
    ReachEdge(A, v, w);
    forall g | g in S
      ensures Reach(A, g, w)
    {
      ReachTrans(A, g, v, w);
    }
  }

  // Leaving dfs(v): v is queued in postorder, numbered, and stops being active.

  lemma PostListExit(A: seq<seq<int>>, m: seq<bool>, post: seq<int>, Q2: seq<int>, S: set<int>, v: int)
    requires PostList(A, m, post, Q2, S + {v}) && 0 <= v < |A| && m[v] && v !in S
    ensures PostList(A, m, post[v := |Q2|], Q2 + [v], S)
  {
  }

  /** Vertices that finished before v keep their invariant. */
  lemma DominateKeep(A: seq<seq<int>>, m: seq<bool>, post: seq<int>, Q2: seq<int>, S: set<int>, v: int, u: int)
    requires PostList(A, m, post, Q2, S + {v}) && 0 <= v < |A| && m[v] && v !in S
    requires 0 <= u < |A| && m[u] && u !in S + {v} && Dominates(A, m, post, S + {v}, u)
    ensures Dominates(A, m, post[v := |Q2|], S, u)
  {
    var post' := post[v := |Q2|];
    if !(forall x :: Reach(A, u, x) ==> 0 <= x < |A| && m[x] && x !in S + {v} && post[x] <= post[u]) {
      var g :| Mutual(A, u, g) && 0 <= g < |A| && (!m[g] || g in S + {v} || post[g] > post[u]);
      assert !m[g] || g in S || post'[g] > post'[u];
    }
  }

  /**
   * A walk that starts at a finished vertex either ends at a finished vertex or passes through
   * an active one: only active vertices can have unmarked neighbours.
   */
  lemma {:induction false} ExitThroughStack(A: seq<seq<int>>, m: seq<bool>, S: set<int>, p: seq<int>)
    requires |m| == |A| && IsPath(A, p) && ClosedExcept(A, m, S) && m[p[0]] && p[0] !in S
    ensures (m[p[|p| - 1]] && p[|p| - 1] !in S) || (exists i :: 0 < i < |p| && p[i] in S)
  {
    if |p| > 1 {
      var q := p[..|p| - 1];
      ExitThroughStack(A, m, S, q);
      var y, x := p[|p| - 2], p[|p| - 1];
      if m[y] && y !in S {
        assert x in A[y];
        var k :| 0 <= k < |A[y]| && A[y][k] == x;
        if x in S {
          assert p[|p| - 1] in S;
        }
      } else {
        var i :| 0 < i < |q| && q[i] in S;
        assert p[i] in S;
      }
    }
  }

  /** The vertex that has just finished satisfies the invariant. */
  lemma DominateNew(A: seq<seq<int>>, m: seq<bool>, post: seq<int>, Q2: seq<int>, S: set<int>, v: int)
    requires PostList(A, m, post, Q2, S) && ClosedExcept(A, m, S) && StackReaches(A, S, v)
    requires 0 <= v < |A| && m[v] && v !in S && post[v] == |Q2| - 1
    ensures Dominates(A, m, post, S, v)
  {
    if !(forall x :: Reach(A, v, x) ==> 0 <= x < |A| && m[x] && x !in S && post[x] <= post[v]) {
      var x :| Reach(A, v, x) && !(0 <= x < |A| && m[x] && x !in S && post[x] <= post[v]);
      ReachInRange(A, v, x);
      var p :| PathFromTo(A, p, v, x);
      ExitThroughStack(A, m, S, p);
      var i :| 0 < i < |p| && p[i] in S;
      var g := p[i];
      assert PathFromTo(A, p[..i + 1], v, g);
      assert Reach(A, g, v);
      assert Mutual(A, v, g);
    }
  }

  lemma ExitOrder(A: seq<seq<int>>, m: seq<bool>, pre: seq<int>, post: seq<int>, Q1: seq<int>, Q2: seq<int>, S: set<int>, v: int)
    requires OrderInv(A, m, pre, post, Q1, Q2, S + {v}) && 0 <= v < |A| && m[v] && v !in S
    requires forall k :: 0 <= k < |A[v]| ==> 0 <= A[v][k] < |A| && m[A[v][k]]
    requires StackReaches(A, S, v)
    ensures OrderInv(A, m, pre, post[v := |Q2|], Q1, Q2 + [v], S)
  {
    var post' := post[v := |Q2|];
    PostListExit(A, m, post, Q2, S, v);
    assert ClosedExcept(A, m, S);
    forall u | 0 <= u < |A| && m[u] && u !in S
      ensures Dominates(A, m, post', S, u)
    {
      if u == v {
        DominateNew(A, m, post', Q2 + [v], S, v);
      } else {
        DominateKeep(A, m, post, Q2, S, v, u);
      }
    }
    assert (S + {v}) - {v} == S;
  }

  /** Vertices that dfs(v) discovers come after v in preorder and before it in postorder. */
  lemma Nesting(A: seq<seq<int>>, m0: seq<bool>, pre0: seq<int>, Q10: seq<int>, Q20: seq<int>,
                m: seq<bool>, pre: seq<int>, post: seq<int>, Q1: seq<int>, Q2: seq<int>, S: set<int>, v: int)
    requires PreList(A, m0, pre0, Q10) && PreList(A, m, pre, Q1) && PostList(A, m, post, Q2, S)
    requires StackMarked(A, m0, S) && 0 <= v < |A| && !m0[v] && Q10 + [v] <= Q1 && post[v] == |Q2| - 1
    ensures pre[v] == |Q10|
    ensures forall x :: 0 <= x < |A| && m[x] && !m0[x] && x != v ==> pre[v] < pre[x] && post[x] < post[v]
  {
    assert Q1[|Q10|] == v;
    forall x | 0 <= x < |A| && m[x] && !m0[x] && x != v
      ensures pre[v] < pre[x] && post[x] < post[v]
    {
      assert x !in S;
    }
  }

  /** Once every vertex is marked and nothing is active, both lists hold every vertex once. */
  lemma Complete(A: seq<seq<int>>, m: seq<bool>, pre: seq<int>, post: seq<int>, Q1: seq<int>, Q2: seq<int>)
    requires OrderInv(A, m, pre, post, Q1, Q2, {}) && forall x :: 0 <= x < |A| ==> m[x]
    ensures |Q1| == |A| && |Q2| == |A|
  {
    UnmarkedNone(m);
  }

  /**
   * Once the search has finished everything: a vertex reachable from u finishes no later than
   * some vertex of u's strong component.
   */
  lemma {:induction false} ComponentFinishesLast(A: seq<seq<int>>, post: seq<int>, u: int, x: int)
    requires |post| == |A| && 0 <= u < |A| && Reach(A, u, x)
    requires forall y :: 0 <= y < |A| ==> 0 <= post[y] < |A|
    requires AllDominate(A, seq(|A|, _ => true), post, {})
    ensures exists g :: Mutual(A, u, g) && 0 <= g < |A| && post[g] >= post[x]
    decreases |A| - post[u]
  {
    var m := seq(|A|, _ => true);
    assert Dominates(A, m, post, {}, u);
    ReachInRange(A, u, x);
    MutualEquivalence(A, u, u, u);
    if post[x] > post[u] {
      var g :| Mutual(A, u, g) && 0 <= g < |A| && (!m[g] || g in {} || post[g] > post[u]);
      ReachTrans(A, g, u, x);
      ComponentFinishesLast(A, post, g, x);
      var h :| Mutual(A, g, h) && 0 <= g < |A| && post[h] >= post[x];
      ReachInRange(A, g, h);
      MutualEquivalence(A, u, g, h);
    }
  }

  /** Some vertex of u's strong component has a post number at least x's. */
  ghost predicate FinishesLast(A: seq<seq<int>>, post: seq<int>, u: int, x: int)
    requires |post| == |A| && 0 <= x < |A|
  {
    exists g :: Mutual(A, u, g) && 0 <= g < |A| && post[g] >= post[x]
  }

  /**
   * The post numbers of a completed search: a permutation of [0, |A|) under which everything
   * reachable from u finishes no later than some vertex of u's strong component.
   */
  ghost predicate Finished(A: seq<seq<int>>, post: seq<int>)
  {
    && |post| == |A|
    && (forall x :: 0 <= x < |A| ==> 0 <= post[x] < |A|)
    && (forall x, y :: 0 <= x < |A| && 0 <= y < |A| && post[x] == post[y] ==> x == y)
    && (forall u, x {:trigger FinishesLast(A, post, u, x)} :: 0 <= x < |A| && Reach(A, u, x) ==> FinishesLast(A, post, u, x))
  }

  /** In a digraph without cycles every edge v -> w has post[w] < post[v]. */
  lemma AcyclicPostOrder(A: seq<seq<int>>, post: seq<int>, v: int, w: int)
    requires |post| == |A| && AllDominate(A, seq(|A|, _ => true), post, {})
    requires forall x, y :: 0 <= x < |A| && 0 <= y < |A| && post[x] == post[y] ==> x == y
    requires !HasCycle(A) && 0 <= v < |A| && 0 <= w < |A| && w in A[v]
    ensures post[w] < post[v]
  {
    var m := seq(|A|, _ => true);
    assert Dominates(A, m, post, {}, v);
    ReachEdge(A, v, w);
    if v == w {
      SelfLoopCycle(A, v);
    }
    if g :| Mutual(A, v, g) && 0 <= g < |A| && (!m[g] || g in {} || post[g] > post[v]) {
      if g != v {
        MutualCycle(A, v, g);
      }
    }
  }
}
