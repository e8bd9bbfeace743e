// Breadth-first search as both breadth-first-paths classes run it
// (graphs/undirected/breadth-first-paths.ts and graphs/directed/breadth-first-paths.ts):
// the state of the search as values, its loop invariants, and the facts the
// finished search establishes. `m`, `e` and `d` are the marked flags, the
// edgeTo links and the BFS level of every vertex; `Q` is the queue and `P`
// the set of vertices already taken off it.
module BfsTheory {
  import Common
  import opened Paths

  /** Marked vertices form a tree rooted at `s` along the edgeTo links, one level per edge. */
  ghost predicate ParentTree(A: seq<seq<int>>, s: int, m: seq<bool>, e: seq<int>, d: seq<nat>)
  {
    && |m| == |A| && |e| == |A| && |d| == |A|
    && 0 <= s < |A| && m[s] && d[s] == 0
    && forall v :: 0 <= v < |A| && m[v] && v != s ==>
         0 <= e[v] < |A| && m[e[v]] && v in A[e[v]] && d[v] == d[e[v]] + 1
  }

  /** The walk from `s` to a marked `v` along edgeTo links, read from the source end. */
  ghost function TreePath(A: seq<seq<int>>, s: int, m: seq<bool>, e: seq<int>, d: seq<nat>, v: int): (p: seq<int>)
    requires ParentTree(A, s, m, e, d)
    requires 0 <= v < |A| && m[v]
    ensures PathFromTo(A, p, s, v) && |p| == d[v] + 1
    decreases d[v]
  {
    if v == s then [s] else TreePath(A, s, m, e, d, e[v]) + [v]
  }

  /**
   * What a finished search leaves behind: a tree of marked vertices rooted at the source, and
   * the marked set closed under edges with levels growing by at most one along each edge.
   */
  ghost predicate BfsTree(A: seq<seq<int>>, s: int, m: seq<bool>, e: seq<int>, d: seq<nat>)
  {
    && ParentTree(A, s, m, e, d)
    && forall u, k :: 0 <= u < |A| && m[u] && 0 <= k < |A[u]| ==>
         0 <= A[u][k] < |A| && m[A[u][k]] && d[A[u][k]] <= d[u] + 1
  }

  ghost predicate Distinct(Q: seq<int>)
  {
    forall i, k :: 0 <= i < k < |Q| ==> Q[i] != Q[k]
  }

  /** Queued vertices are marked vertices that have not been processed. */
  ghost predicate QueueMarked(A: seq<seq<int>>, m: seq<bool>, Q: seq<int>, P: set<int>)
  {
    |m| == |A| && forall i :: 0 <= i < |Q| ==> 0 <= Q[i] < |A| && m[Q[i]] && Q[i] !in P
  }

  /** The marked vertices are exactly the processed ones, the queued ones and `extra`. */
  ghost predicate Cover(A: seq<seq<int>>, m: seq<bool>, Q: seq<int>, P: set<int>, extra: set<int>)
  {
    |m| == |A| && forall x :: 0 <= x < |A| ==> (m[x] <==> x in P || x in Q || x in extra)
  }

  ghost predicate InRange(A: seq<seq<int>>, P: set<int>)
  {
    forall x :: x in P ==> 0 <= x < |A|
  }

  /** Levels do not decrease from the front to the back of the queue. */
  ghost predicate Sorted(d: seq<nat>, Q: seq<int>)
  {
    forall i, k :: 0 <= i <= k < |Q| && 0 <= Q[i] < |d| && 0 <= Q[k] < |d| ==> d[Q[i]] <= d[Q[k]]
  }

  /** Every queued vertex is at level `c` or deeper. */
  ghost predicate Floor(d: seq<nat>, Q: seq<int>, c: int)
  {
    forall i :: 0 <= i < |Q| && 0 <= Q[i] < |d| ==> c <= d[Q[i]]
  }

  /** Every marked vertex is at level `c` or less. */
  ghost predicate Cap(A: seq<seq<int>>, m: seq<bool>, d: seq<nat>, c: int)
  {
    |m| == |A| && |d| == |A| && forall x :: 0 <= x < |A| && m[x] ==> d[x] <= c
  }

  /** The neighbours of processed vertices are marked, at most one level down. */
  ghost predicate Closed(A: seq<seq<int>>, m: seq<bool>, d: seq<nat>, P: set<int>)
  {
    |m| == |A| && |d| == |A| &&
    forall u, k :: u in P && 0 <= u < |A| && 0 <= k < |A[u]| ==>
      0 <= A[u][k] < |A| && m[A[u][k]] && d[A[u][k]] <= d[u] + 1
  }

  /** The first `j` neighbours of v are marked, at most one level below v. */
  ghost predicate Scanned(A: seq<seq<int>>, m: seq<bool>, d: seq<nat>, v: int, j: int)
  {
    |m| == |A| && |d| == |A| && 0 <= v < |A| && 0 <= j <= |A[v]| &&
    forall k :: 0 <= k < j ==> 0 <= A[v][k] < |A| && m[A[v][k]] && d[A[v][k]] <= d[v] + 1
  }

  /** The invariant of the queue loop. */
  ghost predicate OuterInv(A: seq<seq<int>>, s: int, m: seq<bool>, e: seq<int>, d: seq<nat>, Q: seq<int>, P: set<int>)
  {
    && WellFormed(A)
    && ParentTree(A, s, m, e, d)
    && QueueMarked(A, m, Q, P)
    && Distinct(Q)
    && Cover(A, m, Q, P, {})
    && InRange(A, P)
    && Sorted(d, Q)
    && (|Q| > 0 ==> Cap(A, m, d, d[Q[0]] + 1))
    && Closed(A, m, d, P)
  }

  /** The invariant of the scan over adj(v) after the first `j` neighbours. */
  ghost predicate InnerInv(A: seq<seq<int>>, s: int, m: seq<bool>, e: seq<int>, d: seq<nat>, Q: seq<int>, P: set<int>,
                           v: int, j: int)
  {
    && WellFormed(A)
    && ParentTree(A, s, m, e, d)
    && 0 <= v < |A| && m[v] && v !in P && v !in Q
    && QueueMarked(A, m, Q, P)
    && Distinct(Q)
    && Cover(A, m, Q, P, {v})
    && InRange(A, P)
    && Sorted(d, Q)
    && Floor(d, Q, d[v])
    && Cap(A, m, d, d[v] + 1)
    && Closed(A, m, d, P)
    && Scanned(A, m, d, v, j)
  }

  /** The source is marked at level 0 and queued before the loop. */
  lemma StartStep(A: seq<seq<int>>, s: int, m: seq<bool>, e: seq<int>, d: seq<nat>)
    requires WellFormed(A) && 0 <= s < |A| && |m| == |A| && |e| == |A| && |d| == |A|
    requires forall x :: 0 <= x < |A| ==> !m[x]
    ensures OuterInv(A, s, m[s := true], e, d[s := 0], [s], {})
  {
    var m', d' := m[s := true], d[s := 0];
    assert ParentTree(A, s, m', e, d') by {
      forall v | 0 <= v < |A| && m'[v]
        ensures v == s
      {
      }
    }
  }

  /** Taking the front vertex off the queue starts the scan of its neighbours. */
  lemma DequeueStep(A: seq<seq<int>>, s: int, m: seq<bool>, e: seq<int>, d: seq<nat>, Q: seq<int>, P: set<int>)
    requires OuterInv(A, s, m, e, d, Q, P) && Q != []
    ensures InnerInv(A, s, m, e, d, Q[1..], P, Q[0], 0)
  {
    TailCover(A, m, Q, P);
    TailQueued(A, m, Q, P);
    TailDistinct(Q);
    TailSorted(d, Q);
  }

  /** The vertices marked are the processed ones, the rest of the queue and the dequeued front. */
  lemma TailCover(A: seq<seq<int>>, m: seq<bool>, Q: seq<int>, P: set<int>)
    requires Cover(A, m, Q, P, {}) && Q != []
    ensures Cover(A, m, Q[1..], P, {Q[0]})
  {
    var v, R := Q[0], Q[1..];
    forall x | 0 <= x < |A|
      ensures m[x] <==> x in P || x in R || x == v
    {
      if x in Q {
        var i :| 0 <= i < |Q| && Q[i] == x;
        if i > 0 {
          assert R[i - 1] == x;
        }
      }
      if x in R {
        var i :| 0 <= i < |R| && R[i] == x;
        assert Q[i + 1] == x;
      }
    }
  }

  lemma TailQueued(A: seq<seq<int>>, m: seq<bool>, Q: seq<int>, P: set<int>)
    requires QueueMarked(A, m, Q, P) && Q != []
    ensures QueueMarked(A, m, Q[1..], P)
  {
    forall i | 0 <= i < |Q| - 1
      ensures 0 <= Q[1..][i] < |A| && m[Q[1..][i]] && Q[1..][i] !in P
    {
      assert Q[1..][i] == Q[i + 1];
    }
  }

  /** The rest of a queue without repeats has none either, and does not hold the front. */
  lemma TailDistinct(Q: seq<int>)
    requires Distinct(Q) && Q != []
    ensures Distinct(Q[1..]) && Q[0] !in Q[1..]
  {
    var R := Q[1..];
    forall i, k | 0 <= i < k < |R|
      ensures R[i] != R[k]
    {
      assert R[i] == Q[i + 1] && R[k] == Q[k + 1];
    }
    forall i | 0 <= i < |R|
      ensures R[i] != Q[0]
    {
      assert R[i] == Q[i + 1];
    }
  }

  /** The rest of a level-sorted queue is level-sorted and no shallower than the front. */
  lemma TailSorted(d: seq<nat>, Q: seq<int>)
    requires Sorted(d, Q) && Q != [] && 0 <= Q[0] < |d|
    ensures Sorted(d, Q[1..]) && Floor(d, Q[1..], d[Q[0]])
  {
    var R := Q[1..];
    forall i, k | 0 <= i <= k < |R| && 0 <= R[i] < |d| && 0 <= R[k] < |d|
      ensures d[R[i]] <= d[R[k]]
    {
      assert R[i] == Q[i + 1] && R[k] == Q[k + 1];
    }
    forall i | 0 <= i < |R| && 0 <= R[i] < |d|
      ensures d[Q[0]] <= d[R[i]]
    {
      assert R[i] == Q[i + 1];
    }
  }

  lemma ParentTreeExtend(A: seq<seq<int>>, s: int, m: seq<bool>, e: seq<int>, d: seq<nat>, v: int, w: int)
    requires ParentTree(A, s, m, e, d)
    requires 0 <= v < |A| && m[v] && 0 <= w < |A| && !m[w] && w in A[v]
    ensures ParentTree(A, s, m[w := true], e[w := v], d[w := d[v] + 1])
  {
    var m', e', d' := m[w := true], e[w := v], d[w := d[v] + 1];
    forall x | 0 <= x < |A| && m'[x] && x != s
      ensures 0 <= e'[x] < |A| && m'[e'[x]] && x in A[e'[x]] && d'[x] == d'[e'[x]] + 1
    {
      if x != w {
        assert m[x];
        assert e[x] != w;
      }
    }
  }

  lemma QueueExtend(A: seq<seq<int>>, m: seq<bool>, d: seq<nat>, Q: seq<int>, P: set<int>, v: int, w: int)
    requires |m| == |A| && |d| == |A| && 0 <= v < |A| && m[v] && 0 <= w < |A| && !m[w]
    requires QueueMarked(A, m, Q, P) && Distinct(Q) && Cover(A, m, Q, P, {v}) && Sorted(d, Q)
    requires Cap(A, m, d, d[v] + 1) && Floor(d, Q, d[v])
    ensures var m', d', Q' := m[w := true], d[w := d[v] + 1], Q + [w];
      && QueueMarked(A, m', Q', P) && Distinct(Q') && Cover(A, m', Q', P, {v}) && Sorted(d', Q')
      && Cap(A, m', d', d'[v] + 1) && Floor(d', Q', d'[v])
  {
    var m', d', Q' := m[w := true], d[w := d[v] + 1], Q + [w];
    assert w !in Q;
    assert forall i :: 0 <= i < |Q| ==> Q'[i] == Q[i] && Q[i] != w;
    assert Cover(A, m', Q', P, {v}) by {
      forall x | 0 <= x < |A|
        ensures m'[x] <==> x in P || x in Q' || x == v
      {
        assert x in Q' <==> x in Q || x == w;
      }
    }
    assert Distinct(Q') by {
      forall i, k | 0 <= i < k < |Q'|
        ensures Q'[i] != Q'[k]
      {
        if k == |Q| {
          assert Q'[i] == Q[i];
        }
      }
    }
    assert Sorted(d', Q') by {
      forall i, k | 0 <= i <= k < |Q'| && 0 <= Q'[i] < |d'| && 0 <= Q'[k] < |d'|
        ensures d'[Q'[i]] <= d'[Q'[k]]
      {
        if k == |Q| && i < |Q| {
          assert m[Q[i]];
        }
      }
    }
  }

  lemma ClosedExtend(A: seq<seq<int>>, m: seq<bool>, d: seq<nat>, P: set<int>, v: int, w: int, j: int)
    requires Closed(A, m, d, P) && Scanned(A, m, d, v, j) && j < |A[v]| && A[v][j] == w
    requires m[v] && 0 <= w < |A| && !m[w] && v != w && w !in P
    ensures Closed(A, m[w := true], d[w := d[v] + 1], P)
    ensures Scanned(A, m[w := true], d[w := d[v] + 1], v, j + 1)
  {
    var m', d' := m[w := true], d[w := d[v] + 1];
    forall u, k | u in P && 0 <= u < |A| && 0 <= k < |A[u]|
      ensures 0 <= A[u][k] < |A| && m'[A[u][k]] && d'[A[u][k]] <= d'[u] + 1
    {
      assert m[A[u][k]];
      assert u != w;
    }
    forall k | 0 <= k < j + 1
      ensures 0 <= A[v][k] < |A| && m'[A[v][k]] && d'[A[v][k]] <= d'[v] + 1
    {
      if k < j {
        assert m[A[v][k]];
      }
    }
  }

  /** Looking at the next neighbour w when it is already marked: nothing changes. */
  lemma SkipStep(A: seq<seq<int>>, s: int, m: seq<bool>, e: seq<int>, d: seq<nat>, Q: seq<int>, P: set<int>,
                 v: int, j: int)
    requires InnerInv(A, s, m, e, d, Q, P, v, j) && j < |A[v]|
    requires 0 <= A[v][j] < |A| && m[A[v][j]]
    ensures InnerInv(A, s, m, e, d, Q, P, v, j + 1)
  {
    assert Scanned(A, m, d, v, j + 1);
  }

  /** Looking at the next neighbour w when it is unmarked: w is marked one level below v and queued. */
  lemma VisitStep(A: seq<seq<int>>, s: int, m: seq<bool>, e: seq<int>, d: seq<nat>, Q: seq<int>, P: set<int>,
                  v: int, j: int)
    requires InnerInv(A, s, m, e, d, Q, P, v, j) && j < |A[v]|
    requires 0 <= A[v][j] < |A| && !m[A[v][j]]
    ensures var w := A[v][j];
      InnerInv(A, s, m[w := true], e[w := v], d[w := d[v] + 1], Q + [w], P, v, j + 1)
  {
    var w := A[v][j];
    assert w in A[v];
    ParentTreeExtend(A, s, m, e, d, v, w);
    QueueExtend(A, m, d, Q, P, v, w);
    ClosedExtend(A, m, d, P, v, w, j);
  }

  /** Processing a fresh vertex strictly grows the processed set, which stays within the graph. */
  lemma ProgressBound(A: seq<seq<int>>, P: set<int>, v: int)
    requires InRange(A, P) && 0 <= v < |A| && v !in P
    ensures |P| < |P + {v}| <= |A|
  {
    Common.RangeSubsetCard(P + {v}, |A|);
  }

  /** Once every neighbour of v has been looked at, v joins the processed set. */
  lemma FinishStep(A: seq<seq<int>>, s: int, m: seq<bool>, e: seq<int>, d: seq<nat>, Q: seq<int>, P: set<int>, v: int)
    requires 0 <= v < |A| && InnerInv(A, s, m, e, d, Q, P, v, |A[v]|)
    ensures OuterInv(A, s, m, e, d, Q, P + {v})
  {
    ClosedFinish(A, m, d, P, v);
    assert QueueMarked(A, m, Q, P + {v});
    assert Cover(A, m, Q, P + {v}, {});
    if |Q| > 0 {
      assert d[v] <= d[Q[0]];
    }
  }

  lemma ClosedFinish(A: seq<seq<int>>, m: seq<bool>, d: seq<nat>, P: set<int>, v: int)
    requires Closed(A, m, d, P) && 0 <= v < |A| && Scanned(A, m, d, v, |A[v]|)
    ensures Closed(A, m, d, P + {v})
  {
  }

  /** Along any walk from the source through a closed marked set, levels are bounded by the walk's length. */
  lemma {:induction false} LevelBound(A: seq<seq<int>>, s: int, m: seq<bool>, e: seq<int>, d: seq<nat>, p: seq<int>)
    requires BfsTree(A, s, m, e, d)
    requires IsPath(A, p) && p[0] == s
    ensures m[p[|p| - 1]] && d[p[|p| - 1]] <= |p| - 1
    decreases |p|
  {
    if |p| > 1 {
      var q := p[..|p| - 1];
      assert IsPath(A, q);
      LevelBound(A, s, m, e, d, q);
      var u := q[|q| - 1];
      assert p[|p| - 1] in A[u];
      var k :| 0 <= k < |A[u]| && A[u][k] == p[|p| - 1];
    }
  }

  /** After the search, a vertex is marked exactly when the source reaches it. */
  lemma MarkedIffReach(A: seq<seq<int>>, s: int, m: seq<bool>, e: seq<int>, d: seq<nat>, v: int)
    requires BfsTree(A, s, m, e, d) && 0 <= v < |A|
    ensures m[v] <==> Reach(A, s, v)
  {
    if m[v] {
      var p := TreePath(A, s, m, e, d, v);
    }
    if Reach(A, s, v) {
      var p :| PathFromTo(A, p, s, v);
      LevelBound(A, s, m, e, d, p);
    }
  }

  /** With the queue empty the search has built its tree. */
  lemma FinishSearch(A: seq<seq<int>>, s: int, m: seq<bool>, e: seq<int>, d: seq<nat>, P: set<int>)
    requires OuterInv(A, s, m, e, d, [], P)
    ensures BfsTree(A, s, m, e, d)
  {
    forall u, k | 0 <= u < |A| && m[u] && 0 <= k < |A[u]|
      ensures 0 <= A[u][k] < |A| && m[A[u][k]] && d[A[u][k]] <= d[u] + 1
    {
      assert u in P;
    }
  }

  /** The tree path to a vertex is a shortest walk from the source. */
  lemma TreePathShortest(A: seq<seq<int>>, s: int, m: seq<bool>, e: seq<int>, d: seq<nat>, v: int, q: seq<int>)
    requires BfsTree(A, s, m, e, d)
    requires 0 <= v < |A| && m[v] && PathFromTo(A, q, s, v)
    ensures |TreePath(A, s, m, e, d, v)| <= |q|
  {
    LevelBound(A, s, m, e, d, q);
  }

  /** Following edgeTo from v towards the source: the next link extends the walk back by one vertex. */
  lemma TreePathStep(A: seq<seq<int>>, s: int, m: seq<bool>, e: seq<int>, d: seq<nat>, x: int)
    requires ParentTree(A, s, m, e, d)
    requires 0 <= x < |A| && m[x] && x != s
    ensures TreePath(A, s, m, e, d, x) == TreePath(A, s, m, e, d, e[x]) + [x]
    ensures d[e[x]] < d[x]
  {
  }
}
