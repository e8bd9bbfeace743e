// PrimMST (graphs/undirected/max-spanning-tree.ts): the eager version of Prim's
// algorithm, run from every vertex not yet marked, so it builds a minimum
// spanning forest of an edge-weighted graph with integer weights. It drives
// the (corrected) IndexMinPQ of index_min_pq.dfy; where the source calls a
// `decreaseKey` that IndexMinPQ does not have, the model calls changeKey.
// distTo holds the explicit infinity of distance_labels.dfy. The proof
// follows the vertices in the order they are marked: `ord` numbers them.
module PrimMinimumSpanningForest {
  import opened Common
  import opened Paths
  import opened EdgeWeightedGraphs
  import opened IndexMinPriorityQueue
  import opened LinkedQueue
  import opened DistanceLabels

  /** The graph as adjacency lists of vertices: entry k of x's list is the far end of A[x][k]. */
  ghost function Neighbours(A: seq<seq<Edge>>): (N: seq<seq<int>>)
    ensures |N| == |A|
    ensures forall x :: 0 <= x < |A| ==> |N[x]| == |A[x]|
    ensures forall x, k :: 0 <= x < |A| && 0 <= k < |A[x]| ==> N[x][k] == OtherEnd(A[x][k], x)
  {
    seq(|A|, x requires 0 <= x < |A| => seq(|A[x]|, k requires 0 <= k < |A[x]| => OtherEnd(A[x][k], x)))
  }

  /** The far end of an edge at v has v as a neighbour. */
  lemma NeighbourBack(A: seq<seq<Edge>>, v: int, k: int)
    requires Undirected(A) && 0 <= v < |A| && 0 <= k < |A[v]|
    ensures 0 <= Neighbours(A)[v][k] < |A| && v in Neighbours(A)[Neighbours(A)[v][k]]
  {
    var N, e := Neighbours(A), A[v][k];
    assert Incident(A, v, e);
    var w := OtherEnd(e, v);
    var k' :| 0 <= k' < |A[w]| && A[w][k'] == e;
    assert N[w][k'] == v;
  }

  /** The neighbour lists of an undirected graph name its vertices and run both ways. */
  lemma NeighboursUndirected(A: seq<seq<Edge>>)
    requires Undirected(A)
    ensures WellFormed(Neighbours(A)) && ReverseOf(Neighbours(A), Neighbours(A))
  {
    var N := Neighbours(A);
    forall v, w | 0 <= v < |N| && w in N[v]
      ensures 0 <= w < |N| && v in N[w]
    {
      var k :| 0 <= k < |N[v]| && N[v][k] == w;
      NeighbourBack(A, v, k);
    }
  }

  /** v is connected to some vertex of R. */
  ghost predicate Covered(N: seq<seq<int>>, R: set<int>, v: int)
  {
    exists r :: r in R && Reach(N, r, v)
  }

  /** R holds one vertex per connected component, the smallest one. */
  ghost predicate Representatives(N: seq<seq<int>>, R: set<int>)
  {
    && (forall r :: r in R ==> 0 <= r < |N|)
    && (forall v :: 0 <= v < |N| ==> Covered(N, R, v))
    && (forall r, r' :: r in R && r' in R && Reach(N, r, r') ==> r == r')
    && (forall r, u :: r in R && 0 <= u < r ==> !Reach(N, u, r))
  }

  /** The defined entries of edgeTo, in vertex order. */
  function Chosen(edgeTo: seq<Option<Edge>>): seq<Edge>
  {
    if edgeTo == [] then []
    else Chosen(edgeTo[..|edgeTo| - 1]) + (match edgeTo[|edgeTo| - 1] case Some(e) => [e] case None => [])
  }

  /** The vertices without a chosen edge. */
  ghost function Roots(edgeTo: seq<Option<Edge>>): set<int>
  {
    set r | 0 <= r < |edgeTo| && edgeTo[r].None?
  }

  /** The sum of the weights of es. */
  function TotalWeight(es: seq<Edge>): int
  {
    if es == [] then 0 else TotalWeight(es[..|es| - 1]) + es[|es| - 1].weight
  }

  /** Every vertex either has a chosen edge or is a root. */
  lemma {:induction false} ChosenCount(edgeTo: seq<Option<Edge>>)
    ensures |Chosen(edgeTo)| + |Roots(edgeTo)| == |edgeTo|
  {
    if edgeTo != [] {
      var init := edgeTo[..|edgeTo| - 1];
      ChosenCount(init);
      var n := |init|;
      assert n !in Roots(init);
      if edgeTo[n].None? {
        assert Roots(edgeTo) == Roots(init) + {n};
      } else {
        assert Roots(edgeTo) == Roots(init);
      }
    }
  }

  /** Sizes agree, the marked vertices are the numbered ones, and the numbers are distinct and below |ord|. */
  ghost predicate Shape(A: seq<seq<Edge>>, marked: seq<bool>, dist: seq<Dist>, edgeTo: seq<Option<Edge>>, ord: map<int, nat>)
  {
    && |marked| == |A| && |dist| == |A| && |edgeTo| == |A|
    && (forall x :: 0 <= x < |A| ==> (marked[x] <==> x in ord))
    && (forall x :: x in ord ==> 0 <= x < |A| && ord[x] < |ord|)
    && (forall x, y :: x in ord && y in ord && x != y ==> ord[x] != ord[y])
  }

  /**
   * e = edgeTo[w] joins w to a different, marked vertex x, lies in x's bag, and w's label is
   * e's weight; if w is marked too, x was marked first.
   */
  ghost predicate ParentEdge(A: seq<seq<Edge>>, dist: seq<Dist>, ord: map<int, nat>, w: int, e: Edge)
  {
    && 0 <= w < |A| == |dist| && (e.v == w || e.w == w) && OtherEnd(e, w) != w
    && OtherEnd(e, w) in ord && 0 <= OtherEnd(e, w) < |A| && e in A[OtherEnd(e, w)]
    && dist[w] == Finite(e.weight)
    && (w in ord ==> ord[OtherEnd(e, w)] < ord[w])
  }

  ghost predicate Tree(A: seq<seq<Edge>>, dist: seq<Dist>, edgeTo: seq<Option<Edge>>, ord: map<int, nat>)
  {
    forall w :: 0 <= w < |edgeTo| && edgeTo[w].Some? ==> ParentEdge(A, dist, ord, w, edgeTo[w].value)
  }

  /** The vertices marked before r include every vertex below r and every neighbour of their own. */
  ghost predicate RootCut(A: seq<seq<Edge>>, ord: map<int, nat>, r: int)
  {
    && r in ord
    && (forall u :: 0 <= u < r ==> u in ord && ord[u] < ord[r])
    && (forall x, k :: x in ord && ord[x] < ord[r] && 0 <= x < |A| && 0 <= k < |A[x]| ==>
          OtherEnd(A[x][k], x) in ord && ord[OtherEnd(A[x][k], x)] < ord[r])
  }

  /** Every marked vertex without a chosen edge started a prim call. */
  ghost predicate Started(A: seq<seq<Edge>>, edgeTo: seq<Option<Edge>>, ord: map<int, nat>)
  {
    forall r :: 0 <= r < |edgeTo| && r in ord && edgeTo[r].None? ==> RootCut(A, ord, r)
  }

  /** Every labelled vertex that is not marked, other than the current start s, has a chosen edge. */
  ghost predicate Attached(dist: seq<Dist>, edgeTo: seq<Option<Edge>>, ord: map<int, nat>, s: int)
  {
    forall w :: 0 <= w < |dist| && w < |edgeTo| && dist[w].Finite? && w !in ord && w != s ==> edgeTo[w].Some?
  }

  /** Edge e at x is scanned: its far end is marked, or labelled within e's weight. */
  ghost predicate Tight(dist: seq<Dist>, ord: map<int, nat>, e: Edge, x: int)
  {
    var y := OtherEnd(e, x);
    y in ord || (0 <= y < |dist| && dist[y].Finite? && dist[y].d <= e.weight)
  }

  /** The first j edges of x's bag are scanned. */
  ghost predicate ScannedUpTo(A: seq<seq<Edge>>, dist: seq<Dist>, ord: map<int, nat>, x: int, j: int)
  {
    0 <= x < |A| && 0 <= j <= |A[x]| && forall k :: 0 <= k < j ==> Tight(dist, ord, A[x][k], x)
  }

  /** Every marked vertex but `except` has its whole bag scanned. */
  ghost predicate Scanned(A: seq<seq<Edge>>, dist: seq<Dist>, ord: map<int, nat>, except: int)
  {
    forall x :: x in ord && x != except ==> 0 <= x < |A| && ScannedUpTo(A, dist, ord, x, |A[x]|)
  }

  /** y lies outside the vertices marked before time t. */
  ghost predicate Outside(ord: map<int, nat>, y: int, t: int)
  {
    !(y in ord && ord[y] < t)
  }

  /** e is no heavier than any edge leaving the vertices marked before v. */
  ghost predicate LightAt(A: seq<seq<Edge>>, ord: map<int, nat>, v: int, e: Edge)
  {
    v in ord &&
    forall x, k :: x in ord && ord[x] < ord[v] && 0 <= x < |A| && 0 <= k < |A[x]| && Outside(ord, OtherEnd(A[x][k], x), ord[v]) ==>
      e.weight <= A[x][k].weight
  }

  ghost predicate Light(A: seq<seq<Edge>>, edgeTo: seq<Option<Edge>>, ord: map<int, nat>)
  {
    forall v :: 0 <= v < |edgeTo| && v in ord && edgeTo[v].Some? ==> LightAt(A, ord, v, edgeTo[v].value)
  }

  /** Every neighbour of a marked vertex is marked. */
  ghost predicate Closed(A: seq<seq<Edge>>, ord: map<int, nat>)
  {
    forall x, k :: x in ord && 0 <= x < |A| && 0 <= k < |A[x]| ==> OtherEnd(A[x][k], x) in ord
  }

  ghost predicate Inv(A: seq<seq<Edge>>, marked: seq<bool>, dist: seq<Dist>, edgeTo: seq<Option<Edge>>, ord: map<int, nat>,
                      C: map<int, int>, s: int, except: int)
  {
    && Undirected(A) && Shape(A, marked, dist, edgeTo, ord) && Tree(A, dist, edgeTo, ord) && Started(A, edgeTo, ord)
    && Frontier(dist, ord, C) && Attached(dist, edgeTo, ord, s) && Scanned(A, dist, ord, except) && Light(A, edgeTo, ord)
  }

  /** Within prim(s): every vertex below s is marked, and until s is, s alone is queued, at 0, with nothing marked next to it. */
  ghost predicate Growing(A: seq<seq<Edge>>, edgeTo: seq<Option<Edge>>, ord: map<int, nat>, C: map<int, int>, s: int)
  {
    && 0 <= s < |A| == |edgeTo| && (forall u :: 0 <= u < s ==> u in ord)
    && (s !in ord ==> Closed(A, ord) && C == map[s := 0] && edgeTo[s] == None)
  }

  /** The state while v's bag is being scanned, j entries done. */
  ghost predicate Scanning(A: seq<seq<Edge>>, marked: seq<bool>, dist: seq<Dist>, edgeTo: seq<Option<Edge>>, ord: map<int, nat>,
                           C: map<int, int>, s: int, v: int, j: int)
  {
    Inv(A, marked, dist, edgeTo, ord, C, s, v) && v in ord && ScannedUpTo(A, dist, ord, v, j)
  }

  /** Between prim calls nothing is queued, so every neighbour of a marked vertex is marked, and any start will do. */
  lemma Idle(A: seq<seq<Edge>>, marked: seq<bool>, dist: seq<Dist>, edgeTo: seq<Option<Edge>>, ord: map<int, nat>, s: int, s': int)
    requires Inv(A, marked, dist, edgeTo, ord, map[], s, -1)
    ensures Inv(A, marked, dist, edgeTo, ord, map[], s', -1) && Closed(A, ord)
  {
    forall x, k | x in ord && 0 <= x < |A| && 0 <= k < |A[x]|
      ensures OtherEnd(A[x][k], x) in ord
    {
      assert ScannedUpTo(A, dist, ord, x, |A[x]|);
      assert Tight(dist, ord, A[x][k], x);
    }
  }

  /** prim(s) for an unmarked s: s gets label 0 and is queued alone. */
  lemma Begin(A: seq<seq<Edge>>, marked: seq<bool>, dist: seq<Dist>, edgeTo: seq<Option<Edge>>, ord: map<int, nat>, s: int)
    requires Inv(A, marked, dist, edgeTo, ord, map[], s, -1) && 0 <= s < |A| && s !in ord
    requires forall u :: 0 <= u < s ==> u in ord
    ensures Inv(A, marked, dist[s := Finite(0)], edgeTo, ord, map[s := 0], s, -1)
    ensures Growing(A, edgeTo, ord, map[s := 0], s) && Decreased(dist, dist[s := Finite(0)])
  {
    Idle(A, marked, dist, edgeTo, ord, s, s);
    var dist' := dist[s := Finite(0)];
    assert dist[s] == Infinity;
    assert edgeTo[s] == None;
    forall x | x in ord && x != -1
      ensures 0 <= x < |A| && ScannedUpTo(A, dist', ord, x, |A[x]|)
    {
      assert ScannedUpTo(A, dist, ord, x, |A[x]|);
      forall k | 0 <= k < |A[x]|
        ensures Tight(dist', ord, A[x][k], x)
      {
        assert Tight(dist, ord, A[x][k], x);
      }
    }
    assert Tree(A, dist', edgeTo, ord);
  }

  /** delMin's vertex v is marked next: if it has a chosen edge, that edge is light for the cut it crosses. */
  lemma Settle(A: seq<seq<Edge>>, marked: seq<bool>, dist: seq<Dist>, edgeTo: seq<Option<Edge>>, ord: map<int, nat>,
               C: map<int, int>, s: int, v: int)
    requires Inv(A, marked, dist, edgeTo, ord, C, s, -1) && Growing(A, edgeTo, ord, C, s)
    requires v in C && forall k :: k in C ==> C[v] <= C[k]
    ensures v !in ord && 0 <= v < |A|
    ensures Scanning(A, marked[v := true], dist, edgeTo, ord[v := |ord|], C - {v}, s, v, 0)
    ensures Growing(A, edgeTo, ord[v := |ord|], C - {v}, s) && s in ord[v := |ord|]
  {
    var ord' := ord[v := |ord|];
    SettleShape(A, marked, dist, edgeTo, ord, v);
    SettleTree(A, dist, edgeTo, ord, v);
    if edgeTo[v].None? {
      assert v == s;
      SettleRoot(A, ord, v);
    } else {
      SettleLight(A, dist, edgeTo, ord, C, v);
    }
    SettleStarted(A, edgeTo, ord, v);
    SettleLightAll(A, edgeTo, ord, v);
    SettleScanned(A, dist, ord, v);
    SettleFrontier(dist, edgeTo, ord, C, s, v);
    Assemble(A, marked[v := true], dist, edgeTo, ord', C - {v}, s, v, 0);
  }

  /** The parts of Scanning, put together. */
  lemma Assemble(A: seq<seq<Edge>>, marked: seq<bool>, dist: seq<Dist>, edgeTo: seq<Option<Edge>>, ord: map<int, nat>,
                 C: map<int, int>, s: int, v: int, j: int)
    requires Undirected(A) && Shape(A, marked, dist, edgeTo, ord) && Tree(A, dist, edgeTo, ord) && Started(A, edgeTo, ord)
    requires Frontier(dist, ord, C) && Attached(dist, edgeTo, ord, s) && Scanned(A, dist, ord, v) && Light(A, edgeTo, ord)
    requires v in ord && ScannedUpTo(A, dist, ord, v, j)
    ensures Scanning(A, marked, dist, edgeTo, ord, C, s, v, j)
  {
  }

  lemma SettleShape(A: seq<seq<Edge>>, marked: seq<bool>, dist: seq<Dist>, edgeTo: seq<Option<Edge>>, ord: map<int, nat>, v: int)
    requires Shape(A, marked, dist, edgeTo, ord) && 0 <= v < |A| && v !in ord
    ensures Shape(A, marked[v := true], dist, edgeTo, ord[v := |ord|])
  {
  }

  lemma SettleFrontier(dist: seq<Dist>, edgeTo: seq<Option<Edge>>, ord: map<int, nat>, C: map<int, int>, s: int, v: int)
    requires Frontier(dist, ord, C) && Attached(dist, edgeTo, ord, s) && v in C
    ensures Frontier(dist, ord[v := |ord|], C - {v}) && Attached(dist, edgeTo, ord[v := |ord|], s)
  {
  }

  lemma SettleTree(A: seq<seq<Edge>>, dist: seq<Dist>, edgeTo: seq<Option<Edge>>, ord: map<int, nat>, v: int)
    requires Tree(A, dist, edgeTo, ord) && v !in ord && (forall x :: x in ord ==> 0 <= x < |A| && ord[x] < |ord|)
    ensures Tree(A, dist, edgeTo, ord[v := |ord|])
  {
    forall w | 0 <= w < |edgeTo| && edgeTo[w].Some?
      ensures ParentEdge(A, dist, ord[v := |ord|], w, edgeTo[w].value)
    {
      assert ParentEdge(A, dist, ord, w, edgeTo[w].value);
    }
  }

  lemma SettleStarted(A: seq<seq<Edge>>, edgeTo: seq<Option<Edge>>, ord: map<int, nat>, v: int)
    requires Started(A, edgeTo, ord) && v !in ord && 0 <= v < |edgeTo| && (forall x :: x in ord ==> 0 <= x < |A| && ord[x] < |ord|)
    requires edgeTo[v].None? ==> RootCut(A, ord[v := |ord|], v)
    ensures Started(A, edgeTo, ord[v := |ord|])
  {
    var ord' := ord[v := |ord|];
    forall r | 0 <= r < |edgeTo| && r in ord' && edgeTo[r].None?
      ensures RootCut(A, ord', r)
    {
      if r != v {
        assert RootCut(A, ord, r);
      }
    }
  }

  lemma SettleLightAll(A: seq<seq<Edge>>, edgeTo: seq<Option<Edge>>, ord: map<int, nat>, v: int)
    requires Light(A, edgeTo, ord) && v !in ord && 0 <= v < |edgeTo| && (forall x :: x in ord ==> 0 <= x < |A| && ord[x] < |ord|)
    requires edgeTo[v].Some? ==> LightAt(A, ord[v := |ord|], v, edgeTo[v].value)
    ensures Light(A, edgeTo, ord[v := |ord|])
  {
    var ord' := ord[v := |ord|];
    forall u | 0 <= u < |edgeTo| && u in ord' && edgeTo[u].Some?
      ensures LightAt(A, ord', u, edgeTo[u].value)
    {
      if u != v {
        assert LightAt(A, ord, u, edgeTo[u].value);
      }
    }
  }

  lemma SettleScanned(A: seq<seq<Edge>>, dist: seq<Dist>, ord: map<int, nat>, v: int)
    requires Scanned(A, dist, ord, -1) && v !in ord && 0 <= v < |A| && (forall x :: x in ord ==> 0 <= x < |A| && ord[x] < |ord|)
    ensures Scanned(A, dist, ord[v := |ord|], v) && ScannedUpTo(A, dist, ord[v := |ord|], v, 0)
  {
    var ord' := ord[v := |ord|];
    forall x | x in ord' && x != v
      ensures 0 <= x < |A| && ScannedUpTo(A, dist, ord', x, |A[x]|)
    {
      assert ScannedUpTo(A, dist, ord, x, |A[x]|);
      forall k | 0 <= k < |A[x]|
        ensures Tight(dist, ord', A[x][k], x)
      {
        assert Tight(dist, ord, A[x][k], x);
      }
    }
  }

  /** The start vertex is marked while the marked vertices are closed. */
  lemma SettleRoot(A: seq<seq<Edge>>, ord: map<int, nat>, s: int)
    requires Closed(A, ord) && s !in ord && (forall x :: x in ord ==> ord[x] < |ord|)
    requires forall u :: 0 <= u < s ==> u in ord
    ensures RootCut(A, ord[s := |ord|], s)
  {
    var ord' := ord[s := |ord|];
    forall x, k | x in ord' && ord'[x] < ord'[s] && 0 <= x < |A| && 0 <= k < |A[x]|
      ensures OtherEnd(A[x][k], x) in ord' && ord'[OtherEnd(A[x][k], x)] < ord'[s]
    {
      assert x in ord;
    }
  }

  /** A queued vertex with the least key is joined by an edge no heavier than any edge leaving the marked vertices. */
  lemma SettleLight(A: seq<seq<Edge>>, dist: seq<Dist>, edgeTo: seq<Option<Edge>>, ord: map<int, nat>, C: map<int, int>, v: int)
    requires |dist| == |A| && |edgeTo| == |A| && (forall x :: x in ord ==> 0 <= x < |A| && ord[x] < |ord|)
    requires Tree(A, dist, edgeTo, ord) && Frontier(dist, ord, C) && Scanned(A, dist, ord, -1)
    requires v in C && (forall k :: k in C ==> C[v] <= C[k]) && 0 <= v < |edgeTo| && edgeTo[v].Some?
    ensures LightAt(A, ord[v := |ord|], v, edgeTo[v].value)
  {
    var ord', e := ord[v := |ord|], edgeTo[v].value;
    assert ParentEdge(A, dist, ord, v, e);
    forall x, k | x in ord' && ord'[x] < ord'[v] && 0 <= x < |A| && 0 <= k < |A[x]| && Outside(ord', OtherEnd(A[x][k], x), ord'[v])
      ensures e.weight <= A[x][k].weight
    {
      assert x in ord && x != v;
      assert ScannedUpTo(A, dist, ord, x, |A[x]|);
      assert Tight(dist, ord, A[x][k], x);
    }
  }

  /** Scanning edge j of v finds its far end w unmarked and above the edge's weight: w takes the edge and the weight. */
  lemma Improve(A: seq<seq<Edge>>, marked: seq<bool>, dist0: seq<Dist>, dist: seq<Dist>, edgeTo: seq<Option<Edge>>, ord: map<int, nat>,
                C: map<int, int>, s: int, v: int, j: int, e: Edge, w: int)
    requires Scanning(A, marked, dist, edgeTo, ord, C, s, v, j) && Decreased(dist0, dist)
    requires j < |A[v]| && e == A[v][j] && w == OtherEnd(e, v) && 0 <= w < |A| && w !in ord && Exceeds(dist[w], e.weight)
    ensures Scanning(A, marked, dist[w := Finite(e.weight)], edgeTo[w := Some(e)], ord, C[w := e.weight], s, v, j + 1)
    ensures Decreased(dist0, dist[w := Finite(e.weight)])
  {
    var dist', edgeTo' := dist[w := Finite(e.weight)], edgeTo[w := Some(e)];
    assert Incident(A, v, e);
    ImproveTree(A, dist, edgeTo, ord, v, e, w);
    ImproveScanned(A, dist, ord, v, j, e, w);
    ImproveUnmarked(A, marked, dist, edgeTo, ord, e, w);
    ImproveFrontier(dist, edgeTo, ord, C, s, e.weight, e, w);
    Assemble(A, marked, dist', edgeTo', ord, C[w := e.weight], s, v, j + 1);
  }

  /** Changing the entries of an unmarked w leaves the numbering and the marked roots and edges alone. */
  lemma ImproveUnmarked(A: seq<seq<Edge>>, marked: seq<bool>, dist: seq<Dist>, edgeTo: seq<Option<Edge>>, ord: map<int, nat>, e: Edge, w: int)
    requires Shape(A, marked, dist, edgeTo, ord) && Started(A, edgeTo, ord) && Light(A, edgeTo, ord)
    requires 0 <= w < |A| && w !in ord
    ensures Shape(A, marked, dist[w := Finite(e.weight)], edgeTo[w := Some(e)], ord)
    ensures Started(A, edgeTo[w := Some(e)], ord) && Light(A, edgeTo[w := Some(e)], ord)
  {
  }

  /** w labelled nd and queued at nd, with its chosen edge set. */
  lemma ImproveFrontier(dist: seq<Dist>, edgeTo: seq<Option<Edge>>, ord: map<int, nat>, C: map<int, int>, s: int, nd: int, e: Edge, w: int)
    requires Frontier(dist, ord, C) && Attached(dist, edgeTo, ord, s) && |dist| == |edgeTo|
    requires 0 <= w < |dist| && w !in ord
    ensures Frontier(dist[w := Finite(nd)], ord, C[w := nd]) && Attached(dist[w := Finite(nd)], edgeTo[w := Some(e)], ord, s)
  {
  }

  lemma ImproveTree(A: seq<seq<Edge>>, dist: seq<Dist>, edgeTo: seq<Option<Edge>>, ord: map<int, nat>, v: int, e: Edge, w: int)
    requires Tree(A, dist, edgeTo, ord) && |dist| == |A| == |edgeTo|
    requires v in ord && 0 <= v < |A| && e in A[v] && (e.v == v || e.w == v)
    requires w == OtherEnd(e, v) && 0 <= w < |A| && w !in ord
    ensures Tree(A, dist[w := Finite(e.weight)], edgeTo[w := Some(e)], ord)
  {
    var dist', edgeTo' := dist[w := Finite(e.weight)], edgeTo[w := Some(e)];
    forall u | 0 <= u < |edgeTo'| && edgeTo'[u].Some?
      ensures ParentEdge(A, dist', ord, u, edgeTo'[u].value)
    {
      if u != w {
        assert ParentEdge(A, dist, ord, u, edgeTo[u].value);
      }
    }
  }

  /** Lowering an unmarked label keeps scanned edges scanned, and scans edge j of v. */
  lemma ImproveScanned(A: seq<seq<Edge>>, dist: seq<Dist>, ord: map<int, nat>, v: int, j: int, e: Edge, w: int)
    requires Scanned(A, dist, ord, v) && ScannedUpTo(A, dist, ord, v, j) && j < |A[v]| && v in ord
    requires e == A[v][j] && w == OtherEnd(e, v) && 0 <= w < |A| == |dist| && w !in ord && Exceeds(dist[w], e.weight)
    ensures Scanned(A, dist[w := Finite(e.weight)], ord, v) && ScannedUpTo(A, dist[w := Finite(e.weight)], ord, v, j + 1)
  {
    var dist' := dist[w := Finite(e.weight)];
    assert Decreased(dist, dist');
    forall x | x in ord && x != v
      ensures 0 <= x < |A| && ScannedUpTo(A, dist', ord, x, |A[x]|)
    {
      ScannedLower(A, dist, dist', ord, x, |A[x]|);
    }
    ScannedLower(A, dist, dist', ord, v, j);
    assert Tight(dist', ord, e, v);
  }

  /** Scanned edges stay scanned when labels drop. */
  lemma ScannedLower(A: seq<seq<Edge>>, dist: seq<Dist>, dist': seq<Dist>, ord: map<int, nat>, x: int, j: int)
    requires ScannedUpTo(A, dist, ord, x, j) && Decreased(dist, dist')
    ensures ScannedUpTo(A, dist', ord, x, j)
  {
    forall k | 0 <= k < j
      ensures Tight(dist', ord, A[x][k], x)
    {
      assert Tight(dist, ord, A[x][k], x);
    }
  }

  /** An edge to a marked vertex, or one no lighter than the far end's label, is skipped and counts as scanned. */
  lemma Skip(A: seq<seq<Edge>>, dist: seq<Dist>, ord: map<int, nat>, v: int, j: int)
    requires ScannedUpTo(A, dist, ord, v, j) && j < |A[v]|
    requires OtherEnd(A[v][j], v) in ord || (0 <= OtherEnd(A[v][j], v) < |dist| && !Exceeds(dist[OtherEnd(A[v][j], v)], A[v][j].weight))
    ensures ScannedUpTo(A, dist, ord, v, j + 1)
  {
    assert Tight(dist, ord, A[v][j], v);
  }

  /** The whole bag of v scanned: v joins the fully scanned vertices. */
  lemma Finish(A: seq<seq<Edge>>, marked: seq<bool>, dist: seq<Dist>, edgeTo: seq<Option<Edge>>, ord: map<int, nat>,
               C: map<int, int>, s: int, v: int)
    requires 0 <= v < |A| && Scanning(A, marked, dist, edgeTo, ord, C, s, v, |A[v]|)
    ensures Inv(A, marked, dist, edgeTo, ord, C, s, -1)
  {
  }

  /** x's component lies in the vertices marked before every root marked after x. */
  lemma CutClosed(A: seq<seq<Edge>>, ord: map<int, nat>, r: int, u: int, x: int)
    requires Undirected(A) && RootCut(A, ord, r) && u in ord && ord[u] < ord[r] && Reach(Neighbours(A), u, x)
    ensures x in ord && ord[x] < ord[r]
  {
    var N := Neighbours(A);
    var S := set y | y in ord && ord[y] < ord[r];
    forall y, z | y in S && 0 <= y < |N| && z in N[y]
      ensures z in S
    {
      var k :| 0 <= k < |N[y]| && N[y][k] == z;
      assert OtherEnd(A[y][k], y) == z;
    }
    ClosedContainsReach(N, S, u, x);
  }

  /** Every vertex is connected to a root, through its chain of chosen edges. */
  lemma {:induction false} ReachesRoot(A: seq<seq<Edge>>, dist: seq<Dist>, edgeTo: seq<Option<Edge>>, ord: map<int, nat>, v: int)
    requires Undirected(A) && Tree(A, dist, edgeTo, ord) && |edgeTo| == |A| && 0 <= v < |A| && v in ord
    ensures Covered(Neighbours(A), Roots(edgeTo), v)
    decreases ord[v]
  {
    var N := Neighbours(A);
    match edgeTo[v]
    case None =>
      ReachRefl(N, v);
      assert v in Roots(edgeTo);
    case Some(e) =>
      assert ParentEdge(A, dist, ord, v, e);
      var x := OtherEnd(e, v);
      ReachesRoot(A, dist, edgeTo, ord, x);
      var r :| r in Roots(edgeTo) && Reach(N, r, x);
      var k :| 0 <= k < |A[x]| && A[x][k] == e;
      assert N[x][k] == v;
      ReachStep(N, r, x, v);
  }

  /** After the outer loop the vertices without a chosen edge are the smallest vertices of the components, one each. */
  lemma {:induction false} RootsRepresent(A: seq<seq<Edge>>, marked: seq<bool>, dist: seq<Dist>, edgeTo: seq<Option<Edge>>, ord: map<int, nat>)
    requires Inv(A, marked, dist, edgeTo, ord, map[], |A|, -1) && forall u :: 0 <= u < |A| ==> u in ord
    ensures Representatives(Neighbours(A), Roots(edgeTo))
  {
    var N, R := Neighbours(A), Roots(edgeTo);
    NeighboursUndirected(A);
    forall v | 0 <= v < |N|
      ensures Covered(N, R, v)
    {
      ReachesRoot(A, dist, edgeTo, ord, v);
    }
    forall r, r' | r in R && r' in R && Reach(N, r, r')
      ensures r == r'
    {
      if r != r' {
        assert RootCut(A, ord, r) && RootCut(A, ord, r');
        if ord[r] < ord[r'] {
          CutClosed(A, ord, r', r, r');
        } else {
          ReachReverse(N, N, r', r);
          CutClosed(A, ord, r, r', r);
        }
      }
    }
    forall r, u | r in R && 0 <= u < r
      ensures !Reach(N, u, r)
    {
      assert RootCut(A, ord, r);
      if Reach(N, u, r) {
        CutClosed(A, ord, r, u, r);
      }
    }
  }

  /** A chosen edge of edgeTo is an entry of edgeTo. */
  lemma {:induction false} ChosenEntries(edgeTo: seq<Option<Edge>>, i: int)
    requires 0 <= i < |Chosen(edgeTo)|
    ensures exists w :: 0 <= w < |edgeTo| && edgeTo[w] == Some(Chosen(edgeTo)[i])
  {
    var init := edgeTo[..|edgeTo| - 1];
    if i < |Chosen(init)| {
      ChosenEntries(init, i);
      var w :| 0 <= w < |init| && init[w] == Some(Chosen(init)[i]);
      assert edgeTo[w] == Some(Chosen(edgeTo)[i]);
    } else {
      assert edgeTo[|edgeTo| - 1] == Some(Chosen(edgeTo)[i]);
    }
  }

  /** e is an edge of the graph: it sits in the bag of its endpoint v. */
  ghost predicate GraphEdge(A: seq<seq<Edge>>, e: Edge)
  {
    0 <= e.v < |A| && e in A[e.v]
  }

  class PrimMST {
    /** The bags of the graph the constructor was given. */
    ghost const A: seq<seq<Edge>>
    var edgeTo: seq<Option<Edge>>
    var distTo: seq<Dist>
    var marked: seq<bool>
    const pq: IndexMinPQ
    /** The order in which the vertices were marked. */
    ghost var ord: map<int, nat>

    /** After construction: every vertex is marked and scanned, and the queue is empty. */
    ghost predicate Valid()
      reads this
    {
      Inv(A, marked, distTo, edgeTo, ord, map[], |A|, -1) && forall u :: 0 <= u < |A| ==> u in ord
    }

    /** Labels every vertex +infinity, then runs prim from each vertex still unmarked, in vertex order. */
    constructor(G: EdgeWeightedGraph)
      requires G.Valid()
      ensures Valid() && A == G.Adj
    {
      var V := G.V();
      var m: seq<bool> := seq(V, _ => false);
      var parent: seq<Option<Edge>> := seq(V, _ => None);
      var q := new IndexMinPQ(V);
      var dist: seq<Dist> := [];
      for v := 0 to V
        invariant |dist| == v && forall u :: 0 <= u < v ==> dist[u] == Infinity
      {
        dist := dist + [Infinity];
      }
      BuiltUndirected(G.vertices, G.Added);
      ghost var ord;
      m, dist, parent, ord := Forest(G, q, m, dist, parent);
      A := G.Adj;
      edgeTo := parent;
      distTo := dist;
      marked := m;
      pq := q;
      this.ord := ord;
    }

    /** The constructor's loop over the vertices. */
    static method Forest(G: EdgeWeightedGraph, q: IndexMinPQ, marked0: seq<bool>, dist0: seq<Dist>, edgeTo0: seq<Option<Edge>>)
      returns (marked: seq<bool>, dist: seq<Dist>, edgeTo: seq<Option<Edge>>, ghost ord: map<int, nat>)
      requires G.Valid() && q.Valid() && q.maxN == G.vertices && q !in G.Repr && q.Contents() == map[]
      requires Inv(G.Adj, marked0, dist0, edgeTo0, map[], map[], 0, -1)
      modifies q
      ensures Inv(G.Adj, marked, dist, edgeTo, ord, map[], G.vertices, -1) && forall u :: 0 <= u < G.vertices ==> u in ord
      ensures Decreased(dist0, dist)
    {
      ghost var A := G.Adj;
      marked, dist, edgeTo, ord := marked0, dist0, edgeTo0, map[];
      for v := 0 to G.V()
        invariant q.Valid() && q.maxN == |A| && G.Valid() && G.Adj == A && q.Contents() == map[]
        invariant Inv(A, marked, dist, edgeTo, ord, map[], v, -1) && (forall u :: 0 <= u < v ==> u in ord)
        invariant Decreased(dist0, dist)
      {
        if !marked[v] {
          ghost var dist1 := dist;
          marked, dist, edgeTo, ord := Grow(G, q, v, marked, dist, edgeTo, ord);
          DecreasedTrans(dist0, dist1, dist);
        }
        Idle(A, marked, dist, edgeTo, ord, v, v + 1);
      }
    }

    /** prim(s): s gets label 0 and is queued; then, until the queue runs dry, its minimum is marked and scanned. */
    static method Grow(G: EdgeWeightedGraph, q: IndexMinPQ, s: int, marked0: seq<bool>, dist0: seq<Dist>, edgeTo0: seq<Option<Edge>>,
                       ghost ord0: map<int, nat>)
      returns (marked: seq<bool>, dist: seq<Dist>, edgeTo: seq<Option<Edge>>, ghost ord: map<int, nat>)
      requires G.Valid() && q.Valid() && q.maxN == G.vertices && q !in G.Repr && q.Contents() == map[]
      requires Inv(G.Adj, marked0, dist0, edgeTo0, ord0, map[], s, -1) && 0 <= s < G.vertices
      requires s !in ord0 && forall u :: 0 <= u < s ==> u in ord0
      modifies q
      ensures q.Valid() && q.maxN == G.vertices && q.Contents() == map[] && G.Valid()
      ensures Inv(G.Adj, marked, dist, edgeTo, ord, map[], s, -1) && s in ord && forall u :: 0 <= u < s ==> u in ord
      ensures Decreased(dist0, dist)
    {
      ghost var A := G.Adj;
      ghost var V := G.vertices;
      Begin(A, marked0, dist0, edgeTo0, ord0, s);
      marked, dist, edgeTo, ord := marked0, dist0[s := Finite(0)], edgeTo0, ord0;
      var _ := q.Insert(s, dist[s].d);
      ghost var dist1 := dist;
      marked, dist, edgeTo, ord := Drain(G, q, s, marked, dist, edgeTo, ord);
      DecreasedTrans(dist0, dist1, dist);
    }

    /** prim's loop: while the queue is not empty, its minimum is marked and scanned. */
    static method Drain(G: EdgeWeightedGraph, q: IndexMinPQ, ghost s: int, marked0: seq<bool>, dist0: seq<Dist>, edgeTo0: seq<Option<Edge>>,
                        ghost ord0: map<int, nat>)
      returns (marked: seq<bool>, dist: seq<Dist>, edgeTo: seq<Option<Edge>>, ghost ord: map<int, nat>)
      requires G.Valid() && q.Valid() && q.maxN == G.vertices && q !in G.Repr
      requires Inv(G.Adj, marked0, dist0, edgeTo0, ord0, q.Contents(), s, -1) && Growing(G.Adj, edgeTo0, ord0, q.Contents(), s)
      modifies q
      ensures q.Valid() && q.maxN == G.vertices && q.Contents() == map[] && G.Valid()
      ensures Inv(G.Adj, marked, dist, edgeTo, ord, q.Contents(), s, -1) && Growing(G.Adj, edgeTo, ord, q.Contents(), s)
      ensures Decreased(dist0, dist)
    {
      ghost var V := G.vertices;
      marked, dist, edgeTo, ord := marked0, dist0, edgeTo0, ord0;
      while !q.IsEmpty()
        invariant q.Valid() && q.maxN == V && G.Valid()
        invariant Inv(G.Adj, marked, dist, edgeTo, ord, q.Contents(), s, -1) && Growing(G.Adj, edgeTo, ord, q.Contents(), s)
        invariant Decreased(dist0, dist)
        decreases V - |ord|
      {
        RangeSubsetCard(ord.Keys, V);
        ghost var dist1 := dist;
        marked, dist, edgeTo, ord := Step(G, q, s, marked, dist, edgeTo, ord);
        DecreasedTrans(dist0, dist1, dist);
      }
    }

    /** One turn of prim's loop: delMin's vertex is marked and scanned. */
    static method Step(G: EdgeWeightedGraph, q: IndexMinPQ, ghost s: int, marked0: seq<bool>, dist0: seq<Dist>, edgeTo0: seq<Option<Edge>>,
                       ghost ord0: map<int, nat>)
      returns (marked: seq<bool>, dist: seq<Dist>, edgeTo: seq<Option<Edge>>, ghost ord: map<int, nat>)
      requires G.Valid() && q.Valid() && q.maxN == G.vertices && q !in G.Repr && q.Contents() != map[]
      requires Inv(G.Adj, marked0, dist0, edgeTo0, ord0, q.Contents(), s, -1) && Growing(G.Adj, edgeTo0, ord0, q.Contents(), s)
      modifies q
      ensures q.Valid() && q.maxN == G.vertices && G.Valid()
      ensures Inv(G.Adj, marked, dist, edgeTo, ord, q.Contents(), s, -1) && Growing(G.Adj, edgeTo, ord, q.Contents(), s)
      ensures Decreased(dist0, dist) && |ord| == |ord0| + 1 && ord0.Keys <= ord.Keys
    {
      ghost var A := G.Adj;
      ghost var C := q.Contents();
      var m := q.DelMin();
      var v := m.value;
      Settle(A, marked0, dist0, edgeTo0, ord0, C, s, v);
      ord := ord0[v := |ord0|];
      marked, dist, edgeTo := Scan(G, q, v, marked0, dist0, edgeTo0, s, ord);
    }

    /** scan(v): v is marked, and each edge to an unmarked w lighter than w's label becomes w's edge and label. */
    static method Scan(G: EdgeWeightedGraph, q: IndexMinPQ, v: int, marked0: seq<bool>, dist0: seq<Dist>, edgeTo0: seq<Option<Edge>>,
                       ghost s: int, ghost ord: map<int, nat>)
      returns (marked: seq<bool>, dist: seq<Dist>, edgeTo: seq<Option<Edge>>)
      requires G.Valid() && q.Valid() && q.maxN == G.vertices && q !in G.Repr && 0 <= v < |marked0|
      requires Scanning(G.Adj, marked0[v := true], dist0, edgeTo0, ord, q.Contents(), s, v, 0)
      modifies q
      ensures q.Valid() && q.maxN == G.vertices && G.Valid()
      ensures Inv(G.Adj, marked, dist, edgeTo, ord, q.Contents(), s, -1) && Decreased(dist0, dist)
    {
      ghost var A := G.Adj;
      marked := marked0[v := true];
      var es := G.Adjacent(v);
      dist, edgeTo := dist0, edgeTo0;
      ghost var C := q.Contents();
      for j := 0 to |es|
        invariant q.Valid() && q.maxN == |A| && q.Contents() == C
        invariant Scanning(A, marked, dist, edgeTo, ord, C, s, v, j) && Decreased(dist0, dist)
      {
        var e := es[j];
        assert Incident(A, v, e);
        var w := e.Other(v).value;
        if marked[w] {
          Skip(A, dist, ord, v, j);
        } else if Exceeds(dist[w], e.GetWeight()) {
          Improve(A, marked, dist0, dist, edgeTo, ord, C, s, v, j, e, w);
          dist := dist[w := Finite(e.GetWeight())];
          edgeTo := edgeTo[w := Some(e)];
          C := C[w := e.GetWeight()];
          Enqueue(q, w, e.GetWeight());
        } else {
          Skip(A, dist, ord, v, j);
        }
      }
      Finish(A, marked, dist, edgeTo, ord, C, s, v);
    }

    /** The chosen edges, in vertex order, in a new queue. */
    method Edges() returns (mst: Queue<Edge>)
      ensures fresh(mst) && mst.Valid() && mst.items == Chosen(edgeTo)
    {
      mst := new Queue<Edge>();
      for v := 0 to |edgeTo|
        invariant fresh(mst) && mst.Valid() && mst.items == Chosen(edgeTo[..v])
      {
        assert edgeTo[..v + 1][..v] == edgeTo[..v];
        var e := edgeTo[v];
        if e.Some? {
          var _ := mst.Enqueue(e.value);
        }
      }
      assert edgeTo[..|edgeTo|] == edgeTo;
    }

    /** The sum of the weights of the chosen edges. */
    method Weight() returns (weight: int)
      ensures weight == TotalWeight(Chosen(edgeTo))
    {
      var mst := Edges();
      var es := mst.Iterate();
      weight := 0;
      for i := 0 to |es|
        invariant weight == TotalWeight(es[..i])
      {
        assert es[..i + 1][..i] == es[..i];
        weight := weight + es[i].GetWeight();
      }
      assert es[..|es|] == es;
    }

    /**
     * Every vertex is marked, and the chosen edges form a spanning forest: they are edges of the graph, one per vertex
     * that is not a root, and the roots are the smallest vertices of the connected
     * components, one per component.
     */
    lemma SpanningForest()
      requires Valid()
      ensures forall v :: 0 <= v < |A| ==> marked[v]
      ensures Representatives(Neighbours(A), Roots(edgeTo))
      ensures |Chosen(edgeTo)| == |A| - |Roots(edgeTo)|
      ensures forall i :: 0 <= i < |Chosen(edgeTo)| ==> GraphEdge(A, Chosen(edgeTo)[i])
    {
      RootsRepresent(A, marked, distTo, edgeTo, ord);
      ChosenCount(edgeTo);
      forall i | 0 <= i < |Chosen(edgeTo)|
        ensures GraphEdge(A, Chosen(edgeTo)[i])
      {
        ChosenEntries(edgeTo, i);
        var w :| 0 <= w < |edgeTo| && edgeTo[w] == Some(Chosen(edgeTo)[i]);
        ChosenInGraph(w);
      }
    }

    /** A chosen edge lies in the graph. */
    lemma ChosenInGraph(w: int)
      requires Valid() && 0 <= w < |edgeTo| && edgeTo[w].Some?
      ensures GraphEdge(A, edgeTo[w].value)
    {
      var e := edgeTo[w].value;
      assert ParentEdge(A, distTo, ord, w, e);
      var x := OtherEnd(e, w);
      var k :| 0 <= k < |A[x]| && A[x][k] == e;
      assert Incident(A, x, A[x][k]);
    }

    /**
     * The edge chosen for w joins w to a vertex x marked before it, its weight is w's label,
     * and it is a lightest edge leaving the vertices marked before w (the cut property).
     */
    lemma ChosenEdge(w: int)
      requires Valid() && 0 <= w < |edgeTo| && edgeTo[w].Some?
      ensures var e := edgeTo[w].value; var x := OtherEnd(e, w);
        && e.Other(w) == Ok(x) && x != w && 0 <= x < |A| && e in A[x]
        && ord[x] < ord[w] && distTo[w] == Finite(e.weight)
        && LightAt(A, ord, w, e)
    {
      var e := edgeTo[w].value;
      assert ParentEdge(A, distTo, ord, w, e);
    }
  }
}
