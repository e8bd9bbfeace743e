// DijkstraSP (graphs/directed/dijkstra-shortest-path.ts): single-source shortest
// paths in an edge-weighted digraph with nonnegative integer weights, driven by
// the (corrected) IndexMinPQ of index_min_pq.dfy. distTo holds the explicit
// infinity of distance_labels.dfy in place of Number.POSITIVE_INFINITY. The
// proof follows the vertices in the order delMin settles them: `ord` numbers
// the settled vertices.
module DijkstraShortestPaths {
  import opened Common
  import opened EdgeWeightedDigraphs
  import opened IndexMinPriorityQueue
  import opened ResizingStack
  import opened DistanceLabels

  /** Every edge of every bag has a nonnegative weight. */
  ghost predicate NonNegative(A: seq<seq<DirectedEdge>>)
  {
    forall v, k :: 0 <= v < |A| && 0 <= k < |A[v]| ==> A[v][k].weight >= 0
  }

  /** es is a path from s to t: edges taken from the bags, each head the next tail. */
  ghost predicate WeightedPath(A: seq<seq<DirectedEdge>>, s: int, es: seq<DirectedEdge>, t: int)
  {
    && 0 <= s < |A| && 0 <= t < |A|
    && (es == [] ==> s == t)
    && (es != [] ==> es[0].v == s && es[|es| - 1].w == t)
    && (forall i :: 0 <= i < |es| ==> 0 <= es[i].v < |A| && es[i] in A[es[i].v])
    && (forall i :: 0 <= i < |es| - 1 ==> es[i].w == es[i + 1].v)
  }

  /** The sum of the weights along es. */
  function PathWeight(es: seq<DirectedEdge>): int
  {
    if es == [] then 0 else PathWeight(es[..|es| - 1]) + es[|es| - 1].weight
  }

  ghost predicate Reachable(A: seq<seq<DirectedEdge>>, s: int, t: int)
  {
    exists es :: WeightedPath(A, s, es, t)
  }

  /** d is the least weight of a path from s to t, and some path has it. */
  ghost predicate IsShortest(A: seq<seq<DirectedEdge>>, s: int, t: int, d: int)
  {
    && (exists es :: WeightedPath(A, s, es, t) && PathWeight(es) == d)
    && (forall es :: WeightedPath(A, s, es, t) ==> d <= PathWeight(es))
  }

  /**
   * Shapes of the labels: the source is at 0, finite labels are nonnegative, every other
   * labelled vertex has a parent edge, and the settled vertices are numbered 0..|ord|-1.
   */
  ghost predicate Labels(A: seq<seq<DirectedEdge>>, source: int, dist: seq<Dist>, edgeTo: seq<Option<DirectedEdge>>, ord: map<int, nat>)
  {
    && |dist| == |A| && |edgeTo| == |A| && 0 <= source < |A|
    && dist[source] == Finite(0) && edgeTo[source] == None
    && (forall v :: 0 <= v < |A| && dist[v].Finite? ==> dist[v].d >= 0)
    && (forall v :: 0 <= v < |A| && dist[v].Finite? && v != source ==> edgeTo[v].Some?)
    && (forall v :: v in ord ==> 0 <= v < |A| && dist[v].Finite? && ord[v] < |ord|)
  }

  /**
   * e = edgeTo[w] enters w from a settled vertex, lies in that vertex's bag and makes w's label
   * exactly the tail's plus its weight; if w is settled too, the tail was settled before it.
   */
  ghost predicate ParentEdge(A: seq<seq<DirectedEdge>>, dist: seq<Dist>, ord: map<int, nat>, w: int, e: DirectedEdge)
  {
    && e.w == w && e.v in ord && 0 <= e.v < |A| == |dist| && e in A[e.v] && 0 <= w < |dist|
    && dist[e.v].Finite? && dist[w] == Finite(dist[e.v].d + e.weight)
    && (w in ord ==> ord[e.v] < ord[w])
  }

  ghost predicate Tree(A: seq<seq<DirectedEdge>>, dist: seq<Dist>, edgeTo: seq<Option<DirectedEdge>>, ord: map<int, nat>)
  {
    forall w :: 0 <= w < |edgeTo| && edgeTo[w].Some? ==> ParentEdge(A, dist, ord, w, edgeTo[w].value)
  }

  /** No settled label exceeds a queued key. */
  ghost predicate SettledFirst(dist: seq<Dist>, ord: map<int, nat>, C: map<int, int>)
  {
    forall s, k :: s in ord && k in C && 0 <= s < |dist| && dist[s].Finite? ==> dist[s].d <= C[k]
  }

  /** Edge e out of a vertex labelled ds is relaxed: a head inside the digraph is labelled within ds + weight. */
  ghost predicate Tight(dist: seq<Dist>, e: DirectedEdge, ds: int)
  {
    0 <= e.w < |dist| ==> dist[e.w].Finite? && dist[e.w].d <= ds + e.weight
  }

  /** The first j edges out of s are relaxed. */
  ghost predicate RelaxedUpTo(A: seq<seq<DirectedEdge>>, dist: seq<Dist>, s: int, j: int)
  {
    0 <= s < |A| == |dist| && 0 <= j <= |A[s]| && dist[s].Finite? &&
    forall k :: 0 <= k < j ==> Tight(dist, A[s][k], dist[s].d)
  }

  /** Every settled vertex but `except` has all its edges relaxed. */
  ghost predicate Relaxed(A: seq<seq<DirectedEdge>>, dist: seq<Dist>, ord: map<int, nat>, except: int)
  {
    forall s :: s in ord && s != except ==> 0 <= s < |A| && RelaxedUpTo(A, dist, s, |A[s]|)
  }

  ghost predicate Inv(A: seq<seq<DirectedEdge>>, source: int, dist: seq<Dist>, edgeTo: seq<Option<DirectedEdge>>, ord: map<int, nat>, C: map<int, int>, except: int)
  {
    && Labels(A, source, dist, edgeTo, ord) && Tree(A, dist, edgeTo, ord)
    && Frontier(dist, ord, C) && SettledFirst(dist, ord, C) && Relaxed(A, dist, ord, except)
  }

  /** v is settled and no settled label exceeds v's. */
  ghost predicate Top(dist: seq<Dist>, ord: map<int, nat>, v: int)
  {
    v in ord && 0 <= v < |dist| && dist[v].Finite? &&
    forall s :: s in ord && 0 <= s < |dist| && dist[s].Finite? ==> dist[s].d <= dist[v].d
  }

  /** The state while v's edges are being relaxed, j of them done. */
  ghost predicate Relaxing(A: seq<seq<DirectedEdge>>, source: int, dist: seq<Dist>, edgeTo: seq<Option<DirectedEdge>>, ord: map<int, nat>, C: map<int, int>, v: int, j: int)
  {
    Inv(A, source, dist, edgeTo, ord, C, v) && Top(dist, ord, v) && RelaxedUpTo(A, dist, v, j)
  }

  /** Before the loop: only the source is labelled (0) and queued, nothing is settled. */
  lemma Start(A: seq<seq<DirectedEdge>>, source: int, dist: seq<Dist>, edgeTo: seq<Option<DirectedEdge>>)
    requires 0 <= source < |A| == |dist| == |edgeTo|
    requires dist[source] == Finite(0) && forall u :: 0 <= u < |dist| && u != source ==> dist[u] == Infinity
    requires forall u :: 0 <= u < |edgeTo| ==> edgeTo[u] == None
    ensures Inv(A, source, dist, edgeTo, map[], map[source := 0], -1)
  {
  }

  /** delMin's vertex v joins the settled vertices, numbered next. */
  lemma Settle(A: seq<seq<DirectedEdge>>, source: int, dist: seq<Dist>, edgeTo: seq<Option<DirectedEdge>>, ord: map<int, nat>, C: map<int, int>, v: int)
    requires Inv(A, source, dist, edgeTo, ord, C, -1)
    requires v in C && forall k :: k in C ==> C[v] <= C[k]
    ensures v !in ord
    ensures Relaxing(A, source, dist, edgeTo, ord[v := |ord|], C - {v}, v, 0)
  {
    var ord' := ord[v := |ord|];
    var C' := C - {v};
    assert Labels(A, source, dist, edgeTo, ord');
    forall w | 0 <= w < |edgeTo| && edgeTo[w].Some?
      ensures ParentEdge(A, dist, ord', w, edgeTo[w].value)
    {
      assert ParentEdge(A, dist, ord, w, edgeTo[w].value);
    }
    assert SettledFirst(dist, ord', C');
    assert Relaxed(A, dist, ord', v);
  }

  /** With nonnegative weights, relaxing out of the top settled vertex never lowers a settled label or the source's. */
  lemma Unsettled(A: seq<seq<DirectedEdge>>, source: int, dist: seq<Dist>, edgeTo: seq<Option<DirectedEdge>>, ord: map<int, nat>, v: int, e: DirectedEdge)
    requires Labels(A, source, dist, edgeTo, ord) && Top(dist, ord, v) && e.weight >= 0
    requires 0 <= e.w < |A| && Exceeds(dist[e.w], dist[v].d + e.weight)
    ensures e.w !in ord && e.w != source && dist[v].d + e.weight >= 0
  {
  }

  /** The improved vertex gets parent e; every other parent edge still enters from a settled vertex. */
  lemma ImproveTree(A: seq<seq<DirectedEdge>>, dist: seq<Dist>, edgeTo: seq<Option<DirectedEdge>>, ord: map<int, nat>, v: int, e: DirectedEdge, w: int, nd: int)
    requires Tree(A, dist, edgeTo, ord) && |dist| == |A| == |edgeTo|
    requires v in ord && 0 <= v < |A| && dist[v].Finite? && e.v == v && e in A[v]
    requires w == e.w && 0 <= w < |A| && w !in ord && nd == dist[v].d + e.weight
    ensures Tree(A, dist[w := Finite(nd)], edgeTo[w := Some(e)], ord)
  {
    var dist', edgeTo' := dist[w := Finite(nd)], edgeTo[w := Some(e)];
    forall u | 0 <= u < |edgeTo'| && edgeTo'[u].Some?
      ensures ParentEdge(A, dist', ord, u, edgeTo'[u].value)
    {
      if u != w {
        assert ParentEdge(A, dist, ord, u, edgeTo[u].value);
      }
    }
  }

  /** The improved vertex is queued with its new label, which no settled label exceeds. */
  lemma ImproveQueue(dist: seq<Dist>, ord: map<int, nat>, C: map<int, int>, v: int, w: int, nd: int)
    requires Frontier(dist, ord, C) && SettledFirst(dist, ord, C) && Top(dist, ord, v)
    requires 0 <= w < |dist| && w !in ord && nd >= dist[v].d
    ensures Frontier(dist[w := Finite(nd)], ord, C[w := nd]) && SettledFirst(dist[w := Finite(nd)], ord, C[w := nd])
    ensures Top(dist[w := Finite(nd)], ord, v) && (Exceeds(dist[w], nd) ==> Decreased(dist, dist[w := Finite(nd)]))
  {
  }

  /** Lowering an unsettled label keeps the relaxed edges relaxed, and relaxes edge j of v. */
  lemma ImproveRelaxed(A: seq<seq<DirectedEdge>>, dist: seq<Dist>, ord: map<int, nat>, v: int, j: int, e: DirectedEdge, w: int, nd: int)
    requires Relaxed(A, dist, ord, v) && RelaxedUpTo(A, dist, v, j) && j < |A[v]| && v in ord
    requires e == A[v][j] && w == e.w && nd == dist[v].d + e.weight
    requires 0 <= w < |A| && w !in ord && Exceeds(dist[w], nd)
    ensures Relaxed(A, dist[w := Finite(nd)], ord, v) && RelaxedUpTo(A, dist[w := Finite(nd)], v, j + 1)
  {
    var dist' := dist[w := Finite(nd)];
    assert Decreased(dist, dist');
    forall s | s in ord && s != v
      ensures 0 <= s < |A| && RelaxedUpTo(A, dist', s, |A[s]|)
    {
      RelaxedLower(A, dist, dist', s, |A[s]|);
    }
    RelaxedLower(A, dist, dist', v, j);
    assert Tight(dist', e, dist'[v].d);
  }

  /** One improving relaxation of edge e = A[v][j] keeps every invariant: w = e.w gets label nd through e. */
  lemma Improve(A: seq<seq<DirectedEdge>>, source: int, dist: seq<Dist>, edgeTo: seq<Option<DirectedEdge>>, ord: map<int, nat>, C: map<int, int>,
                v: int, j: int, e: DirectedEdge, w: int, nd: int)
    requires Relaxing(A, source, dist, edgeTo, ord, C, v, j) && NonNegative(A) && TailsMatch(A)
    requires j < |A[v]| && e == A[v][j] && w == e.w && nd == dist[v].d + e.weight
    requires 0 <= w < |A| && Exceeds(dist[w], nd)
    ensures Relaxing(A, source, dist[w := Finite(nd)], edgeTo[w := Some(e)], ord, C[w := nd], v, j + 1)
    ensures Decreased(dist, dist[w := Finite(nd)])
  {
    assert e.v == v && e in A[v] && e.weight >= 0;
    Unsettled(A, source, dist, edgeTo, ord, v, e);
    assert Labels(A, source, dist[w := Finite(nd)], edgeTo[w := Some(e)], ord);
    ImproveTree(A, dist, edgeTo, ord, v, e, w, nd);
    ImproveQueue(dist, ord, C, v, w, nd);
    ImproveRelaxed(A, dist, ord, v, j, e, w, nd);
  }

  /** A relaxation that does not improve leaves everything as it was, with edge j of v relaxed. */
  lemma Skip(A: seq<seq<DirectedEdge>>, dist: seq<Dist>, v: int, j: int)
    requires RelaxedUpTo(A, dist, v, j) && j < |A[v]|
    requires !(0 <= A[v][j].w < |A| && Exceeds(dist[A[v][j].w], dist[v].d + A[v][j].weight))
    ensures RelaxedUpTo(A, dist, v, j + 1)
  {
    assert Tight(dist, A[v][j], dist[v].d);
  }

  /** Relaxed edges stay relaxed when labels drop, as long as the tail's own label is kept. */
  lemma RelaxedLower(A: seq<seq<DirectedEdge>>, dist: seq<Dist>, dist': seq<Dist>, s: int, j: int)
    requires RelaxedUpTo(A, dist, s, j) && Decreased(dist, dist') && dist'[s] == dist[s]
    ensures RelaxedUpTo(A, dist', s, j)
  {
    forall k | 0 <= k < j
      ensures Tight(dist', A[s][k], dist'[s].d)
    {
      assert Tight(dist, A[s][k], dist[s].d);
    }
  }

  /** The parent edges from the source to a settled v, in path order. */
  ghost function Chain(A: seq<seq<DirectedEdge>>, dist: seq<Dist>, edgeTo: seq<Option<DirectedEdge>>, ord: map<int, nat>, v: int): seq<DirectedEdge>
    requires Tree(A, dist, edgeTo, ord) && |edgeTo| == |A| && 0 <= v < |edgeTo| && v in ord
    decreases ord[v]
  {
    match edgeTo[v]
    case None => []
    case Some(e) =>
      assert ParentEdge(A, dist, ord, v, e);
      Chain(A, dist, edgeTo, ord, e.v) + [e]
  }

  /** One step back along the chain: the parent edge moves from the chain to the front of the rest. */
  lemma ChainStep(A: seq<seq<DirectedEdge>>, dist: seq<Dist>, edgeTo: seq<Option<DirectedEdge>>, ord: map<int, nat>, u: int, P: seq<DirectedEdge>)
    requires Tree(A, dist, edgeTo, ord) && |edgeTo| == |A| && 0 <= u < |edgeTo| && u in ord && edgeTo[u].Some?
    ensures 0 <= edgeTo[u].value.v < |edgeTo| && edgeTo[u].value.v in ord && ord[edgeTo[u].value.v] < ord[u]
    ensures Chain(A, dist, edgeTo, ord, u) + Reverse(P) == Chain(A, dist, edgeTo, ord, edgeTo[u].value.v) + Reverse(P + [edgeTo[u].value])
  {
    var e := edgeTo[u].value;
    assert ParentEdge(A, dist, ord, u, e);
    ReverseSnoc(P, e);
  }

  /** The parent chain of a settled vertex is a path from the source whose weight is the label. */
  lemma {:induction false} ChainIsPath(A: seq<seq<DirectedEdge>>, source: int, dist: seq<Dist>, edgeTo: seq<Option<DirectedEdge>>, ord: map<int, nat>, v: int)
    requires Labels(A, source, dist, edgeTo, ord) && Tree(A, dist, edgeTo, ord) && v in ord
    ensures WeightedPath(A, source, Chain(A, dist, edgeTo, ord, v), v)
    ensures dist[v] == Finite(PathWeight(Chain(A, dist, edgeTo, ord, v)))
    decreases ord[v]
  {
    match edgeTo[v]
    case None =>
    case Some(e) =>
      assert ParentEdge(A, dist, ord, v, e);
      ChainIsPath(A, source, dist, edgeTo, ord, e.v);
      var es := Chain(A, dist, edgeTo, ord, v);
      assert es[..|es| - 1] == Chain(A, dist, edgeTo, ord, e.v);
  }

  /**
   * The loop of getPathTo: pushes edgeTo[v], then the parent edge of its tail, and so on until a
   * vertex without one, so the stack read top down is the chain from the source to v.
   */
  method PushChain(ghost A: seq<seq<DirectedEdge>>, ghost dist: seq<Dist>, edgeTo: seq<Option<DirectedEdge>>, ghost ord: map<int, nat>, v: int)
    returns (path: ArrayStack<DirectedEdge>)
    requires Tree(A, dist, edgeTo, ord) && |edgeTo| == |A| && 0 <= v < |edgeTo| && v in ord
    ensures fresh(path) && fresh(path.Repr) && path.Valid()
    ensures Reverse(path.Contents) == Chain(A, dist, edgeTo, ord, v)
  {
    path := new ArrayStack<DirectedEdge>.Default();
    var e := edgeTo[v];
    var u := v;
    while e.Some?
      invariant fresh(path) && fresh(path.Repr) && path.Valid()
      invariant 0 <= u < |edgeTo| && u in ord && e == edgeTo[u]
      invariant Chain(A, dist, edgeTo, ord, v) == Chain(A, dist, edgeTo, ord, u) + Reverse(path.Contents)
      decreases ord[u]
    {
      ChainStep(A, dist, edgeTo, ord, u, path.Contents);
      path.Push(e.value);
      u := e.value.From();
      e := edgeTo[u];
    }
    assert Chain(A, dist, edgeTo, ord, u) == [];
  }

  class DijkstraSP {
    /** The out-bags of the digraph the constructor was given. */
    ghost const A: seq<seq<DirectedEdge>>
    const source: int
    var edgeTo: seq<Option<DirectedEdge>>
    var distTo: seq<Dist>
    const pq: IndexMinPQ
    /** The order in which delMin settled the vertices. */
    ghost var ord: map<int, nat>

    /** After construction: the queue has run dry and every labelled vertex is settled and relaxed. */
    ghost predicate Valid()
      reads this
    {
      NonNegative(A) && Inv(A, source, distTo, edgeTo, ord, map[], -1)
    }

    /**
     * Runs the algorithm: the source is labelled 0 and queued, and while the queue is not empty
     * its minimum is removed and relaxed. A source outside the digraph makes the JS code throw.
     */
    constructor(G: EdgeWeightedDigraph, source: int)
      requires G.Valid() && 0 <= source < G.vertices && NonNegative(G.Adj)
      ensures Valid() && A == G.Adj && this.source == source
    {
      var V := G.V();
      var dist: seq<Dist> := [];
      for v := 0 to V
        invariant |dist| == v && forall u :: 0 <= u < v ==> dist[u] == Infinity
      {
        dist := dist + [Infinity];
      }
      dist := dist[source := Finite(0)];
      var parent: seq<Option<DirectedEdge>> := seq(V, _ => None);
      var q := new IndexMinPQ(V);
      var r := q.Insert(source, 0);
      Start(G.Adj, source, dist, parent);
      assert q.Contents() == map[source := 0];
      ghost var ord;
      dist, parent, ord := Run(G, q, source, dist, parent);
      A := G.Adj;
      this.source := source;
      edgeTo := parent;
      distTo := dist;
      pq := q;
      this.ord := ord;
    }

    /** The constructor's loop: while the queue is not empty, settle its minimum and relax it. */
    static method Run(G: EdgeWeightedDigraph, q: IndexMinPQ, ghost source: int, dist0: seq<Dist>, edgeTo0: seq<Option<DirectedEdge>>)
      returns (dist: seq<Dist>, edgeTo: seq<Option<DirectedEdge>>, ghost ord: map<int, nat>)
      requires G.Valid() && q.Valid() && q.maxN == G.vertices && NonNegative(G.Adj) && q !in G.Repr
      requires Inv(G.Adj, source, dist0, edgeTo0, map[], q.Contents(), -1)
      modifies q
      ensures Inv(G.Adj, source, dist, edgeTo, ord, map[], -1)
    {
      ghost var A := G.Adj;
      ghost var V := G.vertices;
      dist, edgeTo, ord := dist0, edgeTo0, map[];
      while !q.IsEmpty()
        invariant q.Valid() && q.maxN == V && G.Valid() && G.Adj == A
        invariant Inv(A, source, dist, edgeTo, ord, q.Contents(), -1)
        decreases V - |ord|
      {
        RangeSubsetCard(ord.Keys, V);
        ghost var C := q.Contents();
        var m := q.DelMin();
        var v := m.value;
        Settle(A, source, dist, edgeTo, ord, C, v);
        ord := ord[v := |ord|];
        dist, edgeTo := Relax(G, q, dist, edgeTo, v, source, ord);
      }
    }

    /** Relaxes every edge out of v, in bag order, updating labels, parent edges and the queue. */
    static method Relax(G: EdgeWeightedDigraph, q: IndexMinPQ, dist0: seq<Dist>, edgeTo0: seq<Option<DirectedEdge>>, v: int, ghost source: int, ghost ord: map<int, nat>)
      returns (dist: seq<Dist>, edgeTo: seq<Option<DirectedEdge>>)
      requires G.Valid() && q.Valid() && q.maxN == G.vertices && NonNegative(G.Adj) && q !in G.Repr
      requires Relaxing(G.Adj, source, dist0, edgeTo0, ord, q.Contents(), v, 0)
      modifies q
      ensures q.Valid() && q.maxN == G.vertices && G.Valid()
      ensures Inv(G.Adj, source, dist, edgeTo, ord, q.Contents(), -1) && Decreased(dist0, dist)
    {
      ghost var A := G.Adj;
      BuiltTails(G.vertices, G.Added);
      var es := G.Adjacent(v);
      dist, edgeTo := dist0, edgeTo0;
      ghost var C := q.Contents();
      for j := 0 to |es|
        invariant q.Valid() && q.maxN == |A| && q.Contents() == C
        invariant Relaxing(A, source, dist, edgeTo, ord, C, v, j) && Decreased(dist0, dist)
      {
        var e := es[j];
        var w := e.To();
        if 0 <= w < |dist| && Exceeds(dist[w], dist[v].d + e.GetWeight()) {
          var nd := dist[v].d + e.GetWeight();
          Improve(A, source, dist, edgeTo, ord, C, v, j, e, w, nd);
          dist := dist[w := Finite(nd)];
          edgeTo := edgeTo[w := Some(e)];
          C := C[w := nd];
          Enqueue(q, w, nd);
        } else {
          Skip(A, dist, v, j);
        }
      }
    }

    /** What PathTo promises of the chain of a labelled vertex. */
    lemma ChainFacts(v: int, es: seq<DirectedEdge>)
      requires Valid() && v in ord && es == Chain(A, distTo, edgeTo, ord, v)
      ensures WeightedPath(A, source, es, v) && distTo[v].Finite? && PathWeight(es) == distTo[v].d
    {
      ChainIsPath(A, source, distTo, edgeTo, ord, v);
    }

    /** No path from the source is lighter than its end's label, and its end is labelled. */
    lemma {:induction false} NoShorterPath(t: int, es: seq<DirectedEdge>)
      requires Valid() && WeightedPath(A, source, es, t)
      ensures distTo[t].Finite? && distTo[t].d <= PathWeight(es)
      decreases |es|
    {
      if es != [] {
        var e := es[|es| - 1];
        var u := e.v;
        var init := es[..|es| - 1];
        assert WeightedPath(A, source, init, u);
        NoShorterPath(u, init);
        assert u in ord;
        var k :| 0 <= k < |A[u]| && A[u][k] == e;
        assert Tight(distTo, A[u][k], distTo[u].d);
      }
    }

    /** distTo[v] is finite exactly for the vertices reachable from the source, and is then the shortest-path weight. */
    lemma Shortest(v: int)
      requires Valid() && 0 <= v < |A|
      ensures distTo[v].Finite? <==> Reachable(A, source, v)
      ensures distTo[v].Finite? ==> IsShortest(A, source, v, distTo[v].d)
    {
      if distTo[v].Finite? {
        ChainIsPath(A, source, distTo, edgeTo, ord, v);
        forall es | WeightedPath(A, source, es, v)
          ensures distTo[v].d <= PathWeight(es)
        {
          NoShorterPath(v, es);
        }
      }
      if Reachable(A, source, v) {
        var es :| WeightedPath(A, source, es, v);
        NoShorterPath(v, es);
      }
    }

    /** At the end every edge out of a labelled vertex into the digraph is relaxed. */
    lemma EdgesRelaxed(v: int, e: DirectedEdge)
      requires Valid() && 0 <= v < |A| && distTo[v].Finite? && e in A[v] && 0 <= e.w < |A|
      ensures distTo[e.w].Finite? && distTo[e.w].d <= distTo[v].d + e.weight
    {
      var k :| 0 <= k < |A[v]| && A[v][k] == e;
      assert Tight(distTo, A[v][k], distTo[v].d);
    }

    /** getDistTo: undefined (None) outside the digraph, else the shortest-path label. */
    function DistTo(v: int): (r: Option<Dist>)
      reads this
      requires Valid()
      ensures r.None? <==> !(0 <= v < |A|)
      ensures r.Some? ==> (r.value.Finite? <==> Reachable(A, source, v))
      ensures r.Some? && r.value.Finite? ==> IsShortest(A, source, v, r.value.d)
    {
      if 0 <= v < |distTo| then Shortest(v); Some(distTo[v]) else None
    }

    /** hasPathTo: the label is finite; `undefined < Infinity` is false outside the digraph. */
    function HasPathTo(v: int): (b: bool)
      reads this
      requires Valid()
      ensures b <==> 0 <= v < |A| && Reachable(A, source, v)
    {
      if 0 <= v < |distTo| then Shortest(v); distTo[v].Finite? else false
    }

    /**
     * getPathTo: null without a path; otherwise a stack of the parent edges pushed from v back to
     * the source, so that it iterates (top down) along a shortest path from the source to v.
     */
    method PathTo(v: int) returns (path: ArrayStack?<DirectedEdge>)
      requires Valid()
      ensures path == null <==> !HasPathTo(v)
      ensures path != null ==> fresh(path) && fresh(path.Repr) && path.Valid()
      ensures path != null ==> WeightedPath(A, source, Reverse(path.Contents), v)
      ensures path != null ==> PathWeight(Reverse(path.Contents)) == distTo[v].d
    {
      if !HasPathTo(v) {
        return null;
      }
      path := PushChain(A, distTo, edgeTo, ord, v);
      ChainFacts(v, Reverse(path.Contents));
    }
  }
}
