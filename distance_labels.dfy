// Distance labels and the queue discipline that DijkstraSP
// (graphs/directed/dijkstra-shortest-path.ts) and PrimMST
// (graphs/undirected/max-spanning-tree.ts) share: a label per vertex that is a
// finite integer or +infinity (Number.POSITIVE_INFINITY), and an IndexMinPQ
// that holds the labelled vertices not yet settled, keyed by their labels.
module DistanceLabels {
  import opened IndexMinPriorityQueue

  /** A distance label: a finite weight or +infinity. */
  datatype Dist = Finite(d: int) | Infinity

  /** The JS test `label > d`: +infinity exceeds every finite weight. */
  predicate Exceeds(x: Dist, d: int)
  {
    x.Infinity? || x.d > d
  }

  /** Labels never increase and labelled vertices stay labelled. */
  ghost predicate Decreased(dist: seq<Dist>, dist': seq<Dist>)
  {
    |dist'| == |dist| &&
    forall u :: 0 <= u < |dist| && dist[u].Finite? ==> dist'[u].Finite? && dist'[u].d <= dist[u].d
  }

  lemma DecreasedTrans(dist: seq<Dist>, dist': seq<Dist>, dist'': seq<Dist>)
    requires Decreased(dist, dist') && Decreased(dist', dist'')
    ensures Decreased(dist, dist'')
  {
  }

  /** The queue holds exactly the labelled vertices that are not settled, each keyed by its label. */
  ghost predicate Frontier(dist: seq<Dist>, ord: map<int, nat>, C: map<int, int>)
  {
    && (forall k :: k in C ==> 0 <= k < |dist| && dist[k].Finite? && k !in ord && C[k] == dist[k].d)
    && (forall k :: 0 <= k < |dist| && dist[k].Finite? && k !in ord ==> k in C)
  }

  /**
   * Queues w with key nd: changeKey when w is already queued, insert otherwise (both
   * constructors make this choice right after lowering a label).
   */
  method Enqueue(q: IndexMinPQ, w: int, nd: int)
    requires q.Valid() && 0 <= w <= q.maxN
    modifies q
    ensures q.Valid() && q.Contents() == old(q.Contents())[w := nd]
  {
    if q.Contains(w) {
      var _ := q.ChangeKey(w, nd);
    } else {
      var _ := q.Insert(w, nd);
    }
  }
}
