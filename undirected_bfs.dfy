// BreadthFirstPath (graphs/undirected/breadth-first-paths.ts): breadth-first
// search from one source of an undirected graph, with paths read back along
// the edgeTo links onto an ArrayStack. The marked and edgeTo arrays are
// JavaScript arrays that the search updates by index; they are modelled as
// sequence fields that the search reassigns.
module UndirectedBfs {
  import opened Common
  import opened Paths
  import opened Graphs
  import opened LinkedQueue
  import opened ResizingStack
  import opened BfsTheory

  class BreadthFirstPath {
    var marked: seq<bool>
    var edgeTo: seq<int>
    const source: int
    /** The adjacency lists of the graph the search ran on. */
    ghost const A: seq<seq<int>>
    /** The BFS level of every marked vertex. */
    ghost var dist: seq<nat>

    ghost predicate Valid()
      reads this
    {
      WellFormed(A) && BfsTree(A, source, marked, edgeTo, dist)
    }

    /** Runs the search from `source` over `graph`; `edgeTo` starts out `undefined` everywhere, modelled as 0. */
    constructor(graph: Graph, source: int)
      requires graph.Valid() && 0 <= source < graph.vertices
      ensures Valid() && A == graph.Adj && this.source == source
    {
      this.source := source;
      marked := seq(graph.V(), _ => false);
      edgeTo := seq(graph.V(), _ => 0);
      A := graph.Adj;
      dist := seq(graph.V(), _ => 0);
      new;
      Bfs(graph, source);
    }

    /**
     * Marks everything reachable from `source`, level by level, recording the tree edges. The
     * search runs on local copies of `marked` and `edgeTo` that are stored back when it ends;
     * nothing reads the fields in between.
     */
    method Bfs(graph: Graph, source: int)
      requires graph.Valid() && graph.Adj == A && this.source == source && 0 <= source < |A|
      requires |marked| == |A| && |edgeTo| == |A| && |dist| == |A|
      requires forall x :: 0 <= x < |marked| ==> !marked[x]
      modifies this
      ensures Valid()
    {
      StartStep(A, source, marked, edgeTo, dist);
      var queue := new Queue<int>();
      var _ := queue.Enqueue(source);
      var m, e := marked[source := true], edgeTo;
      ghost var d := dist[source := 0];
      ghost var P: set<int> := {};
      var empty := queue.IsEmpty();
      while !empty
        invariant fresh(queue) && queue.Valid()
        invariant empty <==> queue.items == []
        invariant OuterInv(A, source, m, e, d, queue.items, P)
        decreases |A| - |P|
      {
        ghost var v := queue.items[0];
        ProgressBound(A, P, v);
        m, e, d := Step(graph, queue, m, e, d, P);
        P := P + {v};
        empty := queue.IsEmpty();
      }
      FinishSearch(A, source, m, e, d, P);
      marked, edgeTo, dist := m, e, d;
    }

    /** One pass of the queue loop: dequeues v and scans its neighbours. */
    method Step(graph: Graph, queue: Queue<int>, m: seq<bool>, e: seq<int>, ghost d: seq<nat>, ghost P: set<int>)
      returns (m': seq<bool>, e': seq<int>, ghost d': seq<nat>)
      requires graph.Valid() && graph.Adj == A && queue.Valid() && queue.items != []
      requires OuterInv(A, source, m, e, d, queue.items, P)
      modifies queue
      ensures queue.Valid()
      ensures OuterInv(A, source, m', e', d', queue.items, P + {old(queue.items)[0]})
    {
      DequeueStep(A, source, m, e, d, queue.items, P);
      var r := queue.Dequeue();
      var v := r.value;
      var ws := graph.Adjacent(v);
      m', e', d' := Scan(ws, v, queue, m, e, d, P);
      FinishStep(A, source, m', e', d', queue.items, P, v);
    }

    /** The loop over adj(v): each unmarked neighbour is marked one level below v and queued. */
    method Scan(ws: seq<int>, v: int, queue: Queue<int>, m: seq<bool>, e: seq<int>, ghost d: seq<nat>, ghost P: set<int>)
      returns (m': seq<bool>, e': seq<int>, ghost d': seq<nat>)
      requires queue.Valid() && 0 <= v < |A| && ws == A[v]
      requires InnerInv(A, source, m, e, d, queue.items, P, v, 0)
      modifies queue
      ensures queue.Valid()
      ensures InnerInv(A, source, m', e', d', queue.items, P, v, |A[v]|)
    {
      m', e', d' := m, e, d;
      for j := 0 to |ws|
        invariant queue.Valid()
        invariant InnerInv(A, source, m', e', d', queue.items, P, v, j)
      {
        var w := ws[j];
        NeighbourInRange(A, v, j);
        if !m'[w] {
          VisitStep(A, source, m', e', d', queue.items, P, v, j);
          m' := m'[w := true];
          e' := e'[w := v];
          d' := d'[w := d'[v] + 1];
          var _ := queue.Enqueue(w);
        } else {
          SkipStep(A, source, m', e', d', queue.items, P, v, j);
        }
      }
    }

    /** Whether v is connected to the source; an index outside the graph reads `undefined`, which is falsy. */
    function HasPathTo(v: int): (b: bool)
      reads this
      requires Valid()
      ensures b <==> 0 <= v < |A| && Reach(A, source, v)
    {
      if 0 <= v < |marked| then
        MarkedIffReach(A, source, marked, edgeTo, dist, v);
        marked[v]
      else false
    }

    /**
     * `null` when v is not connected to the source; otherwise a stack that yields a shortest
     * path from the source to v, source first.
     */
    method PathTo(v: int) returns (r: Option<ArrayStack<int>>)
      requires Valid()
      ensures r.None? <==> !HasPathTo(v)
      ensures r.Some? ==> fresh(r.value.Repr) && r.value.Valid()
      ensures r.Some? ==> PathFromTo(A, Reverse(r.value.Contents), source, v)
      ensures r.Some? ==> forall q :: PathFromTo(A, q, source, v) ==> |r.value.Contents| <= |q|
    {
      if !HasPathTo(v) {
        return None;
      }
      ghost var m, d := marked, dist;
      var e := edgeTo;
      var path := new ArrayStack<int>.Default();
      var x := v;
      while x != source
        invariant fresh(path.Repr) && path.Valid()
        invariant 0 <= x < |A| && m[x]
        invariant TreePath(A, source, m, e, d, v) == TreePath(A, source, m, e, d, x) + Reverse(path.Contents)
        decreases d[x]
      {
        TreePathStep(A, source, m, e, d, x);
        ReverseSnoc(path.Contents, x);
        path.Push(x);
        x := e[x];
      }
      ReverseSnoc(path.Contents, source);
      path.Push(source);
      forall q | PathFromTo(A, q, source, v)
        ensures |path.Contents| <= |q|
      {
        TreePathShortest(A, source, m, e, d, v, q);
      }
      r := Some(path);
    }
  }
}
