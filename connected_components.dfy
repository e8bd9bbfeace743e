// ConnectedComponents (graphs/undirected/connected-components.ts): labels the
// connected components of an undirected graph 0, 1, 2, ... by running a
// depth-first search from every vertex not yet marked. The marked and id
// arrays are threaded through the recursion as sequence values.
module ConnectedComponents {
  import opened Common
  import opened Paths
  import opened Graphs
  import opened DfsTheory

  /** In an undirected graph reachability runs both ways. */
  lemma ReachSymmetric(A: seq<seq<int>>, u: int, x: int)
    requires |A| > 0 && Symmetric(A) && Reach(A, u, x)
    ensures Reach(A, x, u)
  {
    assert ReverseOf(A, A);
    ReachReverse(A, A, x, u);
  }

  /**
   * The state of the outer loop before vertex `s`: the vertices below `s` are marked, the
   * marked set is closed, marked vertices share a label exactly when they are connected, and
   * `seeds[c]` is the smallest vertex labelled `c`, for every label handed out.
   */
  ghost predicate Labelling(A: seq<seq<int>>, m: seq<bool>, id: seq<int>, seeds: seq<int>, s: int)
  {
    && WellFormed(A) && Symmetric(A) && |m| == |A| && |id| == |A| && 0 <= s <= |A|
    && ClosedExcept(A, m, {})
    && (forall x :: 0 <= x < s ==> m[x])
    && (forall x :: 0 <= x < |A| && m[x] ==> 0 <= id[x] < |seeds|)
    && (forall x, y :: 0 <= x < |A| && 0 <= y < |A| && m[x] && m[y] ==> (id[x] == id[y] <==> Reach(A, x, y)))
    && (forall c :: 0 <= c < |seeds| ==> 0 <= seeds[c] < s && m[seeds[c]] && id[seeds[c]] == c)
    && (forall c, d :: 0 <= c < d < |seeds| ==> seeds[c] < seeds[d])
    && (forall c, x :: 0 <= c < |seeds| && 0 <= x < seeds[c] ==> id[x] != c)
  }

  /** A search from an unmarked `s` labels exactly the component of `s`, with the next label. */
  lemma ComponentStep(A: seq<seq<int>>, m: seq<bool>, m': seq<bool>, id: seq<int>, id': seq<int>, seeds: seq<int>, s: int)
    requires Labelling(A, m, id, seeds, s) && s < |A| && !m[s]
    requires Grows(m, m') && m'[s] && ClosedExcept(A, m', {}) && NewFrom(A, m, m', s)
    requires Labelled(m, m', id, id', |seeds|)
    ensures Labelling(A, m', id', seeds + [s], s + 1)
  {
    forall x, y | 0 <= x < |A| && 0 <= y < |A| && m'[x] && m'[y]
      ensures id'[x] == id'[y] <==> Reach(A, x, y)
    {
      if !m[x] && !m[y] {
        ReachSymmetric(A, s, x);
        ReachTrans(A, x, s, y);
      } else if !m[x] && m[y] {
        if Reach(A, x, y) {
          ReachTrans(A, s, x, y);
          ReachSymmetric(A, s, y);
          ClosedReach(A, m, y, s);
        }
      } else if m[x] && !m[y] {
        if Reach(A, x, y) {
          ReachSymmetric(A, x, y);
          ReachTrans(A, s, y, x);
          ReachSymmetric(A, s, x);
          ClosedReach(A, m, x, s);
        }
      }
    }
  }

  class ConnectedComponents {
    var marked: seq<bool>
    var id: seq<int>
    var count: int
    /** The graph labelled. */
    ghost const A: seq<seq<int>>
    /** The vertex each label's search started from. */
    ghost var Seeds: seq<int>

    ghost predicate Valid()
      reads this
    {
      Labelling(A, marked, id, Seeds, |A|) && count == |Seeds|
    }

    /**
     * Runs dfs from every unmarked vertex s = 0, 1, ..., counting one component per search.
     * `id` starts out `undefined` everywhere, modelled as 0; every entry is overwritten.
     */
    constructor(graph: Graph)
      requires graph.Valid()
      ensures Valid() && A == graph.Adj
    {
      var m, i, n, seeds := Label(graph);
      A := graph.Adj;
      marked, id, count := m, i, n;
      Seeds := seeds;
    }

    /** The constructor's loop, on arrays that start all false and all 0. */
    static method Label(graph: Graph) returns (m: seq<bool>, id: seq<int>, count: int, ghost seeds: seq<int>)
      requires graph.Valid()
      ensures Labelling(graph.Adj, m, id, seeds, |graph.Adj|) && count == |seeds|
    {
      m := seq(graph.V(), _ => false);
      id := seq(graph.V(), _ => 0);
      seeds := [];
      count := 0;
      ClosedEmpty(graph.Adj, m);
      for s := 0 to graph.V()
        invariant Labelling(graph.Adj, m, id, seeds, s) && count == |seeds|
      {
        if !m[s] {
          var m', id' := Dfs(graph, s, m, id, count, {});
          ComponentStep(graph.Adj, m, m', id, id', seeds, s);
          m, id, seeds := m', id', seeds + [s];
          count := count + 1;
        }
      }
    }

    /** dfs(v): marks v, labels it `c` and recurses into each unmarked neighbour. */
    static method Dfs(graph: Graph, v: int, m: seq<bool>, id: seq<int>, c: int, ghost S: set<int>)
      returns (m': seq<bool>, id': seq<int>)
      requires graph.Valid() && 0 <= v < |graph.Adj| && |m| == |graph.Adj| && |id| == |m| && !m[v]
      requires ClosedExcept(graph.Adj, m, S)
      ensures Grows(m, m') && m'[v] && ClosedExcept(graph.Adj, m', S) && NewFrom(graph.Adj, m, m', v)
      ensures Labelled(m, m', id, id', c)
      decreases Unmarked(m)
    {
      ghost var A := graph.Adj;
      EnterStep(A, m, S, v);
      m', id' := m[v := true], id[v := c];
      var ws := graph.Adjacent(v);
      for j := 0 to |ws|
        invariant ScanInv(A, m, m', S, v, j)
        invariant Labelled(m, m', id, id', c)
      {
        var w := ws[j];
        NeighbourInRange(A, v, j);
        if !m'[w] {
          MeasureStep(m, m', v);
          var m2, id2 := Dfs(graph, w, m', id', c, S + {v});
          ChildStep(A, m, m', m2, S, v, j);
          LabelledTrans(m, m', m2, id, id', id2, c);
          m', id' := m2, id2;
        } else {
          SkipStep(A, m, m', S, v, j);
        }
      }
      ExitStep(A, m, m', S, v);
    }

    /**
     * Whether v and w carry the same label. Indices outside the graph read `undefined`, and
     * `undefined === undefined`: two such indices compare as connected, one alone never does.
     */
    function Connected(v: int, w: int): (b: bool)
      reads this
      requires Valid()
      ensures b <==> if 0 <= v < |A| && 0 <= w < |A| then Reach(A, v, w) else !(0 <= v < |A|) && !(0 <= w < |A|)
    {
      var iv := if 0 <= v < |id| then Some(id[v]) else None;
      var iw := if 0 <= w < |id| then Some(id[w]) else None;
      iv == iw
    }

    /** The label of v, which names the seed of its component; `undefined` outside the graph. */
    function GetId(v: int): (r: Option<int>)
      reads this
      requires Valid()
      ensures r.Some? <==> 0 <= v < |A|
      ensures r.Some? ==> 0 <= r.value < count && Reach(A, Seeds[r.value], v)
    {
      if 0 <= v < |id| then
        assert id[Seeds[id[v]]] == id[v];
        Some(id[v])
      else None
    }

    /**
     * The number of labels handed out: one seed per component, the seeds pairwise unconnected,
     * every vertex connected to the seed of its label, and each seed the smallest vertex of its
     * component, so that vertex 0 gets label 0.
     */
    function GetCount(): (n: int)
      reads this
      requires Valid()
      ensures n == |Seeds|
      ensures forall i, j :: 0 <= i < j < n ==> !Reach(A, Seeds[i], Seeds[j])
      ensures forall v :: 0 <= v < |A| ==> 0 <= id[v] < n && Reach(A, Seeds[id[v]], v)
      ensures forall c, x :: 0 <= c < n && 0 <= x < Seeds[c] ==> !Reach(A, Seeds[c], x)
      ensures |A| > 0 ==> id[0] == 0
    {
      assert |A| > 0 ==> Seeds[id[0]] == 0 && 0 <= Seeds[0] <= Seeds[id[0]];
      assert forall i :: 0 <= i < |Seeds| ==> id[Seeds[i]] == i;
      forall c, x | 0 <= c < |Seeds| && 0 <= x < Seeds[c]
        ensures !Reach(A, Seeds[c], x)
      {
        assert id[x] != id[Seeds[c]];
      }
      count
    }
  }
}
