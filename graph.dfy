// Graph (graphs/graph.ts): an undirected graph over vertices 0..V-1 whose
// adjacency lists are head-insertion bags.
module Graphs {
  import opened Bags
  import opened Paths

  /** Adjacency lists after the undirected edge v-w: w goes in front of adj[v], then v in front of adj[w]. */
  function AddUndirected(A: seq<seq<int>>, v: int, w: int): seq<seq<int>>
    requires 0 <= v < |A| && 0 <= w < |A|
  {
    var A1 := A[v := [w] + A[v]];
    A1[w := [v] + A1[w]]
  }

  /** Every edge appears in the adjacency lists of both of its endpoints. */
  ghost predicate Symmetric(A: seq<seq<int>>)
  {
    forall v, w :: 0 <= v < |A| && 0 <= w < |A| ==> (w in A[v] <==> v in A[w])
  }

  /**
   * addEdge puts each endpoint at the front of the other's list, leaves every other list alone,
   * keeps the lists symmetric and well formed, and adds two list entries.
   */
  lemma AddUndirectedProperties(A: seq<seq<int>>, v: int, w: int)
    requires 0 <= v < |A| && 0 <= w < |A|
    ensures var B := AddUndirected(A, v, w);
      && |B| == |A|
      && (v != w ==> B[v] == [w] + A[v] && B[w] == [v] + A[w])
      && (v == w ==> B[v] == [v, v] + A[v])
      && (forall u :: 0 <= u < |A| && u != v && u != w ==> B[u] == A[u])
      && (WellFormed(A) ==> WellFormed(B))
      && (Symmetric(A) ==> Symmetric(B))
      && TotalLength(B) == TotalLength(A) + 2
  {
    var A1 := A[v := [w] + A[v]];
    TotalLengthUpdate(A, v, [w] + A[v]);
    TotalLengthUpdate(A1, w, [v] + A1[w]);
  }

  class Graph {
    const vertices: nat
    var edges: nat
    const adj: array<Bag?<int>>
    /** The sequence each adjacency bag yields, by vertex. */
    ghost var Adj: seq<seq<int>>

    ghost function Bags(): set<Bag?<int>>
      reads this, adj
    {
      set v | 0 <= v < adj.Length :: adj[v]
    }

    ghost predicate Valid()
      reads this, adj, Bags()
    {
      && adj.Length == vertices
      && |Adj| == vertices
      && (forall v :: 0 <= v < vertices ==> adj[v] != null && adj[v].items == Adj[v])
      && (forall v, u :: 0 <= v < u < vertices ==> adj[v] != adj[u])
      && WellFormed(Adj)
      && Symmetric(Adj)
      && TotalLength(Adj) == 2 * edges
    }

    /** A graph with `vertices` vertices, no edges and an empty bag per vertex. */
    constructor(vertices: nat)
      ensures Valid()
      ensures this.vertices == vertices && edges == 0
      ensures Adj == seq<seq<int>>(vertices, _ => [])
      ensures fresh(adj) && fresh(Bags())
    {
      this.vertices := vertices;
      edges := 0;
      var a := new Bag?<int>[vertices];
      for v := 0 to vertices
        invariant forall u :: 0 <= u < v ==> a[u] != null && fresh(a[u]) && a[u].items == []
        invariant forall u, u' :: 0 <= u < u' < v ==> a[u] != a[u']
      {
        var b := new Bag<int>();
        a[v] := b;
      }
      adj := a;
      Adj := seq<seq<int>>(vertices, _ => []);
      new;
      TotalLengthEmpty(vertices);
    }

    /** Number of vertices. */
    function V(): (n: nat)
      reads this, adj, Bags()
      requires Valid()
      ensures n == |Adj|
    {
      vertices
    }

    /** Number of edges: the adjacency lists hold two entries per edge. */
    function E(): (m: nat)
      reads this, adj, Bags()
      requires Valid()
      ensures 2 * m == TotalLength(Adj)
    {
      edges
    }

    /** Adds w to adj[v] and v to adj[w], counts the edge and returns the same graph. */
    method AddEdge(v: int, w: int) returns (g: Graph)
      requires Valid()
      requires 0 <= v < vertices && 0 <= w < vertices
      modifies this, adj[v], adj[w]
      ensures Valid() && g == this
      ensures Adj == AddUndirected(old(Adj), v, w)
      ensures edges == old(edges) + 1
      ensures Bags() == old(Bags())
    {
      AddUndirectedProperties(Adj, v, w);
      adj[v].Add(w);
      adj[w].Add(v);
      edges := edges + 1;
      Adj := AddUndirected(Adj, v, w);
      g := this;
    }

    /** The neighbours of v, most recently added first. */
    method Adjacent(v: int) returns (ws: seq<int>)
      requires Valid()
      requires 0 <= v < vertices
      ensures ws == Adj[v]
    {
      ws := adj[v].Iterate();
    }
  }
}
