// Digraph (graphs/directed/digraph.ts): a directed graph over vertices 0..V-1
// whose out-lists are head-insertion bags.
module Digraphs {
  import opened Bags
  import opened Paths

  /** Out-lists after the edge v -> w: w goes in front of adj[v]. */
  function AddDirected(A: seq<seq<int>>, v: int, w: int): seq<seq<int>>
    requires 0 <= v < |A|
  {
    A[v := [w] + A[v]]
  }

  /** Out-lists `R` after the edges w -> v for each w of `ws`, in order. */
  function AddInto(R: seq<seq<int>>, v: int, ws: seq<int>): (S: seq<seq<int>>)
    requires forall i :: 0 <= i < |ws| ==> 0 <= ws[i] < |R|
    ensures |S| == |R|
  {
    if ws == [] then R
    else
      var T := AddInto(R, v, ws[..|ws| - 1]);
      AddDirected(T, ws[|ws| - 1], v)
  }

  lemma WellFormedIndex(A: seq<seq<int>>, v: int)
    requires WellFormed(A) && 0 <= v < |A|
    ensures forall i :: 0 <= i < |A[v]| ==> 0 <= A[v][i] < |A|
  {
    assert forall i :: 0 <= i < |A[v]| ==> A[v][i] in A[v];
  }

  /** What reverse() has built once the vertices below v have been scanned. */
  function ReversedUpTo(A: seq<seq<int>>, v: nat): (S: seq<seq<int>>)
    requires v <= |A| && WellFormed(A)
    ensures |S| == |A|
  {
    if v == 0 then seq(|A|, _ => [])
    else
      WellFormedIndex(A, v - 1);
      AddInto(ReversedUpTo(A, v - 1), v - 1, A[v - 1])
  }

  /** The out-lists of reverse(). */
  function Reversed(A: seq<seq<int>>): seq<seq<int>>
    requires WellFormed(A)
  {
    ReversedUpTo(A, |A|)
  }

  lemma {:induction false} AddIntoCount(R: seq<seq<int>>, v: int, ws: seq<int>, x: int, y: int)
    requires forall i :: 0 <= i < |ws| ==> 0 <= ws[i] < |R|
    requires 0 <= x < |R|
    ensures multiset(AddInto(R, v, ws)[x])[y] == multiset(R[x])[y] + (if y == v then multiset(ws)[x] else 0)
    ensures TotalLength(AddInto(R, v, ws)) == TotalLength(R) + |ws|
    ensures WellFormed(R) && 0 <= v < |R| ==> WellFormed(AddInto(R, v, ws))
  {
    if ws != [] {
      var init := ws[..|ws| - 1];
      var last := ws[|ws| - 1];
      assert ws == init + [last];
      AddIntoCount(R, v, init, x, y);
      var T := AddInto(R, v, init);
      TotalLengthUpdate(T, last, [v] + T[last]);
      if x == last {
        assert multiset(([v] + T[last]))[y] == multiset(T[last])[y] + (if y == v then 1 else 0);
      }
    }
  }

  lemma {:induction false} ReversedUpToCount(A: seq<seq<int>>, v: nat, x: int, y: int)
    requires v <= |A| && WellFormed(A)
    requires 0 <= x < |A| && 0 <= y < |A|
    ensures multiset(ReversedUpTo(A, v)[x])[y] == if y < v then multiset(A[y])[x] else 0
  {
    if v > 0 {
      ReversedUpToCount(A, v - 1, x, y);
      WellFormedIndex(A, v - 1);
      AddIntoCount(ReversedUpTo(A, v - 1), v - 1, A[v - 1], x, y);
    }
  }

  lemma {:induction false} ReversedUpToShape(A: seq<seq<int>>, v: nat)
    requires v <= |A| && WellFormed(A)
    ensures WellFormed(ReversedUpTo(A, v))
    ensures TotalLength(ReversedUpTo(A, v)) == TotalLength(A[..v])
  {
    if v == 0 {
      TotalLengthEmpty(|A|);
    } else {
      ReversedUpToShape(A, v - 1);
      WellFormedIndex(A, v - 1);
      AddIntoCount(ReversedUpTo(A, v - 1), v - 1, A[v - 1], 0, 0);
      assert A[..v][..v - 1] == A[..v - 1];
    }
  }

  /**
   * The reverse digraph contains w -> v exactly as often as the original contains v -> w,
   * has as many edges, and reversing twice gives back every out-list as a multiset.
   */
  lemma ReversedProperties(A: seq<seq<int>>)
    requires WellFormed(A)
    ensures |Reversed(A)| == |A| && WellFormed(Reversed(A))
    ensures forall x, y :: 0 <= x < |A| && 0 <= y < |A| ==>
      multiset(Reversed(A)[x])[y] == multiset(A[y])[x]
    ensures TotalLength(Reversed(A)) == TotalLength(A)
    ensures ReverseOf(Reversed(A), A)
    ensures forall x :: 0 <= x < |A| ==> multiset(Reversed(Reversed(A))[x]) == multiset(A[x])
  {
    ReversedUpToShape(A, |A|);
    assert A[..|A|] == A;
    forall x, y | 0 <= x < |A| && 0 <= y < |A|
      ensures multiset(Reversed(A)[x])[y] == multiset(A[y])[x]
    {
      ReversedUpToCount(A, |A|, x, y);
    }
    var R := Reversed(A);
    forall v, w | 0 <= v < |A| && 0 <= w < |A|
      ensures w in R[v] <==> v in A[w]
    {
      assert (w in R[v]) == (multiset(R[v])[w] > 0);
      assert (v in A[w]) == (multiset(A[w])[v] > 0);
    }
    ReversedUpToShape(R, |R|);
    forall x | 0 <= x < |A|
      ensures multiset(Reversed(R)[x]) == multiset(A[x])
    {
      forall y
        ensures multiset(Reversed(R)[x])[y] == multiset(A[x])[y]
      {
        if 0 <= y < |A| {
          ReversedUpToCount(R, |R|, x, y);
        } else {
          assert y !in A[x];
          assert y !in Reversed(R)[x];
        }
      }
    }
  }

  class Digraph {
    const vertices: nat
    var edges: nat
    const adj: array<Bag?<int>>
    /** The sequence each out-bag yields, by vertex. */
    ghost var Adj: seq<seq<int>>

    ghost function Bags(): set<Bag?<int>>
      reads this, adj
    {
      set v | 0 <= v < adj.Length :: adj[v]
    }

    ghost predicate Valid()
      reads this, adj, Bags()
    {
      && adj.Length == vertices
      && |Adj| == vertices
      && (forall v :: 0 <= v < vertices ==> adj[v] != null && adj[v].items == Adj[v])
      && (forall v, u :: 0 <= v < u < vertices ==> adj[v] != adj[u])
      && WellFormed(Adj)
      && TotalLength(Adj) == edges
    }

    /** A digraph with `vertices` vertices, no edges and an empty bag per vertex. */
    constructor(vertices: nat)
      ensures Valid()
      ensures this.vertices == vertices && edges == 0
      ensures Adj == seq<seq<int>>(vertices, _ => [])
      ensures fresh(adj) && fresh(Bags())
    {
      this.vertices := vertices;
      edges := 0;
      var a := new Bag?<int>[vertices];
      for v := 0 to vertices
        invariant forall u :: 0 <= u < v ==> a[u] != null && fresh(a[u]) && a[u].items == []
        invariant forall u, u' :: 0 <= u < u' < v ==> a[u] != a[u']
      {
        var b := new Bag<int>();
        a[v] := b;
      }
      adj := a;
      Adj := seq<seq<int>>(vertices, _ => []);
      new;
      TotalLengthEmpty(vertices);
    }

    /** Number of vertices. */
    function V(): (n: nat)
      reads this, adj, Bags()
      requires Valid()
      ensures n == |Adj|
    {
      vertices
    }

    /** Number of edges: one out-list entry per edge. */
    function E(): (m: nat)
      reads this, adj, Bags()
      requires Valid()
      ensures m == TotalLength(Adj)
    {
      edges
    }

    /** Adds w to the front of adj[v], counts the edge and returns the same digraph. */
    method AddEdge(v: int, w: int) returns (g: Digraph)
      requires Valid()
      requires 0 <= v < vertices && 0 <= w < vertices
      modifies this, adj[v]
      ensures Valid() && g == this
      ensures Adj == AddDirected(old(Adj), v, w)
      ensures edges == old(edges) + 1
      ensures Bags() == old(Bags())
    {
      TotalLengthUpdate(Adj, v, [w] + Adj[v]);
      adj[v].Add(w);
      edges := edges + 1;
      Adj := AddDirected(Adj, v, w);
      g := this;
    }

    /** The out-neighbours of v, most recently added first. */
    method Adjacent(v: int) returns (ws: seq<int>)
      requires Valid()
      requires 0 <= v < vertices
      ensures ws == Adj[v]
    {
      ws := adj[v].Iterate();
    }

    /** A new digraph with every edge v -> w turned into w -> v; this digraph is unchanged. */
    method Reverse() returns (r: Digraph)
      requires Valid()
      ensures fresh(r) && fresh(r.adj) && fresh(r.Bags())
      ensures r.Valid() && r.vertices == vertices && r.edges == edges
      ensures r.Adj == Reversed(Adj)
    {
      r := new Digraph(vertices);
      ghost var bags := r.Bags();
      ReversedUpToShape(Adj, 0);
      for v := 0 to vertices
        invariant r.Valid() && r.vertices == vertices && r.Bags() == bags
        invariant r.Adj == ReversedUpTo(Adj, v)
        invariant r.edges == TotalLength(Adj[..v])
      {
        var ws := Adjacent(v);
        WellFormedIndex(Adj, v);
        AddReversedEdges(r, v, ws);
        assert Adj[..v + 1][..v] == Adj[..v];
      }
      assert Adj[..vertices] == Adj;
    }

    /** The inner loop of reverse(): adds w -> v to `r` for each w of `ws`, in order. */
    static method AddReversedEdges(r: Digraph, v: int, ws: seq<int>)
      requires r.Valid()
      requires forall i :: 0 <= i < |ws| ==> 0 <= ws[i] < r.vertices
      requires 0 <= v < r.vertices
      modifies r, r.Bags()
      ensures r.Valid() && r.Bags() == old(r.Bags())
      ensures r.Adj == AddInto(old(r.Adj), v, ws)
      ensures r.edges == old(r.edges) + |ws|
    {
      for j := 0 to |ws|
        invariant r.Valid() && r.Bags() == old(r.Bags())
        invariant r.Adj == AddInto(old(r.Adj), v, ws[..j])
        invariant r.edges == old(r.edges) + j
      {
        assert ws[..j + 1][..j] == ws[..j];
        var _ := r.AddEdge(ws[j], v);
      }
      assert ws[..|ws|] == ws;
    }
  }
}
