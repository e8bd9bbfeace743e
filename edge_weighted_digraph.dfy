// DirectedEdge and EdgeWeightedDigraph (graphs/directed/edge-weighted-digraph.ts):
// a digraph whose out-bags hold weighted directed edges. A DirectedEdge never
// changes after construction, so it is a value. Weights are integers. addEdge
// reads only the bag of the edge's tail, so an edge may point outside the
// digraph.
module EdgeWeightedDigraphs {
  import opened Common
  import opened Bags

  datatype DirectedEdge = DirectedEdge(v: int, w: int, weight: int)
  {
    /** The tail, the first constructor argument. */
    function From(): (r: int)
      ensures r == v
    {
      v
    }

    /** The head, the second constructor argument. */
    function To(): (r: int)
      ensures r == w
    {
      w
    }

    function GetWeight(): (r: int)
      ensures r == weight
    {
      weight
    }
  }

  /** Every tail of an edge of `xs` is a vertex below n. */
  ghost predicate TailsIn(xs: seq<DirectedEdge>, n: int)
  {
    forall i :: 0 <= i < |xs| ==> 0 <= xs[i].v < n
  }

  /** Out-bags after addEdge(e): e goes in front of adj[e.from()]. */
  function AddDirectedEdge(A: seq<seq<DirectedEdge>>, e: DirectedEdge): (B: seq<seq<DirectedEdge>>)
    requires 0 <= e.v < |A|
    ensures |B| == |A|
  {
    A[e.v := [e] + A[e.v]]
  }

  /** The out-bags of a new digraph with n vertices after the edges `xs` were added in order. */
  function Built(n: nat, xs: seq<DirectedEdge>): (A: seq<seq<DirectedEdge>>)
    requires TailsIn(xs, n)
    ensures |A| == n
  {
    if xs == [] then seq(n, _ => [])
    else AddDirectedEdge(Built(n, xs[..|xs| - 1]), xs[|xs| - 1])
  }

  /** Every edge in the bag of v leaves v. */
  ghost predicate TailsMatch(A: seq<seq<DirectedEdge>>)
  {
    forall v, k :: 0 <= v < |A| && 0 <= k < |A[v]| ==> A[v][k].v == v
  }

  lemma {:induction false} BuiltTails(n: nat, xs: seq<DirectedEdge>)
    requires TailsIn(xs, n)
    ensures TailsMatch(Built(n, xs))
  {
    if xs != [] {
      BuiltTails(n, xs[..|xs| - 1]);
      var B := Built(n, xs[..|xs| - 1]);
      var e := xs[|xs| - 1];
      forall v, k | 0 <= v < n && 0 <= k < |Built(n, xs)[v]|
        ensures Built(n, xs)[v][k].v == v
      {
        if v == e.v && k > 0 {
          assert Built(n, xs)[v][k] == B[v][k - 1];
        }
      }
    }
  }

  /** The bags of the vertices below k, concatenated in vertex order. */
  function Flat(A: seq<seq<DirectedEdge>>, k: nat): seq<DirectedEdge>
    requires k <= |A|
  {
    if k == 0 then [] else Flat(A, k - 1) + A[k - 1]
  }

  lemma {:induction false} EmptyFlat(n: nat, k: nat)
    requires k <= n
    ensures Flat(seq(n, _ => []), k) == []
  {
    if k > 0 {
      EmptyFlat(n, k - 1);
    }
  }

  /** What the bags of the vertices below k gain from an edge: the edge, when its tail is below k. */
  function Gain(e: DirectedEdge, k: int): multiset<DirectedEdge>
  {
    if e.v < k then multiset{e} else multiset{}
  }

  lemma {:induction false} AddFlat(B: seq<seq<DirectedEdge>>, e: DirectedEdge, k: nat)
    requires 0 <= e.v < |B| && k <= |B|
    ensures multiset(Flat(AddDirectedEdge(B, e), k)) == multiset(Flat(B, k)) + Gain(e, k)
  {
    if k > 0 {
      AddFlat(B, e, k - 1);
      AddFlatStep(B, e, k);
    }
  }

  lemma AddFlatStep(B: seq<seq<DirectedEdge>>, e: DirectedEdge, k: nat)
    requires 0 <= e.v < |B| && 0 < k <= |B|
    requires multiset(Flat(AddDirectedEdge(B, e), k - 1)) == multiset(Flat(B, k - 1)) + Gain(e, k - 1)
    ensures multiset(Flat(AddDirectedEdge(B, e), k)) == multiset(Flat(B, k)) + Gain(e, k)
  {
    var A := AddDirectedEdge(B, e);
    var x, y, x', y' := Flat(B, k - 1), B[k - 1], Flat(A, k - 1), A[k - 1];
    assert Flat(A, k) == x' + y';
    assert Flat(B, k) == x + y;
    var g2 := LastBag(y, y', e, k - 1);
    MultisetGain(x, y, x', y', Gain(e, k - 1), g2, Gain(e, k));
  }

  /** The bag of u gains e exactly when u is e's tail. */
  lemma LastBag(y: seq<DirectedEdge>, y': seq<DirectedEdge>, e: DirectedEdge, u: int) returns (g: multiset<DirectedEdge>)
    requires y' == if e.v == u then [e] + y else y
    ensures multiset(y') == multiset(y) + g && Gain(e, u) + g == Gain(e, u + 1)
  {
    g := if e.v == u then multiset{e} else multiset{};
  }

  /** Every added edge sits in exactly one bag, once. */
  lemma {:induction false} FlatBuilt(n: nat, xs: seq<DirectedEdge>)
    requires TailsIn(xs, n)
    ensures multiset(Flat(Built(n, xs), n)) == multiset(xs)
  {
    if xs == [] {
      EmptyFlat(n, n);
    } else {
      var init, e := xs[..|xs| - 1], xs[|xs| - 1];
      assert xs == init + [e];
      FlatBuilt(n, init);
      AddFlat(Built(n, init), e, n);
    }
  }

  lemma EdgesCount(n: nat, xs: seq<DirectedEdge>, A: seq<seq<DirectedEdge>>)
    requires TailsIn(xs, n) && A == Built(n, xs)
    ensures multiset(Reverse(Flat(A, n))) == multiset(xs) && |Reverse(Flat(A, n))| == |xs|
  {
    FlatBuilt(n, xs);
    ReverseMultiset(Flat(A, n));
    assert |multiset(Flat(A, n))| == |xs|;
  }

  class EdgeWeightedDigraph {
    const vertices: nat
    var edges: nat
    const adj: array<Bag?<DirectedEdge>>
    /** The sequence each out-bag yields, by vertex. */
    ghost var Adj: seq<seq<DirectedEdge>>
    /** The edges added so far, in order. */
    ghost var Added: seq<DirectedEdge>
    /** The digraph, its bag array and its bags. */
    ghost var Repr: set<object>

    ghost predicate Valid()
      reads this, Repr
    {
      && this in Repr && adj in Repr && (forall v :: 0 <= v < adj.Length ==> adj[v] in Repr)
      && adj.Length == vertices
      && TailsIn(Added, vertices)
      && Adj == Built(vertices, Added)
      && (forall v :: 0 <= v < vertices ==> adj[v] != null && adj[v].items == Adj[v])
      && (forall v, u :: 0 <= v < u < vertices ==> adj[v] != adj[u])
      && edges == |Added|
    }

    /** A digraph with `vertices` vertices, no edges and an empty bag per vertex. */
    constructor(vertices: nat)
      ensures Valid()
      ensures this.vertices == vertices && edges == 0 && Added == []
      ensures Adj == seq<seq<DirectedEdge>>(vertices, _ => [])
      ensures fresh(Repr)
    {
      this.vertices := vertices;
      edges := 0;
      var a := new Bag?<DirectedEdge>[vertices];
      for v := 0 to vertices
        invariant forall u :: 0 <= u < v ==> a[u] != null && fresh(a[u]) && a[u].items == []
        invariant forall u, u' :: 0 <= u < u' < v ==> a[u] != a[u']
      {
        var b := new Bag<DirectedEdge>();
        a[v] := b;
      }
      adj := a;
      Adj := seq<seq<DirectedEdge>>(vertices, _ => []);
      Added := [];
      Repr := {this, a} + set v | 0 <= v < vertices :: a[v] as object;
    }

    function V(): (n: nat)
      reads this, Repr
      requires Valid()
      ensures n == |Adj|
    {
      vertices
    }

    /** Number of edges: one per addEdge call. */
    function E(): (m: nat)
      reads this, Repr
      requires Valid()
      ensures m == |Added|
    {
      edges
    }

    /**
     * Adds e to the bag of e.from() only, counts it and returns the same digraph. A tail outside
     * the digraph reads a missing bag and throws; the head is not looked at.
     */
    method AddEdge(e: DirectedEdge) returns (g: EdgeWeightedDigraph)
      requires Valid()
      requires 0 <= e.v < vertices
      modifies this, adj[e.v]
      ensures Valid() && g == this
      ensures Adj == AddDirectedEdge(old(Adj), e) && Added == old(Added) + [e]
      ensures edges == old(edges) + 1
      ensures Repr == old(Repr)
    {
      adj[e.From()].Add(e);
      edges := edges + 1;
      Adj := AddDirectedEdge(Adj, e);
      Added := Added + [e];
      assert Added[..|Added| - 1] == old(Added);
      g := this;
    }

    /** The edges leaving v, most recently added first. */
    method Adjacent(v: int) returns (es: seq<DirectedEdge>)
      requires Valid()
      requires 0 <= v < vertices
      ensures es == Adj[v]
      ensures forall k :: 0 <= k < |es| ==> es[k].From() == v
    {
      BuiltTails(vertices, Added);
      es := adj[v].Iterate();
    }

    /** Adds every edge of every bag, in vertex order, to a new bag; each added edge appears once. */
    method GetEdges() returns (bag: Bag<DirectedEdge>)
      requires Valid()
      ensures fresh(bag)
      ensures bag.items == Reverse(Flat(Adj, vertices))
      ensures multiset(bag.items) == multiset(Added) && |bag.items| == edges
    {
      bag := new Bag<DirectedEdge>();
      ghost var A := Adj;
      for v := 0 to vertices
        invariant fresh(bag)
        invariant bag.items == Reverse(Flat(A, v))
      {
        var es := Adjacent(v);
        ghost var P := Flat(A, v);
        for j := 0 to |es|
          invariant bag.items == Reverse(P + es[..j])
        {
          assert es[..j + 1] == es[..j] + [es[j]];
          assert P + es[..j + 1] == (P + es[..j]) + [es[j]];
          ReverseSnoc(P + es[..j], es[j]);
          bag.Add(es[j]);
        }
        assert es[..|es|] == es;
      }
      EdgesCount(vertices, Added, A);
    }
  }
}
