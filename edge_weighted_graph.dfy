// Edge and EdgeWeightedGraph (graphs/undirected/edge-weighted-graph.ts): an
// undirected graph whose adjacency bags hold weighted edges; each edge is
// stored in the bags of both of its endpoints. An Edge never changes after
// construction, so it is a value. Weights are integers.
module EdgeWeightedGraphs {
  import opened Common
  import opened Bags

  datatype Edge = Edge(v: int, w: int, weight: int)
  {
    function GetWeight(): (r: int)
      ensures r == weight
    {
      weight
    }

    /** One endpoint, the first constructor argument. */
    function Either(): (r: int)
      ensures r == v
    {
      v
    }

    /**
     * The endpoint opposite `vertex`: w for v and v for w (so v for a self-loop); any other
     * vertex throws.
     */
    function Other(vertex: int): (r: Result<int, string>)
      ensures r.Ok? <==> vertex == v || vertex == w
      ensures vertex == v ==> r == Ok(w)
      ensures vertex == w ==> r == Ok(v)
    {
      if vertex == v then Ok(w)
      else if vertex == w then Ok(v)
      else Err("Invalid argument exception")
    }

    /** -1, 0 or 1 as this edge's weight is below, equal to or above that edge's. */
    function CompareTo(that: Edge): (r: int)
      ensures r == -1 <==> weight < that.weight
      ensures r == 0 <==> weight == that.weight
      ensures r == 1 <==> weight > that.weight
    {
      if GetWeight() < that.GetWeight() then -1
      else if GetWeight() > that.GetWeight() then 1
      else 0
    }
  }

  /** `other(either())` is the second endpoint, and `other` swaps the two endpoints. */
  lemma OtherEither(e: Edge, x: int)
    ensures e.Other(e.Either()) == Ok(e.w)
    ensures e.Other(x).Ok? ==> e.Other(e.Other(x).value) == Ok(x)
  {
  }

  /** compareTo is antisymmetric and orders edges as their weights. */
  lemma CompareAntisymmetric(a: Edge, b: Edge, c: Edge)
    ensures a.CompareTo(b) == -b.CompareTo(a)
    ensures a.CompareTo(b) <= 0 && b.CompareTo(c) <= 0 ==> a.CompareTo(c) <= 0
  {
  }

  /** The endpoint of e opposite x, for an x that is an endpoint of e. */
  function OtherEnd(e: Edge, x: int): int
  {
    if x == e.v then e.w else e.v
  }

  /** The smaller endpoint of e, the vertex whose scan takes e. */
  function Low(e: Edge): int
  {
    if e.v <= e.w then e.v else e.w
  }

  /** Every endpoint of every edge of `xs` is a vertex below n. */
  ghost predicate EndpointsIn(xs: seq<Edge>, n: int)
  {
    forall i :: 0 <= i < |xs| ==> 0 <= xs[i].v < n && 0 <= xs[i].w < n
  }

  /** Adjacency bags after addEdge(e): e goes in front of adj[v], then in front of adj[w]. */
  function AddWeighted(A: seq<seq<Edge>>, e: Edge): (B: seq<seq<Edge>>)
    requires 0 <= e.v < |A| && 0 <= e.w < |A|
    ensures |B| == |A|
  {
    var A1 := A[e.v := [e] + A[e.v]];
    A1[e.w := [e] + A1[e.w]]
  }

  /** The adjacency bags of a new graph with n vertices after the edges `xs` were added in order. */
  function Built(n: nat, xs: seq<Edge>): (A: seq<seq<Edge>>)
    requires EndpointsIn(xs, n)
    ensures |A| == n
  {
    if xs == [] then seq(n, _ => [])
    else AddWeighted(Built(n, xs[..|xs| - 1]), xs[|xs| - 1])
  }

  /** How many endpoints of the edges of `xs` are x; a self-loop at x counts twice. */
  function Ends(xs: seq<Edge>, x: int): nat
  {
    if xs == [] then 0
    else
      var e := xs[|xs| - 1];
      Ends(xs[..|xs| - 1], x) + (if e.v == x then 1 else 0) + (if e.w == x then 1 else 0)
  }

  /**
   * Each added edge sits in the bag of each of its endpoints, once per endpoint: the bag of x
   * holds only edges with x as an endpoint, and as many entries as x is an endpoint.
   */
  lemma {:induction false} BuiltIncidence(n: nat, xs: seq<Edge>, x: int)
    requires EndpointsIn(xs, n) && 0 <= x < n
    ensures |Built(n, xs)[x]| == Ends(xs, x)
    ensures forall k :: 0 <= k < |Built(n, xs)[x]| ==> (Built(n, xs)[x][k].v == x || Built(n, xs)[x][k].w == x)
  {
    if xs != [] {
      BuiltIncidence(n, xs[..|xs| - 1], x);
      var e := xs[|xs| - 1];
      var B := Built(n, xs[..|xs| - 1]);
      var B1 := B[e.v := [e] + B[e.v]];
      assert Built(n, xs)[x] == (if x == e.w then [e] + B1[x] else B1[x]);
      assert B1[x] == (if x == e.v then [e] + B[x] else B[x]);
    }
  }

  /** How many entries of `s` are self-loops at v. */
  function Loops(s: seq<Edge>, v: int): nat
  {
    if s == [] then 0 else (if OtherEnd(s[0], v) == v then 1 else 0) + Loops(s[1..], v)
  }

  /**
   * The edges getEdges takes from the bag `s` of v, with c self-loops already seen: those
   * whose other endpoint is above v, and every second self-loop.
   */
  function Pick(s: seq<Edge>, v: int, c: nat): seq<Edge>
  {
    if s == [] then []
    else
      var e := s[0];
      if OtherEnd(e, v) > v then [e] + Pick(s[1..], v, c)
      else if OtherEnd(e, v) == v then (if c % 2 == 0 then [e] else []) + Pick(s[1..], v, c + 1)
      else Pick(s[1..], v, c)
  }

  /** The edges getEdges takes from the bags of the vertices below k, in the order it takes them. */
  function PickUpTo(A: seq<seq<Edge>>, k: nat): seq<Edge>
    requires k <= |A|
  {
    if k == 0 then [] else PickUpTo(A, k - 1) + Pick(A[k - 1], k - 1, 0)
  }

  lemma {:induction false} PickParity(s: seq<Edge>, v: int, c: nat)
    ensures Pick(s, v, c + 2) == Pick(s, v, c)
  {
    if s != [] {
      PickParity(s[1..], v, c);
      PickParity(s[1..], v, c + 1);
    }
  }

  /** Scanning one more entry of a bag takes at most that entry. */
  lemma {:induction false} PickSnoc(s: seq<Edge>, x: Edge, v: int, c: nat)
    ensures Loops(s + [x], v) == Loops(s, v) + (if OtherEnd(x, v) == v then 1 else 0)
    ensures Pick(s + [x], v, c) == Pick(s, v, c) +
      (if OtherEnd(x, v) > v || (OtherEnd(x, v) == v && (c + Loops(s, v)) % 2 == 0) then [x] else [])
  {
    LoopsSnoc(s, x, v);
    if s == [] {
      assert [x][1..] == [];
    } else {
      var y, t := s[0], s[1..];
      assert (s + [x])[0] == y && (s + [x])[1..] == t + [x];
      var d := if OtherEnd(y, v) == v then 1 else 0;
      PickSnoc(t, x, v, c + d);
      var head := if OtherEnd(y, v) > v || (OtherEnd(y, v) == v && c % 2 == 0) then [y] else [];
      assert c + Loops(s, v) == (c + d) + Loops(t, v);
      var tail := if OtherEnd(x, v) > v || (OtherEnd(x, v) == v && (c + Loops(s, v)) % 2 == 0) then [x] else [];
      var rest, rest' := Pick(t, v, c + d), Pick(t + [x], v, c + d);
      assert rest' == rest + tail;
      assert Pick(s, v, c) == head + rest;
      assert Pick(s + [x], v, c) == head + rest';
      AppendAssoc(head, rest, tail);
    }
  }

  /** One more entry of a bag adds one self-loop when it is one. */
  lemma {:induction false} LoopsSnoc(s: seq<Edge>, x: Edge, v: int)
    ensures Loops(s + [x], v) == Loops(s, v) + (if OtherEnd(x, v) == v then 1 else 0)
  {
    if s == [] {
      assert [x][1..] == [];
    } else {
      assert (s + [x])[0] == s[0] && (s + [x])[1..] == s[1..] + [x];
      LoopsSnoc(s[1..], x, v);
    }
  }

  /** Adding e to the bags of its endpoints makes the scan take e exactly once, at its smaller endpoint. */
  lemma AddPickVertex(B: seq<seq<Edge>>, e: Edge, u: int) returns (g: multiset<Edge>)
    requires 0 <= e.v < |B| && 0 <= e.w < |B| && 0 <= u < |B|
    ensures multiset(Pick(AddWeighted(B, e)[u], u, 0)) == multiset(Pick(B[u], u, 0)) + g
    ensures Gain(e, u) + g == Gain(e, u + 1)
  {
    g := if u == Low(e) then multiset{e} else multiset{};
    var A := AddWeighted(B, e);
    var p, q := Pick(A[u], u, 0), Pick(B[u], u, 0);
    if e.v == e.w && u == e.v {
      assert A[u] == [e, e] + B[u];
      PickLoop(B[u], e, u);
      assert p == [e] + q;
    } else if u == e.v || u == e.w {
      assert A[u] == [e] + B[u];
      PickFront(B[u], e, u);
      assert p == (if u == Low(e) then [e] else []) + q;
    } else {
      assert A[u] == B[u];
    }
  }

  /** A self-loop at u enters the bag of u twice, and the scan takes it once. */
  lemma PickLoop(s: seq<Edge>, e: Edge, u: int)
    requires e.v == e.w == u
    ensures Pick([e, e] + s, u, 0) == [e] + Pick(s, u, 0)
  {
    assert ([e, e] + s)[1..] == [e] + s;
    assert ([e] + s)[1..] == s;
    PickParity(s, u, 0);
  }

  /** An edge at u that is not a self-loop is taken by the scan of u exactly when u is its smaller endpoint. */
  lemma PickFront(s: seq<Edge>, e: Edge, u: int)
    requires (u == e.v || u == e.w) && e.v != e.w
    ensures Pick([e] + s, u, 0) == (if u == Low(e) then [e] else []) + Pick(s, u, 0)
  {
    assert ([e] + s)[1..] == s;
  }

  lemma {:induction false} AddPickUpTo(B: seq<seq<Edge>>, e: Edge, k: nat)
    requires 0 <= e.v < |B| && 0 <= e.w < |B| && k <= |B|
    ensures multiset(PickUpTo(AddWeighted(B, e), k)) == multiset(PickUpTo(B, k)) + Gain(e, k)
  {
    if k > 0 {
      AddPickUpTo(B, e, k - 1);
      var A := AddWeighted(B, e);
      var x, y := UnfoldPick(B, k);
      var x', y' := UnfoldPick(A, k);
      var g2 := AddPickVertex(B, e, k - 1);
      MultisetGain(x, y, x', y', Gain(e, k - 1), g2, Gain(e, k));
    }
  }

  /** PickUpTo(A, k) split into the scans below k - 1 and the scan of k - 1. */
  lemma UnfoldPick(A: seq<seq<Edge>>, k: nat) returns (x: seq<Edge>, y: seq<Edge>)
    requires 0 < k <= |A|
    ensures x == PickUpTo(A, k - 1) && y == Pick(A[k - 1], k - 1, 0) && PickUpTo(A, k) == x + y
  {
    x, y := PickUpTo(A, k - 1), Pick(A[k - 1], k - 1, 0);
  }

  /** What the scans of the vertices below k gain from an edge: the edge, when its smaller endpoint is below k. */
  function Gain(e: Edge, k: int): multiset<Edge>
  {
    if Low(e) < k then multiset{e} else multiset{}
  }

  /** getEdges lists every added edge exactly once, self-loops included. */
  lemma {:induction false} EdgesOnce(n: nat, xs: seq<Edge>)
    requires EndpointsIn(xs, n)
    ensures multiset(PickUpTo(Built(n, xs), n)) == multiset(xs)
  {
    if xs == [] {
      var k := n;
      EmptyPick(n, k);
    } else {
      var init, e := xs[..|xs| - 1], xs[|xs| - 1];
      assert xs == init + [e];
      EdgesOnce(n, init);
      AddPickUpTo(Built(n, init), e, n);
    }
  }

  lemma {:induction false} EmptyPick(n: nat, k: nat)
    requires k <= n
    ensures PickUpTo(seq(n, _ => []), k) == []
  {
    if k > 0 {
      EmptyPick(n, k - 1);
    }
  }

  /** One step of the scan of a bag: the entry is taken or passed over, and self-loops are counted. */
  lemma TakeStep(P: seq<Edge>, es: seq<Edge>, j: int, v: int)
    requires 0 <= j < |es|
    ensures Loops(es[..j + 1], v) == Loops(es[..j], v) + (if OtherEnd(es[j], v) == v then 1 else 0)
    ensures Reverse(P + Pick(es[..j + 1], v, 0)) ==
      (if OtherEnd(es[j], v) > v || (OtherEnd(es[j], v) == v && Loops(es[..j], v) % 2 == 0) then [es[j]] else [])
      + Reverse(P + Pick(es[..j], v, 0))
  {
    var e := es[j];
    PickSnoc(es[..j], e, v, 0);
    assert es[..j + 1] == es[..j] + [e];
    ReverseSnoc(P + Pick(es[..j], v, 0), e);
    assert (P + Pick(es[..j], v, 0)) + [e] == P + (Pick(es[..j], v, 0) + [e]);
  }

  lemma EdgesCount(n: nat, xs: seq<Edge>, A: seq<seq<Edge>>)
    requires EndpointsIn(xs, n) && A == Built(n, xs)
    ensures multiset(Reverse(PickUpTo(A, n))) == multiset(xs) && |Reverse(PickUpTo(A, n))| == |xs|
  {
    EdgesOnce(n, xs);
    ReverseMultiset(PickUpTo(A, n));
    assert |multiset(PickUpTo(A, n))| == |xs|;
  }

  /** e is an edge at x between vertices of A that also sits in the bag of its other endpoint. */
  ghost predicate Incident(A: seq<seq<Edge>>, x: int, e: Edge)
  {
    (e.v == x || e.w == x) && 0 <= e.v < |A| && 0 <= e.w < |A| && e in A[OtherEnd(e, x)]
  }

  /** Every entry of every bag is incident to its vertex and is also stored at its other endpoint. */
  ghost predicate Undirected(A: seq<seq<Edge>>)
  {
    forall x, k :: 0 <= x < |A| && 0 <= k < |A[x]| ==> Incident(A, x, A[x][k])
  }

  /** After addEdge(e) a bag holds what it held before, plus e in the bags of e's endpoints. */
  lemma AddWeightedBags(B: seq<seq<Edge>>, e: Edge, y: int, f: Edge)
    requires 0 <= e.v < |B| && 0 <= e.w < |B| && 0 <= y < |B|
    ensures f in AddWeighted(B, e)[y] <==> f in B[y] || (f == e && (y == e.v || y == e.w))
  {
  }

  lemma {:induction false} BuiltUndirected(n: nat, xs: seq<Edge>)
    requires EndpointsIn(xs, n)
    ensures Undirected(Built(n, xs))
  {
    if xs != [] {
      var init, e := xs[..|xs| - 1], xs[|xs| - 1];
      BuiltUndirected(n, init);
      var B, A := Built(n, init), Built(n, xs);
      forall x, k | 0 <= x < |A| && 0 <= k < |A[x]|
        ensures Incident(A, x, A[x][k])
      {
        var f := A[x][k];
        AddWeightedBags(B, e, x, f);
        if f == e && (x == e.v || x == e.w) {
          AddWeightedBags(B, e, OtherEnd(e, x), e);
        } else {
          var k' :| 0 <= k' < |B[x]| && B[x][k'] == f;
          assert Incident(B, x, B[x][k']);
          AddWeightedBags(B, e, OtherEnd(f, x), f);
        }
      }
    }
  }

  class EdgeWeightedGraph {
    const vertices: nat
    var edges: nat
    /** One bag per vertex; the source keeps them as numbered properties of a Bag object. */
    const adj: array<Bag?<Edge>>
    /** The sequence each adjacency bag yields, by vertex. */
    ghost var Adj: seq<seq<Edge>>
    /** The edges added so far, in order. */
    ghost var Added: seq<Edge>
    /** The graph, its bag array and its bags. */
    ghost var Repr: set<object>

    ghost predicate Valid()
      reads this, Repr
    {
      && this in Repr && adj in Repr && (forall v :: 0 <= v < adj.Length ==> adj[v] in Repr)
      && adj.Length == vertices
      && EndpointsIn(Added, vertices)
      && Adj == Built(vertices, Added)
      && (forall v :: 0 <= v < vertices ==> adj[v] != null && adj[v].items == Adj[v])
      && (forall v, u :: 0 <= v < u < vertices ==> adj[v] != adj[u])
      && edges == |Added|
    }

    /** A graph with `vertices` vertices, no edges and an empty bag per vertex. */
    constructor(vertices: nat)
      ensures Valid()
      ensures this.vertices == vertices && edges == 0 && Added == []
      ensures Adj == seq<seq<Edge>>(vertices, _ => [])
      ensures fresh(Repr)
    {
      this.vertices := vertices;
      edges := 0;
      var a := new Bag?<Edge>[vertices];
      for v := 0 to vertices
        invariant forall u :: 0 <= u < v ==> a[u] != null && fresh(a[u]) && a[u].items == []
        invariant forall u, u' :: 0 <= u < u' < v ==> a[u] != a[u']
      {
        var b := new Bag<Edge>();
        a[v] := b;
      }
      adj := a;
      Adj := seq<seq<Edge>>(vertices, _ => []);
      Added := [];
      Repr := {this, a} + set v | 0 <= v < vertices :: a[v] as object;
    }

    function V(): (n: nat)
      reads this, Repr
      requires Valid()
      ensures n == |Adj|
    {
      vertices
    }

    /** Number of edges: one per addEdge call. */
    function E(): (m: nat)
      reads this, Repr
      requires Valid()
      ensures m == |Added|
    {
      edges
    }

    /**
     * Adds e to the bag of either() and then to the bag of the other endpoint, counts it and
     * returns the same graph. An endpoint outside the graph reads a missing bag and throws.
     */
    method AddEdge(e: Edge) returns (g: EdgeWeightedGraph)
      requires Valid()
      requires 0 <= e.v < vertices && 0 <= e.w < vertices
      modifies this, adj[e.v], adj[e.w]
      ensures Valid() && g == this
      ensures Adj == AddWeighted(old(Adj), e) && Added == old(Added) + [e]
      ensures edges == old(edges) + 1
      ensures Repr == old(Repr)
    {
      var v := e.Either();
      var w := e.Other(v).value;
      adj[v].Add(e);
      adj[w].Add(e);
      edges := edges + 1;
      Adj := AddWeighted(Adj, e);
      Added := Added + [e];
      assert Added[..|Added| - 1] == old(Added);
      g := this;
    }

    /** The edges incident to v, most recently added first. */
    method Adjacent(v: int) returns (es: seq<Edge>)
      requires Valid()
      requires 0 <= v < vertices
      ensures es == Adj[v]
      ensures forall k :: 0 <= k < |es| ==> es[k].Other(v).Ok?
    {
      BuiltIncidence(vertices, Added, v);
      es := adj[v].Iterate();
    }

    /**
     * degree(v) as written: it calls `size()` on the bag, which Bag does not define, so every
     * call throws a TypeError (on a missing bag as well).
     */
    function DegreeAsWritten(v: int): (r: Result<nat, string>)
      ensures r.Err?
    {
      Err("TypeError: size is not a function")
    }

    /**
     * The intended degree: the size of v's bag, i.e. the number of its entries, which counts a
     * self-loop twice.
     */
    function Degree(v: int): (d: nat)
      reads this, Repr
      requires Valid()
      requires 0 <= v < vertices
      ensures d == |Adj[v]| && d == Ends(Added, v)
    {
      BuiltIncidence(vertices, Added, v);
      |adj[v].items|
    }

    /**
     * Scans the bags in vertex order and adds to a new bag each edge whose other endpoint is
     * above the current vertex, and every second self-loop entry; the result lists each added
     * edge once.
     */
    method GetEdges() returns (list: Bag<Edge>)
      requires Valid()
      ensures fresh(list)
      ensures list.items == Reverse(PickUpTo(Adj, vertices))
      ensures multiset(list.items) == multiset(Added) && |list.items| == edges
    {
      list := new Bag<Edge>();
      ghost var A := Adj;
      for v := 0 to vertices
        invariant fresh(list)
        invariant list.items == Reverse(PickUpTo(A, v))
      {
        var es := Adjacent(v);
        ghost var P := PickUpTo(A, v);
        PickFrom(es, v, list, P);
        assert PickUpTo(A, v + 1) == P + Pick(A[v], v, 0);
      }
      EdgesCount(vertices, Added, A);
    }

    /** The inner loop of getEdges over the bag `es` of v, counting self-loop entries as it goes. */
    static method PickFrom(es: seq<Edge>, v: int, list: Bag<Edge>, ghost P: seq<Edge>)
      requires forall k :: 0 <= k < |es| ==> es[k].Other(v).Ok?
      requires list.items == Reverse(P)
      modifies list
      ensures list.items == Reverse(P + Pick(es, v, 0))
    {
      var selfLoops := 0;
      for j := 0 to |es|
        invariant selfLoops == Loops(es[..j], v)
        invariant list.items == Reverse(P + Pick(es[..j], v, 0))
      {
        var e := es[j];
        var other := e.Other(v).value;
        TakeStep(P, es, j, v);
        if other > v {
          list.Add(e);
        } else if other == v {
          if selfLoops % 2 == 0 {
            list.Add(e);
          }
          selfLoops := selfLoops + 1;
        }
      }
      assert es[..|es|] == es;
    }
  }
}
