// DepthFirstDirected (graphs/directed/depth-first-directed.ts): marks every
// vertex reachable from one source or from a list of sources by recursive
// depth-first search. The marked array is a JavaScript array updated by index;
// the search threads it through the recursion as a sequence value and the
// constructor stores the result.
module DepthFirstDirected {
  import opened Paths
  import opened Digraphs
  import opened DfsTheory

  /** The constructor's `number | number[]` argument. */
  datatype SourceArg = Single(s: int) | Many(ss: seq<int>)

  /** `Array.isArray(source) ? source : [source]`. */
  function SourceList(source: SourceArg): (ss: seq<int>)
    ensures source.Single? ==> ss == [source.s]
    ensures source.Many? ==> ss == source.ss
  {
    match source
    case Single(s) => [s]
    case Many(ss) => ss
  }

  /** Some source of `ss` reaches `x`. */
  ghost predicate ReachFromSome(A: seq<seq<int>>, ss: seq<int>, x: int)
  {
    exists i :: 0 <= i < |ss| && Reach(A, ss[i], x)
  }

  /**
   * What the search leaves: the marked set is closed under edges, contains every source, and
   * `origin` names for each marked vertex a source that reaches it.
   */
  ghost predicate Searched(A: seq<seq<int>>, ss: seq<int>, m: seq<bool>, origin: seq<int>, n: int)
  {
    && WellFormed(A) && |m| == |A| && |origin| == |A| && 0 <= n <= |ss|
    && ClosedExcept(A, m, {})
    && (forall i :: 0 <= i < n ==> 0 <= ss[i] < |A| && m[ss[i]])
    && (forall x :: 0 <= x < |A| && m[x] ==> 0 <= origin[x] < n && Reach(A, ss[origin[x]], x))
  }

  /** A vertex is marked exactly when some source reaches it. */
  lemma MarkedIffReachFromSome(A: seq<seq<int>>, ss: seq<int>, m: seq<bool>, origin: seq<int>, v: int)
    requires Searched(A, ss, m, origin, |ss|) && 0 <= v < |A|
    ensures m[v] <==> ReachFromSome(A, ss, v)
  {
    if i :| 0 <= i < |ss| && Reach(A, ss[i], v) {
      ClosedReach(A, m, ss[i], v);
    }
  }

  /** dfs(s) from the outer loop keeps `Searched` with one more source processed. */
  lemma SourceStep(A: seq<seq<int>>, ss: seq<int>, m: seq<bool>, m': seq<bool>, origin: seq<int>, n: int)
    requires Searched(A, ss, m, origin, n) && n < |ss| && 0 <= ss[n] < |A|
    requires Grows(m, m') && m'[ss[n]] && ClosedExcept(A, m', {}) && NewFrom(A, m, m', ss[n])
    ensures Searched(A, ss, m', Relabel(m, m', origin, n), n + 1)
  {
  }

  class DepthFirstDirected {
    var marked: seq<bool>
    /** The digraph searched. */
    ghost const A: seq<seq<int>>
    /** The sources, as the constructor normalised them. */
    ghost const Sources: seq<int>
    /** For each marked vertex, the index of a source that reaches it. */
    ghost var origin: seq<int>

    ghost predicate Valid()
      reads this
    {
      Searched(A, Sources, marked, origin, |Sources|)
    }

    /**
     * Runs dfs from every source not yet marked, in order. A source outside the digraph makes
     * `adjacent` read a missing bag and throw, so the sources must be vertices.
     */
    constructor(digraph: Digraph, source: SourceArg)
      requires digraph.Valid()
      requires forall i :: 0 <= i < |SourceList(source)| ==> 0 <= SourceList(source)[i] < digraph.vertices
      ensures Valid() && A == digraph.Adj && Sources == SourceList(source)
    {
      var sources := SourceList(source);
      var m, o := Search(digraph, sources);
      A := digraph.Adj;
      Sources := sources;
      marked := m;
      origin := o;
    }

    /** The constructor's loop over the sources, on a marked array that starts all false. */
    static method Search(digraph: Digraph, sources: seq<int>) returns (m: seq<bool>, ghost o: seq<int>)
      requires digraph.Valid()
      requires forall i :: 0 <= i < |sources| ==> 0 <= sources[i] < digraph.vertices
      ensures Searched(digraph.Adj, sources, m, o, |sources|)
    {
      m := seq(digraph.V(), _ => false);
      o := seq(digraph.V(), _ => 0);
      ClosedEmpty(digraph.Adj, m);
      for n := 0 to |sources|
        invariant Searched(digraph.Adj, sources, m, o, n)
      {
        var s := sources[n];
        if !m[s] {
          var m' := Dfs(digraph, s, m, {});
          SourceStep(digraph.Adj, sources, m, m', o, n);
          o := Relabel(m, m', o, n);
          m := m';
        }
      }
    }

    /**
     * dfs(v): marks v and recurses into each unmarked out-neighbour. `S` holds the vertices
     * whose calls are still active; on return every vertex the call marked is reachable from
     * v and only those vertices can still have unmarked neighbours.
     */
    static method Dfs(digraph: Digraph, v: int, m: seq<bool>, ghost S: set<int>) returns (m': seq<bool>)
      requires digraph.Valid() && 0 <= v < |digraph.Adj| && |m| == |digraph.Adj| && !m[v]
      requires ClosedExcept(digraph.Adj, m, S)
      ensures Grows(m, m') && m'[v] && ClosedExcept(digraph.Adj, m', S) && NewFrom(digraph.Adj, m, m', v)
      decreases Unmarked(m)
    {
      ghost var A := digraph.Adj;
      EnterStep(A, m, S, v);
      m' := m[v := true];
      var ws := digraph.Adjacent(v);
      for j := 0 to |ws|
        invariant ScanInv(A, m, m', S, v, j)
      {
        var w := ws[j];
        NeighbourInRange(A, v, j);
        if !m'[w] {
          MeasureStep(m, m', v);
          var m2 := Dfs(digraph, w, m', S + {v});
          ChildStep(A, m, m', m2, S, v, j);
          m' := m2;
        } else {
          SkipStep(A, m, m', S, v, j);
        }
      }
      ExitStep(A, m, m', S, v);
    }

    /** Whether some source reaches v; an index outside the digraph reads `undefined`, which is falsy. */
    function HasPathTo(v: int): (b: bool)
      reads this
      requires Valid()
      ensures b <==> 0 <= v < |A| && ReachFromSome(A, Sources, v)
    {
      if 0 <= v < |marked| then
        MarkedIffReachFromSome(A, Sources, marked, origin, v);
        marked[v]
      else false
    }
  }
}
