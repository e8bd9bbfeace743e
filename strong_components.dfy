// StronglyConnectedComponents (graphs/directed/stongly-connected-components.ts):
// the Kosaraju-Sharir algorithm. A DepthFirstOrder of the reverse digraph
// fixes the order in which a second depth-first search visits the original
// digraph; each search of the second pass marks exactly one strong component.
// The marked and id arrays are threaded through the recursion as sequence values.
module StrongComponents {
  import opened Common
  import opened Paths
  import opened Digraphs
  import opened ResizingStack
  import opened DfsTheory
  import opened DfsOrderTheory
  import DepthFirstOrder

  /**
   * What the first pass provides: `rpo` lists every vertex once, by decreasing `post`, and
   * whenever x reaches u, some vertex of u's strong component has a post number at least x's.
   */
  ghost predicate FinishOrder(A: seq<seq<int>>, rpo: seq<int>, post: seq<int>)
  {
    && |rpo| == |A| && |post| == |A|
    && (forall i :: 0 <= i < |A| ==> 0 <= rpo[i] < |A| && post[rpo[i]] == |A| - 1 - i)
    && (forall x :: 0 <= x < |A| ==> 0 <= post[x] < |A| && rpo[|A| - 1 - post[x]] == x)
    && (forall u, x {:trigger Leads(A, post, u, x)} :: Reach(A, x, u) ==> Leads(A, post, u, x))
  }

  /** Some vertex of u's strong component has a post number at least x's. */
  ghost predicate Leads(A: seq<seq<int>>, post: seq<int>, u: int, x: int)
    requires |post| == |A| && 0 <= x < |A|
  {
    exists g :: Mutual(A, u, g) && 0 <= g < |A| && post[g] >= post[x]
  }

  /** The vertices listed before `rpo[i]` are marked. */
  ghost predicate Visited(A: seq<seq<int>>, rpo: seq<int>, m: seq<bool>, i: int)
  {
    |m| == |A| && |rpo| == |A| && 0 <= i <= |A| &&
    forall k :: 0 <= k < i ==> 0 <= rpo[k] < |A| && m[rpo[k]]
  }

  /**
   * The state of the second pass between two searches: the marked set is closed and is a
   * union of strong components, marked vertices share a label exactly when they are strongly
   * connected, and `seeds[c]` is a vertex labelled `c`.
   */
  ghost predicate Labelling(A: seq<seq<int>>, m: seq<bool>, id: seq<int>, seeds: seq<int>)
  {
    && WellFormed(A) && |m| == |A| && |id| == |A|
    && ClosedExcept(A, m, {})
    && (forall x, y :: 0 <= x < |A| && m[x] && Mutual(A, x, y) ==> 0 <= y < |A| && m[y])
    && (forall x :: 0 <= x < |A| && m[x] ==> 0 <= id[x] < |seeds|)
    && (forall x, y :: 0 <= x < |A| && 0 <= y < |A| && m[x] && m[y] ==> (id[x] == id[y] <==> Mutual(A, x, y)))
    && (forall c :: 0 <= c < |seeds| ==> 0 <= seeds[c] < |A| && m[seeds[c]] && id[seeds[c]] == c)
  }

  /** Every vertex the search from s = rpo[i] marks is in the strong component of s. */
  lemma OnlyComponent(A: seq<seq<int>>, rpo: seq<int>, post: seq<int>, m: seq<bool>, id: seq<int>, seeds: seq<int>,
                      i: int, y: int)
    requires FinishOrder(A, rpo, post) && Labelling(A, m, id, seeds) && Visited(A, rpo, m, i) && i < |A|
    requires !m[rpo[i]] && 0 <= y < |A| && !m[y] && Reach(A, rpo[i], y)
    ensures Mutual(A, rpo[i], y)
  {
    var s := rpo[i];
    assert Leads(A, post, y, s);
    var g :| Mutual(A, y, g) && 0 <= g < |A| && post[g] >= post[s];
    EarlierMarked(A, rpo, post, m, i, g);
    MutualEquivalence(A, y, g, g);
    assert rpo[|A| - 1 - post[g]] == g;
  }

  /** A vertex that finishes after rpo[i] comes before it in reverse postorder, so it is marked. */
  lemma EarlierMarked(A: seq<seq<int>>, rpo: seq<int>, post: seq<int>, m: seq<bool>, i: int, g: int)
    requires FinishOrder(A, rpo, post) && Visited(A, rpo, m, i) && i < |A| && 0 <= g < |A|
    ensures post[g] > post[rpo[i]] ==> m[g]
  {
    if post[g] > post[rpo[i]] {
      var k := |A| - 1 - post[g];
      assert rpo[k] == g && k < i;
    }
  }

  /** The search from an unmarked s = rpo[i] labels exactly the strong component of s. */
  lemma ComponentStep(A: seq<seq<int>>, rpo: seq<int>, post: seq<int>, m: seq<bool>, m': seq<bool>,
                      id: seq<int>, id': seq<int>, seeds: seq<int>, i: int)
    requires FinishOrder(A, rpo, post) && Labelling(A, m, id, seeds) && Visited(A, rpo, m, i) && i < |A| && !m[rpo[i]]
    requires Grows(m, m') && m'[rpo[i]] && ClosedExcept(A, m', {}) && NewFrom(A, m, m', rpo[i])
    requires Labelled(m, m', id, id', |seeds|)
    ensures Labelling(A, m', id', seeds + [rpo[i]]) && Visited(A, rpo, m', i + 1)
  {
    var s := rpo[i];
    forall y | 0 <= y < |A| && m'[y] && !m[y]
      ensures Mutual(A, s, y)
    {
      OnlyComponent(A, rpo, post, m, id, seeds, i, y);
    }
    forall x, y | 0 <= x < |A| && m'[x] && Mutual(A, x, y)
      ensures 0 <= y < |A| && m'[y]
    {
      ReachInRange(A, x, y);
      if !m[x] {
        ReachTrans(A, s, x, y);
        ClosedReach(A, m', s, y);
      }
    }
    forall x, y | 0 <= x < |A| && 0 <= y < |A| && m'[x] && m'[y]
      ensures id'[x] == id'[y] <==> Mutual(A, x, y)
    {
      if !m[x] && !m[y] {
        MutualEquivalence(A, s, x, y);
        MutualEquivalence(A, x, s, y);
      } else if !m[x] && m[y] {
        MutualEquivalence(A, x, y, y);
      } else if m[x] && !m[y] {
        MutualEquivalence(A, y, x, x);
      }
    }
  }

  /** The finishing facts of the reverse digraph, read on the original one. */
  lemma ReverseFinish(A: seq<seq<int>>, R: seq<seq<int>>, post: seq<int>)
    requires ReverseOf(R, A) && Finished(R, post)
    ensures forall u, x {:trigger Leads(A, post, u, x)} :: Reach(A, x, u) ==> Leads(A, post, u, x)
  {
    forall u, x | Reach(A, x, u)
      ensures Leads(A, post, u, x)
    {
      ReachReverse(R, A, u, x);
      ReachInRange(A, x, u);
      assert FinishesLast(R, post, u, x);
      var g :| Mutual(R, u, g) && 0 <= g < |R| && post[g] >= post[x];
      ReachReverse(R, A, u, g);
      ReachReverse(R, A, g, u);
    }
  }

  /** Reading the post numbers off the reverse postorder. */
  lemma RankOrder(A: seq<seq<int>>, rpo: seq<int>, post: seq<int>)
    requires |rpo| == |A| && |post| == |A|
    requires forall x, y :: 0 <= x < |A| && 0 <= y < |A| && post[x] == post[y] ==> x == y
    requires forall i :: 0 <= i < |A| ==> 0 <= rpo[i] < |A| && post[rpo[i]] == |A| - 1 - i
    requires forall x :: 0 <= x < |A| ==> 0 <= post[x] < |A|
    ensures forall x :: 0 <= x < |A| ==> rpo[|A| - 1 - post[x]] == x
  {
    forall x | 0 <= x < |A|
      ensures rpo[|A| - 1 - post[x]] == x
    {
      var k := |A| - 1 - post[x];
      assert post[rpo[k]] == post[x];
    }
  }

  class StronglyConnectedComponents {
    var marked: seq<bool>
    var id: seq<int>
    var count: int
    /** The digraph labelled. */
    ghost const A: seq<seq<int>>
    /** The vertex each label's search started from, one per search of the second pass. */
    ghost var Seeds: seq<int>

    ghost predicate Valid()
      reads this
    {
      && |marked| == |A| && (forall x :: 0 <= x < |A| ==> marked[x])
      && Labelling(A, marked, id, Seeds)
      && count == |Seeds|
    }

    /**
     * First pass: DepthFirstOrder of digraph.reverse(). Second pass: dfs on the digraph from
     * each vertex of the reverse postorder that is still unmarked, one label per search.
     * `id` starts out `undefined` everywhere, modelled as 0; every entry is overwritten.
     */
    constructor(digraph: Digraph)
      requires digraph.Valid()
      ensures Valid() && A == digraph.Adj
    {
      var rpo, post := FirstPass(digraph);
      var m, i, n, seeds := Label(digraph, rpo, post);
      A := digraph.Adj;
      marked, id, count := m, i, n;
      Seeds := seeds;
    }

    /** The first pass: the reverse postorder of digraph.reverse(), and its post numbers. */
    static method FirstPass(digraph: Digraph) returns (rpo: seq<int>, ghost post: seq<int>)
      requires digraph.Valid()
      ensures FinishOrder(digraph.Adj, rpo, post)
    {
      var reverse := digraph.Reverse();
      var order := new DepthFirstOrder.DepthFirstOrder(reverse);
      var stack := order.GetReversePostOrder();
      rpo := stack.Iterate();
      post := order.post;
      order.ComponentsFinishLast();
      ReversedProperties(digraph.Adj);
      ReverseFinish(digraph.Adj, order.A, post);
      RankOrder(digraph.Adj, rpo, post);
    }

    /** The second pass, on arrays that start all false and all 0. */
    static method Label(digraph: Digraph, rpo: seq<int>, ghost post: seq<int>)
      returns (m: seq<bool>, id: seq<int>, count: int, ghost seeds: seq<int>)
      requires digraph.Valid() && FinishOrder(digraph.Adj, rpo, post)
      ensures Labelling(digraph.Adj, m, id, seeds) && count == |seeds|
      ensures forall x :: 0 <= x < |digraph.Adj| ==> m[x]
    {
      ghost var A := digraph.Adj;
      m := seq(digraph.V(), _ => false);
      id := seq(digraph.V(), _ => 0);
      seeds := [];
      count := 0;
      ClosedEmpty(A, m);
      for i := 0 to |rpo|
        invariant Labelling(A, m, id, seeds) && Visited(A, rpo, m, i) && count == |seeds|
      {
        var s := rpo[i];
        if !m[s] {
          var m', id' := Dfs(digraph, s, m, id, count, {});
          ComponentStep(A, rpo, post, m, m', id, id', seeds, i);
          m, id, seeds := m', id', seeds + [s];
          count := count + 1;
        }
      }
      forall x | 0 <= x < |A|
        ensures m[x]
      {
        assert rpo[|A| - 1 - post[x]] == x;
      }
    }

    /** dfs(v): marks v, labels it `c` and recurses into each unmarked out-neighbour. */
    static method Dfs(digraph: Digraph, v: int, m: seq<bool>, id: seq<int>, c: int, ghost S: set<int>)
      returns (m': seq<bool>, id': seq<int>)
      requires digraph.Valid() && 0 <= v < |digraph.Adj| && |m| == |digraph.Adj| && |id| == |m| && !m[v]
      requires ClosedExcept(digraph.Adj, m, S)
      ensures Grows(m, m') && m'[v] && ClosedExcept(digraph.Adj, m', S) && NewFrom(digraph.Adj, m, m', v)
      ensures Labelled(m, m', id, id', c)
      decreases Unmarked(m)
    {
      ghost var A := digraph.Adj;
      EnterStep(A, m, S, v);
      m', id' := m[v := true], id[v := c];
      var ws := digraph.Adjacent(v);
      for j := 0 to |ws|
        invariant ScanInv(A, m, m', S, v, j)
        invariant Labelled(m, m', id, id', c)
      {
        var w := ws[j];
        NeighbourInRange(A, v, j);
        if !m'[w] {
          MeasureStep(m, m', v);
          var m2, id2 := Dfs(digraph, w, m', id', c, S + {v});
          ChildStep(A, m, m', m2, S, v, j);
          LabelledTrans(m, m', m2, id, id', id2, c);
          m', id' := m2, id2;
        } else {
          SkipStep(A, m, m', S, v, j);
        }
      }
      ExitStep(A, m, m', S, v);
    }

    /**
     * Whether v and w carry the same label. Indices outside the digraph read `undefined`, and
     * `undefined === undefined`: two such indices compare as strongly connected.
     */
    function StronglyConnected(v: int, w: int): (b: bool)
      reads this
      requires Valid()
      ensures b <==> if 0 <= v < |A| && 0 <= w < |A| then Mutual(A, v, w) else !(0 <= v < |A|) && !(0 <= w < |A|)
    {
      var iv := if 0 <= v < |id| then Some(id[v]) else None;
      var iw := if 0 <= w < |id| then Some(id[w]) else None;
      iv == iw
    }

    /** stronglyConnected is an equivalence relation on all indices. */
    lemma Equivalence(u: int, v: int, w: int)
      requires Valid()
      ensures StronglyConnected(u, u)
      ensures StronglyConnected(u, v) ==> StronglyConnected(v, u)
      ensures StronglyConnected(u, v) && StronglyConnected(v, w) ==> StronglyConnected(u, w)
    {
      if 0 <= u < |A| {
        MutualEquivalence(A, u, v, w);
      }
    }

    /** The label of v, which names the seed of its strong component; `undefined` outside the digraph. */
    function GetId(v: int): (r: Option<int>)
      reads this
      requires Valid()
      ensures r.Some? <==> 0 <= v < |A|
      ensures r.Some? ==> 0 <= r.value < count && Mutual(A, Seeds[r.value], v)
    {
      if 0 <= v < |id| then
        assert id[Seeds[id[v]]] == id[v];
        Some(id[v])
      else None
    }

    /**
     * The number of searches the second pass started: one seed per strong component, the seeds
     * pairwise not strongly connected, every vertex strongly connected to the seed of its label.
     */
    function GetCount(): (n: int)
      reads this
      requires Valid()
      ensures n == |Seeds|
      ensures forall i, j :: 0 <= i < j < n ==> !Mutual(A, Seeds[i], Seeds[j])
      ensures forall v :: 0 <= v < |A| ==> 0 <= id[v] < n && Mutual(A, Seeds[id[v]], v)
    {
      assert forall i :: 0 <= i < |Seeds| ==> id[Seeds[i]] == i;
      count
    }
  }
}
