// DepthFirstOrder (graphs/directed/depth-first-order.ts): numbers the vertices
// of a digraph in preorder and postorder by depth-first search from every
// unmarked vertex 0, 1, ..., and queues them in both orders. The marked, pre
// and post arrays and the two counters are threaded through the recursion as
// one `Visit` value; the two queues are the Queue objects the search appends to.
module DepthFirstOrder {
  import opened Common
  import opened Paths
  import opened Digraphs
  import opened LinkedQueue
  import opened ResizingStack
  import opened DfsTheory
  import opened DfsOrderTheory

  /** The arrays and counters that dfs updates. */
  datatype Visit = Visit(marked: seq<bool>, pre: seq<int>, post: seq<int>, preCounter: int, postCounter: int)

  /** The counters equal the lengths of the two queues. */
  ghost predicate Counted(st: Visit, Q1: seq<int>, Q2: seq<int>)
  {
    st.preCounter == |Q1| && st.postCounter == |Q2|
  }

  ghost predicate Inv(A: seq<seq<int>>, st: Visit, Q1: seq<int>, Q2: seq<int>, S: set<int>)
  {
    Counted(st, Q1, Q2) && OrderInv(A, st.marked, st.pre, st.post, Q1, Q2, S)
  }

  class DepthFirstOrder {
    var pre: seq<int>
    var post: seq<int>
    const postOrder: Queue<int>
    const preOrder: Queue<int>
    var marked: seq<bool>
    var preOrderCounter: int
    var postOrderCounter: int
    /** The digraph searched. */
    ghost const A: seq<seq<int>>

    ghost predicate Valid()
      reads this, preOrder, postOrder
    {
      && preOrder != postOrder && preOrder.Valid() && postOrder.Valid()
      && Inv(A, Visit(marked, pre, post, preOrderCounter, postOrderCounter), preOrder.items, postOrder.items, {})
      && (forall x :: 0 <= x < |A| ==> marked[x])
      && |preOrder.items| == |A| && |postOrder.items| == |A|
    }

    /** `pre` and `post` start out `undefined` everywhere, modelled as 0; every entry is overwritten. */
    constructor(digraph: Digraph)
      requires digraph.Valid()
      ensures Valid() && A == digraph.Adj && fresh(preOrder) && fresh(postOrder)
    {
      var q1 := new Queue<int>();
      var q2 := new Queue<int>();
      var st := Search(digraph, q1, q2);
      A := digraph.Adj;
      preOrder, postOrder := q1, q2;
      marked, pre, post := st.marked, st.pre, st.post;
      preOrderCounter, postOrderCounter := st.preCounter, st.postCounter;
    }

    /** The constructor's loop: dfs from every vertex still unmarked, in increasing order. */
    static method Search(digraph: Digraph, q1: Queue<int>, q2: Queue<int>) returns (st: Visit)
      requires digraph.Valid() && q1 != q2 && q1.Valid() && q2.Valid() && q1.items == [] && q2.items == []
      modifies q1, q2
      ensures q1.Valid() && q2.Valid() && Inv(digraph.Adj, st, q1.items, q2.items, {})
      ensures forall x :: 0 <= x < |digraph.Adj| ==> st.marked[x]
      ensures |q1.items| == |digraph.Adj| && |q2.items| == |digraph.Adj|
    {
      ghost var A := digraph.Adj;
      var n := digraph.V();
      st := Visit(seq(n, _ => false), seq(n, _ => 0), seq(n, _ => 0), 0, 0);
      OrderStart(A, n);
      for v := 0 to n
        invariant q1.Valid() && q2.Valid()
        invariant Inv(A, st, q1.items, q2.items, {})
        invariant forall x :: 0 <= x < v ==> st.marked[x]
      {
        if !st.marked[v] {
          st := Dfs(digraph, v, st, q1, q2, {});
        }
      }
      Complete(A, st.marked, st.pre, st.post, q1.items, q2.items);
    }

    /**
     * dfs(v): marks v, numbers and queues it in preorder, recurses into each unmarked
     * out-neighbour, then numbers and queues it in postorder. `S` holds the vertices whose
     * calls are still active, all of which reach v. The vertices first discovered inside the
     * call come after v in preorder and before it in postorder.
     */
    static method Dfs(digraph: Digraph, v: int, st: Visit, q1: Queue<int>, q2: Queue<int>, ghost S: set<int>)
      returns (st': Visit)
      requires digraph.Valid() && q1 != q2 && q1.Valid() && q2.Valid()
      requires Inv(digraph.Adj, st, q1.items, q2.items, S)
      requires 0 <= v < |digraph.Adj| && !st.marked[v] && StackReaches(digraph.Adj, S, v)
      modifies q1, q2
      ensures q1.Valid() && q2.Valid() && Inv(digraph.Adj, st', q1.items, q2.items, S)
      ensures Grows(st.marked, st'.marked) && st'.marked[v]
      ensures old(q1.items) + [v] <= q1.items && old(q2.items) <= q2.items
      ensures st'.pre[v] == |old(q1.items)| && st'.post[v] == |q2.items| - 1
      ensures forall x :: 0 <= x < |digraph.Adj| && st'.marked[x] && !st.marked[x] && x != v ==>
        st'.pre[v] < st'.pre[x] && st'.post[x] < st'.post[v]
      decreases Unmarked(st.marked), 1
    {
      ghost var A := digraph.Adj;
      ghost var Q10, Q20 := q1.items, q2.items;
      EnterOrder(A, st.marked, st.pre, st.post, q1.items, q2.items, S, v);
      st' := st.(marked := st.marked[v := true]);
      var _ := q1.Enqueue(v);
      st' := st'.(pre := st'.pre[v := st'.preCounter], preCounter := st'.preCounter + 1);
      st' := Scan(digraph, v, st.marked, Q10, Q20, st', q1, q2, S);
      ExitOrder(A, st'.marked, st'.pre, st'.post, q1.items, q2.items, S, v);
      var _ := q2.Enqueue(v);
      st' := st'.(post := st'.post[v := st'.postCounter], postCounter := st'.postCounter + 1);
      Nesting(A, st.marked, st.pre, Q10, Q20, st'.marked, st'.pre, st'.post, q1.items, q2.items, S, v);
    }

    /** The loop of dfs(v) over adj(v), entered with marks `m0` and queue contents `Q10`, `Q20`. */
    static method Scan(digraph: Digraph, v: int, ghost m0: seq<bool>, ghost Q10: seq<int>, ghost Q20: seq<int>,
                       st: Visit, q1: Queue<int>, q2: Queue<int>, ghost S: set<int>)
      returns (st': Visit)
      requires digraph.Valid() && q1 != q2 && q1.Valid() && q2.Valid() && Counted(st, q1.items, q2.items)
      requires 0 <= v < |digraph.Adj| && StackReaches(digraph.Adj, S, v)
      requires OrderScan(digraph.Adj, m0, Q10, Q20, st.marked, st.pre, st.post, q1.items, q2.items, S, v, 0)
      requires !m0[v]
      modifies q1, q2
      ensures q1.Valid() && q2.Valid() && Counted(st', q1.items, q2.items)
      ensures OrderScan(digraph.Adj, m0, Q10, Q20, st'.marked, st'.pre, st'.post, q1.items, q2.items, S, v, |digraph.Adj[v]|)
      decreases Unmarked(m0), 0
    {
      ghost var A := digraph.Adj;
      st' := st;
      var ws := digraph.Adjacent(v);
      for j := 0 to |ws|
        invariant q1.Valid() && q2.Valid() && Counted(st', q1.items, q2.items)
        invariant OrderScan(A, m0, Q10, Q20, st'.marked, st'.pre, st'.post, q1.items, q2.items, S, v, j)
      {
        var w := ws[j];
        NeighbourInRange(A, v, j);
        if !st'.marked[w] {
          MeasureStep(m0, st'.marked, v);
          ChildReaches(A, S, v, w);
          ghost var Q1, Q2 := q1.items, q2.items;
          var st2 := Dfs(digraph, w, st', q1, q2, S + {v});
          OrderChild(A, m0, Q10, Q20, st'.marked, st'.pre, st'.post, Q1, Q2,
                     st2.marked, st2.pre, st2.post, q1.items, q2.items, S, v, j);
          st' := st2;
        } else {
          OrderSkip(A, m0, Q10, Q20, st'.marked, st'.pre, st'.post, q1.items, q2.items, S, v, j);
        }
      }
    }

    /** pre[v]: v's position in the preorder; `undefined` outside the digraph. */
    function GetPre(v: int): (r: Option<int>)
      reads this, preOrder, postOrder
      requires Valid()
      ensures r.Some? <==> 0 <= v < |A|
      ensures r.Some? ==> 0 <= r.value < |A| && preOrder.items[r.value] == v
    {
      if 0 <= v < |pre| then Some(pre[v]) else None
    }

    /** post[v]: v's position in the postorder; `undefined` outside the digraph. */
    function GetPost(v: int): (r: Option<int>)
      reads this, preOrder, postOrder
      requires Valid()
      ensures r.Some? <==> 0 <= v < |A|
      ensures r.Some? ==> 0 <= r.value < |A| && postOrder.items[r.value] == v
    {
      if 0 <= v < |post| then Some(post[v]) else None
    }

    /** The preorder queue: every vertex once, by increasing pre number. */
    method GetPreOrder() returns (q: Queue<int>)
      requires Valid()
      ensures q == preOrder && |q.items| == |A|
      ensures forall i :: 0 <= i < |A| ==> GetPre(q.items[i]) == Some(i)
    {
      q := preOrder;
    }

    /** The postorder queue: every vertex once, by increasing post number. */
    method GetPostOrder() returns (q: Queue<int>)
      requires Valid()
      ensures q == postOrder && |q.items| == |A|
      ensures forall i :: 0 <= i < |A| ==> GetPost(q.items[i]) == Some(i)
    {
      q := postOrder;
    }

    /**
     * Pushes the postorder onto a new stack, whose iterator then yields the vertices by
     * decreasing post number: the reverse of the postorder.
     */
    method GetReversePostOrder() returns (stack: ArrayStack<int>)
      requires Valid()
      ensures fresh(stack.Repr) && stack.Valid()
      ensures stack.Contents == postOrder.items
      ensures forall i :: 0 <= i < |A| ==> GetPost(Reverse(stack.Contents)[i]) == Some(|A| - 1 - i)
    {
      stack := new ArrayStack<int>.Default();
      var vs := postOrder.Iterate();
      for i := 0 to |vs|
        invariant fresh(stack.Repr) && stack.Valid()
        invariant stack.Contents == vs[..i]
      {
        stack.Push(vs[i]);
        assert vs[..i + 1] == vs[..i] + [vs[i]];
      }
      assert vs[..|vs|] == vs;
    }

    /** Every vertex has a pre and a post number in [0, V), and no two share one. */
    lemma Permutations()
      requires Valid()
      ensures forall x :: 0 <= x < |A| ==> 0 <= pre[x] < |A| && 0 <= post[x] < |A|
      ensures forall x, y :: 0 <= x < |A| && 0 <= y < |A| && pre[x] == pre[y] ==> x == y
      ensures forall x, y :: 0 <= x < |A| && 0 <= y < |A| && post[x] == post[y] ==> x == y
    {
      forall x, y | 0 <= x < |A| && 0 <= y < |A| && (pre[x] == pre[y] || post[x] == post[y])
        ensures x == y
      {
        if pre[x] == pre[y] {
          assert preOrder.items[pre[x]] == x && preOrder.items[pre[y]] == y;
        } else {
          assert postOrder.items[post[x]] == x && postOrder.items[post[y]] == y;
        }
      }
    }

    /**
     * In a digraph without cycles every edge v -> w has post[w] < post[v], so v comes before w
     * in the reverse postorder: the reverse postorder is a topological order.
     */
    lemma Topological(v: int, w: int)
      requires Valid() && !HasCycle(A) && 0 <= v < |A| && 0 <= w < |A| && w in A[v]
      ensures post[w] < post[v]
      ensures |A| - 1 - post[v] < |A| - 1 - post[w]
    {
      Permutations();
      assert marked == seq(|A|, _ => true);
      AcyclicPostOrder(A, post, v, w);
    }

    /**
     * The post numbers are a permutation of [0, V), and a vertex reachable from u finishes no
     * later than some vertex of u's strong component.
     */
    lemma ComponentsFinishLast()
      requires Valid()
      ensures Finished(A, post)
    {
      Permutations();
      assert marked == seq(|A|, _ => true);
      forall u, x | 0 <= x < |A| && Reach(A, u, x)
        ensures FinishesLast(A, post, u, x)
      {
        ReachInRange(A, u, x);
        ComponentFinishesLast(A, post, u, x);
      }
    }
  }
}
