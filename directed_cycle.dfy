// DirectedCycle (graphs/directed/directed-cycle.ts): depth-first search that
// keeps the vertices of the active calls flagged in onStack; the first edge
// found into a flagged vertex closes a cycle, which is read back along the
// edgeTo links onto an ArrayStack. The marked, onStack and edgeTo arrays are
// threaded through the recursion as values and stored into the fields when the
// search ends.
module DirectedCycle {
  import opened Common
  import opened Paths
  import opened Digraphs
  import opened ResizingStack
  import opened DfsTheory

  /** Only marked vertices are flagged as on the stack. */
  ghost predicate OnMarked(m: seq<bool>, on: seq<bool>)
  {
    |on| == |m| && forall x :: 0 <= x < |m| && on[x] ==> m[x]
  }

  /**
   * `st` lists the vertices of the active calls, outermost first: distinct marked vertices,
   * exactly the flagged ones, each entered along an edge from its predecessor, which its
   * edgeTo entry names.
   */
  ghost predicate StackPath(A: seq<seq<int>>, m: seq<bool>, on: seq<bool>, e: seq<int>, st: seq<int>)
  {
    && |m| == |A| && |on| == |A| && Links(A, e, st)
    && (forall i :: 0 <= i < |st| ==> m[st[i]])
    && Distinct(st)
    && (forall x :: 0 <= x < |A| ==> (on[x] <==> x in st))
  }

  ghost predicate Distinct(st: seq<int>)
  {
    forall i, k :: 0 <= i < k < |st| ==> st[i] != st[k]
  }

  /** `st` is a walk of the digraph in which edgeTo names each vertex's predecessor. */
  ghost predicate Links(A: seq<seq<int>>, e: seq<int>, st: seq<int>)
  {
    && |e| == |A|
    && (forall i :: 0 <= i < |st| ==> 0 <= st[i] < |A|)
    && (forall i :: 0 < i < |st| ==> st[i] in A[st[i - 1]] && e[st[i]] == st[i - 1])
  }

  /**
   * A finished vertex (marked, no longer on the stack) has a finishing number below `c`, and
   * every out-neighbour of it finished earlier.
   */
  ghost predicate Finish(A: seq<seq<int>>, m: seq<bool>, on: seq<bool>, post: seq<int>, c: int)
    requires |m| == |A| && |on| == |A|
  {
    && |post| == |A| && 0 <= c
    && forall u :: 0 <= u < |A| && m[u] && !on[u] ==>
         && 0 <= post[u] < c
         && forall k :: 0 <= k < |A[u]| ==>
              0 <= A[u][k] < |A| && m[A[u][k]] && !on[A[u][k]] && post[A[u][k]] < post[u]
  }

  /** The state of a search that has not found a cycle, with the calls of `st` active. */
  ghost predicate NoCycle(A: seq<seq<int>>, m: seq<bool>, on: seq<bool>, e: seq<int>, st: seq<int>, post: seq<int>, c: int)
  {
    WellFormed(A) && OnMarked(m, on) && StackPath(A, m, on, e, st) && Finish(A, m, on, post, c)
  }

  /** v is about to be entered from the innermost active call, whose vertex edgeTo[v] names. */
  ghost predicate Linked(A: seq<seq<int>>, e: seq<int>, st: seq<int>, v: int)
    requires 0 <= v < |e|
  {
    st == [] || (0 <= st[|st| - 1] < |A| && v in A[st[|st| - 1]] && e[v] == st[|st| - 1])
  }

  /** The first j out-neighbours of v are finished. */
  ghost predicate Scanned(A: seq<seq<int>>, m: seq<bool>, on: seq<bool>, v: int, j: int)
    requires 0 <= v < |A| && |m| == |A| && |on| == |A|
  {
    j <= |A[v]| && forall k :: 0 <= k < j ==> 0 <= A[v][k] < |A| && m[A[v][k]] && !on[A[v][k]]
  }

  /** A recorded cycle: a stack that yields a closed walk of the digraph. */
  ghost predicate CycleFound(A: seq<seq<int>>, cycle: ArrayStack?<int>)
    reads cycle, if cycle != null then cycle.Repr else {}
  {
    cycle != null && cycle.Valid() && Cycle(A, Reverse(cycle.Contents))
  }

  lemma NoCycleStart(A: seq<seq<int>>, n: nat)
    requires WellFormed(A) && n == |A|
    ensures NoCycle(A, seq(n, _ => false), seq(n, _ => false), seq(n, _ => 0), [], seq(n, _ => 0), 0)
  {
  }

  /** Entering v pushes it onto the stack; no vertex becomes finished. */
  lemma EnterNoCycle(A: seq<seq<int>>, m: seq<bool>, on: seq<bool>, e: seq<int>, st: seq<int>, post: seq<int>, c: int, v: int)
    requires NoCycle(A, m, on, e, st, post, c) && 0 <= v < |A| && !m[v] && Linked(A, e, st, v)
    ensures NoCycle(A, m[v := true], on[v := true], e, st + [v], post, c)
    ensures Scanned(A, m[v := true], on[v := true], v, 0)
  {
    var m', on', st' := m[v := true], on[v := true], st + [v];
    assert v !in st;
    forall x | 0 <= x < |A|
      ensures on'[x] <==> x in st'
    {
    }
    forall i | 0 < i < |st'|
      ensures st'[i] in A[st'[i - 1]] && e[st'[i]] == st'[i - 1]
    {
      if i < |st| {
        assert st'[i] == st[i] && st'[i - 1] == st[i - 1];
      }
    }
  }

  /** Setting edgeTo[w] := v for an unmarked w keeps the stack's links and links w to v. */
  lemma ChildLink(A: seq<seq<int>>, m: seq<bool>, on: seq<bool>, e: seq<int>, st: seq<int>, post: seq<int>, c: int, v: int, w: int)
    requires NoCycle(A, m, on, e, st, post, c) && st != [] && st[|st| - 1] == v
    requires 0 <= w < |A| && !m[w] && w in A[v]
    ensures NoCycle(A, m, on, e[w := v], st, post, c) && Linked(A, e[w := v], st, w)
  {
    forall i | 0 < i < |st|
      ensures e[w := v][st[i]] == st[i - 1]
    {
      assert m[st[i]];
    }
  }

  /** A marked neighbour that is not on the stack is finished, so the scan moves past it. */
  lemma SkipScanned(A: seq<seq<int>>, m: seq<bool>, on: seq<bool>, v: int, j: int)
    requires 0 <= v < |A| && |m| == |A| && |on| == |A| && Scanned(A, m, on, v, j) && 0 <= j < |A[v]|
    requires 0 <= A[v][j] < |A| && m[A[v][j]] && !on[A[v][j]]
    ensures Scanned(A, m, on, v, j + 1)
  {
  }

  /** A child call that returns without a cycle leaves earlier neighbours finished. */
  lemma ChildScanned(A: seq<seq<int>>, m: seq<bool>, on: seq<bool>, m': seq<bool>, v: int, j: int)
    requires 0 <= v < |A| && |m| == |A| && |on| == |A| && Scanned(A, m, on, v, j) && Grows(m, m')
    ensures Scanned(A, m', on, v, j)
  {
  }

  /** Leaving v pops it and gives it the next finishing number. */
  lemma ExitNoCycle(A: seq<seq<int>>, m: seq<bool>, on: seq<bool>, e: seq<int>, st: seq<int>, post: seq<int>, c: int, v: int)
    requires 0 <= v < |A| && NoCycle(A, m, on, e, st + [v], post, c) && Scanned(A, m, on, v, |A[v]|)
    ensures NoCycle(A, m, on[v := false], e, st, post[v := c], c + 1)
  {
    var st' := st + [v];
    var on', post' := on[v := false], post[v := c];
    assert st'[|st|] == v;
    assert forall i :: 0 <= i < |st| ==> st[i] == st'[i];
    assert v !in st by {
      forall i | 0 <= i < |st|
        ensures st[i] != v
      {
        assert st'[i] == st[i];
      }
    }
    forall i | 0 < i < |st|
      ensures st[i] in A[st[i - 1]] && e[st[i]] == st[i - 1]
    {
      assert st'[i] == st[i] && st'[i - 1] == st[i - 1];
    }
    assert on[v];
    forall u | 0 <= u < |A| && m[u] && !on'[u]
      ensures 0 <= post'[u] < c + 1
      ensures forall k :: 0 <= k < |A[u]| ==>
                0 <= A[u][k] < |A| && m[A[u][k]] && !on'[A[u][k]] && post'[A[u][k]] < post'[u]
    {
      if u == v {
        forall k | 0 <= k < |A[u]|
          ensures 0 <= A[u][k] < |A| && m[A[u][k]] && !on'[A[u][k]] && post'[A[u][k]] < post'[u]
        {
          assert A[v][k] != v;
        }
      }
    }
  }

  /** With no active call and no vertex unmarked, finishing numbers fall along every edge. */
  lemma {:induction false} FallingPost(A: seq<seq<int>>, m: seq<bool>, on: seq<bool>, e: seq<int>, post: seq<int>, c: int, p: seq<int>)
    requires NoCycle(A, m, on, e, [], post, c)
    requires forall x :: 0 <= x < |A| ==> m[x]
    requires IsPath(A, p) && |p| >= 2
    ensures post[p[|p| - 1]] < post[p[0]]
  {
    var u := p[0];
    assert !on[u];
    assert p[1] in A[u];
    var k :| 0 <= k < |A[u]| && A[u][k] == p[1];
    if |p| > 2 {
      FallingPost(A, m, on, e, post, c, p[1..]);
    }
  }

  /** A search that ends without a cycle has met a digraph that has none. */
  lemma NoCycleAcyclic(A: seq<seq<int>>, m: seq<bool>, on: seq<bool>, e: seq<int>, post: seq<int>, c: int)
    requires NoCycle(A, m, on, e, [], post, c)
    requires forall x :: 0 <= x < |A| ==> m[x]
    ensures !HasCycle(A)
  {
    if HasCycle(A) {
      var p :| Cycle(A, p);
      FallingPost(A, m, on, e, post, c, p);
    }
  }

  /**
   * The stack of active calls from w up to v, closed by the edge v -> w, is a cycle: the
   * walk v, w, ..., v.
   */
  lemma StackCycle(A: seq<seq<int>>, e: seq<int>, st: seq<int>, v: int, k: int)
    requires Links(A, e, st) && st != [] && st[|st| - 1] == v
    requires 0 <= k < |st| && st[k] in A[v]
    ensures Cycle(A, [v] + st[k..])
  {
    var p := [v] + st[k..];
    forall i | 0 <= i < |p| - 1
      ensures p[i + 1] in A[p[i]]
    {
      if i > 0 {
        assert p[i + 1] == st[k + i] && p[i] == st[k + i - 1];
      }
    }
  }

  lemma PopFront(st: seq<int>, i: int)
    requires 0 <= i < |st|
    ensures Reverse(st[i + 1..]) + [st[i]] == Reverse(st[i..])
  {
    assert st[i..][1..] == st[i + 1..];
  }

  lemma ReadBack(s: seq<int>, v: int)
    ensures Reverse(Reverse(s) + [v]) == [v] + s
  {
    ReverseSnoc(Reverse(s), v);
    ReverseReverse(s);
  }

  class DirectedCycle {
    var marked: seq<bool>
    var onStack: seq<bool>
    var edgeTo: seq<int>
    var cycle: ArrayStack?<int>
    /** The digraph searched. */
    ghost const A: seq<seq<int>>
    /** When no cycle was found: the order in which the calls finished. */
    ghost var post: seq<int>
    /** When no cycle was found: the number of finished calls. */
    ghost var clock: int

    ghost predicate Valid()
      reads this, cycle, if cycle != null then cycle.Repr else {}
    {
      && |marked| == |A| && |edgeTo| == |A| && OnMarked(marked, onStack)
      && (forall x :: 0 <= x < |A| ==> marked[x])
      && (cycle == null ==> NoCycle(A, marked, onStack, edgeTo, [], post, clock))
      && (cycle != null ==> CycleFound(A, cycle))
    }

    /**
     * Runs dfs from every vertex not yet marked, in order; `edgeTo` starts out `undefined`
     * everywhere, modelled as 0.
     */
    constructor(digraph: Digraph)
      requires digraph.Valid()
      ensures Valid() && A == digraph.Adj
      ensures cycle != null ==> fresh(cycle.Repr)
    {
      var m, on, e, cyc, p, c := Search(digraph);
      A := digraph.Adj;
      marked, onStack, edgeTo, cycle, post, clock := m, on, e, cyc, p, c;
    }

    /** The constructor's loop over the vertices. */
    static method Search(digraph: Digraph)
      returns (m: seq<bool>, on: seq<bool>, e: seq<int>, cyc: ArrayStack?<int>, ghost post: seq<int>, ghost c: int)
      requires digraph.Valid()
      ensures |m| == |digraph.Adj| && |e| == |digraph.Adj| && OnMarked(m, on)
      ensures forall x :: 0 <= x < |digraph.Adj| ==> m[x]
      ensures cyc == null ==> NoCycle(digraph.Adj, m, on, e, [], post, c)
      ensures cyc != null ==> CycleFound(digraph.Adj, cyc) && fresh(cyc.Repr)
    {
      ghost var A := digraph.Adj;
      var n := digraph.V();
      m := seq(n, _ => false);
      on := seq(n, _ => false);
      e := seq(n, _ => 0);
      cyc := null;
      post := seq(n, _ => 0);
      c := 0;
      NoCycleStart(A, n);
      for v := 0 to n
        invariant |m| == n && |e| == n && OnMarked(m, on)
        invariant forall x :: 0 <= x < v ==> m[x]
        invariant cyc == null ==> NoCycle(A, m, on, e, [], post, c)
        invariant cyc != null ==> CycleFound(A, cyc) && fresh(cyc.Repr)
      {
        if !m[v] {
          m, on, e, cyc, post, c := Dfs(digraph, v, m, on, e, cyc, [], post, c);
        }
      }
    }

    /**
     * dfs(v): flags and marks v, then scans its out-neighbours. Once a cycle is recorded the
     * scan returns at its next step, leaving v flagged; an unmarked neighbour is entered
     * through edgeTo; a flagged one closes a cycle. v is unflagged when the scan completes.
     * `st` holds the vertices of the active calls and `post`, `c` number the finished calls;
     * both exist only for the proof.
     */
    static method Dfs(digraph: Digraph, v: int, m: seq<bool>, on: seq<bool>, e: seq<int>, cyc: ArrayStack?<int>,
                      ghost st: seq<int>, ghost post: seq<int>, ghost c: int)
      returns (m': seq<bool>, on': seq<bool>, e': seq<int>, cyc': ArrayStack?<int>, ghost post': seq<int>, ghost c': int)
      requires digraph.Valid() && 0 <= v < |digraph.Adj|
      requires |m| == |digraph.Adj| && |e| == |digraph.Adj| && OnMarked(m, on) && !m[v]
      requires cyc == null ==> NoCycle(digraph.Adj, m, on, e, st, post, c) && Linked(digraph.Adj, e, st, v)
      requires cyc != null ==> CycleFound(digraph.Adj, cyc)
      ensures Grows(m, m') && m'[v] && |e'| == |digraph.Adj| && OnMarked(m', on')
      ensures cyc != null ==> cyc' == cyc && m' == m[v := true] && e' == e
      ensures cyc != null ==> on' == if |digraph.Adj[v]| > 0 then on[v := true] else on
      ensures cyc == null && cyc' == null ==> on' == on && NoCycle(digraph.Adj, m', on', e', st, post', c') && c <= c'
      ensures cyc' != null ==> CycleFound(digraph.Adj, cyc')
      ensures cyc == null && cyc' != null ==> fresh(cyc'.Repr)
      decreases Unmarked(m)
    {
      ghost var A := digraph.Adj;
      on' := on[v := true];
      m' := m[v := true];
      e', cyc' := e, cyc;
      post', c' := post, c;
      ghost var st' := st + [v];
      if cyc == null {
        EnterNoCycle(A, m, on, e, st, post, c, v);
      }
      var ws := digraph.Adjacent(v);
      for j := 0 to |ws|
        invariant Grows(m, m') && m'[v] && |e'| == |A| && OnMarked(m', on')
        invariant cyc != null ==> j == 0 && cyc' == cyc && m' == m[v := true] && on' == on[v := true] && e' == e
        invariant cyc' != null ==> CycleFound(A, cyc')
        invariant cyc == null && cyc' != null ==> fresh(cyc'.Repr)
        invariant cyc' == null ==> on' == on[v := true] && NoCycle(A, m', on', e', st', post', c') && c <= c'
        invariant cyc' == null ==> Scanned(A, m', on', v, j)
      {
        var w := ws[j];
        NeighbourInRange(A, v, j);
        if cyc' != null {
          return;
        } else if !m'[w] {
          ChildLink(A, m', on', e', st', post', c', v, w);
          e' := e'[w := v];
          MeasureStep(m, m', v);
          ghost var m1, on1 := m', on';
          m', on', e', cyc', post', c' := Dfs(digraph, w, m', on', e', cyc', st', post', c');
          if cyc' == null {
            ChildScanned(A, m1, on1, m', v, j);
            SkipScanned(A, m', on', v, j);
          }
        } else if on'[w] {
          assert w in st';
          ghost var k :| 0 <= k < |st'| && st'[k] == w;
          cyc' := BuildCycle(v, w, e', st', k);
          StackCycle(A, e', st', v, k);
        } else {
          SkipScanned(A, m', on', v, j);
        }
      }
      on' := on'[v := false];
      if cyc' == null {
        ExitNoCycle(A, m', on[v := true], e', st, post', c', v);
        post' := post'[v := c'];
        c' := c' + 1;
      }
    }

    /**
     * Pushes v, edgeTo[v], ... up to but not including w, then w, then v: read from the top,
     * the stack yields v, w, the active calls after w, and v again.
     */
    static method BuildCycle(v: int, w: int, e: seq<int>, ghost st: seq<int>, ghost k: int)
      returns (cycle: ArrayStack<int>)
      requires forall i :: 0 <= i < |st| ==> 0 <= st[i] < |e|
      requires forall i :: 0 < i < |st| ==> e[st[i]] == st[i - 1]
      requires Distinct(st) && st != [] && st[|st| - 1] == v
      requires 0 <= k < |st| && st[k] == w
      ensures fresh(cycle.Repr) && cycle.Valid()
      ensures Reverse(cycle.Contents) == [v] + st[k..]
    {
      cycle := new ArrayStack<int>.Default();
      PushPath(cycle, v, w, e, st, k);
      PopFront(st, k);
      cycle.Push(w);
      cycle.Push(v);
      ReadBack(st[k..], v);
    }

    /** The loop of BuildCycle: pushes v, edgeTo[v], ... while the vertex is not w. */
    static method PushPath(cycle: ArrayStack<int>, v: int, w: int, e: seq<int>, ghost st: seq<int>, ghost k: int)
      requires cycle.Valid() && cycle.Contents == []
      requires forall i :: 0 <= i < |st| ==> 0 <= st[i] < |e|
      requires forall i :: 0 < i < |st| ==> e[st[i]] == st[i - 1]
      requires Distinct(st) && st != [] && st[|st| - 1] == v
      requires 0 <= k < |st| && st[k] == w
      modifies cycle.Repr
      ensures cycle.Valid() && fresh(cycle.Repr - old(cycle.Repr))
      ensures cycle.Contents == Reverse(st[k + 1..])
    {
      var x := v;
      ghost var i := |st| - 1;
      while x != w
        invariant cycle.Valid() && fresh(cycle.Repr - old(cycle.Repr))
        invariant k <= i < |st| && x == st[i]
        invariant cycle.Contents == Reverse(st[i + 1..])
        decreases i
      {
        assert i != k && e[st[i]] == st[i - 1];
        PopFront(st, i);
        cycle.Push(x);
        x := e[x];
        i := i - 1;
      }
    }

    /** Whether a cycle was recorded, which is exactly when the digraph has one. */
    function HasCycle(): (b: bool)
      reads this, cycle, if cycle != null then cycle.Repr else {}
      requires Valid()
      ensures b <==> Paths.HasCycle(A)
    {
      if cycle == null then
        NoCycleAcyclic(A, marked, onStack, edgeTo, post, clock);
        false
      else true
    }

    /** `null` when the digraph is acyclic; otherwise a stack that yields a closed walk v, w, ..., v. */
    function GetCycle(): (r: ArrayStack?<int>)
      reads this, cycle, if cycle != null then cycle.Repr else {}
      requires Valid()
      ensures r == null <==> !Paths.HasCycle(A)
      ensures r != null ==> r.Valid() && Cycle(A, Reverse(r.Contents))
    {
      if cycle == null then
        NoCycleAcyclic(A, marked, onStack, edgeTo, post, clock);
        null
      else cycle
    }
  }
}
