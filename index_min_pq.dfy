// IndexMinPQ (sorting/index-min-priority-queue/index.ts): a priority queue of
// the indices 0..maxN, each with an integer key, kept as a 1-based binary heap
// `pq` of indices, its inverse `qp` (-1 for an absent index) and the `keys`
// table. The three JavaScript arrays, updated by index, are sequence fields
// that the methods reassign. This class models the queue with `exchange` repaired so that it keeps
// qp[pq[k]] == k; the code as written is modelled in IndexMinPQAsWritten.
// Keys are integers compared by subtraction, the comparator Dijkstra and Prim
// pass.
module IndexMinPriorityQueue {
  import opened Common

  /** The key of the index at heap position c; 0 for a position or index outside the tables. */
  function Key(K: seq<int>, P: seq<int>, c: int): int
  {
    if 0 <= c < |P| && 0 <= P[c] < |K| then K[P[c]] else 0
  }

  /** Heap order: no position of 2..n holds a key below its parent's, the parent of c being c / 2. */
  ghost predicate Heap(K: seq<int>, P: seq<int>, n: int)
  {
    forall c :: 2 <= c <= n ==> Key(K, P, c / 2) <= Key(K, P, c)
  }

  /**
   * Heap order on every parent-child pair that does not involve position k, and the parent of
   * k is no greater than the children of k.
   */
  ghost predicate Loose(K: seq<int>, P: seq<int>, n: int, k: int)
  {
    && (forall c :: 2 <= c <= n && c != k && c / 2 != k ==> Key(K, P, c / 2) <= Key(K, P, c))
    && (k > 1 ==> forall c :: 2 <= c <= n && c / 2 == k ==> Key(K, P, k / 2) <= Key(K, P, c))
  }

  /** swim's invariant: only the pair of k and its parent may be out of order. */
  ghost predicate SwimInv(K: seq<int>, P: seq<int>, n: int, k: int)
  {
    Loose(K, P, n, k) && forall c :: 2 <= c <= n && c / 2 == k ==> Key(K, P, k) <= Key(K, P, c)
  }

  /** sink's invariant: only the pairs of k and its children may be out of order. */
  ghost predicate SinkInv(K: seq<int>, P: seq<int>, n: int, k: int)
  {
    Loose(K, P, n, k) && (2 <= k <= n ==> Key(K, P, k / 2) <= Key(K, P, k))
  }

  /** Positions 1..m of the heap and the inverse table agree: qp[pq[c]] == c, and -1 marks an absent index. */
  ghost predicate Inverse(P: seq<int>, Q: seq<int>, m: int)
  {
    && 0 <= m < |P|
    && (forall c :: 1 <= c <= m ==> 0 <= P[c] < |Q| && Q[P[c]] == c)
    && (forall x :: 0 <= x < |Q| ==> Q[x] == -1 || (1 <= Q[x] <= m && P[Q[x]] == x))
  }

  /** The heap with positions a and b swapped. */
  function Swap(P: seq<int>, a: int, b: int): (P': seq<int>)
    requires 0 <= a < |P| && 0 <= b < |P|
    ensures |P'| == |P| && P'[a] == P[b] && P'[b] == P[a]
    ensures forall c :: 0 <= c < |P| && c != a && c != b ==> P'[c] == P[c]
  {
    P[a := P[b]][b := P[a]]
  }

  /** The queued indices and their keys: every index whose qp entry is not -1. */
  function Items(K: seq<int>, Q: seq<int>): map<int, int>
    requires |K| == |Q|
  {
    map x | 0 <= x < |Q| && Q[x] != -1 :: K[x]
  }

  /** The queued items depend only on which qp entries are -1. */
  lemma SameItems(K: seq<int>, Q: seq<int>, Q': seq<int>)
    requires |K| == |Q| == |Q'|
    requires forall x :: 0 <= x < |Q| ==> (Q'[x] == -1 <==> Q[x] == -1)
    ensures Items(K, Q') == Items(K, Q)
  {
  }

  lemma ItemsInsert(K: seq<int>, Q: seq<int>, i: int, key: int, v: int)
    requires |K| == |Q| && 0 <= i < |Q| && v != -1
    ensures Items(K[i := key], Q[i := v]) == Items(K, Q)[i := key]
  {
  }

  lemma ItemsRemove(K: seq<int>, Q: seq<int>, i: int)
    requires |K| == |Q| && 0 <= i < |Q|
    ensures Items(K, Q[i := -1]) == Items(K, Q) - {i}
  {
  }

  lemma ItemsChange(K: seq<int>, Q: seq<int>, i: int, key: int)
    requires |K| == |Q| && 0 <= i < |Q| && Q[i] != -1
    ensures Items(K[i := key], Q) == Items(K, Q)[i := key]
  {
  }

  /** The children of k are 2k and 2k + 1; j is the one with the smaller key. */
  lemma MinChild(K: seq<int>, P: seq<int>, n: int, k: int, j: int)
    requires 1 <= k && 2 * k <= n
    requires j == 2 * k || j == 2 * k + 1
    requires j == 2 * k ==> 2 * k == n || Key(K, P, 2 * k) <= Key(K, P, 2 * k + 1)
    requires j == 2 * k + 1 ==> 2 * k < n && Key(K, P, 2 * k) > Key(K, P, 2 * k + 1)
    ensures j <= n && forall c :: 2 <= c <= n && c / 2 == k ==> Key(K, P, j) <= Key(K, P, c)
  {
    forall c | 2 <= c <= n && c / 2 == k
      ensures Key(K, P, j) <= Key(K, P, c)
    {
      assert c == 2 * k || c == 2 * k + 1;
    }
  }

  /** swim stops in heap order once k is the root or its parent's key is no greater. */
  lemma SwimStop(K: seq<int>, P: seq<int>, n: int, k: int)
    requires 1 <= k && SwimInv(K, P, n, k) && (k > 1 ==> Key(K, P, k / 2) <= Key(K, P, k))
    ensures Heap(K, P, n)
  {
  }

  /** sink stops in heap order: at a leaf, or where k's key is no greater than its smaller child's. */
  lemma SinkStop(K: seq<int>, P: seq<int>, n: int, k: int, j: int)
    requires 1 <= k && SinkInv(K, P, n, k)
    requires 2 * k <= n ==> forall c :: 2 <= c <= n && c / 2 == k ==> Key(K, P, j) <= Key(K, P, c)
    requires 2 * k <= n ==> Key(K, P, k) <= Key(K, P, j)
    ensures Heap(K, P, n)
  {
  }

  /** The indices at heap positions 1..n. */
  ghost function Queued(P: seq<int>, n: int): set<int>
    requires 0 <= n < |P|
  {
    set c | 1 <= c <= n :: P[c]
  }

  lemma SwimStep(K: seq<int>, P: seq<int>, n: int, k: int)
    requires 2 <= k <= n < |P| && Loose(K, P, n, k) && Key(K, P, k / 2) > Key(K, P, k)
    ensures SwimInv(K, Swap(P, k, k / 2), n, k / 2)
  {
    var p := k / 2;
    var P' := Swap(P, k, p);
    forall c | 0 <= c < |P|
      ensures Key(K, P', c) == Key(K, P, if c == k then p else if c == p then k else c)
    {
    }
    forall c | 2 <= c <= n && c / 2 == k
      ensures Key(K, P', k) <= Key(K, P', c)
    {
      assert Key(K, P, p) <= Key(K, P, c);
    }
    forall c | 2 <= c <= n && c / 2 == p && c != k
      ensures Key(K, P', p) <= Key(K, P', c)
    {
      assert Key(K, P, p) <= Key(K, P, c);
    }
    if p > 1 {
      forall c | 2 <= c <= n && c / 2 == p
        ensures Key(K, P', p / 2) <= Key(K, P', c)
      {
        assert Key(K, P, p / 2) <= Key(K, P, p);
        if c != k {
          assert Key(K, P, p) <= Key(K, P, c);
        }
      }
    }
  }

  lemma SinkStep(K: seq<int>, P: seq<int>, n: int, k: int, j: int)
    requires 1 <= k && 2 * k <= n < |P| && SinkInv(K, P, n, k)
    requires j == 2 * k || (j == 2 * k + 1 && j <= n)
    requires forall c :: 2 <= c <= n && c / 2 == k ==> Key(K, P, j) <= Key(K, P, c)
    requires Key(K, P, k) > Key(K, P, j)
    ensures SinkInv(K, Swap(P, k, j), n, j)
  {
    var P' := Swap(P, k, j);
    forall c | 0 <= c < |P|
      ensures Key(K, P', c) == Key(K, P, if c == k then j else if c == j then k else c)
    {
    }
    forall c | 2 <= c <= n && c / 2 == k
      ensures Key(K, P', k) <= Key(K, P', c)
    {
    }
    forall c | 2 <= c <= n && c / 2 == j
      ensures Key(K, P', k) <= Key(K, P', c)
    {
      assert Key(K, P, j) <= Key(K, P, c);
    }
    if k > 1 {
      assert Key(K, P, k / 2) <= Key(K, P, j);
    }
  }

  /** Under heap order every position satisfies sink's invariant. */
  lemma HeapSinkInv(K: seq<int>, P: seq<int>, n: int, k: int)
    requires Heap(K, P, n) && 1 <= k
    ensures SinkInv(K, P, n, k)
  {
    if k > 1 {
      forall c | 2 <= c <= n && c / 2 == k
        ensures Key(K, P, k / 2) <= Key(K, P, c)
      {
        assert Key(K, P, k / 2) <= Key(K, P, k);
      }
    }
  }

  /** Under heap order the root holds a smallest key. */
  lemma {:induction false} HeapRoot(K: seq<int>, P: seq<int>, n: int, c: int)
    requires Heap(K, P, n) && 1 <= c <= n
    ensures Key(K, P, 1) <= Key(K, P, c)
  {
    if c > 1 {
      HeapRoot(K, P, n, c / 2);
    }
  }

  /** The corrected exchange keeps the inverse table and the set of queued indices. */
  lemma ExchangeInverse(P: seq<int>, Q: seq<int>, m: int, a: int, b: int)
    requires Inverse(P, Q, m) && 1 <= a <= m && 1 <= b <= m
    ensures Inverse(Swap(P, a, b), Q[P[b] := a][P[a] := b], m)
    ensures forall x :: 0 <= x < |Q| ==> (Q[P[b] := a][P[a] := b][x] == -1 <==> Q[x] == -1)
  {
    var P', Q' := Swap(P, a, b), Q[P[b] := a][P[a] := b];
    forall x | 0 <= x < |Q| && Q'[x] != -1
      ensures 1 <= Q'[x] <= m && P'[Q'[x]] == x
    {
      if x != P[a] && x != P[b] {
        assert Q[x] != a && Q[x] != b;
      }
    }
  }

  /** Raising or lowering the key of the index at position k leaves only the pairs at k out of order. */
  lemma ChangeLoose(K: seq<int>, P: seq<int>, Q: seq<int>, n: int, i: int, key: int)
    requires Inverse(P, Q, n) && |K| == |Q| && Heap(K, P, n)
    requires 0 <= i < |Q| && Q[i] != -1
    ensures Loose(K[i := key], P, n, Q[i])
  {
    var K', k := K[i := key], Q[i];
    forall c | 1 <= c <= n && c != k
      ensures Key(K', P, c) == Key(K, P, c)
    {
      if 1 <= c {
        assert P[c] != i;
      }
    }
    if k > 1 {
      forall c | 2 <= c <= n && c / 2 == k
        ensures Key(K', P, k / 2) <= Key(K', P, c)
      {
        assert Key(K, P, k / 2) <= Key(K, P, k);
      }
    }
  }

  /** Appending an absent index at position n + 1 leaves only the pair of n + 1 and its parent out of order. */
  lemma InsertLoose(K: seq<int>, P: seq<int>, Q: seq<int>, n: int, i: int, key: int)
    requires Inverse(P, Q, n) && |K| == |Q| && Heap(K, P, n) && n + 1 < |P|
    requires 0 <= i < |Q| && Q[i] == -1
    ensures Inverse(P[n + 1 := i], Q[i := n + 1], n + 1)
    ensures Loose(K[i := key], P[n + 1 := i], n + 1, n + 1)
  {
    var K', P' := K[i := key], P[n + 1 := i];
    forall c | 1 <= c <= n
      ensures Key(K', P', c) == Key(K, P, c)
    {
      assert P[c] != i;
    }
  }

  /** Moving the last entry into position k and dropping the last slot leaves only the pairs at k out of order. */
  lemma RemoveLoose(K: seq<int>, P: seq<int>, n: int, k: int)
    requires 1 <= k <= n < |P| && Heap(K, P, n)
    ensures Loose(K, Swap(P, k, n), n - 1, k)
    ensures k == n && k > 1 ==> Key(K, Swap(P, k, n), k / 2) <= Key(K, Swap(P, k, n), k)
  {
    var P' := Swap(P, k, n);
    forall c | 0 <= c < n && c != k
      ensures Key(K, P', c) == Key(K, P, c)
    {
    }
    if k > 1 {
      forall c | 2 <= c <= n - 1 && c / 2 == k
        ensures Key(K, P', k / 2) <= Key(K, P', c)
      {
        HeapSinkInv(K, P, n, k);
      }
    }
  }

  /** Marking the index parked at position n + 1 absent leaves a consistent table for positions 1..n. */
  lemma Unpark(K: seq<int>, P: seq<int>, Q: seq<int>, n: int)
    requires Inverse(P, Q, n + 1) && 0 <= n && Heap(K, P, n) && 0 <= P[n + 1] < |Q|
    ensures Inverse(P, Q[P[n + 1] := -1], n) && Inverse(P[n + 1 := -1], Q[P[n + 1] := -1], n)
    ensures Heap(K, P[n + 1 := -1], n)
  {
    var P', Q' := P[n + 1 := -1], Q[P[n + 1] := -1];
    forall x | 0 <= x < |Q| && Q'[x] != -1
      ensures 1 <= Q'[x] <= n && P'[Q'[x]] == x
    {
      assert Q[x] != n + 1;
    }
    forall c | 0 <= c <= n
      ensures Key(K, P', c) == Key(K, P, c)
    {
    }
  }

  /** n distinct indices at positions 1..n make a set of n indices. */
  lemma {:induction false} QueuedSize(P: seq<int>, Q: seq<int>, n: int)
    requires Inverse(P, Q, n)
    ensures |Queued(P, n)| == n
    decreases n
  {
    if n > 0 {
      var Q' := Q[P[n] := -1];
      InverseShrink(P, Q, n);
      QueuedSize(P, Q', n - 1);
      QueuedLast(P, Q, n);
    } else {
      assert Queued(P, n) == {};
    }
  }

  /** Dropping the last heap position from the inverse table keeps the tables inverse. */
  lemma InverseShrink(P: seq<int>, Q: seq<int>, n: int)
    requires Inverse(P, Q, n) && n > 0
    ensures Inverse(P, Q[P[n] := -1], n - 1)
  {
  }

  /** The index at the last heap position is not at any earlier one. */
  lemma QueuedLast(P: seq<int>, Q: seq<int>, n: int)
    requires Inverse(P, Q, n) && n > 0
    ensures Queued(P, n) == Queued(P, n - 1) + {P[n]} && P[n] !in Queued(P, n - 1)
  {
    assert Queued(P, n) == Queued(P, n - 1) + {P[n]};
  }

  /** The queued indices are exactly those the inverse table does not mark -1. */
  lemma QueuedItems(K: seq<int>, P: seq<int>, Q: seq<int>, n: int)
    requires Inverse(P, Q, n) && |K| == |Q|
    ensures Items(K, Q).Keys == Queued(P, n)
  {
    forall x | x in Queued(P, n)
      ensures x in Items(K, Q)
    {
      var c :| 1 <= c <= n && P[c] == x;
    }
  }

  /** An absent index leaves room for one more in the heap array. */
  lemma Room(P: seq<int>, Q: seq<int>, n: int, i: int)
    requires Inverse(P, Q, n) && 0 <= i < |Q| && Q[i] == -1
    ensures n < |Q|
  {
    QueuedSize(P, Q, n);
    var s := Queued(P, n) + {i};
    forall x | x in s
      ensures 0 <= x < |Q|
    {
    }
    RangeSubsetCard(s, |Q|);
  }

  class IndexMinPQ {
    const maxN: nat
    var n: int
    /** Heap positions 1..n hold queued indices; position 0 is unused. */
    var pq: seq<int>
    /** The heap position of each index, -1 when the index is not queued. */
    var qp: seq<int>
    var keys: seq<int>

    ghost predicate Valid()
      reads this
    {
      && |pq| == maxN + 2 && |qp| == maxN + 1 && |keys| == maxN + 1
      && Inverse(pq, qp, n) && Heap(keys, pq, n)
    }

    /** The queued indices with their keys. */
    ghost function Contents(): map<int, int>
      reads this
      requires |qp| == |keys|
    {
      Items(keys, qp)
    }

    /**
     * An empty queue for the indices 0..maxN; `undefined` heap and key slots are modelled as 0.
     * The heap gets one slot more than the source allocates: with all maxN + 1 indices queued,
     * position maxN + 1 is written, which a JavaScript array grows to hold.
     */
    constructor(maxN: nat)
      ensures Valid() && this.maxN == maxN && n == 0 && Contents() == map[]
    {
      this.maxN := maxN;
      n := 0;
      keys := seq(maxN + 1, _ => 0);
      pq := seq(maxN + 2, _ => 0);
      var q := seq(maxN + 1, _ => 0);
      for i := 0 to maxN + 1
        invariant |q| == maxN + 1 && forall x :: 0 <= x < i ==> q[x] == -1
      {
        q := q[i := -1];
      }
      qp := q;
      new;
      assert Contents() == map[];
    }

    function IsEmpty(): (b: bool)
      reads this
      requires Valid()
      ensures b <==> Contents() == map[]
    {
      if n == 0 then
        assert Contents() == map[];
        true
      else
        assert pq[1] in Contents();
        false
    }

    /**
     * Whether i is queued. An index outside 0..maxN reads an `undefined` qp entry, which is
     * not -1, so it counts as contained.
     */
    function Contains(i: int): (b: bool)
      reads this
      requires Valid()
      ensures b <==> !(0 <= i <= maxN) || i in Contents()
    {
      if 0 <= i < |qp| then qp[i] != -1 else true
    }

    function Size(): (s: int)
      reads this
      requires Valid()
      ensures s == |Contents()|
    {
      QueuedSize(pq, qp, n);
      QueuedItems(keys, pq, qp, n);
      n
    }

    /** The smallest key; underflow on an empty queue. */
    function MinKey(): (r: Result<int, string>)
      reads this
      requires Valid()
      ensures r.Err? <==> Contents() == map[]
      ensures r.Err? ==> r.error == "Priority queue underflow"
      ensures r.Ok? ==>
        && (exists i :: i in Contents() && Contents()[i] == r.value)
        && (forall i :: i in Contents() ==> r.value <= Contents()[i])
    {
      if n == 0 then
        assert Contents() == map[];
        Err("Priority queue underflow")
      else
        MinIndex();
        Ok(keys[pq[1]])
    }

    /** The root of a non-empty heap has a smallest key. */
    lemma MinIndex()
      requires Valid() && n > 0
      ensures pq[1] in Contents()
      ensures forall i :: i in Contents() ==> Contents()[pq[1]] <= Contents()[i]
    {
      forall i | i in Contents()
        ensures Contents()[pq[1]] <= Contents()[i]
      {
        HeapRoot(keys, pq, n, qp[i]);
      }
    }

    /** The key of i; NoSuchElement when i is not queued. */
    function KeyOf(i: int): (r: Result<int, string>)
      reads this
      requires Valid() && 0 <= i <= maxN
      ensures r.Err? <==> i !in Contents()
      ensures r.Err? ==> r.error == "Index is not in the priority queue"
      ensures r.Ok? ==> r.value == Contents()[i]
    {
      if qp[i] == -1 then Err("Index is not in the priority queue") else Ok(keys[i])
    }

    /** Swaps heap positions a and b and records both new positions in qp. */
    method Exchange(a: int, b: int, ghost m: int)
      requires |qp| == |keys| && Inverse(pq, qp, m) && 1 <= a <= m && 1 <= b <= m
      modifies this
      ensures pq == Swap(old(pq), a, b) && qp == old(qp)[old(pq)[b] := a][old(pq)[a] := b]
      ensures keys == old(keys) && n == old(n) && |qp| == |keys| && |pq| == |old(pq)|
      ensures Inverse(pq, qp, m) && Contents() == old(Contents())
    {
      ExchangeInverse(pq, qp, m, a, b);
      SameItems(keys, qp, qp[pq[b] := a][pq[a] := b]);
      var swap := pq[a];
      pq := pq[a := pq[b]];
      pq := pq[b := swap];
      qp := qp[pq[a] := a];
      qp := qp[pq[b] := b];
    }

    /** Whether the key at heap position a exceeds the key at position b. */
    /** The child of k that sink compares with: the right one when it exists and has the smaller key. */
    function SmallerChild(k: int, ghost m: int): (j: int)
      reads this
      requires |qp| == |keys| && Inverse(pq, qp, m) && 1 <= k && 2 * k <= n <= m
      ensures (j == 2 * k || j == 2 * k + 1) && j <= n
      ensures forall c :: 2 <= c <= n && c / 2 == k ==> Key(keys, pq, j) <= Key(keys, pq, c)
    {
      var j := 2 * k;
      if j < n && Greater(j, j + 1, m) then
        MinChild(keys, pq, n, k, j + 1);
        j + 1
      else
        MinChild(keys, pq, n, k, j);
        j
    }

    function Greater(a: int, b: int, ghost m: int): (r: bool)
      reads this
      requires |qp| == |keys| && Inverse(pq, qp, m) && 1 <= a <= m && 1 <= b <= m
      ensures r <==> Key(keys, pq, a) > Key(keys, pq, b)
    {
      keys[pq[a]] > keys[pq[b]]
    }

    /**
     * Moves the entry at k0 up while its parent's key is greater. Starting from a heap whose
     * pairs at k0 alone may be out of order, it ends either in heap order or, when nothing
     * moved, with only the pairs below k0 out of order. Positions up to m hold indices; m is
     * n, or n + 1 while a removed entry is parked in the last slot.
     */
    method Swim(k0: int, ghost m: int)
      requires |qp| == |keys| && (m == n || m == n + 1)
      requires Inverse(pq, qp, m) && 1 <= k0 <= m
      requires Loose(keys, pq, n, k0)
      requires k0 > n && k0 > 1 ==> Key(keys, pq, k0 / 2) <= Key(keys, pq, k0)
      modifies this
      ensures keys == old(keys) && n == old(n) && |qp| == |keys| && |pq| == |old(pq)|
      ensures Inverse(pq, qp, m) && Contents() == old(Contents())
      ensures m == n + 1 ==> pq[m] == old(pq)[m]
      ensures Heap(keys, pq, n) || (pq == old(pq) && qp == old(qp) && SinkInv(keys, pq, n, k0))
    {
      var k := k0;
      ghost var moved := false;
      while k > 1 && Greater(k / 2, k, m)
        invariant keys == old(keys) && n == old(n) && |qp| == |keys| && |pq| == |old(pq)|
        invariant Inverse(pq, qp, m) && 1 <= k <= m && Contents() == old(Contents())
        invariant m == n + 1 ==> pq[m] == old(pq)[m]
        invariant !moved ==> k == k0 && pq == old(pq) && qp == old(qp)
        invariant !moved ==> Loose(keys, pq, n, k)
        invariant moved ==> k <= n && SwimInv(keys, pq, n, k)
      {
        if !moved {
          assert k <= n;
        }
        SwimStep(keys, pq, n, k);
        Exchange(k, k / 2, m);
        k := k / 2;
        moved := true;
      }
      if moved {
        SwimStop(keys, pq, n, k);
      }
    }

    /** Moves the entry at k0 down below its smaller child while that child's key is smaller. */
    method Sink(k0: int, ghost m: int)
      requires |qp| == |keys| && (m == n || m == n + 1)
      requires Inverse(pq, qp, m) && 1 <= k0 <= m
      requires SinkInv(keys, pq, n, k0)
      modifies this
      ensures keys == old(keys) && n == old(n) && |qp| == |keys| && |pq| == |old(pq)|
      ensures Inverse(pq, qp, m) && Contents() == old(Contents())
      ensures m == n + 1 ==> pq[m] == old(pq)[m]
      ensures Heap(keys, pq, n)
    {
      var k := k0;
      while 2 * k <= n
        invariant keys == old(keys) && n == old(n) && |qp| == |keys| && |pq| == |old(pq)|
        invariant Inverse(pq, qp, m) && 1 <= k <= m && Contents() == old(Contents())
        invariant m == n + 1 ==> pq[m] == old(pq)[m]
        invariant SinkInv(keys, pq, n, k)
        decreases n - k
      {
        var j := SmallerChild(k, m);
        if !Greater(k, j, m) {
          SinkStop(keys, pq, n, k, j);
          return;
        }
        SinkStep(keys, pq, n, k, j);
        Exchange(k, j, m);
        k := j;
      }
      SinkStop(keys, pq, n, k, k);
    }

    /** Queues i with the given key; an index already queued is refused. */
    method Insert(i: int, key: int) returns (r: Result<(), string>)
      requires Valid()
      modifies this
      ensures Valid()
      ensures r.Err? <==> old(Contains(i))
      ensures r.Err? ==> r.error == "Index is already in the priority queue" && unchanged(this)
      ensures r.Ok? ==> Contents() == old(Contents())[i := key] && n == old(n) + 1
    {
      if Contains(i) {
        return Err("Index is already in the priority queue");
      }
      Append(i, key);
      r := Ok(());
    }

    /** The insertion proper: i goes to the new last position with its key, then swims up. */
    method Append(i: int, key: int)
      requires Valid() && 0 <= i < |qp| && qp[i] == -1
      modifies this
      ensures Valid() && Contents() == old(Contents())[i := key] && n == old(n) + 1
    {
      Room(pq, qp, n, i);
      InsertLoose(keys, pq, qp, n, i, key);
      ItemsInsert(keys, qp, i, key, n + 1);
      n := n + 1;
      qp := qp[i := n];
      pq := pq[n := i];
      keys := keys[i := key];
      Swim(n, n);
    }

    /** Removes and returns an index with the smallest key; underflow on an empty queue. */
    method DelMin() returns (r: Result<int, string>)
      requires Valid()
      modifies this
      ensures Valid()
      ensures r.Err? <==> old(Contents()) == map[]
      ensures r.Err? ==> r.error == "Priority queue underflow" && unchanged(this)
      ensures r.Ok? ==> r.value in old(Contents()) && Contents() == old(Contents()) - {r.value}
      ensures r.Ok? ==> forall i :: i in old(Contents()) ==> old(Contents())[r.value] <= old(Contents())[i]
      ensures r.Ok? ==> n == old(n) - 1
    {
      if n == 0 {
        assert Contents() == map[];
        return Err("Priority queue underflow");
      }
      MinIndex();
      var min := pq[1];
      RemoveLoose(keys, pq, n, 1);
      Exchange(1, n, n);
      n := n - 1;
      Sink(1, n + 1);
      Unpark(keys, pq, qp, n);
      ItemsRemove(keys, qp, min);
      qp := qp[min := -1];
      pq := pq[n + 1 := -1];
      r := Ok(min);
    }

    /** Gives queued index i a new key; NoSuchElement when i is not queued. */
    method ChangeKey(i: int, key: int) returns (r: Result<(), string>)
      requires Valid() && 0 <= i <= maxN
      modifies this
      ensures Valid() && n == old(n)
      ensures r.Err? <==> i !in old(Contents())
      ensures r.Err? ==> r.error == "Index is not in the priority queue" && unchanged(this)
      ensures r.Ok? ==> Contents() == old(Contents())[i := key]
    {
      if !Contains(i) {
        return Err("Index is not in the priority queue");
      }
      ChangeLoose(keys, pq, qp, n, i, key);
      ItemsChange(keys, qp, i, key);
      keys := keys[i := key];
      Swim(qp[i], n);
      if Heap(keys, pq, n) {
        HeapSinkInv(keys, pq, n, qp[i]);
      }
      Sink(qp[i], n);
      r := Ok(());
    }

    /** swim(k) followed by sink(k), the repair delete makes at the position it emptied. */
    method SwimSink(k: int, ghost m: int)
      requires |qp| == |keys| && (m == n || m == n + 1)
      requires Inverse(pq, qp, m) && 1 <= k <= m
      requires Loose(keys, pq, n, k)
      requires k > n && k > 1 ==> Key(keys, pq, k / 2) <= Key(keys, pq, k)
      modifies this
      ensures keys == old(keys) && n == old(n) && |qp| == |keys| && |pq| == |old(pq)|
      ensures Inverse(pq, qp, m) && Contents() == old(Contents())
      ensures m == n + 1 ==> pq[m] == old(pq)[m]
      ensures Heap(keys, pq, n)
    {
      Swim(k, m);
      if Heap(keys, pq, n) {
        HeapSinkInv(keys, pq, n, k);
      }
      Sink(k, m);
    }

    /** Removes queued index i; NoSuchElement when i is not queued. */
    method Delete(i: int) returns (r: Result<(), string>)
      requires Valid() && 0 <= i <= maxN
      modifies this
      ensures Valid()
      ensures r.Err? <==> i !in old(Contents())
      ensures r.Err? ==> r.error == "Index is not in the priority queue" && unchanged(this)
      ensures r.Ok? ==> Contents() == old(Contents()) - {i} && n == old(n) - 1
    {
      if !Contains(i) {
        return Err("Index is not in the priority queue");
      }
      Remove(i);
      r := Ok(());
    }

    /** The deletion proper: i's position takes the last entry, which swims or sinks, and i is marked absent. */
    method Remove(i: int)
      requires Valid() && 0 <= i < |qp| && qp[i] != -1
      modifies this
      ensures Valid() && Contents() == old(Contents()) - {i} && n == old(n) - 1
    {
      var index := qp[i];
      assert pq[index] == i;
      RemoveLoose(keys, pq, n, index);
      Exchange(index, n, n);
      assert pq[n] == i;
      n := n - 1;
      SwimSink(index, n + 1);
      assert pq[n + 1] == i;
      Unpark(keys, pq, qp, n);
      ItemsRemove(keys, qp, i);
      qp := qp[i := -1];
    }
  }
}
