// PQMin (sorting/priority-queue): a binary min-heap kept in pq[1..n] of an
// array that doubles when full and halves when a quarter full. Slot 0 is
// unused; the parent of slot i is slot i / 2 and its children are 2i and 2i+1.
// The comparator is modelled as the difference of integer keys: greater(i, j)
// holds when key(pq[i]) > key(pq[j]). The parent index is floored here; the
// source's unfloored `k / 2` in swim is modelled in PQMinAsWritten.
module MinPriorityQueue {
  import opened Common

  /** s with the entries at i and j exchanged. */
  function Swap<T>(s: seq<T>, i: int, j: int): (t: seq<T>)
    requires 0 <= i < |s| && 0 <= j < |s|
    ensures |t| == |s|
  {
    s[i := s[j]][j := s[i]]
  }

  /** The values in slots 1..n. */
  function Held<T>(s: seq<T>, n: int): (h: seq<T>)
    requires 0 <= n && (n == 0 || n < |s|)
    ensures |h| == n && forall m :: 0 <= m < n ==> h[m] == s[m + 1]
  {
    if n == 0 then [] else s[1..n + 1]
  }

  /** Exchanging two held slots leaves the multiset of held values as it was. */
  lemma SwapHeld<T>(s: seq<T>, i: int, j: int, n: int)
    requires 1 <= i <= n && 1 <= j <= n && n < |s|
    ensures multiset(Held(Swap(s, i, j), n)) == multiset(Held(s, n))
  {
    assert Held(Swap(s, i, j), n) == Held(s, n)[i - 1 := s[j]][j - 1 := s[i]];
  }

  /** Slot c of s; heap-order facts are stated and instantiated on this term only. */
  ghost function At<T>(s: seq<T>, c: int): T
    requires 0 <= c < |s|
  {
    s[c]
  }

  /** No slot of 2..n holds a smaller key than its parent. */
  ghost predicate HeapOrdered<T>(s: seq<T>, key: T -> int, n: int)
    requires n == 0 || n < |s|
  {
    forall c {:trigger At(s, c)} :: 2 <= c <= n ==> key(s[c / 2]) <= key(At(s, c))
  }

  /**
   * Heap order while swim moves slot k up: every slot but k is ordered below its parent,
   * and k's parent is no larger than k's children.
   */
  ghost predicate Swimming<T>(s: seq<T>, key: T -> int, n: int, k: int)
  {
    && 1 <= k <= n < |s|
    && (forall c {:trigger At(s, c)} :: 2 <= c <= n && c != k ==> key(s[c / 2]) <= key(At(s, c)))
    && (1 < k && 2 * k <= n ==> key(s[k / 2]) <= key(s[2 * k]))
    && (1 < k && 2 * k + 1 <= n ==> key(s[k / 2]) <= key(s[2 * k + 1]))
  }

  /**
   * Heap order while sink moves slot k down: every slot whose parent is not k is ordered
   * below its parent, and k's parent is no larger than k's children.
   */
  ghost predicate Sinking<T>(s: seq<T>, key: T -> int, n: int, k: int)
  {
    && 1 <= k && 0 <= n < |s|
    && (forall c {:trigger At(s, c)} :: 2 <= c <= n && c / 2 != k ==> key(s[c / 2]) <= key(At(s, c)))
    && (1 < k && 2 * k <= n ==> key(s[k / 2]) <= key(s[2 * k]))
    && (1 < k && 2 * k + 1 <= n ==> key(s[k / 2]) <= key(s[2 * k + 1]))
  }

  /** Heap order depends only on the held slots. */
  lemma HeapOrderedHeld<T>(s: seq<T>, t: seq<T>, key: T -> int, n: int)
    requires 0 <= n && (n == 0 || (n < |s| && n < |t|)) && Held(s, n) == Held(t, n)
    requires HeapOrdered(s, key, n)
    ensures HeapOrdered(t, key, n)
  {
    forall c | 2 <= c <= n
      ensures key(t[c / 2]) <= key(At(t, c))
    {
      assert Held(s, n)[c - 1] == Held(t, n)[c - 1] && Held(s, n)[c / 2 - 1] == Held(t, n)[c / 2 - 1];
      assert key(s[c / 2]) <= key(At(s, c));
    }
  }

  /** A value put in the slot after a heap is held too, and starts a swim at that slot. */
  lemma SwimFromLast<T>(s: seq<T>, key: T -> int, n: int, x: T)
    requires 0 <= n && n + 1 < |s| && HeapOrdered(s, key, n)
    ensures Swimming(s[n + 1 := x], key, n + 1, n + 1)
    ensures multiset(Held(s[n + 1 := x], n + 1)) == multiset(Held(s, n)) + multiset{x}
  {
    var t := s[n + 1 := x];
    assert Held(t, n + 1) == Held(s, n) + [x];
    forall c | 2 <= c <= n + 1 && c != n + 1
      ensures key(t[c / 2]) <= key(At(t, c))
    {
      assert key(s[c / 2]) <= key(At(s, c));
    }
  }

  /** Exchanging slot k with a larger parent moves the swim up to the parent. */
  lemma SwimStep<T>(s: seq<T>, key: T -> int, n: int, k: int)
    requires Swimming(s, key, n, k) && k > 1 && key(s[k / 2]) > key(s[k])
    ensures Swimming(Swap(s, k, k / 2), key, n, k / 2)
  {
    var q := k / 2;
    var t := Swap(s, k, q);
    forall c | 2 <= c <= n && c != q
      ensures key(t[c / 2]) <= key(At(t, c))
    {
      if c == k {
      } else if c / 2 == k {
        assert c == 2 * k || c == 2 * k + 1;
      } else if c / 2 == q {
        assert key(s[q]) <= key(At(s, c));
      } else {
        assert key(s[c / 2]) <= key(At(s, c));
      }
    }
    if 1 < q {
      assert key(s[q / 2]) <= key(At(s, q));
      assert (2 * q) / 2 == q && (2 * q + 1) / 2 == q;
      if 2 * q <= n && 2 * q != k {
        assert key(s[q]) <= key(At(s, 2 * q));
      }
      if 2 * q + 1 <= n && 2 * q + 1 != k {
        assert key(s[q]) <= key(At(s, 2 * q + 1));
      }
    }
  }

  /** A swim that reaches the root, or a parent no larger than k, leaves a heap. */
  lemma SwimDone<T>(s: seq<T>, key: T -> int, n: int, k: int)
    requires Swimming(s, key, n, k) && (k == 1 || key(s[k / 2]) <= key(s[k]))
    ensures HeapOrdered(s, key, n)
  {
    forall c | 2 <= c <= n
      ensures key(s[c / 2]) <= key(At(s, c))
    {
    }
  }

  /** Exchanging slot k with its smaller child j, when j is smaller than k, moves the sink down to j. */
  lemma SinkStep<T>(s: seq<T>, key: T -> int, n: int, k: int, j: int)
    requires Sinking(s, key, n, k) && 2 * k <= n
    requires j == 2 * k || (j == 2 * k + 1 && j <= n)
    requires j == 2 * k + 1 || 2 * k + 1 > n || key(s[2 * k]) <= key(s[2 * k + 1])
    requires j == 2 * k || key(s[2 * k + 1]) < key(s[2 * k])
    requires key(s[k]) > key(s[j])
    ensures Sinking(Swap(s, k, j), key, n, j)
  {
    var t := Swap(s, k, j);
    forall c | 2 <= c <= n && c / 2 != j
      ensures key(t[c / 2]) <= key(At(t, c))
    {
      if c == j {
      } else if c / 2 == k {
        assert c == 2 * k || c == 2 * k + 1;
      } else if c == k {
        assert key(s[c / 2]) <= key(At(s, k));
      } else {
        assert key(s[c / 2]) <= key(At(s, c));
      }
    }
    assert j / 2 == k && t[j] == s[k] && t[k] == s[j];
    assert (2 * j) / 2 == j && (2 * j + 1) / 2 == j;
    if 2 * j <= n {
      assert t[2 * j] == s[2 * j] && key(s[j]) <= key(At(s, 2 * j));
    }
    if 2 * j + 1 <= n {
      assert t[2 * j + 1] == s[2 * j + 1] && key(s[j]) <= key(At(s, 2 * j + 1));
    }
  }

  /** A sink that runs out of children, or finds none smaller than k, leaves a heap. */
  lemma SinkDone<T>(s: seq<T>, key: T -> int, n: int, k: int)
    requires Sinking(s, key, n, k)
    requires 2 * k > n || (key(s[k]) <= key(s[2 * k]) && (2 * k + 1 > n || key(s[k]) <= key(s[2 * k + 1])))
    ensures HeapOrdered(s, key, n)
  {
    forall c | 2 <= c <= n
      ensures key(s[c / 2]) <= key(At(s, c))
    {
      if c / 2 == k {
        assert c == 2 * k || c == 2 * k + 1;
      }
    }
  }

  /**
   * Moving the last value of a heap to the root and dropping the last slot leaves all values
   * but the root's held, and starts a sink at the root.
   */
  lemma SinkFromRoot<T>(s: seq<T>, key: T -> int, n: int)
    requires 1 <= n < |s| && HeapOrdered(s, key, n)
    ensures Sinking(Swap(s, 1, n), key, n - 1, 1)
    ensures multiset(Held(Swap(s, 1, n), n - 1)) == multiset(Held(s, n)) - multiset{s[1]}
  {
    var t := Swap(s, 1, n);
    SwapHeld(s, 1, n, n);
    assert Held(t, n) == Held(t, n - 1) + [s[1]];
    forall c | 2 <= c <= n - 1 && c / 2 != 1
      ensures key(t[c / 2]) <= key(At(t, c))
    {
      assert key(s[c / 2]) <= key(At(s, c));
    }
  }

  /** Every key in a heap is at least the root's: by induction along the parent chain. */
  lemma {:induction false} RootBelow<T>(s: seq<T>, key: T -> int, n: int, i: int)
    requires n < |s| && HeapOrdered(s, key, n) && 1 <= i <= n
    ensures key(s[1]) <= key(s[i])
    decreases i
  {
    if i > 1 {
      RootBelow(s, key, n, i / 2);
      assert key(s[i / 2]) <= key(At(s, i));
    }
  }

  /** The root of a nonempty heap holds a minimum of the values held. */
  lemma HeapMin<T>(s: seq<T>, key: T -> int, n: int)
    requires 1 <= n < |s| && HeapOrdered(s, key, n)
    ensures forall y :: y in multiset(Held(s, n)) ==> key(s[1]) <= key(y)
  {
    forall y | y in multiset(Held(s, n))
      ensures key(s[1]) <= key(y)
    {
      var m :| 0 <= m < n && Held(s, n)[m] == y;
      RootBelow(s, key, n, m + 1);
    }
  }

  class PQMin<T(0)> {
    var pq: array<T>
    var n: int
    const key: T -> int
    /** The values queued. */
    ghost var Contents: multiset<T>

    ghost predicate Valid()
      reads this, pq
    {
      && 0 <= n && (n == 0 || n < pq.Length)
      && Contents == multiset(Held(pq[..], n))
      && HeapOrdered(pq[..], key, n)
    }

    /** An empty queue over `capacity` slots; a negative capacity gives none. */
    constructor(capacity: int, key: T -> int)
      ensures Valid() && fresh(pq) && Contents == multiset{} && this.key == key
      ensures pq.Length == if capacity > 0 then capacity else 0
    {
      pq := new T[if capacity > 0 then capacity else 0];
      n := 0;
      this.key := key;
      Contents := multiset{};
    }

    function IsEmpty(): (b: bool)
      reads this, pq
      requires Valid()
      ensures b <==> Contents == multiset{}
    {
      n == 0
    }

    function Size(): (s: int)
      reads this, pq
      requires Valid()
      ensures s == |Contents|
    {
      n
    }

    /** The root: a value with the least key; an empty queue throws. */
    function Min(): (r: Result<T, string>)
      reads this, pq
      requires Valid()
      ensures Contents == multiset{} ==> r == Err("Priority queue underflow")
      ensures Contents != multiset{} ==> r.Ok? && r.value in Contents
      ensures r.Ok? ==> forall y :: y in Contents ==> key(r.value) <= key(y)
    {
      if n == 0 then Err("Priority queue underflow")
      else
        HeapMin(pq[..], key, n);
        Ok(pq[1])
    }

    /**
     * Adds x. A queue that fills its array first moves to one twice as long; an array of
     * length 0 is lengthened to 2 by the write to pq[1].
     */
    method Insert(x: T)
      requires Valid()
      modifies this, pq
      ensures Valid() && Contents == old(Contents) + multiset{x}
      ensures pq == old(pq) || fresh(pq)
      ensures pq.Length == if old(n) == old(pq.Length) - 1 then 2 * old(pq.Length)
                           else if old(pq.Length) == 0 then 2 else old(pq.Length)
    {
      if n == pq.Length - 1 {
        Resize(2 * pq.Length);
      }
      if n + 1 >= pq.Length {
        Resize(n + 2);
      }
      Place(x);
    }

    /** The rest of insert: pq[++n] = x and swim(n). */
    method Place(x: T)
      requires Valid() && n + 1 < pq.Length
      modifies this, pq
      ensures Valid() && pq == old(pq) && Contents == old(Contents) + multiset{x}
    {
      ghost var s := pq[..];
      SwimFromLast(s, key, n, x);
      n := n + 1;
      pq[n] := x;
      assert pq[..] == s[n := x];
      Swim(n);
      Contents := Contents + multiset{x};
    }

    /**
     * Removes and returns a value with the least key; an empty queue throws. A queue left a
     * quarter full, n == (pq.length - 1) / 4, moves to an array half as long.
     */
    method DelMin() returns (r: Result<T, string>)
      requires Valid()
      modifies this, pq
      ensures Valid() && (pq == old(pq) || fresh(pq))
      ensures old(Contents) == multiset{} ==> r == Err("Priority queue underflow") && Contents == old(Contents)
      ensures old(Contents) != multiset{} ==> r.Ok? && r.value in old(Contents) && Contents == old(Contents) - multiset{r.value}
      ensures r.Ok? ==> forall y :: y in old(Contents) ==> key(r.value) <= key(y)
      ensures r.Ok? ==> pq.Length == if n > 0 && 4 * n == old(pq.Length) - 1 then old(pq.Length) / 2 else old(pq.Length)
    {
      if IsEmpty() {
        return Err("Priority queue underflow");
      }
      var min := pq[1];
      HeapMin(pq[..], key, n);
      RemoveRoot();
      if n > 0 && 4 * n == pq.Length - 1 {
        Resize(pq.Length / 2);
      }
      return Ok(min);
    }

    /** The middle of delMin: exchange(1, n--) and sink(1). */
    method RemoveRoot()
      requires Valid() && n > 0
      modifies this, pq
      ensures Valid() && pq == old(pq) && n == old(n) - 1
      ensures Contents == old(Contents) - multiset{old(pq[1])}
    {
      ghost var s := pq[..];
      SinkFromRoot(s, key, n);
      Exchange(1, n);
      n := n - 1;
      Sink(1);
      Contents := Contents - multiset{s[1]};
    }

    /** Moves the queue to a new array of `capacity` slots, keeping slots 1..n. */
    method Resize(capacity: int)
      requires Valid() && n < capacity
      modifies this
      ensures Valid() && fresh(pq) && pq.Length == capacity
      ensures n == old(n) && Contents == old(Contents)
      ensures Held(pq[..], n) == Held(old(pq[..]), n)
    {
      var copy := new T[capacity];
      for i := 0 to n
        modifies copy
        invariant forall m :: 1 <= m <= i ==> copy[m] == pq[m]
      {
        copy[i + 1] := pq[i + 1];
      }
      assert Held(copy[..], n) == Held(pq[..], n);
      HeapOrderedHeld(pq[..], copy[..], key, n);
      pq := copy;
    }

    method Exchange(i: int, j: int)
      requires 0 <= i < pq.Length && 0 <= j < pq.Length
      modifies pq
      ensures pq[..] == Swap(old(pq[..]), i, j)
    {
      var swap := pq[i];
      pq[i] := pq[j];
      pq[j] := swap;
    }

    function Greater(i: int, j: int): (b: bool)
      reads this, pq
      requires 0 <= i < pq.Length && 0 <= j < pq.Length
    {
      key(pq[i]) - key(pq[j]) > 0
    }

    /** Moves the value at slot k up past every larger parent, restoring heap order. */
    method Swim(k0: int)
      requires Swimming(pq[..], key, n, k0)
      modifies pq
      ensures HeapOrdered(pq[..], key, n)
      ensures multiset(Held(pq[..], n)) == old(multiset(Held(pq[..], n)))
    {
      var k := k0;
      while k > 1 && Greater(k / 2, k)
        invariant Swimming(pq[..], key, n, k)
        invariant multiset(Held(pq[..], n)) == old(multiset(Held(pq[..], n)))
        decreases k
      {
        SwimExchange(k);
        k := k / 2;
      }
      SwimDone(pq[..], key, n, k);
    }

    /** One step of swim: slot k and its larger parent change places. */
    method SwimExchange(k: int)
      requires Swimming(pq[..], key, n, k) && k > 1 && key(pq[k / 2]) > key(pq[k])
      modifies pq
      ensures Swimming(pq[..], key, n, k / 2)
      ensures multiset(Held(pq[..], n)) == old(multiset(Held(pq[..], n)))
    {
      ghost var s := pq[..];
      SwimStep(s, key, n, k);
      SwapHeld(s, k, k / 2, n);
      Exchange(k, k / 2);
    }

    /** Moves the value at slot k down past every smaller child, restoring heap order. */
    method Sink(k0: int)
      requires Sinking(pq[..], key, n, k0)
      modifies pq
      ensures HeapOrdered(pq[..], key, n)
      ensures multiset(Held(pq[..], n)) == old(multiset(Held(pq[..], n)))
    {
      var k := k0;
      while 2 * k <= n
        invariant Sinking(pq[..], key, n, k)
        invariant multiset(Held(pq[..], n)) == old(multiset(Held(pq[..], n)))
        decreases n - k
      {
        var j := 2 * k;
        if j < n && Greater(j, j + 1) {
          j := j + 1;
        }
        if !Greater(k, j) {
          SinkDone(pq[..], key, n, k);
          break;
        }
        SinkExchange(k, j);
        k := j;
      }
      if 2 * k > n {
        SinkDone(pq[..], key, n, k);
      }
    }

    /** One step of sink: slot k and its smaller, smaller-keyed child j change places. */
    method SinkExchange(k: int, j: int)
      requires Sinking(pq[..], key, n, k) && 2 * k <= n
      requires j == 2 * k || (j == 2 * k + 1 && j <= n)
      requires j == 2 * k + 1 || 2 * k + 1 > n || key(pq[2 * k]) <= key(pq[2 * k + 1])
      requires j == 2 * k || key(pq[2 * k + 1]) < key(pq[2 * k])
      requires key(pq[k]) > key(pq[j])
      modifies pq
      ensures Sinking(pq[..], key, n, j)
      ensures multiset(Held(pq[..], n)) == old(multiset(Held(pq[..], n)))
    {
      ghost var s := pq[..];
      SinkStep(s, key, n, k, j);
      SwapHeld(s, k, j, n);
      Exchange(k, j);
    }
  }

  /** Keys do not decrease along ys. */
  ghost predicate SortedBy<T>(ys: seq<T>, key: T -> int)
  {
    forall i, j :: 0 <= i < j < |ys| ==> key(ys[i]) <= key(ys[j])
  }

  /** Every value in C has a key no smaller than the last of ys. */
  ghost predicate LastBelow<T>(ys: seq<T>, C: multiset<T>, key: T -> int)
  {
    ys != [] ==> forall y :: y in C ==> key(ys[|ys| - 1]) <= key(y)
  }

  /**
   * Taking a key-minimal value v out of C and appending it to ys keeps ys sorted and
   * keeps what is left of C no smaller than ys's new last value.
   */
  lemma DrainSnoc<T>(ys: seq<T>, v: T, C: multiset<T>, key: T -> int)
    requires SortedBy(ys, key) && LastBelow(ys, C, key)
    requires v in C && forall y :: y in C ==> key(v) <= key(y)
    ensures SortedBy(ys + [v], key) && LastBelow(ys + [v], C - multiset{v}, key)
  {
    var zs := ys + [v];
    forall i, j | 0 <= i < j < |zs|
      ensures key(zs[i]) <= key(zs[j])
    {
      if j < |ys| {
        assert zs[i] == ys[i] && zs[j] == ys[j];
      } else if i < |ys| - 1 {
        assert key(ys[i]) <= key(ys[|ys| - 1]);
      }
    }
  }

  /** Moving v from C to the end of ys keeps their multiset total. */
  lemma MoveToEnd<T>(ys: seq<T>, v: T, C: multiset<T>)
    requires v in C
    ensures multiset(ys + [v]) + (C - multiset{v}) == multiset(ys) + C
  {
  }

  /**
   * The demo's use: insert every value into an empty queue, then delMin until it is empty.
   * The values come out as a permutation of the input, in non-decreasing key order.
   */
  method DrainInOrder<T(0)>(xs: seq<T>, key: T -> int) returns (ys: seq<T>)
    ensures multiset(ys) == multiset(xs)
    ensures forall i, j :: 0 <= i < j < |ys| ==> key(ys[i]) <= key(ys[j])
  {
    var q := InsertAll(xs, key);
    ys := DelMinAll(q);
  }

  /** A new queue holding every value of xs. */
  method InsertAll<T(0)>(xs: seq<T>, key: T -> int) returns (q: PQMin<T>)
    ensures fresh(q) && fresh(q.pq) && q.Valid() && q.key == key && q.Contents == multiset(xs)
  {
    q := new PQMin<T>(10, key);
    for i := 0 to |xs|
      invariant q.Valid() && fresh(q) && fresh(q.pq) && q.key == key
      invariant q.Contents == multiset(xs[..i])
    {
      assert xs[..i + 1] == xs[..i] + [xs[i]];
      assert multiset(xs[..i + 1]) == multiset(xs[..i]) + multiset{xs[i]};
      q.Insert(xs[i]);
    }
    assert xs[..|xs|] == xs;
  }

  /** delMin until the queue is empty: every value queued, in non-decreasing key order. */
  method DelMinAll<T(0)>(q: PQMin<T>) returns (ys: seq<T>)
    requires q.Valid()
    modifies q, q.pq
    ensures multiset(ys) == old(q.Contents)
    ensures SortedBy(ys, q.key)
  {
    ys := [];
    while !q.IsEmpty()
      invariant q.Valid() && (q.pq == old(q.pq) || fresh(q.pq))
      invariant multiset(ys) + q.Contents == old(q.Contents)
      invariant SortedBy(ys, q.key) && LastBelow(ys, q.Contents, q.key)
      decreases |q.Contents|
    {
      ghost var C := q.Contents;
      var r := q.DelMin();
      DrainSnoc(ys, r.value, C, q.key);
      MoveToEnd(ys, r.value, C);
      ys := ys + [r.value];
    }
  }
}
