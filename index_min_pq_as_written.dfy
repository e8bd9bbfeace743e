// IndexMinPQ as written (sorting/index-min-priority-queue/index.ts): the same
// heap operations, but `exchange` swaps the two heap slots and leaves `qp`
// alone, so qp[pq[k]] == k stops holding after the first swap. The queue is
// modelled on values, one function per operation, so that lemmas can run it
// on concrete inputs.
module IndexMinPQAsWritten {
  import opened Common
  import opened IndexMinPriorityQueue

  datatype Queue = Queue(n: int, pq: seq<int>, qp: seq<int>, keys: seq<int>)

  /** A new queue for the indices 0..maxN; `undefined` slots are 0. */
  function Empty(maxN: nat): (s: Queue)
    ensures s.n == 0 && |s.pq| == maxN + 2 && |s.qp| == maxN + 1 && |s.keys| == maxN + 1
    ensures forall i :: 0 <= i <= maxN ==> s.qp[i] == -1
  {
    Queue(0, seq(maxN + 2, _ => 0), seq(maxN + 1, _ => -1), seq(maxN + 1, _ => 0))
  }

  /** qp[i] != -1, with an index outside the table reading `undefined`, which is not -1. */
  function Contains(s: Queue, i: int): (b: bool)
    ensures b <==> !(0 <= i < |s.qp|) || s.qp[i] != -1
  {
    if 0 <= i < |s.qp| then s.qp[i] != -1 else true
  }

  /** The exchange as written: pq[a] and pq[b] trade places and qp is not touched. */
  function Exchange(s: Queue, a: int, b: int): (r: Queue)
    requires 0 <= a < |s.pq| && 0 <= b < |s.pq|
    ensures r.pq == Swap(s.pq, a, b) && r.qp == s.qp && r.keys == s.keys && r.n == s.n
  {
    s.(pq := Swap(s.pq, a, b))
  }

  function Greater(s: Queue, a: int, b: int): (r: bool)
    ensures r <==> Key(s.keys, s.pq, a) > Key(s.keys, s.pq, b)
  {
    Key(s.keys, s.pq, a) > Key(s.keys, s.pq, b)
  }

  /** The swim loop; only pq changes. */
  function Swim(s: Queue, k: int): (r: Queue)
    requires 1 <= k < |s.pq|
    ensures |r.pq| == |s.pq| && r.qp == s.qp && r.keys == s.keys && r.n == s.n
    decreases k
  {
    if k > 1 && Greater(s, k / 2, k) then Swim(Exchange(s, k, k / 2), k / 2) else s
  }

  /** The sink loop; only pq changes. */
  function Sink(s: Queue, k: int): (r: Queue)
    requires 1 <= k && 0 <= s.n < |s.pq|
    ensures |r.pq| == |s.pq| && r.qp == s.qp && r.keys == s.keys && r.n == s.n
    decreases s.n - k
  {
    if 2 * k <= s.n then
      var j := if 2 * k < s.n && Greater(s, 2 * k, 2 * k + 1) then 2 * k + 1 else 2 * k;
      if !Greater(s, k, j) then s else Sink(Exchange(s, k, j), j)
    else s
  }

  /** insert as written; the heap must have a free slot. */
  function Insert(s: Queue, i: int, key: int): (r: Result<Queue, string>)
    requires 0 <= s.n && s.n + 1 < |s.pq| && |s.keys| == |s.qp|
    ensures r.Err? <==> Contains(s, i)
    ensures r.Ok? ==> r.value.n == s.n + 1 && |r.value.pq| == |s.pq| && r.value.qp == s.qp[i := s.n + 1]
  {
    if Contains(s, i) then Err("Index is already in the priority queue")
    else
      var n := s.n + 1;
      Ok(Swim(Queue(n, s.pq[n := i], s.qp[i := n], s.keys[i := key]), n))
  }

  /**
   * `keys[i] = null`. Under the comparator `(a, b) => a - b` a null key reads as 0
   * (`null - 1` is -1), so the nulled key is 0 here.
   */
  function Nulled(keys: seq<int>, i: int): (r: seq<int>)
    ensures |r| == |keys|
    ensures 0 <= i < |keys| ==> r[i] == 0
    ensures forall q :: 0 <= q < |keys| && q != i ==> r[q] == keys[q]
  {
    if 0 <= i < |keys| then keys[i := 0] else keys
  }

  /** delMin as written: the removed index and the queue after it, its key nulled. */
  function DelMin(s: Queue): (r: Result<(int, Queue), string>)
    requires 0 <= s.n < |s.pq|
    ensures r.Err? <==> s.n == 0
    ensures r.Ok? ==> r.value.0 == s.pq[1] && r.value.1.n == s.n - 1
    ensures r.Ok? ==> r.value.1.keys == Nulled(s.keys, s.pq[1])
  {
    if s.n == 0 then Err("Priority queue underflow")
    else
      var min := s.pq[1];
      var t := Sink(Exchange(s, 1, s.n).(n := s.n - 1), 1);
      var qp := if 0 <= min < |t.qp| then t.qp[min := -1] else t.qp;
      Ok((min, t.(qp := qp, keys := Nulled(t.keys, min), pq := t.pq[t.n + 1 := -1])))
  }

  /** changeKey as written: swim and sink start from the possibly stale qp[i]. */
  function ChangeKey(s: Queue, i: int, key: int): (r: Result<Queue, string>)
    requires 0 <= s.n < |s.pq| && 0 <= i < |s.qp| == |s.keys|
    ensures r.Err? <==> !Contains(s, i)
    ensures r.Ok? ==> r.value.qp == s.qp && r.value.keys == s.keys[i := key] && r.value.n == s.n
  {
    if !Contains(s, i) then Err("Index is not in the priority queue")
    else
      var t := s.(keys := s.keys[i := key]);
      var k := s.qp[i];
      if 1 <= k < |s.pq| then Ok(Sink(Swim(t, k), k)) else Ok(t)
  }

  /**
   * delete as written: the slot qp[i] names is emptied, whichever index it now holds, and i's
   * key is nulled. With an empty heap n drops to -1 and sink has nothing to do. Insert never
   * stores a qp entry outside the pq array; for such an entry only n, qp and keys change.
   */
  function Delete(s: Queue, i: int): (r: Result<Queue, string>)
    requires 0 <= s.n < |s.pq| && 0 <= i < |s.qp|
    ensures r.Err? <==> !Contains(s, i)
    ensures r.Ok? ==> r.value.n == s.n - 1 && r.value.qp == s.qp[i := -1]
    ensures r.Ok? ==> r.value.keys == Nulled(s.keys, i)
  {
    if !Contains(s, i) then Err("Index is not in the priority queue")
    else
      var index := s.qp[i];
      if 1 <= index < |s.pq| then
        var t0 := Swim(Exchange(s, index, s.n).(n := s.n - 1), index);
        var t := if t0.n >= 0 then Sink(t0, index) else t0;
        Ok(t.(qp := t.qp[i := -1], keys := Nulled(t.keys, i)))
      else
        Ok(s.(n := s.n - 1, qp := s.qp[i := -1], keys := Nulled(s.keys, i)))
  }

  /** After any swap of two distinct heap positions the inverse relation no longer holds. */
  lemma ExchangeBreaksInverse(s: Queue, a: int, b: int)
    requires Inverse(s.pq, s.qp, s.n) && 1 <= a <= s.n && 1 <= b <= s.n && a != b
    ensures !Inverse(Exchange(s, a, b).pq, Exchange(s, a, b).qp, s.n)
  {
    var r := Exchange(s, a, b);
    assert r.qp[r.pq[a]] == s.qp[s.pq[b]] == b;
  }

  /**
   * insert(0, 3), insert(1, 2), delete(0): index 0 is reported absent, yet the next delMin
   * returns 0, and index 1, never deleted, is no longer in the heap.
   */
  lemma DeleteRemovesWrongIndex()
    ensures var s1 := Insert(Empty(2), 0, 3);
      s1.Ok? && s1.value.n + 1 < |s1.value.pq| &&
      var s2 := Insert(s1.value, 1, 2);
      s2.Ok? &&
      var s3 := Delete(s2.value, 0);
      s3.Ok? && !Contains(s3.value, 0) && Contains(s3.value, 1) &&
      s3.value == Queue(1, [0, 0, 1, 0], [-1, 2, -1], [0, 2, 0]) &&
      var d := DelMin(s3.value);
      d.Ok? && d.value.0 == 0 && d.value.1.n == 0
  {
    var e := Empty(2);
    assert e.pq == [0, 0, 0, 0] && e.qp == [-1, -1, -1] && e.keys == [0, 0, 0];
    var a := Queue(1, [0, 0, 0, 0], [1, -1, -1], [3, 0, 0]);
    assert Queue(1, e.pq[1 := 0], e.qp[0 := 1], e.keys[0 := 3]) == a;
    assert Insert(e, 0, 3) == Ok(Swim(a, 1)) == Ok(a);
    var b0 := Queue(2, [0, 0, 1, 0], [1, 2, -1], [3, 2, 0]);
    assert Queue(2, a.pq[2 := 1], a.qp[1 := 2], a.keys[1 := 2]) == b0;
    assert Swap(b0.pq, 2, 1) == [0, 1, 0, 0];
    var b := Queue(2, [0, 1, 0, 0], [1, 2, -1], [3, 2, 0]);
    assert Exchange(b0, 2, 1) == b;
    assert Swim(b0, 2) == Swim(b, 1) == b;
    assert Insert(a, 1, 2) == Ok(b);
    var c0 := Queue(1, [0, 0, 1, 0], [1, 2, -1], [3, 2, 0]);
    assert Swap(b.pq, 1, 2) == c0.pq;
    assert Exchange(b, 1, 2).(n := 1) == c0;
    assert Swim(c0, 1) == c0 && Sink(c0, 1) == c0;
    var c := Queue(1, [0, 0, 1, 0], [-1, 2, -1], [0, 2, 0]);
    assert c0.qp[0 := -1] == c.qp && Nulled(c0.keys, 0) == c.keys;
    assert Delete(b, 0) == Ok(c0.(qp := c0.qp[0 := -1], keys := Nulled(c0.keys, 0))) == Ok(c);
    assert Exchange(c, 1, 1).(n := 0) == c.(n := 0);
    assert Sink(c.(n := 0), 1) == c.(n := 0);
  }

  /**
   * insert(0, 3), insert(1, 1), insert(2, 2), changeKey(1, 4): the next delMin returns
   * index 0 with key 3, although index 2 holds the smaller key 2.
   */
  lemma ChangeKeyLosesMinimum()
    ensures var s1 := Insert(Empty(2), 0, 3);
      s1.Ok? && s1.value.n + 1 < |s1.value.pq| &&
      var s2 := Insert(s1.value, 1, 1);
      s2.Ok? && s2.value.n + 1 < |s2.value.pq| &&
      var s3 := Insert(s2.value, 2, 2);
      s3.Ok? &&
      var s4 := ChangeKey(s3.value, 1, 4);
      s4.Ok? && Contains(s4.value, 2) && s4.value.keys[2] == 2 &&
      var d := DelMin(s4.value);
      d.Ok? && d.value.0 == 0 && s4.value.keys[0] == 3
  {
    var e := Empty(2);
    assert e.pq == [0, 0, 0, 0] && e.qp == [-1, -1, -1] && e.keys == [0, 0, 0];
    var a := Queue(1, [0, 0, 0, 0], [1, -1, -1], [3, 0, 0]);
    assert Queue(1, e.pq[1 := 0], e.qp[0 := 1], e.keys[0 := 3]) == a;
    assert Insert(e, 0, 3) == Ok(Swim(a, 1)) == Ok(a);
    var b0 := Queue(2, [0, 0, 1, 0], [1, 2, -1], [3, 1, 0]);
    assert Queue(2, a.pq[2 := 1], a.qp[1 := 2], a.keys[1 := 1]) == b0;
    var b := Queue(2, [0, 1, 0, 0], [1, 2, -1], [3, 1, 0]);
    assert Swap(b0.pq, 2, 1) == b.pq;
    assert Exchange(b0, 2, 1) == b;
    assert Swim(b0, 2) == Swim(b, 1) == b;
    assert Insert(a, 1, 1) == Ok(b);
    var c := Queue(3, [0, 1, 0, 2], [1, 2, 3], [3, 1, 2]);
    assert Queue(3, b.pq[3 := 2], b.qp[2 := 3], b.keys[2 := 2]) == c;
    assert Swim(c, 3) == c;
    assert Insert(b, 2, 2) == Ok(c);
    // changeKey(1, 4) starts from the stale qp[1] == 2 although index 1 sits at position 1.
    var t := c.(keys := [3, 4, 2]);
    assert c.keys[1 := 4] == t.keys;
    var t1 := Queue(3, [0, 0, 1, 2], [1, 2, 3], [3, 4, 2]);
    assert Swap(t.pq, 2, 1) == t1.pq;
    assert Exchange(t, 2, 1) == t1;
    assert Swim(t, 2) == Swim(t1, 1) == t1;
    assert Sink(t1, 2) == t1;
    assert ChangeKey(c, 1, 4) == Ok(t1);
  }

  /**
   * insert(0, 3), insert(1, 2), delete(0), insert(2, 1): the deleted index 0 still sits at the
   * root with its nulled key, which is below 1, so insert's swim leaves it there and the next
   * delMin returns 0 rather than index 2, the one queued index with a key.
   */
  lemma NulledKeyStaysOnTop()
    ensures var s1 := Insert(Empty(2), 0, 3);
      s1.Ok? && s1.value.n + 1 < |s1.value.pq| &&
      var s2 := Insert(s1.value, 1, 2);
      s2.Ok? &&
      var s3 := Delete(s2.value, 0);
      s3.Ok? && s3.value.n + 1 < |s3.value.pq| && |s3.value.keys| == |s3.value.qp| &&
      var s4 := Insert(s3.value, 2, 1);
      s4.Ok? && !Contains(s4.value, 0) && Contains(s4.value, 2) &&
      var d := DelMin(s4.value);
      d.Ok? && d.value.0 == 0
  {
    DeleteRemovesWrongIndex();
    var c := Queue(1, [0, 0, 1, 0], [-1, 2, -1], [0, 2, 0]);
    var g := Queue(2, [0, 0, 2, 0], [-1, 2, 2], [0, 2, 1]);
    assert Queue(2, c.pq[2 := 2], c.qp[2 := 2], c.keys[2 := 1]) == g;
    assert !Greater(g, 1, 2);
    assert Insert(c, 2, 1) == Ok(g);
  }
}
