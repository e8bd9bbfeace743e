// PQMin as written (sorting/priority-queue/index.ts): swim climbs to `k / 2`
// without flooring it. For an odd k that is a fractional index such as 1.5,
// and pq[1.5] reads `undefined`. The comparator then decides what happens:
// the numeric one, (a, b) => a - b, gives NaN, NaN > 0 is false, and swim
// stops where it is; the Huffman one, (x, y) => x.compareTo(y), reads a field
// of `undefined` and throws. The queue is modelled on values (a number per
// slot, slot 0 unused) so that lemmas can run it on concrete inputs.
module PQMinAsWritten {
  import opened Common
  import MinPriorityQueue

  /** The two comparators the repository passes: a - b on numbers, x.compareTo(y) on nodes. */
  datatype Comparator = Difference | CompareTo

  /** The message of the TypeError that x.compareTo(y) throws when x is undefined. */
  const UndefinedCompareTo := "Cannot read properties of undefined (reading 'compareTo')"

  datatype Queue = Queue(pq: seq<int>, n: int)

  /** new PQMin(capacity, comparator) for a capacity of at least one slot; `undefined` slots are 0. */
  function Empty(capacity: int): (q: Queue)
    requires capacity >= 1
    ensures q.n == 0 && |q.pq| == capacity
  {
    Queue(seq(capacity, _ => 0), 0)
  }

  /**
   * The swim loop as written. An even k compares pq[k / 2] with pq[k]; an odd k > 1
   * compares the undefined pq[k / 2] with it, which stops the loop or throws.
   */
  function Swim(s: seq<int>, k: int, c: Comparator): (r: Result<seq<int>, string>)
    requires 1 <= k < |s|
    ensures r.Ok? ==> |r.value| == |s| && multiset(r.value) == multiset(s)
    ensures r.Err? ==> c == CompareTo && r.error == UndefinedCompareTo
    decreases k
  {
    if k <= 1 then Ok(s)
    else if k % 2 == 1 then
      if c == CompareTo then Err(UndefinedCompareTo) else Ok(s)
    else if s[k / 2] - s[k] > 0 then
      var t := MinPriorityQueue.Swap(s, k, k / 2);
      SwapMultiset(s, k, k / 2);
      Swim(t, k / 2, c)
    else Ok(s)
  }

  /** Exchanging two slots keeps the values. */
  lemma SwapMultiset(s: seq<int>, i: int, j: int)
    requires 0 <= i < |s| && 0 <= j < |s|
    ensures multiset(MinPriorityQueue.Swap(s, i, j)) == multiset(s)
  {
    var t := MinPriorityQueue.Swap(s, i, j);
    assert t == s[i := s[j]][j := s[i]];
  }

  /** insert as written, where a full array doubles; the undefined new slots are 0. */
  function Insert(q: Queue, x: int, c: Comparator): (r: Result<Queue, string>)
    requires 0 <= q.n < |q.pq|
    ensures r.Ok? ==> r.value.n == q.n + 1 && r.value.n < |r.value.pq|
    ensures r.Err? ==> c == CompareTo
  {
    var pq := if q.n == |q.pq| - 1 then q.pq + seq(|q.pq|, _ => 0) else q.pq;
    var n := q.n + 1;
    match Swim(pq[n := x], n, c)
    case Ok(t) => Ok(Queue(t, n))
    case Err(e) => Err(e)
  }

  /** min() as written: slot 1, or the underflow error. */
  function Min(q: Queue): (r: Result<int, string>)
    requires 0 <= q.n < |q.pq|
    ensures r.Err? <==> q.n == 0
    ensures r.Ok? ==> r.value == q.pq[1]
  {
    if q.n == 0 then Err("Priority queue underflow") else Ok(q.pq[1])
  }

  /** With the numeric comparator swim never throws: a fractional index only stops it. */
  lemma {:induction false} DifferenceNeverThrows(s: seq<int>, k: int)
    requires 1 <= k < |s|
    ensures Swim(s, k, Difference).Ok?
    decreases k
  {
    if k > 1 && k % 2 == 0 && s[k / 2] - s[k] > 0 {
      DifferenceNeverThrows(MinPriorityQueue.Swap(s, k, k / 2), k / 2);
    }
  }

  /** From an odd slot swim moves nothing, whatever the keys: the value stays below its parent. */
  lemma OddSlotStays(s: seq<int>, k: int)
    requires 1 < k < |s| && k % 2 == 1
    ensures Swim(s, k, Difference) == Ok(s)
  {
  }

  /** The numeric demo: insert 5, 10, 1 into new PQMin(10, (a, b) => a - b); min() is 5 though 1 is queued. */
  lemma MinMissesSmallest()
    ensures var q := Insert(Insert(Insert(Empty(10), 5, Difference).value, 10, Difference).value, 1, Difference);
      && q.Ok? && q.value.pq[1..4] == [5, 10, 1] && Min(q.value) == Ok(5)
  {
    var q1 := Insert(Empty(10), 5, Difference);
    assert q1 == Ok(Queue(Empty(10).pq[1 := 5], 1));
    var q2 := Insert(q1.value, 10, Difference);
    assert q2 == Ok(Queue(q1.value.pq[2 := 10], 2));
    var q3 := Insert(q2.value, 1, Difference);
    assert q3 == Ok(Queue(q2.value.pq[3 := 1], 3));
  }

  /**
   * With the Huffman comparator the third insert into an empty queue throws, whatever the
   * three keys: it swims from slot 3 and reads pq[1.5].
   */
  lemma ThirdInsertThrows(x: int, y: int, z: int, capacity: int)
    requires capacity >= 1
    ensures var q1 := Insert(Empty(capacity), x, CompareTo);
      && q1.Ok? && Insert(q1.value, y, CompareTo).Ok?
      && Insert(Insert(q1.value, y, CompareTo).value, z, CompareTo) == Err(UndefinedCompareTo)
  {
    var q1 := Insert(Empty(capacity), x, CompareTo);
    assert q1.Ok? && q1.value.n == 1;
    var s := q1.value.pq;
    var pq := if 1 == |s| - 1 then s + seq(|s|, _ => 0) else s;
    var u := pq[2 := y];
    if u[1] - u[2] > 0 {
      SwapMultiset(u, 2, 1);
      assert Swim(MinPriorityQueue.Swap(u, 2, 1), 1, CompareTo).Ok?;
    }
    var q2 := Insert(q1.value, y, CompareTo);
    assert q2.Ok? && q2.value.n == 2;
  }
}
