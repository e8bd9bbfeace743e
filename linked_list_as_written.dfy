// LinkedList as written (fundamental-data-structures/linked-list/index.ts),
// modelled on values so that lemmas can run it on concrete inputs. The nodes
// live in a heap sequence and a node is named by its position in it; -1 is
// null. Two slips show up here: shift leaves `tail` on the unlinked node when
// the list empties, and remove lets index == len() through to a null read.
module LinkedListAsWritten {
  import opened Common

  /** A node: its data and the position of the next node, -1 for null. */
  datatype Node<T> = Node(data: T, next: int)

  /** The fields head, tail and length over a heap of nodes. */
  datatype List<T> = List(heap: seq<Node<T>>, head: int, tail: int, length: int)

  /** The TypeError JavaScript throws for `null.next` on the left of an assignment. */
  const SetOfNull := "TypeError: Cannot set properties of null (setting 'next')"
  /** The TypeError JavaScript throws for `null.next` read as a value. */
  const ReadOfNull := "TypeError: Cannot read properties of null (reading 'next')"

  /** Whether position p names a node; any other position reads as null. */
  predicate IsNode<T>(heap: seq<Node<T>>, p: int)
  {
    0 <= p < |heap|
  }

  function Empty<T>(): (l: List<T>)
    ensures l.heap == [] && l.head == -1 && l.tail == -1 && l.length == 0
  {
    List([], -1, -1, 0)
  }

  /** isEmpty() looks only at head. */
  function IsEmpty<T>(l: List<T>): (b: bool)
    ensures b <==> l.head == -1
  {
    l.head == -1
  }

  /** len() reads the counter, whatever the links say. */
  function Len<T>(l: List<T>): (n: int)
    ensures n == l.length
  {
    l.length
  }

  /** push as written: a non-empty list whose tail is null throws on `this.tail.next = node`. */
  function Push<T>(l: List<T>, data: T): (r: Result<List<T>, string>)
    ensures r.Err? <==> !IsEmpty(l) && !IsNode(l.heap, l.tail)
    ensures r.Ok? ==> |r.value.heap| == |l.heap| + 1 && r.value.heap[|l.heap|] == Node(data, -1)
    ensures r.Ok? ==> r.value.tail == |l.heap| && r.value.length == l.length + 1
  {
    var k := |l.heap|;
    var heap := l.heap + [Node(data, -1)];
    if IsEmpty(l) then Ok(List(heap, k, k, l.length + 1))
    else if IsNode(l.heap, l.tail) then Ok(List(heap[l.tail := heap[l.tail].(next := k)], l.head, k, l.length + 1))
    else Err(SetOfNull)
  }

  /** shift as written: head moves on and the counter drops; tail is left as it was. */
  function Shift<T>(l: List<T>): (r: Result<(int, List<T>), string>)
    ensures IsEmpty(l) ==> r == Ok((-1, l))
    ensures !IsEmpty(l) && IsNode(l.heap, l.head) ==> r.Ok? && r.value.0 == l.head
    ensures r.Ok? && !IsEmpty(l) ==> r.value.1.tail == l.tail && r.value.1.length == l.length - 1
  {
    if IsEmpty(l) then Ok((-1, l))
    else if IsNode(l.heap, l.head) then
      Ok((l.head, l.(head := l.heap[l.head].next, length := l.length - 1)))
    else Err(ReadOfNull)
  }

  /** The for loop of reverse: `steps` times, turn `node` to point at `prev` and step on. */
  function Relink<T>(heap: seq<Node<T>>, node: int, prev: int, steps: int): (r: Result<seq<Node<T>>, string>)
    ensures r.Ok? ==> |r.value| == |heap|
    ensures steps > 0 && !IsNode(heap, node) ==> r == Err(ReadOfNull)
    decreases steps
  {
    if steps <= 0 then Ok(heap)
    else if !IsNode(heap, node) then Err(ReadOfNull)
    else Relink(heap[node := heap[node].(next := prev)], heap[node].next, node, steps - 1)
  }

  /** reverse as written: head and tail trade places, then `length` links are turned around. */
  function Reverse<T>(l: List<T>): (r: Result<List<T>, string>)
    ensures r.Ok? ==> r.value.head == l.tail && r.value.tail == l.head && r.value.length == l.length
    ensures l.length <= 0 ==> r == Ok(l.(head := l.tail, tail := l.head))
  {
    match Relink(l.heap, l.head, -1, l.length)
    case Ok(heap) => Ok(List(heap, l.tail, l.head, l.length))
    case Err(e) => Err(e)
  }

  /** The while loop of getByIndex: up to `index` steps along the links, stopping at null. */
  function Walk<T>(heap: seq<Node<T>>, current: int, index: int): (p: int)
    ensures index <= 0 || !IsNode(heap, current) ==> p == current
    decreases index
  {
    if !IsNode(heap, current) || index <= 0 then current
    else Walk(heap, heap[current].next, index - 1)
  }

  function GetByIndex<T>(l: List<T>, index: int): (p: int)
    ensures !(0 <= index < l.length) ==> p == -1
    ensures index == 0 < l.length ==> p == l.head
  {
    if index < 0 || index >= l.length then -1 else Walk(l.heap, l.head, index)
  }

  /**
   * The while loop of pop: from `current`, step while `current.next` is a node, keeping the one
   * before. JavaScript would loop forever on a cycle; `fuel` bounds the walk by the heap size
   * and its end reads as an error.
   */
  function WalkToEnd<T>(heap: seq<Node<T>>, previous: int, current: int, fuel: nat): (r: Result<(int, int), string>)
    requires IsNode(heap, current)
    ensures r.Ok? ==> IsNode(heap, r.value.1) && !IsNode(heap, heap[r.value.1].next)
    ensures r.Ok? && r.value.1 == current ==> r.value.0 == previous
    decreases fuel
  {
    var next := heap[current].next;
    if !IsNode(heap, next) then Ok((previous, current))
    else if fuel == 0 then Err("the walk does not end")
    else WalkToEnd(heap, current, next, fuel - 1)
  }

  /** pop as written. */
  function Pop<T>(l: List<T>): (r: Result<(int, List<T>), string>)
    ensures IsEmpty(l) ==> r == Ok((-1, l))
    ensures !IsEmpty(l) && l.head == l.tail ==> r == Ok((l.head, List(l.heap, -1, -1, 0)))
    ensures r.Ok? && !IsEmpty(l) && l.head != l.tail ==> r.value.1.length == l.length - 1
  {
    if IsEmpty(l) then Ok((-1, l))
    else if l.head == l.tail then Ok((l.head, List(l.heap, -1, -1, 0)))
    else if !IsNode(l.heap, l.head) then Err(ReadOfNull)
    else
      match WalkToEnd(l.heap, l.head, l.head, |l.heap|)
      case Err(e) => Err(e)
      case Ok((previous, current)) =>
        if !IsNode(l.heap, previous) then Err(SetOfNull)
        else Ok((current, List(l.heap[previous := l.heap[previous].(next := -1)], l.head, previous, l.length - 1)))
  }

  /**
   * remove as written: the guard `index > this.length` lets index == len() reach the general
   * case, where the node after position len() - 1 is null.
   */
  function Remove<T>(l: List<T>, index: int): (r: Result<(int, List<T>), string>)
    ensures index < 0 || index > l.length ==> r == Ok((-1, l))
    ensures index == 0 <= l.length ==> r == Shift(l)
    ensures 0 < index == l.length - 1 ==> r == Pop(l)
  {
    if index < 0 || index > l.length then Ok((-1, l))
    else if index == 0 then Shift(l)
    else if index == l.length - 1 then Pop(l)
    else
      var previous := GetByIndex(l, index - 1);
      if !IsNode(l.heap, previous) then Err(ReadOfNull)
      else
        var current := l.heap[previous].next;
        if !IsNode(l.heap, current) then Err(ReadOfNull)
        else
          var heap := l.heap[previous := l.heap[previous].(next := l.heap[current].next)];
          Ok((current, l.(heap := heap, length := l.length - 1)))
  }

  /** push(7) then remove(1): the one-node list throws instead of answering null. */
  lemma RemoveAtLengthThrows()
    ensures var a := Push(Empty<int>(), 7);
      a.Ok? && Len(a.value) == 1 && Remove(a.value, 1) == Err(ReadOfNull)
  {
    var a := List([Node(7, -1)], 0, 0, 1);
    assert Empty<int>().heap + [Node(7, -1)] == a.heap;
    assert Push(Empty<int>(), 7) == Ok(a);
    assert GetByIndex(a, 0) == 0;
  }

  /**
   * push(1), shift(), reverse(): the list has length 0 but is not empty, and the next push
   * throws, because shift left tail on the unlinked node and reverse made it the head.
   */
  lemma StaleTailAfterShift()
    ensures var a := Push(Empty<int>(), 1);
      a.Ok? &&
      var b := Shift(a.value);
      b.Ok? && IsEmpty(b.value.1) && b.value.1.tail != -1 &&
      var c := Reverse(b.value.1);
      c.Ok? && !IsEmpty(c.value) && Len(c.value) == 0 &&
      Push(c.value, 2) == Err(SetOfNull)
  {
    var a := List([Node(1, -1)], 0, 0, 1);
    assert Empty<int>().heap + [Node(1, -1)] == a.heap;
    assert Push(Empty<int>(), 1) == Ok(a);
    var b := List([Node(1, -1)], -1, 0, 0);
    assert Shift(a) == Ok((0, b));
    var c := List([Node(1, -1)], 0, -1, 0);
    assert Reverse(b) == Ok(c);
  }
}
