// Queue (queue/index.ts): a FIFO queue on a singly linked chain of Node
// objects with head, tail and length fields. The ghost `Nodes` lists the chain
// from head to tail and `Items` the values it holds.
module NodeQueue {
  import opened Common

  class Node<T> {
    var next: Node?<T>
    var value: T

    constructor(value: T)
      ensures this.value == value && next == null
    {
      this.value := value;
      next := null;
    }
  }

  /** Each node of N points at the one after it, and the last at null. */
  ghost predicate Chained<T>(N: seq<Node<T>>)
    reads N
  {
    forall j {:trigger N[j].next} :: 0 <= j < |N| ==> N[j].next == if j + 1 < |N| then N[j + 1] else null
  }

  class Queue<T> {
    var head: Node?<T>
    var tail: Node?<T>
    var length: int
    /** The nodes from head to tail. */
    ghost var Nodes: seq<Node<T>>
    /** Their values, first to leave first. */
    ghost var Items: seq<T>

    ghost predicate Valid()
      reads this, Nodes
    {
      && length == |Nodes| == |Items|
      && (Nodes == [] ==> head == null && tail == null)
      && (Nodes != [] ==> head == Nodes[0] && tail == Nodes[|Nodes| - 1])
      && Chained(Nodes)
      && (forall i, j :: 0 <= i < j < |Nodes| ==> Nodes[i] != Nodes[j])
      && (forall i :: 0 <= i < |Nodes| ==> Nodes[i].value == Items[i])
    }

    constructor()
      ensures Valid() && Items == []
    {
      head := null;
      tail := null;
      length := 0;
      Nodes := [];
      Items := [];
    }

    /** `head === null`, which holds exactly when the queue holds nothing. */
    function IsEmpty(): (b: bool)
      reads this, Nodes
      requires Valid()
      ensures b <==> Items == []
    {
      head == null
    }

    function Size(): (n: int)
      reads this, Nodes
      requires Valid()
      ensures n == |Items|
    {
      length
    }

    /** A new node becomes the tail; the old tail, if any, links to it. */
    method Enqueue(value: T)
      requires Valid()
      modifies this, Nodes
      ensures Valid()
      ensures Items == old(Items) + [value]
      ensures Nodes[..|Nodes| - 1] == old(Nodes) && fresh(Nodes[|Nodes| - 1])
    {
      var oldTail := tail;
      tail := new Node(value);
      tail.next := null;
      if head == null {  // isEmpty()
        head := tail;
      } else {
        oldTail.next := tail;
      }
      length := length + 1;
      Nodes := Nodes + [tail];
      Items := Items + [value];
    }

    /**
     * Unlinks the head and returns its value, or `undefined` on an empty queue; when the queue
     * empties, tail is cleared too.
     */
    method Dequeue() returns (r: Option<T>)
      requires Valid()
      modifies this
      ensures Valid()
      ensures old(Items) == [] ==> r == None && Items == []
      ensures old(Items) != [] ==> r == Some(old(Items)[0]) && Items == old(Items)[1..]
      ensures old(Items) != [] ==> Nodes == old(Nodes)[1..]
    {
      if IsEmpty() {
        return None;
      }
      var value := head.value;
      head := head.next;
      length := length - 1;
      Nodes := Nodes[1..];
      Items := Items[1..];
      if head == null {  // isEmpty()
        tail := null;
      }
      return Some(value);
    }
  }

  /** Values leave in the order they arrived: enqueueing xs into an empty queue and
   *  dequeueing |xs| times yields xs. */
  method FirstInFirstOut<T>(xs: seq<T>) returns (ys: seq<T>)
    ensures ys == xs
  {
    var q := new Queue<T>();
    for i := 0 to |xs|
      invariant q.Valid() && q.Items == xs[..i] && fresh(q)
      invariant forall j :: 0 <= j < |q.Nodes| ==> fresh(q.Nodes[j])
    {
      q.Enqueue(xs[i]);
      assert xs[..i + 1] == xs[..i] + [xs[i]];
    }
    ys := [];
    for i := 0 to |xs|
      invariant q.Valid() && q.Items == xs[i..] && ys == xs[..i] && fresh(q)
      invariant forall j :: 0 <= j < |q.Nodes| ==> fresh(q.Nodes[j])
    {
      var r := q.Dequeue();
      ys := ys + [r.value];
    }
  }
}
