// Queue (fundamental-data-structures/queue): a FIFO queue on a singly linked
// chain with head, tail and length fields. The chain is represented by the
// sequence of values from head to tail.
module LinkedQueue {
  import opened Common

  class Queue<T> {
    /** The values from `head` to `tail`. */
    var items: seq<T>
    var length: nat

    ghost predicate Valid()
      reads this
    {
      length == |items|
    }

    constructor()
      ensures Valid() && items == []
    {
      items := [];
      length := 0;
    }

    /** `head === null`: holds exactly when the queue holds nothing, i.e. when size() is 0. */
    method IsEmpty() returns (b: bool)
      requires Valid()
      ensures b <==> items == []
      ensures b <==> length == 0
    {
      b := items == [];
    }

    /** The length counter, which equals the number of queued values. */
    function Size(): (n: nat)
      reads this
      requires Valid()
      ensures n == |items|
    {
      length
    }

    /** Links a node after the tail, counts it and returns the same queue. */
    method Enqueue(x: T) returns (q: Queue<T>)
      requires Valid()
      modifies this
      ensures Valid() && q == this
      ensures items == old(items) + [x]
      ensures length == old(length) + 1
    {
      items := items + [x];
      length := length + 1;
      q := this;
    }

    /** Unlinks and returns the head; on an empty queue returns `undefined` and changes nothing. */
    method Dequeue() returns (r: Option<T>)
      requires Valid()
      modifies this
      ensures Valid()
      ensures old(items) == [] ==> r == None && items == old(items)
      ensures old(items) != [] ==> r == Some(old(items)[0]) && items == old(items)[1..]
      ensures old(items) != [] ==> length == old(length) - 1
    {
      if items == [] {
        return None;
      }
      r := Some(items[0]);
      items := items[1..];
      length := length - 1;
    }

    /** The iterator walks the chain from head to tail without removing anything. */
    method Iterate() returns (ys: seq<T>)
      ensures ys == items
    {
      ys := [];
      var i := 0;
      while i < |items|
        invariant 0 <= i <= |items|
        invariant ys == items[..i]
      {
        ys := ys + [items[i]];
        i := i + 1;
      }
    }
  }
}
