// CircularQueue (fundamental-data-structures/circural-queue): a FIFO queue in a
// ring buffer of fixed capacity. `head` is the slot of the oldest value, `tail`
// the slot the next value goes to. The container starts as an empty JavaScript
// array, whose unwritten slots read as undefined; it is modelled as `capacity`
// undefined slots.
module CircularQueues {
  import opened Common
  import opened Rings

  class CircularQueue<T> {
    var container: array<Option<T>>
    var capacity: nat
    var size: int
    var head: int
    var tail: int
    /** The values, oldest first. */
    ghost var Contents: seq<T>

    ghost predicate Valid()
      reads this, container
    {
      && container.Length == capacity
      && 0 <= size <= capacity && |Contents| == size
      && (capacity == 0 ==> head == 0 && tail == 0)
      && (capacity > 0 ==> 0 <= head < capacity && tail == Wrap(head + size, capacity))
      && Window(container[..], head, Contents)
    }

    constructor(capacity: nat)
      ensures Valid() && fresh(container)
      ensures this.capacity == capacity && Contents == []
    {
      this.capacity := capacity;
      size := 0;
      head := 0;
      tail := 0;
      container := new Option<T>[capacity](_ => None);
      Contents := [];
    }

    function IsFull(): (b: bool)
      reads this, container
      requires Valid()
      ensures b <==> |Contents| == capacity
    {
      size == capacity
    }

    function IsEmpty(): (b: bool)
      reads this, container
      requires Valid()
      ensures b <==> Contents == []
    {
      size == 0
    }

    function Size(): (n: int)
      reads this, container
      requires Valid()
      ensures n == |Contents|
    {
      size
    }

    /**
     * The value `index` places after the oldest, or null where the slot is undefined. Index
     * size() is let through and reads the slot at tail: undefined, a dequeued value, or, on a
     * full queue, the oldest value. An index outside 0..size() throws.
     */
    method Peek(index: int) returns (r: Result<Option<T>, string>)
      requires Valid()
      ensures !(0 <= index <= |Contents|) ==> r == Err("Index out of bounds")
      ensures 0 <= index < |Contents| ==> r == Ok(Some(Contents[index]))
      ensures index == |Contents| ==> r == Ok(if capacity == 0 then None else container[tail])
    {
      if index < 0 || index > Size() {
        return Err("Index out of bounds");
      }
      if capacity == 0 {
        // container[NaN] is undefined
        return Ok(None);
      }
      ModWrap(head + index, capacity);
      assert index < size ==> container[..][Wrap(head + index, capacity)] == Some(Contents[index]);
      r := Ok(container[(head + index) % capacity]);
    }

    /** Adds data as the newest value; a full queue throws and is unchanged. */
    method Enqueue(data: T) returns (r: Result<(), string>)
      requires Valid()
      modifies this, container
      ensures Valid() && container == old(container) && capacity == old(capacity)
      ensures old(|Contents|) == capacity ==> r == Err("Queue is full") && Contents == old(Contents)
      ensures old(|Contents|) < capacity ==> r == Ok(()) && Contents == old(Contents) + [data]
    {
      if IsFull() {
        return Err("Queue is full");
      }
      PushBack(container[..], head, Contents, data);
      container[tail] := Some(data);
      size := size + 1;
      ModWrap(tail + 1, capacity);
      tail := (tail + 1) % capacity;
      Contents := Contents + [data];
      return Ok(());
    }

    /** Removes and returns the oldest value, leaving its slot as it was; an empty queue throws. */
    method Dequeue() returns (r: Result<T, string>)
      requires Valid()
      modifies this
      ensures Valid() && container == old(container) && capacity == old(capacity)
      ensures old(Contents) == [] ==> r == Err("Queue is empty") && Contents == old(Contents)
      ensures old(Contents) != [] ==> r == Ok(old(Contents)[0]) && Contents == old(Contents)[1..]
    {
      if IsEmpty() {
        return Err("Queue is empty");
      }
      PopFront(container[..], head, Contents);
      var data := container[head];
      size := size - 1;
      ModWrap(head + 1, capacity);
      head := (head + 1) % capacity;
      Contents := Contents[1..];
      r := Ok(data.value);
    }

    /**
     * The iterator: peek(0), peek(1), ... for size() steps, stopping early at a null. Values are
     * never null here, so it yields the queue oldest first.
     */
    method Iterate() returns (ys: seq<T>)
      requires Valid()
      ensures ys == Contents
    {
      ys := [];
      var length := Size();
      var current := 0;
      while length != 0
        invariant 0 <= current <= size && length == size - current
        invariant ys == Contents[..current]
        decreases length
      {
        var data := Peek(current);
        if data.Err? || data.value.None? {
          assert false;
          break;
        }
        ys := ys + [data.value.value];
        length := length - 1;
        current := current + 1;
      }
      assert Contents[..current] == Contents;
    }
  }
}
