// Deque (fundamental-data-structures/deque): a double-ended queue in a ring
// buffer of fixed capacity. `head` is the slot of the front value, `tail` the
// slot after the back one, `size` the number of values held. Slots that were
// never written hold `undefined`.
module Deques {
  import opened Common
  import opened Rings

  class Deque<T> {
    var container: array<Option<T>>
    var head: int
    var tail: int
    var capacity: nat
    var size: int
    /** The values from front to back. */
    ghost var Contents: seq<T>

    ghost predicate Valid()
      reads this, container
    {
      && container.Length == capacity
      && 0 <= size <= capacity && |Contents| == size
      && (capacity == 0 ==> head == 0 && tail == 0)
      && (capacity > 0 ==> 0 <= head < capacity && tail == Wrap(head + size, capacity))
      && Window(container[..], head, Contents)
    }

    /** An empty deque over `capacity` undefined slots. */
    constructor(capacity: nat)
      ensures Valid() && fresh(container)
      ensures this.capacity == capacity && Contents == []
    {
      head := 0;
      tail := 0;
      size := 0;
      this.capacity := capacity;
      container := new Option<T>[capacity](_ => None);
      Contents := [];
    }

    function IsFull(): (b: bool)
      reads this, container
      requires Valid()
      ensures b <==> |Contents| == capacity
    {
      size == capacity
    }

    function IsEmpty(): (b: bool)
      reads this, container
      requires Valid()
      ensures b <==> Contents == []
    {
      size == 0
    }

    /** The front value; an empty deque throws. */
    method Front() returns (r: Result<T, string>)
      requires Valid()
      ensures Contents == [] ==> r == Err("Deque is empty")
      ensures Contents != [] ==> r == Ok(Contents[0])
    {
      if IsEmpty() {
        return Err("Deque is empty");
      }
      PopFront(container[..], head, Contents);
      r := Ok(container[head].value);
    }

    /** The back value, in the slot before tail; an empty deque throws. */
    method Back() returns (r: Result<T, string>)
      requires Valid()
      ensures Contents == [] ==> r == Err("Deque is empty")
      ensures Contents != [] ==> r == Ok(Contents[|Contents| - 1])
    {
      if IsEmpty() {
        return Err("Deque is empty");
      }
      ModWrap(tail - 1 + capacity, capacity);
      var k := (tail - 1 + capacity) % capacity;
      PopBack(container[..], head, Contents);
      assert k == Wrap(head + (size - 1), capacity);
      r := Ok(container[k].value);
    }

    /**
     * The value `index` places after the front, or null where the slot is undefined. Index size,
     * one past the back, is let through and reads the slot at tail: undefined, a value removed
     * earlier, or, on a full deque, the front. An index outside 0..size throws.
     */
    method Get(index: int) returns (r: Result<Option<T>, string>)
      requires Valid()
      ensures !(0 <= index <= |Contents|) ==> r == Err("Index out of bounds")
      ensures 0 <= index < |Contents| ==> r == Ok(Some(Contents[index]))
      ensures index == |Contents| ==> r == Ok(if capacity == 0 then None else container[tail])
    {
      if index < 0 || index > size {
        return Err("Index out of bounds");
      }
      if capacity == 0 {
        // container[NaN] is undefined
        return Ok(None);
      }
      ModWrap(head + index, capacity);
      assert index < size ==> container[..][Wrap(head + index, capacity)] == Some(Contents[index]);
      r := Ok(container[(head + index) % capacity]);
    }

    /** Puts data in front and returns the same deque; a full deque throws and is unchanged. */
    method InsertFront(data: T) returns (r: Result<Deque<T>, string>)
      requires Valid()
      modifies this, container
      ensures Valid() && container == old(container) && capacity == old(capacity)
      ensures old(|Contents|) == capacity ==> r == Err("Deque is full") && Contents == old(Contents)
      ensures old(|Contents|) < capacity ==> r == Ok(this) && Contents == [data] + old(Contents)
    {
      if IsFull() {
        return Err("Deque is full");
      }
      ModWrap(head - 1 + capacity, capacity);
      PushFront(container[..], head, Contents, data);
      head := (head - 1 + capacity) % capacity;
      container[head] := Some(data);
      size := size + 1;
      Contents := [data] + Contents;
      r := Ok(this);
    }

    /** Puts data at the back and returns the same deque; a full deque throws and is unchanged. */
    method InsertBack(data: T) returns (r: Result<Deque<T>, string>)
      requires Valid()
      modifies this, container
      ensures Valid() && container == old(container) && capacity == old(capacity)
      ensures old(|Contents|) == capacity ==> r == Err("Deque is full") && Contents == old(Contents)
      ensures old(|Contents|) < capacity ==> r == Ok(this) && Contents == old(Contents) + [data]
    {
      if IsFull() {
        return Err("Deque is full");
      }
      PushBack(container[..], head, Contents, data);
      container[tail] := Some(data);
      ModWrap(tail + 1, capacity);
      tail := (tail + 1) % capacity;
      size := size + 1;
      Contents := Contents + [data];
      r := Ok(this);
    }

    /** Takes the back value off and returns it; an empty deque throws and is unchanged. */
    method DeleteBack() returns (r: Result<T, string>)
      requires Valid()
      modifies this
      ensures Valid() && container == old(container) && capacity == old(capacity)
      ensures old(Contents) == [] ==> r == Err("Deque is empty") && Contents == old(Contents)
      ensures old(Contents) != [] ==> r == Ok(old(Contents)[|old(Contents)| - 1]) && Contents == old(Contents)[..|old(Contents)| - 1]
    {
      if IsEmpty() {
        return Err("Deque is empty");
      }
      ModWrap(tail - 1 + capacity, capacity);
      PopBack(container[..], head, Contents);
      tail := (tail - 1 + capacity) % capacity;
      assert tail == Wrap(head + (size - 1), capacity);
      var data := container[tail];
      size := size - 1;
      Contents := Contents[..size];
      r := Ok(data.value);
    }

    /** Takes the front value off and returns it; an empty deque throws and is unchanged. */
    method DeleteFront() returns (r: Result<T, string>)
      requires Valid()
      modifies this
      ensures Valid() && container == old(container) && capacity == old(capacity)
      ensures old(Contents) == [] ==> r == Err("Deque is empty") && Contents == old(Contents)
      ensures old(Contents) != [] ==> r == Ok(old(Contents)[0]) && Contents == old(Contents)[1..]
    {
      if IsEmpty() {
        return Err("Deque is empty");
      }
      PopFront(container[..], head, Contents);
      var data := container[head];
      ModWrap(head + 1, capacity);
      head := (head + 1) % capacity;
      size := size - 1;
      Contents := Contents[1..];
      r := Ok(data.value);
    }

    /**
     * The iterator: get(0), get(1), ... for `size` steps, stopping early at a null. Values are
     * never null here, so it yields the deque from front to back.
     */
    method Iterate() returns (ys: seq<T>)
      requires Valid()
      ensures ys == Contents
    {
      ys := [];
      var length := size;
      var current := 0;
      while length != 0
        invariant 0 <= current <= size && length == size - current
        invariant ys == Contents[..current]
        decreases length
      {
        var data := Get(current);
        if data.Err? || data.value.None? {
          assert false;
          break;
        }
        ys := ys + [data.value.value];
        length := length - 1;
        current := current + 1;
      }
      assert Contents[..current] == Contents;
    }
  }
}
