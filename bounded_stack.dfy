// ArrayStack (array-stack/index.ts): a LIFO stack on an array of fixed
// capacity; `n` is the index of the top item, -1 when the stack is empty.
// Pushing onto a full stack and popping an empty one throw.
module BoundedStack {
  import opened Common

  class ArrayStack<T(0)> {
    var arr: array<T>
    var capacity: int
    var n: int
    /** The stacked items, bottom first. */
    ghost var Contents: seq<T>

    ghost predicate Valid()
      reads this, arr
    {
      && arr.Length == (if capacity > 0 then capacity else 0)
      && -1 <= n < arr.Length
      && Contents == arr[..n + 1]
    }

    /** An empty stack of the given capacity; a capacity below 1 gives a stack that is always full. */
    constructor(capacity: int)
      ensures Valid() && fresh(arr)
      ensures this.capacity == capacity && Contents == []
    {
      this.capacity := capacity;
      arr := new T[if capacity > 0 then capacity else 0];
      n := -1;
      Contents := [];
    }

    function IsEmpty(): (b: bool)
      reads this, arr
      requires Valid()
      ensures b <==> Contents == []
    {
      n == -1
    }

    /** Puts item on top, or throws 'Stack is full' and changes nothing. */
    method Push(item: T) returns (r: Result<(), string>)
      requires Valid()
      modifies this, arr
      ensures Valid() && arr == old(arr) && capacity == old(capacity)
      ensures r.Err? <==> |old(Contents)| >= capacity
      ensures r.Err? ==> r.error == "Stack is full" && Contents == old(Contents)
      ensures r.Ok? ==> Contents == old(Contents) + [item]
    {
      if n >= capacity - 1 {
        return Err("Stack is full");
      }
      n := n + 1;
      arr[n] := item;
      Contents := Contents + [item];
      assert arr[..n + 1] == old(arr[..n + 1]) + [item];
      return Ok(());
    }

    /** Takes the top item off and returns it, or throws 'Stack is empty'. */
    method Pop() returns (r: Result<T, string>)
      requires Valid()
      modifies this
      ensures Valid() && arr == old(arr) && capacity == old(capacity)
      ensures r.Err? <==> old(Contents) == []
      ensures r.Err? ==> r.error == "Stack is empty" && Contents == old(Contents)
      ensures r.Ok? ==> r.value == old(Contents)[|old(Contents)| - 1] && Contents == old(Contents)[..|old(Contents)| - 1]
    {
      if IsEmpty() {
        return Err("Stack is empty");
      }
      r := Ok(arr[n]);
      n := n - 1;
      Contents := Contents[..|Contents| - 1];
    }
  }
}
