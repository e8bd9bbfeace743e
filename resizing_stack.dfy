// ArrayStack (fundamental-data-structures/array-stack): a LIFO stack on an
// array that doubles when full and halves when a quarter full; its iterator
// yields from the top down.
module ResizingStack {
  import opened Common

  class ArrayStack<T(0)> {
    var arr: array<T>
    var n: nat
    /** The stacked items, bottom first. */
    ghost var Contents: seq<T>
    ghost var Repr: set<object>

    ghost predicate Valid()
      reads this, Repr
    {
      Repr == {this, arr} && n <= arr.Length && Contents == arr[..n]
    }

    /** A stack over an array of `capacity` empty slots. */
    constructor(capacity: nat)
      ensures Valid() && fresh(Repr)
      ensures Contents == [] && arr.Length == capacity
    {
      arr := new T[capacity];
      n := 0;
      Contents := [];
      Repr := {this, arr};
    }

    /** The default capacity is 10. */
    constructor Default()
      ensures Valid() && fresh(Repr)
      ensures Contents == [] && arr.Length == 10
    {
      arr := new T[10];
      n := 0;
      Contents := [];
      Repr := {this, arr};
    }

    function Size(): (s: nat)
      reads this, Repr
      requires Valid()
      ensures s == |Contents|
    {
      n
    }

    function IsEmpty(): (b: bool)
      reads this, Repr
      requires Valid()
      ensures b <==> Contents == []
    {
      n == 0
    }

    /**
     * Copies the first `capacity` slots into a new array of that length; slots past the old
     * array read as the default value. The items arr[0..n) are preserved.
     */
    method Resize(capacity: nat)
      requires Valid() && n <= capacity
      modifies Repr
      ensures Valid() && fresh(Repr - old(Repr))
      ensures Contents == old(Contents) && n == old(n) && arr.Length == capacity
    {
      var temp := new T[capacity];
      for i := 0 to capacity
        modifies temp
        invariant forall k :: 0 <= k < i && k < arr.Length ==> temp[k] == arr[k]
      {
        if i < arr.Length {
          temp[i] := arr[i];
        }
      }
      assert temp[..n] == arr[..n];
      arr := temp;
      Repr := {this, arr};
    }

    /**
     * Doubles the array when it is full, then stores the item on top. An empty array is
     * resized to length 0 and then grown to length 1 by the store, as JavaScript arrays grow
     * on assignment past their end.
     */
    method Push(x: T)
      requires Valid()
      modifies Repr
      ensures Valid() && fresh(Repr - old(Repr))
      ensures Contents == old(Contents) + [x]
      ensures old(n) < old(arr.Length) ==> arr.Length == old(arr.Length)
      ensures old(n) == old(arr.Length) ==> arr.Length == if old(arr.Length) == 0 then 1 else 2 * old(arr.Length)
    {
      if n == arr.Length {
        Resize(if arr.Length == 0 then 1 else arr.Length * 2);
      }
      arr[n] := x;
      n := n + 1;
      Contents := Contents + [x];
    }

    /**
     * Removes and returns the top item, then halves the array when it is a quarter full.
     * `length / 2` is not floored: for an odd length the copy loop runs to the next integer
     * and the new array ends up with ceil(length / 2) slots.
     */
    method Pop() returns (x: T)
      requires Valid() && Contents != []
      modifies Repr
      ensures Valid() && fresh(Repr - old(Repr))
      ensures x == old(Contents)[|old(Contents)| - 1]
      ensures Contents == old(Contents)[..|old(Contents)| - 1]
      ensures n > 0 && n == old(arr.Length) / 4 ==> arr.Length == (old(arr.Length) + 1) / 2
      ensures !(n > 0 && n == old(arr.Length) / 4) ==> arr.Length == old(arr.Length)
    {
      n := n - 1;
      x := arr[n];
      // The vacated slot is also cleared in the source; slots at or above n are never read.
      Contents := Contents[..n];
      if n > 0 && n == arr.Length / 4 {
        Resize((arr.Length + 1) / 2);
      }
    }

    /** The iterator yields the items from the top of the stack down to the bottom. */
    method Iterate() returns (ys: seq<T>)
      requires Valid()
      ensures ys == Reverse(Contents)
    {
      ys := [];
      var k := n;
      while k > 0
        invariant 0 <= k <= n
        invariant |ys| == n - k
        invariant forall i :: 0 <= i < |ys| ==> ys[i] == Contents[n - 1 - i]
      {
        k := k - 1;
        ys := ys + [arr[k]];
      }
    }
  }
}
