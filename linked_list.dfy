// LinkedList (fundamental-data-structures/linked-list): a singly linked list of
// Node objects with head, tail and length fields. The ghost `Nodes` lists the
// chain from head to tail and `Items` the data the chain holds. Two operations
// follow their evident intent rather than the code: shift clears `tail` when it
// unlinks the last node, and remove returns null for index == length instead of
// throwing (both are modelled as written in linked_list_as_written.dfy).
module LinkedLists {
  import opened Common

  class Node<T> {
    var data: T
    var next: Node?<T>

    constructor(data: T)
      ensures this.data == data && next == null
    {
      this.data := data;
      next := null;
    }
  }

  /** The items with x placed at position i, the later ones shifted up by one. */
  function Inserted<T>(s: seq<T>, i: int, x: T): (r: seq<T>)
    requires 0 <= i <= |s|
    ensures |r| == |s| + 1 && r[i] == x
    ensures forall j :: 0 <= j < i ==> r[j] == s[j]
    ensures forall j :: i < j < |r| ==> r[j] == s[j - 1]
  {
    s[..i] + [x] + s[i..]
  }

  /** The items without the one at position i, the later ones shifted down by one. */
  function Removed<T>(s: seq<T>, i: int): (r: seq<T>)
    requires 0 <= i < |s|
    ensures |r| == |s| - 1
    ensures forall j :: 0 <= j < i ==> r[j] == s[j]
    ensures forall j :: i <= j < |r| ==> r[j] == s[j + 1]
  {
    s[..i] + s[i + 1..]
  }

  /** remove(i) undoes insert(i, x) and hands back x. */
  lemma RemoveInserted<T>(s: seq<T>, i: int, x: T)
    requires 0 <= i <= |s|
    ensures Inserted(s, i, x)[i] == x && Removed(Inserted(s, i, x), i) == s
  {
    assert forall j :: 0 <= j < |s| ==> Removed(Inserted(s, i, x), i)[j] == s[j];
  }

  /** insert(i, s[i]) undoes remove(i). */
  lemma InsertRemoved<T>(s: seq<T>, i: int)
    requires 0 <= i < |s|
    ensures Inserted(Removed(s, i), i, s[i]) == s
  {
    assert forall j :: 0 <= j < |s| ==> Inserted(Removed(s, i), i, s[i])[j] == s[j];
  }

  /** The nodes of N, read back to front. */
  ghost function Backwards<T>(N: seq<Node<T>>): (r: seq<Node<T>>)
    ensures |r| == |N| && forall k :: 0 <= k < |N| ==> r[k] == N[|N| - 1 - k]
  {
    seq(|N|, k requires 0 <= k < |N| => N[|N| - 1 - k])
  }

  /** Each node of N points at the one after it, and the last at null. */
  ghost predicate LinkedForward<T>(N: seq<Node<T>>)
    reads N
  {
    forall j {:trigger N[j].next} :: 0 <= j < |N| ==> N[j].next == if j + 1 < |N| then N[j + 1] else null
  }

  /** Each node of N points at the one before it, and the first at null. */
  ghost predicate LinkedBackward<T>(N: seq<Node<T>>)
    reads N
  {
    forall j {:trigger N[j].next} :: 0 <= j < |N| ==> N[j].next == if j > 0 then N[j - 1] else null
  }

  ghost predicate Distinct<T>(N: seq<Node<T>>)
  {
    forall i, j :: 0 <= i < j < |N| ==> N[i] != N[j]
  }

  lemma BackwardsLinked<T>(N: seq<Node<T>>)
    requires LinkedBackward(N) && Distinct(N)
    ensures LinkedForward(Backwards(N)) && Distinct(Backwards(N))
  {
    var B := Backwards(N);
    forall k | 0 <= k < |B|
      ensures B[k].next == if k + 1 < |B| then B[k + 1] else null
    {
      assert B[k] == N[|N| - 1 - k];
    }
    forall i, j | 0 <= i < j < |B|
      ensures B[i] != B[j]
    {
      assert B[i] == N[|N| - 1 - i] && B[j] == N[|N| - 1 - j];
    }
  }

  lemma InsertedDistinct<T>(N: seq<Node<T>>, i: int, x: Node<T>)
    requires Distinct(N) && x !in N && 0 <= i <= |N|
    ensures Distinct(Inserted(N, i, x))
  {
    var M := Inserted(N, i, x);
    forall a, b | 0 <= a < b < |M|
      ensures M[a] != M[b]
    {
      if a < i && b > i {
        assert M[b] == N[b - 1];
      } else if a > i {
        assert M[a] == N[a - 1] && M[b] == N[b - 1];
      }
    }
  }

  lemma RemovedDistinct<T>(N: seq<Node<T>>, i: int)
    requires Distinct(N) && 0 <= i < |N|
    ensures Distinct(Removed(N, i)) && N[i] !in Removed(N, i)
  {
    var M := Removed(N, i);
    forall a, b | 0 <= a < b < |M|
      ensures M[a] != M[b]
    {
      if a < i && b >= i {
        assert M[b] == N[b + 1];
      } else if a >= i {
        assert M[a] == N[a + 1] && M[b] == N[b + 1];
      }
    }
    forall a | 0 <= a < |M|
      ensures M[a] != N[i]
    {
      if a >= i {
        assert M[a] == N[a + 1];
      }
    }
  }

  class LinkedList<T> {
    var head: Node?<T>
    var tail: Node?<T>
    var length: int
    /** The nodes from head to tail. */
    ghost var Nodes: seq<Node<T>>
    /** Their data, in the same order. */
    ghost var Items: seq<T>

    ghost predicate Valid()
      reads this, Nodes
    {
      && length == |Nodes| == |Items|
      && (Nodes == [] ==> head == null && tail == null)
      && (Nodes != [] ==> head == Nodes[0] && tail == Nodes[|Nodes| - 1])
      && LinkedForward(Nodes)
      && Distinct(Nodes)
      && (forall i :: 0 <= i < |Nodes| ==> Nodes[i].data == Items[i])
    }

    constructor()
      ensures Valid() && Items == [] && Nodes == []
    {
      head := null;
      tail := null;
      length := 0;
      Nodes := [];
      Items := [];
    }

    /** `head === null`, which holds exactly when the list holds nothing. */
    function IsEmpty(): (b: bool)
      reads this, Nodes
      requires Valid()
      ensures b <==> Items == []
    {
      head == null
    }

    function Len(): (n: int)
      reads this, Nodes
      requires Valid()
      ensures n == |Items|
    {
      length
    }

    /** Links a new node after the tail and returns the same list. */
    method Push(data: T) returns (l: LinkedList<T>)
      requires Valid()
      modifies this, Nodes
      ensures Valid() && l == this
      ensures Items == old(Items) + [data]
      ensures Nodes[..|Nodes| - 1] == old(Nodes) && fresh(Nodes[|Nodes| - 1])
    {
      var node := new Node(data);
      if IsEmpty() {
        head := node;
        tail := node;
      } else {
        tail.next := node;
        tail := node;
      }
      length := length + 1;
      Nodes := Nodes + [node];
      Items := Items + [data];
      l := this;
    }

    /** The last two nodes of a chain of at least two, found by walking from the head. */
    method WalkToEnd() returns (previous: Node<T>, current: Node<T>)
      requires Valid() && |Nodes| >= 2
      ensures previous == Nodes[|Nodes| - 2] && current == Nodes[|Nodes| - 1]
    {
      current := head;
      previous := current;
      ghost var k := 0;
      while current.next != null
        invariant 0 <= k < |Nodes| && current == Nodes[k]
        invariant current.next == if k + 1 < |Nodes| then Nodes[k + 1] else null
        invariant previous == Nodes[if k == 0 then 0 else k - 1]
        decreases |Nodes| - k
      {
        previous := current;
        current := current.next;
        k := k + 1;
      }
    }

    /**
     * Unlinks the last node and returns it, or returns null on an empty list. A list of one node
     * is emptied directly; otherwise the node before the tail becomes the tail.
     */
    method Pop() returns (r: Node?<T>)
      requires Valid()
      modifies this, Nodes
      ensures Valid()
      ensures old(Items) == [] ==> r == null && Items == [] && Nodes == []
      ensures old(Items) != [] ==> r != null && r == old(Nodes)[|old(Nodes)| - 1] && r !in Nodes
      ensures old(Items) != [] ==> r.data == old(Items)[|old(Items)| - 1] && Items == old(Items)[..|old(Items)| - 1]
      ensures old(Items) != [] ==> Nodes == old(Nodes)[..|old(Nodes)| - 1]
    {
      if IsEmpty() {
        return null;
      }
      if head == tail {
        r := head;
        head := null;
        tail := null;
        length := 0;
        Nodes := [];
        Items := [];
        return;
      }
      var previous, current := WalkToEnd();
      tail := previous;
      tail.next := null;
      length := length - 1;
      Nodes := Nodes[..|Nodes| - 1];
      Items := Items[..|Items| - 1];
      r := current;
    }

    /** Links a new node before the head and returns the same list. */
    method Unshift(data: T) returns (l: LinkedList<T>)
      requires Valid()
      modifies this, Nodes
      ensures Valid() && l == this
      ensures Items == [data] + old(Items)
      ensures Nodes[1..] == old(Nodes) && fresh(Nodes[0])
    {
      var node := new Node(data);
      if IsEmpty() {
        head := node;
        tail := node;
      } else {
        node.next := head;
        head := node;
      }
      length := length + 1;
      Nodes := [node] + Nodes;
      Items := [data] + Items;
      l := this;
    }

    /**
     * Unlinks the head and returns it, or returns null on an empty list. Unlinking the only node
     * also clears `tail`.
     */
    method Shift() returns (r: Node?<T>)
      requires Valid()
      modifies this
      ensures Valid()
      ensures old(Items) == [] ==> r == null && Items == [] && Nodes == []
      ensures old(Items) != [] ==> r != null && r == old(Nodes)[0] && r !in Nodes && r.data == old(Items)[0]
      ensures old(Items) != [] ==> Items == old(Items)[1..] && Nodes == old(Nodes)[1..]
    {
      if IsEmpty() {
        return null;
      }
      r := head;
      head := r.next;
      length := length - 1;
      if head == null {
        tail := null;
      }
      Nodes := Nodes[1..];
      Items := Items[1..];
    }

    /** The node at position index, walking from the head; null outside 0..len()-1. */
    method GetByIndex(index: int) returns (r: Node?<T>)
      requires Valid()
      ensures 0 <= index < |Nodes| ==> r == Nodes[index]
      ensures !(0 <= index < |Nodes|) ==> r == null
    {
      if index < 0 || index >= length {
        return null;
      }
      var current := head;
      var i := index;
      while current != null && i > 0
        invariant 0 <= i <= index && current == Nodes[index - i]
        decreases i
      {
        current := current.next;
        i := i - 1;
      }
      r := current;
    }

    /** The data at position index, or null outside 0..len()-1. */
    method Get(index: int) returns (r: Option<T>)
      requires Valid()
      ensures 0 <= index < |Items| ==> r == Some(Items[index])
      ensures !(0 <= index < |Items|) ==> r == None
    {
      var current := GetByIndex(index);
      r := if current != null then Some(current.data) else None;
    }

    /** Overwrites the data at position index, when there is one, and returns the same list. */
    method Set(index: int, value: T) returns (l: LinkedList<T>)
      requires Valid()
      modifies this, Nodes
      ensures Valid() && l == this && Nodes == old(Nodes)
      ensures 0 <= index < |Items| ==> Items == old(Items)[index := value]
      ensures !(0 <= index < |Items|) ==> Items == old(Items)
    {
      var current := GetByIndex(index);
      if current != null {
        current.data := value;
        Items := Items[index := value];
      }
      l := this;
    }

    /**
     * Places data at position index, 0..len(), and answers true; any other index changes nothing
     * and answers false. Position 0 goes through unshift and position len() through push.
     */
    method Insert(index: int, data: T) returns (b: bool)
      requires Valid()
      modifies this, Nodes
      ensures Valid()
      ensures b <==> 0 <= index <= |old(Items)|
      ensures b ==> Items == Inserted(old(Items), index, data)
      ensures !b ==> Items == old(Items) && Nodes == old(Nodes)
    {
      if index < 0 || index > length {
        return false;
      }
      if index == 0 {
        var _ := Unshift(data);
        return true;
      } else if index == length {
        var _ := Push(data);
        return true;
      }
      LinkBefore(index, data);
      return true;
    }

    /** The general case of insert: a new node linked between positions index - 1 and index. */
    method LinkBefore(index: int, data: T)
      requires Valid() && 0 < index < |Nodes|
      modifies this, Nodes
      ensures Valid()
      ensures Items == Inserted(old(Items), index, data)
    {
      var node := new Node(data);
      var previous := GetByIndex(index - 1);
      ghost var N := Nodes;
      InsertedDistinct(N, index, node);
      node.next := previous.next;
      previous.next := node;
      length := length + 1;
      Nodes := Inserted(N, index, node);
      Items := Inserted(Items, index, data);
      forall i | 0 <= i < |Nodes|
        ensures Nodes[i].next == if i + 1 < |Nodes| then Nodes[i + 1] else null
      {
        if i < index - 1 {
          assert Nodes[i] == N[i] != previous && Nodes[i + 1] == N[i + 1];
        } else if index < i {
          assert Nodes[i] == N[i - 1] != previous;
          assert i + 1 < |Nodes| ==> Nodes[i + 1] == N[i];
        }
      }
    }

    /**
     * Unlinks the node at position index and returns it; outside 0..len()-1 it returns null and
     * changes nothing. Position 0 goes through shift and position len()-1 through pop.
     */
    method Remove(index: int) returns (r: Node?<T>)
      requires Valid()
      modifies this, Nodes
      ensures Valid()
      ensures r != null <==> 0 <= index < |old(Items)|
      ensures r != null ==> r == old(Nodes)[index] && r.data == old(Items)[index] && r !in Nodes
      ensures r != null ==> Items == Removed(old(Items), index)
      ensures r == null ==> Items == old(Items) && Nodes == old(Nodes)
    {
      if index < 0 || index >= length {
        return null;
      }
      if index == 0 {
        r := Shift();
        return;
      } else if index == length - 1 {
        r := Pop();
        return;
      }
      r := Unlink(index);
    }

    /** The general case of remove: the node at position index is unlinked from its neighbours. */
    method Unlink(index: int) returns (r: Node<T>)
      requires Valid() && 0 < index < |Nodes| - 1
      modifies this, Nodes
      ensures Valid()
      ensures r == old(Nodes)[index] && r.data == old(Items)[index] && r !in Nodes
      ensures Items == Removed(old(Items), index)
    {
      var previous := GetByIndex(index - 1);
      var current := previous.next;
      ghost var N := Nodes;
      assert current == N[index] && current.next == N[index + 1];
      RemovedDistinct(N, index);
      previous.next := current.next;
      length := length - 1;
      Nodes := Removed(N, index);
      Items := Removed(Items, index);
      forall i | 0 <= i < |Nodes|
        ensures Nodes[i].next == if i + 1 < |Nodes| then Nodes[i + 1] else null
      {
        if i < index - 1 {
          assert Nodes[i] == N[i] != previous && Nodes[i + 1] == N[i + 1];
        } else if index <= i {
          assert Nodes[i] == N[i + 1] != previous;
          assert i + 1 < |Nodes| ==> Nodes[i + 1] == N[i + 2];
        }
      }
      r := current;
    }

    /** The first data, from the head, that `compare` accepts; null when it accepts none. */
    method Find(compare: T -> bool) returns (r: Option<T>)
      requires Valid()
      ensures r.None? <==> forall i :: 0 <= i < |Items| ==> !compare(Items[i])
      ensures r.Some? ==> exists i :: 0 <= i < |Items| && Items[i] == r.value && compare(r.value) &&
                                     forall j :: 0 <= j < i ==> !compare(Items[j])
    {
      var p := head;
      ghost var k := 0;
      while p != null
        invariant 0 <= k <= |Nodes|
        invariant p == if k < |Nodes| then Nodes[k] else null
        invariant forall j :: 0 <= j < k ==> !compare(Items[j])
        decreases |Nodes| - k
      {
        if compare(p.data) {
          return Some(p.data);
        }
        p := p.next;
        k := k + 1;
      }
      return None;
    }

    /**
     * Turns each of the n nodes of N around so that it points at the one before it, starting
     * from `node`, the first of them.
     */
    static method Relink(node: Node?<T>, n: int, ghost N: seq<Node<T>>)
      requires n == |N| && node == (if n > 0 then N[0] else null)
      requires LinkedForward(N) && Distinct(N)
      modifies N
      ensures LinkedBackward(N)
      ensures forall j :: 0 <= j < n ==> N[j].data == old(N[j].data)
    {
      var current := node;
      var prev: Node?<T> := null;
      for i := 0 to n
        invariant current == if i < n then N[i] else null
        invariant prev == if i > 0 then N[i - 1] else null
        invariant forall j {:trigger N[j].next} :: 0 <= j < i ==> N[j].next == if j > 0 then N[j - 1] else null
        invariant forall j {:trigger N[j].next} :: i <= j < n ==> N[j].next == if j + 1 < n then N[j + 1] else null
        invariant forall j :: 0 <= j < n ==> N[j].data == old(N[j].data)
      {
        var next := current.next;
        assert next == if i + 1 < n then N[i + 1] else null;
        assert forall j :: 0 <= j < i ==> N[j] != N[i];
        current.next := prev;
        prev := current;
        current := next;
      }
    }

    /** Swaps head and tail and turns every link around; returns the same list. */
    method Reverse() returns (l: LinkedList<T>)
      requires Valid()
      modifies this, Nodes
      ensures Valid() && l == this
      ensures Items == Common.Reverse(old(Items)) && Nodes == Backwards(old(Nodes))
    {
      var node := head;
      head := tail;
      tail := node;
      ghost var N := Nodes;
      Relink(node, length, N);
      BackwardsLinked(N);
      Nodes := Backwards(N);
      ghost var I := Items;
      Items := Common.Reverse(I);
      forall i | 0 <= i < |Nodes|
        ensures Nodes[i].data == Items[i]
      {
        assert Nodes[i] == N[|N| - 1 - i] && Items[i] == I[|I| - 1 - i];
      }
      l := this;
    }

    /** The iterator yields the data from head to tail. */
    method Iterate() returns (ys: seq<T>)
      requires Valid()
      ensures ys == Items
    {
      ys := [];
      var current := head;
      ghost var k := 0;
      while current != null
        invariant 0 <= k <= |Nodes|
        invariant current == if k < |Nodes| then Nodes[k] else null
        invariant ys == Items[..k]
        decreases |Nodes| - k
      {
        ys := ys + [current.data];
        current := current.next;
        k := k + 1;
      }
      assert Items[..k] == Items;
    }
  }
}
