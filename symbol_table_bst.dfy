// BinarySearchTree (searching/binary-search-tree): a symbol table on a binary
// search tree whose nodes carry the size of their subtree. Keys are integers
// ordered by the comparator (a, b) => a - b of the file's own demo; values are
// of any type. A tree is a datatype value: a recursive helper that rewrites
// `left`, `right` and `size` on its way back up is a function that rebuilds the
// path, and the class reassigns `root` as the source's public methods do.
// What a table holds is read through TreeGet, the model of `_get`.
module SymbolTableBST {
  import opened Common

  datatype Tree<V> = Leaf | Node(left: Tree<V>, key: int, value: V, size: int, right: Tree<V>)

  /** _size: the size field of a node, 0 for null. */
  function SizeOf<V>(t: Tree<V>): int
  {
    if t.Leaf? then 0 else t.size
  }

  /** The keys held in t. */
  ghost function Keys<V>(t: Tree<V>): set<int>
  {
    match t
    case Leaf => {}
    case Node(l, k, _, _, r) => Keys(l) + {k} + Keys(r)
  }

  /** Search-tree order: each key is above every key on its left and below every key on its right. */
  ghost predicate Ordered<V>(t: Tree<V>)
  {
    match t
    case Leaf => true
    case Node(l, k, _, _, r) =>
      && Ordered(l) && Ordered(r)
      && (forall x :: x in Keys(l) ==> x < k)
      && (forall x :: x in Keys(r) ==> k < x)
  }

  /** Every size field is one more than the sizes of the two children. */
  ghost predicate SizeOk<V>(t: Tree<V>)
  {
    match t
    case Leaf => true
    case Node(l, _, _, s, r) => SizeOk(l) && SizeOk(r) && s == 1 + SizeOf(l) + SizeOf(r)
  }

  /** The invariant every tree the class builds keeps. */
  ghost predicate SearchTree<V>(t: Tree<V>)
  {
    Ordered(t) && SizeOk(t)
  }

  /** The size of a search tree is the number of its keys. */
  lemma {:induction false} SizeCounts<V>(t: Tree<V>)
    requires SearchTree(t)
    ensures SizeOf(t) == |Keys(t)|
  {
    if t.Node? {
      SizeCounts(t.left);
      SizeCounts(t.right);
      forall x | x in Keys(t.left)
        ensures x !in Keys(t.right)
      {
      }
      assert t.key !in Keys(t.left) + Keys(t.right);
      assert |Keys(t.left) + Keys(t.right)| == |Keys(t.left)| + |Keys(t.right)|;
      assert Keys(t) == (Keys(t.left) + Keys(t.right)) + {t.key};
    }
  }

  /** _get: the value stored under key; null exactly when key is absent. */
  function TreeGet<V>(t: Tree<V>, key: int): (r: Option<V>)
    ensures r.Some? ==> key in Keys(t)
    ensures Ordered(t) && key in Keys(t) ==> r.Some?
  {
    match t
    case Leaf => None
    case Node(l, k, v, _, rt) =>
      if key < k then
        assert Ordered(t) ==> key !in Keys(rt);
        TreeGet(l, key)
      else if key > k then
        assert Ordered(t) ==> key !in Keys(l);
        TreeGet(rt, key)
      else Some(v)
  }

  /** _put: stores value under key, replacing an earlier value. */
  function TreePut<V>(t: Tree<V>, key: int, value: V): (r: Tree<V>)
    ensures r.Node? && Keys(r) == Keys(t) + {key}
    ensures Ordered(t) ==> Ordered(r)
  {
    match t
    case Leaf => Node(Leaf, key, value, 1, Leaf)
    case Node(l, k, v, _, rt) =>
      if key < k then
        var l' := TreePut(l, key, value);
        Node(l', k, v, 1 + SizeOf(l') + SizeOf(rt), rt)
      else if key > k then
        var rt' := TreePut(rt, key, value);
        Node(l, k, v, 1 + SizeOf(l) + SizeOf(rt'), rt')
      else
        Node(l, k, value, 1 + SizeOf(l) + SizeOf(rt), rt)
  }

  /** put recomputes the size of every node on the path it rebuilds. */
  lemma {:induction false} PutSizes<V>(t: Tree<V>, key: int, value: V)
    requires SizeOk(t)
    ensures SizeOk(TreePut(t, key, value))
  {
    match t
    case Leaf =>
    case Node(l, k, _, _, rt) =>
      if key < k {
        PutSizes(l, key, value);
      } else if key > k {
        PutSizes(rt, key, value);
      }
  }

  /** After put(key, value), get(key) is value and get of every other key is what it was. */
  lemma {:induction false} GetAfterPut<V>(t: Tree<V>, key: int, value: V, x: int)
    ensures TreeGet(TreePut(t, key, value), x) == if x == key then Some(value) else TreeGet(t, x)
  {
    match t
    case Leaf =>
    case Node(l, k, v, _, rt) =>
      if key < k && x < k {
        GetAfterPut(l, key, value, x);
      } else if key > k && x > k {
        GetAfterPut(rt, key, value, x);
      }
  }

  /** _floor and floor: the largest key not above key, undefined when every key is above it. */
  function TreeFloor<V>(t: Tree<V>, key: int): (r: Option<int>)
    ensures r.Some? ==> r.value in Keys(t) && r.value <= key
    ensures Ordered(t) ==> forall x :: x in Keys(t) && x <= key ==> r.Some? && x <= r.value
  {
    match t
    case Leaf => None
    case Node(l, k, _, _, rt) =>
      if key == k then Some(k)
      else if key < k then TreeFloor(l, key)
      else
        match TreeFloor(rt, key)
        case Some(f) => Some(f)
        case None => Some(k)
  }

  /** _ceil and ceil: the smallest key not below key, undefined when every key is below it. */
  function TreeCeil<V>(t: Tree<V>, key: int): (r: Option<int>)
    ensures r.Some? ==> r.value in Keys(t) && r.value >= key
    ensures Ordered(t) ==> forall x :: x in Keys(t) && x >= key ==> r.Some? && x >= r.value
  {
    match t
    case Leaf => None
    case Node(l, k, _, _, rt) =>
      if key == k then Some(k)
      else if key > k then TreeCeil(rt, key)
      else
        match TreeCeil(l, key)
        case Some(c) => Some(c)
        case None => Some(k)
  }

  /** _min: the leftmost node, which holds the smallest key and its value. */
  function MinNode<V>(t: Tree<V>): (n: Tree<V>)
    requires t.Node?
    ensures n.Node? && n.key in Keys(t)
    ensures Ordered(t) ==> (forall x :: x in Keys(t) ==> n.key <= x) && TreeGet(t, n.key) == Some(n.value)
  {
    if t.left.Leaf? then t else MinNode(t.left)
  }

  /** _max: the rightmost node, which holds the largest key and its value. */
  function MaxNode<V>(t: Tree<V>): (n: Tree<V>)
    requires t.Node?
    ensures n.Node? && n.key in Keys(t)
    ensures Ordered(t) ==> (forall x :: x in Keys(t) ==> x <= n.key) && TreeGet(t, n.key) == Some(n.value)
  {
    if t.right.Leaf? then t else MaxNode(t.right)
  }

  /** _deleteMin on a non-null node: removes the smallest key. */
  function TreeDeleteMin<V>(t: Tree<V>): (r: Tree<V>)
    requires t.Node?
    ensures Keys(r) <= Keys(t)
    ensures Ordered(t) ==> Ordered(r) && Keys(r) == Keys(t) - {MinNode(t).key}
  {
    if t.left.Leaf? then t.right
    else
      var l' := TreeDeleteMin(t.left);
      Node(l', t.key, t.value, 1 + SizeOf(l') + SizeOf(t.right), t.right)
  }

  /** deleteMin recomputes the size of every node on the path it rebuilds. */
  lemma {:induction false} DeleteMinSizes<V>(t: Tree<V>)
    requires t.Node? && SizeOk(t)
    ensures SizeOk(TreeDeleteMin(t))
  {
    if t.left.Node? {
      DeleteMinSizes(t.left);
    }
  }

  /** After deleteMin, get of the smallest key is null and get of every other key is what it was. */
  lemma {:induction false} GetAfterDeleteMin<V>(t: Tree<V>, x: int)
    requires t.Node? && Ordered(t)
    ensures TreeGet(TreeDeleteMin(t), x) == if x == MinNode(t).key then None else TreeGet(t, x)
  {
    if t.left.Node? {
      if x < t.key {
        GetAfterDeleteMin(t.left, x);
      }
    } else if x == t.key {
      assert x !in Keys(t.right);
    }
  }

  /**
   * _deleteMax with the recursion the method calls for, `x.right = _deleteMax(x.right)`:
   * removes the largest key.
   */
  function TreeDeleteMax<V>(t: Tree<V>): (r: Tree<V>)
    requires t.Node?
    ensures Keys(r) <= Keys(t)
    ensures Ordered(t) ==> Ordered(r) && Keys(r) == Keys(t) - {MaxNode(t).key}
  {
    if t.right.Leaf? then t.left
    else
      var rt' := TreeDeleteMax(t.right);
      Node(t.left, t.key, t.value, 1 + SizeOf(t.left) + SizeOf(rt'), rt')
  }

  /** deleteMax, so corrected, recomputes the size of every node on the path it rebuilds. */
  lemma {:induction false} DeleteMaxSizes<V>(t: Tree<V>)
    requires t.Node? && SizeOk(t)
    ensures SizeOk(TreeDeleteMax(t))
  {
    if t.right.Node? {
      DeleteMaxSizes(t.right);
    }
  }

  /** After deleteMax, so corrected, get of the largest key is null and of every other key what it was. */
  lemma {:induction false} GetAfterDeleteMax<V>(t: Tree<V>, x: int)
    requires t.Node? && Ordered(t)
    ensures TreeGet(TreeDeleteMax(t), x) == if x == MaxNode(t).key then None else TreeGet(t, x)
  {
    if t.right.Node? {
      if x > t.key {
        GetAfterDeleteMax(t.right, x);
      }
    } else if x == t.key {
      assert x !in Keys(t.left);
    }
  }

  /**
   * _deleteMax as the source has it: with a right child, it sets `x.right =
   * _deleteMin(x.left)`. A null left child makes _deleteMin read `null.left` and throw.
   * Otherwise, when x.left has no left child itself, _deleteMin returns x.left.right and
   * x.left stays; when it has one, _deleteMin rewrites x.left in place and returns it,
   * so both links of x end at that one node.
   */
  function TreeDeleteMaxAsWritten<V>(t: Tree<V>): (r: Result<Tree<V>, string>)
    requires t.Node?
    ensures r.Err? <==> t.right.Node? && t.left.Leaf?
    ensures r.Ok? && t.right.Leaf? ==> r.value == t.left
    ensures r.Ok? && t.right.Node? ==> r.value.Node? && r.value.right == TreeDeleteMin(t.left)
  {
    if t.right.Leaf? then Ok(t.left)
    else if t.left.Leaf? then Err("TypeError")
    else
      var rt' := TreeDeleteMin(t.left);
      var l := if t.left.left.Leaf? then t.left else rt';
      Ok(Node(l, t.key, t.value, 1 + SizeOf(l) + SizeOf(rt'), rt'))
  }

  /**
   * _delete: removes key; a node with two children is replaced by the smallest node of
   * its right subtree (Hibbard deletion).
   */
  function TreeDelete<V>(t: Tree<V>, key: int): (r: Tree<V>)
    ensures Keys(r) <= Keys(t)
    ensures Ordered(t) ==> Ordered(r) && Keys(r) == Keys(t) - {key}
  {
    match t
    case Leaf => Leaf
    case Node(l, k, v, _, rt) =>
      if key < k then
        var l' := TreeDelete(l, key);
        Node(l', k, v, 1 + SizeOf(l') + SizeOf(rt), rt)
      else if key > k then
        var rt' := TreeDelete(rt, key);
        Node(l, k, v, 1 + SizeOf(l) + SizeOf(rt'), rt')
      else if l.Leaf? then rt
      else if rt.Leaf? then l
      else
        var m := MinNode(rt);
        var rt' := TreeDeleteMin(rt);
        Node(l, m.key, m.value, 1 + SizeOf(l) + SizeOf(rt'), rt')
  }

  /** delete recomputes the size of every node it rebuilds, the successor's included. */
  lemma {:induction false} DeleteSizes<V>(t: Tree<V>, key: int)
    requires SizeOk(t)
    ensures SizeOk(TreeDelete(t, key))
  {
    match t
    case Leaf =>
    case Node(l, k, _, _, rt) =>
      if key < k {
        DeleteSizes(l, key);
      } else if key > k {
        DeleteSizes(rt, key);
      } else if l.Node? && rt.Node? {
        DeleteMinSizes(rt);
      }
  }

  /** After delete(key), get(key) is null and get of every other key is what it was. */
  lemma {:induction false} GetAfterDelete<V>(t: Tree<V>, key: int, x: int)
    requires Ordered(t)
    ensures TreeGet(TreeDelete(t, key), x) == if x == key then None else TreeGet(t, x)
  {
    match t
    case Leaf =>
    case Node(l, k, v, _, rt) =>
      if key < k {
        if x < k {
          GetAfterDelete(l, key, x);
        }
      } else if key > k {
        if x > k {
          GetAfterDelete(rt, key, x);
        }
      } else if l.Leaf? {
        assert x == key ==> x !in Keys(rt);
      } else if rt.Leaf? {
        assert x == key ==> x !in Keys(l);
      } else {
        var m := MinNode(rt);
        if x < k {
          assert x < m.key;
        } else if x == k {
          assert x !in Keys(l) && x < m.key;
        } else if x < m.key {
          assert x !in Keys(rt) && x !in Keys(l);
        } else {
          GetAfterDeleteMin(rt, x);
        }
      }
  }

  /** The values in the order the iterator yields them: a node, then its left, then its right subtree. */
  ghost function Preorder<V>(t: Tree<V>): seq<V>
  {
    match t
    case Leaf => []
    case Node(l, _, v, _, r) => [v] + Preorder(l) + Preorder(r)
  }

  /** The number of nodes of t. */
  function Count<V>(t: Tree<V>): nat
  {
    match t
    case Leaf => 0
    case Node(l, _, _, _, r) => 1 + Count(l) + Count(r)
  }

  /** The values the iterator has still to yield for a stack of nodes, top (last) first. */
  ghost function Pending<V>(stack: seq<Tree<V>>): seq<V>
  {
    if stack == [] then [] else Preorder(stack[|stack| - 1]) + Pending(stack[..|stack| - 1])
  }

  /** The number of nodes the stack still reaches. */
  function Weight<V>(stack: seq<Tree<V>>): nat
  {
    if stack == [] then 0 else Count(stack[|stack| - 1]) + Weight(stack[..|stack| - 1])
  }

  /** Pushing a node onto the stack puts its values first. */
  lemma PushPending<V>(stack: seq<Tree<V>>, t: Tree<V>)
    ensures Pending(stack + [t]) == Preorder(t) + Pending(stack)
    ensures Weight(stack + [t]) == Count(t) + Weight(stack)
  {
    assert (stack + [t])[..|stack|] == stack;
  }

  /** One step of the iterator on a popped node: push its right child, then its left one, if present. */
  function Expand<V>(rest: seq<Tree<V>>, node: Tree<V>): seq<Tree<V>>
    requires node.Node?
  {
    var withRight := if node.right.Node? then rest + [node.right] else rest;
    if node.left.Node? then withRight + [node.left] else withRight
  }

  /** Every entry of the stack is a node: the iterator never pushes null. */
  ghost predicate AllNodes<V>(stack: seq<Tree<V>>)
  {
    forall i :: 0 <= i < |stack| ==> stack[i].Node?
  }

  /** Expanding a node keeps the stack free of null entries. */
  lemma ExpandNodes<V>(rest: seq<Tree<V>>, node: Tree<V>)
    requires node.Node? && AllNodes(rest)
    ensures AllNodes(Expand(rest, node))
  {
  }

  /** The popped node's value comes first, then what the expanded stack has left to yield. */
  lemma PopPending<V>(rest: seq<Tree<V>>, node: Tree<V>)
    requires node.Node?
    ensures Pending(rest + [node]) == [node.value] + Pending(Expand(rest, node))
  {
    PushPending(rest, node);
    var pl, pr, p := Preorder(node.left), Preorder(node.right), Pending(rest);
    var withRight := if node.right.Node? then rest + [node.right] else rest;
    if node.right.Node? {
      PushPending(rest, node.right);
    } else {
      assert pr == [];
    }
    assert Pending(withRight) == pr + p;
    if node.left.Node? {
      PushPending(withRight, node.left);
    } else {
      assert pl == [];
    }
    assert Pending(Expand(rest, node)) == pl + (pr + p);
    AppendRegroup([node.value], pl, pr, p);
  }

  /** Regrouping a concatenation of four. */
  lemma AppendRegroup<T>(a: seq<T>, b: seq<T>, c: seq<T>, d: seq<T>)
    ensures a + b + c + d == a + (b + (c + d))
  {
  }

  /** Expanding the popped node leaves one node fewer to visit. */
  lemma PopWeight<V>(rest: seq<Tree<V>>, node: Tree<V>)
    requires node.Node?
    ensures Weight(Expand(rest, node)) < Weight(rest + [node])
  {
    PushPending(rest, node);
    var withRight := if node.right.Node? then rest + [node.right] else rest;
    PushPending(rest, node.right);
    PushPending(withRight, node.left);
  }

  /**
   * The iterator: starting from a stack holding the root, each step pops a node, pushes
   * its right and then its left child, and yields its value.
   */
  method PreorderValues<V>(root: Tree<V>) returns (vals: seq<V>)
    ensures vals == Preorder(root)
  {
    var stack: seq<Tree<V>> := if root.Node? then [root] else [];
    vals := [];
    while |stack| > 0
      invariant AllNodes(stack)
      invariant vals + Pending(stack) == Preorder(root)
      decreases Weight(stack)
    {
      ghost var before := stack;
      var node := stack[|stack| - 1];
      stack := stack[..|stack| - 1];
      assert stack + [node] == before;
      PopPending(stack, node);
      PopWeight(stack, node);
      ExpandNodes(stack, node);
      ghost var expanded := Expand(stack, node);
      if node.right.Node? {
        stack := stack + [node.right];
      }
      if node.left.Node? {
        stack := stack + [node.left];
      }
      assert stack == expanded;
      AppendAssoc(vals, [node.value], Pending(stack));
      vals := vals + [node.value];
    }
  }

  /** The demo's tree: put(7, 7), put(10, 10), put(12, 12), put(4, 4), put(6, 6). */
  function DemoTree(): Tree<int>
  {
    TreePut(TreePut(TreePut(TreePut(TreePut(Leaf, 7, 7), 10, 10), 12, 12), 4, 4), 6, 6)
  }

  /** The tree the demo builds, node by node. */
  lemma DemoShape()
    ensures DemoTree() == Node(Node(Leaf, 4, 4, 2, Node(Leaf, 6, 6, 1, Leaf)), 7, 7, 5,
                               Node(Leaf, 10, 10, 2, Node(Leaf, 12, 12, 1, Leaf)))
  {
    var t1 := TreePut(Leaf, 7, 7);
    assert t1 == Node(Leaf, 7, 7, 1, Leaf);
    var t2 := TreePut(t1, 10, 10);
    assert t2 == Node(Leaf, 7, 7, 2, Node(Leaf, 10, 10, 1, Leaf));
    var t3 := TreePut(t2, 12, 12);
    assert t3.right == TreePut(Node(Leaf, 10, 10, 1, Leaf), 12, 12);
    assert t3 == Node(Leaf, 7, 7, 3, Node(Leaf, 10, 10, 2, Node(Leaf, 12, 12, 1, Leaf)));
    var t4 := TreePut(t3, 4, 4);
    assert t4 == Node(Node(Leaf, 4, 4, 1, Leaf), 7, 7, 4, t3.right);
    var t5 := TreePut(t4, 6, 6);
    assert t5.left == TreePut(Node(Leaf, 4, 4, 1, Leaf), 6, 6);
  }

  /** The demo's answers: ceil(10) = 10, ceil(11) = 12 and floor(5) = 4. */
  lemma DemoQueries()
    ensures TreeCeil(DemoTree(), 10) == Some(10) && TreeCeil(DemoTree(), 11) == Some(12)
    ensures TreeFloor(DemoTree(), 5) == Some(4)
  {
    DemoShape();
    var t := DemoTree();
    assert TreeCeil(t, 11) == TreeCeil(t.right, 11);
    assert TreeCeil(t.right, 11) == TreeCeil(t.right.right, 11);
    assert TreeFloor(t, 5) == TreeFloor(t.left, 5);
  }

  /**
   * deleteMax on the demo tree: the root's right link is set to 6, the result of
   * _deleteMin on the subtree 4 -> 6, so the largest keys 10 and 12 are lost and 6
   * ends up on both sides of 7, out of order.
   */
  lemma DeleteMaxLosesKeys()
    ensures var r := TreeDeleteMaxAsWritten(DemoTree());
      && r.Ok? && Keys(r.value) == {4, 6, 7} && !Ordered(r.value)
  {
    DemoShape();
    var t := DemoTree();
    var r := TreeDeleteMaxAsWritten(t).value;
    assert r == Node(t.left, 7, 7, 4, Node(Leaf, 6, 6, 1, Leaf));
    assert 6 in Keys(r.right);
  }

  /** deleteMax of a root whose only child is on the right throws. */
  lemma DeleteMaxThrows()
    ensures TreeDeleteMaxAsWritten(Node(Leaf, 7, 7, 2, Node(Leaf, 10, 10, 1, Leaf))).Err?
  {
  }

  /** The symbol table: a search tree reached from `root`. */
  class BinarySearchTree<V> {
    var root: Tree<V>

    ghost predicate Valid()
      reads this
    {
      SearchTree(root)
    }

    /** An empty table. */
    constructor()
      ensures Valid() && Keys(root) == {}
    {
      root := Leaf;
    }

    /** size: the number of keys. */
    function Size(): (n: int)
      reads this
      requires Valid()
      ensures n == |Keys(root)|
    {
      SizeCounts(root);
      SizeOf(root)
    }

    /** isEmpty: size() === 0, which holds exactly when there are no keys. */
    function IsEmpty(): (b: bool)
      reads this
      requires Valid()
      ensures b <==> Keys(root) == {}
    {
      Size() == 0
    }

    /** get(key): the value stored under key, null exactly when key is absent. */
    function Get(key: int): (r: Option<V>)
      reads this
      requires Valid()
      ensures r.Some? <==> key in Keys(root)
    {
      TreeGet(root, key)
    }

    /** contains(key): get(key) is not null. */
    function Contains(key: int): (b: bool)
      reads this
      requires Valid()
      ensures b <==> key in Keys(root)
    {
      Get(key).Some?
    }

    /** floor(key): the largest key not above key, undefined when there is none. */
    function Floor(key: int): (r: Option<int>)
      reads this
      requires Valid()
      ensures r.Some? ==> r.value in Keys(root) && r.value <= key
      ensures r.None? <==> forall x :: x in Keys(root) ==> x > key
      ensures r.Some? ==> forall x :: x in Keys(root) && x <= key ==> x <= r.value
    {
      TreeFloor(root, key)
    }

    /** ceil(key): the smallest key not below key, undefined when there is none. */
    function Ceil(key: int): (r: Option<int>)
      reads this
      requires Valid()
      ensures r.Some? ==> r.value in Keys(root) && r.value >= key
      ensures r.None? <==> forall x :: x in Keys(root) ==> x < key
      ensures r.Some? ==> forall x :: x in Keys(root) && x >= key ==> x >= r.value
    {
      TreeCeil(root, key)
    }

    /** min: the value of the smallest key, null when empty. */
    function Min(): (r: Option<V>)
      reads this
      requires Valid()
      ensures r.None? <==> Keys(root) == {}
      ensures r.Some? ==> exists k :: k in Keys(root) && TreeGet(root, k) == r && forall x :: x in Keys(root) ==> k <= x
    {
      if IsEmpty() then None else Some(MinNode(root).value)
    }

    /** max: the value of the largest key, null when empty. */
    function Max(): (r: Option<V>)
      reads this
      requires Valid()
      ensures r.None? <==> Keys(root) == {}
      ensures r.Some? ==> exists k :: k in Keys(root) && TreeGet(root, k) == r && forall x :: x in Keys(root) ==> x <= k
    {
      if IsEmpty() then None else Some(MaxNode(root).value)
    }

    /** put(key, value): get(key) becomes value; every other key keeps its value. */
    method Put(key: int, value: V)
      requires Valid()
      modifies this
      ensures Valid() && Keys(root) == old(Keys(root)) + {key}
      ensures forall x :: TreeGet(root, x) == if x == key then Some(value) else old(TreeGet(root, x))
    {
      PutSizes(root, key, value);
      root := TreePut(root, key, value);
      forall x
        ensures TreeGet(root, x) == if x == key then Some(value) else old(TreeGet(root, x))
      {
        GetAfterPut(old(root), key, value, x);
      }
    }

    /** deleteMin: nothing on an empty table; otherwise the smallest key goes and the rest stay. */
    method DeleteMin()
      requires Valid()
      modifies this
      ensures Valid()
      ensures old(root).Leaf? ==> root == old(root)
      ensures old(root).Node? ==> Keys(root) == old(Keys(root)) - {MinNode(old(root)).key}
      ensures old(root).Node? ==> forall x :: x != MinNode(old(root)).key ==> TreeGet(root, x) == old(TreeGet(root, x))
    {
      if IsEmpty() {
        return;
      }
      DeleteMinSizes(root);
      root := TreeDeleteMin(root);
      forall x | x != MinNode(old(root)).key
        ensures TreeGet(root, x) == old(TreeGet(root, x))
      {
        GetAfterDeleteMin(old(root), x);
      }
    }

    /** deleteMax, with the recursion into the right subtree: the largest key goes and the rest stay. */
    method DeleteMax()
      requires Valid()
      modifies this
      ensures Valid()
      ensures old(root).Leaf? ==> root == old(root)
      ensures old(root).Node? ==> Keys(root) == old(Keys(root)) - {MaxNode(old(root)).key}
      ensures old(root).Node? ==> forall x :: x != MaxNode(old(root)).key ==> TreeGet(root, x) == old(TreeGet(root, x))
    {
      if IsEmpty() {
        return;
      }
      DeleteMaxSizes(root);
      root := TreeDeleteMax(root);
      forall x | x != MaxNode(old(root)).key
        ensures TreeGet(root, x) == old(TreeGet(root, x))
      {
        GetAfterDeleteMax(old(root), x);
      }
    }

    /**
     * deleteMax as written: the root becomes _deleteMax(root), which may throw (and then
     * root is unchanged) or leave a tree that is no longer a search tree.
     */
    method DeleteMaxAsWritten() returns (thrown: bool)
      requires Valid()
      modifies this
      ensures old(root).Leaf? ==> !thrown && root == old(root)
      ensures old(root).Node? ==> var r := TreeDeleteMaxAsWritten(old(root));
        (thrown <==> r.Err?) && root == (if r.Ok? then r.value else old(root))
    {
      if IsEmpty() {
        return false;
      }
      var r := TreeDeleteMaxAsWritten(root);
      if r.Err? {
        return true;
      }
      root := r.value;
      return false;
    }

    /** delete(key): key goes and every other key keeps its value. */
    method Delete(key: int)
      requires Valid()
      modifies this
      ensures Valid() && Keys(root) == old(Keys(root)) - {key}
      ensures forall x :: x != key ==> TreeGet(root, x) == old(TreeGet(root, x))
    {
      if IsEmpty() {
        return;
      }
      DeleteSizes(root, key);
      root := TreeDelete(root, key);
      forall x | x != key
        ensures TreeGet(root, x) == old(TreeGet(root, x))
      {
        GetAfterDelete(old(root), key, x);
      }
    }

    /** The iterator: yields the values in preorder. */
    method Values() returns (vals: seq<V>)
      ensures vals == Preorder(root)
    {
      vals := PreorderValues(root);
    }
  }
}
