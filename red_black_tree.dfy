// RedBlackTree (searching/red-black-tree): a left-leaning red-black tree. put
// inserts a red leaf and straightens the path on the way back up with
// rotateLeft, rotateRight and flipColors; the root is then painted black. The
// lookups and the deletes are the code of the size-annotated search tree of
// searching/binary-search-tree, word for word, colours aside: the deletes do
// no recolouring. Lookups are therefore modelled once, on the tree with its
// colours erased (Erase), and each delete is proved to act on the erased tree
// exactly as the search-tree delete does.
module RedBlackTree {
  import opened Common
  import BST = SymbolTableBST

  /** RED is true and BLACK is false in the source. */
  datatype Color = Red | Black

  datatype Tree<V> = Leaf | Node(left: Tree<V>, key: int, value: V, size: int, color: Color, right: Tree<V>)

  /** _size: the size field of a node, 0 for null. */
  function SizeOf<V>(t: Tree<V>): int
  {
    if t.Leaf? then 0 else t.size
  }

  /** The same tree without its colours: the search tree the lookups walk. */
  function Erase<V>(t: Tree<V>): (e: BST.Tree<V>)
    ensures e.Node? <==> t.Node?
    ensures BST.SizeOf(e) == SizeOf(t)
  {
    match t
    case Leaf => BST.Leaf
    case Node(l, k, v, s, _, r) => BST.Node(Erase(l), k, v, s, Erase(r))
  }

  /** The keys of t, left to right. */
  ghost function KeySeq<V>(t: Tree<V>): seq<int>
  {
    match t
    case Leaf => []
    case Node(l, k, _, _, _, r) => KeySeq(l) + [k] + KeySeq(r)
  }

  /** The search tree t stands for: keys in order and sizes right. */
  ghost predicate SearchTree<V>(t: Tree<V>)
  {
    BST.SearchTree(Erase(t))
  }

  /** isRed: a node coloured red; null counts as black. */
  function IsRed<V>(t: Tree<V>): bool
  {
    t.Node? && t.color == Red
  }

  /** The number of black nodes on the leftmost path from t down, t included. */
  ghost function BlackHeight<V>(t: Tree<V>): nat
  {
    match t
    case Leaf => 0
    case Node(l, _, _, _, c, _) => BlackHeight(l) + (if c == Black then 1 else 0)
  }

  /**
   * The left-leaning red-black invariant at every node: no red right link, no red node with
   * a red left child, and the same number of black nodes on the way down either side.
   */
  ghost predicate Balanced<V>(t: Tree<V>)
  {
    match t
    case Leaf => true
    case Node(l, _, _, _, c, r) =>
      && Balanced(l) && Balanced(r)
      && !IsRed(r)
      && (c == Red ==> !IsRed(l))
      && BlackHeight(l) == BlackHeight(r)
  }

  /**
   * What _put returns for a red node: red, with a black right link and balanced subtrees of
   * equal black height, whose left child may be red as well. The caller straightens it.
   */
  ghost predicate LeansRed<V>(t: Tree<V>)
  {
    && t.Node? && t.color == Red && !IsRed(t.right)
    && Balanced(t.left) && Balanced(t.right) && BlackHeight(t.left) == BlackHeight(t.right)
  }

  /**
   * rotateLeft: the right child n rises and x becomes its red left child, taking n's left
   * subtree as its right one. n takes x's colour and x's size field; x's size is recomputed.
   */
  function RotateLeft<V>(x: Tree<V>): (r: Tree<V>)
    requires x.Node? && x.right.Node?
    ensures r.Node? && r.left.Node? && r.color == x.color && r.left.color == Red && r.size == x.size
    ensures KeySeq(r) == KeySeq(x)
  {
    var n := x.right;
    var x' := Node(x.left, x.key, x.value, 1 + SizeOf(x.left) + SizeOf(n.left), Red, n.left);
    var r := Node(x', n.key, n.value, x.size, x.color, n.right);
    var a, b, c := KeySeq(x.left), KeySeq(n.left), KeySeq(n.right);
    assert KeySeq(r) == (a + [x.key] + b) + [n.key] + c;
    assert KeySeq(x) == a + [x.key] + (b + [n.key] + c);
    r
  }

  /**
   * rotateRight: the left child n rises and x becomes its red right child, taking n's right
   * subtree as its left one. n takes x's colour and x's size field; x's size is recomputed.
   */
  function RotateRight<V>(x: Tree<V>): (r: Tree<V>)
    requires x.Node? && x.left.Node?
    ensures r.Node? && r.right.Node? && r.color == x.color && r.right.color == Red && r.size == x.size
    ensures KeySeq(r) == KeySeq(x)
  {
    var n := x.left;
    var x' := Node(n.right, x.key, x.value, 1 + SizeOf(n.right) + SizeOf(x.right), Red, x.right);
    var r := Node(n.left, n.key, n.value, x.size, x.color, x');
    var a, b, c := KeySeq(n.left), KeySeq(n.right), KeySeq(x.right);
    assert KeySeq(x) == (a + [n.key] + b) + [x.key] + c;
    assert KeySeq(r) == a + [n.key] + (b + [x.key] + c);
    r
  }

  /** On a correctly sized node, a left rotation leaves every size right: n's inherited size is its new one. */
  lemma RotateLeftSizes<V>(x: Tree<V>)
    requires x.Node? && x.right.Node? && BST.SizeOk(Erase(x))
    ensures BST.SizeOk(Erase(RotateLeft(x)))
  {
    var n := x.right;
    assert BST.SizeOk(Erase(x.left)) && BST.SizeOk(Erase(n));
    assert BST.SizeOk(Erase(n.left)) && BST.SizeOk(Erase(n.right));
    assert x.size == 1 + SizeOf(x.left) + 1 + SizeOf(n.left) + SizeOf(n.right);
  }

  /** On a correctly sized node, a right rotation leaves every size right: n's inherited size is its new one. */
  lemma RotateRightSizes<V>(x: Tree<V>)
    requires x.Node? && x.left.Node? && BST.SizeOk(Erase(x))
    ensures BST.SizeOk(Erase(RotateRight(x)))
  {
    var n := x.left;
    assert BST.SizeOk(Erase(x.right)) && BST.SizeOk(Erase(n));
    assert BST.SizeOk(Erase(n.left)) && BST.SizeOk(Erase(n.right));
    assert x.size == 1 + SizeOf(n.left) + SizeOf(n.right) + 1 + SizeOf(x.right);
  }

  /** flipColors: x turns red and both its children black; the search tree is untouched. */
  function FlipColors<V>(x: Tree<V>): (r: Tree<V>)
    requires x.Node? && x.left.Node? && x.right.Node?
    ensures r.Node? && r.color == Red && !IsRed(r.left) && !IsRed(r.right) && Erase(r) == Erase(x)
  {
    x.(color := Red, left := x.left.(color := Black), right := x.right.(color := Black))
  }

  /** A left rotation leaves the keys, the order and every lookup as they were. */
  lemma RotateLeftSearch<V>(x: Tree<V>, q: int)
    requires x.Node? && x.right.Node?
    ensures BST.Keys(Erase(RotateLeft(x))) == BST.Keys(Erase(x))
    ensures BST.Ordered(Erase(x)) ==> BST.Ordered(Erase(RotateLeft(x)))
    ensures BST.Ordered(Erase(x)) ==> BST.TreeGet(Erase(RotateLeft(x)), q) == BST.TreeGet(Erase(x), q)
  {
    var n := x.right;
    if BST.Ordered(Erase(x)) {
      assert n.key in BST.Keys(Erase(n));
      assert BST.Ordered(Erase(n)) && x.key < n.key;
      if q < x.key {
        assert q < n.key;
      } else if q > x.key && q < n.key {
        assert q !in BST.Keys(Erase(n.right));
      }
    }
  }

  /** A right rotation leaves the keys, the order and every lookup as they were. */
  lemma RotateRightSearch<V>(x: Tree<V>, q: int)
    requires x.Node? && x.left.Node?
    ensures BST.Keys(Erase(RotateRight(x))) == BST.Keys(Erase(x))
    ensures BST.Ordered(Erase(x)) ==> BST.Ordered(Erase(RotateRight(x)))
    ensures BST.Ordered(Erase(x)) ==> BST.TreeGet(Erase(RotateRight(x)), q) == BST.TreeGet(Erase(x), q)
  {
    var n := x.left;
    if BST.Ordered(Erase(x)) {
      assert n.key in BST.Keys(Erase(n));
      assert BST.Ordered(Erase(n)) && n.key < x.key;
      if q > x.key {
        assert q > n.key;
      } else if q < x.key && q > n.key {
        assert q !in BST.Keys(Erase(n.left));
      }
    }
  }

  /** The fix-up at the end of _put: rotate a red right link left, rotate two reds in a row right, split a node with two red children, then recompute the size. */
  function Balance<V>(x: Tree<V>): Tree<V>
    requires x.Node?
  {
    var x1 := if IsRed(x.right) && !IsRed(x.left) then RotateLeft(x) else x;
    var x2 := if IsRed(x1.left) && IsRed(x1.left.left) then RotateRight(x1) else x1;
    var x3 := if IsRed(x2.left) && IsRed(x2.right) then FlipColors(x2) else x2;
    x3.(size := 1 + SizeOf(x3.left) + SizeOf(x3.right))
  }

  /** The fix-up leaves the keys, the order and every lookup as they were. */
  lemma BalanceSearch<V>(x: Tree<V>, q: int)
    requires x.Node?
    ensures Balance(x).Node?
    ensures BST.Keys(Erase(Balance(x))) == BST.Keys(Erase(x))
    ensures BST.Ordered(Erase(x)) ==> BST.Ordered(Erase(Balance(x)))
    ensures BST.Ordered(Erase(x)) ==> BST.TreeGet(Erase(Balance(x)), q) == BST.TreeGet(Erase(x), q)
  {
    var x1 := if IsRed(x.right) && !IsRed(x.left) then RotateLeft(x) else x;
    if IsRed(x.right) && !IsRed(x.left) {
      RotateLeftSearch(x, q);
    }
    var x2 := if IsRed(x1.left) && IsRed(x1.left.left) then RotateRight(x1) else x1;
    if IsRed(x1.left) && IsRed(x1.left.left) {
      RotateRightSearch(x1, q);
    }
  }

  /** With both subtrees sized right, the fix-up leaves every size right, its own included. */
  lemma BalanceSizes<V>(x: Tree<V>)
    requires x.Node? && BST.SizeOk(Erase(x.left)) && BST.SizeOk(Erase(x.right))
    ensures BST.SizeOk(Erase(Balance(x)))
  {
    var x0 := x.(size := 1 + SizeOf(x.left) + SizeOf(x.right));
    assert BST.SizeOk(Erase(x0));
    var x1 := if IsRed(x.right) && !IsRed(x.left) then RotateLeft(x) else x;
    var x2 := if IsRed(x1.left) && IsRed(x1.left.left) then RotateRight(x1) else x1;
    assert BST.SizeOk(Erase(x2.left)) && BST.SizeOk(Erase(x2.right));
  }

  /** _put: a new key becomes a red leaf of size 1; an existing key gets the new value. */
  function Ins<V>(t: Tree<V>, key: int, value: V): (r: Tree<V>)
    ensures r.Node?
    ensures t.Leaf? ==> r == Node(Leaf, key, value, 1, Red, Leaf)
  {
    match t
    case Leaf => Node(Leaf, key, value, 1, Red, Leaf)
    case Node(l, k, _, _, _, rt) =>
      if key < k then Balance(t.(left := Ins(l, key, value)))
      else if key > k then Balance(t.(right := Ins(rt, key, value)))
      else Balance(t.(value := value))
  }

  /** put: _put from the root, whose colour is then set to black. */
  function TreePut<V>(t: Tree<V>, key: int, value: V): (r: Tree<V>)
    ensures r.Node? && r.color == Black
  {
    var r := Ins(t, key, value);
    r.(color := Black)
  }

  /** _put adds exactly key to the keys. */
  lemma {:induction false} InsKeys<V>(t: Tree<V>, key: int, value: V)
    ensures BST.Keys(Erase(Ins(t, key, value))) == BST.Keys(Erase(t)) + {key}
  {
    match t
    case Leaf =>
    case Node(l, k, _, _, _, rt) =>
      if key < k {
        InsKeys(l, key, value);
        BalanceSearch(t.(left := Ins(l, key, value)), key);
      } else if key > k {
        InsKeys(rt, key, value);
        BalanceSearch(t.(right := Ins(rt, key, value)), key);
      } else {
        BalanceSearch(t.(value := value), key);
      }
  }

  /** A search tree whose left subtree is replaced by a search tree of keys below its own stays one. */
  lemma OrderedWithLeft<V>(t: Tree<V>, l': Tree<V>)
    requires t.Node? && BST.Ordered(Erase(t)) && BST.Ordered(Erase(l'))
    requires forall y :: y in BST.Keys(Erase(l')) ==> y < t.key
    ensures BST.Ordered(Erase(t.(left := l')))
  {
  }

  /** A search tree whose right subtree is replaced by a search tree of keys above its own stays one. */
  lemma OrderedWithRight<V>(t: Tree<V>, r': Tree<V>)
    requires t.Node? && BST.Ordered(Erase(t)) && BST.Ordered(Erase(r'))
    requires forall y :: y in BST.Keys(Erase(r')) ==> t.key < y
    ensures BST.Ordered(Erase(t.(right := r')))
  {
  }

  /**
   * The node _put rebuilds below a search tree, before its fix-up, is a search tree: the
   * subtree _put went into is one again and holds key, which lies on that side.
   */
  lemma {:induction false} InsOrdered<V>(t: Tree<V>, key: int, value: V)
    requires BST.Ordered(Erase(t))
    ensures BST.Ordered(Erase(Ins(t, key, value)))
    ensures t.Node? && key < t.key ==> BST.Ordered(Erase(t.(left := Ins(t.left, key, value))))
    ensures t.Node? && key > t.key ==> BST.Ordered(Erase(t.(right := Ins(t.right, key, value))))
  {
    match t
    case Leaf =>
    case Node(l, k, _, _, _, rt) =>
      if key < k {
        InsOrdered(l, key, value);
        InsKeys(l, key, value);
        OrderedWithLeft(t, Ins(l, key, value));
        BalanceSearch(t.(left := Ins(l, key, value)), key);
      } else if key > k {
        InsOrdered(rt, key, value);
        InsKeys(rt, key, value);
        OrderedWithRight(t, Ins(rt, key, value));
        BalanceSearch(t.(right := Ins(rt, key, value)), key);
      } else {
        BalanceSearch(t.(value := value), key);
      }
  }

  /** _put leaves every size field right. */
  lemma {:induction false} InsSizes<V>(t: Tree<V>, key: int, value: V)
    requires BST.SizeOk(Erase(t))
    ensures BST.SizeOk(Erase(Ins(t, key, value)))
  {
    match t
    case Leaf =>
    case Node(l, k, _, _, _, rt) =>
      if key < k {
        InsSizes(l, key, value);
        BalanceSizes(t.(left := Ins(l, key, value)));
      } else if key > k {
        InsSizes(rt, key, value);
        BalanceSizes(t.(right := Ins(rt, key, value)));
      } else {
        BalanceSizes(t.(value := value));
      }
  }

  /** After _put(key, value) on a search tree, get(key) is value and every other key keeps its value. */
  lemma {:induction false} GetAfterIns<V>(t: Tree<V>, key: int, value: V, q: int)
    requires BST.Ordered(Erase(t))
    ensures BST.TreeGet(Erase(Ins(t, key, value)), q) == if q == key then Some(value) else BST.TreeGet(Erase(t), q)
  {
    match t
    case Leaf =>
    case Node(l, k, _, _, _, rt) =>
      InsOrdered(t, key, value);
      if key < k {
        var x := t.(left := Ins(l, key, value));
        BalanceSearch(x, q);
        if q < k {
          GetAfterIns(l, key, value, q);
        }
      } else if key > k {
        var x := t.(right := Ins(rt, key, value));
        BalanceSearch(x, q);
        if q > k {
          GetAfterIns(rt, key, value, q);
        }
      } else {
        BalanceSearch(t.(value := value), q);
      }
  }

  /** The fix-up of a black node one of whose subtrees _put has rebuilt leaves a balanced tree of the same black height. */
  lemma BalanceBlack<V>(x: Tree<V>)
    requires x.Node? && x.color == Black && BlackHeight(x.left) == BlackHeight(x.right)
    requires || (LeansRed(x.left) && Balanced(x.right) && !IsRed(x.right))
             || (Balanced(x.left) && Balanced(x.right) && !IsRed(x.right))
             || (Balanced(x.left) && Balanced(x.right) && !(IsRed(x.right) && IsRed(x.right.left)))
    ensures Balanced(Balance(x)) && BlackHeight(Balance(x)) == BlackHeight(x)
  {
  }

  /** The fix-up of a red node one of whose black subtrees _put has rebuilt leaves a red node leaning left. */
  lemma BalanceRed<V>(x: Tree<V>)
    requires x.Node? && x.color == Red && BlackHeight(x.left) == BlackHeight(x.right)
    requires Balanced(x.left) && Balanced(x.right)
    requires (!IsRed(x.left) && !(IsRed(x.right) && IsRed(x.right.left))) || !IsRed(x.right)
    ensures LeansRed(Balance(x)) && BlackHeight(Balance(x)) == BlackHeight(x)
  {
  }

  /**
   * _put keeps the black height; below a black node (or at a null link) it returns a balanced
   * tree, below a red one a red node leaning left.
   */
  lemma {:induction false} InsBalanced<V>(t: Tree<V>, key: int, value: V)
    requires Balanced(t)
    ensures BlackHeight(Ins(t, key, value)) == BlackHeight(t)
    ensures !IsRed(t) ==> Balanced(Ins(t, key, value))
    ensures IsRed(t) ==> LeansRed(Ins(t, key, value))
  {
    match t
    case Leaf =>
    case Node(l, k, _, _, c, rt) =>
      if key < k {
        InsBalanced(l, key, value);
        if c == Black {
          BalanceBlack(t.(left := Ins(l, key, value)));
        } else {
          BalanceRed(t.(left := Ins(l, key, value)));
        }
      } else if key > k {
        InsBalanced(rt, key, value);
        if c == Black {
          BalanceBlack(t.(right := Ins(rt, key, value)));
        } else {
          BalanceRed(t.(right := Ins(rt, key, value)));
        }
      } else if c == Black {
        BalanceBlack(t.(value := value));
      } else {
        BalanceRed(t.(value := value));
      }
  }

  /** put keeps a balanced tree balanced, and its root is black. */
  lemma PutBalanced<V>(t: Tree<V>, key: int, value: V)
    requires Balanced(t)
    ensures Balanced(TreePut(t, key, value)) && !IsRed(TreePut(t, key, value))
  {
    InsBalanced(t, key, value);
  }

  /** put on a search tree gives a search tree with key added, get(key) = value and every other key's value kept. */
  lemma PutSearch<V>(t: Tree<V>, key: int, value: V)
    requires SearchTree(t)
    ensures SearchTree(TreePut(t, key, value))
    ensures BST.Keys(Erase(TreePut(t, key, value))) == BST.Keys(Erase(t)) + {key}
    ensures forall q :: BST.TreeGet(Erase(TreePut(t, key, value)), q) == if q == key then Some(value) else BST.TreeGet(Erase(t), q)
  {
    var r := Ins(t, key, value);
    assert Erase(TreePut(t, key, value)) == Erase(r);
    InsKeys(t, key, value);
    InsOrdered(t, key, value);
    InsSizes(t, key, value);
    forall q
      ensures BST.TreeGet(Erase(r), q) == if q == key then Some(value) else BST.TreeGet(Erase(t), q)
    {
      GetAfterIns(t, key, value, q);
    }
  }

  /** The number of nodes on the longest path from t down. */
  ghost function Height<V>(t: Tree<V>): nat
  {
    match t
    case Leaf => 0
    case Node(l, _, _, _, _, r) => 1 + (if Height(l) < Height(r) then Height(r) else Height(l))
  }

  /** The number of nodes of t. */
  ghost function NodeCount<V>(t: Tree<V>): nat
  {
    match t
    case Leaf => 0
    case Node(l, _, _, _, _, r) => 1 + NodeCount(l) + NodeCount(r)
  }

  /** 2 to the power n. */
  ghost function Pow2(n: nat): nat
  {
    if n == 0 then 1 else 2 * Pow2(n - 1)
  }

  /**
   * The point of the invariant: no path of a balanced tree is longer than twice its black
   * height (plus one for a red root), and the tree has at least 2^bh - 1 nodes, so its
   * height is logarithmic in its size.
   */
  lemma {:induction false} BalancedHeight<V>(t: Tree<V>)
    requires Balanced(t)
    ensures Height(t) <= 2 * BlackHeight(t) + (if IsRed(t) then 1 else 0)
    ensures NodeCount(t) + 1 >= Pow2(BlackHeight(t))
  {
    if t.Node? {
      BalancedHeight(t.left);
      BalancedHeight(t.right);
    }
  }

  /** _min: the leftmost node, the same node the search tree's _min finds. */
  function MinNode<V>(t: Tree<V>): (n: Tree<V>)
    requires t.Node?
    ensures n.Node? && Erase(n) == BST.MinNode(Erase(t))
  {
    if t.left.Leaf? then t else MinNode(t.left)
  }

  /** _max: the rightmost node, the same node the search tree's _max finds. */
  function MaxNode<V>(t: Tree<V>): (n: Tree<V>)
    requires t.Node?
    ensures n.Node? && Erase(n) == BST.MaxNode(Erase(t))
  {
    if t.right.Leaf? then t else MaxNode(t.right)
  }

  /** _deleteMin: the search tree's deleteMin; the nodes keep their colours. */
  function TreeDeleteMin<V>(t: Tree<V>): (r: Tree<V>)
    requires t.Node?
    ensures Erase(r) == BST.TreeDeleteMin(Erase(t))
  {
    if t.left.Leaf? then t.right
    else
      var l' := TreeDeleteMin(t.left);
      Node(l', t.key, t.value, 1 + SizeOf(l') + SizeOf(t.right), t.color, t.right)
  }

  /** _deleteMax with the recursion the method calls for, `x.right = _deleteMax(x.right)`. */
  function TreeDeleteMax<V>(t: Tree<V>): (r: Tree<V>)
    requires t.Node?
    ensures Erase(r) == BST.TreeDeleteMax(Erase(t))
  {
    if t.right.Leaf? then t.left
    else
      var rt' := TreeDeleteMax(t.right);
      Node(t.left, t.key, t.value, 1 + SizeOf(t.left) + SizeOf(rt'), t.color, rt')
  }

  /**
   * _deleteMax as the source has it: `x.right = _deleteMin(x.left!)`, with the same throw on a
   * null left child and the same sharing of x.left as the search tree's version.
   */
  function TreeDeleteMaxAsWritten<V>(t: Tree<V>): (r: Result<Tree<V>, string>)
    requires t.Node?
    ensures r.Err? <==> BST.TreeDeleteMaxAsWritten(Erase(t)).Err?
    ensures r.Ok? ==> Erase(r.value) == BST.TreeDeleteMaxAsWritten(Erase(t)).value
  {
    if t.right.Leaf? then Ok(t.left)
    else if t.left.Leaf? then Err("TypeError")
    else
      var rt' := TreeDeleteMin(t.left);
      var l := if t.left.left.Leaf? then t.left else rt';
      Ok(Node(l, t.key, t.value, 1 + SizeOf(l) + SizeOf(rt'), t.color, rt'))
  }

  /**
   * _delete: Hibbard deletion as in the search tree; the successor node keeps its own colour
   * when it takes the deleted node's place.
   */
  function TreeDelete<V>(t: Tree<V>, key: int): (r: Tree<V>)
    ensures Erase(r) == BST.TreeDelete(Erase(t), key)
  {
    match t
    case Leaf => Leaf
    case Node(l, k, v, _, c, rt) =>
      if key < k then
        var l' := TreeDelete(l, key);
        Node(l', k, v, 1 + SizeOf(l') + SizeOf(rt), c, rt)
      else if key > k then
        var rt' := TreeDelete(rt, key);
        Node(l, k, v, 1 + SizeOf(l) + SizeOf(rt'), c, rt')
      else if l.Leaf? then rt
      else if rt.Leaf? then l
      else
        var m := MinNode(rt);
        var rt' := TreeDeleteMin(rt);
        Node(l, m.key, m.value, 1 + SizeOf(l) + SizeOf(rt'), m.color, rt')
  }

  /**
   * A balanced tree of four keys: 3 is black with the black child 4 on the right and the
   * black child 2, itself with the red left child 1, on the left.
   */
  function LosingTree(): Tree<int>
  {
    Node(Node(Node(Leaf, 1, 1, 1, Red, Leaf), 2, 2, 2, Black, Leaf), 3, 3, 4, Black, Node(Leaf, 4, 4, 1, Black, Leaf))
  }

  /** LosingTree is a balanced search tree with sizes right. */
  lemma LosingTreeValid()
    ensures Balanced(LosingTree()) && SearchTree(LosingTree())
  {
    var e1, e4 := BST.Node(BST.Leaf, 1, 1, 1, BST.Leaf), BST.Node(BST.Leaf, 4, 4, 1, BST.Leaf);
    var e2 := BST.Node(e1, 2, 2, 2, BST.Leaf);
    assert Erase(LosingTree()) == BST.Node(e2, 3, 3, 4, e4);
    assert BST.Keys(e1) == {1} && BST.Keys(e4) == {4};
    assert BST.Keys(e2) == {1, 2};
  }

  /**
   * deleteMax, as written, on LosingTree: the right link of 3 becomes _deleteMin(2), which is
   * node 2 with its left child gone, and 2 stays the left child too. The keys 1 and 4 are lost
   * and 2 sits on both sides of 3.
   */
  lemma DeleteMaxLosesKeys()
    ensures var r := TreeDeleteMaxAsWritten(LosingTree());
      && r.Ok? && BST.Keys(Erase(r.value)) == {2, 3} && !BST.Ordered(Erase(r.value))
  {
    var t := LosingTree();
    var two := Node(Leaf, 2, 2, 1, Black, Leaf);
    assert TreeDeleteMin(t.left) == two;
    assert TreeDeleteMaxAsWritten(t) == Ok(Node(two, 3, 3, 3, Black, two));
    var e2 := BST.Node(BST.Leaf, 2, 2, 1, BST.Leaf);
    assert Erase(Node(two, 3, 3, 3, Black, two)) == BST.Node(e2, 3, 3, 3, e2);
    assert BST.Keys(e2) == {2};
  }

  /** The symbol table: a left-leaning red-black tree reached from `root`. */
  class RedBlackTree<V> {
    var root: Tree<V>

    ghost predicate Valid()
      reads this
    {
      SearchTree(root)
    }

    /** The keys of the table. */
    ghost function Keys(): set<int>
      reads this
    {
      BST.Keys(Erase(root))
    }

    /** An empty table, which is trivially balanced. */
    constructor()
      ensures Valid() && Keys() == {} && Balanced(root)
    {
      root := Leaf;
    }

    /** size: the number of keys. */
    function Size(): (n: int)
      reads this
      requires Valid()
      ensures n == |Keys()|
    {
      BST.SizeCounts(Erase(root));
      SizeOf(root)
    }

    /** isEmpty: size() === 0, which holds exactly when there are no keys. */
    function IsEmpty(): (b: bool)
      reads this
      requires Valid()
      ensures b <==> Keys() == {}
    {
      Size() == 0
    }

    /** get(key): the search tree's _get; null exactly when key is absent. */
    function Get(key: int): (r: Option<V>)
      reads this
      requires Valid()
      ensures r.Some? <==> key in Keys()
    {
      BST.TreeGet(Erase(root), key)
    }

    /** contains(key): get(key) is not null. */
    function Contains(key: int): (b: bool)
      reads this
      requires Valid()
      ensures b <==> key in Keys()
    {
      Get(key).Some?
    }

    /** floor(key): the largest key not above key, undefined when there is none. */
    function Floor(key: int): (r: Option<int>)
      reads this
      requires Valid()
      ensures r.None? <==> forall x :: x in Keys() ==> x > key
      ensures r.Some? ==> r.value in Keys() && r.value <= key && forall x :: x in Keys() && x <= key ==> x <= r.value
    {
      assert BST.Ordered(Erase(root)) && Keys() == BST.Keys(Erase(root));
      BST.TreeFloor(Erase(root), key)
    }

    /** ceil(key): the smallest key not below key, undefined when there is none. */
    function Ceil(key: int): (r: Option<int>)
      reads this
      requires Valid()
      ensures r.None? <==> forall x :: x in Keys() ==> x < key
      ensures r.Some? ==> r.value in Keys() && r.value >= key && forall x :: x in Keys() && x >= key ==> x >= r.value
    {
      assert BST.Ordered(Erase(root)) && Keys() == BST.Keys(Erase(root));
      BST.TreeCeil(Erase(root), key)
    }

    /** min: the value of the smallest key, null when empty. */
    function Min(): (r: Option<V>)
      reads this
      requires Valid()
      ensures r.None? <==> Keys() == {}
      ensures r.Some? ==> exists k :: k in Keys() && Get(k) == r && forall x :: x in Keys() ==> k <= x
    {
      if IsEmpty() then None else Some(MinNode(root).value)
    }

    /** max: the value of the largest key, null when empty. */
    function Max(): (r: Option<V>)
      reads this
      requires Valid()
      ensures r.None? <==> Keys() == {}
      ensures r.Some? ==> exists k :: k in Keys() && Get(k) == r && forall x :: x in Keys() ==> x <= k
    {
      if IsEmpty() then None else Some(MaxNode(root).value)
    }

    /**
     * put(key, value): get(key) becomes value and every other key keeps its value; the root
     * is black, and a balanced tree stays balanced.
     */
    method Put(key: int, value: V)
      requires Valid()
      modifies this
      ensures Valid() && Keys() == old(Keys()) + {key}
      ensures forall x :: Get(x) == if x == key then Some(value) else old(Get(x))
      ensures !IsRed(root)
      ensures old(Balanced(root)) ==> Balanced(root)
    {
      PutSearch(root, key, value);
      if Balanced(root) {
        PutBalanced(root, key, value);
      }
      ghost var t := root;
      root := Ins(root, key, value);
      root := root.(color := Black);
      assert root == TreePut(t, key, value);
    }

    /** deleteMin: nothing on an empty table; otherwise the smallest key goes and the rest stay. */
    method DeleteMin()
      requires Valid()
      modifies this
      ensures Valid()
      ensures old(root).Leaf? ==> root == old(root)
      ensures old(root).Node? ==> Keys() == old(Keys()) - {MinNode(old(root)).key}
      ensures old(root).Node? ==> forall x :: x != MinNode(old(root)).key ==> Get(x) == old(Get(x))
    {
      if IsEmpty() {
        return;
      }
      BST.DeleteMinSizes(Erase(root));
      root := TreeDeleteMin(root);
      forall x | x != MinNode(old(root)).key
        ensures Get(x) == old(Get(x))
      {
        BST.GetAfterDeleteMin(Erase(old(root)), x);
      }
    }

    /** deleteMax, corrected: nothing on an empty table; otherwise the largest key goes and the rest stay. */
    method DeleteMax()
      requires Valid()
      modifies this
      ensures Valid()
      ensures old(root).Leaf? ==> root == old(root)
      ensures old(root).Node? ==> Keys() == old(Keys()) - {MaxNode(old(root)).key}
      ensures old(root).Node? ==> forall x :: x != MaxNode(old(root)).key ==> Get(x) == old(Get(x))
    {
      if IsEmpty() {
        return;
      }
      BST.DeleteMaxSizes(Erase(root));
      root := TreeDeleteMax(root);
      forall x | x != MaxNode(old(root)).key
        ensures Get(x) == old(Get(x))
      {
        BST.GetAfterDeleteMax(Erase(old(root)), x);
      }
    }

    /**
     * deleteMax as written: the root becomes _deleteMax(root), which may throw (and then
     * root is unchanged) or leave a tree that is no longer a search tree.
     */
    method DeleteMaxAsWritten() returns (thrown: bool)
      requires Valid()
      modifies this
      ensures old(root).Leaf? ==> !thrown && root == old(root)
      ensures old(root).Node? ==> var r := TreeDeleteMaxAsWritten(old(root));
        (thrown <==> r.Err?) && root == (if r.Ok? then r.value else old(root))
    {
      if IsEmpty() {
        return false;
      }
      var r := TreeDeleteMaxAsWritten(root);
      if r.Err? {
        return true;
      }
      root := r.value;
      return false;
    }

    /** delete(key): key goes and every other key keeps its value. */
    method Delete(key: int)
      requires Valid()
      modifies this
      ensures Valid() && Keys() == old(Keys()) - {key}
      ensures forall x :: x != key ==> Get(x) == old(Get(x))
    {
      if IsEmpty() {
        return;
      }
      BST.DeleteSizes(Erase(root), key);
      root := TreeDelete(root, key);
      forall x | x != key
        ensures Get(x) == old(Get(x))
      {
        BST.GetAfterDelete(Erase(old(root)), key, x);
      }
    }

    /** The iterator: the search tree's preorder walk, yielding the values in preorder. */
    method Values() returns (vals: seq<V>)
      ensures vals == BST.Preorder(Erase(root))
    {
      vals := BST.PreorderValues(Erase(root));
    }
  }
}
