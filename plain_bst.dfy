// BinarySearchTree (binary-search-tree): a tree of bare values, duplicates
// allowed. insert sends a value not above a node to its left and a larger one
// to its right, so every subtree keeps values not above its root on the left
// and values above it on the right. delete replaces a node with two children
// by its successor and can leave a copy of the successor's value on the right,
// so after a delete only the weak order (left <= node <= right) is certain;
// search, floor, ceil, min, max and inorder all work under that weak order.
// Values are integers compared with <, <= and ===.
module PlainBST {
  import opened Common
  import SortBasics

  datatype Tree = Leaf | Node(left: Tree, value: int, right: Tree)

  /** The values held in t, with their multiplicities. */
  ghost function Elems(t: Tree): multiset<int>
  {
    match t
    case Leaf => multiset{}
    case Node(l, v, r) => Elems(l) + multiset{v} + Elems(r)
  }

  /** The distinct values held in t. */
  ghost function Vals(t: Tree): set<int>
  {
    match t
    case Leaf => {}
    case Node(l, v, r) => Vals(l) + {v} + Vals(r)
  }

  /** A value occurs in t exactly when it is one of t's distinct values. */
  lemma {:induction false} ValsElems(t: Tree, x: int)
    ensures x in Vals(t) <==> x in Elems(t)
  {
    if t.Node? {
      ValsElems(t.left, x);
      ValsElems(t.right, x);
    }
  }

  /** Every value of t is at most v. */
  ghost predicate AllLe(t: Tree, v: int)
  {
    forall x :: x in Vals(t) ==> x <= v
  }

  /** Every value of t is at least v. */
  ghost predicate AllGe(t: Tree, v: int)
  {
    forall x :: x in Vals(t) ==> v <= x
  }

  /** Every value of t is above v. */
  ghost predicate AllGt(t: Tree, v: int)
  {
    forall x :: x in Vals(t) ==> v < x
  }

  /** Every value of a occurs in b. */
  ghost predicate Within(a: Tree, b: Tree)
  {
    Vals(a) <= Vals(b)
  }

  /** The weak order: at every node, no value on the left is above it and none on the right below it. */
  ghost predicate Weak(t: Tree)
  {
    match t
    case Leaf => true
    case Node(l, v, r) => Weak(l) && Weak(r) && AllLe(l, v) && AllGe(r, v)
  }

  /** The order insert builds: at every node, no value on the left is above it and every value on the right is above it. */
  ghost predicate Strict(t: Tree)
  {
    match t
    case Leaf => true
    case Node(l, v, r) => Strict(l) && Strict(r) && AllLe(l, v) && AllGt(r, v)
  }

  /** The strict order implies the weak one. */
  lemma {:induction false} StrictIsWeak(t: Tree)
    requires Strict(t)
    ensures Weak(t)
  {
    if t.Node? {
      StrictIsWeak(t.left);
      StrictIsWeak(t.right);
    }
  }

  /** _insert: a new leaf at the end of the path that sends `value <= node` left and `value > node` right. */
  function TreeInsert(t: Tree, value: int): (r: Tree)
    ensures r.Node? && Elems(r) == Elems(t) + multiset{value}
  {
    match t
    case Leaf => Node(Leaf, value, Leaf)
    case Node(l, v, rt) =>
      if value <= v then Node(TreeInsert(l, value), v, rt)
      else Node(l, v, TreeInsert(rt, value))
  }

  /** insert adds value to the distinct values and nothing else. */
  lemma {:induction false} InsertVals(t: Tree, value: int)
    ensures Vals(TreeInsert(t, value)) == Vals(t) + {value}
  {
    if t.Node? {
      if value <= t.value {
        InsertVals(t.left, value);
      } else {
        InsertVals(t.right, value);
      }
    }
  }

  /** Inserting a value not above v into a tree not above v gives a tree not above v. */
  lemma InsertAllLe(t: Tree, value: int, v: int)
    requires AllLe(t, v) && value <= v
    ensures AllLe(TreeInsert(t, value), v)
  {
    InsertVals(t, value);
  }

  /** Inserting a value not below v into a tree not below v gives a tree not below v. */
  lemma InsertAllGe(t: Tree, value: int, v: int)
    requires AllGe(t, v) && v <= value
    ensures AllGe(TreeInsert(t, value), v)
  {
    InsertVals(t, value);
  }

  /** Inserting a value above v into a tree above v gives a tree above v. */
  lemma InsertAllGt(t: Tree, value: int, v: int)
    requires AllGt(t, v) && v < value
    ensures AllGt(TreeInsert(t, value), v)
  {
    InsertVals(t, value);
  }

  /** insert keeps the weak order: the new value goes left of every node not below it and right of every node below it. */
  lemma {:induction false} InsertWeak(t: Tree, value: int)
    requires Weak(t)
    ensures Weak(TreeInsert(t, value))
  {
    match t
    case Leaf =>
    case Node(l, v, r) =>
      if value <= v {
        InsertWeak(l, value);
        InsertAllLe(l, value, v);
        assert TreeInsert(t, value) == Node(TreeInsert(l, value), v, r);
      } else {
        InsertWeak(r, value);
        InsertAllGe(r, value, v);
        assert TreeInsert(t, value) == Node(l, v, TreeInsert(r, value));
      }
  }

  /** insert keeps the strict order, for the same reason. */
  lemma {:induction false} InsertStrict(t: Tree, value: int)
    requires Strict(t)
    ensures Strict(TreeInsert(t, value))
  {
    match t
    case Leaf =>
    case Node(l, v, r) =>
      if value <= v {
        InsertStrict(l, value);
        InsertAllLe(l, value, v);
        assert TreeInsert(t, value) == Node(TreeInsert(l, value), v, r);
      } else {
        InsertStrict(r, value);
        InsertAllGt(r, value, v);
        assert TreeInsert(t, value) == Node(l, v, TreeInsert(r, value));
      }
  }

  /** _search: the first node on the search path that holds value, null when the path ends. */
  function TreeSearch(t: Tree, value: int): (n: Tree)
    ensures n.Node? ==> n.value == value
    ensures Weak(t) ==> (n.Node? <==> value in Vals(t))
  {
    match t
    case Leaf => Leaf
    case Node(l, v, rt) =>
      if value == v then t
      else if value <= v then TreeSearch(l, value)
      else TreeSearch(rt, value)
  }

  /** _min(root, value): the leftmost node, which holds a smallest value; the argument value is never read. */
  function MinNode(t: Tree, value: int): (n: Tree)
    requires t.Node?
    ensures n.Node? && n.left.Leaf? && n.value in Vals(t)
    ensures Weak(t) ==> AllGe(t, n.value)
  {
    if t.left.Leaf? then t else MinNode(t.left, value)
  }

  /** _max(root, value): the rightmost node, which holds a largest value; the argument value is never read. */
  function MaxNode(t: Tree, value: int): (n: Tree)
    requires t.Node?
    ensures n.Node? && n.right.Leaf? && n.value in Vals(t)
    ensures Weak(t) ==> AllLe(t, n.value)
  {
    if t.right.Leaf? then t else MaxNode(t.right, value)
  }

  /**
   * _delete: removes the first node on the search path that holds value. A node with two
   * children takes its successor's value, which is then deleted from its right subtree.
   */
  function TreeDelete(t: Tree, value: int): Tree
  {
    match t
    case Leaf => Leaf
    case Node(l, v, rt) =>
      if value < v then Node(TreeDelete(l, value), v, rt)
      else if value > v then Node(l, v, TreeDelete(rt, value))
      else if l.Leaf? then rt
      else if rt.Leaf? then l
      else
        var s := MinNode(rt, value).value;
        Node(l, s, TreeDelete(rt, s))
  }

  /** delete never brings in a value that was not there. */
  lemma {:induction false} DeleteVals(t: Tree, value: int)
    ensures Vals(TreeDelete(t, value)) <= Vals(t)
  {
    match t
    case Leaf =>
    case Node(l, v, rt) =>
      if value < v {
        DeleteVals(l, value);
      } else if value > v {
        DeleteVals(rt, value);
      } else if l.Leaf? || rt.Leaf? {
      } else {
        DeleteVals(rt, MinNode(rt, value).value);
      }
  }

  /** On a weakly ordered tree delete keeps the weak order. */
  lemma {:induction false} DeleteWeak(t: Tree, value: int)
    requires Weak(t)
    ensures Weak(TreeDelete(t, value))
  {
    match t
    case Leaf =>
    case Node(l, v, rt) =>
      if value < v {
        DeleteWeak(l, value);
        DeleteVals(l, value);
      } else if value > v {
        DeleteWeak(rt, value);
        DeleteVals(rt, value);
      } else if l.Leaf? || rt.Leaf? {
      } else {
        var s := MinNode(rt, value).value;
        DeleteWeak(rt, s);
        DeleteVals(rt, s);
        assert AllLe(l, s);
      }
  }

  /** Deleting from the left subtree, which alone may hold x, takes x out of the whole. */
  lemma ElemsLeftStep(l: Tree, dl: Tree, v: int, r: Tree, x: int)
    requires Elems(dl) == Elems(l) - multiset{x} && x != v && x !in Elems(r)
    ensures Elems(Node(dl, v, r)) == Elems(Node(l, v, r)) - multiset{x}
  {
    var a, b := Elems(l), Elems(r);
    assert forall y :: (((a - multiset{x}) + multiset{v}) + b)[y] == (((a + multiset{v}) + b) - multiset{x})[y];
  }

  /** Deleting from the right subtree, which alone may hold x, takes x out of the whole. */
  lemma ElemsRightStep(l: Tree, v: int, r: Tree, dr: Tree, x: int)
    requires Elems(dr) == Elems(r) - multiset{x} && x != v && x !in Elems(l)
    ensures Elems(Node(l, v, dr)) == Elems(Node(l, v, r)) - multiset{x}
  {
    assert forall y :: Elems(Node(l, v, dr))[y] == (Elems(Node(l, v, r)) - multiset{x})[y];
  }

  /** Putting a copy s taken out of the right subtree in place of v takes v out of the whole. */
  lemma ElemsReplaceStep(l: Tree, v: int, r: Tree, s: int, dr: Tree)
    requires Elems(dr) == Elems(r) - multiset{s} && s in Elems(r)
    ensures Elems(Node(l, s, dr)) == Elems(Node(l, v, r)) - multiset{v}
  {
    assert forall y :: Elems(Node(l, s, dr))[y] == (Elems(Node(l, v, r)) - multiset{v})[y];
  }

  /** A node with an empty side gives way to its other subtree. */
  lemma ElemsSpliceStep(l: Tree, v: int, r: Tree)
    requires l.Leaf? || r.Leaf?
    ensures Elems(if l.Leaf? then r else l) == Elems(Node(l, v, r)) - multiset{v}
  {
    assert forall y :: Elems(if l.Leaf? then r else l)[y] == (Elems(Node(l, v, r)) - multiset{v})[y];
  }

  /** On a weakly ordered tree delete removes exactly one copy of value, or nothing when value is absent. */
  lemma {:induction false} DeleteElems(t: Tree, value: int)
    requires Weak(t)
    ensures Elems(TreeDelete(t, value)) == Elems(t) - multiset{value}
  {
    match t
    case Leaf =>
    case Node(l, v, rt) =>
      if value < v {
        DeleteElems(l, value);
        ValsElems(rt, value);
        ElemsLeftStep(l, TreeDelete(l, value), v, rt, value);
        assert TreeDelete(t, value) == Node(TreeDelete(l, value), v, rt);
      } else if value > v {
        DeleteElems(rt, value);
        ValsElems(l, value);
        ElemsRightStep(l, v, rt, TreeDelete(rt, value), value);
        assert TreeDelete(t, value) == Node(l, v, TreeDelete(rt, value));
      } else if l.Leaf? || rt.Leaf? {
        ElemsSpliceStep(l, v, rt);
        assert TreeDelete(t, value) == if l.Leaf? then rt else l;
      } else {
        var s := MinNode(rt, value).value;
        DeleteElems(rt, s);
        ValsElems(rt, s);
        ElemsReplaceStep(l, v, rt, s, TreeDelete(rt, s));
        assert TreeDelete(t, value) == Node(l, s, TreeDelete(rt, s));
      }
  }

  /**
   * What delete(value) leaves behind, since it never stores `_delete`'s result in root:
   * _delete's changes below the root show, but a root that holds value and has at most one
   * child stays as it was.
   */
  function DeleteInPlace(t: Tree, value: int): Tree
  {
    if t.Node? && t.value == value && (t.left.Leaf? || t.right.Leaf?) then t else TreeDelete(t, value)
  }

  /** _inorder: left subtree, node, right subtree. */
  function Inorder(t: Tree): (s: seq<int>)
    ensures multiset(s) == Elems(t)
  {
    match t
    case Leaf => []
    case Node(l, v, r) => Inorder(l) + [v] + Inorder(r)
  }

  /** Under the weak order the in-order walk is non-decreasing. */
  lemma {:induction false} InorderSorted(t: Tree)
    requires Weak(t)
    ensures SortBasics.Sorted(Inorder(t))
  {
    if t.Node? {
      InorderSorted(t.left);
      InorderSorted(t.right);
      var a, b := Inorder(t.left), Inorder(t.right);
      var s := a + [t.value] + b;
      forall i, j | 0 <= i < j < |s|
        ensures s[i] <= s[j]
      {
        if j < |a| {
        } else if i < |a| {
          assert s[i] in multiset(a);
          ValsElems(t.left, s[i]);
          if j > |a| {
            assert s[j] == b[j - |a| - 1] && s[j] in multiset(b);
            ValsElems(t.right, s[j]);
          }
        } else if i > |a| {
          assert s[i] == b[i - |a| - 1] && s[j] == b[j - |a| - 1];
        } else {
          assert s[j] == b[j - |a| - 1] && s[j] in multiset(b);
          ValsElems(t.right, s[j]);
        }
      }
    }
  }

  /** What floor answers: the largest value of t not above value, none when there is none. */
  ghost predicate IsFloor(t: Tree, value: int, r: Option<int>)
  {
    && (r.None? <==> forall x :: x in Vals(t) ==> x > value)
    && (r.Some? ==> r.value in Vals(t) && r.value <= value && forall x :: x in Vals(t) && x <= value ==> x <= r.value)
  }

  /** What ceil answers: the smallest value of t not below value, none when there is none. */
  ghost predicate IsCeil(t: Tree, value: int, r: Option<int>)
  {
    && (r.None? <==> forall x :: x in Vals(t) ==> x < value)
    && (r.Some? ==> r.value in Vals(t) && r.value >= value && forall x :: x in Vals(t) && x >= value ==> x >= r.value)
  }

  /** The floor is unique. */
  lemma FloorUnique(t: Tree, value: int, a: Option<int>, b: Option<int>)
    requires IsFloor(t, value, a) && IsFloor(t, value, b)
    ensures a == b
  {
    if a.Some? && b.Some? {
      assert a.value <= b.value && b.value <= a.value;
    }
  }

  /** The ceiling is unique. */
  lemma CeilUnique(t: Tree, value: int, a: Option<int>, b: Option<int>)
    requires IsCeil(t, value, a) && IsCeil(t, value, b)
    ensures a == b
  {
    if a.Some? && b.Some? {
      assert a.value <= b.value && b.value <= a.value;
    }
  }

  /**
   * The state of floor's loop over root: the cursor's subtree lies in root and is weakly
   * ordered; floorNode, when set, holds a value of root below value and not above anything
   * under the cursor; and every value of root not above value is under the cursor or not
   * above floorNode's value.
   */
  ghost predicate FloorLoop(root: Tree, cur: Tree, floorNode: Tree, value: int)
  {
    && Weak(cur) && Within(cur, root)
    && (floorNode.Node? ==> floorNode.value in Vals(root) && floorNode.value < value && AllGe(cur, floorNode.value))
    && (forall x :: x in Vals(root) && x <= value ==> x in Vals(cur) || (floorNode.Node? && x <= floorNode.value))
  }

  /** `root = root.left` when value is below the cursor's value. */
  lemma FloorLeft(root: Tree, cur: Tree, floorNode: Tree, value: int)
    requires FloorLoop(root, cur, floorNode, value) && cur.Node? && value < cur.value
    ensures FloorLoop(root, cur.left, floorNode, value)
  {
    assert forall x :: x in Vals(cur) && x <= value ==> x in Vals(cur.left);
  }

  /** `floorNode = root; root = root.right` when value is above the cursor's value. */
  lemma FloorRight(root: Tree, cur: Tree, floorNode: Tree, value: int)
    requires FloorLoop(root, cur, floorNode, value) && cur.Node? && value > cur.value
    ensures FloorLoop(root, cur.right, cur, value)
  {
    assert cur.value in Vals(cur);
    assert forall x :: x in Vals(cur) ==> x in Vals(cur.right) || x <= cur.value;
  }

  /** The cursor holds value itself: value is its own floor. */
  lemma FloorHit(root: Tree, cur: Tree, floorNode: Tree, value: int)
    requires FloorLoop(root, cur, floorNode, value) && cur.Node? && value == cur.value
    ensures IsFloor(root, value, Some(value))
  {
    assert value in Vals(cur);
  }

  /** The cursor fell off the tree: floorNode's value is the floor, or there is none. */
  lemma FloorMiss(root: Tree, floorNode: Tree, value: int)
    requires FloorLoop(root, Leaf, floorNode, value)
    ensures IsFloor(root, value, if floorNode.Node? then Some(floorNode.value) else None)
  {
  }

  /** The state of ceil's loop over root, the mirror image of FloorLoop. */
  ghost predicate CeilLoop(root: Tree, cur: Tree, ceilNode: Tree, value: int)
  {
    && Weak(cur) && Within(cur, root)
    && (ceilNode.Node? ==> ceilNode.value in Vals(root) && ceilNode.value > value && AllLe(cur, ceilNode.value))
    && (forall x :: x in Vals(root) && x >= value ==> x in Vals(cur) || (ceilNode.Node? && x >= ceilNode.value))
  }

  /** `ceilNode = root; root = root.left` when value is below the cursor's value. */
  lemma CeilLeft(root: Tree, cur: Tree, ceilNode: Tree, value: int)
    requires CeilLoop(root, cur, ceilNode, value) && cur.Node? && value < cur.value
    ensures CeilLoop(root, cur.left, cur, value)
  {
    assert cur.value in Vals(cur);
    assert forall x :: x in Vals(cur) ==> x in Vals(cur.left) || x >= cur.value;
  }

  /** `root = root.right` when value is above the cursor's value. */
  lemma CeilRight(root: Tree, cur: Tree, ceilNode: Tree, value: int)
    requires CeilLoop(root, cur, ceilNode, value) && cur.Node? && value > cur.value
    ensures CeilLoop(root, cur.right, ceilNode, value)
  {
    assert forall x :: x in Vals(cur) && x >= value ==> x in Vals(cur.right);
  }

  /** The cursor holds value itself: value is its own ceiling. */
  lemma CeilHit(root: Tree, cur: Tree, ceilNode: Tree, value: int)
    requires CeilLoop(root, cur, ceilNode, value) && cur.Node? && value == cur.value
    ensures IsCeil(root, value, Some(value))
  {
    assert value in Vals(cur);
  }

  /** The cursor fell off the tree: ceilNode's value is the ceiling, or there is none. */
  lemma CeilMiss(root: Tree, ceilNode: Tree, value: int)
    requires CeilLoop(root, Leaf, ceilNode, value)
    ensures IsCeil(root, value, if ceilNode.Node? then Some(ceilNode.value) else None)
  {
  }

  /** The demo's tree: insert 15, 5, 20, 3, 18, 80 and 16. */
  function DemoTree(): Tree
  {
    TreeInsert(TreeInsert(TreeInsert(TreeInsert(TreeInsert(TreeInsert(TreeInsert(Leaf, 15), 5), 20), 3), 18), 80), 16)
  }

  /**
   * The demo's tree: 15 over 5 and 20, 3 left of 5, 18 and 80 under 20, and 16 the LEFT
   * child of 18 (16 <= 18), where the drawing beside the demo puts it on the right.
   */
  lemma DemoShape()
    ensures DemoTree() == Node(Node(Node(Leaf, 3, Leaf), 5, Leaf), 15,
                               Node(Node(Node(Leaf, 16, Leaf), 18, Leaf), 20, Node(Leaf, 80, Leaf)))
  {
    var t3 := TreeInsert(TreeInsert(TreeInsert(Leaf, 15), 5), 20);
    assert t3 == Node(Node(Leaf, 5, Leaf), 15, Node(Leaf, 20, Leaf));
    var t5 := TreeInsert(TreeInsert(t3, 3), 18);
    assert t5 == Node(Node(Node(Leaf, 3, Leaf), 5, Leaf), 15, Node(Node(Leaf, 18, Leaf), 20, Leaf));
    var t6 := TreeInsert(t5, 80);
    assert t6.right == Node(Node(Leaf, 18, Leaf), 20, Node(Leaf, 80, Leaf));
  }

  /** The demo's tree is weakly ordered. */
  lemma DemoWeak()
    ensures Weak(DemoTree())
  {
    var a := TreeInsert(Leaf, 15);
    InsertWeak(a, 5);
    var b := TreeInsert(a, 5);
    InsertWeak(b, 20);
    var c := TreeInsert(b, 20);
    InsertWeak(c, 3);
    var d := TreeInsert(c, 3);
    InsertWeak(d, 18);
    var e := TreeInsert(d, 18);
    InsertWeak(e, 80);
    InsertWeak(TreeInsert(e, 80), 16);
  }

  /** The demo's distinct values. */
  lemma DemoValues()
    ensures Vals(DemoTree()) == {3, 5, 15, 16, 18, 20, 80}
  {
    DemoShape();
  }

  /** The demo's searches: search(15) is true and search(25) false. */
  lemma DemoSearch()
    ensures TreeSearch(DemoTree(), 15).Node? && TreeSearch(DemoTree(), 25).Leaf?
  {
    DemoShape();
  }

  /** The demo's floors: floor(15) = 15, floor(17) = 16, floor(2) is null. */
  lemma DemoFloor()
    ensures IsFloor(DemoTree(), 15, Some(15)) && IsFloor(DemoTree(), 17, Some(16)) && IsFloor(DemoTree(), 2, None)
  {
    DemoValues();
    DemoFloorOf(DemoTree());
  }

  /** The floors of any tree holding the demo's values. */
  lemma DemoFloorOf(t: Tree)
    requires Vals(t) == {3, 5, 15, 16, 18, 20, 80}
    ensures IsFloor(t, 15, Some(15)) && IsFloor(t, 17, Some(16)) && IsFloor(t, 2, None)
  {
  }

  /** The demo's ceilings: ceil(17) = 18 and ceil(4) = 5. */
  lemma DemoCeil()
    ensures IsCeil(DemoTree(), 17, Some(18)) && IsCeil(DemoTree(), 4, Some(5))
  {
    DemoValues();
    DemoCeilOf(DemoTree());
  }

  /** The ceilings of any tree holding the demo's values. */
  lemma DemoCeilOf(t: Tree)
    requires Vals(t) == {3, 5, 15, 16, 18, 20, 80}
    ensures IsCeil(t, 17, Some(18)) && IsCeil(t, 4, Some(5))
  {
  }

  /**
   * delete(5) after insert(5): the root holds 5 and has no child, so _delete returns null,
   * which delete drops; 5 is still found.
   */
  lemma DeleteKeepsRoot()
    ensures var t := TreeInsert(Leaf, 5);
      && Elems(TreeDelete(t, 5)) == multiset{}
      && DeleteInPlace(t, 5) == t && TreeSearch(DeleteInPlace(t, 5), 5).Node?
  {
  }

  /**
   * insert 5, 3, 10, 10, then delete(5): the successor is the lower 10, and the upper 10 stays
   * on the right of the new root 10. The weak order holds but the strict one does not.
   */
  lemma DeleteLosesStrictOrder()
    ensures var t := TreeInsert(TreeInsert(TreeInsert(TreeInsert(Leaf, 5), 3), 10), 10);
      && Strict(t) && Weak(TreeDelete(t, 5)) && !Strict(TreeDelete(t, 5))
  {
    var t := TreeInsert(TreeInsert(TreeInsert(TreeInsert(Leaf, 5), 3), 10), 10);
    var ten := Node(Node(Leaf, 10, Leaf), 10, Leaf);
    assert t == Node(Node(Leaf, 3, Leaf), 5, ten);
    assert Strict(t);
    assert TreeDelete(t, 5) == Node(Node(Leaf, 3, Leaf), 10, Node(Leaf, 10, Leaf));
    assert 10 in Vals(Node(Leaf, 10, Leaf));
  }

  /** The tree object: a root that insert reassigns and floor and ceil walk with a cursor. */
  class BinarySearchTree {
    var root: Tree

    ghost predicate Valid()
      reads this
    {
      Weak(root)
    }

    /** `root = null`. */
    constructor()
      ensures Valid() && root == Leaf
    {
      root := Leaf;
    }

    /** min(value): the leftmost node, which holds a smallest value; null for an empty tree. */
    function Min(value: int): (n: Tree)
      reads this
      requires Valid()
      ensures n.Leaf? <==> root.Leaf?
      ensures n.Node? ==> n.left.Leaf? && n.value in Vals(root) && AllGe(root, n.value)
    {
      if root.Leaf? then Leaf else MinNode(root, value)
    }

    /** max(value): the rightmost node, which holds a largest value; null for an empty tree. */
    function Max(value: int): (n: Tree)
      reads this
      requires Valid()
      ensures n.Leaf? <==> root.Leaf?
      ensures n.Node? ==> n.right.Leaf? && n.value in Vals(root) && AllLe(root, n.value)
    {
      if root.Leaf? then Leaf else MaxNode(root, value)
    }

    /** insert(value): one more copy of value; both orders are kept; the tree itself is returned. */
    method Insert(value: int) returns (self: BinarySearchTree)
      requires Valid()
      modifies this
      ensures Valid() && root == TreeInsert(old(root), value)
      ensures Elems(root) == old(Elems(root)) + multiset{value}
      ensures old(Strict(root)) ==> Strict(root)
      ensures self == this
    {
      InsertWeak(root, value);
      if Strict(root) {
        InsertStrict(root, value);
      }
      root := TreeInsert(root, value);
      self := this;
    }

    /** search(value): whether value occurs in the tree. */
    function Search(value: int): (b: bool)
      reads this
      requires Valid()
      ensures b <==> value in Vals(root)
    {
      TreeSearch(root, value).Node?
    }

    /**
     * delete(value) as written: it returns the node _delete returns and never stores it in
     * root. _delete's changes below the root show; a root holding value with at most one
     * child stays.
     */
    method DeleteAsWritten(value: int) returns (r: Tree)
      requires Valid()
      modifies this
      ensures Valid() && r == TreeDelete(old(root), value)
      ensures root == DeleteInPlace(old(root), value)
    {
      DeleteWeak(root, value);
      r := TreeDelete(root, value);
      root := DeleteInPlace(root, value);
    }

    /** delete(value), storing `_delete`'s result in root: exactly one copy of value goes, if any. */
    method Delete(value: int) returns (r: Tree)
      requires Valid()
      modifies this
      ensures Valid() && root == TreeDelete(old(root), value) && r == root
      ensures Elems(root) == old(Elems(root)) - multiset{value}
    {
      DeleteWeak(root, value);
      DeleteElems(root, value);
      root := TreeDelete(root, value);
      r := root;
    }

    /** floor(value): a cursor walks down from the root, remembering the last node it left to the right. */
    method Floor(value: int) returns (r: Option<int>)
      requires Valid()
      ensures IsFloor(root, value, r)
    {
      var cur := root;
      var floorNode := Leaf;
      while cur != Leaf
        invariant FloorLoop(root, cur, floorNode, value)
        decreases cur
      {
        if value == cur.value {
          FloorHit(root, cur, floorNode, value);
          return Some(cur.value);
        } else if value < cur.value {
          FloorLeft(root, cur, floorNode, value);
          cur := cur.left;
        } else {
          FloorRight(root, cur, floorNode, value);
          floorNode := cur;
          cur := cur.right;
        }
      }
      FloorMiss(root, floorNode, value);
      return if floorNode.Node? then Some(floorNode.value) else None;
    }

    /** ceil(value): a cursor walks down from the root, remembering the last node it left to the left. */
    method Ceil(value: int) returns (r: Option<int>)
      requires Valid()
      ensures IsCeil(root, value, r)
    {
      var cur := root;
      var ceilNode := Leaf;
      while cur != Leaf
        invariant CeilLoop(root, cur, ceilNode, value)
        decreases cur
      {
        if value == cur.value {
          CeilHit(root, cur, ceilNode, value);
          return Some(cur.value);
        } else if value < cur.value {
          CeilLeft(root, cur, ceilNode, value);
          ceilNode := cur;
          cur := cur.left;
        } else {
          CeilRight(root, cur, ceilNode, value);
          cur := cur.right;
        }
      }
      CeilMiss(root, ceilNode, value);
      return if ceilNode.Node? then Some(ceilNode.value) else None;
    }

    /** inorder(iteratee): the values the iteratee is handed, in order; they never decrease. */
    function InorderValues(): (s: seq<int>)
      reads this
      requires Valid()
      ensures multiset(s) == Elems(root) && SortBasics.Sorted(s)
    {
      InorderSorted(root);
      Inorder(root)
    }
  }
}
