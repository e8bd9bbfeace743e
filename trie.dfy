// Trie (strings/trie): an R-way trie with R = 256. A node holds an optional
// value and R child links; the key's characters choose the links, so a key
// must consist of character codes below 256. put creates the missing nodes of
// a path and stores the value at its end; delete clears the value and prunes
// every node left with neither a value nor a child; keys walks the trie in
// preorder, children by ascending character code.
module Tries {
  import opened Common
  import opened StringOrder

  const R: int := 256

  datatype TrieNode<V> = Null | Node(value: Option<V>, next: seq<TrieNode<V>>)

  /** `new Node()`: no value, R null links. */
  function EmptyNode<V>(): (x: TrieNode<V>)
    ensures x.Node? && x.value.None? && |x.next| == R && forall c :: 0 <= c < R ==> x.next[c].Null?
  {
    Node(None, seq(R, _ => Null))
  }

  /** Every node of t has exactly R links. */
  ghost predicate WF<V>(t: TrieNode<V>)
  {
    t.Node? ==> |t.next| == R && forall c :: 0 <= c < R ==> WF(t.next[c])
  }

  /** Every character code of key is below R, so each one names a link. */
  predicate ValidKey(key: string)
  {
    forall i :: 0 <= i < |key| ==> key[i] as int < R
  }

  /** The node reached from t along the path q, null once the path breaks. */
  ghost function NodeAt<V>(t: TrieNode<V>, q: string): TrieNode<V>
    requires WF(t) && ValidKey(q)
    decreases |q|
  {
    if t.Null? then Null
    else if |q| == 0 then t
    else NodeAt(t.next[q[0] as int], q[1..])
  }

  /** The value stored for the path q below t, none when no node there holds one. */
  ghost function ValueAt<V>(t: TrieNode<V>, q: string): Option<V>
    requires WF(t) && ValidKey(q)
  {
    var n := NodeAt(t, q);
    if n.Null? then None else n.value
  }

  /** A node that holds a value or has a child: the nodes delete keeps. */
  predicate Live<V>(x: TrieNode<V>)
  {
    x.Node? && (x.value.Some? || exists c :: 0 <= c < |x.next| && x.next[c].Node?)
  }

  /** Every node below t is live: no dead branch hangs off t. */
  ghost predicate LiveBelow<V>(t: TrieNode<V>)
  {
    t.Node? ==> forall c :: 0 <= c < |t.next| ==> t.next[c].Null? || (Live(t.next[c]) && LiveBelow(t.next[c]))
  }

  /** _get(x, key, d): one link per character from position d on; null once the path breaks. */
  function GetNode<V>(x: TrieNode<V>, key: string, d: int): (n: TrieNode<V>)
    requires WF(x) && ValidKey(key) && 0 <= d <= |key|
    ensures WF(n) && n == NodeAt(x, key[d..])
    decreases |key| - d
  {
    if x.Null? then Null
    else if d == |key| then x
    else
      assert key[d..][1..] == key[d + 1..];
      GetNode(x.next[key[d] as int], key, d + 1)
  }

  /** No node below a node with no value and no child holds a value. */
  lemma {:induction false} DeadHoldsNothing<V>(x: TrieNode<V>, q: string)
    requires WF(x) && ValidKey(q) && !Live(x)
    ensures ValueAt(x, q).None?
  {
    if x.Node? && |q| > 0 {
      assert x.next[q[0] as int].Null?;
      assert NodeAt(x, q) == Null;
    }
  }

  /** A missing node and an empty node hold the same values: none. */
  lemma NullAsEmpty<V>(q: string)
    requires ValidKey(q)
    ensures ValueAt(EmptyNode<V>(), q).None? && ValueAt<V>(Null, q).None?
  {
    DeadHoldsNothing(EmptyNode<V>(), q);
  }

  /** _put(x, key, value, d): missing nodes are created and value is stored at the end of the path. */
  function TriePut<V>(x: TrieNode<V>, key: string, value: V, d: int): (r: TrieNode<V>)
    requires WF(x) && ValidKey(key) && 0 <= d <= |key|
    ensures WF(r) && Live(r)
    decreases |key| - d
  {
    var x' := if x.Null? then EmptyNode() else x;
    if d == |key| then x'.(value := Some(value))
    else
      var c := key[d] as int;
      var child := TriePut(x'.next[c], key, value, d + 1);
      var r := x'.(next := x'.next[c := child]);
      assert r.next[c].Node?;
      r
  }

  /** After put, the path key[d..] holds value and every other path holds what it held. */
  lemma {:induction false} PutValue<V>(x: TrieNode<V>, key: string, value: V, d: int, q: string)
    requires WF(x) && ValidKey(key) && 0 <= d <= |key| && ValidKey(q)
    ensures ValueAt(TriePut(x, key, value, d), q) == if q == key[d..] then Some(value) else ValueAt(x, q)
    decreases |key| - d
  {
    var x' := if x.Null? then EmptyNode() else x;
    if x.Null? {
      NullAsEmpty<V>(q);
    }
    if |q| > 0 {
      if d < |key| && q[0] == key[d] {
        var c := key[d] as int;
        PutValue(x'.next[c], key, value, d + 1, q[1..]);
        assert key[d..] == [key[d]] + key[d + 1..];
        assert q == [q[0]] + q[1..];
        if x.Null? {
          NullAsEmpty<V>(q[1..]);
        }
      } else if x.Null? {
        NullAsEmpty<V>(q[1..]);
        assert q != key[d..];
      } else {
        assert q != key[d..] by {
          if d < |key| {
            assert key[d..][0] == key[d];
          }
        }
      }
    }
  }

  /** put keeps every node below the root live. */
  lemma {:induction false} PutLiveBelow<V>(x: TrieNode<V>, key: string, value: V, d: int)
    requires WF(x) && ValidKey(key) && 0 <= d <= |key| && LiveBelow(x)
    ensures LiveBelow(TriePut(x, key, value, d))
    decreases |key| - d
  {
    if d < |key| {
      var x' := if x.Null? then EmptyNode() else x;
      PutLiveBelow(x'.next[key[d] as int], key, value, d + 1);
    }
  }

  /**
   * _delete(x, key, d): clears the value at the end of the path, then returns the node only
   * when it still holds a value or has a child, and null otherwise.
   */
  function TrieDelete<V>(x: TrieNode<V>, key: string, d: int): (r: TrieNode<V>)
    requires WF(x) && ValidKey(key) && 0 <= d <= |key|
    ensures WF(r) && (r.Null? || Live(r))
    decreases |key| - d
  {
    if x.Null? then Null
    else
      var x' := if d == |key| then x.(value := None)
                else x.(next := x.next[key[d] as int := TrieDelete(x.next[key[d] as int], key, d + 1)]);
      if Live(x') then x' else Null
  }

  /** After delete, the path key[d..] holds nothing and every other path holds what it held. */
  lemma {:induction false} DeleteValue<V>(x: TrieNode<V>, key: string, d: int, q: string)
    requires WF(x) && ValidKey(key) && 0 <= d <= |key| && ValidKey(q)
    ensures ValueAt(TrieDelete(x, key, d), q) == if q == key[d..] then None else ValueAt(x, q)
    decreases |key| - d
  {
    if x.Node? {
      var x' := if d == |key| then x.(value := None)
                else x.(next := x.next[key[d] as int := TrieDelete(x.next[key[d] as int], key, d + 1)]);
      assert WF(x');
      if d < |key| && |q| > 0 && q[0] == key[d] {
        DeleteValue(x.next[key[d] as int], key, d + 1, q[1..]);
        assert key[d..] == [key[d]] + key[d + 1..];
        assert q == [q[0]] + q[1..];
      } else if |q| > 0 {
        assert q != key[d..] by {
          if d < |key| {
            assert key[d..][0] == key[d];
          }
        }
      } else {
        assert q == key[d..] <==> d == |key|;
      }
      if !Live(x') {
        DeadHoldsNothing(x', q);
      }
    }
  }

  /** delete keeps every node below the root live. */
  lemma {:induction false} DeleteLiveBelow<V>(x: TrieNode<V>, key: string, d: int)
    requires WF(x) && ValidKey(key) && 0 <= d <= |key| && LiveBelow(x)
    ensures LiveBelow(TrieDelete(x, key, d))
    decreases |key| - d
  {
    if x.Node? && d < |key| {
      DeleteLiveBelow(x.next[key[d] as int], key, d + 1);
    }
  }

  /** `String.fromCharCode(c)` for a code below R. */
  function Char(c: int): (ch: char)
    requires 0 <= c < R
    ensures ch as int == c
  {
    c as char
  }

  /** _keys(x, prefix, queue): the prefix when x holds a value, then the keys below each link in ascending code. */
  function KeysOf<V>(x: TrieNode<V>, prefix: string): seq<string>
    requires WF(x)
    decreases x, 1
  {
    if x.Null? then []
    else (if x.value.Some? then [prefix] else []) + ChildKeys(x, prefix, R)
  }

  /** The keys below the links 0 .. c-1 of x, in that order. */
  function ChildKeys<V>(x: TrieNode<V>, prefix: string, c: int): seq<string>
    requires WF(x) && x.Node? && 0 <= c <= R
    decreases x, 0, c
  {
    if c == 0 then []
    else ChildKeys(x, prefix, c - 1) + KeysOf(x.next[c - 1], prefix + [Char(c - 1)])
  }

  /** prefix + s, for a key s that starts with prefix. */
  ghost predicate Extends(s: string, prefix: string)
  {
    |prefix| <= |s| && s[..|prefix|] == prefix
  }

  /** A key is listed exactly when it extends the prefix and the rest of it leads to a value. */
  lemma {:induction false} KeysMembership<V>(x: TrieNode<V>, prefix: string, s: string)
    requires WF(x)
    ensures s in KeysOf(x, prefix) <==>
      Extends(s, prefix) && ValidKey(s[|prefix|..]) && ValueAt(x, s[|prefix|..]).Some?
    decreases x, 1
  {
    if x.Node? {
      ChildKeysMembership(x, prefix, R, s);
      if Extends(s, prefix) && |s| == |prefix| {
        assert s == prefix && s[|prefix|..] == [];
      }
      if s == prefix {
        assert s[|prefix|..] == [];
      }
      if Extends(s, prefix) && |s| > |prefix| {
        assert s != prefix;
      }
    }
  }

  /** A key is listed below the links 0 .. c-1 exactly when its next character is below c and it leads to a value. */
  lemma {:induction false} ChildKeysMembership<V>(x: TrieNode<V>, prefix: string, c: int, s: string)
    requires WF(x) && x.Node? && 0 <= c <= R
    ensures s in ChildKeys(x, prefix, c) <==>
      Extends(s, prefix) && |s| > |prefix| && s[|prefix|] as int < c &&
      ValidKey(s[|prefix|..]) && ValueAt(x, s[|prefix|..]).Some?
    decreases x, 0, c
  {
    if c > 0 {
      ChildKeysMembership(x, prefix, c - 1, s);
      var p' := prefix + [Char(c - 1)];
      KeysMembership(x.next[c - 1], p', s);
      if Extends(s, prefix) && |s| > |prefix| {
        var q := s[|prefix|..];
        assert q[0] == s[|prefix|] && q[1..] == s[|p'|..];
        assert Extends(s, p') <==> s[|prefix|] as int == c - 1 by {
          assert s[..|p'|] == s[..|prefix|] + [s[|prefix|]];
        }
        assert ValidKey(q) <==> q[0] as int < R && ValidKey(q[1..]) by {
          assert forall i :: 0 < i < |q| ==> q[i] == q[1..][i - 1];
        }
      }
    }
  }

  /** Every earlier key is lexicographically below every later one. */
  ghost predicate StrictlySorted(s: seq<string>)
  {
    forall i, j :: 0 <= i < j < |s| ==> LexLess(s[i], s[j])
  }

  /** Joining two sorted lists whose every cross pair is in order gives a sorted list. */
  lemma JoinSorted(a: seq<string>, b: seq<string>)
    requires StrictlySorted(a) && StrictlySorted(b)
    requires forall x, y :: x in a && y in b ==> LexLess(x, y)
    ensures StrictlySorted(a + b)
  {
    var s := a + b;
    forall i, j | 0 <= i < j < |s|
      ensures LexLess(s[i], s[j])
    {
      if j < |a| {
        assert s[i] == a[i] && s[j] == a[j];
      } else if i >= |a| {
        assert s[i] == b[i - |a|] && s[j] == b[j - |a|];
      } else {
        assert s[i] in a && s[j] in b;
      }
    }
  }

  /** keys lists every key below x extending prefix, in strictly ascending order. */
  lemma {:induction false} KeysSorted<V>(x: TrieNode<V>, prefix: string)
    requires WF(x)
    ensures StrictlySorted(KeysOf(x, prefix))
    ensures forall s :: s in KeysOf(x, prefix) ==> Extends(s, prefix)
    decreases x, 1
  {
    if x.Node? {
      ChildKeysSorted(x, prefix, R);
      var own: seq<string> := if x.value.Some? then [prefix] else [];
      forall a, b | a in own && b in ChildKeys(x, prefix, R)
        ensures LexLess(a, b)
      {
        LexLessAt(a, b, |prefix|);
      }
      JoinSorted(own, ChildKeys(x, prefix, R));
    }
  }

  /** The keys below the links 0 .. c-1 are strictly ascending, extend prefix, and continue with a code below c. */
  lemma {:induction false} ChildKeysSorted<V>(x: TrieNode<V>, prefix: string, c: int)
    requires WF(x) && x.Node? && 0 <= c <= R
    ensures StrictlySorted(ChildKeys(x, prefix, c))
    ensures forall s :: s in ChildKeys(x, prefix, c) ==>
      Extends(s, prefix) && |s| > |prefix| && s[|prefix|] as int < c
    decreases x, 0, c
  {
    if c > 0 {
      ChildKeysSorted(x, prefix, c - 1);
      var p' := prefix + [Char(c - 1)];
      KeysSorted(x.next[c - 1], p');
      var left, right := ChildKeys(x, prefix, c - 1), KeysOf(x.next[c - 1], p');
      forall b | b in right
        ensures Extends(b, prefix) && |b| > |prefix| && b[|prefix|] as int == c - 1
      {
        assert b[..|prefix|] == b[..|p'|][..|prefix|];
        assert b[|prefix|] == b[..|p'|][|prefix|];
      }
      forall a, b | a in left && b in right
        ensures LexLess(a, b)
      {
        assert a[..|prefix|] == b[..|prefix|];
        assert a[..|prefix| + 1][..|prefix|] == a[..|prefix|] && b[..|prefix| + 1][..|prefix|] == b[..|prefix|];
        LexLessAt(a, b, |prefix|);
      }
      JoinSorted(left, right);
    }
  }

  /** A strictly sorted list holds no key twice. */
  lemma SortedDistinct(s: seq<string>)
    requires StrictlySorted(s)
    ensures forall i, j :: 0 <= i < j < |s| ==> s[i] != s[j]
  {
    forall i, j | 0 <= i < j < |s|
      ensures s[i] != s[j]
    {
      LexIrreflexive(s[i]);
    }
  }

  /** The trie object: a root that put and delete reassign, and that delete can prune to null. */
  class Trie<V> {
    var root: TrieNode<V>

    /** Every node has R links, and only the root may be dead. */
    ghost predicate Valid()
      reads this
    {
      WF(root) && LiveBelow(root)
    }

    /** `this.root = new Node()`: no key holds a value. */
    constructor()
      ensures Valid() && root == EmptyNode()
      ensures forall q :: ValidKey(q) ==> ValueAt(root, q).None?
    {
      root := EmptyNode();
      new;
      forall q | ValidKey(q)
        ensures ValueAt(root, q).None?
      {
        NullAsEmpty<V>(q);
      }
    }

    /** get(key): the value stored for key, null when key has none. */
    function Get(key: string): (r: Option<V>)
      reads this
      requires Valid() && ValidKey(key)
      ensures r == ValueAt(root, key)
    {
      var x := GetNode(root, key, 0);
      assert key[0..] == key;
      if x.Null? then None else x.value
    }

    /** put(key, value): key now holds value, every other key what it held; the trie itself is returned. */
    method Put(key: string, value: V) returns (self: Trie<V>)
      requires Valid() && ValidKey(key)
      modifies this
      ensures Valid() && root == TriePut(old(root), key, value, 0) && self == this
      ensures forall q :: ValidKey(q) ==> ValueAt(root, q) == if q == key then Some(value) else old(ValueAt(root, q))
    {
      forall q | ValidKey(q)
        ensures ValueAt(TriePut(root, key, value, 0), q) == if q == key then Some(value) else ValueAt(root, q)
      {
        PutValue(root, key, value, 0, q);
        assert key[0..] == key;
      }
      PutLiveBelow(root, key, value, 0);
      root := TriePut(root, key, value, 0);
      self := this;
    }

    /**
     * _delete as the source writes it: the recursive call on the key's link, then the loop that
     * keeps x as soon as it finds a child.
     */
    static method DeleteNode(x: TrieNode<V>, key: string, d: int) returns (r: TrieNode<V>)
      requires WF(x) && ValidKey(key) && 0 <= d <= |key|
      ensures r == TrieDelete(x, key, d)
      decreases |key| - d
    {
      if x.Null? {
        return Null;
      }
      var y := x;
      if d == |key| {
        y := y.(value := None);
      } else {
        var c := key[d] as int;
        var child := DeleteNode(y.next[c], key, d + 1);
        y := y.(next := y.next[c := child]);
      }
      if y.value.Some? {
        return y;
      }
      for c := 0 to R
        invariant forall c' :: 0 <= c' < c ==> y.next[c'].Null?
      {
        if y.next[c].Node? {
          return y;
        }
      }
      return Null;
    }

    /** delete(key): key holds nothing, every other key what it held; dead nodes are pruned. */
    method Delete(key: string)
      requires Valid() && ValidKey(key)
      modifies this
      ensures Valid() && root == TrieDelete(old(root), key, 0)
      ensures forall q :: ValidKey(q) ==> ValueAt(root, q) == if q == key then None else old(ValueAt(root, q))
    {
      forall q | ValidKey(q)
        ensures ValueAt(TrieDelete(root, key, 0), q) == if q == key then None else ValueAt(root, q)
      {
        DeleteValue(root, key, 0, q);
        assert key[0..] == key;
      }
      DeleteLiveBelow(root, key, 0);
      root := DeleteNode(root, key, 0);
    }

    /** _keys as the source writes it: enqueue the prefix when x holds a value, then visit each link in turn. */
    static method CollectKeys(x: TrieNode<V>, prefix: string, queue: seq<string>) returns (q: seq<string>)
      requires WF(x)
      ensures q == queue + KeysOf(x, prefix)
      decreases x
    {
      if x.Null? {
        return queue;
      }
      q := queue;
      if x.value.Some? {
        q := q + [prefix];
      }
      ghost var start := q;
      for c := 0 to R
        invariant q == start + ChildKeys(x, prefix, c)
      {
        q := CollectKeys(x.next[c], prefix + [Char(c)], q);
      }
    }

    /** keys(): every key that holds a value, once each, in ascending order with prefixes first. */
    method Keys() returns (keys: seq<string>)
      requires Valid()
      ensures keys == KeysOf(root, [])
      ensures forall s :: ValidKey(s) ==> (s in keys <==> ValueAt(root, s).Some?)
      ensures StrictlySorted(keys)
      ensures forall i, j :: 0 <= i < j < |keys| ==> keys[i] != keys[j]
    {
      keys := CollectKeys(root, [], []);
      forall s | ValidKey(s)
        ensures s in keys <==> ValueAt(root, s).Some?
      {
        KeysMembership(root, [], s);
        assert s[0..] == s && s[..0] == [];
      }
      KeysSorted(root, []);
      SortedDistinct(keys);
    }
  }
}
