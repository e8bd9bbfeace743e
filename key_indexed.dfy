// KeyIndexed: key-indexed counting, the four loops that CountingSort.sort
// (strings/counting-sort) runs once on the numbers themselves and
// LSDRadixSort.sort (strings/lsd-radix-sort) runs once per character
// position: count each key, turn the counts into starting positions, deal
// every element into the next free slot of its key's block, and copy back.
// The result is Blocks: the elements with key 0 in input order, then those
// with key 1, and so on, that is, the input stably sorted by key.
module KeyIndexed {

  /** Every element of s has a key in [0, R). */
  ghost predicate KeysIn<T>(s: seq<T>, key: T -> int, R: int)
  {
    forall k :: 0 <= k < |s| ==> 0 <= key(s[k]) < R
  }

  /** b is in order of key. */
  ghost predicate SortedBy<T>(b: seq<T>, key: T -> int)
  {
    forall i, j {:trigger key(b[i]), key(b[j])} :: 0 <= i < j < |b| ==> key(b[i]) <= key(b[j])
  }

  /** The elements among the first i of s whose key is r, in their order in s. */
  ghost function KeyedTo<T>(s: seq<T>, key: T -> int, r: int, i: nat): (k: seq<T>)
    requires i <= |s|
    ensures |k| <= i
  {
    if i == 0 then [] else KeyedTo(s, key, r, i - 1) + (if key(s[i - 1]) == r then [s[i - 1]] else [])
  }

  /** The elements of s whose key is r, in their order in s. */
  ghost function Keyed<T>(s: seq<T>, key: T -> int, r: int): (k: seq<T>)
    ensures |k| <= |s|
  {
    KeyedTo(s, key, r, |s|)
  }

  /** The number of elements among the first i of s whose key is below r. */
  ghost function BelowTo<T>(s: seq<T>, key: T -> int, r: int, i: nat): (c: nat)
    requires i <= |s|
    ensures c <= i
  {
    if i == 0 then 0 else BelowTo(s, key, r, i - 1) + (if key(s[i - 1]) < r then 1 else 0)
  }

  /** The number of elements of s whose key is below r. */
  ghost function Below<T>(s: seq<T>, key: T -> int, r: int): (c: nat)
    ensures c <= |s|
  {
    BelowTo(s, key, r, |s|)
  }

  /** The blocks of keys r, r + 1, ..., R - 1 one after another: s stably sorted by key. */
  ghost function Blocks<T>(s: seq<T>, key: T -> int, r: int, R: int): seq<T>
    decreases R - r
  {
    if r >= R then [] else Keyed(s, key, r) + Blocks(s, key, r + 1, R)
  }

  /** The selected elements are elements of s with key r. */
  lemma {:induction false} KeyedMembers<T>(s: seq<T>, key: T -> int, r: int, i: nat)
    requires i <= |s|
    ensures forall x :: x in KeyedTo(s, key, r, i) ==> x in s && key(x) == r
  {
    if i > 0 {
      KeyedMembers(s, key, r, i - 1);
    }
  }

  /** The elements selected among the first i come from the first i. */
  lemma {:induction false} KeyedWithin<T>(s: seq<T>, key: T -> int, r: int, i: nat)
    requires i <= |s|
    ensures forall x :: x in KeyedTo(s, key, r, i) ==> x in s[..i]
  {
    if i > 0 {
      KeyedWithin(s, key, r, i - 1);
      assert forall x :: x in s[..i - 1] ==> x in s[..i];
      assert s[i - 1] in s[..i];
    }
  }

  /** Two sequences that agree on their first i elements select the same among them. */
  lemma {:induction false} KeyedAgree<T>(s: seq<T>, t: seq<T>, key: T -> int, r: int, i: nat)
    requires i <= |s| && i <= |t| && forall k :: 0 <= k < i ==> s[k] == t[k]
    ensures KeyedTo(s, key, r, i) == KeyedTo(t, key, r, i)
  {
    if i > 0 {
      KeyedAgree(s, t, key, r, i - 1);
    }
  }

  /** No element has a key outside [0, R), so selecting such a key gives nothing. */
  lemma KeyedOutside<T>(s: seq<T>, key: T -> int, R: int, r: int)
    requires KeysIn(s, key, R) && !(0 <= r < R)
    ensures Keyed(s, key, r) == []
  {
    KeyedToOutside(s, key, R, r, |s|);
  }

  lemma {:induction false} KeyedToOutside<T>(s: seq<T>, key: T -> int, R: int, r: int, i: nat)
    requires i <= |s| && KeysIn(s, key, R) && !(0 <= r < R)
    ensures KeyedTo(s, key, r, i) == []
  {
    if i > 0 {
      KeyedToOutside(s, key, R, r, i - 1);
      assert 0 <= key(s[i - 1]) < R;
    }
  }

  /** Selecting from s with one more element at the end. */
  lemma KeyedSnoc<T>(s: seq<T>, x: T, key: T -> int, r: int)
    ensures Keyed(s + [x], key, r) == Keyed(s, key, r) + (if key(x) == r then [x] else [])
  {
    KeyedAgree(s + [x], s, key, r, |s|);
  }

  /** Selecting the elements of one key distributes over concatenation. */
  lemma {:induction false} KeyedAppend<T>(a: seq<T>, b: seq<T>, key: T -> int, r: int)
    ensures Keyed(a + b, key, r) == Keyed(a, key, r) + Keyed(b, key, r)
    decreases |b|
  {
    if |b| > 0 {
      var b' := b[..|b| - 1];
      var y := b[|b| - 1];
      assert a + b == (a + b') + [y];
      assert b == b' + [y];
      KeyedAppend(a, b', key, r);
      KeyedSnoc(a + b', y, key, r);
      KeyedSnoc(b', y, key, r);
    } else {
      assert a + b == a;
    }
  }

  /** A prefix has no more elements of a key than a longer prefix. */
  lemma {:induction false} PrefixKeyed<T>(s: seq<T>, key: T -> int, r: int, i: nat, j: nat)
    requires i <= j <= |s|
    ensures |KeyedTo(s, key, r, i)| <= |KeyedTo(s, key, r, j)|
    decreases j
  {
    if i < j {
      PrefixKeyed(s, key, r, i, j - 1);
    }
  }

  /** The elements below r + 1 are those below r and those of key r. */
  lemma {:induction false} BelowNext<T>(s: seq<T>, key: T -> int, r: int, i: nat)
    requires i <= |s|
    ensures BelowTo(s, key, r + 1, i) == BelowTo(s, key, r, i) + |KeyedTo(s, key, r, i)|
  {
    if i > 0 {
      BelowNext(s, key, r, i - 1);
    }
  }

  /** Below grows with r. */
  lemma {:induction false} BelowMono<T>(s: seq<T>, key: T -> int, r: int, r': int, i: nat)
    requires r <= r' && i <= |s|
    ensures BelowTo(s, key, r, i) <= BelowTo(s, key, r', i)
  {
    if i > 0 {
      BelowMono(s, key, r, r', i - 1);
    }
  }

  /** With every key in [0, R), nothing is below 0 and everything is below R. */
  lemma {:induction false} BelowEnds<T>(s: seq<T>, key: T -> int, R: int, i: nat)
    requires KeysIn(s, key, R) && i <= |s|
    ensures BelowTo(s, key, 0, i) == 0 && BelowTo(s, key, R, i) == i
  {
    if i > 0 {
      BelowEnds(s, key, R, i - 1);
    }
  }

  /** Every element of the blocks from r on is an element of s with a key in [r, R). */
  lemma {:induction false} BlocksKeys<T>(s: seq<T>, key: T -> int, r: int, R: int)
    ensures forall x :: x in Blocks(s, key, r, R) ==> x in s && r <= key(x) < R
    decreases R - r
  {
    if r < R {
      BlocksKeys(s, key, r + 1, R);
      KeyedMembers(s, key, r, |s|);
    }
  }

  /** The blocks hold the elements in order of key. */
  lemma {:induction false} BlocksSorted<T>(s: seq<T>, key: T -> int, r: int, R: int)
    ensures SortedBy(Blocks(s, key, r, R), key)
    decreases R - r
  {
    if r < R {
      BlocksSorted(s, key, r + 1, R);
      BlocksKeys(s, key, r + 1, R);
      KeyedMembers(s, key, r, |s|);
      var k := Keyed(s, key, r);
      var rest := Blocks(s, key, r + 1, R);
      forall i, j | 0 <= i < j < |k + rest|
        ensures key((k + rest)[i]) <= key((k + rest)[j])
      {
        if i < |k| {
          assert (k + rest)[i] == k[i] && k[i] in k;
          assert key(k[i]) == r;
          if j < |k| {
            assert (k + rest)[j] == k[j] && k[j] in k;
            assert key(k[j]) == r;
          } else {
            assert (k + rest)[j] == rest[j - |k|] && rest[j - |k|] in rest;
            assert key(rest[j - |k|]) > r;
          }
        } else {
          assert (k + rest)[i] == rest[i - |k|] && (k + rest)[j] == rest[j - |k|];
        }
      }
    }
  }

  /** One more element at the end of s adds it to the blocks once when its key is in [r, R). */
  lemma {:induction false} BlocksSnoc<T>(s: seq<T>, x: T, key: T -> int, r: int, R: int)
    ensures multiset(Blocks(s + [x], key, r, R))
      == multiset(Blocks(s, key, r, R)) + (if r <= key(x) < R then multiset{x} else multiset{})
    decreases R - r
  {
    if r < R {
      var t := s + [x];
      BlocksSnoc(s, x, key, r + 1, R);
      KeyedSnoc(s, x, key, r);
      assert Blocks(t, key, r, R) == Keyed(t, key, r) + Blocks(t, key, r + 1, R);
      assert multiset(Blocks(t, key, r, R)) == multiset(Keyed(t, key, r)) + multiset(Blocks(t, key, r + 1, R));
    }
  }

  /** With every key in [0, R), the blocks are a permutation of s. */
  lemma {:induction false} BlocksMultiset<T>(s: seq<T>, key: T -> int, R: int)
    requires KeysIn(s, key, R)
    ensures multiset(Blocks(s, key, 0, R)) == multiset(s)
  {
    if |s| > 0 {
      var s' := s[..|s| - 1];
      var x := s[|s| - 1];
      assert s == s' + [x];
      assert KeysIn(s', key, R) by {
        assert forall k :: 0 <= k < |s'| ==> s'[k] == s[k];
      }
      BlocksMultiset(s', key, R);
      BlocksSnoc(s', x, key, 0, R);
      assert 0 <= key(x) < R;
      assert multiset(Blocks(s' + [x], key, 0, R)) == multiset(s') + multiset{x};
      assert multiset(s) == multiset(s') + multiset{x};
      assert Blocks(s, key, 0, R) == Blocks(s' + [x], key, 0, R);
    } else {
      BlocksOfEmpty(s, key, 0, R);
    }
  }

  /** No elements, no blocks. */
  lemma {:induction false} BlocksOfEmpty<T>(s: seq<T>, key: T -> int, r: int, R: int)
    requires |s| == 0
    ensures Blocks(s, key, r, R) == []
    decreases R - r
  {
    if r < R {
      BlocksOfEmpty(s, key, r + 1, R);
    }
  }

  /** Selecting one key from the elements of another keeps them all or none. */
  lemma {:induction false} KeyedKeyed<T>(s: seq<T>, key: T -> int, r: int, q: int)
    ensures Keyed(Keyed(s, key, q), key, r) == if q == r then Keyed(s, key, r) else []
  {
    if |s| > 0 {
      var s' := s[..|s| - 1];
      var x := s[|s| - 1];
      assert s == s' + [x];
      KeyedKeyed(s', key, r, q);
      KeyedSnoc(s', x, key, q);
      KeyedSnoc(s', x, key, r);
      KeyedAppend(Keyed(s', key, q), if key(x) == q then [x] else [], key, r);
    }
  }

  /** The blocks keep the elements of each key in their input order: the sort is stable. */
  lemma {:induction false} BlocksStable<T>(s: seq<T>, key: T -> int, r0: int, R: int, r: int)
    ensures Keyed(Blocks(s, key, r0, R), key, r) == if r0 <= r < R then Keyed(s, key, r) else []
    decreases R - r0
  {
    if r0 < R {
      BlocksStable(s, key, r0 + 1, R, r);
      KeyedAppend(Keyed(s, key, r0), Blocks(s, key, r0 + 1, R), key, r);
      KeyedKeyed(s, key, r, r0);
    }
  }

  /** The blocks have as many elements as s has keys in [0, R). */
  lemma {:induction false} BlocksLength<T>(s: seq<T>, key: T -> int, r: int, R: int)
    requires r <= R
    ensures |Blocks(s, key, r, R)| == Below(s, key, R) - Below(s, key, r)
    decreases R - r
  {
    if r < R {
      BlocksLength(s, key, r + 1, R);
      BelowNext(s, key, r, |s|);
    }
  }

  /**
   * The counts of the distributing loop after i elements: C[r] is the next free slot of key
   * r's block, which starts at Below(s, key, r), past the elements of key r among the first i.
   */
  ghost predicate Counted<T>(s: seq<T>, key: T -> int, R: int, i: int, C: seq<int>)
  {
    0 <= i <= |s| && |C| == R + 1 && KeysIn(s, key, R) && forall r :: 0 <= r < R ==> CountAt(s, key, i, C, r)
  }

  /** The count of key r after i elements: the start of its block plus the elements of key r dealt so far, within the block. */
  ghost predicate CountAt<T>(s: seq<T>, key: T -> int, i: int, C: seq<int>, r: int)
  {
    0 <= i <= |s| && 0 <= r < |C| && C[r] == Below(s, key, r) + |KeyedTo(s, key, r, i)| <= Below(s, key, r + 1)
  }

  /** The slots of the distributing loop after i elements: each block's filled part holds the elements of its key among the first i, in order. */
  ghost predicate Filled<T>(s: seq<T>, key: T -> int, R: int, i: int, C: seq<int>, A: seq<T>)
  {
    0 <= i <= |s| && |C| == R + 1 && |A| == |s| && forall r :: 0 <= r < R ==> FillAt(s, key, i, C, A, r)
  }

  /** The filled part of key r's block after i elements. */
  ghost predicate FillAt<T>(s: seq<T>, key: T -> int, i: int, C: seq<int>, A: seq<T>, r: int)
  {
    0 <= i <= |s| && 0 <= r < |C| && Below(s, key, r) <= C[r] <= |A| && A[Below(s, key, r)..C[r]] == KeyedTo(s, key, r, i)
  }

  /** Before any element is dealt, the counts are the block starts and the blocks are empty. */
  lemma DealtNone<T>(s: seq<T>, key: T -> int, R: int, C: seq<int>, A: seq<T>)
    requires KeysIn(s, key, R) && |C| == R + 1 && |A| == |s|
    requires forall r :: 0 <= r <= R ==> C[r] == Below(s, key, r)
    ensures Counted(s, key, R, 0, C) && Filled(s, key, R, 0, C, A)
  {
    forall r | 0 <= r < R
      ensures CountAt(s, key, 0, C, r) && FillAt(s, key, 0, C, A, r)
    {
      BelowMono(s, key, r, r + 1, |s|);
    }
  }

  /** The slot of the next element lies inside its key's block. */
  lemma SlotInBlock<T>(s: seq<T>, key: T -> int, R: int, i: int, C: seq<int>)
    requires Counted(s, key, R, i, C) && i < |s|
    ensures 0 <= key(s[i]) < R && Below(s, key, key(s[i])) <= C[key(s[i])] < Below(s, key, key(s[i]) + 1)
  {
    var r := key(s[i]);
    assert 0 <= r < R;
    assert CountAt(s, key, i, C, r);
    NextSlot(s, key, r, i, C[r]);
  }

  /** The count of key r after i elements, when s[i] has key r, is below the end of r's block. */
  lemma NextSlot<T>(s: seq<T>, key: T -> int, r: int, i: int, c: int)
    requires 0 <= i < |s| && key(s[i]) == r && c == Below(s, key, r) + |KeyedTo(s, key, r, i)|
    ensures c < Below(s, key, r + 1)
  {
    PrefixKeyed(s, key, r, i + 1, |s|);
    BelowNext(s, key, r, |s|);
  }

  /** Advancing the slot of the next element's key keeps the counts. */
  lemma CountStep<T>(s: seq<T>, key: T -> int, R: int, i: int, C: seq<int>)
    requires Counted(s, key, R, i, C) && i < |s|
    ensures 0 <= key(s[i]) < R && Counted(s, key, R, i + 1, C[key(s[i]) := C[key(s[i])] + 1])
  {
    var r := key(s[i]);
    SlotInBlock(s, key, R, i, C);
    var C' := C[r := C[r] + 1];
    var i1 := i + 1;
    forall q | 0 <= q < R
      ensures CountAt(s, key, i1, C', q)
    {
      assert CountAt(s, key, i, C, q);
    }
  }

  /** Writing the next element into its slot keeps every block's filled part. */
  lemma FillStep<T>(s: seq<T>, key: T -> int, R: int, i: int, C: seq<int>, A: seq<T>)
    requires Counted(s, key, R, i, C) && Filled(s, key, R, i, C, A) && i < |s|
    ensures 0 <= key(s[i]) < R && 0 <= C[key(s[i])] < |A|
    ensures Filled(s, key, R, i + 1, C[key(s[i]) := C[key(s[i])] + 1], A[C[key(s[i])] := s[i]])
  {
    var x := s[i];
    var r := key(x);
    SlotInBlock(s, key, R, i, C);
    var p := C[r];
    var C' := C[r := p + 1];
    var A' := A[p := x];
    var i1 := i + 1;
    forall q | 0 <= q < R
      ensures FillAt(s, key, i1, C', A', q)
    {
      assert FillAt(s, key, i, C, A, q);
      if q == r {
        assert A'[Below(s, key, q)..p + 1] == A[Below(s, key, q)..p] + [x];
      } else {
        assert CountAt(s, key, i, C, q);
        if q < r {
          BelowMono(s, key, q + 1, r, |s|);
        } else {
          BelowMono(s, key, r + 1, q, |s|);
        }
        UpdateOutside(A, p, x, Below(s, key, q), C[q]);
      }
    }
  }

  /** Writing outside [lo, hi) leaves that slice. */
  lemma UpdateOutside<T>(A: seq<T>, p: int, x: T, lo: int, hi: int)
    requires 0 <= p < |A| && 0 <= lo <= hi <= |A| && (p < lo || hi <= p)
    ensures A[p := x][lo..hi] == A[lo..hi]
  {
  }

  /** A holds each key's block in its place: the elements of key q at [Below(q), Below(q + 1)). */
  ghost predicate Sliced<T>(s: seq<T>, key: T -> int, R: int, A: seq<T>)
  {
    |A| == |s| && KeysIn(s, key, R) && forall q :: 0 <= q < R ==> InPlace(s, key, A, q)
  }

  /** The block of key q sits at [Below(q), Below(q + 1)) in A. */
  ghost predicate InPlace<T>(s: seq<T>, key: T -> int, A: seq<T>, q: int)
  {
    Below(s, key, q) <= Below(s, key, q + 1) <= |A| && A[Below(s, key, q)..Below(s, key, q + 1)] == Keyed(s, key, q)
  }

  /** Once every element is dealt, the filled part of each block is the whole block. */
  lemma DealtAll<T>(s: seq<T>, key: T -> int, R: int, C: seq<int>, A: seq<T>)
    requires Counted(s, key, R, |s|, C) && Filled(s, key, R, |s|, C, A)
    ensures Sliced(s, key, R, A)
  {
    forall q | 0 <= q < R
      ensures InPlace(s, key, A, q)
    {
      assert CountAt(s, key, |s|, C, q) && FillAt(s, key, |s|, C, A, q);
      BlockDone(s, key, q, C[q], A);
    }
  }

  /** A block filled with all the elements of its key ends where the next block starts. */
  lemma BlockDone<T>(s: seq<T>, key: T -> int, q: int, c: int, A: seq<T>)
    requires c == Below(s, key, q) + |KeyedTo(s, key, q, |s|)| && Below(s, key, q) <= c <= |A|
    requires A[Below(s, key, q)..c] == KeyedTo(s, key, q, |s|)
    ensures InPlace(s, key, A, q)
  {
    BelowNext(s, key, q, |s|);
  }

  /** The blocks in their places, from key r on, make up A from Below(r) on. */
  lemma {:induction false} SlicedBlocks<T>(s: seq<T>, key: T -> int, R: int, A: seq<T>, r: int)
    requires Sliced(s, key, R, A) && 0 <= r <= R
    ensures Below(s, key, r) <= |A| && A[Below(s, key, r)..] == Blocks(s, key, r, R)
    decreases R - r
  {
    BelowEnds(s, key, R, |s|);
    if r < R {
      SlicedBlocks(s, key, R, A, r + 1);
      assert InPlace(s, key, A, r);
      var lo, mid := Below(s, key, r), Below(s, key, r + 1);
      assert A[lo..] == A[lo..mid] + A[mid..];
    } else {
      assert A[|s|..] == [];
    }
  }

  /** Counts each key: count[r + 1] is the number of elements with key r. */
  method Tally<T>(s: seq<T>, key: T -> int, R: nat) returns (count: array<int>)
    requires KeysIn(s, key, R)
    ensures fresh(count) && count.Length == R + 1 && count[0] == 0
    ensures forall r :: 0 <= r < R ==> count[r + 1] == |Keyed(s, key, r)|
  {
    count := new int[R + 1](_ => 0);
    for i := 0 to |s|
      invariant count[0] == 0
      invariant forall r :: 0 <= r < R ==> count[r + 1] == |KeyedTo(s, key, r, i)|
    {
      count[key(s[i]) + 1] := count[key(s[i]) + 1] + 1;
    }
  }

  /** Turns the counts into starting positions: count[r] becomes the number of elements with a key below r. */
  method Cumulate<T>(count: array<int>, ghost s: seq<T>, ghost key: T -> int, R: nat)
    requires KeysIn(s, key, R) && count.Length == R + 1 && count[0] == 0
    requires forall r :: 0 <= r < R ==> count[r + 1] == |Keyed(s, key, r)|
    modifies count
    ensures forall r :: 0 <= r <= R ==> count[r] == Below(s, key, r)
  {
    BelowEnds(s, key, R, |s|);
    for r := 0 to R
      invariant forall q :: 0 <= q <= r ==> count[q] == Below(s, key, q)
      invariant forall q :: r < q <= R ==> count[q] == |Keyed(s, key, q - 1)|
    {
      BelowNext(s, key, r, |s|);
      count[r + 1] := count[r + 1] + count[r];
    }
  }

  /**
   * Deals every element, in input order, into the next free slot of its key's block; the
   * slots written are distinct and cover [0, n), and the result is the blocks.
   */
  method Distribute<T(0)>(s: seq<T>, key: T -> int, R: nat, count: array<int>) returns (aux: array<T>)
    requires KeysIn(s, key, R) && count.Length == R + 1
    requires forall r :: 0 <= r <= R ==> count[r] == Below(s, key, r)
    modifies count
    ensures fresh(aux) && aux.Length == |s| && aux[..] == Blocks(s, key, 0, R)
  {
    aux := new T[|s|];
    DealtNone(s, key, R, count[..], aux[..]);
    for i := 0 to |s|
      invariant Counted(s, key, R, i, count[..]) && Filled(s, key, R, i, count[..], aux[..])
    {
      Deal(s, key, R, i, count, aux);
    }
    DealtAll(s, key, R, count[..], aux[..]);
    SlicedBlocks(s, key, R, aux[..], 0);
    BelowEnds(s, key, R, |s|);
  }

  /** One round of the distributing loop: aux[count[key(s[i])]++] = s[i]. */
  method Deal<T>(s: seq<T>, key: T -> int, R: nat, i: int, count: array<int>, aux: array<T>)
    requires count != aux && i < |s|
    requires Counted(s, key, R, i, count[..]) && Filled(s, key, R, i, count[..], aux[..])
    modifies count, aux
    ensures Counted(s, key, R, i + 1, count[..]) && Filled(s, key, R, i + 1, count[..], aux[..])
  {
    ghost var C, A := count[..], aux[..];
    CountStep(s, key, R, i, C);
    FillStep(s, key, R, i, C, A);
    var r := key(s[i]);
    aux[count[r]] := s[i];
    assert aux[..] == A[C[r] := s[i]];
    count[r] := count[r] + 1;
    assert count[..] == C[r := C[r] + 1];
  }

  /** Copies aux back into a. */
  method CopyBack<T>(a: array<T>, aux: array<T>)
    requires a.Length == aux.Length && a != aux
    modifies a
    ensures a[..] == aux[..]
  {
    for i := 0 to a.Length
      invariant forall k :: 0 <= k < i ==> a[k] == aux[k]
    {
      a[i] := aux[i];
    }
  }
}
