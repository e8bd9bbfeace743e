// Ring-buffer indexing shared by the Deque and the CircularQueue: a window of
// values that starts at slot `head` of a fixed array and wraps round its end.
module Rings {
  import opened Common

  /** A slot index past the end of a ring of c slots comes back round to its start. */
  function Wrap(x: int, c: int): (r: int)
    ensures 0 <= x < 2 * c ==> 0 <= r < c
  {
    if x < c then x else x - c
  }

  /** The JavaScript `%` the ring arithmetic uses agrees with Wrap on [0, 2c). */
  lemma ModWrap(x: int, c: int)
    requires 0 < c && 0 <= x < 2 * c
    ensures x % c == Wrap(x, c)
  {
  }

  /** The slots from `head` on, round the ring, hold the values of C in order. */
  ghost predicate Window<T>(a: seq<Option<T>>, head: int, C: seq<T>)
  {
    && |C| <= |a|
    && (|C| > 0 ==> 0 <= head < |a|)
    && forall i :: 0 <= i < |C| ==> a[Wrap(head + i, |a|)] == Some(C[i])
  }

  /** Writing x into the slot after the window extends it at the back. */
  lemma PushBack<T>(a: seq<Option<T>>, head: int, C: seq<T>, x: T)
    requires Window(a, head, C) && |C| < |a| && 0 <= head < |a|
    ensures Window(a[Wrap(head + |C|, |a|) := Some(x)], head, C + [x])
  {
    var k := Wrap(head + |C|, |a|);
    var b := a[k := Some(x)];
    forall i | 0 <= i < |C|
      ensures b[Wrap(head + i, |a|)] == Some((C + [x])[i])
    {
      assert Wrap(head + i, |a|) != k;
    }
  }

  /** Writing x into the slot before the window extends it at the front. */
  lemma PushFront<T>(a: seq<Option<T>>, head: int, C: seq<T>, x: T)
    requires Window(a, head, C) && |C| < |a| && 0 <= head < |a|
    ensures Window(a[Wrap(head - 1 + |a|, |a|) := Some(x)], Wrap(head - 1 + |a|, |a|), [x] + C)
  {
    var h := Wrap(head - 1 + |a|, |a|);
    var b := a[h := Some(x)];
    forall i | 0 <= i < |C| + 1
      ensures b[Wrap(h + i, |a|)] == Some(([x] + C)[i])
    {
      if i > 0 {
        assert Wrap(h + i, |a|) == Wrap(head + (i - 1), |a|);
      }
    }
  }

  /** Dropping the front slot leaves the rest of the window, one slot on. */
  lemma PopFront<T>(a: seq<Option<T>>, head: int, C: seq<T>)
    requires Window(a, head, C) && |C| > 0
    ensures a[head] == Some(C[0])
    ensures Window(a, Wrap(head + 1, |a|), C[1..])
  {
    assert a[Wrap(head + 0, |a|)] == Some(C[0]);
    var h := Wrap(head + 1, |a|);
    forall i | 0 <= i < |C| - 1
      ensures a[Wrap(h + i, |a|)] == Some(C[1..][i])
    {
      assert Wrap(h + i, |a|) == Wrap(head + (i + 1), |a|);
    }
  }

  /** Dropping the back slot leaves the rest of the window, from the same head. */
  lemma PopBack<T>(a: seq<Option<T>>, head: int, C: seq<T>)
    requires Window(a, head, C) && |C| > 0
    ensures a[Wrap(head + (|C| - 1), |a|)] == Some(C[|C| - 1])
    ensures Window(a, head, C[..|C| - 1])
  {
  }
}
