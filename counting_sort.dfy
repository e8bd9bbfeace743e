// CountingSort (strings/counting-sort): key-indexed counting on the numbers
// themselves. Every value must lie in [0, radix); the four loops count the
// values, accumulate the counts, deal the values into a scratch array and copy
// them back, leaving the array in non-decreasing order.
module CountingSort {
  import opened SortBasics
  import opened KeyIndexed

  /** A number is its own key. */
  function Identity(x: int): (y: int)
    ensures y == x
  {
    x
  }

  /** Every value of s lies in [0, radix). */
  ghost predicate InRadix(s: seq<int>, radix: int)
  {
    forall k :: 0 <= k < |s| ==> 0 <= s[k] < radix
  }

  /** The values in key order are the values sorted, and they are a permutation of the input. */
  lemma BlocksAreSorted(s: seq<int>, radix: nat)
    requires InRadix(s, radix)
    ensures Sorted(Blocks(s, Identity, 0, radix))
    ensures multiset(Blocks(s, Identity, 0, radix)) == multiset(s)
  {
    assert KeysIn(s, Identity, radix);
    BlocksSorted(s, Identity, 0, radix);
    BlocksMultiset(s, Identity, radix);
    var b := Blocks(s, Identity, 0, radix);
    forall i, j | 0 <= i < j < |b|
      ensures b[i] <= b[j]
    {
      assert Identity(b[i]) <= Identity(b[j]);
    }
  }

  /** The block of value v holds every occurrence of v: as many as the input has. */
  lemma BlockOfValue(s: seq<int>, v: int)
    ensures forall x :: x in Keyed(s, Identity, v) ==> x == v
    ensures |Keyed(s, Identity, v)| == multiset(s)[v]
  {
    KeyedMembers(s, Identity, v, |s|);
    KeyedCount(s, v, |s|);
    assert s[..|s|] == s;
  }

  /** Among the first i values, the block of v has one entry per occurrence of v. */
  lemma {:induction false} KeyedCount(s: seq<int>, v: int, i: nat)
    requires i <= |s|
    ensures |KeyedTo(s, Identity, v, i)| == multiset(s[..i])[v]
  {
    if i > 0 {
      KeyedCount(s, v, i - 1);
      assert s[..i] == s[..i - 1] + [s[i - 1]];
    }
  }

  /**
   * sort(array, radix): counts, cumulates, deals into aux and copies back. The array ends
   * holding its values block by block in order of value: sorted, and a permutation of the
   * values it held.
   */
  method Sort(a: array<int>, radix: nat)
    requires InRadix(a[..], radix)
    modifies a
    ensures a[..] == Blocks(old(a[..]), Identity, 0, radix)
    ensures Sorted(a[..]) && multiset(a[..]) == multiset(old(a[..]))
  {
    var s := a[..];
    assert KeysIn(s, Identity, radix);
    var count := Tally(s, Identity, radix);
    Cumulate(count, s, Identity, radix);
    var aux := Distribute(s, Identity, radix, count);
    CopyBack(a, aux);
    BlocksAreSorted(s, radix);
  }
}
