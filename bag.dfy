// Bag (fundamental-data-structures/bag): a head-insertion singly linked bag.
// The node chain is represented by the sequence of the values it holds,
// head first, which is exactly the order the iterator walks.
module Bags {
  import opened Common

  /** Contents of a new bag after `xs` were added in order, head first. */
  function Filled<T>(xs: seq<T>): seq<T>
  {
    if xs == [] then [] else [xs[|xs| - 1]] + Filled(xs[..|xs| - 1])
  }

  /** Iteration of a bag filled with `xs` yields every added element, most recent first. */
  lemma {:induction false} FilledIsReverse<T>(xs: seq<T>)
    ensures Filled(xs) == Reverse(xs)
    ensures multiset(Filled(xs)) == multiset(xs)
  {
    if xs != [] {
      var init := xs[..|xs| - 1];
      FilledIsReverse(init);
      assert Filled(xs) == [xs[|xs| - 1]] + Reverse(init);
      forall i | 0 <= i < |xs|
        ensures Filled(xs)[i] == Reverse(xs)[i]
      {
        if i > 0 {
          assert Filled(xs)[i] == Reverse(init)[i - 1];
        }
      }
      ReverseMultiset(xs);
    }
  }

  class Bag<T> {
    /** The values on the node chain, starting at `head`. */
    var items: seq<T>

    constructor()
      ensures items == []
    {
      items := [];
    }

    /** Links a new node holding `x` in front of the old head. */
    method Add(x: T)
      modifies this
      ensures items == [x] + old(items)
    {
      items := [x] + items;
    }

    /** The generator: walks the chain from `head`, yielding each value; the bag is unchanged. */
    method Iterate() returns (ys: seq<T>)
      ensures ys == items
    {
      ys := [];
      var i := 0;
      while i < |items|
        invariant 0 <= i <= |items|
        invariant ys == items[..i]
      {
        ys := ys + [items[i]];
        i := i + 1;
      }
    }
  }

  /** Adding `x` to a bag filled with `xs` gives the bag filled with `xs + [x]`. */
  lemma AddExtendsFilled<T>(xs: seq<T>, x: T)
    ensures [x] + Filled(xs) == Filled(xs + [x])
  {
    assert (xs + [x])[..|xs + [x]| - 1] == xs;
  }
}
