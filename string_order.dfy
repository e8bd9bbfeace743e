// StringOrder: the order in which the string algorithms compare keys:
// character codes from the left, a proper prefix before its extensions. It is
// JavaScript's `<` on strings, the order of Suffix.compareTo and of the
// character-by-character compare loops, and Lcp is the common-prefix length
// that the lcp loops compute.
module StringOrder {
  /** a comes strictly before b: lexicographic on character codes, with a proper prefix first. */
  predicate LexLess(a: string, b: string)
  {
    if |a| == 0 then |b| > 0
    else |b| > 0 && (a[0] < b[0] || (a[0] == b[0] && LexLess(a[1..], b[1..])))
  }

  /** a comes before b or is b. */
  predicate LexLeq(a: string, b: string)
  {
    a == b || LexLess(a, b)
  }

  /** Two strings that agree up to position k, where the first ends or has the smaller character, are in order. */
  lemma {:induction false} LexLessAt(a: string, b: string, k: int)
    requires 0 <= k <= |a| && k < |b| && a[..k] == b[..k]
    requires k == |a| || a[k] < b[k]
    ensures LexLess(a, b)
  {
    if k > 0 {
      assert a[0] == a[..k][0] && b[0] == b[..k][0];
      assert a[1..][..k - 1] == a[..k][1..] && b[1..][..k - 1] == b[..k][1..];
      LexLessAt(a[1..], b[1..], k - 1);
    }
  }

  /** No string comes before itself. */
  lemma {:induction false} LexIrreflexive(a: string)
    ensures !LexLess(a, a)
  {
    if |a| > 0 {
      LexIrreflexive(a[1..]);
    }
  }

  /** The order is transitive. */
  lemma {:induction false} LexTrans(a: string, b: string, c: string)
    requires LexLess(a, b) && LexLess(b, c)
    ensures LexLess(a, c)
  {
    if |a| > 0 && a[0] == b[0] && b[0] == c[0] {
      LexTrans(a[1..], b[1..], c[1..]);
    }
  }

  /** Of two different strings, one comes before the other, and never both. */
  lemma {:induction false} LexTotal(a: string, b: string)
    ensures a == b || LexLess(a, b) || LexLess(b, a)
    ensures !(LexLess(a, b) && LexLess(b, a))
  {
    if LexLess(a, b) && LexLess(b, a) {
      LexTrans(a, b, a);
      LexIrreflexive(a);
    }
    if |a| > 0 && |b| > 0 && a[0] == b[0] {
      LexTotal(a[1..], b[1..]);
      if a[1..] == b[1..] {
        assert a == [a[0]] + a[1..] && b == [b[0]] + b[1..];
      }
    }
  }

  /** The order with equality allowed is transitive. */
  lemma LeqTrans(a: string, b: string, c: string)
    requires LexLeq(a, b) && LexLeq(b, c)
    ensures LexLeq(a, c)
  {
    if a != b && b != c {
      LexTrans(a, b, c);
    }
  }

  /** The length of the longest common prefix of a and b. */
  function Lcp(a: string, b: string): (n: int)
    ensures 0 <= n <= |a| && n <= |b|
    ensures a[..n] == b[..n]
    ensures n < |a| && n < |b| ==> a[n] != b[n]
  {
    if |a| == 0 || |b| == 0 || a[0] != b[0] then 0
    else
      var k := Lcp(a[1..], b[1..]);
      assert a[..k + 1] == [a[0]] + a[1..][..k] && b[..k + 1] == [b[0]] + b[1..][..k];
      k + 1
  }

  /** The order is decided at the first difference, or by length when one string is a prefix of the other. */
  lemma LexAtLcp(a: string, b: string)
    ensures var n := Lcp(a, b);
      LexLess(a, b) <==> (n == |a| < |b|) || (n < |a| && n < |b| && a[n] < b[n])
  {
    var n := Lcp(a, b);
    if n == |a| < |b| || (n < |a| && n < |b| && a[n] < b[n]) {
      LexLessAt(a, b, n);
    } else {
      LexTotal(a, b);
      if n == |b| < |a| || (n < |a| && n < |b| && b[n] < a[n]) {
        LexLessAt(b, a, n);
      } else {
        assert a == a[..n] && b == b[..n];
        LexIrreflexive(a);
      }
    }
  }
}
