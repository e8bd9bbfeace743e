// Huffman (strings/huffman-compression): compress counts the characters of
// the input, builds the Huffman trie with a min-priority queue on frequencies,
// derives the code table (left = '0', right = '1'), writes the trie in
// preorder ('0' for an internal node, '1' and eight binary digits for a leaf)
// and concatenates the codes of the input characters. expand reads the trie
// back and walks it once per decoded character. Characters are codes below
// R = 256; bits are the characters '0' and '1'.
module Huffman {
  import opened Common
  import MinPriorityQueue

  const R: int := 256
  const Underflow := "Priority queue underflow"
  const StackOverflow := "RangeError: Maximum call stack size exceeded"
  const NoProgress := "expand does not terminate: a one-leaf trie never advances i"

  /** A trie node: a leaf holds a character, an internal node '\0' and two children; both carry a frequency. */
  datatype Node = Leaf(ch: char, freq: int) | Internal(ch: char, freq: int, left: Node, right: Node)

  /** The character with code c, for c below R: `String.fromCharCode(c)`. */
  function Char(c: int): (ch: char)
    requires 0 <= c < R
    ensures ch as int == c
  {
    c as char
  }

  function Min(a: int, b: int): int
  {
    if a <= b then a else b
  }

  // ---------------------------------------------------------------- byte strings

  /** s is made of the binary digits '0' and '1'. */
  predicate IsBits(s: string)
  {
    forall i :: 0 <= i < |s| ==> s[i] == '0' || s[i] == '1'
  }

  lemma BitsConcat(a: string, b: string)
    requires IsBits(a) && IsBits(b)
    ensures IsBits(a + b)
  {
    assert forall i :: 0 <= i < |a + b| ==> (a + b)[i] == if i < |a| then a[i] else b[i - |a|];
  }

  function Pow2(k: nat): nat
  {
    if k == 0 then 1 else 2 * Pow2(k - 1)
  }

  lemma {:induction false} Pow2Mono(j: nat, k: nat)
    requires j <= k
    ensures Pow2(j) <= Pow2(k)
  {
    if j < k {
      Pow2Mono(j, k - 1);
    }
  }

  /** parseInt(s, 2) on binary digits, most significant first; the empty string counts 0, as fromCharCode(NaN) does. */
  function BitsValue(s: string): (v: nat)
    ensures v < Pow2(|s|)
  {
    if |s| == 0 then 0
    else 2 * BitsValue(s[..|s| - 1]) + (if s[|s| - 1] == '1' then 1 else 0)
  }

  function Digit(b: int): char
    requires 0 <= b < 2
  {
    if b == 0 then '0' else '1'
  }

  /** n.toString(2): the binary digits of n, without leading zeros. */
  function BinaryDigits(n: nat): (s: string)
    ensures 1 <= |s| && IsBits(s) && BitsValue(s) == n
    decreases n
  {
    if n < 2 then [Digit(n)]
    else
      var s := BinaryDigits(n / 2) + [Digit(n % 2)];
      assert s[..|s| - 1] == BinaryDigits(n / 2);
      s
  }

  /** A number below 2^k has at most k binary digits. */
  lemma {:induction false} DigitsLength(n: nat, k: nat)
    requires 1 <= k && n < Pow2(k)
    ensures |BinaryDigits(n)| <= k
    decreases n
  {
    if n >= 2 {
      DigitsLength(n / 2, k - 1);
    }
  }

  function Zeros(k: nat): (z: string)
    ensures |z| == k && IsBits(z) && BitsValue(z) == 0
  {
    if k == 0 then ""
    else
      var z := Zeros(k - 1) + "0";
      assert z[..k - 1] == Zeros(k - 1);
      z
  }

  /** Leading zeros do not change the value. */
  lemma {:induction false} ZerosPrefix(k: nat, s: string)
    ensures BitsValue(Zeros(k) + s) == BitsValue(s)
  {
    if |s| > 0 {
      ZerosPrefix(k, s[..|s| - 1]);
      assert (Zeros(k) + s)[..|Zeros(k) + s| - 1] == Zeros(k) + s[..|s| - 1];
    } else {
      assert Zeros(k) + s == Zeros(k);
    }
  }

  /** A code below R has at most eight binary digits. */
  lemma ByteDigits(c: char)
    ensures c as int < R ==> |BinaryDigits(c as int)| <= 8
  {
    if c as int < R {
      DigitsLength(c as int, 8);
    }
  }

  /** padStart(8, '0'). */
  function PadStart8(s: string): string
  {
    if |s| >= 8 then s else Zeros(8 - |s|) + s
  }

  /** Padding keeps the digits binary and the value, and makes at most eight digits eight. */
  lemma PadBits(d: string)
    requires IsBits(d)
    ensures IsBits(PadStart8(d)) && BitsValue(PadStart8(d)) == BitsValue(d)
    ensures |d| <= 8 ==> |PadStart8(d)| == 8
  {
    if |d| < 8 {
      ZerosPrefix(8 - |d|, d);
      BitsConcat(Zeros(8 - |d|), d);
    }
  }

  /** toByteString(char): the binary digits of the code, padded to eight; exactly eight for a code below R. */
  function ToByteString(c: char): (r: string)
    ensures IsBits(r) && BitsValue(r) == c as int
    ensures c as int < R ==> |r| == 8
  {
    var d := BinaryDigits(c as int);
    ByteDigits(c);
    PadBits(d);
    PadStart8(d)
  }

  /** fromByteString(bytes) on at most eight binary digits: the character with that code. */
  function FromByteString(bytes: string): (c: char)
    requires IsBits(bytes) && |bytes| <= 8
    ensures c as int == BitsValue(bytes)
  {
    Pow2Mono(|bytes|, 8);
    BitsValue(bytes) as char
  }

  /** fromByteString inverts toByteString for every code below R. */
  lemma ByteRoundTrip(c: char)
    requires c as int < R
    ensures FromByteString(ToByteString(c)) == c
  {
  }

  /** Two binary strings of one length with the same value are the same string. */
  lemma {:induction false} BitsInjective(a: string, b: string)
    requires IsBits(a) && IsBits(b) && |a| == |b| && BitsValue(a) == BitsValue(b)
    ensures a == b
  {
    if |a| > 0 {
      var n := |a| - 1;
      assert a[n] == b[n];
      BitsInjective(a[..n], b[..n]);
      assert a == a[..n] + [a[n]] && b == b[..n] + [b[n]];
    }
  }

  /** toByteString inverts fromByteString on every string of eight binary digits. */
  lemma ByteStringRoundTrip(bytes: string)
    requires IsBits(bytes) && |bytes| == 8
    ensures ToByteString(FromByteString(bytes)) == bytes
  {
    var c := FromByteString(bytes);
    Pow2Mono(8, 8);
    BitsInjective(ToByteString(c), bytes);
  }

  // ---------------------------------------------------------------- the trie

  /** Every leaf holds a character below R. */
  predicate ValidTrie(x: Node)
  {
    match x
    case Leaf(c, _) => c as int < R
    case Internal(_, _, l, r) => ValidTrie(l) && ValidTrie(r)
  }

  /** The characters of the leaves, with multiplicity. */
  function Leaves(x: Node): multiset<char>
  {
    match x
    case Leaf(c, _) => multiset{c}
    case Internal(_, _, l, r) => Leaves(l) + Leaves(r)
  }

  /** writeTrie(x): preorder, '0' for an internal node, '1' and the eight bits of the character for a leaf. */
  function WriteTrie(x: Node): (s: string)
    ensures IsBits(s) && |s| >= 1
  {
    match x
    case Leaf(c, _) =>
      BitsConcat("1", ToByteString(c));
      "1" + ToByteString(c)
    case Internal(_, _, l, r) =>
      BitsConcat(WriteTrie(l), WriteTrie(r));
      BitsConcat("0", WriteTrie(l) + WriteTrie(r));
      "0" + (WriteTrie(l) + WriteTrie(r))
  }

  /** The trie as readTrie rebuilds it: the same shape and leaf characters, every frequency 0, internal characters '\0'. */
  function Blank(x: Node): Node
  {
    match x
    case Leaf(c, _) => Leaf(c, 0)
    case Internal(_, _, l, r) => Internal('\0', 0, Blank(l), Blank(r))
  }

  /**
   * decode(enc): '1' and up to eight more digits make a leaf; anything else an internal node whose
   * children follow. Running out of digits recurses without end, the stack overflow of the source.
   */
  function Decode(enc: string): (r: Result<(Node, string), string>)
    requires IsBits(enc)
    ensures r.Ok? ==> |r.value.1| < |enc| && IsBits(r.value.1)
    decreases |enc|
  {
    if |enc| == 0 then Err(StackOverflow)
    else if enc[0] == '1' then
      var n := Min(8, |enc| - 1);
      Ok((Leaf(FromByteString(enc[1..1 + n]), 0), enc[1 + n..]))
    else
      match Decode(enc[1..])
      case Err(e) => Err(e)
      case Ok(lr) =>
        match Decode(lr.1)
        case Err(e) => Err(e)
        case Ok(rr) => Ok((Internal('\0', 0, lr.0, rr.0), rr.1))
  }

  /** readTrie(encoded): the trie decoded from the front of encoded; digits after it are ignored. */
  function ReadTrie(encoded: string): Result<Node, string>
    requires IsBits(encoded)
  {
    match Decode(encoded)
    case Err(e) => Err(e)
    case Ok(tr) => Ok(tr.0)
  }

  /** Decoding a written trie gives the trie back, blanked, and leaves what follows it. */
  lemma {:induction false} DecodeWrite(x: Node, rest: string)
    requires ValidTrie(x) && IsBits(rest)
    ensures IsBits(WriteTrie(x) + rest)
    ensures Decode(WriteTrie(x) + rest) == Ok((Blank(x), rest))
  {
    var enc := WriteTrie(x) + rest;
    BitsConcat(WriteTrie(x), rest);
    match x
    case Leaf(c, _) =>
      assert enc[0] == '1' && enc[1..9] == ToByteString(c) && enc[9..] == rest;
      ByteRoundTrip(c);
    case Internal(_, _, l, r) =>
      var wl, wr := WriteTrie(l), WriteTrie(r);
      BitsConcat(wr, rest);
      DecodeWrite(r, rest);
      DecodeWrite(l, wr + rest);
      assert WriteTrie(x) == "0" + (wl + wr);
      Regroup("0", wl, wr, rest);
  }

  /** Regrouping a concatenation of four strings, and dropping the first. */
  lemma Regroup(a: string, b: string, c: string, d: string)
    ensures (a + (b + c)) + d == a + (b + (c + d))
    ensures (a + (b + (c + d)))[|a|..] == b + (c + d)
  {
  }

  /** readTrie(writeTrie(x)) has x's shape and leaf characters, with frequencies reset to 0. */
  lemma ReadWrite(x: Node)
    requires ValidTrie(x)
    ensures ReadTrie(WriteTrie(x)) == Ok(Blank(x))
  {
    DecodeWrite(x, "");
    assert WriteTrie(x) + "" == WriteTrie(x);
  }

  // ---------------------------------------------------------------- codes

  /** Each leaf with its path from the root, s extended by '0' to the left and '1' to the right, left to right. */
  function LeafPaths(x: Node, s: string): seq<(char, string)>
  {
    match x
    case Leaf(c, _) => [(c, s)]
    case Internal(_, _, l, r) => LeafPaths(l, s + "0") + LeafPaths(r, s + "1")
  }

  /** a is a prefix of b. */
  predicate IsPrefix(a: string, b: string)
  {
    |a| <= |b| && b[..|a|] == a
  }

  /** Every leaf path extends s; below an internal node, strictly. */
  lemma {:induction false} PathsExtend(x: Node, s: string)
    ensures forall e :: e in LeafPaths(x, s) ==> IsPrefix(s, e.1) && (x.Internal? ==> |e.1| > |s|)
  {
    if x.Internal? {
      PathsExtend(x.left, s + "0");
      PathsExtend(x.right, s + "1");
      forall e | e in LeafPaths(x, s)
        ensures IsPrefix(s, e.1) && |e.1| > |s|
      {
        if e in LeafPaths(x.left, s + "0") {
          assert e.1[..|s|] == e.1[..|s| + 1][..|s|];
        } else {
          assert e.1[..|s|] == e.1[..|s| + 1][..|s|];
        }
      }
    }
  }

  /** One leaf path of x extends s. */
  lemma PathExtends(x: Node, s: string, e: (char, string))
    requires e in LeafPaths(x, s)
    ensures IsPrefix(s, e.1)
  {
    PathsExtend(x, s);
  }

  /** The leaf paths are prefix-free: no path is a prefix of another leaf's. */
  lemma {:induction false} PrefixFree(x: Node, s: string)
    ensures forall i, j :: 0 <= i < |LeafPaths(x, s)| && 0 <= j < |LeafPaths(x, s)| && i != j ==>
      !IsPrefix(LeafPaths(x, s)[i].1, LeafPaths(x, s)[j].1)
  {
    if x.Internal? {
      var L, Rt := LeafPaths(x.left, s + "0"), LeafPaths(x.right, s + "1");
      PrefixFree(x.left, s + "0");
      PrefixFree(x.right, s + "1");
      PathsExtend(x.left, s + "0");
      PathsExtend(x.right, s + "1");
      var P := L + Rt;
      forall i, j | 0 <= i < |P| && 0 <= j < |P| && i != j
        ensures !IsPrefix(P[i].1, P[j].1)
      {
        if (i < |L|) != (j < |L|) {
          var a, b := P[i].1, P[j].1;
          assert P[i] in L + Rt && P[j] in L + Rt;
          assert IsPrefix(s + "0", a) || IsPrefix(s + "1", a);
          assert a[|s|] != b[|s|] by {
            if i < |L| {
              assert P[i] in L && P[j] in Rt;
              assert a[..|s| + 1][|s|] == '0' && b[..|s| + 1][|s|] == '1';
            } else {
              assert P[i] in Rt && P[j] in L;
              assert a[..|s| + 1][|s|] == '1' && b[..|s| + 1][|s|] == '0';
            }
          }
        } else if i < |L| {
          assert P[i] == L[i] && P[j] == L[j];
        } else {
          assert P[i] == Rt[i - |L|] && P[j] == Rt[j - |L|];
        }
      }
    }
  }

  /** The leaf characters are the characters of the leaf paths. */
  lemma {:induction false} PathChars(x: Node, s: string)
    ensures forall e :: e in LeafPaths(x, s) ==> e.0 in Leaves(x)
    ensures forall c :: c in Leaves(x) ==> exists e :: e in LeafPaths(x, s) && e.0 == c
  {
    if x.Internal? {
      var L, Rt := LeafPaths(x.left, s + "0"), LeafPaths(x.right, s + "1");
      PathChars(x.left, s + "0");
      PathChars(x.right, s + "1");
      forall e | e in LeafPaths(x, s)
        ensures e.0 in Leaves(x)
      {
        if e in L {
          assert e.0 in Leaves(x.left);
        } else {
          assert e in Rt && e.0 in Leaves(x.right);
        }
      }
      forall c | c in Leaves(x)
        ensures exists e :: e in LeafPaths(x, s) && e.0 == c
      {
        if c in Leaves(x.left) {
          var e :| e in L && e.0 == c;
          assert e in LeafPaths(x, s);
        } else {
          assert c in Leaves(x.right);
          var e :| e in Rt && e.0 == c;
          assert e in LeafPaths(x, s);
        }
      }
    } else {
      assert LeafPaths(x, s)[0] == (x.ch, s);
    }
  }

  /** buildCode(st, x, s) as a function of the table: each leaf's entry becomes its path. */
  function CodeTable(st: seq<Option<string>>, x: Node, s: string): (t: seq<Option<string>>)
    requires |st| == R && ValidTrie(x)
    ensures |t| == R
    decreases x
  {
    match x
    case Leaf(c, _) => st[c as int := Some(s)]
    case Internal(_, _, l, r) => CodeTable(CodeTable(st, l, s + "0"), r, s + "1")
  }

  /** No character is on two leaves. */
  ghost predicate DistinctLeaves(x: Node)
  {
    forall c :: Leaves(x)[c] <= 1
  }

  /**
   * With distinct leaf characters, buildCode gives each leaf character its path and leaves every
   * other entry as it was.
   */
  lemma {:induction false} CodeTableSpec(st: seq<Option<string>>, x: Node, s: string)
    requires |st| == R && ValidTrie(x) && DistinctLeaves(x)
    decreases x
    ensures forall e :: e in LeafPaths(x, s) ==> e.0 as int < R && CodeTable(st, x, s)[e.0 as int] == Some(e.1)
    ensures forall c :: 0 <= c < R && Char(c) !in Leaves(x) ==> CodeTable(st, x, s)[c] == st[c]
  {
    if x.Internal? {
      var l, r := x.left, x.right;
      assert DistinctLeaves(l) && DistinctLeaves(r) by {
        forall c ensures Leaves(l)[c] <= 1 && Leaves(r)[c] <= 1 {
          assert Leaves(x)[c] == Leaves(l)[c] + Leaves(r)[c];
        }
      }
      var mid := CodeTable(st, l, s + "0");
      CodeTableSpec(st, l, s + "0");
      CodeTableSpec(mid, r, s + "1");
      PathChars(l, s + "0");
      PathChars(r, s + "1");
      forall e | e in LeafPaths(l, s + "0")
        ensures CodeTable(mid, r, s + "1")[e.0 as int] == Some(e.1)
      {
        assert Leaves(x)[e.0] == Leaves(l)[e.0] + Leaves(r)[e.0];
        assert Char(e.0 as int) == e.0;
      }
    }
  }

  /** The code table compress builds: buildCode from the root into R undefined entries. */
  function Codes(root: Node): (t: seq<Option<string>>)
    requires ValidTrie(root)
    ensures |t| == R
  {
    CodeTable(seq(R, _ => None), root, "")
  }

  /**
   * With distinct leaf characters, a character has a code exactly when it is on a leaf, its code is
   * that leaf's path, and the codes of two characters are never prefixes of one another.
   */
  lemma CodesPrefixFree(root: Node)
    requires ValidTrie(root) && DistinctLeaves(root)
    ensures forall c :: 0 <= c < R ==> (Codes(root)[c].Some? <==> Char(c) in Leaves(root))
    ensures forall c :: 0 <= c < R && Codes(root)[c].Some? ==> (Char(c), Codes(root)[c].value) in LeafPaths(root, "")
    ensures forall c, d :: 0 <= c < R && 0 <= d < R && c != d && Codes(root)[c].Some? && Codes(root)[d].Some? ==>
      !IsPrefix(Codes(root)[c].value, Codes(root)[d].value)
  {
    var P := LeafPaths(root, "");
    CodesPaths(root);
    PrefixFree(root, "");
    forall c, d | 0 <= c < R && 0 <= d < R && c != d && Codes(root)[c].Some? && Codes(root)[d].Some?
      ensures !IsPrefix(Codes(root)[c].value, Codes(root)[d].value)
    {
      var ec, ed := CodeOf(P, Char(c)), CodeOf(P, Char(d));
      var i :| 0 <= i < |P| && P[i] == ec;
      var j :| 0 <= j < |P| && P[j] == ed;
    }
  }

  /** With distinct leaf characters, a character has a code exactly when it is on a leaf, and the code is its path. */
  lemma CodesPaths(root: Node)
    requires ValidTrie(root) && DistinctLeaves(root)
    ensures forall c :: 0 <= c < R ==> (Codes(root)[c].Some? <==> Char(c) in Leaves(root))
    ensures forall c :: 0 <= c < R && Codes(root)[c].Some? ==> (Char(c), Codes(root)[c].value) in LeafPaths(root, "")
  {
    var P := LeafPaths(root, "");
    CodeTableSpec(seq(R, _ => None), root, "");
    PathChars(root, "");
    forall c | 0 <= c < R && Char(c) in Leaves(root)
      ensures Codes(root)[c] == Some(CodeOf(P, Char(c)).1) && CodeOf(P, Char(c)) in P
    {
      var e := CodeOf(P, Char(c));
    }
  }

  /** The path entry of a leaf character. */
  ghost function CodeOf(P: seq<(char, string)>, c: char): (e: (char, string))
    requires exists e :: e in P && e.0 == c
    ensures e in P && e.0 == c
  {
    var e :| e in P && e.0 == c; e
  }

  // ---------------------------------------------------------------- expanding

  /**
   * The inner loop of expand from node x at position j of bits: '1' goes right and anything else,
   * including the '' that charAt gives past the end, goes left. The leaf reached and the position after it.
   */
  function Walk(x: Node, bits: string, j: nat): (r: (char, nat))
    ensures x.Internal? ==> r.1 > j
    ensures x.Leaf? ==> r == (x.ch, j)
    decreases x
  {
    match x
    case Leaf(c, _) => (c, j)
    case Internal(_, _, l, rt) => Walk(if j < |bits| && bits[j] == '1' then rt else l, bits, j + 1)
  }

  /** From x, bits that continue at j with the rest of a leaf's path lead to that leaf, just past the path. */
  lemma {:induction false} WalkPath(x: Node, s: string, e: (char, string), bits: string, j: nat)
    requires e in LeafPaths(x, s) && IsPrefix(s, e.1)
    requires j + |e.1| - |s| <= |bits| && bits[j..j + |e.1| - |s|] == e.1[|s|..]
    ensures Walk(x, bits, j) == (e.0, j + |e.1| - |s|)
    decreases x
  {
    if x.Internal? {
      if e in LeafPaths(x.left, s + "0") {
        PathExtends(x.left, s + "0", e);
        StepBits(bits, j, e.1, |s|);
        PrefixNext(s, '0', e.1);
        assert Walk(x, bits, j) == Walk(x.left, bits, j + 1);
        WalkPath(x.left, s + "0", e, bits, j + 1);
        assert |s + "0"| == |s| + 1;
      } else {
        PathExtends(x.right, s + "1", e);
        StepBits(bits, j, e.1, |s|);
        PrefixNext(s, '1', e.1);
        assert Walk(x, bits, j) == Walk(x.right, bits, j + 1);
        WalkPath(x.right, s + "1", e, bits, j + 1);
        assert |s + "1"| == |s| + 1;
      }
    } else {
      assert e == (x.ch, s);
    }
  }

  /** Bits that match the rest of p from m on: their first bit is p[m], and the bits after it match from m + 1. */
  lemma StepBits(bits: string, j: nat, p: string, m: nat)
    requires m < |p| && j + |p| - m <= |bits| && bits[j..j + |p| - m] == p[m..]
    ensures bits[j] == p[m] && bits[j + 1..j + |p| - m] == p[m + 1..]
  {
    assert bits[j] == bits[j..j + |p| - m][0];
    assert bits[j + 1..j + |p| - m] == bits[j..j + |p| - m][1..];
  }

  /** A string that extends s with c has c right after s. */
  lemma PrefixNext(s: string, c: char, t: string)
    requires IsPrefix(s + [c], t)
    ensures t[|s|] == c
  {
    assert t[|s|] == t[..|s| + 1][|s|];
  }

  /** The characters expand decodes from position i of bits on with an internal root, one walk per character. */
  function ExpandFrom(root: Node, bits: string, i: nat): string
    requires root.Internal?
    decreases |bits| - i
  {
    if i >= |bits| then ""
    else
      var w := Walk(root, bits, i);
      [w.0] + ExpandFrom(root, bits, w.1)
  }

  /**
   * expand(encodedTrie, compressedText): the characters decoded with the trie read from encodedTrie.
   * A one-leaf trie never moves i forward, so any text makes the source loop forever.
   */
  function ExpandSpec(encodedTrie: string, text: string): Result<string, string>
    requires IsBits(encodedTrie)
  {
    match ReadTrie(encodedTrie)
    case Err(e) => Err(e)
    case Ok(root) =>
      if root.Internal? then Ok(ExpandFrom(root, text, 0))
      else if |text| == 0 then Ok("")
      else Err(NoProgress)
  }

  /** expand(encodedTrie, compressedText) with its two loops. */
  method Expand(encodedTrie: string, compressedText: string) returns (r: Result<string, string>)
    requires IsBits(encodedTrie)
    ensures r == ExpandSpec(encodedTrie, compressedText)
  {
    var t := ReadTrie(encodedTrie);
    if t.Err? {
      return Err(t.error);
    }
    var root := t.value;
    if root.Leaf? {
      if |compressedText| > 0 {
        return Err(NoProgress);
      }
      return Ok("");
    }
    var text := compressedText;
    var expanded: string := "";
    var i: nat := 0;
    while i < |text|
      invariant expanded + ExpandFrom(root, text, i) == ExpandFrom(root, text, 0)
      decreases |text| - i
    {
      var j: nat := 0;
      var x := root;
      while x.Internal?
        invariant Walk(root, text, i) == Walk(x, text, i + j)
        decreases x
      {
        if i + j < |text| && text[i + j] == '1' {
          x := x.right;
        } else {
          x := x.left;
        }
        j := j + 1;
      }
      assert (expanded + [x.ch]) + ExpandFrom(root, text, i + j) == expanded + ExpandFrom(root, text, i);
      expanded := expanded + [x.ch];
      i := i + j;
    }
    assert expanded + ExpandFrom(root, text, i) == expanded;
    return Ok(expanded);
  }

  // ---------------------------------------------------------------- building the trie

  /** Every internal node's frequency is the sum of its children's. */
  predicate FreqSums(x: Node)
  {
    match x
    case Leaf(_, _) => true
    case Internal(_, f, l, r) => f == l.freq + r.freq && FreqSums(l) && FreqSums(r)
  }

  /** Every leaf holds a character below R with its count from freq. */
  predicate LeafFreqs(x: Node, freq: seq<int>)
    requires |freq| == R
  {
    match x
    case Leaf(c, f) => c as int < R && f == freq[c as int]
    case Internal(_, _, l, r) => LeafFreqs(l, freq) && LeafFreqs(r, freq)
  }

  /** The characters below c with a positive count, in ascending order. */
  function Present(freq: seq<int>, c: int): (s: seq<char>)
    requires |freq| == R && 0 <= c <= R
  {
    if c == 0 then []
    else Present(freq, c - 1) + (if freq[c - 1] > 0 then [Char(c - 1)] else [])
  }

  /** Present counts a character once when its count is positive, else not at all. */
  lemma {:induction false} PresentCount(freq: seq<int>, c: int, ch: char)
    requires |freq| == R && 0 <= c <= R
    ensures multiset(Present(freq, c))[ch] == if ch as int < c && freq[ch as int] > 0 then 1 else 0
  {
    if c > 0 {
      PresentCount(freq, c - 1, ch);
      var p := Present(freq, c - 1);
      var t := if freq[c - 1] > 0 then [Char(c - 1)] else [];
      assert Present(freq, c) == p + t;
      assert multiset(p + t) == multiset(p) + multiset(t);
      assert multiset(t)[ch] == if ch as int == c - 1 && freq[c - 1] > 0 then 1 else 0;
    }
  }

  /** Multiset union is commutative and associative. */
  lemma UnionLaws<T>(a: multiset<T>, b: multiset<T>, c: multiset<T>)
    ensures a + b == b + a
    ensures a + (b + c) == (a + b) + c
    ensures a + (b + c) == b + (a + c)
  {
  }

  /** The leaves of a forest of tries, with multiplicity. */
  function ForestLeaves(f: seq<Node>): multiset<char>
  {
    if |f| == 0 then multiset{} else ForestLeaves(f[..|f| - 1]) + Leaves(f[|f| - 1])
  }

  lemma ForestAppend(f: seq<Node>, x: Node)
    ensures ForestLeaves(f + [x]) == ForestLeaves(f) + Leaves(x)
  {
    assert (f + [x])[..|f|] == f;
  }

  lemma {:induction false} ForestConcat(a: seq<Node>, b: seq<Node>)
    ensures ForestLeaves(a + b) == ForestLeaves(a) + ForestLeaves(b)
  {
    if |b| == 0 {
      assert a + b == a;
    } else {
      var b' := b[..|b| - 1];
      ForestConcat(a, b');
      assert (a + b)[..|a + b| - 1] == a + b' && (a + b)[|a + b| - 1] == b[|b| - 1];
      var p, q, x := ForestLeaves(a), ForestLeaves(b'), Leaves(b[|b| - 1]);
      assert ForestLeaves(a + b) == (p + q) + x;
      assert ForestLeaves(b) == q + x;
      UnionLaws(p, q, x);
    }
  }

  /** Taking the k-th trie out of a forest takes its leaves out of the forest's. */
  lemma ForestRemove(f: seq<Node>, k: int)
    requires 0 <= k < |f|
    ensures ForestLeaves(f) == Leaves(f[k]) + ForestLeaves(f[..k] + f[k + 1..])
    ensures multiset(f[..k] + f[k + 1..]) == multiset(f) - multiset{f[k]}
  {
    var a, b := f[..k], f[k + 1..];
    assert f[k..] == [f[k]] + b by {
      assert f[k..][1..] == b;
    }
    assert f == a + f[k..];
    ForestConcat(a, [f[k]] + b);
    ForestConcat([f[k]], b);
    ForestConcat(a, b);
    ForestAppend([], f[k]);
    assert [] + [f[k]] == [f[k]];
    var p, l, q := ForestLeaves(a), Leaves(f[k]), ForestLeaves(b);
    assert ForestLeaves(f) == p + (l + q);
    UnionLaws(p, l, q);
    SeqRemove(f, k);
  }

  /** Taking the k-th element out of a sequence takes one occurrence out of its multiset. */
  lemma SeqRemove<T>(f: seq<T>, k: int)
    requires 0 <= k < |f|
    ensures multiset(f[..k] + f[k + 1..]) == multiset(f) - multiset{f[k]}
  {
    var a, b := f[..k], f[k + 1..];
    assert f == a + [f[k]] + b;
    var A, X, B := multiset(a), multiset{f[k]}, multiset(b);
    assert multiset(f) == A + X + B;
    assert (A + X + B) - X == A + B;
  }

  /** A leaf or an internal node has at least one leaf. */
  lemma {:induction false} LeavesNonEmpty(x: Node)
    ensures |Leaves(x)| >= 1
  {
    if x.Internal? {
      LeavesNonEmpty(x.left);
    }
  }

  /** A well-formed piece of the code trie for freq. */
  predicate TrieOk(x: Node, freq: seq<int>)
    requires |freq| == R
  {
    ValidTrie(x) && FreqSums(x) && LeafFreqs(x, freq)
  }

  /** Every trie of the forest is a well-formed piece of the code trie for freq. */
  predicate ForestOk(f: seq<Node>, freq: seq<int>)
    requires |freq| == R
  {
    |f| == 0 || (ForestOk(f[..|f| - 1], freq) && TrieOk(f[|f| - 1], freq))
  }

  /** A forest is well formed exactly when each of its tries is. */
  lemma {:induction false} ForestOkAll(f: seq<Node>, freq: seq<int>)
    requires |freq| == R
    ensures ForestOk(f, freq) <==> forall z :: z in f ==> TrieOk(z, freq)
  {
    if |f| > 0 {
      var g := f[..|f| - 1];
      ForestOkAll(g, freq);
      assert f == g + [f[|f| - 1]];
      assert forall z :: z in f <==> z in g || z == f[|f| - 1];
    }
  }

  /** The queue's own invariant and the forest it holds. */
  ghost predicate Building(pq: MinPriorityQueue.PQMin<Node>, forest: seq<Node>, freq: seq<int>)
    reads pq
    requires |freq| == R
  {
    multiset(forest) == pq.Contents && ForestOk(forest, freq)
  }

  function FreqKey(x: Node): int
  {
    x.freq
  }

  /** The forest with x and then y taken out. */
  lemma TakeTwo(forest: seq<Node>, x: Node, y: Node) returns (f2: seq<Node>)
    requires x in multiset(forest) && y in multiset(forest) - multiset{x}
    ensures multiset(f2) == multiset(forest) - multiset{x} - multiset{y}
    ensures ForestLeaves(forest) == Leaves(x) + (Leaves(y) + ForestLeaves(f2))
    ensures forall z :: z in f2 ==> z in forest
  {
    var k :| 0 <= k < |forest| && forest[k] == x;
    ForestRemove(forest, k);
    var f1 := forest[..k] + forest[k + 1..];
    assert y in multiset(f1);
    var m :| 0 <= m < |f1| && f1[m] == y;
    ForestRemove(f1, m);
    f2 := f1[..m] + f1[m + 1..];
    forall z | z in f2
      ensures z in forest
    {
      assert z in multiset(f2);
      assert z in multiset(f1);
      assert z in multiset(forest);
    }
  }

  /** Two tries of the forest taken out and joined under a new parent. */
  lemma Merge(forest: seq<Node>, x: Node, y: Node, freq: seq<int>) returns (forest': seq<Node>)
    requires |freq| == R && ForestOk(forest, freq) && x in multiset(forest) && y in multiset(forest) - multiset{x}
    ensures ForestOk(forest', freq) && ForestLeaves(forest') == ForestLeaves(forest)
    ensures multiset(forest') == multiset(forest) - multiset{x} - multiset{y} + multiset{Internal('\0', x.freq + y.freq, x, y)}
  {
    var f2 := TakeTwo(forest, x, y);
    var parent := Internal('\0', x.freq + y.freq, x, y);
    ForestOkAll(forest, freq);
    ForestOkAll(f2, freq);
    assert TrieOk(parent, freq) by {
      assert x in forest && y in forest;
    }
    ForestAppend(f2, parent);
    forest' := f2 + [parent];
    assert forest'[..|f2|] == f2;
    var lx, ly, l2 := Leaves(x), Leaves(y), ForestLeaves(f2);
    UnionLaws(lx, ly, l2);
    UnionLaws(l2, lx, ly);
  }

  /** The characters below R with a positive count, each once. */
  lemma PresentDistinct(freq: seq<int>)
    requires |freq| == R
    ensures forall ch :: multiset(Present(freq, R))[ch] <= 1
  {
    forall ch
      ensures multiset(Present(freq, R))[ch] <= 1
    {
      PresentCount(freq, R, ch);
    }
  }

  /** No count is positive exactly when no character is present. */
  lemma PresentNone(freq: seq<int>)
    requires |freq| == R
    ensures (forall c :: 0 <= c < R ==> freq[c] <= 0) <==> |Present(freq, R)| == 0
  {
    if |Present(freq, R)| > 0 {
      var ch := Present(freq, R)[0];
      PresentCount(freq, R, ch);
    } else {
      forall c | 0 <= c < R
        ensures freq[c] <= 0
      {
        PresentCount(freq, R, Char(c));
      }
    }
  }

  /**
   * buildTrie(freq) as written: a leaf per character with a positive count, then the two smallest
   * joined until one trie is left; with no character at all the final delMin throws. With a single
   * character the trie is that one leaf.
   */
  method BuildTrieAsWritten(freq: seq<int>) returns (r: Result<Node, string>)
    requires |freq| == R
    ensures r.Err? <==> forall c :: 0 <= c < R ==> freq[c] <= 0
    ensures r.Err? ==> r.error == Underflow
    ensures r.Ok? ==> TrieOk(r.value, freq) && DistinctLeaves(r.value)
    ensures r.Ok? ==> Leaves(r.value) == multiset(Present(freq, R))
  {
    var pq;
    ghost var forest;
    pq, forest := LeafQueue(freq);
    r := JoinAll(pq, forest, freq);
    PresentNone(freq);
    PresentDistinct(freq);
  }

  /** The leaf buildTrie adds beside a single character: '\0', or '\1' when that character is '\0'. */
  function Padding(freq: seq<int>): multiset<char>
    requires |freq| == R
  {
    if |Present(freq, R)| == 1 then multiset{if freq[0] == 0 then '\0' else Char(1)} else multiset{}
  }

  /**
   * buildTrie(freq) with a second leaf of count 0 added when only one character is present, so that
   * every character gets a code of at least one digit. Every leaf is distinct and the root is internal.
   */
  method BuildTrie(freq: seq<int>) returns (r: Result<Node, string>)
    requires |freq| == R && forall c :: 0 <= c < R ==> freq[c] >= 0
    ensures r.Err? <==> forall c :: 0 <= c < R ==> freq[c] <= 0
    ensures r.Err? ==> r.error == Underflow
    ensures r.Ok? ==> TrieOk(r.value, freq) && DistinctLeaves(r.value) && r.value.Internal?
    ensures r.Ok? ==> Leaves(r.value) == multiset(Present(freq, R)) + Padding(freq)
  {
    var pq;
    ghost var forest;
    pq, forest := LeafQueue(freq);
    forest := AddPad(pq, forest, freq);
    r := JoinAll(pq, forest, freq);
    PresentNone(freq);
    if r.Ok? {
      PaddedRoot(r.value, freq);
    }
  }

  /** With a single leaf in the queue, a second leaf of count 0 for '\0', or '\1' when that leaf is '\0'. */
  method AddPad(pq: MinPriorityQueue.PQMin<Node>, ghost forest: seq<Node>, freq: seq<int>) returns (ghost forest': seq<Node>)
    requires |freq| == R && (forall c :: 0 <= c < R ==> freq[c] >= 0)
    requires pq.Valid() && pq.key == FreqKey && Building(pq, forest, freq)
    requires ForestLeaves(forest) == multiset(Present(freq, R)) && |forest| == |Present(freq, R)|
    modifies pq, pq.pq
    ensures pq.Valid() && Building(pq, forest', freq)
    ensures pq.pq == old(pq.pq) || fresh(pq.pq)
    ensures ForestLeaves(forest') == multiset(Present(freq, R)) + Padding(freq)
    ensures |forest'| == 0 <==> |Present(freq, R)| == 0
  {
    forest' := forest;
    assert |multiset(forest)| == |forest|;
    if pq.Size() == 1 {
      var pad := if freq[0] == 0 then Leaf('\0', 0) else Leaf(Char(1), 0);
      PadLeaf(freq, pad);
      pq.Insert(pad);
      forest' := Grow(forest, pad, freq);
    }
  }

  /** The padding leaf is a leaf of the code trie for freq, and its character is the padding. */
  lemma PadLeaf(freq: seq<int>, pad: Node)
    requires |freq| == R && (forall c :: 0 <= c < R ==> freq[c] >= 0) && |Present(freq, R)| == 1
    requires pad == if freq[0] == 0 then Leaf('\0', 0) else Leaf(Char(1), 0)
    ensures TrieOk(pad, freq) && Leaves(pad) == Padding(freq)
  {
    if freq[0] != 0 {
      PadFree(freq);
    }
  }

  /** A trie holding the padded leaves has distinct leaves and is not a single leaf. */
  lemma PaddedRoot(x: Node, freq: seq<int>)
    requires |freq| == R && freq[0] >= 0 && |Present(freq, R)| >= 1
    requires Leaves(x) == multiset(Present(freq, R)) + Padding(freq)
    ensures DistinctLeaves(x) && x.Internal?
  {
    PadDistinct(freq);
    assert |multiset(Present(freq, R))| == |Present(freq, R)|;
  }

  /** When '\0' is the one character present, '\1' is not. */
  lemma PadFree(freq: seq<int>)
    requires |freq| == R && |Present(freq, R)| == 1 && freq[0] > 0
    ensures multiset(Present(freq, R))[Char(1)] == 0 && freq[1] <= 0
  {
    var P := Present(freq, R);
    PresentCount(freq, R, '\0');
    PresentCount(freq, R, Char(1));
    assert P == [P[0]];
    assert P[0] == '\0' by {
      assert '\0' in multiset(P);
    }
  }

  /** The padded leaves are distinct. */
  lemma PadDistinct(freq: seq<int>)
    requires |freq| == R && freq[0] >= 0
    ensures forall ch :: (multiset(Present(freq, R)) + Padding(freq))[ch] <= 1
  {
    PresentDistinct(freq);
    if |Present(freq, R)| == 1 {
      if freq[0] == 0 {
        PresentCount(freq, R, '\0');
        assert Padding(freq) == multiset{'\0'};
      } else {
        PadFree(freq);
        assert Padding(freq) == multiset{Char(1)};
      }
    }
  }

  /**
   * The loop of buildTrie and its final delMin over a queue holding the forest: all the forest's
   * leaves in one trie, or the underflow error when the forest is empty.
   */
  method JoinAll(pq: MinPriorityQueue.PQMin<Node>, ghost forest: seq<Node>, ghost fs: seq<int>) returns (r: Result<Node, string>)
    requires |fs| == R && pq.Valid() && Building(pq, forest, fs)
    modifies pq, pq.pq
    ensures r.Err? <==> |forest| == 0
    ensures r.Err? ==> r.error == Underflow
    ensures r.Ok? ==> TrieOk(r.value, fs) && Leaves(r.value) == ForestLeaves(forest)
  {
    ghost var f := forest;
    while pq.Size() > 1
      invariant pq.Valid() && Building(pq, f, fs) && ForestLeaves(f) == ForestLeaves(forest)
      invariant |forest| > 0 ==> |f| > 0
      invariant |forest| == 0 ==> |f| == 0
      invariant pq.pq == old(pq.pq) || fresh(pq.pq)
      decreases pq.Size()
    {
      f := JoinSmallest(pq, f, fs);
    }
    r := pq.DelMin();
    LastTrie(f, fs, r);
  }

  /** The body of buildTrie's loop: the two smallest tries taken out and put back joined under a parent. */
  method JoinSmallest(pq: MinPriorityQueue.PQMin<Node>, ghost forest: seq<Node>, ghost fs: seq<int>) returns (ghost forest': seq<Node>)
    requires |fs| == R && pq.Valid() && Building(pq, forest, fs) && pq.Size() > 1
    modifies pq, pq.pq
    ensures pq.Valid() && Building(pq, forest', fs) && ForestLeaves(forest') == ForestLeaves(forest)
    ensures pq.Size() == old(pq.Size()) - 1
    ensures pq.pq == old(pq.pq) || fresh(pq.pq)
  {
    var xv, yv := TakeSmallest(pq);
    var parent := Internal('\0', xv.freq + yv.freq, xv, yv);
    forest' := Merge(forest, xv, yv, fs);
    pq.Insert(parent);
  }

  /** The two delMin calls of the second loop of buildTrie: the two smallest tries, taken out of the queue. */
  method TakeSmallest(pq: MinPriorityQueue.PQMin<Node>) returns (x: Node, y: Node)
    requires pq.Valid() && pq.Size() > 1
    modifies pq, pq.pq
    ensures pq.Valid() && x in old(pq.Contents) && y in old(pq.Contents) - multiset{x}
    ensures pq.Contents == old(pq.Contents) - multiset{x} - multiset{y}
    ensures forall z :: z in old(pq.Contents) ==> pq.key(x) <= pq.key(z)
    ensures forall z :: z in old(pq.Contents) - multiset{x} ==> pq.key(y) <= pq.key(z)
    ensures pq.pq == old(pq.pq) || fresh(pq.pq)
  {
    var a := pq.DelMin();
    var b := pq.DelMin();
    x, y := a.value, b.value;
  }

  /** The first half of buildTrie: a queue holding a leaf for each character with a positive count. */
  method LeafQueue(freq: seq<int>) returns (pq: MinPriorityQueue.PQMin<Node>, ghost forest: seq<Node>)
    requires |freq| == R
    ensures fresh(pq) && fresh(pq.pq) && pq.Valid() && pq.key == FreqKey && Building(pq, forest, freq)
    ensures ForestLeaves(forest) == multiset(Present(freq, R)) && |forest| == |Present(freq, R)|
  {
    pq := new MinPriorityQueue.PQMin<Node>(15, FreqKey);
    forest := [];
    for c := 0 to R
      invariant fresh(pq) && fresh(pq.pq) && pq.Valid() && pq.key == FreqKey && Building(pq, forest, freq)
      invariant ForestLeaves(forest) == multiset(Present(freq, c)) && |forest| == |Present(freq, c)|
    {
      forest := PushLeaf(pq, forest, freq, c);
    }
  }

  /** One round of the first loop of buildTrie: a leaf for character c when its count is positive. */
  method PushLeaf(pq: MinPriorityQueue.PQMin<Node>, ghost forest: seq<Node>, freq: seq<int>, c: int) returns (ghost forest': seq<Node>)
    requires |freq| == R && 0 <= c < R && pq.Valid() && Building(pq, forest, freq)
    requires ForestLeaves(forest) == multiset(Present(freq, c)) && |forest| == |Present(freq, c)|
    modifies pq, pq.pq
    ensures pq.Valid() && Building(pq, forest', freq)
    ensures pq.pq == old(pq.pq) || fresh(pq.pq)
    ensures ForestLeaves(forest') == multiset(Present(freq, c + 1)) && |forest'| == |Present(freq, c + 1)|
  {
    PresentStep(freq, c);
    forest' := forest;
    if freq[c] > 0 {
      var leaf := Leaf(Char(c), freq[c]);
      pq.Insert(leaf);
      forest' := Grow(forest, leaf, freq);
    }
  }

  /** A new leaf added to the forest. */
  lemma Grow(forest: seq<Node>, leaf: Node, freq: seq<int>) returns (forest': seq<Node>)
    requires |freq| == R && ForestOk(forest, freq) && TrieOk(leaf, freq)
    ensures forest' == forest + [leaf]
    ensures ForestOk(forest', freq) && ForestLeaves(forest') == ForestLeaves(forest) + Leaves(leaf)
    ensures multiset(forest') == multiset(forest) + multiset{leaf}
  {
    ForestAppend(forest, leaf);
    forest' := forest + [leaf];
    assert forest'[..|forest|] == forest;
  }

  /** One more character code considered by the first loop. */
  lemma PresentStep(freq: seq<int>, c: int)
    requires |freq| == R && 0 <= c < R
    ensures multiset(Present(freq, c + 1)) == multiset(Present(freq, c)) + if freq[c] > 0 then multiset{Char(c)} else multiset{}
    ensures |Present(freq, c + 1)| == |Present(freq, c)| + if freq[c] > 0 then 1 else 0
  {
    var p := Present(freq, c);
    var t := if freq[c] > 0 then [Char(c)] else [];
    assert Present(freq, c + 1) == p + t;
    assert multiset(p + t) == multiset(p) + multiset(t);
  }

  /** The outcome of the final delMin: an empty forest throws, a single trie is the answer. */
  lemma LastTrie(forest: seq<Node>, freq: seq<int>, r: Result<Node, string>)
    requires |freq| == R && |forest| <= 1 && ForestOk(forest, freq)
    requires |forest| == 1 ==> r.Ok? && r.value in multiset(forest)
    ensures r.Ok? && |forest| == 1 ==> TrieOk(r.value, freq) && Leaves(r.value) == ForestLeaves(forest)
  {
    if |forest| == 1 {
      assert r.value == forest[0] && forest[..0] == [];
      ForestAppend([], forest[0]);
      assert [] + [forest[0]] == forest;
    }
  }


  // ---------------------------------------------------------------- compressing

  /** The characters of s below R, in order: the characters compress can code. */
  function Narrow(s: string): (t: string)
    ensures forall i :: 0 <= i < |t| ==> t[i] as int < R
  {
    if |s| == 0 then ""
    else (if s[0] as int < R then [s[0]] else []) + Narrow(s[1..])
  }

  /** s has at most one distinct character below R. */
  predicate AllSame(s: string)
  {
    forall i, j :: 0 <= i < |s| && 0 <= j < |s| && s[i] as int < R && s[j] as int < R ==> s[i] == s[j]
  }

  /** The code st[ch.charCodeAt(0)] pushed for ch; an undefined entry joins as ''. */
  function Piece(st: seq<Option<string>>, ch: char): string
    requires |st| == R
  {
    if ch as int < R && st[ch as int].Some? then st[ch as int].value else ""
  }

  /** The compressed text: the codes of the characters of s, joined. */
  function EncodeText(st: seq<Option<string>>, s: string): string
    requires |st| == R
  {
    if |s| == 0 then "" else Piece(st, s[0]) + EncodeText(st, s[1..])
  }

  lemma {:induction false} EncodeSnoc(st: seq<Option<string>>, s: string, ch: char)
    requires |st| == R
    ensures EncodeText(st, s + [ch]) == EncodeText(st, s) + Piece(st, ch)
  {
    var u := s + [ch];
    if |s| == 0 {
      assert u[1..] == [];
    } else {
      var t := s[1..];
      EncodeSnoc(st, t, ch);
      assert u[0] == s[0] && u[1..] == t + [ch];
      AppendAssoc(Piece(st, s[0]), EncodeText(st, t), Piece(st, ch));
    }
  }

  /** The sum over the codes c below k of freq[c] times the length of c's code. */
  function Cost(freq: seq<int>, st: seq<Option<string>>, k: int): int
    requires |freq| == R && |st| == R && 0 <= k <= R
  {
    if k == 0 then 0 else Cost(freq, st, k - 1) + freq[k - 1] * |Piece(st, Char(k - 1))|
  }

  /** The same sum with the counts taken from s. */
  function Weighted(st: seq<Option<string>>, s: string, k: int): (w: nat)
    requires |st| == R && 0 <= k <= R
  {
    if k == 0 then 0 else Weighted(st, s, k - 1) + multiset(s)[Char(k - 1)] * |Piece(st, Char(k - 1))|
  }

  /** One more ch in s adds the length of its code when ch is below k. */
  lemma {:induction false} WeightedSnoc(st: seq<Option<string>>, s: string, ch: char, k: int)
    requires |st| == R && 0 <= k <= R
    ensures Weighted(st, s + [ch], k) == Weighted(st, s, k) + if ch as int < k then |Piece(st, ch)| else 0
  {
    if k > 0 {
      WeightedSnoc(st, s, ch, k - 1);
      var c := Char(k - 1);
      var w := |Piece(st, c)|;
      assert multiset(s + [ch]) == multiset(s) + multiset{ch};
      if ch == c {
        assert multiset(s + [ch])[c] == multiset(s)[c] + 1;
        assert (multiset(s)[c] + 1) * w == multiset(s)[c] * w + w;
      } else {
        assert multiset(s + [ch])[c] == multiset(s)[c];
        assert ch as int != k - 1;
      }
    }
  }

  /** Nothing is counted in the empty text. */
  lemma {:induction false} WeightedEmpty(st: seq<Option<string>>, k: int)
    requires |st| == R && 0 <= k <= R
    ensures Weighted(st, "", k) == 0
  {
    if k > 0 {
      WeightedEmpty(st, k - 1);
    }
  }

  /** The compressed text is as long as the lengths of the codes weighted by their counts in s. */
  lemma {:induction false} EncodedLength(st: seq<Option<string>>, s: string)
    requires |st| == R
    ensures |EncodeText(st, s)| == Weighted(st, s, R)
    decreases |s|
  {
    if |s| == 0 {
      WeightedEmpty(st, R);
    } else {
      var t, ch := s[..|s| - 1], s[|s| - 1];
      assert s == t + [ch];
      EncodedLength(st, t);
      EncodeSnoc(st, t, ch);
      WeightedSnoc(st, t, ch, R);
      assert ch as int >= R ==> Piece(st, ch) == "";
    }
  }

  /** Counts that are those of s give the same weighted sum. */
  lemma {:induction false} CostOfCounts(freq: seq<int>, st: seq<Option<string>>, s: string, k: int)
    requires |freq| == R && |st| == R && 0 <= k <= R
    requires forall c :: 0 <= c < R ==> freq[c] == multiset(s)[Char(c)]
    ensures Cost(freq, st, k) == Weighted(st, s, k)
  {
    if k > 0 {
      CostOfCounts(freq, st, s, k - 1);
    }
  }

  /** With the counts compress tabulates, the compressed text has length Σ freq[c] · |code of c|. */
  lemma CompressedLength(input: string, freq: seq<int>, root: Node)
    requires |freq| == R && ValidTrie(root)
    requires forall c :: 0 <= c < R ==> freq[c] == multiset(input)[Char(c)]
    ensures |EncodeText(Codes(root), input)| == Cost(freq, Codes(root), R)
  {
    EncodedLength(Codes(root), input);
    CostOfCounts(freq, Codes(root), input, R);
  }

  /** Blanking a trie keeps its leaf paths. */
  lemma {:induction false} BlankPaths(x: Node, s: string)
    ensures LeafPaths(Blank(x), s) == LeafPaths(x, s)
  {
    if x.Internal? {
      BlankPaths(x.left, s + "0");
      BlankPaths(x.right, s + "1");
    }
  }

  /**
   * Expanding the codes of s from just after p, with the blanked trie, gives back the characters of
   * s below R: each code leads from the root to its own leaf.
   */
  lemma {:induction false} ExpandEncoded(root: Node, p: string, s: string)
    requires root.Internal? && ValidTrie(root) && DistinctLeaves(root)
    requires forall i :: 0 <= i < |s| && s[i] as int < R ==> s[i] in Leaves(root)
    ensures ExpandFrom(Blank(root), p + EncodeText(Codes(root), s), |p|) == Narrow(s)
    decreases |s|
  {
    var B := Blank(root);
    var st := Codes(root);
    var T := p + EncodeText(st, s);
    if |s| == 0 {
      assert T == p;
    } else {
      var c, rest := s[0], s[1..];
      assert forall i :: 0 <= i < |rest| && rest[i] as int < R ==> rest[i] in Leaves(root) by {
        forall i | 0 <= i < |rest| && rest[i] as int < R
          ensures rest[i] in Leaves(root)
        {
          assert rest[i] == s[i + 1];
        }
      }
      var E := EncodeText(st, rest);
      assert EncodeText(st, s) == Piece(st, c) + E;
      if c as int < R {
        var p' := p + Piece(st, c);
        ExpandPiece(root, p, c, E);
        ExpandEncoded(root, p', rest);
        assert Narrow(s) == [c] + Narrow(rest);
      } else {
        assert T == p + EncodeText(st, rest);
        ExpandEncoded(root, p, rest);
        assert Narrow(s) == Narrow(rest);
      }
    }
  }

  /** Expanding from the start of a leaf character's code emits that character and moves past the code. */
  lemma ExpandPiece(root: Node, p: string, c: char, E: string)
    requires root.Internal? && ValidTrie(root) && DistinctLeaves(root) && c as int < R && c in Leaves(root)
    ensures var code := Piece(Codes(root), c);
      ExpandFrom(Blank(root), p + (code + E), |p|) == [c] + ExpandFrom(Blank(root), (p + code) + E, |p + code|)
  {
    var st := Codes(root);
    var code := Piece(st, c);
    var T := p + (code + E);
    CodeWalk(root, c, T, |p|);
    assert code == st[c as int].value;
    AppendAssoc(p, code, E);
    Middle(p, code, E);
    ExpandStep(Blank(root), T, |p|, c, |p + code|);
  }

  /** When the walk from j reaches a leaf further on, expanding from j emits that leaf's character first. */
  lemma ExpandStep(root: Node, T: string, j: nat, c: char, k: nat)
    requires root.Internal? && j < k <= |T| && Walk(root, T, j) == (c, k)
    ensures ExpandFrom(root, T, j) == [c] + ExpandFrom(root, T, k)
  {
  }

  lemma Middle<T>(a: seq<T>, b: seq<T>, c: seq<T>)
    ensures |a + b| <= |(a + b) + c| && ((a + b) + c)[|a|..|a| + |b|] == b
  {
  }

  /** A leaf character has a nonempty code, and the walk over its code reaches its leaf. */
  lemma CodeWalk(root: Node, c: char, T: string, j: nat)
    requires root.Internal? && ValidTrie(root) && DistinctLeaves(root) && c as int < R && c in Leaves(root)
    ensures Codes(root)[c as int].Some? && |Codes(root)[c as int].value| > 0
    ensures var code := Codes(root)[c as int].value;
      j + |code| <= |T| && T[j..j + |code|] == code ==> Walk(Blank(root), T, j) == (c, j + |code|)
  {
    CodesPrefixFree(root);
    assert Char(c as int) == c;
    var code := Codes(root)[c as int].value;
    var B := Blank(root);
    BlankPaths(root, "");
    PathsExtend(B, "");
    assert (c, code) in LeafPaths(B, "");
    if j + |code| <= |T| && T[j..j + |code|] == code {
      assert code[|""|..] == code;
      WalkPath(B, "", (c, code), T, j);
    }
  }

  /** With an internal root, expand(writeTrie(root), codes of s) gives back the characters of s below R. */
  lemma RoundTrip(root: Node, s: string)
    requires root.Internal? && ValidTrie(root) && DistinctLeaves(root)
    requires forall i :: 0 <= i < |s| && s[i] as int < R ==> s[i] in Leaves(root)
    ensures ExpandSpec(WriteTrie(root), EncodeText(Codes(root), s)) == Ok(Narrow(s))
  {
    ReadWrite(root);
    ExpandEncoded(root, "", s);
    assert "" + EncodeText(Codes(root), s) == EncodeText(Codes(root), s);
  }

  /** With a one-leaf root every character's code is '', the compressed text is empty and expands to ''. */
  lemma {:induction false} OneLeaf(root: Node, s: string)
    requires root.Leaf? && ValidTrie(root)
    ensures EncodeText(Codes(root), s) == ""
    ensures ExpandSpec(WriteTrie(root), "") == Ok("")
  {
    ReadWrite(root);
    if |s| > 0 {
      OneLeaf(root, s[1..]);
    }
  }

  /** The counting loop of compress: freq[c] is the number of occurrences of the character with code c. */
  method Tabulate(input: string) returns (freq: array<int>)
    ensures fresh(freq) && freq.Length == R
    ensures forall c :: 0 <= c < R ==> freq[c] == multiset(input)[Char(c)]
  {
    freq := new int[R](_ => 0);
    for i := 0 to |input|
      invariant forall c :: 0 <= c < R ==> freq[c] == multiset(input[..i])[Char(c)]
    {
      assert input[..i + 1] == input[..i] + [input[i]];
      var c := input[i] as int;
      if c < R {
        freq[c] := freq[c] + 1;
      }
    }
    assert input[..|input|] == input;
  }

  /** The counts of compress are present exactly for the characters of the input below R. */
  lemma CountsPresent(input: string, freq: seq<int>)
    requires |freq| == R && forall c :: 0 <= c < R ==> freq[c] == multiset(input)[Char(c)]
    ensures forall c :: 0 <= c < R ==> freq[c] >= 0
    ensures (forall c :: 0 <= c < R ==> freq[c] <= 0) <==> (forall i :: 0 <= i < |input| ==> input[i] as int >= R)
    ensures forall i :: 0 <= i < |input| && input[i] as int < R ==> input[i] in multiset(Present(freq, R))
    ensures forall ch :: ch in multiset(Present(freq, R)) ==> ch in input
  {
    InputPresent(input, freq);
    PresentInput(input, freq);
  }

  lemma InputPresent(input: string, freq: seq<int>)
    requires |freq| == R && forall c :: 0 <= c < R ==> freq[c] == multiset(input)[Char(c)]
    ensures forall i :: 0 <= i < |input| && input[i] as int < R ==> freq[input[i] as int] > 0 && input[i] in multiset(Present(freq, R))
  {
    forall i | 0 <= i < |input| && input[i] as int < R
      ensures freq[input[i] as int] > 0 && input[i] in multiset(Present(freq, R))
    {
      assert Char(input[i] as int) == input[i];
      PresentCount(freq, R, input[i]);
    }
  }

  lemma PresentInput(input: string, freq: seq<int>)
    requires |freq| == R && forall c :: 0 <= c < R ==> freq[c] == multiset(input)[Char(c)]
    ensures forall ch :: ch in multiset(Present(freq, R)) ==> ch in input
  {
    forall ch | ch in multiset(Present(freq, R))
      ensures ch in input
    {
      PresentCount(freq, R, ch);
      assert Char(ch as int) == ch;
    }
  }

  /** buildCode(st, x, s): each leaf's entry of st becomes its path. */
  method BuildCode(st: array<Option<string>>, x: Node, s: string)
    requires st.Length == R && ValidTrie(x)
    modifies st
    ensures st[..] == CodeTable(old(st[..]), x, s)
    decreases x
  {
    if x.Leaf? {
      st[x.ch as int] := Some(s);
      return;
    }
    BuildCode(st, x.left, s + "0");
    BuildCode(st, x.right, s + "1");
  }

  /** The second half of compress: the code table, the written trie and the joined codes of the input. */
  method Encode(input: string, root: Node) returns (encodedTrie: string, compressedText: string)
    requires ValidTrie(root)
    ensures encodedTrie == WriteTrie(root) && compressedText == EncodeText(Codes(root), input)
  {
    var st := new Option<string>[R](_ => None);
    assert st[..] == seq(R, _ => None);
    BuildCode(st, root, "");
    encodedTrie := WriteTrie(root);
    compressedText := "";
    ghost var table := Codes(root);
    assert st[..] == table;
    for i := 0 to |input|
      invariant st[..] == table
      invariant compressedText == EncodeText(table, input[..i])
    {
      var c := input[i] as int;
      var code := if c < R && st[c].Some? then st[c].value else "";
      assert code == Piece(table, input[i]);
      EncodeSnoc(table, input[..i], input[i]);
      assert input[..i + 1] == input[..i] + [input[i]];
      compressedText := compressedText + code;
    }
    assert input[..|input|] == input;
  }

  /**
   * compress(input) as written. It throws when no character is below R (in particular for ''). With a
   * single distinct character the trie is one leaf, the compressed text is '' and expand gives ''
   * instead of the input; otherwise expand gives back the input's characters below R.
   */
  method CompressAsWritten(input: string) returns (r: Result<(string, string), string>, ghost root: Node)
    ensures r.Err? <==> forall i :: 0 <= i < |input| ==> input[i] as int >= R
    ensures r.Err? ==> r.error == Underflow
    ensures r.Ok? ==> ValidTrie(root) && r.value == (WriteTrie(root), EncodeText(Codes(root), input))
    ensures r.Ok? && AllSame(input) ==> r.value.1 == "" && ExpandSpec(r.value.0, r.value.1) == Ok("")
    ensures r.Ok? && !AllSame(input) ==> ExpandSpec(r.value.0, r.value.1) == Ok(Narrow(input))
  {
    var freq := Tabulate(input);
    CountsPresent(input, freq[..]);
    assert forall c :: 0 <= c < R ==> freq[..][c] == freq[c];
    var t := BuildTrieAsWritten(freq[..]);
    if t.Err? {
      root := Leaf('\0', 0);
      return Err(t.error), root;
    }
    root := t.value;
    var encodedTrie, compressedText := Encode(input, t.value);
    r := Ok((encodedTrie, compressedText));
    if AllSame(input) {
      SameLeaf(input, root, freq[..]);
      OneLeaf(root, input);
    } else {
      var i, j :| 0 <= i < |input| && 0 <= j < |input| && input[i] as int < R && input[j] as int < R && input[i] != input[j];
      assert input[i] in Leaves(root) && input[j] in Leaves(root);
      RoundTrip(root, input);
    }
  }

  /** Against the counts of an input with one distinct character below R, the trie is one leaf. */
  lemma SameLeaf(input: string, root: Node, freq: seq<int>)
    requires |freq| == R && AllSame(input) && DistinctLeaves(root)
    requires forall ch :: ch in multiset(Present(freq, R)) ==> ch in input
    requires Leaves(root) == multiset(Present(freq, R))
    ensures root.Leaf?
  {
    if root.Internal? {
      LeavesNonEmpty(root.left);
      LeavesNonEmpty(root.right);
      var a :| a in Leaves(root.left);
      var b :| b in Leaves(root.right);
      assert a in Leaves(root) && b in Leaves(root);
      PresentCount(freq, R, a);
      PresentCount(freq, R, b);
      assert false;
    }
  }

  /**
   * compress(input) with the padded trie: it throws when no character is below R (in particular for
   * ''), and otherwise expand gives back the input's characters below R, the whole input when every
   * character is below R.
   */
  method Compress(input: string) returns (r: Result<(string, string), string>, ghost root: Node)
    ensures r.Err? <==> forall i :: 0 <= i < |input| ==> input[i] as int >= R
    ensures r.Err? ==> r.error == Underflow
    ensures r.Ok? ==> ValidTrie(root) && root.Internal? && r.value == (WriteTrie(root), EncodeText(Codes(root), input))
    ensures r.Ok? ==> ExpandSpec(r.value.0, r.value.1) == Ok(Narrow(input))
    ensures r.Ok? && (forall i :: 0 <= i < |input| ==> input[i] as int < R) ==> ExpandSpec(r.value.0, r.value.1) == Ok(input)
  {
    var freq := Tabulate(input);
    CountsPresent(input, freq[..]);
    assert forall c :: 0 <= c < R ==> freq[..][c] == freq[c];
    var t := BuildTrie(freq[..]);
    if t.Err? {
      root := Leaf('\0', 0);
      return Err(t.error), root;
    }
    root := t.value;
    var encodedTrie, compressedText := Encode(input, t.value);
    r := Ok((encodedTrie, compressedText));
    RoundTrip(root, input);
    NarrowAll(input);
  }

  /** Narrow keeps a string whose characters are all below R. */
  lemma {:induction false} NarrowAll(s: string)
    ensures (forall i :: 0 <= i < |s| ==> s[i] as int < R) ==> Narrow(s) == s
  {
    if |s| > 0 {
      NarrowAll(s[1..]);
      if forall i :: 0 <= i < |s| ==> s[i] as int < R {
        assert forall i :: 0 <= i < |s[1..]| ==> s[1..][i] == s[i + 1];
        assert s == [s[0]] + s[1..];
      }
    }
  }
}
