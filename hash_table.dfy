// HashTable (searching/hash-table): separate chaining over m buckets, each a
// LinkedList of entries that put pushes onto and get searches with find. The
// bucket of a key comes from a 32-bit string hash: h = 31·h + charCode,
// wrapped to a signed 32-bit integer after every character, then taken modulo
// m with JavaScript's `%`, whose result has the sign of h. A negative h thus
// gives a negative bucket index; the table below uses the index
// `(h & 0x7fffffff) % m` of the book's separate-chaining table, and the index
// as written is kept beside it.
module HashTables {
  import opened Common

  const TWO31: int := 0x8000_0000
  const TWO32: int := 0x1_0000_0000

  /** x as a signed 32-bit integer: the one value of [-2^31, 2^31) that differs from x by a multiple of 2^32. */
  function Wrap32(x: int): (r: int)
    ensures -TWO31 <= r < TWO31
  {
    (x + TWO31) % TWO32 - TWO31
  }

  /** Wrap32 takes off a whole number of 2^32s. */
  lemma WrapForm(x: int)
    ensures Wrap32(x) == x - ((x + TWO31) / TWO32) * TWO32
  {
  }

  /** Any value in the 32-bit range that differs from x by a multiple of 2^32 is Wrap32(x). */
  lemma WrapUnique(x: int, k: int)
    requires -TWO31 <= x + k * TWO32 < TWO31
    ensures Wrap32(x) == x + k * TWO32
  {
    WrapForm(x);
    var q := (x + TWO31) / TWO32;
    assert -TWO32 < (q + k) * TWO32 < TWO32;
  }

  /**
   * The loop body `hash = (hash << 5) - hash + char; hash = hash & hash` on a 32-bit hash:
   * `<<` wraps 32·hash to 32 bits, the subtraction and addition are exact, and `&` wraps
   * the sum again; the result is 31·hash + char wrapped once.
   */
  lemma ShiftStep(h: int, c: int)
    ensures Wrap32(Wrap32(h * 32) - h + c) == Wrap32(31 * h + c)
  {
    WrapForm(h * 32);
    WrapForm(31 * h + c);
    var j := (h * 32 + TWO31) / TWO32;
    var k := (31 * h + c + TWO31) / TWO32;
    WrapUnique(Wrap32(h * 32) - h + c, j - k);
  }

  /** The 32-bit hash of key: 0 for the empty key, then 31·h + code per character, wrapped. */
  function HashCode(key: string): (h: int)
    ensures -TWO31 <= h < TWO31
  {
    if |key| == 0 then 0 else Wrap32(31 * HashCode(key[..|key| - 1]) + key[|key| - 1] as int)
  }

  /** JavaScript's `a % m`: truncates toward zero, so the remainder has the sign of a. */
  function JsRem(a: int, m: int): (r: int)
    requires m >= 1
    ensures -m < r < m
    ensures a >= 0 ==> r >= 0
    ensures a <= 0 ==> r <= 0
  {
    if a >= 0 then a % m else -((-a) % m)
  }

  /** `h & 0x7fffffff` for a 32-bit h: the sign bit cleared. */
  function Mask31(h: int): (r: int)
    requires -TWO31 <= h < TWO31
    ensures 0 <= r < TWO31 && (r - h) % TWO31 == 0
    ensures h >= 0 ==> r == h
  {
    if h >= 0 then h else h + TWO31
  }

  /** hash(key) as written: 0 for the empty key, else HashCode(key) % m, negative when HashCode(key) is. */
  function IndexAsWritten(key: string, m: int): (i: int)
    requires m >= 1
    ensures -m < i < m
    ensures i < 0 <==> HashCode(key) < 0 && (-HashCode(key)) % m != 0
  {
    if |key| == 0 then 0 else JsRem(HashCode(key), m)
  }

  /** The bucket of key: `(h & 0x7fffffff) % m`, always one of the m buckets. */
  function Bucket(key: string, m: int): (b: int)
    requires m >= 1
    ensures 0 <= b < m
  {
    Mask31(HashCode(key)) % m
  }

  /** Where HashCode(key) is not negative, the index as written is the bucket. */
  lemma IndexAgrees(key: string, m: int)
    requires m >= 1 && HashCode(key) >= 0
    ensures IndexAsWritten(key, m) == Bucket(key, m)
  {
  }

  /** The empty key hashes to 0, as written and in the table. */
  lemma EmptyKey(m: int)
    requires m >= 1
    ensures HashCode("") == 0 && IndexAsWritten("", m) == 0 && Bucket("", m) == 0
  {
  }

  /** "aaaaaaa" hashes to -1236860927, so hash("aaaaaaa") with the default 997 buckets is -673. */
  lemma NegativeIndex()
    ensures HashCode("aaaaaaa") == -1236860927
    ensures IndexAsWritten("aaaaaaa", 997) == -673
  {
    assert HashCode("a") == 97;
    assert "aa"[..1] == "a";
    assert HashCode("aa") == 3104;
    assert "aaa"[..2] == "aa";
    assert HashCode("aaa") == 96321;
    assert "aaaa"[..3] == "aaa";
    assert HashCode("aaaa") == 2986048;
    assert "aaaaa"[..4] == "aaaa";
    assert HashCode("aaaaa") == 92567585;
    assert "aaaaaa"[..5] == "aaaaa";
    assert HashCode("aaaaaa") == Wrap32(2869595232);
    assert HashCode("aaaaaa") == -1425372064;
    assert "aaaaaaa"[..6] == "aaaaaa";
    assert HashCode("aaaaaaa") == Wrap32(-44186533887);
  }

  datatype Entry<V> = Entry(key: string, value: V)

  /** LinkedList.find(data => data.key === key): the first entry with that key. */
  function FindEntry<V>(entries: seq<Entry<V>>, key: string): (r: Option<Entry<V>>)
    ensures r.None? <==> forall e :: e in entries ==> e.key != key
    ensures r.Some? ==> r.value in entries && r.value.key == key
  {
    if |entries| == 0 then None
    else if entries[0].key == key then Some(entries[0])
    else FindEntry(entries[1..], key)
  }

  /** `found ? found.value : null`. */
  function ValueOf<V>(found: Option<Entry<V>>): Option<V>
  {
    if found.Some? then Some(found.value.value) else None
  }

  /** The entries of log that fall in bucket i, in their order in log. */
  function InBucket<V>(log: seq<Entry<V>>, i: int, m: int): (s: seq<Entry<V>>)
    requires m >= 1
  {
    if |log| == 0 then []
    else (if Bucket(log[0].key, m) == i then [log[0]] else []) + InBucket(log[1..], i, m)
  }

  /** Every entry of bucket i was put and hashes to bucket i. */
  lemma {:induction false} InBucketMembers<V>(log: seq<Entry<V>>, i: int, m: int)
    requires m >= 1
    ensures forall e :: e in InBucket(log, i, m) ==> e in log && Bucket(e.key, m) == i
  {
    if |log| > 0 {
      InBucketMembers(log[1..], i, m);
    }
  }

  /** Appending an entry to the log appends it to its own bucket and to no other. */
  lemma {:induction false} InBucketAppend<V>(log: seq<Entry<V>>, e: Entry<V>, i: int, m: int)
    requires m >= 1
    ensures InBucket(log + [e], i, m) == InBucket(log, i, m) + (if Bucket(e.key, m) == i then [e] else [])
  {
    var tail: seq<Entry<V>> := if Bucket(e.key, m) == i then [e] else [];
    if |log| == 0 {
      assert log + [e] == [e];
      assert InBucket([e], i, m) == tail + InBucket([], i, m);
    } else {
      var head: seq<Entry<V>> := if Bucket(log[0].key, m) == i then [log[0]] else [];
      var rest := InBucket(log[1..], i, m);
      assert (log + [e])[0] == log[0] && (log + [e])[1..] == log[1..] + [e];
      InBucketAppend(log[1..], e, i, m);
      assert InBucket(log + [e], i, m) == head + (rest + tail);
      assert InBucket(log, i, m) == head + rest;
    }
  }

  /** Searching a key's bucket finds what searching the whole log would: the earliest entry put with that key. */
  lemma {:induction false} FindInBucket<V>(log: seq<Entry<V>>, key: string, m: int)
    requires m >= 1
    ensures FindEntry(InBucket(log, Bucket(key, m), m), key) == FindEntry(log, key)
  {
    if |log| > 0 {
      var b := Bucket(key, m);
      var rest := InBucket(log[1..], b, m);
      FindInBucket(log[1..], key, m);
      if Bucket(log[0].key, m) == b {
        assert InBucket(log, b, m) == [log[0]] + rest;
        assert ([log[0]] + rest)[0] == log[0] && ([log[0]] + rest)[1..] == rest;
      } else {
        assert InBucket(log, b, m) == rest;
        assert log[0].key != key;
      }
    }
  }

  /**
   * What get sees after one more put: the earlier answer when the key was already there;
   * otherwise the new value for its key and nothing for any other key.
   */
  lemma {:induction false} FindAfterPut<V>(log: seq<Entry<V>>, e: Entry<V>, key: string)
    ensures FindEntry(log + [e], key) ==
      if FindEntry(log, key).Some? then FindEntry(log, key)
      else if e.key == key then Some(e) else None
  {
    if |log| == 0 {
      assert log + [e] == [e];
    } else {
      assert (log + [e])[1..] == log[1..] + [e];
      FindAfterPut(log[1..], e, key);
    }
  }

  /** The table: m buckets, and the log of every put, which no code reads. */
  class HashTable<V> {
    const m: int
    var container: seq<seq<Entry<V>>>
    ghost var puts: seq<Entry<V>>

    /** Bucket i holds, in order, the entries put with a key of bucket i. */
    ghost predicate Valid()
      reads this
    {
      && m >= 1 && |container| == m
      && forall i :: 0 <= i < m ==> container[i] == InBucket(puts, i, m)
    }

    /** constructor(m = 997): m empty buckets. */
    constructor(m: int)
      requires m >= 1
      ensures Valid() && this.m == m && puts == []
      ensures forall i :: 0 <= i < m ==> container[i] == []
    {
      this.m := m;
      var c: seq<seq<Entry<V>>> := [];
      for i := 0 to m
        invariant |c| == i && forall j :: 0 <= j < i ==> c[j] == []
      {
        c := c + [[]];
      }
      container := c;
      puts := [];
    }

    /** The accumulating loop of hash(key): the 32-bit hash of key. */
    method Accumulate(key: string) returns (hash: int)
      ensures hash == HashCode(key)
    {
      hash := 0;
      for i := 0 to |key|
        invariant hash == HashCode(key[..i])
      {
        var code := key[i] as int;
        ShiftStep(hash, code);
        assert key[..i + 1][..i] == key[..i];
        hash := Wrap32(hash * 32) - hash + code;
        hash := Wrap32(hash);
      }
      assert key[..|key|] == key;
    }

    /** hash(key) as written, with its early return for the empty key and JavaScript's `%`. */
    method HashAsWritten(key: string) returns (h: int)
      requires m >= 1
      ensures h == IndexAsWritten(key, m)
    {
      if |key| == 0 {
        return 0;
      }
      var hash := Accumulate(key);
      h := JsRem(hash, m);
    }

    /** hash(key) with the sign bit cleared before `%`: the key's bucket. */
    method Hash(key: string) returns (h: int)
      requires m >= 1
      ensures h == Bucket(key, m) && 0 <= h < m
    {
      if |key| == 0 {
        return 0;
      }
      var hash := Accumulate(key);
      h := Mask31(hash) % m;
    }

    /** get(key): the value of the earliest put with key, null when key was never put. */
    method Get(key: string) returns (r: Option<V>)
      requires Valid()
      ensures r == ValueOf(FindEntry(puts, key))
      ensures r.None? <==> forall e :: e in puts ==> e.key != key
    {
      var b := Hash(key);
      var found := FindEntry(container[b], key);
      FindInBucket(puts, key, m);
      r := if found.Some? then Some(found.value.value) else None;
    }

    /** put(key, value): a new entry pushed onto the end of the key's bucket; no other bucket changes. */
    method Put(key: string, value: V)
      requires Valid()
      modifies this
      ensures Valid() && puts == old(puts) + [Entry(key, value)]
      ensures container == old(container)[Bucket(key, m) := old(container)[Bucket(key, m)] + [Entry(key, value)]]
    {
      var b := Hash(key);
      var e := Entry(key, value);
      container := container[b := container[b] + [e]];
      forall i | 0 <= i < m
        ensures InBucket(puts + [e], i, m) == container[i]
      {
        InBucketAppend(puts, e, i, m);
      }
      puts := puts + [e];
    }
  }
}
