/**
 * ChainingHashMap: a hash table whose buckets are singly linked chains. The
 * chains are modelled as sequences of key/value pairs, head first; the
 * bucket array is a Dafny array of them.
 */
module ChainingHashMaps {
  import opened Outcomes
  import opened Hashing

  /** A bucket's chain, head first. */
  type Chain<K, V> = seq<(K, V)>

  /** The buckets laid end to end: bucket 0 first, each chain from head to tail. */
  ghost function Flatten<K, V>(b: seq<Chain<K, V>>): seq<(K, V)>
  {
    if b == [] then [] else b[0] + Flatten(b[1..])
  }

  /** Some node of the chain holds key `k`. */
  ghost predicate InChain<K, V>(c: Chain<K, V>, k: K)
  {
    exists j :: 0 <= j < |c| && c[j].0 == k
  }

  /**
   * The node at position `j` of bucket `i`. The invariants below quantify over
   * this term alone, so that they are used only where a proof names an entry.
   */
  ghost function Entry<K, V>(b: seq<Chain<K, V>>, i: int, j: int): (K, V)
    requires 0 <= i < |b| && 0 <= j < |b[i]|
  {
    b[i][j]
  }

  /** Every entry sits in its key's home bucket and agrees with the map `m`. */
  ghost predicate Placed<K, V>(b: seq<Chain<K, V>>, hash: K -> int, m: map<K, V>)
    requires |b| > 0
  {
    forall i, j {:trigger Entry(b, i, j)} :: 0 <= i < |b| && 0 <= j < |b[i]| ==>
      HomeIndex(hash, Entry(b, i, j).0, |b|) == i && Entry(b, i, j).0 in m && m[Entry(b, i, j).0] == Entry(b, i, j).1
  }

  /** No chain holds a key twice. */
  ghost predicate ChainsUnique<K, V>(b: seq<Chain<K, V>>)
  {
    forall i, j1, j2 {:trigger Entry(b, i, j1), Entry(b, i, j2)} :: 0 <= i < |b| && 0 <= j1 < j2 < |b[i]| ==>
      Entry(b, i, j1).0 != Entry(b, i, j2).0
  }

  /** The chain of the home bucket of `k`. Like `Entry`, the term the invariant below quantifies over. */
  ghost function HomeChain<K, V>(b: seq<Chain<K, V>>, hash: K -> int, k: K): Chain<K, V>
    requires |b| > 0
  {
    b[HomeIndex(hash, k, |b|)]
  }

  /** Every key of `m` is in its home bucket's chain. */
  ghost predicate Covered<K, V>(b: seq<Chain<K, V>>, hash: K -> int, m: map<K, V>)
    requires |b| > 0
  {
    forall k {:trigger HomeChain(b, hash, k)} :: k in m ==> InChain(HomeChain(b, hash, k), k)
  }

  /** The buckets represent the map `m`, each key once, in its home bucket. */
  ghost predicate Represents<K, V>(b: seq<Chain<K, V>>, hash: K -> int, m: map<K, V>)
  {
    |b| > 0 && Placed(b, hash, m) && ChainsUnique(b) && Covered(b, hash, m)
  }

  /** The buckets represent `m`, and `n` counts both its keys and the nodes of the chains. */
  ghost predicate Holds<K, V>(b: seq<Chain<K, V>>, hash: K -> int, m: map<K, V>, n: int)
  {
    Represents(b, hash, m) && n == |m| && |Flatten(b)| == n
  }

  /** The chain with every node holding `k` unlinked, the others in their order. */
  ghost function Without<K, V>(c: Chain<K, V>, k: K): (r: Chain<K, V>)
    ensures forall e :: e in r ==> e in c && e.0 != k
  {
    if c == [] then []
    else if c[0].0 == k then Without(c[1..], k)
    else [c[0]] + Without(c[1..], k)
  }

  /** The chain with the value in every node holding `k` replaced by `v`. */
  ghost function Overwritten<K, V>(c: Chain<K, V>, k: K, v: V): (r: Chain<K, V>)
  {
    seq(|c|, m requires 0 <= m < |c| => if c[m].0 == k then (k, v) else c[m])
  }

  /** Overwriting the one node holding `k`, at position `j`, is what Overwritten computes. */
  lemma OverwriteAt<K, V>(c: Chain<K, V>, k: K, j: int, v: V)
    requires 0 <= j < |c| && c[j].0 == k
    requires forall m :: 0 <= m < |c| && m != j ==> c[m].0 != k
    ensures Overwritten(c, k, v) == c[j := (k, v)]
  {
  }

  lemma {:induction false} FlattenEmpty<K, V>(b: seq<Chain<K, V>>)
    requires forall i :: 0 <= i < |b| ==> b[i] == []
    ensures Flatten(b) == []
  {
    if b != [] {
      FlattenEmpty(b[1..]);
    }
  }

  /** Empty buckets represent the empty map. */
  lemma EmptyHolds<K, V>(b: seq<Chain<K, V>>, hash: K -> int)
    requires |b| > 0 && forall i :: 0 <= i < |b| ==> b[i] == []
    ensures Holds(b, hash, map[], 0)
  {
    FlattenEmpty(b);
  }

  /** Replacing one bucket changes the total length by the change in that bucket. */
  lemma {:induction false} FlattenLength<K, V>(b: seq<Chain<K, V>>, i: int, c: Chain<K, V>)
    requires 0 <= i < |b|
    ensures |Flatten(b[i := c])| == |Flatten(b)| - |b[i]| + |c|
  {
    if i > 0 {
      assert b[i := c][1..] == b[1..][i - 1 := c];
      FlattenLength(b[1..], i - 1, c);
    } else {
      assert b[i := c][1..] == b[1..];
    }
  }

  /** An entry is in the flattened table exactly when it is in one of the buckets. */
  lemma {:induction false} FlattenMembership<K, V>(b: seq<Chain<K, V>>, e: (K, V))
    ensures e in Flatten(b) <==> exists i :: 0 <= i < |b| && e in b[i]
  {
    if b != [] {
      FlattenMembership(b[1..], e);
      if e in Flatten(b[1..]) {
        var i :| 0 <= i < |b[1..]| && e in b[1..][i];
        assert e in b[i + 1];
      }
      if exists i :: 0 <= i < |b| && e in b[i] {
        var i :| 0 <= i < |b| && e in b[i];
        if i > 0 {
          assert e in b[1..][i - 1];
        }
      }
    }
  }

  /** Unlinking the one node holding `k` at position `j` is what Without computes. */
  lemma {:induction false} UnlinkAt<K, V>(c: Chain<K, V>, k: K, j: int)
    requires 0 <= j < |c| && c[j].0 == k
    requires forall m :: 0 <= m < |c| && m != j ==> c[m].0 != k
    ensures Without(c, k) == c[..j] + c[j + 1..]
  {
    if j == 0 {
      NotInChain(c[1..], k);
      assert c[..0] + c[1..] == c[1..];
    } else {
      assert c[0].0 != k;
      assert Without(c, k) == [c[0]] + Without(c[1..], k);
      forall m | 0 <= m < |c[1..]| && m != j - 1 ensures c[1..][m].0 != k {
        assert c[1..][m] == c[m + 1];
      }
      UnlinkAt(c[1..], k, j - 1);
      assert c[1..][..j - 1] == c[1..j];
      assert c[1..][j..] == c[j + 1..];
      assert [c[0]] + (c[1..j] + c[j + 1..]) == c[..j] + c[j + 1..];
    }
  }

  lemma {:induction false} NotInChain<K, V>(c: Chain<K, V>, k: K)
    requires forall m :: 0 <= m < |c| ==> c[m].0 != k
    ensures Without(c, k) == c
  {
    if c != [] {
      NotInChain(c[1..], k);
      assert [c[0]] + c[1..] == c;
    }
  }

  /** Prepending a fresh key to its home bucket represents the map with that key added. */
  lemma PrependKeeps<K, V>(b: seq<Chain<K, V>>, hash: K -> int, m: map<K, V>, k: K, v: V)
    requires Represents(b, hash, m) && k !in m
    ensures var h := HomeIndex(hash, k, |b|);
      Represents(b[h := [(k, v)] + b[h]], hash, m[k := v])
  {
    var h := HomeIndex(hash, k, |b|);
    var b': seq<Chain<K, V>> := b[h := [(k, v)] + b[h]];
    var m' := m[k := v];
    forall i, j | 0 <= i < |b'| && 0 <= j < |b'[i]|
      ensures HomeIndex(hash, Entry(b', i, j).0, |b'|) == i && Entry(b', i, j).0 in m' && m'[Entry(b', i, j).0] == Entry(b', i, j).1
    {
      if i == h && j > 0 {
        assert Entry(b', i, j) == Entry(b, i, j - 1);
      } else if i != h {
        assert Entry(b', i, j) == Entry(b, i, j);
      }
    }
    forall i, j1, j2 | 0 <= i < |b'| && 0 <= j1 < j2 < |b'[i]|
      ensures Entry(b', i, j1).0 != Entry(b', i, j2).0
    {
      if i == h {
        assert Entry(b', i, j2) == Entry(b, i, j2 - 1);
        if j1 > 0 {
          assert Entry(b', i, j1) == Entry(b, i, j1 - 1);
        }
      } else {
        assert Entry(b', i, j1) == Entry(b, i, j1) && Entry(b', i, j2) == Entry(b, i, j2);
      }
    }
    forall x | x in m' ensures InChain(HomeChain(b', hash, x), x)
    {
      assert HomeChain(b, hash, x) == b[HomeIndex(hash, x, |b|)];
      if x == k {
        assert b'[h][0].0 == k;
      } else {
        var hx := HomeIndex(hash, x, |b|);
        var j :| 0 <= j < |b[hx]| && b[hx][j].0 == x;
        if hx == h {
          assert b'[h][j + 1].0 == x;
        } else {
          assert b'[hx][j].0 == x;
        }
      }
    }
  }

  /** Unlinking a present key's node represents the map with that key removed. */
  lemma UnlinkKeeps<K, V>(b: seq<Chain<K, V>>, hash: K -> int, m: map<K, V>, k: K, j: int)
    requires Represents(b, hash, m) && k in m
    requires var h := HomeIndex(hash, k, |b|); 0 <= j < |b[h]| && b[h][j].0 == k
    ensures var h := HomeIndex(hash, k, |b|);
      Represents(b[h := b[h][..j] + b[h][j + 1..]], hash, m - {k})
  {
    var h := HomeIndex(hash, k, |b|);
    var c: Chain<K, V> := b[h][..j] + b[h][j + 1..];
    var b': seq<Chain<K, V>> := b[h := c];
    var m' := m - {k};
    assert Entry(b, h, j).0 == k;
    forall i, q | 0 <= i < |b'| && 0 <= q < |b'[i]|
      ensures HomeIndex(hash, Entry(b', i, q).0, |b'|) == i && Entry(b', i, q).0 in m' && m'[Entry(b', i, q).0] == Entry(b', i, q).1
    {
      if i == h {
        var p := if q < j then q else q + 1;
        assert Entry(b', i, q) == Entry(b, h, p);
      } else {
        assert Entry(b', i, q) == Entry(b, i, q);
      }
    }
    forall i, j1, j2 | 0 <= i < |b'| && 0 <= j1 < j2 < |b'[i]|
      ensures Entry(b', i, j1).0 != Entry(b', i, j2).0
    {
      if i == h {
        assert Entry(b', i, j1) == Entry(b, h, if j1 < j then j1 else j1 + 1);
        assert Entry(b', i, j2) == Entry(b, h, if j2 < j then j2 else j2 + 1);
      } else {
        assert Entry(b', i, j1) == Entry(b, i, j1) && Entry(b', i, j2) == Entry(b, i, j2);
      }
    }
    forall x | x in m' ensures InChain(HomeChain(b', hash, x), x)
    {
      assert HomeChain(b, hash, x) == b[HomeIndex(hash, x, |b|)];
      var hx := HomeIndex(hash, x, |b|);
      var p :| 0 <= p < |b[hx]| && b[hx][p].0 == x;
      if hx == h {
        var q := if p < j then p else p - 1;
        assert b'[h][q].0 == x;
      } else {
        assert b'[hx][p].0 == x;
      }
    }
  }

  /** Overwriting the value in a present key's node represents the map with that value replaced. */
  lemma OverwriteKeeps<K, V>(b: seq<Chain<K, V>>, hash: K -> int, m: map<K, V>, k: K, j: int, v: V)
    requires Represents(b, hash, m) && k in m
    requires var h := HomeIndex(hash, k, |b|); 0 <= j < |b[h]| && b[h][j].0 == k
    ensures var h := HomeIndex(hash, k, |b|);
      Represents(b[h := b[h][j := (k, v)]], hash, m[k := v])
  {
    var h := HomeIndex(hash, k, |b|);
    var b': seq<Chain<K, V>> := b[h := b[h][j := (k, v)]];
    var m' := m[k := v];
    assert Entry(b, h, j).0 == k;
    forall i, q | 0 <= i < |b'| && 0 <= q < |b'[i]|
      ensures HomeIndex(hash, Entry(b', i, q).0, |b'|) == i && Entry(b', i, q).0 in m' && m'[Entry(b', i, q).0] == Entry(b', i, q).1
    {
      if i != h || q != j {
        assert Entry(b', i, q) == Entry(b, i, q);
      }
    }
    forall i, j1, j2 | 0 <= i < |b'| && 0 <= j1 < j2 < |b'[i]|
      ensures Entry(b', i, j1).0 != Entry(b', i, j2).0
    {
      assert Entry(b', i, j1).0 == Entry(b, i, j1).0 && Entry(b', i, j2).0 == Entry(b, i, j2).0;
    }
    forall x | x in m' ensures InChain(HomeChain(b', hash, x), x)
    {
      assert HomeChain(b, hash, x) == b[HomeIndex(hash, x, |b|)];
      var hx := HomeIndex(hash, x, |b|);
      var p :| 0 <= p < |b[hx]| && b[hx][p].0 == x;
      assert b'[hx][p].0 == x;
    }
  }

  /** insert's update of the buckets, with the facts the map's invariant needs. */
  lemma PrependStep<K, V>(b: seq<Chain<K, V>>, hash: K -> int, m: map<K, V>, n: int, k: K, v: V)
    requires Holds(b, hash, m, n) && k !in m
    ensures var h := HomeIndex(hash, k, |b|); Holds(b[h := [(k, v)] + b[h]], hash, m[k := v], n + 1)
  {
    var h := HomeIndex(hash, k, |b|);
    PrependKeeps(b, hash, m, k, v);
    FlattenLength(b, h, [(k, v)] + b[h]);
  }

  /** remove's update of the buckets, with the facts the map's invariant needs. */
  lemma UnlinkStep<K, V>(b: seq<Chain<K, V>>, hash: K -> int, m: map<K, V>, n: int, k: K, j: int)
    requires Holds(b, hash, m, n) && k in m
    requires var h := HomeIndex(hash, k, |b|); 0 <= j < |b[h]| && b[h][j].0 == k
    ensures var h := HomeIndex(hash, k, |b|); var c := b[h][..j] + b[h][j + 1..];
      Holds(b[h := c], hash, m - {k}, n - 1) && c == Without(b[h], k)
  {
    var h := HomeIndex(hash, k, |b|);
    forall p | 0 <= p < |b[h]| && p != j ensures b[h][p].0 != k {
      assert Entry(b, h, j).0 == k && Entry(b, h, p) == b[h][p];
    }
    UnlinkAt(b[h], k, j);
    UnlinkKeeps(b, hash, m, k, j);
    FlattenLength(b, h, b[h][..j] + b[h][j + 1..]);
  }

  /** put's update of the buckets, with the facts the map's invariant needs. */
  lemma OverwriteStep<K, V>(b: seq<Chain<K, V>>, hash: K -> int, m: map<K, V>, n: int, k: K, j: int, v: V)
    requires Holds(b, hash, m, n) && k in m
    requires var h := HomeIndex(hash, k, |b|); 0 <= j < |b[h]| && b[h][j].0 == k
    ensures var h := HomeIndex(hash, k, |b|); var c := b[h][j := (k, v)];
      Holds(b[h := c], hash, m[k := v], n) && c == Overwritten(b[h], k, v)
  {
    var h := HomeIndex(hash, k, |b|);
    forall p | 0 <= p < |b[h]| && p != j ensures b[h][p].0 != k {
      assert Entry(b, h, j).0 == k && Entry(b, h, p) == b[h][p];
    }
    OverwriteKeeps(b, hash, m, k, j, v);
    OverwriteAt(b[h], k, j, v);
    FlattenLength(b, h, b[h][j := (k, v)]);
  }

  /** No key occurs twice in the chain. */
  ghost predicate UniqueKeys<K, V>(c: Chain<K, V>)
  {
    forall j1, j2 :: 0 <= j1 < j2 < |c| ==> c[j1].0 != c[j2].0
  }

  /** The pairs of a chain as a map. */
  ghost function ChainMap<K, V>(c: Chain<K, V>): map<K, V>
  {
    if c == [] then map[] else ChainMap(c[..|c| - 1])[c[|c| - 1].0 := c[|c| - 1].1]
  }

  lemma UnionUpdate<K, V>(a: map<K, V>, b: map<K, V>, k: K, v: V)
    ensures a + b[k := v] == (a + b)[k := v]
  {
  }

  /**
   * The next pair of a chain with unique keys is new to the pairs before it,
   * and adding it extends their map by that pair.
   */
  lemma ChainStep<K, V>(base: map<K, V>, c: Chain<K, V>, curr: int)
    requires UniqueKeys(c) && 0 <= curr < |c| && c[curr].0 !in base
    ensures c[curr].0 !in base + ChainMap(c[..curr])
    ensures base + ChainMap(c[..curr + 1]) == (base + ChainMap(c[..curr]))[c[curr].0 := c[curr].1]
  {
    ChainMapKeys(c[..curr], c[curr].0);
    assert !InChain(c[..curr], c[curr].0);
    assert c[..curr + 1][..curr] == c[..curr];
    UnionUpdate(base, ChainMap(c[..curr]), c[curr].0, c[curr].1);
  }

  /** The pairs of a sequence of buckets as a map. */
  ghost function BucketsMap<K, V>(b: seq<Chain<K, V>>): map<K, V>
  {
    if b == [] then map[] else BucketsMap(b[..|b| - 1]) + ChainMap(b[|b| - 1])
  }

  lemma {:induction false} ChainMapKeys<K, V>(c: Chain<K, V>, x: K)
    ensures x in ChainMap(c) <==> InChain(c, x)
  {
    if c != [] {
      var c' := c[..|c| - 1];
      ChainMapKeys(c', x);
      if InChain(c', x) {
        var j :| 0 <= j < |c'| && c'[j].0 == x;
        assert c[j].0 == x;
      }
      if InChain(c, x) && x != c[|c| - 1].0 {
        var j :| 0 <= j < |c| && c[j].0 == x;
        assert c'[j].0 == x;
      }
    }
  }

  lemma {:induction false} ChainMapAgrees<K, V>(c: Chain<K, V>, m: map<K, V>, x: K)
    requires forall j :: 0 <= j < |c| ==> c[j].0 in m && m[c[j].0] == c[j].1
    requires x in ChainMap(c)
    ensures x in m && ChainMap(c)[x] == m[x]
  {
    var c' := c[..|c| - 1];
    if x != c[|c| - 1].0 {
      ChainMapAgrees(c', m, x);
    }
  }

  /** The map of bucket `i` holds exactly the keys whose home is `i`, with their values. */
  lemma BucketMap<K, V>(b: seq<Chain<K, V>>, hash: K -> int, m: map<K, V>, i: int)
    requires Represents(b, hash, m) && 0 <= i < |b|
    ensures forall x :: x in ChainMap(b[i]) <==> x in m && HomeIndex(hash, x, |b|) == i
    ensures forall x :: x in ChainMap(b[i]) ==> ChainMap(b[i])[x] == m[x]
    ensures UniqueKeys(b[i])
  {
    forall j | 0 <= j < |b[i]| ensures b[i][j].0 in m && m[b[i][j].0] == b[i][j].1 && HomeIndex(hash, b[i][j].0, |b|) == i {
      assert Entry(b, i, j) == b[i][j];
    }
    forall x ensures x in ChainMap(b[i]) <==> x in m && HomeIndex(hash, x, |b|) == i {
      ChainMapKeys(b[i], x);
      assert HomeChain(b, hash, x) == b[HomeIndex(hash, x, |b|)];
    }
    forall x | x in ChainMap(b[i]) ensures x in m && ChainMap(b[i])[x] == m[x] {
      ChainMapAgrees(b[i], m, x);
    }
    forall j1, j2 | 0 <= j1 < j2 < |b[i]| ensures b[i][j1].0 != b[i][j2].0 {
      assert Entry(b, i, j1) == b[i][j1] && Entry(b, i, j2) == b[i][j2];
    }
  }

  /** The buckets before `i` hold exactly the keys whose home is below `i`, with their values. */
  lemma {:induction false} PrefixMap<K, V>(b: seq<Chain<K, V>>, hash: K -> int, m: map<K, V>, i: int)
    requires Represents(b, hash, m) && 0 <= i <= |b|
    ensures forall x :: x in BucketsMap(b[..i]) <==> x in m && HomeIndex(hash, x, |b|) < i
    ensures forall x :: x in BucketsMap(b[..i]) ==> BucketsMap(b[..i])[x] == m[x]
  {
    if i > 0 {
      PrefixMap(b, hash, m, i - 1);
      BucketMap(b, hash, m, i - 1);
      assert b[..i][..i - 1] == b[..i - 1];
    }
  }

  class ChainingHashMap<K(==), V> {
    /** hashCode, which the model leaves uninterpreted. */
    const hash: K -> int
    var numElements: int
    var capacity: int
    var hashTable: array<Chain<K, V>>
    var primeIdx: nat
    /** The map the table represents. */
    ghost var contents: map<K, V>

    /** Every invariant but the load bound: the one rehash restores. */
    ghost predicate Table()
      reads this, hashTable
    {
      1 <= primeIdx && capacity == CapacityAt(primeIdx) && capacity >= 2 &&
      hashTable.Length == capacity &&
      Holds(hashTable[..], hash, contents, numElements)
    }

    ghost predicate Valid()
      reads this, hashTable
    {
      Table() && 4 * numElements <= 3 * capacity
    }

    /** The home bucket of `k`. */
    ghost function Home(k: K): int
      reads this
      requires capacity > 0
    {
      HomeIndex(hash, k, capacity)
    }

    /** A table of capacity 5 (the prime at index 1) with no elements. */
    constructor (hash: K -> int)
      ensures Valid() && this.hash == hash && contents == map[]
      ensures capacity == 5 && numElements == 0 && primeIdx == 1
    {
      this.hash := hash;
      numElements := 0;
      primeIdx := INITIAL_PRIME_INDEX;
      capacity := PRIMES[INITIAL_PRIME_INDEX];
      contents := map[];
      new;
      hashTable := new Chain<K, V>[capacity](_ => []);
      EmptyHolds(hashTable[..], hash);
    }

    /**
     * find: a null key throws; otherwise the position of the key's node in
     * its home chain, or -1 (null) when the key is absent.
     */
    method Find(k: Option<K>) returns (r: Result<int>)
      requires Valid()
      ensures k.None? ==> r == Err(IllegalArgument)
      ensures k.Some? ==> r.Ok? && -1 <= r.value < |hashTable[Home(k.value)]|
      ensures k.Some? ==> (r.value == -1 <==> k.value !in contents)
      ensures k.Some? && r.value >= 0 ==> hashTable[Home(k.value)][r.value] == (k.value, contents[k.value])
    {
      if k.None? {
        return Err(IllegalArgument);
      }
      var index := HomeIndex(hash, k.value, capacity);
      var temp := hashTable[index];
      var j := 0;
      while j < |temp|
        invariant 0 <= j <= |temp|
        invariant forall m :: 0 <= m < j ==> temp[m].0 != k.value
      {
        if temp[j].0 == k.value {
          assert Entry(hashTable[..], index, j) == temp[j];
          return Ok(j);
        }
        j := j + 1;
      }
      assert HomeChain(hashTable[..], hash, k.value) == temp;
      return Ok(-1);
    }

    /**
     * findPrevNode: a null key throws; -1 (null) when the key is at the head
     * of its chain, otherwise the position of the node before it; an absent
     * key throws.
     */
    method FindPrevNode(k: Option<K>) returns (r: Result<int>)
      requires Valid()
      ensures (k.None? || k.value !in contents) ==> r == Err(IllegalArgument)
      ensures k.Some? && k.value in contents ==>
        r.Ok? && -1 <= r.value && r.value + 1 < |hashTable[Home(k.value)]| &&
        hashTable[Home(k.value)][r.value + 1].0 == k.value
    {
      if k.None? {
        return Err(IllegalArgument);
      }
      var index := HomeIndex(hash, k.value, capacity);
      var temp := hashTable[index];
      assert HomeChain(hashTable[..], hash, k.value) == temp;
      if |temp| > 0 {
        if temp[0].0 == k.value {
          assert Entry(hashTable[..], index, 0) == temp[0];
          return Ok(-1);
        }
        var j := 0;
        while j + 1 < |temp|
          invariant 0 <= j < |temp|
          invariant forall m :: 0 <= m <= j ==> temp[m].0 != k.value
        {
          if temp[j + 1].0 == k.value {
            assert Entry(hashTable[..], index, j + 1) == temp[j + 1];
            return Ok(j);
          }
          j := j + 1;
        }
      }
      assert !InChain(temp, k.value);
      return Err(IllegalArgument);
    }

    /** The prepend step of insert: the new node becomes the head of its home chain. */
    method Prepend(k: K, v: V)
      requires Table() && k !in contents
      modifies this, hashTable
      ensures Table() && contents == old(contents)[k := v] && numElements == old(numElements) + 1
      ensures hashTable == old(hashTable) && capacity == old(capacity) && primeIdx == old(primeIdx)
      ensures hashTable[..] == old(hashTable[..])[Home(k) := [(k, v)] + old(hashTable[Home(k)])]
    {
      var index := HomeIndex(hash, k, capacity);
      ghost var b: seq<Chain<K, V>> := hashTable[..];
      PrependStep(b, hash, contents, numElements, k, v);
      hashTable[index] := [(k, v)] + hashTable[index];
      assert hashTable[..] == b[index := [(k, v)] + b[index]];
      numElements := numElements + 1;
      contents := contents[k := v];
    }

    /**
     * insert: a null or present key throws and changes nothing. Otherwise
     * the pair is prepended to its home chain and counted; when the load
     * then exceeds 0.75 the table is rehashed.
     */
    method Insert(k: Option<K>, v: V) returns (r: Result<()>)
      requires Valid()
      modifies this, hashTable
      ensures Valid()
      ensures (k.None? || k.value in old(contents)) ==>
        r == Err(IllegalArgument) && unchanged(this) && hashTable[..] == old(hashTable[..])
      ensures k.Some? && k.value !in old(contents) ==>
        r == Ok(()) && contents == old(contents)[k.value := v] && numElements == old(numElements) + 1
      ensures k.Some? && k.value !in old(contents) && !OverLoaded(old(capacity), old(numElements) + 1) ==>
        hashTable == old(hashTable) && capacity == old(capacity) && primeIdx == old(primeIdx) &&
        hashTable[..] == old(hashTable[..])[old(Home(k.value)) := [(k.value, v)] + old(hashTable[Home(k.value)])]
      ensures k.Some? && k.value !in old(contents) && OverLoaded(old(capacity), old(numElements) + 1) ==>
        fresh(hashTable) && primeIdx == old(primeIdx) + 1 && capacity == NextCapacity(primeIdx, old(capacity))
    {
      if k.None? {
        return Err(IllegalArgument);
      }
      var found := Find(k);
      if found.value != -1 {
        return Err(IllegalArgument);
      }
      Prepend(k.value, v);
      if OverLoaded(capacity, numElements) {
        Rehash();
      }
      r := Ok(());
    }

    /**
     * The inner loop of rehash: every node of the chain `c`, head to tail,
     * is prepended to its home bucket in the current table.
     */
    method MoveChain(c: Chain<K, V>)
      requires Table() && UniqueKeys(c)
      requires forall x :: x in ChainMap(c) ==> x !in contents
      modifies this, hashTable
      ensures Table() && contents == old(contents) + ChainMap(c)
      ensures hashTable == old(hashTable) && capacity == old(capacity) && primeIdx == old(primeIdx)
    {
      ghost var base := contents;
      var curr := 0;
      while curr < |c|
        invariant 0 <= curr <= |c| && Table() && contents == base + ChainMap(c[..curr])
        invariant hashTable == old(hashTable) && capacity == old(capacity) && primeIdx == old(primeIdx)
      {
        ChainMapKeys(c, c[curr].0);
        MoveNode(c, curr, base);
        curr := curr + 1;
      }
      assert c[..|c|] == c;
    }

    /** One step of the inner loop of rehash: node `curr` of `c` is prepended to its home bucket. */
    method MoveNode(c: Chain<K, V>, curr: int, ghost base: map<K, V>)
      requires Table() && UniqueKeys(c) && 0 <= curr < |c| && c[curr].0 !in base
      requires contents == base + ChainMap(c[..curr])
      modifies this, hashTable
      ensures Table() && contents == base + ChainMap(c[..curr + 1])
      ensures hashTable == old(hashTable) && capacity == old(capacity) && primeIdx == old(primeIdx)
    {
      ChainStep(base, c, curr);
      Prepend(c[curr].0, c[curr].1);
    }

    /**
     * rehash: advance the prime index, pick the next capacity, and move every
     * pair into a fresh table, bucket by bucket and each chain head to tail.
     * Every pair moved is new to the fresh table and the fresh table stays
     * under the load bound, so the duplicate and load tests of the insert
     * that rehash calls never fire; the model calls the prepend step.
     */
    method Rehash()
      requires Table() && 4 * (numElements - 1) <= 3 * capacity
      modifies this
      ensures Valid() && contents == old(contents) && numElements == old(numElements)
      ensures fresh(hashTable) && primeIdx == old(primeIdx) + 1 && capacity == NextCapacity(primeIdx, old(capacity))
    {
      ghost var all := contents;
      ghost var snapshot := hashTable[..];
      assert Represents(snapshot, hash, all) && |all| == numElements;
      var newIdx := primeIdx + 1;
      var newCapacity := NextCapacity(newIdx, capacity);
      RehashRestoresLoad(primeIdx, numElements);
      CapacityGrows(newIdx);
      CapacityNext(primeIdx, capacity);
      assert newCapacity == CapacityAt(newIdx) && newCapacity >= 2 && 4 * numElements <= 3 * newCapacity;
      primeIdx := newIdx;
      capacity := newCapacity;
      numElements := 0;
      var temp := hashTable;
      contents := map[];
      hashTable := new Chain<K, V>[capacity](_ => []);
      EmptyHolds(hashTable[..], hash);
      assert temp[..] == snapshot;
      MoveBuckets(temp, all);
    }

    /** The outer loop of rehash: the chains of `temp` are moved bucket by bucket, from bucket 0 up. */
    method MoveBuckets(temp: array<Chain<K, V>>, ghost all: map<K, V>)
      requires Table() && contents == map[] && temp != hashTable && Represents(temp[..], hash, all)
      modifies this, hashTable
      ensures Table() && contents == all
      ensures hashTable == old(hashTable) && capacity == old(capacity) && primeIdx == old(primeIdx)
    {
      ghost var old_ := temp[..];
      assert old_[..0] == [];
      for i := 0 to temp.Length
        invariant Table() && contents == BucketsMap(old_[..i])
        invariant hashTable == old(hashTable) && capacity == old(capacity) && primeIdx == old(primeIdx)
        invariant temp[..] == old_
      {
        MoveBucket(temp, i, old_, all);
      }
      PrefixMap(old_, hash, all, |old_|);
      assert old_[..|old_|] == old_;
      assert contents.Keys == all.Keys;
    }

    /** One step of the outer loop of rehash: the chain of bucket `i` of `temp` is moved. */
    method MoveBucket(temp: array<Chain<K, V>>, i: int, ghost old_: seq<Chain<K, V>>, ghost all: map<K, V>)
      requires Table() && temp != hashTable && 0 <= i < temp.Length && temp[..] == old_
      requires Represents(old_, hash, all) && contents == BucketsMap(old_[..i])
      modifies this, hashTable
      ensures Table() && contents == BucketsMap(old_[..i + 1])
      ensures hashTable == old(hashTable) && capacity == old(capacity) && primeIdx == old(primeIdx)
    {
      PrefixMap(old_, hash, all, i);
      BucketMap(old_, hash, all, i);
      MoveChain(temp[i]);
      assert old_[..i + 1][..i] == old_[..i];
    }

    /**
     * remove: a null or absent key throws and changes nothing. Otherwise the
     * key's node is unlinked from its chain, at the head or after its
     * previous node, and its value is returned.
     */
    method Remove(k: Option<K>) returns (r: Result<V>)
      requires Valid()
      modifies this, hashTable
      ensures Valid()
      ensures (k.None? || k.value !in old(contents)) ==>
        r == Err(IllegalArgument) && unchanged(this) && hashTable[..] == old(hashTable[..])
      ensures k.Some? && k.value in old(contents) ==>
        r == Ok(old(contents)[k.value]) && contents == old(contents) - {k.value} &&
        numElements == old(numElements) - 1 && hashTable == old(hashTable) && capacity == old(capacity) &&
        hashTable[..] == old(hashTable[..])[Home(k.value) := Without(old(hashTable[Home(k.value)]), k.value)]
    {
      if k.None? {
        return Err(IllegalArgument);
      }
      var node := Find(k);
      if node.value == -1 {
        return Err(IllegalArgument);
      }
      var index := HomeIndex(hash, k.value, capacity);
      ghost var b: seq<Chain<K, V>> := hashTable[..];
      var value := hashTable[index][node.value].1;
      var prevNode := FindPrevNode(k);
      var j := prevNode.value + 1;
      assert j == node.value by {
        assert Entry(b, index, j).0 == k.value && Entry(b, index, node.value).0 == k.value;
      }
      UnlinkStep(b, hash, contents, numElements, k.value, j);
      if prevNode.value == -1 {
        assert hashTable[index][1..] == b[index][..0] + b[index][1..];
        hashTable[index] := hashTable[index][1..];
      } else {
        hashTable[index] := hashTable[index][..j] + hashTable[index][j + 1..];
      }
      assert hashTable[..] == b[index := b[index][..j] + b[index][j + 1..]];
      numElements := numElements - 1;
      contents := contents - {k.value};
      r := Ok(value);
    }

    /**
     * put: a null or absent key throws and changes nothing; otherwise the
     * value in the key's node is replaced and nothing else changes.
     */
    method Put(k: Option<K>, v: V) returns (r: Result<()>)
      requires Valid()
      modifies this, hashTable
      ensures Valid()
      ensures (k.None? || k.value !in old(contents)) ==>
        r == Err(IllegalArgument) && unchanged(this) && hashTable[..] == old(hashTable[..])
      ensures k.Some? && k.value in old(contents) ==>
        r == Ok(()) && contents == old(contents)[k.value := v] && numElements == old(numElements) &&
        hashTable == old(hashTable) && capacity == old(capacity) &&
        hashTable[..] == old(hashTable[..])[Home(k.value) := Overwritten(old(hashTable[Home(k.value)]), k.value, v)]
    {
      if k.None? {
        return Err(IllegalArgument);
      }
      var node := Find(k);
      if node.value == -1 {
        return Err(IllegalArgument);
      }
      var index := HomeIndex(hash, k.value, capacity);
      ghost var b: seq<Chain<K, V>> := hashTable[..];
      OverwriteStep(b, hash, contents, numElements, k.value, node.value, v);
      hashTable[index] := hashTable[index][node.value := (k.value, v)];
      assert hashTable[..] == b[index := b[index][node.value := (k.value, v)]];
      contents := contents[k.value := v];
      r := Ok(());
    }

    /** get: the key's value; a null or absent key throws. */
    method Get(k: Option<K>) returns (r: Result<V>)
      requires Valid()
      ensures (k.None? || k.value !in contents) ==> r == Err(IllegalArgument)
      ensures k.Some? && k.value in contents ==> r == Ok(contents[k.value])
    {
      if k.None? {
        return Err(IllegalArgument);
      }
      var node := Find(k);
      if node.value == -1 {
        return Err(IllegalArgument);
      }
      var index := HomeIndex(hash, k.value, capacity);
      r := Ok(hashTable[index][node.value].1);
    }

    /** has: false for null, otherwise whether the key is mapped. */
    method Has(k: Option<K>) returns (b: bool)
      requires Valid()
      ensures b <==> k.Some? && k.value in contents
    {
      if k.None? {
        return false;
      }
      var node := Find(k);
      b := node.value != -1;
    }

    function Size(): (n: int)
      reads this, hashTable
      ensures Valid() ==> n == |contents|
    {
      numElements
    }

    /**
     * iterator: every pair of the map, bucket by bucket and each chain from
     * head to tail, numElements of them.
     */
    method Iterator() returns (it: ChainingHashMapIterator<K, V>)
      requires Valid()
      ensures fresh(it) && it.Valid() && it.Remaining() == Flatten(hashTable[..])
      ensures |it.Remaining()| == numElements == |contents|
      ensures forall e :: e in it.Remaining() ==> e.0 in contents && contents[e.0] == e.1
      ensures forall x :: x in contents ==> (x, contents[x]) in it.Remaining()
    {
      it := new ChainingHashMapIterator(hashTable[..], numElements);
      var b := hashTable[..];
      forall e | e in Flatten(b) ensures e.0 in contents && contents[e.0] == e.1 {
        FlattenMembership(b, e);
        var i :| 0 <= i < |b| && e in b[i];
        var j :| 0 <= j < |b[i]| && b[i][j] == e;
        assert Entry(b, i, j) == e;
      }
      forall x | x in contents ensures (x, contents[x]) in Flatten(b) {
        var h := HomeIndex(hash, x, |b|);
        assert HomeChain(b, hash, x) == b[h];
        var j :| 0 <= j < |b[h]| && b[h][j].0 == x;
        assert Entry(b, h, j) == b[h][j] == (x, contents[x]);
        FlattenMembership(b, (x, contents[x]));
      }
    }
  }

  /**
   * ChainingHashMapIterator over the table as it was when the iterator was
   * made: `count` pairs handed out, the next one at position `pos` of
   * bucket `index` (`pos` past the chain's end stands for `curr == null`).
   */
  class ChainingHashMapIterator<K, V> {
    var buckets: seq<Chain<K, V>>
    var numElements: int
    var count: int
    var index: int
    var pos: int

    ghost predicate Valid()
      reads this
    {
      0 <= index < |buckets| && 0 <= pos <= |buckets[index]| && 0 <= count &&
      count + |buckets[index][pos..] + Flatten(buckets[index + 1..])| == numElements
    }

    /** The pairs still to be handed out, in order. */
    ghost function Remaining(): seq<(K, V)>
      reads this
      requires Valid()
    {
      buckets[index][pos..] + Flatten(buckets[index + 1..])
    }

    constructor (b: seq<Chain<K, V>>, n: int)
      requires |b| > 0 && |Flatten(b)| == n
      ensures Valid() && Remaining() == Flatten(b) && count == 0
    {
      buckets := b;
      numElements := n;
      count := 0;
      index := 0;
      pos := 0;
      new;
      assert b[0][0..] == b[0];
    }

    /** hasNext: fewer pairs handed out than the map holds. */
    function HasNext(): (b: bool)
      reads this
      requires Valid()
      ensures b <==> Remaining() != []
    {
      count < numElements
    }

    /**
     * next: throws NoSuchElementException when nothing remains; otherwise
     * skips empty chain ends and returns the next key.
     */
    method Next() returns (r: Result<K>)
      requires Valid()
      modifies this
      ensures Valid()
      ensures old(Remaining()) == [] ==> r == Err(NoSuchElement) && Remaining() == old(Remaining())
      ensures old(Remaining()) != [] ==> r == Ok(old(Remaining())[0].0) && Remaining() == old(Remaining())[1..]
    {
      if !HasNext() {
        return Err(NoSuchElement);
      }
      ghost var rest := Remaining();
      while pos == |buckets[index]|
        invariant Valid() && Remaining() == rest && rest != []
        decreases |buckets| - index
      {
        assert Remaining() == Flatten(buckets[index + 1..]);
        assert index + 1 < |buckets|;
        assert buckets[index + 1..][1..] == buckets[index + 2..];
        index := index + 1;
        pos := 0;
        assert buckets[index][0..] == buckets[index];
      }
      var key := buckets[index][pos].0;
      count := count + 1;
      assert buckets[index][pos + 1..] == buckets[index][pos..][1..];
      pos := pos + 1;
      r := Ok(key);
    }
  }
}
