/**
 * OpenAddressingHashMap: a hash table with linear probing. Every cell of the
 * table is never used (null), a tombstone left by a removal, or a live pair.
 * Probing starts at a key's home index and steps one cell at a time, wrapping
 * around, until it reaches a never-used cell; tombstones are stepped over and
 * never reused, so `numFilledCells` counts live cells and tombstones together.
 */
module OpenAddressingHashMaps {
  import opened Outcomes
  import opened Hashing

  /** A cell of the table. */
  datatype Cell<K, V> = Empty | Tombstone | Live(key: K, value: V)

  type Cells<K, V> = seq<Cell<K, V>>

  /**
   * Cell `i`. The invariants below quantify over this term alone, so that
   * they are used only where a proof names a cell.
   */
  ghost function At<K, V>(s: Cells<K, V>, i: int): Cell<K, V>
    requires 0 <= i < |s|
  {
    s[i]
  }

  /** Cell `p` lies on the circular probe path that starts at `h`, before cell `i`. */
  predicate Between(h: int, p: int, i: int)
  {
    if h <= i then h <= p < i else h <= p || p < i
  }

  /** The number of probe steps from cell `i` to cell `e` in a table of `c` cells. */
  function Dist(i: int, e: int, c: int): int
  {
    if i <= e then e - i else e + c - i
  }

  /**
   * One probe step from `i`, short of a cell `e` the path has not reached, adds
   * exactly `i` to the path and brings the probe one step closer to `e`.
   */
  lemma ProbeAdvance(h: int, i: int, e: int, c: int)
    requires 0 <= h < c && 0 <= i < c && 0 <= e < c && e != i && !Between(h, e, i)
    ensures !Between(h, e, NextIndex(i, c))
    ensures forall p :: 0 <= p < c ==> (Between(h, p, NextIndex(i, c)) <==> Between(h, p, i) || p == i)
    ensures 0 <= Dist(NextIndex(i, c), e, c) < Dist(i, e, c)
  {
  }

  /** Of two cells, one comes first on the probe path from `h`, or they are the same cell. */
  lemma ProbeOrder(h: int, i: int, j: int, c: int)
    requires 0 <= h < c && 0 <= i < c && 0 <= j < c
    ensures Between(h, i, j) || i == j || Between(h, j, i)
  {
  }

  /** 1 for a used cell (live or tombstone), 0 for a never-used one. */
  function Weight<K, V>(c: Cell<K, V>): nat
  {
    if c.Empty? then 0 else 1
  }

  /** The number of used cells. */
  function Filled<K, V>(s: Cells<K, V>): nat
  {
    if s == [] then 0 else Weight(s[0]) + Filled(s[1..])
  }

  /** Every live cell agrees with the map `m`. */
  ghost predicate Placed<K, V>(s: Cells<K, V>, m: map<K, V>)
  {
    forall i {:trigger At(s, i)} :: 0 <= i < |s| && At(s, i).Live? ==>
      At(s, i).key in m && m[At(s, i).key] == At(s, i).value
  }

  /** No never-used cell lies on the probe path from a live key's home index to its cell. */
  ghost predicate Probed<K, V>(s: Cells<K, V>, hash: K -> int)
    requires |s| > 0
  {
    forall i, p {:trigger At(s, i), At(s, p)} ::
      0 <= i < |s| && 0 <= p < |s| && At(s, i).Live? && Between(HomeIndex(hash, At(s, i).key, |s|), p, i) ==>
        !At(s, p).Empty?
  }

  /** No key is live in two cells. */
  ghost predicate UniqueKeys<K, V>(s: Cells<K, V>)
  {
    forall i, j {:trigger At(s, i), At(s, j)} ::
      0 <= i < |s| && 0 <= j < |s| && At(s, i).Live? && At(s, j).Live? && At(s, i).key == At(s, j).key ==> i == j
  }

  /** The cell `slot` gives for `k`: like `At`, the term an invariant below quantifies over. */
  ghost function SlotOf<K>(slot: map<K, int>, k: K): int
    requires k in slot
  {
    slot[k]
  }

  /** `slot` gives, for each key of `m`, the live cell holding it. */
  ghost predicate Slotted<K, V>(s: Cells<K, V>, m: map<K, V>, slot: map<K, int>)
  {
    slot.Keys == m.Keys &&
    forall k {:trigger SlotOf(slot, k)} :: k in slot ==> 0 <= SlotOf(slot, k) < |s| && At(s, SlotOf(slot, k)) == Live(k, m[k])
  }

  /** The cells represent `m`: each key once, reachable by probing from its home index. */
  ghost predicate Represents<K, V>(s: Cells<K, V>, hash: K -> int, m: map<K, V>, slot: map<K, int>)
  {
    |s| > 0 && Placed(s, m) && Probed(s, hash) && UniqueKeys(s) && Slotted(s, m, slot)
  }

  /**
   * The cells represent `m`, `n` counts its keys and `filled` the used cells;
   * a live cell is a used cell, so `n` is at most `filled`.
   */
  ghost predicate Holds<K, V>(s: Cells<K, V>, hash: K -> int, m: map<K, V>, slot: map<K, int>, n: int, filled: int)
  {
    Represents(s, hash, m, slot) && n == |m| && filled == Filled(s) && n <= filled
  }

  lemma {:induction false} FilledUpdate<K, V>(s: Cells<K, V>, i: int, c: Cell<K, V>)
    requires 0 <= i < |s|
    ensures Filled(s[i := c]) == Filled(s) - Weight(s[i]) + Weight(c)
  {
    if i > 0 {
      FilledUpdate(s[1..], i - 1, c);
      assert s[i := c][1..] == s[1..][i - 1 := c];
    } else {
      assert s[i := c][1..] == s[1..];
    }
  }

  /** A table with fewer used cells than cells has a never-used cell. */
  lemma {:induction false} EmptyExists<K, V>(s: Cells<K, V>)
    requires Filled(s) < |s|
    ensures exists e :: 0 <= e < |s| && s[e].Empty?
  {
    if !s[0].Empty? {
      EmptyExists(s[1..]);
      var e :| 0 <= e < |s[1..]| && s[1..][e].Empty?;
      assert s[e + 1].Empty?;
    }
  }

  lemma {:induction false} FilledNone<K, V>(s: Cells<K, V>)
    requires forall i :: 0 <= i < |s| ==> s[i].Empty?
    ensures Filled(s) == 0
  {
    if s != [] {
      FilledNone(s[1..]);
    }
  }

  /** A table of never-used cells represents the empty map. */
  lemma EmptyHolds<K, V>(s: Cells<K, V>, hash: K -> int)
    requires |s| > 0 && forall i :: 0 <= i < |s| ==> s[i].Empty?
    ensures Holds(s, hash, map[], map[], 0, 0)
  {
    FilledNone(s);
  }

  /**
   * A probe for `k` that reaches a never-used cell without passing a live cell
   * holding `k` shows that `k` is absent.
   */
  lemma ProbeMiss<K, V>(s: Cells<K, V>, hash: K -> int, m: map<K, V>, slot: map<K, int>, k: K, e: int)
    requires Represents(s, hash, m, slot) && 0 <= e < |s| && s[e].Empty?
    requires forall p :: 0 <= p < |s| && Between(HomeIndex(hash, k, |s|), p, e) ==>
      !(At(s, p).Live? && At(s, p).key == k)
    ensures k !in m
  {
    if k in m {
      var i := SlotOf(slot, k);
      var h := HomeIndex(hash, k, |s|);
      assert At(s, i) == Live(k, m[k]) && At(s, e) == s[e];
      ProbeOrder(h, i, e, |s|);
    }
  }

  /** A live cell holding `k` is the cell `slot` gives for it. */
  lemma ProbeHit<K, V>(s: Cells<K, V>, hash: K -> int, m: map<K, V>, slot: map<K, int>, k: K, i: int)
    requires Represents(s, hash, m, slot) && 0 <= i < |s| && s[i].Live? && s[i].key == k
    ensures k in m && SlotOf(slot, k) == i && s[i] == Live(k, m[k])
  {
    assert At(s, i) == s[i];
    assert At(s, SlotOf(slot, k)) == Live(k, m[k]);
  }

  /** Filling the first never-used cell of a fresh key's probe path represents the map with that key added. */
  lemma PlaceKeeps<K, V>(s: Cells<K, V>, hash: K -> int, m: map<K, V>, slot: map<K, int>, k: K, v: V, e: int)
    requires Represents(s, hash, m, slot) && k !in m && 0 <= e < |s| && s[e].Empty?
    requires forall p :: 0 <= p < |s| && Between(HomeIndex(hash, k, |s|), p, e) ==> !At(s, p).Empty?
    ensures Represents(s[e := Live(k, v)], hash, m[k := v], slot[k := e])
  {
    var s' := s[e := Live(k, v)];
    var m' := m[k := v];
    var slot' := slot[k := e];
    forall i | 0 <= i < |s'| && At(s', i).Live? ensures At(s', i).key in m' && m'[At(s', i).key] == At(s', i).value {
      if i != e {
        assert At(s', i) == At(s, i);
      }
    }
    forall i, p | 0 <= i < |s'| && 0 <= p < |s'| && At(s', i).Live? && Between(HomeIndex(hash, At(s', i).key, |s'|), p, i)
      ensures !At(s', p).Empty?
    {
      if i == e {
        assert p != e;
        assert At(s', p) == At(s, p);
      } else {
        assert At(s', i) == At(s, i);
        if p != e {
          assert At(s', p) == At(s, p);
        }
      }
    }
    forall i, j | 0 <= i < |s'| && 0 <= j < |s'| && At(s', i).Live? && At(s', j).Live? && At(s', i).key == At(s', j).key
      ensures i == j
    {
      assert At(s', i) == if i == e then Live(k, v) else At(s, i);
      assert At(s', j) == if j == e then Live(k, v) else At(s, j);
    }
    forall x | x in slot' ensures 0 <= SlotOf(slot', x) < |s'| && At(s', SlotOf(slot', x)) == Live(x, m'[x]) {
      if x != k {
        assert At(s, SlotOf(slot, x)) == Live(x, m[x]) && At(s, e) == s[e];
      }
    }
  }

  /** Replacing a present key's cell by a tombstone represents the map with that key removed. */
  lemma TombstoneKeeps<K, V>(s: Cells<K, V>, hash: K -> int, m: map<K, V>, slot: map<K, int>, k: K)
    requires Represents(s, hash, m, slot) && k in m
    ensures Represents(s[SlotOf(slot, k) := Tombstone], hash, m - {k}, slot - {k})
  {
    var e := SlotOf(slot, k);
    var s' := s[e := Tombstone];
    var m' := m - {k};
    var slot' := slot - {k};
    assert At(s, e) == Live(k, m[k]);
    forall i | 0 <= i < |s'| && At(s', i).Live? ensures At(s', i).key in m' && m'[At(s', i).key] == At(s', i).value {
      assert At(s', i) == At(s, i);
    }
    forall i, p | 0 <= i < |s'| && 0 <= p < |s'| && At(s', i).Live? && Between(HomeIndex(hash, At(s', i).key, |s'|), p, i)
      ensures !At(s', p).Empty?
    {
      assert At(s', i) == At(s, i);
      if p != e {
        assert At(s', p) == At(s, p);
      }
    }
    forall i, j | 0 <= i < |s'| && 0 <= j < |s'| && At(s', i).Live? && At(s', j).Live? && At(s', i).key == At(s', j).key
      ensures i == j
    {
      assert At(s', i) == At(s, i) && At(s', j) == At(s, j);
    }
    forall x | x in slot' ensures 0 <= SlotOf(slot', x) < |s'| && At(s', SlotOf(slot', x)) == Live(x, m'[x]) {
      assert At(s, SlotOf(slot, x)) == Live(x, m[x]);
    }
  }

  /** Replacing the value in a present key's cell represents the map with that value replaced. */
  lemma OverwriteKeeps<K, V>(s: Cells<K, V>, hash: K -> int, m: map<K, V>, slot: map<K, int>, k: K, v: V)
    requires Represents(s, hash, m, slot) && k in m
    ensures Represents(s[SlotOf(slot, k) := Live(k, v)], hash, m[k := v], slot)
  {
    var e := SlotOf(slot, k);
    var s' := s[e := Live(k, v)];
    var m' := m[k := v];
    assert At(s, e) == Live(k, m[k]);
    forall i | 0 <= i < |s'| && At(s', i).Live? ensures At(s', i).key in m' && m'[At(s', i).key] == At(s', i).value {
      if i != e {
        assert At(s', i) == At(s, i);
      }
    }
    forall i, p | 0 <= i < |s'| && 0 <= p < |s'| && At(s', i).Live? && Between(HomeIndex(hash, At(s', i).key, |s'|), p, i)
      ensures !At(s', p).Empty?
    {
      assert At(s', i).key == At(s, i).key;
      if p != e {
        assert At(s', p) == At(s, p);
      }
    }
    forall i, j | 0 <= i < |s'| && 0 <= j < |s'| && At(s', i).Live? && At(s', j).Live? && At(s', i).key == At(s', j).key
      ensures i == j
    {
      assert At(s', i).key == At(s, i).key && At(s', j).key == At(s, j).key;
    }
    forall x | x in slot ensures 0 <= SlotOf(slot, x) < |s'| && At(s', SlotOf(slot, x)) == Live(x, m'[x]) {
      assert At(s, SlotOf(slot, x)) == Live(x, m[x]);
    }
  }

  /** insert's update of the cells, with the facts the map's invariant needs. */
  lemma PlaceStep<K, V>(s: Cells<K, V>, hash: K -> int, m: map<K, V>, slot: map<K, int>, n: int, f: int, k: K, v: V, e: int)
    requires Holds(s, hash, m, slot, n, f) && k !in m && 0 <= e < |s| && s[e].Empty?
    requires forall p :: 0 <= p < |s| && Between(HomeIndex(hash, k, |s|), p, e) ==> !At(s, p).Empty?
    ensures Holds(s[e := Live(k, v)], hash, m[k := v], slot[k := e], n + 1, f + 1)
  {
    PlaceKeeps(s, hash, m, slot, k, v, e);
    FilledUpdate(s, e, Live(k, v));
  }

  /** remove's update of the cells, with the facts the map's invariant needs. */
  lemma TombstoneStep<K, V>(s: Cells<K, V>, hash: K -> int, m: map<K, V>, slot: map<K, int>, n: int, f: int, k: K)
    requires Holds(s, hash, m, slot, n, f) && k in m
    ensures Holds(s[SlotOf(slot, k) := Tombstone], hash, m - {k}, slot - {k}, n - 1, f)
  {
    TombstoneKeeps(s, hash, m, slot, k);
    assert At(s, SlotOf(slot, k)) == Live(k, m[k]);
    FilledUpdate(s, SlotOf(slot, k), Tombstone);
  }

  /** put's update of the cells, with the facts the map's invariant needs. */
  lemma OverwriteStep<K, V>(s: Cells<K, V>, hash: K -> int, m: map<K, V>, slot: map<K, int>, n: int, f: int, k: K, v: V)
    requires Holds(s, hash, m, slot, n, f) && k in m
    ensures Holds(s[SlotOf(slot, k) := Live(k, v)], hash, m[k := v], slot, n, f)
  {
    OverwriteKeeps(s, hash, m, slot, k, v);
    assert At(s, SlotOf(slot, k)) == Live(k, m[k]);
    FilledUpdate(s, SlotOf(slot, k), Live(k, v));
  }

  /** The live pairs of the cells, as a map. */
  ghost function LiveMap<K, V>(s: Cells<K, V>): map<K, V>
  {
    if s == [] then map[]
    else
      var last := s[|s| - 1];
      var rest := LiveMap(s[..|s| - 1]);
      if last.Live? then rest[last.key := last.value] else rest
  }

  /** The cells before `i` hold `x` exactly when its cell is below `i`, and then with its value. */
  lemma {:induction false} PrefixLive<K, V>(s: Cells<K, V>, hash: K -> int, m: map<K, V>, slot: map<K, int>, i: int, x: K)
    requires Represents(s, hash, m, slot) && 0 <= i <= |s|
    ensures x in LiveMap(s[..i]) <==> x in m && SlotOf(slot, x) < i
    ensures x in LiveMap(s[..i]) ==> LiveMap(s[..i])[x] == m[x]
  {
    if i > 0 {
      PrefixLive(s, hash, m, slot, i - 1, x);
      assert s[..i][..i - 1] == s[..i - 1];
      assert s[..i][i - 1] == At(s, i - 1);
      if x in m {
        assert At(s, SlotOf(slot, x)) == Live(x, m[x]);
      }
    }
  }

  /** The live pairs of cells that represent `m` are `m`. */
  lemma LiveMapIsMap<K, V>(s: Cells<K, V>, hash: K -> int, m: map<K, V>, slot: map<K, int>)
    requires Represents(s, hash, m, slot)
    ensures LiveMap(s) == m
  {
    var t := s[..|s|];
    assert t == s;
    forall x | x in LiveMap(s) ensures x in m && LiveMap(s)[x] == m[x] {
      PrefixLive(s, hash, m, slot, |s|, x);
    }
    forall x | x in m ensures x in LiveMap(s) {
      PrefixLive(s, hash, m, slot, |s|, x);
      assert 0 <= SlotOf(slot, x) < |s|;
    }
    assert LiveMap(s).Keys == m.Keys;
  }

  /** The keys of the live cells, in cell order. */
  ghost function LiveKeys<K, V>(s: Cells<K, V>): seq<K>
  {
    if s == [] then [] else (if s[0].Live? then [s[0].key] else []) + LiveKeys(s[1..])
  }

  lemma {:induction false} LiveKeysMembership<K, V>(s: Cells<K, V>, x: K)
    ensures x in LiveKeys(s) <==> exists i :: 0 <= i < |s| && s[i].Live? && s[i].key == x
  {
    if s != [] {
      LiveKeysMembership(s[1..], x);
      if x in LiveKeys(s[1..]) {
        var i :| 0 <= i < |s[1..]| && s[1..][i].Live? && s[1..][i].key == x;
        assert s[i + 1].Live? && s[i + 1].key == x;
      }
      if exists i :: 0 <= i < |s| && s[i].Live? && s[i].key == x {
        var i :| 0 <= i < |s| && s[i].Live? && s[i].key == x;
        if i > 0 {
          assert s[1..][i - 1] == s[i];
        }
      }
    }
  }

  /** A cell that is not live adds no key. */
  lemma SkipDead<K, V>(s: Cells<K, V>, i: int)
    requires 0 <= i < |s| && !s[i].Live?
    ensures LiveKeys(s[i..]) == LiveKeys(s[i + 1..])
  {
    assert s[i..][1..] == s[i + 1..];
  }

  /** A subset has at most as many elements. */
  lemma {:induction false} SubsetSize<T>(a: set<T>, b: set<T>)
    requires a <= b
    ensures |a| <= |b|
    decreases a
  {
    if a != {} {
      var x :| x in a;
      SubsetSize(a - {x}, b - {x});
    }
  }

  class OpenAddressingHashMap<K(==), V> {
    /** hashCode, which the model leaves uninterpreted. */
    const hash: K -> int
    var numElements: int
    var numFilledCells: int
    var capacity: int
    var hashTable: array<Cell<K, V>>
    var primeIdx: nat
    /** The map the table represents. */
    ghost var contents: map<K, V>
    /** The cell holding each key. */
    ghost var slot: map<K, int>

    /** Every invariant but the load bound: the one rehash restores. */
    ghost predicate Table()
      reads this, hashTable
    {
      1 <= primeIdx && capacity == CapacityAt(primeIdx) && capacity >= 2 &&
      hashTable.Length == capacity &&
      Holds(hashTable[..], hash, contents, slot, numElements, numFilledCells)
    }

    ghost predicate Valid()
      reads this, hashTable
    {
      Table() && 4 * numFilledCells <= 3 * capacity
    }

    /** The home index of `k`. */
    ghost function Home(k: K): int
      reads this
      requires capacity > 0
    {
      HomeIndex(hash, k, capacity)
    }

    /** A table of capacity 5 (the prime at index 1) with no used cell. */
    constructor (hash: K -> int)
      ensures Valid() && this.hash == hash && contents == map[]
      ensures capacity == 5 && numElements == 0 && numFilledCells == 0 && primeIdx == 1
    {
      this.hash := hash;
      numElements := 0;
      numFilledCells := 0;
      primeIdx := INITIAL_PRIME_INDEX;
      capacity := PRIMES[INITIAL_PRIME_INDEX];
      contents := map[];
      slot := map[];
      new;
      hashTable := new Cell<K, V>[capacity](_ => Cell.Empty);
      EmptyHolds(hashTable[..], hash);
    }

    /**
     * find: probe from the home index until a never-used cell, stepping over
     * tombstones; the index of the live cell holding `k`, or -1.
     */
    method Find(k: K) returns (r: int)
      requires Table() && numFilledCells < capacity
      ensures -1 <= r < capacity
      ensures r == -1 <==> k !in contents
      ensures r >= 0 ==> r == SlotOf(slot, k) && hashTable[r] == Live(k, contents[k])
    {
      var index := HomeIndex(hash, k, capacity);
      ghost var h := index;
      ghost var s := hashTable[..];
      EmptyExists(s);
      ghost var e :| 0 <= e < |s| && s[e].Empty?;
      while !hashTable[index].Empty?
        invariant unchanged(this) && hashTable[..] == s
        invariant 0 <= index < capacity && !Between(h, e, index)
        invariant forall p :: 0 <= p < capacity && Between(h, p, index) ==>
          !At(s, p).Empty? && !(At(s, p).Live? && At(s, p).key == k)
        decreases Dist(index, e, capacity)
      {
        if hashTable[index].Live? && hashTable[index].key == k {
          ProbeHit(s, hash, contents, slot, k, index);
          return index;
        }
        assert At(s, index) == hashTable[index];
        ProbeAdvance(h, index, e, capacity);
        index := NextIndex(index, capacity);
      }
      ProbeMiss(s, hash, contents, slot, k, index);
      return -1;
    }

    /**
     * The probe-and-fill step of insert: probe from the home index until a
     * never-used cell, stepping over tombstones; a live cell holding `k`
     * throws and changes nothing; otherwise the pair fills that cell and both
     * counters grow by one.
     */
    method Place(k: K, v: V) returns (r: Result<()>)
      requires Table() && numFilledCells < capacity
      modifies this, hashTable
      ensures Table()
      ensures hashTable == old(hashTable) && capacity == old(capacity) && primeIdx == old(primeIdx)
      ensures k in old(contents) ==>
        r == Err(IllegalArgument) && unchanged(this) && hashTable[..] == old(hashTable[..])
      ensures k !in old(contents) ==>
        r == Ok(()) && contents == old(contents)[k := v] &&
        numElements == old(numElements) + 1 && numFilledCells == old(numFilledCells) + 1 &&
        old(hashTable[..])[SlotOf(slot, k)].Empty? && hashTable[..] == old(hashTable[..])[SlotOf(slot, k) := Live(k, v)] &&
        forall p :: 0 <= p < capacity && Between(Home(k), p, SlotOf(slot, k)) ==> !old(hashTable[p]).Empty?
    {
      var index := HomeIndex(hash, k, capacity);
      ghost var h := index;
      ghost var s := hashTable[..];
      EmptyExists(s);
      ghost var e :| 0 <= e < |s| && s[e].Empty?;
      while !hashTable[index].Empty?
        invariant unchanged(this) && hashTable[..] == s
        invariant 0 <= index < capacity && !Between(h, e, index)
        invariant forall p :: 0 <= p < capacity && Between(h, p, index) ==>
          !At(s, p).Empty? && !(At(s, p).Live? && At(s, p).key == k)
        decreases Dist(index, e, capacity)
      {
        if hashTable[index].Live? && hashTable[index].key == k {
          ProbeHit(s, hash, contents, slot, k, index);
          return Err(IllegalArgument);
        }
        assert At(s, index) == hashTable[index];
        ProbeAdvance(h, index, e, capacity);
        index := NextIndex(index, capacity);
      }
      ProbeMiss(s, hash, contents, slot, k, index);
      Fill(k, v, index);
      r := Ok(());
    }

    /** The fill at the end of insert's probe: the pair takes the never-used cell `e` and both counters grow. */
    method Fill(k: K, v: V, e: int)
      requires Table() && k !in contents && 0 <= e < capacity && hashTable[e].Empty?
      requires forall p :: 0 <= p < capacity && Between(Home(k), p, e) ==> !At(hashTable[..], p).Empty?
      modifies this, hashTable
      ensures Table() && slot == old(slot)[k := e]
      ensures hashTable == old(hashTable) && capacity == old(capacity) && primeIdx == old(primeIdx)
      ensures contents == old(contents)[k := v] && numElements == old(numElements) + 1 &&
        numFilledCells == old(numFilledCells) + 1 && hashTable[..] == old(hashTable[..])[e := Live(k, v)]
    {
      ghost var s := hashTable[..];
      PlaceStep(s, hash, contents, slot, numElements, numFilledCells, k, v, e);
      hashTable[e] := Live(k, v);
      assert hashTable[..] == s[e := Live(k, v)];
      numElements := numElements + 1;
      numFilledCells := numFilledCells + 1;
      contents := contents[k := v];
      slot := slot[k := e];
    }

    /**
     * insert: a null or present key throws and changes nothing. Otherwise the
     * pair fills the first never-used cell of its probe path; when more than
     * 0.75 of the cells are then used the table is rehashed.
     */
    method Insert(k: Option<K>, v: V) returns (r: Result<()>)
      requires Valid()
      modifies this, hashTable
      ensures Valid()
      ensures (k.None? || k.value in old(contents)) ==>
        r == Err(IllegalArgument) && unchanged(this) && hashTable[..] == old(hashTable[..])
      ensures k.Some? && k.value !in old(contents) ==>
        r == Ok(()) && contents == old(contents)[k.value := v] && numElements == old(numElements) + 1
      ensures k.Some? && k.value !in old(contents) && !OverLoaded(old(capacity), old(numFilledCells) + 1) ==>
        hashTable == old(hashTable) && capacity == old(capacity) && primeIdx == old(primeIdx) &&
        numFilledCells == old(numFilledCells) + 1 && hashTable[..] == old(hashTable[..])[SlotOf(slot, k.value) := Live(k.value, v)]
      ensures k.Some? && k.value !in old(contents) && OverLoaded(old(capacity), old(numFilledCells) + 1) ==>
        fresh(hashTable) && primeIdx == old(primeIdx) + 1 && capacity == NextCapacity(primeIdx, old(capacity)) &&
        numFilledCells == numElements
    {
      if k.None? {
        return Err(IllegalArgument);
      }
      r := Place(k.value, v);
      if r.Ok? && OverLoaded(capacity, numFilledCells) {
        Rehash();
      }
    }

    /**
     * rehash: advance the prime index, pick the next capacity, and insert
     * every live pair of the old table into a fresh one, in cell order.
     * Tombstones are dropped, so afterwards the used cells are the live ones.
     */
    method Rehash()
      requires Table() && 4 * (numFilledCells - 1) <= 3 * capacity
      modifies this
      ensures Valid() && contents == old(contents) && numElements == old(numElements) && numFilledCells == numElements
      ensures fresh(hashTable) && primeIdx == old(primeIdx) + 1 && capacity == NextCapacity(primeIdx, old(capacity))
    {
      ghost var all := contents;
      ghost var allSlots := slot;
      ghost var snapshot := hashTable[..];
      assert Represents(snapshot, hash, all, allSlots) && |all| == numElements <= numFilledCells;
      var newIdx := primeIdx + 1;
      var newCapacity := NextCapacity(newIdx, capacity);
      RehashRestoresLoad(primeIdx, numFilledCells);
      CapacityGrows(newIdx);
      CapacityNext(primeIdx, capacity);
      assert newCapacity == CapacityAt(newIdx) && newCapacity >= 2 && 4 * numElements <= 3 * newCapacity;
      var temp := hashTable;
      Reinitialize(newIdx, newCapacity);
      assert temp[..] == snapshot;
      MoveCells(temp, all, allSlots);
    }

    /** The reinitialisation in rehash: the new prime index and capacity, no pairs, and a fresh table of empty cells. */
    method Reinitialize(newIdx: int, newCapacity: int)
      requires 1 <= newIdx && newCapacity == CapacityAt(newIdx) && newCapacity >= 2
      modifies this
      ensures Valid() && contents == map[] && numElements == 0 && numFilledCells == 0
      ensures fresh(hashTable) && primeIdx == newIdx && capacity == newCapacity
    {
      primeIdx := newIdx;
      capacity := newCapacity;
      numElements := 0;
      numFilledCells := 0;
      contents := map[];
      slot := map[];
      hashTable := new Cell<K, V>[capacity](_ => Cell.Empty);
      EmptyHolds(hashTable[..], hash);
    }

    /**
     * The loop of rehash: each live cell of `temp`, from cell 0 up, is inserted.
     * Each key is new to the current table and the load stays at most 0.75,
     * so insert neither throws nor rehashes again.
     */
    method MoveCells(temp: array<Cell<K, V>>, ghost all: map<K, V>, ghost allSlots: map<K, int>)
      requires Valid() && contents == map[] && numFilledCells == 0 && temp != hashTable
      requires Represents(temp[..], hash, all, allSlots) && 4 * |all| <= 3 * capacity
      modifies this, hashTable
      ensures Valid() && contents == all && numFilledCells == numElements
      ensures hashTable == old(hashTable) && capacity == old(capacity) && primeIdx == old(primeIdx)
    {
      ghost var old_ := temp[..];
      assert old_[..0] == [];
      for i := 0 to temp.Length
        invariant Valid() && contents == LiveMap(old_[..i]) && numFilledCells == numElements
        invariant hashTable == old(hashTable) && capacity == old(capacity) && primeIdx == old(primeIdx)
        invariant temp[..] == old_
      {
        MoveCell(temp, i, old_, all, allSlots);
      }
      assert old_[..|old_|] == old_;
      LiveMapIsMap(old_, hash, all, allSlots);
    }

    /** One step of the loop of rehash: cell `i` of `temp`, when live, is inserted. */
    method MoveCell(temp: array<Cell<K, V>>, i: int, ghost old_: Cells<K, V>, ghost all: map<K, V>, ghost allSlots: map<K, int>)
      requires Valid() && temp != hashTable && 0 <= i < temp.Length && temp[..] == old_
      requires Represents(old_, hash, all, allSlots) && 4 * |all| <= 3 * capacity
      requires contents == LiveMap(old_[..i]) && numFilledCells == numElements
      modifies this, hashTable
      ensures Valid() && contents == LiveMap(old_[..i + 1]) && numFilledCells == numElements
      ensures hashTable == old(hashTable) && capacity == old(capacity) && primeIdx == old(primeIdx)
    {
      ghost var before := contents;
      assert old_[..i + 1][..i] == old_[..i];
      if temp[i].Live? {
        ProbeHit(old_, hash, all, allSlots, temp[i].key, i);
        PrefixLive(old_, hash, all, allSlots, i, temp[i].key);
        forall x | x in contents ensures x in all {
          PrefixLive(old_, hash, all, allSlots, i, x);
        }
        SubsetSize(contents.Keys, all.Keys);
        var r := Place(temp[i].key, temp[i].value);
        SubsetSize(contents.Keys, all.Keys);
        assert LiveMap(old_[..i + 1]) == before[temp[i].key := temp[i].value];
      } else {
        assert LiveMap(old_[..i + 1]) == before;
      }
    }

    /**
     * remove: a null or absent key throws and changes nothing. Otherwise the
     * key's cell becomes a tombstone, the element count drops by one (the
     * used-cell count does not), and the key's value is returned.
     */
    method Remove(k: Option<K>) returns (r: Result<V>)
      requires Valid()
      modifies this, hashTable
      ensures Valid()
      ensures hashTable == old(hashTable) && capacity == old(capacity) && numFilledCells == old(numFilledCells)
      ensures (k.None? || k.value !in old(contents)) ==>
        r == Err(IllegalArgument) && unchanged(this) && hashTable[..] == old(hashTable[..])
      ensures k.Some? && k.value in old(contents) ==>
        r == Ok(old(contents)[k.value]) && contents == old(contents) - {k.value} &&
        numElements == old(numElements) - 1 &&
        hashTable[..] == old(hashTable[..])[old(SlotOf(slot, k.value)) := Tombstone]
    {
      if k.None? {
        return Err(IllegalArgument);
      }
      var index := Find(k.value);
      if index == -1 {
        return Err(IllegalArgument);
      }
      ghost var s := hashTable[..];
      TombstoneStep(s, hash, contents, slot, numElements, numFilledCells, k.value);
      var value := hashTable[index].value;
      hashTable[index] := Tombstone;
      assert hashTable[..] == s[index := Tombstone];
      numElements := numElements - 1;
      contents := contents - {k.value};
      slot := slot - {k.value};
      r := Ok(value);
    }

    /** put: the value in a present key's cell is replaced; a null or absent key throws. */
    method Put(k: Option<K>, v: V) returns (r: Result<()>)
      requires Valid()
      modifies this, hashTable
      ensures Valid()
      ensures hashTable == old(hashTable) && capacity == old(capacity) &&
        numElements == old(numElements) && numFilledCells == old(numFilledCells)
      ensures (k.None? || k.value !in old(contents)) ==>
        r == Err(IllegalArgument) && unchanged(this) && hashTable[..] == old(hashTable[..])
      ensures k.Some? && k.value in old(contents) ==>
        r == Ok(()) && contents == old(contents)[k.value := v] &&
        hashTable[..] == old(hashTable[..])[SlotOf(slot, k.value) := Live(k.value, v)]
    {
      if k.None? {
        return Err(IllegalArgument);
      }
      var index := Find(k.value);
      if index == -1 {
        return Err(IllegalArgument);
      }
      ghost var s := hashTable[..];
      OverwriteStep(s, hash, contents, slot, numElements, numFilledCells, k.value, v);
      hashTable[index] := Live(k.value, v);
      assert hashTable[..] == s[index := Live(k.value, v)];
      contents := contents[k.value := v];
      r := Ok(());
    }

    /** get: the value of a present key; a null or absent key throws. */
    method Get(k: Option<K>) returns (r: Result<V>)
      requires Valid()
      ensures (k.None? || k.value !in contents) ==> r == Err(IllegalArgument)
      ensures k.Some? && k.value in contents ==> r == Ok(contents[k.value])
    {
      if k.None? {
        return Err(IllegalArgument);
      }
      var index := Find(k.value);
      if index == -1 {
        return Err(IllegalArgument);
      }
      r := Ok(hashTable[index].value);
    }

    /** has: false for null, else whether the key is present. */
    method Has(k: Option<K>) returns (b: bool)
      requires Valid()
      ensures b <==> k.Some? && k.value in contents
    {
      if k.None? {
        return false;
      }
      var index := Find(k.value);
      b := index != -1;
    }

    function Size(): (n: int)
      reads this, hashTable
      ensures Valid() ==> n == |contents|
    {
      numElements
    }

    /** iterator: the keys of the live cells, in cell order. */
    method Iterator() returns (it: OpenAddressingHashMapIterator<K, V>)
      requires Valid()
      ensures fresh(it) && it.Valid() && it.Remaining() == LiveKeys(hashTable[..])
      ensures forall x :: x in it.Remaining() <==> x in contents
    {
      it := new OpenAddressingHashMapIterator(hashTable[..]);
      var s := hashTable[..];
      forall x ensures x in LiveKeys(s) <==> x in contents {
        LiveKeysMembership(s, x);
        if x in contents {
          assert At(s, SlotOf(slot, x)) == Live(x, contents[x]);
        }
        if x in LiveKeys(s) {
          var i :| 0 <= i < |s| && s[i].Live? && s[i].key == x;
          ProbeHit(s, hash, contents, slot, x, i);
        }
      }
    }
  }

  /**
   * OpenAddressingHashMapIterator over the cells as they were when the
   * iterator was made: `currentIndex` is the next live cell, or the capacity
   * when none is left.
   */
  class OpenAddressingHashMapIterator<K, V> {
    const cells: Cells<K, V>
    var currentIndex: int

    ghost predicate Valid()
      reads this
    {
      0 <= currentIndex <= |cells| && (currentIndex < |cells| ==> cells[currentIndex].Live?)
    }

    /** The keys still to be handed out. */
    ghost function Remaining(): seq<K>
      reads this
      requires Valid()
    {
      LiveKeys(cells[currentIndex..])
    }

    /** The first live cell from `i` on, or the end; the cells skipped add no key. */
    static method SkipToLive(s: Cells<K, V>, i: int) returns (j: int)
      requires 0 <= i <= |s|
      ensures i <= j <= |s| && (j < |s| ==> s[j].Live?)
      ensures LiveKeys(s[j..]) == LiveKeys(s[i..])
    {
      j := i;
      while j < |s| && !s[j].Live?
        invariant i <= j <= |s| && LiveKeys(s[j..]) == LiveKeys(s[i..])
      {
        SkipDead(s, j);
        j := j + 1;
      }
    }

    /** The constructor moves to the first live cell. */
    constructor (cells: Cells<K, V>)
      ensures Valid() && this.cells == cells && Remaining() == LiveKeys(cells)
    {
      this.cells := cells;
      var first := SkipToLive(cells, 0);
      currentIndex := first;
      assert cells[0..] == cells;
    }

    /** hasNext: whether a live cell is left. */
    function HasNext(): (b: bool)
      reads this
      requires Valid()
      ensures b <==> Remaining() != []
    {
      assert currentIndex < |cells| ==> cells[currentIndex..][0] == cells[currentIndex];
      currentIndex < |cells|
    }

    /**
     * next: throws NoSuchElementException when no live cell is left;
     * otherwise the next key, and the index moves to the following live cell.
     */
    method Next() returns (r: Result<K>)
      requires Valid()
      modifies this
      ensures Valid()
      ensures old(Remaining()) == [] ==> r == Err(NoSuchElement) && Remaining() == []
      ensures old(Remaining()) != [] ==> r == Ok(old(Remaining())[0]) && Remaining() == old(Remaining())[1..]
    {
      if !HasNext() {
        return Err(NoSuchElement);
      }
      var key := cells[currentIndex].key;
      assert cells[currentIndex..][1..] == cells[currentIndex + 1..];
      currentIndex := SkipToLive(cells, currentIndex + 1);
      r := Ok(key);
    }
  }
}
