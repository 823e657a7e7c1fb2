/**
 * ArrayMapUseArrayListForEntries: a map kept as an unsorted list of
 * key/value entries. Every operation scans the list from the front.
 */
module ArrayListMaps {
  import opened Outcomes

  type Entries<K, V> = seq<(K, V)>

  /** No key occurs in two entries. */
  ghost predicate DistinctKeys<K, V>(d: Entries<K, V>)
  {
    forall i, j :: 0 <= i < j < |d| ==> d[i].0 != d[j].0
  }

  /** The map the entry list stands for. */
  ghost function EntriesMap<K, V>(d: Entries<K, V>): map<K, V>
  {
    if d == [] then map[] else EntriesMap(d[..|d| - 1])[d[|d| - 1].0 := d[|d| - 1].1]
  }

  /** The keys of the entries, in list order. */
  function KeysOf<K, V>(d: Entries<K, V>): (ks: seq<K>)
    ensures |ks| == |d| && forall i :: 0 <= i < |d| ==> ks[i] == d[i].0
  {
    if d == [] then [] else [d[0].0] + KeysOf(d[1..])
  }

  /** A key is mapped exactly when some entry holds it. */
  lemma {:induction false} EntriesMapKeys<K, V>(d: Entries<K, V>, x: K)
    ensures x in EntriesMap(d) <==> x in KeysOf(d)
  {
    if d != [] {
      var p := d[..|d| - 1];
      EntriesMapKeys(p, x);
      assert KeysOf(d) == KeysOf(p) + [d[|d| - 1].0];
    }
  }

  /** With distinct keys, the entry at `i` gives the value of its key. */
  lemma {:induction false} EntriesMapAt<K, V>(d: Entries<K, V>, i: int)
    requires DistinctKeys(d) && 0 <= i < |d|
    ensures d[i].0 in EntriesMap(d) && EntriesMap(d)[d[i].0] == d[i].1
  {
    if i < |d| - 1 {
      var p := d[..|d| - 1];
      EntriesMapAt(p, i);
      assert p[i] == d[i];
    }
  }

  /** With distinct keys, the map has one pair per entry. */
  lemma {:induction false} EntriesMapSize<K, V>(d: Entries<K, V>)
    requires DistinctKeys(d)
    ensures |EntriesMap(d)| == |d|
  {
    if d != [] {
      var p := d[..|d| - 1];
      EntriesMapSize(p);
      EntriesMapKeys(p, d[|d| - 1].0);
      assert d[|d| - 1].0 !in KeysOf(p);
    }
  }

  /** Dropping the entry at `i` drops its key from the map and nothing else. */
  lemma {:induction false} EntriesMapRemove<K, V>(d: Entries<K, V>, i: int)
    requires DistinctKeys(d) && 0 <= i < |d|
    ensures EntriesMap(d[..i] + d[i + 1..]) == EntriesMap(d) - {d[i].0}
  {
    var p := d[..|d| - 1];
    var last := d[|d| - 1];
    if i == |d| - 1 {
      assert d[..i] + d[i + 1..] == p;
      EntriesMapKeys(p, last.0);
      assert last.0 !in KeysOf(p);
    } else {
      assert DistinctKeys(p);
      EntriesMapRemove(p, i);
      var r := d[..i] + d[i + 1..];
      assert r[..|r| - 1] == p[..i] + p[i + 1..];
      assert r[|r| - 1] == last;
      assert last.0 != d[i].0;
      assert EntriesMap(r) == (EntriesMap(p) - {d[i].0})[last.0 := last.1];
    }
  }

  /** Giving the entry at `i` a new value changes only that key's value. */
  lemma {:induction false} EntriesMapUpdate<K, V>(d: Entries<K, V>, i: int, v: V)
    requires DistinctKeys(d) && 0 <= i < |d|
    ensures EntriesMap(d[i := (d[i].0, v)]) == EntriesMap(d)[d[i].0 := v]
  {
    var p := d[..|d| - 1];
    var u := d[i := (d[i].0, v)];
    if i == |d| - 1 {
      assert u[..|u| - 1] == p;
    } else {
      EntriesMapUpdate(p, i, v);
      assert u[..|u| - 1] == p[i := (d[i].0, v)];
    }
  }

  /** One entry rendered as toString does: `key: value`. */
  function EntryString<K, V>(e: (K, V), keyString: K -> string, valueString: V -> string): string
  {
    keyString(e.0) + ": " + valueString(e.1)
  }

  /** The entries rendered in list order, with ", " between consecutive entries. */
  function Joined<K, V>(d: Entries<K, V>, keyString: K -> string, valueString: V -> string): string
  {
    if d == [] then ""
    else if |d| == 1 then EntryString(d[0], keyString, valueString)
    else Joined(d[..|d| - 1], keyString, valueString) + ", " + EntryString(d[|d| - 1], keyString, valueString)
  }

  /** The text of toString: the joined entries in braces. */
  function Rendered<K, V>(d: Entries<K, V>, keyString: K -> string, valueString: V -> string): (s: string)
    ensures |s| >= 2 && s[0] == '{' && s[|s| - 1] == '}'
  {
    "{" + Joined(d, keyString, valueString) + "}"
  }

  /** An empty map renders as "{}" and a one-entry map as "{k: v}", with no separator. */
  lemma RenderedShort<K, V>(d: Entries<K, V>, keyString: K -> string, valueString: V -> string)
    ensures d == [] ==> Rendered(d, keyString, valueString) == "{}"
    ensures |d| == 1 ==> Rendered(d, keyString, valueString) == "{" + EntryString(d[0], keyString, valueString) + "}"
  {
  }

  /** Rendering two lists one after the other puts exactly one ", " between them. */
  lemma {:induction false} JoinedAppend<K, V>(a: Entries<K, V>, b: Entries<K, V>, keyString: K -> string, valueString: V -> string)
    requires a != [] && b != []
    ensures Joined(a + b, keyString, valueString) == Joined(a, keyString, valueString) + ", " + Joined(b, keyString, valueString)
  {
    var ab := a + b;
    var last := EntryString(b[|b| - 1], keyString, valueString);
    assert ab[|ab| - 1] == b[|b| - 1];
    var ja := Joined(a, keyString, valueString);
    if |b| == 1 {
      assert ab[..|ab| - 1] == a;
      assert Joined(ab, keyString, valueString) == ja + ", " + last;
    } else {
      var b' := b[..|b| - 1];
      assert ab[..|ab| - 1] == a + b';
      JoinedAppend(a, b', keyString, valueString);
      var jb' := Joined(b', keyString, valueString);
      assert Joined(ab, keyString, valueString) == (ja + ", " + jb') + ", " + last;
      assert Joined(b, keyString, valueString) == jb' + ", " + last;
    }
  }

  class ArrayListMap<K(==), V> {
    /** The entry list, in insertion order. */
    var data: Entries<K, V>

    ghost predicate Valid()
      reads this
    {
      DistinctKeys(data)
    }

    /** The map the object stands for. */
    ghost function Contents(): map<K, V>
      reads this
    {
      EntriesMap(data)
    }

    /** An empty map. */
    constructor ()
      ensures Valid() && data == [] && Contents() == map[]
    {
      data := [];
    }

    /**
     * find: a null key throws; otherwise the position of the key's entry in
     * a front-to-back scan, or -1 when no entry holds it.
     */
    method Find(k: Option<K>) returns (r: Result<int>)
      requires Valid()
      ensures k.None? ==> r == Err(IllegalArgument)
      ensures k.Some? ==> r.Ok? && -1 <= r.value < |data|
      ensures k.Some? ==> (r.value == -1 <==> k.value !in Contents())
      ensures k.Some? && r.value >= 0 ==> data[r.value].0 == k.value && Contents()[k.value] == data[r.value].1
    {
      if k.None? {
        return Err(IllegalArgument);
      }
      for i := 0 to |data|
        invariant forall j :: 0 <= j < i ==> data[j].0 != k.value
      {
        if data[i].0 == k.value {
          EntriesMapAt(data, i);
          return Ok(i);
        }
      }
      EntriesMapKeys(data, k.value);
      return Ok(-1);
    }

    /** findForSure: a null or unmapped key throws; otherwise the position of its entry. */
    method FindForSure(k: Option<K>) returns (r: Result<int>)
      requires Valid()
      ensures (k.None? || k.value !in Contents()) ==> r == Err(IllegalArgument)
      ensures k.Some? && k.value in Contents() ==>
        r.Ok? && 0 <= r.value < |data| && data[r.value].0 == k.value && Contents()[k.value] == data[r.value].1
    {
      r := Find(k);
      if r.Ok? && r.value == -1 {
        r := Err(IllegalArgument);
      }
    }

    /** insert: a null or mapped key throws and changes nothing; otherwise the entry is appended. */
    method Insert(k: Option<K>, v: V) returns (r: Result<()>)
      requires Valid()
      modifies this
      ensures Valid()
      ensures (k.None? || k.value in old(Contents())) ==> r == Err(IllegalArgument) && data == old(data)
      ensures k.Some? && k.value !in old(Contents()) ==>
        r == Ok(()) && data == old(data) + [(k.value, v)] && Contents() == old(Contents())[k.value := v]
    {
      var e := Find(k);
      if e.Err? || e.value != -1 {
        return Err(IllegalArgument);
      }
      ghost var d := data;
      EntriesMapKeys(d, k.value);
      data := data + [(k.value, v)];
      assert data[..|data| - 1] == d;
      r := Ok(());
    }

    /**
     * remove: a null or unmapped key throws and changes nothing; otherwise its
     * entry leaves the list, the others keep their order, and its value is returned.
     */
    method Remove(k: Option<K>) returns (r: Result<V>)
      requires Valid()
      modifies this
      ensures Valid()
      ensures (k.None? || k.value !in old(Contents())) ==> r == Err(IllegalArgument) && data == old(data)
      ensures k.Some? && k.value in old(Contents()) ==>
        r == Ok(old(Contents())[k.value]) && Contents() == old(Contents()) - {k.value} &&
        exists i :: 0 <= i < |old(data)| && old(data)[i].0 == k.value && data == old(data)[..i] + old(data)[i + 1..]
    {
      var e := FindForSure(k);
      if e.Err? {
        return Err(IllegalArgument);
      }
      var i := e.value;
      var v := data[i].1;
      ghost var d := data;
      EntriesMapRemove(d, i);
      data := data[..i] + data[i + 1..];
      assert forall j :: 0 <= j < |data| ==> data[j] == if j < i then d[j] else d[j + 1];
      r := Ok(v);
    }

    /** put: a null or unmapped key throws; otherwise only that key's value changes, in place. */
    method Put(k: Option<K>, v: V) returns (r: Result<()>)
      requires Valid()
      modifies this
      ensures Valid()
      ensures (k.None? || k.value !in old(Contents())) ==> r == Err(IllegalArgument) && data == old(data)
      ensures k.Some? && k.value in old(Contents()) ==>
        r == Ok(()) && Contents() == old(Contents())[k.value := v] && KeysOf(data) == KeysOf(old(data))
    {
      var e := FindForSure(k);
      if e.Err? {
        return Err(IllegalArgument);
      }
      var i := e.value;
      EntriesMapUpdate(data, i, v);
      data := data[i := (k.value, v)];
      r := Ok(());
    }

    /** get: a null or unmapped key throws; otherwise its value. */
    method Get(k: Option<K>) returns (r: Result<V>)
      requires Valid()
      ensures (k.None? || k.value !in Contents()) ==> r == Err(IllegalArgument)
      ensures k.Some? && k.value in Contents() ==> r == Ok(Contents()[k.value])
    {
      var e := FindForSure(k);
      if e.Err? {
        return Err(IllegalArgument);
      }
      r := Ok(data[e.value].1);
    }

    /** has: false for null, otherwise whether the key is mapped. */
    method Has(k: Option<K>) returns (b: bool)
      requires Valid()
      ensures b <==> k.Some? && k.value in Contents()
    {
      if k.None? {
        return false;
      }
      var e := Find(k);
      b := e.value != -1;
    }

    /** size: the number of entries. */
    function Size(): int
      reads this
    {
      |data|
    }

    /** The number of entries is the number of mapped keys. */
    lemma SizeCounts()
      requires Valid()
      ensures Size() == |Contents()|
    {
      EntriesMapSize(data);
    }

    /** iterator: a copy of the keys, in list order; each mapped key appears once. */
    method Iterator() returns (ks: seq<K>)
      requires Valid()
      ensures ks == KeysOf(data)
      ensures forall x :: x in ks <==> x in Contents()
      ensures forall i, j :: 0 <= i < j < |ks| ==> ks[i] != ks[j]
    {
      ks := [];
      for i := 0 to |data|
        invariant ks == KeysOf(data[..i])
      {
        assert KeysOf(data[..i + 1]) == KeysOf(data[..i]) + [data[i].0];
        ks := ks + [data[i].0];
      }
      assert data[..|data|] == data;
      forall x ensures x in ks <==> x in Contents() {
        EntriesMapKeys(data, x);
      }
    }

    /**
     * toString: "{", then each entry as "key: value" with ", " after every
     * entry but the last, then "}". How a key or a value is itself written
     * is given by `keyString` and `valueString`.
     */
    method ToString(keyString: K -> string, valueString: V -> string) returns (s: string)
      ensures s == Rendered(data, keyString, valueString)
    {
      s := "{";
      for i := 0 to |data|
        invariant s == "{" + Joined(data[..i], keyString, valueString) + (if 0 < i < |data| then ", " else "")
      {
        assert data[..i + 1][..i] == data[..i];
        s := s + EntryString(data[i], keyString, valueString);
        if i < |data| - 1 {
          s := s + ", ";
        }
      }
      assert data[..|data|] == data;
      s := s + "}";
    }
  }
}
