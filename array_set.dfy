/**
 * ArraySet: an unordered set in the used prefix of an array. Insert appends
 * and doubles the array when it fills; remove moves the last element into
 * the freed slot. Every insert and remove bumps a version number, which the
 * fail-fast iterator compares with the one it was created for.
 */
module ArraySets {
  import opened Outcomes
  import opened SetSpec

  class ArraySet<T(==,0)> {
    var data: array<T>
    var numElements: int
    var version: int
    /** The set, in slot order. */
    ghost var elements: seq<T>
    /** The elements at every version so far: history[v] was `elements` at version v. */
    ghost var history: seq<seq<T>>

    /**
     * The used prefix holds no repeats, at least one slot is always free,
     * and the current version's entry of the history is the current set.
     */
    ghost predicate Valid()
      reads this, data
    {
      0 <= numElements < data.Length && elements == data[..numElements] &&
      Distinct(elements) &&
      0 <= version && |history| == version + 1 && history[version] == elements
    }

    /** An empty set over one slot, at version 0. */
    constructor ()
      ensures Valid() && fresh(data) && data.Length == 1 && elements == [] && version == 0
    {
      data := new T[1];
      numElements := 0;
      version := 0;
      elements := [];
      history := [[]];
    }

    /** find: the slot holding `t`, or -1 when no used slot does. */
    method Find(t: T) returns (i: int)
      requires Valid()
      ensures -1 <= i < numElements
      ensures i == -1 <==> t !in elements
      ensures i >= 0 ==> data[i] == t
    {
      i := 0;
      while i < numElements
        invariant 0 <= i <= numElements
        invariant t !in data[..i]
      {
        if t == data[i] {
          return;
        }
        assert data[..i + 1] == data[..i] + [data[i]];
        i := i + 1;
      }
      assert data[..i] == elements;
      return -1;
    }

    /** has: whether `t` is in the set. */
    method Has(t: T) returns (b: bool)
      requires Valid()
      ensures b <==> t in elements
    {
      var i := Find(t);
      b := i != -1;
    }

    /** size: the number of elements. */
    function Size(): (n: int)
      reads this, data
      requires Valid()
      ensures n == |elements|
    {
      numElements
    }

    /** full: whether no slot is left free. */
    function Full(): (b: bool)
      reads this, data
      requires 0 <= numElements <= data.Length
      ensures b <==> numElements == data.Length
    {
      numElements >= data.Length
    }

    /** grow: a new array of twice as many slots as elements, holding the same prefix. */
    method Grow()
      requires 0 <= numElements <= data.Length
      modifies this
      ensures fresh(data) && data.Length == 2 * old(numElements)
      ensures numElements == old(numElements) && data[..numElements] == old(data[..numElements])
      ensures elements == old(elements) && version == old(version) && history == old(history)
    {
      var big := new T[numElements * 2];
      forall k | 0 <= k < numElements {
        big[k] := data[k];
      }
      data := big;
    }

    /**
     * insert: an absent `t` is appended, and the array doubles when that
     * fills it; a present `t` leaves the set as it is. The version moves
     * on in both cases.
     */
    method Insert(t: T)
      requires Valid()
      modifies this, data
      ensures Valid() && (data == old(data) || fresh(data))
      ensures t in old(elements) ==> elements == old(elements)
      ensures t !in old(elements) ==> elements == old(elements) + [t]
      ensures Members(elements) == Members(old(elements)) + {t}
      ensures version == old(version) + 1 && history == old(history) + [elements]
    {
      var h := Has(t);
      if !h {
        data[numElements] := t;
        numElements := numElements + 1;
        DistinctAppend(elements, t);
        MembersAppend(elements, t);
        elements := elements + [t];
      }
      if Full() {
        Grow();
      }
      version := version + 1;
      history := history + [elements];
    }

    /**
     * remove: the last element moves into the slot of `t` and the set
     * shrinks by one; an absent `t` leaves the set as it is. The version
     * moves on in both cases.
     */
    method Remove(t: T)
      requires Valid()
      modifies this, data
      ensures Valid() && data == old(data)
      ensures t !in old(elements) ==> elements == old(elements)
      ensures t in old(elements) ==> elements == SwapLastRemoved(old(elements), IndexOf(old(elements), t))
      ensures Members(elements) == Members(old(elements)) - {t}
      ensures version == old(version) + 1 && history == old(history) + [elements]
    {
      var i := Find(t);
      if i != -1 {
        ghost var s := elements;
        assert IndexOf(s, t) == i by {
          var j := IndexOf(s, t);
          assert s[j] == s[i];
        }
        numElements := numElements - 1;
        data[i] := data[numElements];
        elements := SwapLastRemoved(s, i);
        assert elements == data[..numElements];
        SwapLastRemovedMembers(s, i);
      }
      version := version + 1;
      history := history + [elements];
    }

    /** union: a new set holding the elements of this set, then those of `other` unless it is this set. */
    method Union(other: ArraySet<T>) returns (r: ArraySet<T>)
      requires Valid() && other.Valid()
      ensures fresh(r) && fresh(r.data) && r.Valid()
      ensures Members(r.elements) == Members(elements) + Members(other.elements)
    {
      r := new ArraySet();
      InsertAll(this, r);
      if other != this {
        InsertAll(other, r);
      }
    }

    /** intersect: a new set holding the elements of this set that `other` has (all of them when it is this set). */
    method Intersect(other: ArraySet<T>) returns (r: ArraySet<T>)
      requires Valid() && other.Valid()
      ensures fresh(r) && fresh(r.data) && r.Valid()
      ensures Members(r.elements) == Members(elements) * Members(other.elements)
    {
      r := new ArraySet();
      InsertCommon(this, other, r);
    }

    /** subtract: a new set holding the elements of this set that `other` lacks (none when it is this set). */
    method Subtract(other: ArraySet<T>) returns (r: ArraySet<T>)
      requires Valid() && other.Valid()
      ensures fresh(r) && fresh(r.data) && r.Valid()
      ensures Members(r.elements) == Members(elements) - Members(other.elements)
      ensures other == this ==> r.elements == []
    {
      r := new ArraySet();
      InsertMissing(this, other, r);
    }
  }

  /**
   * The fail-fast iterator: it walks the used slots in index order and
   * throws ConcurrentModificationException once the set's version differs
   * from the one it was created for.
   */
  class SetIterator<T(==,0)> {
    const owner: ArraySet<T>
    var curr: int
    const version: int
    /** The set's elements at the iterator's version. */
    ghost const snapshot: seq<T>

    /** The iterator's version is one the set has had, with `snapshot` its elements then. */
    ghost predicate Valid()
      reads this, owner, owner.data
    {
      owner.Valid() && 0 <= version <= owner.version && owner.history[version] == snapshot &&
      0 <= curr <= |snapshot|
    }

    /** An iterator at the first slot, for the set's current version. */
    constructor (s: ArraySet<T>)
      requires s.Valid()
      ensures Valid() && owner == s && curr == 0 && version == s.version && snapshot == s.elements
    {
      owner := s;
      curr := 0;
      version := s.version;
      snapshot := s.elements;
    }

    /** hasNext: whether a used slot remains; throws once the set has changed. */
    method HasNext() returns (r: Result<bool>)
      requires Valid()
      ensures owner.version != version ==> r == Err(ConcurrentModification)
      ensures owner.version == version ==> r == Ok(curr < |snapshot|)
    {
      if version != owner.version {
        return Err(ConcurrentModification);
      }
      r := Ok(curr < owner.numElements);
    }

    /**
     * next: the element in the current slot, after which the iterator moves
     * one slot on; throws once the set has changed, and past the last slot.
     */
    method Next() returns (r: Result<T>)
      requires Valid()
      modifies this
      ensures Valid()
      ensures owner.version != version ==> r == Err(ConcurrentModification) && curr == old(curr)
      ensures owner.version == version && old(curr) == |snapshot| ==> r == Err(NoSuchElement) && curr == old(curr)
      ensures owner.version == version && old(curr) < |snapshot| ==> r == Ok(snapshot[old(curr)]) && curr == old(curr) + 1
    {
      if version != owner.version {
        return Err(ConcurrentModification);
      }
      var h := HasNext();
      if h != Ok(true) {
        return Err(NoSuchElement);
      }
      r := Ok(owner.data[curr]);
      curr := curr + 1;
    }
  }

  /** The for-each loop of union over `src`: every element of `src` is inserted into `r`, in slot order. */
  method InsertAll<T(==,0)>(src: ArraySet<T>, r: ArraySet<T>)
    requires src.Valid() && r.Valid() && r != src && r.data != src.data
    modifies r, r.data
    ensures r.Valid() && (r.data == old(r.data) || fresh(r.data))
    ensures Members(r.elements) == Members(old(r.elements)) + Members(src.elements)
  {
    ghost var d0 := r.data;
    ghost var mine := r.elements;
    var it := new SetIterator(src);
    var h := it.HasNext();
    while h == Ok(true)
      invariant it.Valid() && it.owner == src && it.version == src.version && it.snapshot == src.elements
      invariant r.Valid() && (r.data == d0 || fresh(r.data)) && r.data != src.data
      invariant h == Ok(it.curr < |src.elements|)
      invariant Members(r.elements) == Members(mine) + Members(src.elements[..it.curr])
      decreases |src.elements| - it.curr
    {
      ghost var c, before := it.curr, Members(r.elements);
      InsertNext(it, r);
      TakenPrefix(src.elements, c, Members(mine), before, Members(r.elements));
      h := it.HasNext();
    }
    assert src.elements[..it.curr] == src.elements;
  }

  /**
   * The for-each loop of intersect over `src`: an element of `src` is
   * inserted into `r` when `other` is `src` itself or has the element.
   */
  method InsertCommon<T(==,0)>(src: ArraySet<T>, other: ArraySet<T>, r: ArraySet<T>)
    requires src.Valid() && other.Valid() && r.Valid()
    requires r != src && r.data != src.data && r != other && r.data != other.data
    modifies r, r.data
    ensures r.Valid() && (r.data == old(r.data) || fresh(r.data))
    ensures Members(r.elements) == Members(old(r.elements)) + Members(src.elements) * Members(other.elements)
  {
    ghost var d0 := r.data;
    ghost var mine := r.elements;
    var it := new SetIterator(src);
    var h := it.HasNext();
    while h == Ok(true)
      invariant it.Valid() && it.owner == src && it.version == src.version && it.snapshot == src.elements
      invariant r.Valid() && (r.data == d0 || fresh(r.data)) && r.data != src.data && r.data != other.data
      invariant h == Ok(it.curr < |src.elements|)
      invariant Members(r.elements) == Members(mine) + Members(src.elements[..it.curr]) * Members(other.elements)
      decreases |src.elements| - it.curr
    {
      ghost var c, before := it.curr, Members(r.elements);
      InsertNextCommon(it, r, other);
      CommonPrefix(src.elements, c, Members(other.elements), Members(mine), before, Members(r.elements));
      h := it.HasNext();
    }
    assert src.elements[..it.curr] == src.elements;
  }

  /**
   * The for-each loop of subtract over `src`: an element of `src` is
   * inserted into `r` when `other` is another set that lacks it.
   */
  method InsertMissing<T(==,0)>(src: ArraySet<T>, other: ArraySet<T>, r: ArraySet<T>)
    requires src.Valid() && other.Valid() && r.Valid()
    requires r != src && r.data != src.data && r != other && r.data != other.data
    modifies r, r.data
    ensures r.Valid() && (r.data == old(r.data) || fresh(r.data))
    ensures Members(r.elements) == Members(old(r.elements)) + (Members(src.elements) - Members(other.elements))
    ensures other == src ==> r.elements == old(r.elements)
  {
    ghost var d0 := r.data;
    ghost var mine := r.elements;
    var it := new SetIterator(src);
    var h := it.HasNext();
    while h == Ok(true)
      invariant it.Valid() && it.owner == src && it.version == src.version && it.snapshot == src.elements
      invariant r.Valid() && (r.data == d0 || fresh(r.data)) && r.data != src.data && r.data != other.data
      invariant h == Ok(it.curr < |src.elements|)
      invariant Members(r.elements) == Members(mine) + (Members(src.elements[..it.curr]) - Members(other.elements))
      invariant other == src ==> r.elements == mine
      decreases |src.elements| - it.curr
    {
      ghost var c, before := it.curr, Members(r.elements);
      InsertNextMissing(it, r, other);
      MissingPrefix(src.elements, c, Members(other.elements), Members(mine), before, Members(r.elements));
      h := it.HasNext();
    }
    assert src.elements[..it.curr] == src.elements;
  }

  /** Taking one more element of `s` keeps the result the members of `s`'s prefix. */
  lemma TakenPrefix<T>(s: seq<T>, k: nat, mine: set<T>, before: set<T>, after: set<T>)
    requires k < |s|
    requires before == mine + Members(s[..k])
    requires after == before + {s[k]}
    ensures after == mine + Members(s[..k + 1])
  {
    MembersNext(s, 0, k);
    assert s[0..k] == s[..k] && s[0..k + 1] == s[..k + 1];
  }

  /** Taking one more element of `s` keeps the result the members of `s`'s prefix that `o` has. */
  lemma CommonPrefix<T>(s: seq<T>, k: nat, o: set<T>, mine: set<T>, before: set<T>, after: set<T>)
    requires k < |s|
    requires before == mine + Members(s[..k]) * o
    requires after == before + ({s[k]} * o)
    ensures after == mine + Members(s[..k + 1]) * o
  {
    MembersNext(s, 0, k);
    assert s[0..k] == s[..k] && s[0..k + 1] == s[..k + 1];
  }

  /** Taking one more element of `s` keeps the result the members of `s`'s prefix that `o` lacks. */
  lemma MissingPrefix<T>(s: seq<T>, k: nat, o: set<T>, mine: set<T>, before: set<T>, after: set<T>)
    requires k < |s|
    requires before == mine + (Members(s[..k]) - o)
    requires after == before + ({s[k]} - o)
    ensures after == mine + (Members(s[..k + 1]) - o)
  {
    MembersNext(s, 0, k);
    assert s[0..k] == s[..k] && s[0..k + 1] == s[..k + 1];
  }

  /** One round of union's loop: the iterator's next element goes into `r`. */
  method InsertNext<T(==,0)>(it: SetIterator<T>, r: ArraySet<T>)
    requires it.Valid() && it.version == it.owner.version && it.curr < |it.snapshot| && r.Valid()
    requires r != it.owner && r.data != it.owner.data
    modifies it, r, r.data
    ensures it.Valid() && it.version == it.owner.version && it.curr == old(it.curr) + 1
    ensures r.Valid() && (r.data == old(r.data) || fresh(r.data))
    ensures Members(r.elements) == Members(old(r.elements)) + {it.snapshot[old(it.curr)]}
  {
    var d := it.Next();
    r.Insert(d.value);
  }

  /** One round of intersect's loop: the next element goes into `r` when `other` is the iterated set or has it. */
  method InsertNextCommon<T(==,0)>(it: SetIterator<T>, r: ArraySet<T>, other: ArraySet<T>)
    requires it.Valid() && it.version == it.owner.version && it.curr < |it.snapshot| && r.Valid() && other.Valid()
    requires r != it.owner && r.data != it.owner.data && r != other && r.data != other.data
    modifies it, r, r.data
    ensures it.Valid() && it.version == it.owner.version && it.curr == old(it.curr) + 1
    ensures r.Valid() && (r.data == old(r.data) || fresh(r.data))
    ensures Members(r.elements) == Members(old(r.elements)) + ({it.snapshot[old(it.curr)]} * Members(other.elements))
  {
    var d := it.Next();
    var keep := true;
    if it.owner != other {
      keep := other.Has(d.value);
    }
    if keep {
      r.Insert(d.value);
    }
  }

  /** One round of subtract's loop: the next element goes into `r` when `other` is another set that lacks it. */
  method InsertNextMissing<T(==,0)>(it: SetIterator<T>, r: ArraySet<T>, other: ArraySet<T>)
    requires it.Valid() && it.version == it.owner.version && it.curr < |it.snapshot| && r.Valid() && other.Valid()
    requires r != it.owner && r.data != it.owner.data && r != other && r.data != other.data
    modifies it, r, r.data
    ensures it.Valid() && it.version == it.owner.version && it.curr == old(it.curr) + 1
    ensures r.Valid() && (r.data == old(r.data) || fresh(r.data))
    ensures Members(r.elements) == Members(old(r.elements)) + ({it.snapshot[old(it.curr)]} - Members(other.elements))
    ensures other == it.owner ==> r.elements == old(r.elements)
  {
    var d := it.Next();
    var keep := false;
    if it.owner != other {
      var has := other.Has(d.value);
      keep := !has;
    }
    if keep {
      r.Insert(d.value);
    }
  }

  /**
   * Fail-fast: an iterator created before an insert throws
   * ConcurrentModificationException afterwards, even when the element was
   * already there.
   */
  method InsertInvalidatesIterator<T(==,0)>(s: ArraySet<T>, t: T) returns (h: Result<bool>)
    requires s.Valid()
    modifies s, s.data
    ensures h == Err(ConcurrentModification)
  {
    var it := new SetIterator(s);
    s.Insert(t);
    h := it.HasNext();
  }
}
