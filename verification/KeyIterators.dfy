/** The store iterator: a walk over a snapshot of the sorted keys in a half-open range. */
module KeyIterators {
  import opened Wrappers
  import opened ByteStrings
  import opened OrderedKeys
  import Tables

  class KeyIterator {
    const store: Tables.Store
    const keys: seq<Bytes>
    var pos: nat

    /** All keys of the walk, and its direction. */
    ghost const range: set<Bytes>
    ghost const ascending: bool

    ghost predicate Ok()
      reads this
    {
      && pos <= |keys|
      && range <= store.Keys
      && keys == if ascending then Ascending(range) else Reverse(Ascending(range))
    }

    constructor Forward(store: Tables.Store, start: Option<Bytes>, end: Option<Bytes>)
      ensures Ok() && this.store == store && ascending && pos == 0
      ensures range == Bounds(store.Keys, start, end)
      ensures Here() == Least(range)
    {
      this.store := store;
      keys := Ascending(Bounds(store.Keys, start, end));
      pos := 0;
      range := Bounds(store.Keys, start, end);
      ascending := true;
      new;
      AtStart();
    }

    constructor Backward(store: Tables.Store, start: Option<Bytes>, end: Option<Bytes>)
      ensures Ok() && this.store == store && !ascending && pos == 0
      ensures range == Bounds(store.Keys, start, end)
      ensures Here() == Greatest(range)
    {
      this.store := store;
      keys := Reverse(Ascending(Bounds(store.Keys, start, end)));
      pos := 0;
      range := Bounds(store.Keys, start, end);
      ascending := false;
      new;
      AtStart();
    }

    predicate Valid()
      reads this
    {
      pos < |keys|
    }

    function Key(): Bytes
      requires Valid()
      reads this
    {
      keys[pos]
    }

    /** The key the iterator stands at, if it is valid. */
    ghost function Here(): (k: Option<Bytes>)
      requires Ok()
      reads this
      ensures k.Some? ==> k.value in store
    {
      if Valid() then InRange(pos); Some(Key()) else None
    }

    function Value(): Bytes
      requires Ok() && Valid()
      reads this
    {
      InRange(pos);
      store[keys[pos]]
    }

    method Next()
      requires Ok() && Valid()
      modifies this
      ensures Ok() && pos == old(pos) + 1
      ensures ascending ==> Here() == Least(After(range, old(Key())))
    {
      pos := pos + 1;
      if ascending {
        AfterStep();
      }
    }

    lemma InRange(i: nat)
      requires Ok() && i < |keys|
      ensures keys[i] in range && keys[i] in store
    {
      AscendingElements(range);
      var up := Ascending(range);
      ReverseAt(up);
      assert keys[i] == if ascending then up[i] else up[|up| - 1 - i];
    }

    /** A new iterator stands at the least key of its range, or the greatest when it walks down. */
    lemma AtStart()
      requires Ok() && pos == 0
      ensures Here() == if ascending then Least(range) else Greatest(range)
    {
      ReverseAt(Ascending(range));
      if range != {} {
        AscendingEnds(range);
      }
    }

    /** After a step up it stands at the least key above the one it left. */
    lemma AfterStep()
      requires Ok() && ascending && pos > 0
      ensures Here() == Least(After(range, keys[pos - 1]))
    {
      AscendingElements(range);
      AscendingNeighbours(range, pos - 1);
    }

    /** A finished walk has visited exactly its range. */
    lemma Exhausted()
      requires Ok() && !Valid()
      ensures Elements(keys) == range
    {
      AscendingElements(range);
      var up := Ascending(range);
      ReverseAt(up);
      forall k | k in range ensures k in keys {
        var i :| 0 <= i < |up| && up[i] == k;
        assert k == keys[if ascending then i else |up| - 1 - i];
      }
      forall k | k in keys ensures k in range {
        var i :| 0 <= i < |keys| && keys[i] == k;
        InRange(i);
      }
    }
  }
}
