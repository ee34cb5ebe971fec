/**
 The cursor database as the application runs it: committed stores, a staging overlay per table, one cursor map.
 Every method is proved to do to its table exactly what module Flat specifies, and Perform to make exactly the step
 of module Machine. Each operation is one atomic step.
 */
module Databases {
  import opened Wrappers
  import opened ByteStrings
  import opened OrderedKeys
  import opened Tables
  import opened KeyIterators
  import opened Overlay
  import Flat
  import Machine

  lemma AfterFrom(s: set<Bytes>, x: Bytes, k: Bytes)
    requires AtMost(x, k)
    ensures After(From(s, x), k) == After(s, k)
  {
    TotalOrder();
  }

  lemma BoundsOpen(s: set<Bytes>, x: Bytes)
    ensures Bounds(s, None, None) == s
    ensures Bounds(s, Some(x), None) == From(s, x)
    ensures Bounds(s, None, Some(x)) == Before(s, x)
  {
  }

  /** store.Iterator(key, PrefixEndBytes(key)), or the reverse iterator over the same range. */
  method OverGroup(store: Tables.Store, key: Bytes, ascending: bool) returns (it: KeyIterator)
    ensures fresh(it) && it.Ok() && it.store == store && it.ascending == ascending && it.pos == 0
    ensures it.range == Group(store.Keys, key)
    ensures it.Here() == if ascending then Least(it.range) else Greatest(it.range)
  {
    var end := PrefixEndBytes(key);
    BoundsOfPrefix(store.Keys, key);
    if ascending {
      it := new KeyIterator.Forward(store, Some(key), end);
    } else {
      it := new KeyIterator.Backward(store, Some(key), end);
    }
  }

  /** store.Iterator(current, PrefixEndBytes(key)) for a current key with prefix key. */
  method OverGroupFrom(store: Tables.Store, current: Bytes, key: Bytes) returns (it: KeyIterator)
    requires HasPrefix(current, key)
    ensures fresh(it) && it.Ok() && it.store == store && it.ascending
    ensures it.range == From(Group(store.Keys, key), current)
    ensures it.Here() == Least(it.range)
  {
    var end := PrefixEndBytes(key);
    BoundsInPrefix(store.Keys, current, key);
    it := new KeyIterator.Forward(store, Some(current), end);
  }

  /** store.Iterator(PrefixEndBytes(key), nil). */
  method PastGroup(store: Tables.Store, key: Bytes) returns (it: KeyIterator)
    ensures fresh(it) && it.Ok() && it.store == store
    ensures it.Here() == Least(Flat.PastGroup(store.Keys, key))
  {
    var start := PrefixEndBytes(key);
    BoundsPastPrefix(store.Keys, key);
    it := new KeyIterator.Forward(store, start, None);
  }

  /** The mark may stand in any view of a regular table. */
  lemma MarkedViews(base: map<TableCode, Tables.Store>, staged: map<TableCode, Overlay>)
    requires base.Keys == staged.Keys == TABLES.Keys
    requires Machine.Valid(Machine.State(base, Views(base, staged), map[]))
    ensures Machine.Valid(Machine.State(Machine.Marked(base), Views(Machine.Marked(base), staged), map[]))
  {
  }

  class Database {
    var base: map<TableCode, Tables.Store>
    var staged: map<TableCode, Overlay>
    var cursors: map<CursorID, Bytes>

    ghost function State(): Machine.State
      reads this
    {
      Machine.State(base, Views(base, staged), cursors)
    }

    ghost predicate Valid()
      reads this
    {
      base.Keys == staged.Keys && Machine.Valid(State())
    }

    /** One table together with the cursor an operation uses on it. */
    ghost function At(code: TableCode, id: CursorID): Flat.Table
      requires Valid() && code in TABLES
      reads this
      ensures Flat.Fits(TABLES[code], At(code, id))
    {
      Machine.Focus(State(), code, id)
    }

    ghost function Bare(code: TableCode): Flat.Table
      requires Valid() && code in TABLES
      reads this
      ensures Flat.Fits(TABLES[code], Bare(code))
    {
      Flat.Table(State().base[code], State().view[code], None)
    }

    /** A database over committed content: nothing staged, no cursor set. */
    constructor (committed: map<TableCode, Tables.Store>)
      requires committed.Keys == TABLES.Keys
      requires forall code | code in committed :: Flat.WellKeyed(TABLES[code], committed[code])
      ensures Valid() && State() == Machine.State(committed, committed, map[])
    {
      base := committed;
      staged := map code | code in committed :: map[];
      cursors := map[];
      new;
      FreshViews(base, staged);
    }

    // ---------- Lookups and cursor moves ----------

    /** Leaves the cursor on the key the iterator over base stands at. */
    method MoveCursor(code: TableCode, id: CursorID, it: KeyIterator)
      requires Valid() && code in TABLES && it.Ok() && it.Valid()
      modifies this`cursors
      ensures Valid() && State() == old(State()).(cursors := old(cursors)[id := it.Key()])
    {
      cursors := cursors[id := it.Key()];
    }

    method Get(code: TableCode, key: Bytes) returns (reply: Reply)
      requires Valid() && (code in TABLES ==> Sized(TABLES[code], Op.Get(key)))
      ensures reply == if code !in TABLES then Failed(TableNotFound) else Flat.Get(TABLES[code], Bare(code), key).reply
    {
      if code !in TABLES {
        return Failed(TableNotFound);
      }
      var table := TABLES[code];
      if table.dupSorted {
        var it := OverGroup(base[code], key, true);
        if !it.Valid() {
          return Nothing;
        }
        var subkey := it.Key()[table.keyBytes..];
        return Found(subkey + it.Value());
      }
      if key !in base[code] {
        return Nothing;
      }
      return Found(base[code][key]);
    }

    method First(code: TableCode, id: CursorID) returns (reply: Reply)
      requires Valid()
      modifies this`cursors
      ensures Valid()
      ensures (State(), reply) ==
              if code !in TABLES then (old(State()), Failed(TableNotFound))
              else Machine.Land(old(State()), code, id, Flat.First(old(At(code, id))))
    {
      if code !in TABLES {
        return Failed(TableNotFound);
      }
      Machine.Settle(State(), code, id);
      var it := new KeyIterator.Forward(base[code], None, None);
      BoundsOpen(base[code].Keys, []);
      if !it.Valid() {
        return Nothing;
      }
      MoveCursor(code, id, it);
      return Found(it.Key() + it.Value());
    }

    method SeekExact(code: TableCode, id: CursorID, key: Bytes) returns (reply: Reply)
      requires Valid() && (code in TABLES ==> Sized(TABLES[code], Op.SeekExact(key)))
      modifies this`cursors
      ensures Valid()
      ensures (State(), reply) ==
              if code !in TABLES then (old(State()), Failed(TableNotFound))
              else Machine.Land(old(State()), code, id, Flat.SeekExact(TABLES[code], old(At(code, id)), key))
    {
      if code !in TABLES {
        return Failed(TableNotFound);
      }
      Machine.Settle(State(), code, id);
      var table := TABLES[code];
      var it := new KeyIterator.Forward(base[code], Some(key), None);
      BoundsOpen(base[code].Keys, key);
      if !it.Valid() {
        return Nothing;
      }
      MoveCursor(code, id, it);
      if (table.dupSorted && !HasPrefix(it.Key(), key)) || (!table.dupSorted && key != it.Key()) {
        return Nothing;
      }
      return Found(it.Key() + it.Value());
    }

    method Seek(code: TableCode, id: CursorID, key: Bytes) returns (reply: Reply)
      requires Valid() && (code in TABLES ==> Sized(TABLES[code], Op.Seek(key)))
      modifies this`cursors
      ensures Valid()
      ensures (State(), reply) ==
              if code !in TABLES then (old(State()), Failed(TableNotFound))
              else Machine.Land(old(State()), code, id, Flat.Seek(old(At(code, id)), key))
    {
      if code !in TABLES {
        return Failed(TableNotFound);
      }
      Machine.Settle(State(), code, id);
      var it := new KeyIterator.Forward(base[code], Some(key), None);
      BoundsOpen(base[code].Keys, key);
      if !it.Valid() {
        return Nothing;
      }
      MoveCursor(code, id, it);
      return Found(it.Key() + it.Value());
    }

    /** First or Last, called by a move that already holds the cursor lock. */
    method UnderLock(code: TableCode) returns (reply: Reply)
      requires Valid() && code in TABLES
      ensures reply == Flat.UnderLock(Bare(code)).reply
    {
      var it := new KeyIterator.Forward(base[code], None, None);
      BoundsOpen(base[code].Keys, []);
      if !it.Valid() {
        return Nothing;
      }
      return Blocked;
    }

    method Next(code: TableCode, id: CursorID) returns (reply: Reply)
      requires Valid()
      modifies this`cursors
      ensures Valid()
      ensures (State(), reply) ==
              if code !in TABLES then (old(State()), Failed(TableNotFound))
              else Machine.Land(old(State()), code, id, Flat.Next(old(At(code, id))))
    {
      if code !in TABLES {
        return Failed(TableNotFound);
      }
      Machine.Settle(State(), code, id);
      if id !in cursors {
        reply := UnderLock(code);
        return;
      }
      var it := new KeyIterator.Forward(base[code], Some(cursors[id]), None);
      BoundsOpen(base[code].Keys, cursors[id]);
      if !it.Valid() {
        return Nothing;
      }
      AfterFrom(base[code].Keys, cursors[id], it.Key());
      it.Next();
      if !it.Valid() {
        return Nothing;
      }
      MoveCursor(code, id, it);
      return Found(it.Key() + it.Value());
    }

    method Last(code: TableCode, id: CursorID) returns (reply: Reply)
      requires Valid()
      modifies this`cursors
      ensures Valid()
      ensures (State(), reply) ==
              if code !in TABLES then (old(State()), Failed(TableNotFound))
              else Machine.Land(old(State()), code, id, Flat.Last(old(At(code, id))))
    {
      if code !in TABLES {
        return Failed(TableNotFound);
      }
      Machine.Settle(State(), code, id);
      var it := new KeyIterator.Backward(base[code], None, None);
      BoundsOpen(base[code].Keys, []);
      if !it.Valid() {
        return Nothing;
      }
      MoveCursor(code, id, it);
      return Found(it.Key() + it.Value());
    }

    method Prev(code: TableCode, id: CursorID) returns (reply: Reply)
      requires Valid()
      modifies this`cursors
      ensures Valid()
      ensures (State(), reply) ==
              if code !in TABLES then (old(State()), Failed(TableNotFound))
              else Machine.Land(old(State()), code, id, Flat.Prev(old(At(code, id))))
    {
      if code !in TABLES {
        return Failed(TableNotFound);
      }
      Machine.Settle(State(), code, id);
      if id !in cursors {
        reply := UnderLock(code);
        return;
      }
      var it := new KeyIterator.Backward(base[code], None, Some(cursors[id]));
      BoundsOpen(base[code].Keys, cursors[id]);
      if !it.Valid() {
        return Nothing;
      }
      MoveCursor(code, id, it);
      return Found(it.Key() + it.Value());
    }

    method Current(code: TableCode, id: CursorID) returns (reply: Reply)
      requires Valid()
      ensures reply == if code !in TABLES then Failed(TableNotFound) else Flat.Current(At(code, id)).reply
    {
      if code !in TABLES {
        return Failed(TableNotFound);
      }
      if id !in cursors {
        return Failed(CurrentKeyIsNotSet);
      }
      var current := cursors[id];
      if current !in base[code] {
        return Nothing;
      }
      return Found(current + base[code][current]);
    }

    /** NextDup with the whole entry in its reply. */
    method NextInGroup(code: TableCode, id: CursorID) returns (reply: Reply)
      requires Valid()
      modifies this`cursors
      ensures Valid()
      ensures (State(), reply) ==
              if code !in TABLES then (old(State()), Failed(TableNotFound))
              else Machine.Land(old(State()), code, id, Flat.NextDup(TABLES[code], old(At(code, id))))
    {
      if code !in TABLES {
        return Failed(TableNotFound);
      }
      Machine.Settle(State(), code, id);
      var table := TABLES[code];
      if !table.dupSorted {
        return Failed(InvalidRequestData);
      }
      if id !in cursors {
        reply := UnderLock(code);
        return;
      }
      var current := cursors[id];
      if |current| < table.keyBytes {
        return Panicked;
      }
      var key := current[..table.keyBytes];
      var it := OverGroupFrom(base[code], current, key);
      if !it.Valid() {
        return Failed(CurrentIteratorKeyIsInvalid);
      }
      AfterFrom(Group(base[code].Keys, key), current, it.Key());
      it.Next();
      if !it.Valid() {
        return Nothing;
      }
      reply := Nothing;
      if HasPrefix(it.Key(), key) {
        MoveCursor(code, id, it);
        reply := Found(it.Key() + it.Value());
      }
    }

    method NextDup(code: TableCode, id: CursorID, onlyVal: bool) returns (reply: Reply)
      requires Valid()
      modifies this`cursors
      ensures Valid()
      ensures code !in TABLES ==> State() == old(State()) && reply == Failed(TableNotFound)
      ensures code in TABLES ==>
                var info, t := TABLES[code], old(At(code, id));
                var (next, full) := Machine.Land(old(State()), code, id, Flat.NextDup(info, t));
                State() == next && reply == if onlyVal then Flat.ValueOnly(info, t, full) else full
    {
      var isSet := id in cursors;
      reply := NextInGroup(code, id);
      if onlyVal && code in TABLES {
        var table := TABLES[code];
        match reply
        case Found(data) =>
          reply := if |data| < table.keyBytes then Panicked else Found(data[table.keyBytes..]);
        case Nothing =>
          reply := if table.dupSorted && !isSet then Panicked else Nothing;
        case _ =>
      }
    }

    method NextNoDup(code: TableCode, id: CursorID) returns (reply: Reply)
      requires Valid()
      modifies this`cursors
      ensures Valid()
      ensures (State(), reply) ==
              if code !in TABLES then (old(State()), Failed(TableNotFound))
              else Machine.Land(old(State()), code, id, Flat.NextNoDup(TABLES[code], old(At(code, id))))
    {
      if code !in TABLES {
        return Failed(TableNotFound);
      }
      Machine.Settle(State(), code, id);
      var table := TABLES[code];
      if !table.dupSorted {
        return Failed(InvalidRequestData);
      }
      if id !in cursors {
        reply := UnderLock(code);
        return;
      }
      if |cursors[id]| < table.keyBytes {
        return Panicked;
      }
      var key := cursors[id][..table.keyBytes];
      var it := PastGroup(base[code], key);
      if !it.Valid() {
        return Nothing;
      }
      MoveCursor(code, id, it);
      return Found(it.Key() + it.Value());
    }

    method SeekByKeySubkey(code: TableCode, id: CursorID, key: Bytes) returns (reply: Reply)
      requires Valid() && (code in TABLES ==> Sized(TABLES[code], Op.SeekByKeySubkey(key)))
      modifies this`cursors
      ensures Valid()
      ensures (State(), reply) ==
              if code !in TABLES then (old(State()), Failed(TableNotFound))
              else Machine.Land(old(State()), code, id, Flat.SeekByKeySubkey(TABLES[code], old(At(code, id)), key))
    {
      if code !in TABLES {
        return Failed(TableNotFound);
      }
      Machine.Settle(State(), code, id);
      var table := TABLES[code];
      if !table.dupSorted {
        return Failed(InvalidRequestData);
      }
      var it := new KeyIterator.Forward(base[code], Some(key), None);
      BoundsOpen(base[code].Keys, key);
      if !it.Valid() {
        cursors := cursors - {id};
        return Nothing;
      }
      MoveCursor(code, id, it);
      if !HasPrefix(it.Key(), key[..table.keyBytes]) {
        return Nothing;
      }
      return Found(it.Key()[table.keyBytes..] + it.Value());
    }

    // ---------- Staging ----------

    /** After a deletion the cursor goes where the iterator stands, or is unset if that is nowhere. */
    method Follow(id: CursorID, it: KeyIterator)
      requires Valid() && it.Ok()
      modifies this`cursors
      ensures Valid()
      ensures State() == old(State()).(cursors := Machine.SetCursor(old(cursors), id, it.Here()))
    {
      if !it.Valid() {
        cursors := cursors - {id};
      } else {
        cursors := cursors[id := it.Key()];
      }
    }

    /** The cache keeps one edit: the latest of the key wins. */
    method StageEdit(code: TableCode, edit: Edit)
      requires Valid() && code in TABLES && (edit.Set? ==> |edit.key| == TABLES[code].EntryBytes())
      modifies this`staged
      ensures Valid()
      ensures staged == CollectIn(old(staged), code, [edit])
      ensures State() == old(State()).(view := old(State()).view[code := Change(old(State()).view[code], edit)])
    {
      ghost var was := State();
      ViewsOfOneEdit(base, staged, code, edit);
      Machine.ViewKeepsValid(was, code, Change(was.view[code], edit));
      staged := staged[code := Stage(staged[code], edit)];
      assert State() == was.(view := was.view[code := Change(was.view[code], edit)]);
    }

    /** The delete loop: tombstones for every key the iterator has yet to visit. */
    method DeleteEach(code: TableCode, it: KeyIterator)
      requires Valid() && code in TABLES && it.Ok() && it.ascending && it.pos == 0
      modifies this`staged, it
      ensures Valid()
      ensures staged == CollectIn(old(staged), code, Removals(Ascending(it.range)))
      ensures State() == old(State()).(view := old(State()).view[code := old(State()).view[code] - it.range])
    {
      ghost var was := staged;
      CollectNothing(was, code);
      while it.Valid()
        invariant Valid() && it.Ok()
        invariant staged == CollectIn(was, code, Removals(it.keys[..it.pos]))
        decreases |it.keys| - it.pos
      {
        ghost var i := it.pos;
        OneMoreRemoval(was, code, it.keys, i);
        StageEdit(code, Remove(it.Key()));
        ghost var now := staged;
        assert now == CollectIn(was, code, Removals(it.keys[..i + 1]));
        it.Next();
        assert staged == now && it.pos == i + 1;
      }
      assert it.keys[..it.pos] == it.keys;
      it.Exhausted();
      ViewsOfRemovals(base, was, code, it.keys);
    }

    /** Stores an entry and leaves the cursor on it. */
    method StageAndMove(code: TableCode, id: CursorID, key: Bytes, value: Bytes)
      requires Valid() && code in TABLES && |key| == TABLES[code].EntryBytes()
      modifies this`staged, this`cursors
      ensures Valid()
      ensures (State(), Done) == Machine.Land(old(State()), code, id, Flat.SetAndMove(old(At(code, id)), key, value))
      ensures staged == CollectIn(old(staged), code, [Edit.Set(key, value)])
    {
      StageEdit(code, Edit.Set(key, value));
      cursors := cursors[id := key];
    }

    /** The stores as seen through the cache, which is what mutations check against. */
    method Staging(code: TableCode) returns (store: Tables.Store)
      requires Valid() && code in TABLES
      ensures store == State().view[code]
    {
      store := View(base[code], staged[code]);
    }

    method Put(code: TableCode, key: Bytes, value: Bytes) returns (reply: Reply)
      requires Valid() && (code in TABLES ==> Sized(TABLES[code], Op.Put(key, value)))
      modifies this`staged
      ensures Valid()
      ensures code !in TABLES ==> State() == old(State()) && reply == Failed(TableNotFound)
      ensures code in TABLES ==>
                var outcome := Flat.Put(old(Bare(code)), key, value);
                && State() == old(State()).(view := old(State()).view[code := outcome.table.view])
                && reply == outcome.reply
      ensures staged ==
              if code !in TABLES then old(staged)
              else CollectIn(old(staged), code, Flat.Put(old(Bare(code)), key, value).edits)
    {
      if code !in TABLES {
        return Failed(TableNotFound);
      }
      StageEdit(code, Edit.Set(key, value));
      return Done;
    }

    method Delete(code: TableCode, key: Bytes, withSubkey: bool) returns (reply: Reply)
      requires Valid() && (code in TABLES ==> Sized(TABLES[code], Op.Delete(key, withSubkey)))
      modifies this`staged
      ensures Valid()
      ensures code !in TABLES ==> State() == old(State()) && reply == Failed(TableNotFound)
      ensures code in TABLES ==>
                var outcome := Flat.Delete(TABLES[code], old(Bare(code)), key, withSubkey);
                && State() == old(State()).(view := old(State()).view[code := outcome.table.view])
                && reply == outcome.reply
      ensures staged ==
              if code !in TABLES then old(staged)
              else CollectIn(old(staged), code, Flat.Delete(TABLES[code], old(Bare(code)), key, withSubkey).edits)
    {
      if code !in TABLES {
        return Failed(TableNotFound);
      }
      var table := TABLES[code];
      if table.dupSorted {
        if withSubkey {
          StageEdit(code, Remove(key));
          return Done;
        }
        var it := OverGroup(base[code], key, true);
        DeleteEach(code, it);
        return Done;
      }
      StageEdit(code, Remove(key));
      return Done;
    }

    method Upsert(code: TableCode, id: CursorID, key: Bytes, value: Bytes) returns (reply: Reply)
      requires Valid() && (code in TABLES ==> Sized(TABLES[code], Op.Upsert(key, value)))
      modifies this`staged, this`cursors
      ensures Valid()
      ensures (State(), reply) ==
              if code !in TABLES then (old(State()), Failed(TableNotFound))
              else Machine.Land(old(State()), code, id, Flat.Upsert(old(At(code, id)), key, value))
      ensures staged ==
              if code !in TABLES then old(staged)
              else CollectIn(old(staged), code, Flat.Upsert(old(At(code, id)), key, value).edits)
    {
      reply := Put(code, key, value);
      if reply.Failed? {
        return;
      }
      cursors := cursors[id := key];
    }

    method Insert(code: TableCode, id: CursorID, key: Bytes, value: Bytes) returns (reply: Reply)
      requires Valid() && (code in TABLES ==> Sized(TABLES[code], Op.Insert(key, value)))
      modifies this`staged, this`cursors
      ensures Valid()
      ensures (State(), reply) ==
              if code !in TABLES then (old(State()), Failed(TableNotFound))
              else Machine.Land(old(State()), code, id, Flat.Insert(TABLES[code], old(At(code, id)), key, value))
      ensures staged ==
              if code !in TABLES then old(staged)
              else CollectIn(old(staged), code, Flat.Insert(TABLES[code], old(At(code, id)), key, value).edits)
    {
      if code !in TABLES {
        return Failed(TableNotFound);
      }
      CollectNothing(staged, code);
      Machine.Settle(State(), code, id);
      var table := TABLES[code];
      var store := Staging(code);
      if table.dupSorted {
        var k := key[..table.keyBytes];
        var it := OverGroup(store, k, true);
        if it.Valid() {
          return Failed(KeyAlreadyPresent);
        }
      } else {
        if key in store {
          return Failed(KeyAlreadyPresent);
        }
      }
      StageAndMove(code, id, key, value);
      return Done;
    }

    method Append(code: TableCode, id: CursorID, k: Bytes, value: Bytes) returns (reply: Reply)
      requires Valid() && (code in TABLES ==> Sized(TABLES[code], Op.Append(k, value)))
      modifies this`staged, this`cursors
      ensures Valid()
      ensures (State(), reply) ==
              if code !in TABLES then (old(State()), Failed(TableNotFound))
              else Machine.Land(old(State()), code, id, Flat.Append(TABLES[code], old(At(code, id)), k, value))
      ensures staged ==
              if code !in TABLES then old(staged)
              else CollectIn(old(staged), code, Flat.Append(TABLES[code], old(At(code, id)), k, value).edits)
    {
      if code !in TABLES {
        return Failed(TableNotFound);
      }
      CollectNothing(staged, code);
      Machine.Settle(State(), code, id);
      var table := TABLES[code];
      var key := if table.dupSorted then k[..table.keyBytes] else k;
      var store := Staging(code);
      var it := new KeyIterator.Backward(store, None, None);
      BoundsOpen(store.Keys, []);
      if !it.Valid() {
        StageEdit(code, Edit.Set(k, value));
        return Done;
      }
      if |it.Key()| < table.keyBytes {
        return Panicked;
      }
      var greatestKeyPresent := it.Key()[..table.keyBytes];
      if Below(key, greatestKeyPresent) {
        return Failed(AppendBelowGreatestKey);
      }
      StageAndMove(code, id, k, value);
      return Done;
    }

    /** The body of DeleteCurrent once an entry at or above the cursor is known: the cursor follows the iterator. */
    method DeleteOne(code: TableCode, id: CursorID, current: Bytes, it: KeyIterator)
      requires Valid() && code in TABLES && it.Ok() && it.ascending && it.Valid()
      requires After(it.range, it.Key()) == After(State().view[code].Keys, it.Key())
      modifies this`staged, this`cursors, it
      ensures Valid()
      ensures (State(), Done)
           == Machine.Land(old(State()), code, id, Flat.DropOne(old(At(code, id)), current, old(it.Key())))
      ensures staged == CollectIn(old(staged), code, [Remove(current)])
    {
      StageEdit(code, Remove(current));
      it.Next();
      Follow(id, it);
    }

    method DeleteCurrent(code: TableCode, id: CursorID) returns (reply: Reply)
      requires Valid()
      modifies this`staged, this`cursors
      ensures Valid()
      ensures (State(), reply) ==
              if code !in TABLES then (old(State()), Failed(TableNotFound))
              else Machine.Land(old(State()), code, id, Flat.DeleteCurrent(old(At(code, id))))
      ensures staged ==
              if code !in TABLES then old(staged)
              else CollectIn(old(staged), code, Flat.DeleteCurrent(old(At(code, id))).edits)
    {
      if code !in TABLES {
        return Failed(TableNotFound);
      }
      CollectNothing(staged, code);
      Machine.Settle(State(), code, id);
      if id !in cursors {
        return Failed(CurrentKeyIsNotSet);
      }
      var current := cursors[id];
      var store := Staging(code);
      var it := new KeyIterator.Forward(store, Some(current), None);
      BoundsOpen(store.Keys, current);
      if !it.Valid() {
        return Failed(CurrentIteratorKeyIsInvalid);
      }
      AfterFrom(store.Keys, current, it.Key());
      DeleteOne(code, id, current, it);
      return Done;
    }

    /** The body of DeleteCurrentDuplicates once the group is known not to be empty. */
    method DeleteGroup(code: TableCode, id: CursorID, key: Bytes, it: KeyIterator)
      requires Valid() && code in TABLES && it.Ok() && it.ascending && it.pos == 0
      requires it.range == Group(State().view[code].Keys, key)
      modifies this`staged, this`cursors, it
      ensures Valid()
      ensures (State(), Done) == Machine.Land(old(State()), code, id, Flat.DropGroup(old(At(code, id)), key))
      ensures staged == CollectIn(old(staged), code, Flat.DropGroup(old(At(code, id)), key).edits)
    {
      ghost var was := State();
      DeleteEach(code, it);
      ghost var dropped := State();
      var rest := Staging(code);
      assert rest == was.view[code] - Group(was.view[code].Keys, key);
      var nextIt := PastGroup(rest, key);
      Follow(id, nextIt);
      assert State() == dropped.(cursors := Machine.SetCursor(dropped.cursors, id, nextIt.Here()));
    }

    method DeleteCurrentDuplicates(code: TableCode, id: CursorID) returns (reply: Reply)
      requires Valid()
      modifies this`staged, this`cursors
      ensures Valid()
      ensures (State(), reply) ==
              if code !in TABLES then (old(State()), Failed(TableNotFound))
              else Machine.Land(old(State()), code, id, Flat.DeleteCurrentDuplicates(TABLES[code], old(At(code, id))))
      ensures staged ==
              if code !in TABLES then old(staged)
              else CollectIn(old(staged), code, Flat.DeleteCurrentDuplicates(TABLES[code], old(At(code, id))).edits)
    {
      if code !in TABLES {
        return Failed(TableNotFound);
      }
      CollectNothing(staged, code);
      Machine.Settle(State(), code, id);
      var table := TABLES[code];
      if !table.dupSorted {
        return Failed(InvalidRequestData);
      }
      if id !in cursors {
        return Failed(CurrentKeyIsNotSet);
      }
      if |cursors[id]| < table.keyBytes {
        return Panicked;
      }
      var key := cursors[id][..table.keyBytes];
      var store := Staging(code);
      var it := OverGroup(store, key, true);
      if !it.Valid() {
        return Failed(CurrentIteratorKeyIsInvalid);
      }
      DeleteGroup(code, id, key, it);
      return Done;
    }

    method AppendDup(code: TableCode, id: CursorID, k: Bytes, value: Bytes) returns (reply: Reply)
      requires Valid() && (code in TABLES ==> Sized(TABLES[code], Op.AppendDup(k, value)))
      modifies this`staged, this`cursors
      ensures Valid()
      ensures (State(), reply) ==
              if code !in TABLES then (old(State()), Failed(TableNotFound))
              else Machine.Land(old(State()), code, id, Flat.AppendDup(TABLES[code], old(At(code, id)), k, value))
      ensures staged ==
              if code !in TABLES then old(staged)
              else CollectIn(old(staged), code, Flat.AppendDup(TABLES[code], old(At(code, id)), k, value).edits)
    {
      if code !in TABLES {
        return Failed(TableNotFound);
      }
      CollectNothing(staged, code);
      Machine.Settle(State(), code, id);
      var table := TABLES[code];
      if !table.dupSorted {
        return Failed(InvalidRequestData);
      }
      var key := k[..table.keyBytes];
      var subkey := k[table.keyBytes..];
      var store := Staging(code);
      var it := OverGroup(store, key, false);
      if !it.Valid() {
        StageAndMove(code, id, k, value);
      } else {
        var greatestSubkey := it.Key()[table.keyBytes..];
        if Below(subkey, greatestSubkey) {
          return Failed(AppendBelowGreatestSubkey);
        }
        StageAndMove(code, id, k, value);
      }
      return Done;
    }

    // ---------- Publication ----------

    /** Publishes every staged edit; the cache is empty afterwards. */
    method Write()
      requires Valid()
      modifies this`base, this`staged
      ensures Valid() && State() == old(State()).(base := old(State()).view)
      ensures forall code | code in TABLES :: staged[code] == map[]
    {
      base := map code | code in base :: View(base[code], staged[code]);
      staged := map code | code in base :: map[];
      FreshViews(base, staged);
    }

    /** Replaces the cache by a fresh one over the committed stores: what was staged is forgotten. */
    method Reset()
      requires Valid()
      modifies this`staged
      ensures Valid() && State() == old(State()).(view := old(State()).base)
      ensures forall code | code in TABLES :: staged[code] == map[]
    {
      staged := map code | code in base :: map[];
      FreshViews(base, staged);
    }

    /** A Set on the committed accounts store, past the cache, which a frame finds empty. */
    method Mark()
      requires Valid()
      modifies this`base
      ensures Valid() && base == Machine.Marked(old(base)) && Machine.OnlyMarkAdded(old(base), base)
      ensures (forall code | code in TABLES :: staged[code] == map[]) ==> State() == Machine.Fresh(old(State()))
      ensures base == old(base) ==> State() == old(State())
    {
      MarkedViews(base, staged);
      Machine.MarkedOnlyAdds(base);
      Machine.MarkKeepsKeys(base);
      base := base[HASHED_ACCOUNTS := Machine.WithMark(base[HASHED_ACCOUNTS])];
      if forall code | code in TABLES :: staged[code] == map[] {
        FreshViews(old(base), staged);
        FreshViews(base, staged);
      }
    }

    // ---------- One request ----------

    method PerformDupMove(code: TableCode, id: CursorID, op: Op) returns (reply: Reply)
      requires Valid() && Machine.WellFormed(Machine.Call(code, id, op))
      requires op.NextDup? || op.NextNoDup?
      modifies this`cursors
      ensures Valid() && (State(), reply) == Machine.Step(old(State()), Machine.Call(code, id, op))
    {
      if code in TABLES {
        Flat.ApplyDupMoves(TABLES[code], At(code, id));
      }
      match op
      case NextDup =>
        reply := NextDup(code, id, false);
      case NextNoDup =>
        reply := NextNoDup(code, id);
    }

    method PerformSeek(code: TableCode, id: CursorID, op: Op) returns (reply: Reply)
      requires Valid() && Machine.WellFormed(Machine.Call(code, id, op))
      requires op.SeekExact? || op.Seek? || op.SeekByKeySubkey?
      modifies this`cursors
      ensures Valid() && (State(), reply) == Machine.Step(old(State()), Machine.Call(code, id, op))
    {
      match op
      case SeekExact(key) => reply := SeekExact(code, id, key);
      case Seek(key) => reply := Seek(code, id, key);
      case SeekByKeySubkey(key) => reply := SeekByKeySubkey(code, id, key);
    }

    method PerformRead(code: TableCode, id: CursorID, op: Op) returns (reply: Reply)
      requires Valid() && ReadOnly(op) && Machine.WellFormed(Machine.Call(code, id, op))
      modifies this`cursors
      ensures Valid() && (State(), reply) == Machine.Step(old(State()), Machine.Call(code, id, op))
    {
      if code in TABLES {
        Machine.Settle(State(), code, id);
      }
      match op
      case Get(key) => reply := Get(code, key);
      case First => reply := First(code, id);
      case Next => reply := Next(code, id);
      case Prev => reply := Prev(code, id);
      case Last => reply := Last(code, id);
      case Current => reply := Current(code, id);
      case SeekExact(_) => reply := PerformSeek(code, id, op);
      case Seek(_) => reply := PerformSeek(code, id, op);
      case SeekByKeySubkey(_) => reply := PerformSeek(code, id, op);
      case NextDup => reply := PerformDupMove(code, id, op);
      case NextNoDup => reply := PerformDupMove(code, id, op);
    }

    method PerformMutation(code: TableCode, id: CursorID, op: Op) returns (reply: Reply)
      requires Valid() && !ReadOnly(op) && Machine.WellFormed(Machine.Call(code, id, op))
      modifies this`staged, this`cursors
      ensures Valid() && (State(), reply) == Machine.Step(old(State()), Machine.Call(code, id, op))
      ensures staged ==
              if code !in TABLES then old(staged)
              else CollectIn(old(staged), code, Machine.CallEdits(old(State()), Machine.Call(code, id, op), code))
    {
      if code in TABLES {
        Machine.Settle(State(), code, id);
      }
      match op
      case Put(key, value) => reply := Put(code, key, value);
      case Delete(key, withSubkey) => reply := Delete(code, key, withSubkey);
      case Upsert(key, value) => reply := Upsert(code, id, key, value);
      case Insert(key, value) => reply := Insert(code, id, key, value);
      case Append(key, value) => reply := Append(code, id, key, value);
      case DeleteCurrent => reply := DeleteCurrent(code, id);
      case DeleteCurrentDuplicates => reply := DeleteCurrentDuplicates(code, id);
      case AppendDup(key, value) => reply := AppendDup(code, id, key, value);
    }

    /** The switch on the operation code: a request makes exactly one step of the state machine. */
    method Perform(call: Machine.Call) returns (reply: Reply)
      requires Valid() && Machine.WellFormed(call)
      modifies this
      ensures Valid() && (State(), reply) == Machine.Step(old(State()), call)
      ensures call.Call? ==>
                staged ==
                if call.code !in TABLES then old(staged)
                else CollectIn(old(staged), call.code, Machine.CallEdits(old(State()), call, call.code))
    {
      match call
      case Write =>
        Write();
        reply := Done;
      case Reset =>
        Reset();
        reply := Done;
      case Call(code, id, op) =>
        if ReadOnly(op) {
          if code in TABLES {
            Flat.ReadKeeps(TABLES[code], op, At(code, id));
            CollectNothing(staged, code);
          }
          reply := PerformRead(code, id, op);
        } else {
          reply := PerformMutation(code, id, op);
        }
    }
  }
}
