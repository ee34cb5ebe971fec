/**
 A dup-sorted table as its users see it: an ordered map from keys to ordered maps from subkeys to values.
 The same operations as in module Flat, stated without ever joining a key and a subkey into one string to compare.
 No group is empty.
 */
module Nested {
  import opened Wrappers
  import opened ByteStrings
  import opened OrderedKeys
  import Tables

  type Groups = map<Bytes, map<Bytes, Bytes>>

  datatype Pos = Pos(key: Bytes, subkey: Bytes) {
    function Joined(): Bytes { key + subkey }
  }

  /** The cursor is the raw byte string, since other tables share it. */
  datatype Table = Table(base: Groups, view: Groups, cur: Option<Bytes>)

  datatype Outcome = Outcome(table: Table, reply: Tables.Reply)

  predicate NoEmptyGroup(g: Groups) {
    forall k | k in g :: g[k] != map[]
  }

  predicate Keyed(g: Groups, keyBytes: nat) {
    NoEmptyGroup(g) && forall k | k in g :: |k| == keyBytes
  }

  predicate Ok(t: Table, keyBytes: nat) {
    Keyed(t.base, keyBytes) && Keyed(t.view, keyBytes)
  }

  /** A string too short for a subkey stands before every entry of the keys it begins. */
  function Split(fk: Bytes, keyBytes: nat): Pos {
    if |fk| < keyBytes then Pos(fk, []) else Pos(fk[..keyBytes], fk[keyBytes..])
  }

  /** A cursor that holds a whole key. */
  predicate CursorHolds(t: Table, keyBytes: nat) {
    t.cur.Some? ==> keyBytes <= |t.cur.value|
  }

  // ---------- Order of entries: by key, then by subkey ----------

  function FirstOf(g: Groups, keys: set<Bytes>): Option<Pos>
    requires NoEmptyGroup(g) && keys <= g.Keys
  {
    if keys == {} then None else Some(Pos(Min(keys), Min(g[Min(keys)].Keys)))
  }

  function LastOf(g: Groups, keys: set<Bytes>): Option<Pos>
    requires NoEmptyGroup(g) && keys <= g.Keys
  {
    if keys == {} then None else Some(Pos(Max(keys), Max(g[Max(keys)].Keys)))
  }

  function Subkeys(g: Groups, key: Bytes): set<Bytes> {
    if key in g then g[key].Keys else {}
  }

  function Ceiling(g: Groups, p: Pos): Option<Pos>
    requires NoEmptyGroup(g)
  {
    var subs := From(Subkeys(g, p.key), p.subkey);
    if subs != {} then Some(Pos(p.key, Min(subs))) else FirstOf(g, After(g.Keys, p.key))
  }

  function Higher(g: Groups, p: Pos): Option<Pos>
    requires NoEmptyGroup(g)
  {
    var subs := After(Subkeys(g, p.key), p.subkey);
    if subs != {} then Some(Pos(p.key, Min(subs))) else FirstOf(g, After(g.Keys, p.key))
  }

  function Lower(g: Groups, p: Pos): Option<Pos>
    requires NoEmptyGroup(g)
  {
    var subs := Before(Subkeys(g, p.key), p.subkey);
    if subs != {} then Some(Pos(p.key, Max(subs))) else LastOf(g, Before(g.Keys, p.key))
  }

  predicate Has(g: Groups, p: Pos) {
    p.key in g && p.subkey in g[p.key]
  }

  lemma NeighboursAreEntries(g: Groups, p: Pos)
    requires NoEmptyGroup(g)
    ensures Ceiling(g, p).Some? ==> Has(g, Ceiling(g, p).value)
    ensures Higher(g, p).Some? ==> Has(g, Higher(g, p).value)
    ensures Lower(g, p).Some? ==> Has(g, Lower(g, p).value)
  {
  }

  // ---------- Reads and cursor moves ----------

  function MoveTo(t: Table, target: Option<Pos>): Outcome
    requires target.Some? ==> Has(t.base, target.value)
  {
    match target
    case None => Outcome(t, Tables.Nothing)
    case Some(p) => Outcome(t.(cur := Some(p.Joined())), Tables.Found(p.Joined() + t.base[p.key][p.subkey]))
  }

  function First(t: Table): Outcome
    requires NoEmptyGroup(t.base)
  {
    MoveTo(t, FirstOf(t.base, t.base.Keys))
  }

  function Last(t: Table): Outcome
    requires NoEmptyGroup(t.base)
  {
    MoveTo(t, LastOf(t.base, t.base.Keys))
  }

  /** The first entry of the key's group, or of the next group. */
  function Seek(t: Table, key: Bytes): Outcome
    requires NoEmptyGroup(t.base)
  {
    MoveTo(t, Ceiling(t.base, Pos(key, [])))
  }

  /** As Seek, but only an entry of the key itself is returned. */
  function SeekExact(t: Table, key: Bytes): Outcome
    requires NoEmptyGroup(t.base)
  {
    var sought := Seek(t, key);
    if key in t.base then sought else Outcome(sought.table, Tables.Nothing)
  }

  /** First or Last under the cursor lock, which they wait for. */
  function UnderLock(t: Table): Outcome { Outcome(t, if t.base == map[] then Tables.Nothing else Tables.Blocked) }

  function Next(t: Table, keyBytes: nat): Outcome
    requires Ok(t, keyBytes)
  {
    match t.cur
    case None => UnderLock(t)
    case Some(c) =>
      match Ceiling(t.base, Split(c, keyBytes))
      case None => Outcome(t, Tables.Nothing)
      case Some(p) => MoveTo(t, Higher(t.base, p))
  }

  function Prev(t: Table, keyBytes: nat): Outcome
    requires Ok(t, keyBytes)
  {
    match t.cur
    case None => UnderLock(t)
    case Some(c) => MoveTo(t, Lower(t.base, Split(c, keyBytes)))
  }

  function Current(t: Table, keyBytes: nat): Outcome
    requires Ok(t, keyBytes)
  {
    match t.cur
    case None => Outcome(t, Tables.Failed(Tables.CurrentKeyIsNotSet))
    case Some(c) =>
      var p := Split(c, keyBytes);
      Outcome(t, if Has(t.base, p) then Tables.Found(c + t.base[p.key][p.subkey]) else Tables.Nothing)
  }

  /** The second subkey of the cursor's group at or above the cursor's. */
  function NextDup(t: Table, keyBytes: nat): Outcome
    requires Ok(t, keyBytes)
  {
    if !CursorHolds(t, keyBytes) then Outcome(t, Tables.Panicked)
    else match t.cur
    case None => UnderLock(t)
    case Some(c) =>
      var p := Split(c, keyBytes);
      var subs := From(Subkeys(t.base, p.key), p.subkey);
      if subs == {} then Outcome(t, Tables.Failed(Tables.CurrentIteratorKeyIsInvalid))
      else
        var rest := After(subs, Min(subs));
        MoveTo(t, if rest == {} then None else Some(Pos(p.key, Min(rest))))
  }

  function AfterKey(g: Groups, key: Bytes): Option<Pos>
    requires NoEmptyGroup(g)
  {
    FirstOf(g, if AllMax(key) then g.Keys else After(g.Keys, key))
  }

  /** The first entry of the next key, but of the first key again when the cursor's key is all 0xFF. */
  function NextNoDup(t: Table, keyBytes: nat): Outcome
    requires Ok(t, keyBytes)
  {
    if !CursorHolds(t, keyBytes) then Outcome(t, Tables.Panicked)
    else match t.cur
    case None => UnderLock(t)
    case Some(c) => MoveTo(t, AfterKey(t.base, c[..keyBytes]))
  }

  function SeekByKeySubkey(t: Table, keyBytes: nat, fk: Bytes): Outcome
    requires Ok(t, keyBytes) && keyBytes <= |fk|
  {
    var p := Split(fk, keyBytes);
    match Ceiling(t.base, p)
    case None => Outcome(t.(cur := None), Tables.Nothing)
    case Some(q) =>
      Outcome(t.(cur := Some(q.Joined())),
              if q.key == p.key then Tables.Found(q.subkey + t.base[q.key][q.subkey]) else Tables.Nothing)
  }

  function Get(t: Table, key: Bytes): Outcome
    requires NoEmptyGroup(t.base)
  {
    Outcome(t,
            if key in t.base then
              var s := Min(t.base[key].Keys);
              Tables.Found(s + t.base[key][s])
            else Tables.Nothing)
  }

  // ---------- Mutations ----------

  function Assign(g: Groups, p: Pos, value: Bytes): Groups {
    g[p.key := (if p.key in g then g[p.key] else map[])[p.subkey := value]]
  }

  /** Drops subkeys of one key; a group that loses its last subkey disappears. */
  function Drop(g: Groups, key: Bytes, subs: set<Bytes>): Groups {
    if key !in g then g
    else
      var rest := g[key] - subs;
      if rest == map[] then g - {key} else g[key := rest]
  }

  function Put(t: Table, keyBytes: nat, fk: Bytes, value: Bytes): Outcome
    requires keyBytes <= |fk|
  {
    Outcome(t.(view := Assign(t.view, Split(fk, keyBytes), value)), Tables.Done)
  }

  function Upsert(t: Table, keyBytes: nat, fk: Bytes, value: Bytes): Outcome
    requires keyBytes <= |fk|
  {
    Outcome(Put(t, keyBytes, fk, value).table.(cur := Some(fk)), Tables.Done)
  }

  /** With a subkey that entry goes; without one, the subkeys that base holds for the key go. */
  function Delete(t: Table, keyBytes: nat, k: Bytes, withSubkey: bool): Outcome
    requires keyBytes <= |k|
  {
    var p := Split(k, keyBytes);
    Outcome(t.(view := Drop(t.view, p.key, if withSubkey then {p.subkey} else Subkeys(t.base, p.key))), Tables.Done)
  }

  function Insert(t: Table, keyBytes: nat, fk: Bytes, value: Bytes): Outcome
    requires keyBytes <= |fk|
  {
    if fk[..keyBytes] in t.view then Outcome(t, Tables.Failed(Tables.KeyAlreadyPresent))
    else Upsert(t, keyBytes, fk, value)
  }

  function Append(t: Table, keyBytes: nat, fk: Bytes, value: Bytes): Outcome
    requires keyBytes <= |fk|
  {
    if t.view == map[] then Put(t, keyBytes, fk, value)
    else if Below(fk[..keyBytes], Max(t.view.Keys)) then Outcome(t, Tables.Failed(Tables.AppendBelowGreatestKey))
    else Upsert(t, keyBytes, fk, value)
  }

  function AppendDup(t: Table, keyBytes: nat, fk: Bytes, value: Bytes): Outcome
    requires Ok(t, keyBytes) && keyBytes <= |fk|
  {
    var p := Split(fk, keyBytes);
    if p.key in t.view && Below(p.subkey, Max(t.view[p.key].Keys))
    then Outcome(t, Tables.Failed(Tables.AppendBelowGreatestSubkey))
    else Upsert(t, keyBytes, fk, value)
  }

  function DeleteCurrent(t: Table, keyBytes: nat): Outcome
    requires Ok(t, keyBytes)
  {
    match t.cur
    case None => Outcome(t, Tables.Failed(Tables.CurrentKeyIsNotSet))
    case Some(c) =>
      var p := Split(c, keyBytes);
      match Ceiling(t.view, p)
      case None => Outcome(t, Tables.Failed(Tables.CurrentIteratorKeyIsInvalid))
      case Some(q) =>
        var cur := match Higher(t.view, q) case None => None case Some(next) => Some(next.Joined());
        Outcome(Table(t.base, Drop(t.view, p.key, {p.subkey}), cur), Tables.Done)
  }

  /** The cursor's group goes; the cursor moves to the next key's first entry. */
  function DeleteCurrentDuplicates(t: Table, keyBytes: nat): Outcome
    requires Ok(t, keyBytes)
  {
    if !CursorHolds(t, keyBytes) then Outcome(t, Tables.Panicked)
    else match t.cur
    case None => Outcome(t, Tables.Failed(Tables.CurrentKeyIsNotSet))
    case Some(c) =>
      var key := c[..keyBytes];
      if key !in t.view then Outcome(t, Tables.Failed(Tables.CurrentIteratorKeyIsInvalid))
      else
        var rest := t.view - {key};
        var cur := match AfterKey(rest, key) case None => None case Some(next) => Some(next.Joined());
        Outcome(Table(t.base, rest, cur), Tables.Done)
  }

  function Apply(info: Tables.TableInfo, op: Tables.Op, t: Table): Outcome
    requires info.dupSorted && Ok(t, info.keyBytes) && Tables.Sized(info, op)
  {
    match op
    case Get(key) => Get(t, key)
    case Put(fk, value) => Put(t, info.keyBytes, fk, value)
    case Delete(k, withSubkey) => Delete(t, info.keyBytes, k, withSubkey)
    case First => First(t)
    case SeekExact(key) => SeekExact(t, key)
    case Seek(key) => Seek(t, key)
    case Next => Next(t, info.keyBytes)
    case Prev => Prev(t, info.keyBytes)
    case Last => Last(t)
    case Current => Current(t, info.keyBytes)
    case Upsert(fk, value) => Upsert(t, info.keyBytes, fk, value)
    case Insert(fk, value) => Insert(t, info.keyBytes, fk, value)
    case Append(fk, value) => Append(t, info.keyBytes, fk, value)
    case DeleteCurrent => DeleteCurrent(t, info.keyBytes)
    case NextDup => NextDup(t, info.keyBytes)
    case NextNoDup => NextNoDup(t, info.keyBytes)
    case SeekByKeySubkey(fk) => SeekByKeySubkey(t, info.keyBytes, fk)
    case DeleteCurrentDuplicates => DeleteCurrentDuplicates(t, info.keyBytes)
    case AppendDup(fk, value) => AppendDup(t, info.keyBytes, fk, value)
  }

  lemma StepKeepsOk(t: Table, keyBytes: nat)
    requires Ok(t, keyBytes)
    ensures Ok(Next(t, keyBytes).table, keyBytes) && Next(t, keyBytes).table.base == t.base
    ensures Ok(NextDup(t, keyBytes).table, keyBytes) && NextDup(t, keyBytes).table.base == t.base
    ensures Ok(NextNoDup(t, keyBytes).table, keyBytes) && NextNoDup(t, keyBytes).table.base == t.base
  {
  }

  lemma ReadKeepsOk(info: Tables.TableInfo, op: Tables.Op, t: Table)
    requires info.dupSorted && Ok(t, info.keyBytes) && Tables.Sized(info, op) && Tables.ReadOnly(op)
    ensures Ok(Apply(info, op, t).table, info.keyBytes) && Apply(info, op, t).table.base == t.base
  {
    if op.Next? || op.NextDup? || op.NextNoDup? {
      StepKeepsOk(t, info.keyBytes);
    }
  }

  lemma AssignKeyed(g: Groups, keyBytes: nat, fk: Bytes, value: Bytes)
    requires Keyed(g, keyBytes) && keyBytes <= |fk|
    ensures Keyed(Assign(g, Split(fk, keyBytes), value), keyBytes)
  {
    var p := Split(fk, keyBytes);
    assert p.subkey in Assign(g, p, value)[p.key];
  }

  lemma StoringKeepsOk(info: Tables.TableInfo, op: Tables.Op, t: Table)
    requires info.dupSorted && Ok(t, info.keyBytes) && Tables.Sized(info, op)
    requires op.Put? || op.Upsert? || op.Insert? || op.Append? || op.AppendDup?
    ensures Ok(Apply(info, op, t).table, info.keyBytes) && Apply(info, op, t).table.base == t.base
  {
    AssignKeyed(t.view, info.keyBytes, op.key, op.value);
  }

  lemma MutationKeepsOk(info: Tables.TableInfo, op: Tables.Op, t: Table)
    requires info.dupSorted && Ok(t, info.keyBytes) && Tables.Sized(info, op) && !Tables.ReadOnly(op)
    ensures Ok(Apply(info, op, t).table, info.keyBytes) && Apply(info, op, t).table.base == t.base
  {
    if op.Put? || op.Upsert? || op.Insert? || op.Append? || op.AppendDup? {
      StoringKeepsOk(info, op, t);
    }
  }

  /** No operation leaves an empty group behind, and none touches base. */
  lemma ApplyKeepsOk(info: Tables.TableInfo, op: Tables.Op, t: Table)
    requires info.dupSorted && Ok(t, info.keyBytes) && Tables.Sized(info, op)
    ensures Ok(Apply(info, op, t).table, info.keyBytes) && Apply(info, op, t).table.base == t.base
  {
    if Tables.ReadOnly(op) {
      ReadKeepsOk(info, op, t);
    } else {
      MutationKeepsOk(info, op, t);
    }
  }
}
