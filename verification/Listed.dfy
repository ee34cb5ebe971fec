/**
 A regular table as a sorted list of entries: the operations of module Flat again, stated by positions in the list.
 A cursor is a string; where it stands is the number of entries below it.
 */
module Listed {
  import opened Wrappers
  import opened ByteStrings
  import Tables

  datatype Pair = Pair(key: Bytes, value: Bytes)

  type List = seq<Pair>

  datatype Table = Table(base: List, view: List, cur: Option<Bytes>)

  datatype Outcome = Outcome(table: Table, reply: Tables.Reply)

  predicate Sorted(r: List) {
    forall i, j | 0 <= i < j < |r| :: Below(r[i].key, r[j].key)
  }

  // ---------- Positions ----------

  /** How many entries at the front of the list lie below the key. */
  function Rank(r: List, key: Bytes): (i: nat)
    ensures i <= |r|
  {
    if r == [] || !Below(r[0].key, key) then 0 else 1 + Rank(r[1..], key)
  }

  predicate Has(r: List, key: Bytes) {
    Rank(r, key) < |r| && r[Rank(r, key)].key == key
  }

  // ---------- Reads and cursor moves ----------

  /** The entry at a position, if there is one. */
  function MoveTo(t: Table, i: int): Outcome {
    if 0 <= i < |t.base| then
      Outcome(t.(cur := Some(t.base[i].key)), Tables.Found(t.base[i].key + t.base[i].value))
    else Outcome(t, Tables.Nothing)
  }

  function Seek(t: Table, key: Bytes): Outcome { MoveTo(t, Rank(t.base, key)) }

  /** The cursor moves as in Seek, but only the key's own entry is returned. */
  function SeekExact(t: Table, key: Bytes): Outcome {
    if Has(t.base, key) then Seek(t, key) else Outcome(Seek(t, key).table, Tables.Nothing)
  }

  /** First or Last under the cursor lock, which they wait for. */
  function UnderLock(t: Table): Outcome { Outcome(t, if t.base == [] then Tables.Nothing else Tables.Blocked) }

  function Next(t: Table): Outcome {
    match t.cur
    case None => UnderLock(t)
    case Some(c) => MoveTo(t, Rank(t.base, c) + 1)
  }

  function Prev(t: Table): Outcome {
    match t.cur
    case None => UnderLock(t)
    case Some(c) => MoveTo(t, Rank(t.base, c) - 1)
  }

  function Current(t: Table): Outcome {
    match t.cur
    case None => Outcome(t, Tables.Failed(Tables.CurrentKeyIsNotSet))
    case Some(c) =>
      Outcome(t, if Has(t.base, c) then Tables.Found(c + t.base[Rank(t.base, c)].value) else Tables.Nothing)
  }

  function Get(t: Table, key: Bytes): Outcome {
    Outcome(t, if Has(t.base, key) then Tables.Found(t.base[Rank(t.base, key)].value) else Tables.Nothing)
  }

  // ---------- Mutations ----------

  /** The entry is replaced in its place, or inserted where it belongs. */
  function Store(r: List, key: Bytes, value: Bytes): List {
    var i := Rank(r, key);
    if Has(r, key) then r[i := Pair(key, value)] else r[..i] + [Pair(key, value)] + r[i..]
  }

  function Remove(r: List, key: Bytes): List {
    var i := Rank(r, key);
    if Has(r, key) then r[..i] + r[i + 1..] else r
  }

  function Put(t: Table, key: Bytes, value: Bytes): Outcome {
    Outcome(t.(view := Store(t.view, key, value)), Tables.Done)
  }

  function Upsert(t: Table, key: Bytes, value: Bytes): Outcome {
    Outcome(t.(view := Store(t.view, key, value), cur := Some(key)), Tables.Done)
  }

  function Delete(t: Table, key: Bytes): Outcome { Outcome(t.(view := Remove(t.view, key)), Tables.Done) }

  function Insert(t: Table, key: Bytes, value: Bytes): Outcome {
    if Has(t.view, key) then Outcome(t, Tables.Failed(Tables.KeyAlreadyPresent)) else Upsert(t, key, value)
  }

  /** Compared with the front part of the last key, which may be too short to have one. */
  function Append(t: Table, keyBytes: nat, key: Bytes, value: Bytes): Outcome {
    if t.view == [] then Put(t, key, value)
    else
      var last := t.view[|t.view| - 1].key;
      if |last| < keyBytes then Outcome(t, Tables.Panicked)
      else if Below(key, last[..keyBytes]) then Outcome(t, Tables.Failed(Tables.AppendBelowGreatestKey))
      else Upsert(t, key, value)
  }

  /** The cursor's own entry goes; the cursor goes to the entry after the first one at or above it. */
  function DeleteCurrent(t: Table): Outcome {
    match t.cur
    case None => Outcome(t, Tables.Failed(Tables.CurrentKeyIsNotSet))
    case Some(c) =>
      var i := Rank(t.view, c);
      if i == |t.view| then Outcome(t, Tables.Failed(Tables.CurrentIteratorKeyIsInvalid))
      else
        var cur := if i + 1 < |t.view| then Some(t.view[i + 1].key) else None;
        Outcome(Table(t.base, Remove(t.view, c), cur), Tables.Done)
  }

  function Apply(info: Tables.TableInfo, op: Tables.Op, t: Table): Outcome {
    match op
    case Get(key) => Get(t, key)
    case Put(key, value) => Put(t, key, value)
    case Delete(key, _) => Delete(t, key)
    case First => MoveTo(t, 0)
    case SeekExact(key) => SeekExact(t, key)
    case Seek(key) => Seek(t, key)
    case Next => Next(t)
    case Prev => Prev(t)
    case Last => MoveTo(t, |t.base| - 1)
    case Current => Current(t)
    case Upsert(key, value) => Upsert(t, key, value)
    case Insert(key, value) => Insert(t, key, value)
    case Append(key, value) => Append(t, info.keyBytes, key, value)
    case DeleteCurrent => DeleteCurrent(t)
    case _ => Outcome(t, Tables.Failed(Tables.InvalidRequestData))
  }

  // ---------- Sorted lists stay sorted ----------

  lemma {:induction false} RankSplits(r: List, key: Bytes)
    requires Sorted(r)
    ensures forall i | 0 <= i < Rank(r, key) :: Below(r[i].key, key)
    ensures forall i | Rank(r, key) <= i < |r| :: AtMost(key, r[i].key)
  {
    if r != [] {
      if Below(r[0].key, key) {
        RankSplits(r[1..], key);
      } else {
        BelowConnected(r[0].key, key);
        forall i | 0 < i < |r| ensures AtMost(key, r[i].key) {
          if r[0].key != key {
            BelowTransitive(key, r[0].key, r[i].key);
          }
        }
      }
    }
  }

  lemma AboveRank(r: List, key: Bytes)
    requires Sorted(r) && !Has(r, key)
    ensures forall i | Rank(r, key) <= i < |r| :: Below(key, r[i].key)
  {
    var n := Rank(r, key);
    RankSplits(r, key);
    forall i | n < i < |r| ensures Below(key, r[i].key) {
      BelowTransitive(key, r[n].key, r[i].key);
    }
  }

  lemma StoreKeepsSorted(r: List, key: Bytes, value: Bytes)
    requires Sorted(r)
    ensures Sorted(Store(r, key, value))
  {
    var n, q := Rank(r, key), Store(r, key, value);
    RankSplits(r, key);
    if !Has(r, key) {
      AboveRank(r, key);
      forall i, j | 0 <= i < j < |q| ensures Below(q[i].key, q[j].key) {
        assert q[i] == if i < n then r[i] else if i == n then Pair(key, value) else r[i - 1];
        assert q[j] == if j < n then r[j] else if j == n then Pair(key, value) else r[j - 1];
      }
    }
  }

  lemma RemoveKeepsSorted(r: List, key: Bytes)
    requires Sorted(r)
    ensures Sorted(Remove(r, key))
  {
  }

  lemma ApplyKeepsSorted(info: Tables.TableInfo, op: Tables.Op, t: Table)
    requires Sorted(t.base) && Sorted(t.view)
    ensures Sorted(Apply(info, op, t).table.view) && Apply(info, op, t).table.base == t.base
  {
    if op.Put? || op.Upsert? || op.Insert? || op.Append? {
      StoreKeepsSorted(t.view, op.key, op.value);
    } else if op.Delete? {
      RemoveKeepsSorted(t.view, op.key);
    } else if op.DeleteCurrent? && t.cur.Some? {
      RemoveKeepsSorted(t.view, t.cur.value);
    }
  }
}
