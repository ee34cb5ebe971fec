/** The flat operations on key ++ subkey are the nested operations on (key, subkey), one operation at a time. */
module Refinement {
  import opened Wrappers
  import opened ByteStrings
  import opened OrderedKeys
  import opened Nesting
  import Tables
  import Flat
  import Nested

  predicate Same(n: Nested.Table, t: Flat.Table, keyBytes: nat) {
    && Represents(n.base, t.base, keyBytes)
    && Represents(n.view, t.view, keyBytes)
    && n.cur == t.cur
  }

  /** Equal replies, and tables that still correspond. */
  predicate Agree(n: Nested.Outcome, f: Flat.Outcome, keyBytes: nat) {
    Same(n.table, f.table, keyBytes) && n.reply == f.reply
  }

  /** The setting of every lemma below: a dup-sorted table and its nested image. */
  predicate Ready(info: Tables.TableInfo, n: Nested.Table, t: Flat.Table) {
    info.dupSorted && Flat.Fits(info, t) && Same(n, t, info.keyBytes)
  }

  lemma MoveAgrees(n: Nested.Table, t: Flat.Table, keyBytes: nat, target: Option<Pos>)
    requires Same(n, t, keyBytes)
    requires target.Some? ==> Nested.Has(n.base, target.value)
    ensures Join(target).Some? ==> Join(target).value in t.base
    ensures Agree(Nested.MoveTo(n, target), Flat.MoveTo(t, Join(target)), keyBytes)
  {
  }

  // ---------- Reads and cursor moves ----------

  lemma FirstAgrees(info: Tables.TableInfo, n: Nested.Table, t: Flat.Table)
    requires Ready(info, n, t)
    ensures Agree(Nested.First(n), Flat.First(t), info.keyBytes)
  {
    FirstNested(n.base, t.base, info.keyBytes);
    MoveAgrees(n, t, info.keyBytes, Nested.FirstOf(n.base, n.base.Keys));
  }

  lemma LastAgrees(info: Tables.TableInfo, n: Nested.Table, t: Flat.Table)
    requires Ready(info, n, t)
    ensures Agree(Nested.Last(n), Flat.Last(t), info.keyBytes)
  {
    LastNested(n.base, t.base, info.keyBytes);
    MoveAgrees(n, t, info.keyBytes, Nested.LastOf(n.base, n.base.Keys));
  }

  lemma SplitOfKey(key: Bytes, keyBytes: nat)
    requires |key| == keyBytes
    ensures Nested.Split(key, keyBytes) == Nested.Pos(key, [])
  {
  }

  lemma SeekAgrees(info: Tables.TableInfo, n: Nested.Table, t: Flat.Table, key: Bytes)
    requires Ready(info, n, t) && |key| == info.keyBytes
    ensures Agree(Nested.Seek(n, key), Flat.Seek(t, key), info.keyBytes)
  {
    SplitOfKey(key, info.keyBytes);
    CeilingNested(n.base, t.base, info.keyBytes, key);
    MoveAgrees(n, t, info.keyBytes, Nested.Ceiling(n.base, Nested.Pos(key, [])));
  }

  /** A key's group is not empty, so the ceiling of the bare key is in the group exactly when the key has one. */
  lemma CeilingInGroup(g: Groups, f: Store, keyBytes: nat, p: Pos)
    requires Represents(g, f, keyBytes)
    ensures
      var q := Nested.Ceiling(g, p);
      q.Some? && q.value.key == p.key <==> From(Nested.Subkeys(g, p.key), p.subkey) != {}
  {
    BelowIrreflexive(p.key);
  }

  lemma SeekExactAgrees(info: Tables.TableInfo, n: Nested.Table, t: Flat.Table, key: Bytes)
    requires Ready(info, n, t) && |key| == info.keyBytes
    ensures Agree(Nested.SeekExact(n, key), Flat.SeekExact(info, t, key), info.keyBytes)
  {
    SeekAgrees(info, n, t, key);
    SplitOfKey(key, info.keyBytes);
    CeilingNested(n.base, t.base, info.keyBytes, key);
    var p := Nested.Pos(key, []);
    CeilingInGroup(n.base, t.base, info.keyBytes, p);
    assert From(Nested.Subkeys(n.base, key), []) != {} <==> key in n.base by {
      if key in n.base {
        var s :| s in n.base[key];
        assert s in From(Nested.Subkeys(n.base, key), []);
      }
    }
    match Nested.Ceiling(n.base, p)
    case None =>
    case Some(q) => assert HasPrefix(q.Joined(), key) <==> q.key == key;
  }

  lemma SplitOfJoined(p: Pos, keyBytes: nat)
    requires |p.key| == keyBytes
    ensures Nested.Split(p.Joined(), keyBytes) == p
  {
  }

  /** The greatest flat key belongs to the greatest key of the nested table. */
  lemma GreatestKey(g: Groups, f: Store, keyBytes: nat)
    requires Represents(g, f, keyBytes)
    ensures f == map[] <==> g == map[]
    ensures f != map[] ==> f.Keys != {} && g.Keys != {} && Max(f.Keys) in f && Max(f.Keys)[..keyBytes] == Max(g.Keys)
  {
    LastNested(g, f, keyBytes);
    if g != map[] {
      var k :| k in g;
      assert g.Keys != {};
      var m := Max(g.Keys);
      SplitOfJoined(Nested.Pos(m, Max(g[m].Keys)), keyBytes);
    } else {
      assert f.Keys == {};
    }
  }

  lemma UnderLockAgrees(info: Tables.TableInfo, n: Nested.Table, t: Flat.Table)
    requires Ready(info, n, t)
    ensures Agree(Nested.UnderLock(n), Flat.UnderLock(t), info.keyBytes)
  {
    GreatestKey(n.base, t.base, info.keyBytes);
  }

  lemma NextAgrees(info: Tables.TableInfo, n: Nested.Table, t: Flat.Table)
    requires Ready(info, n, t)
    ensures Agree(Nested.Next(n, info.keyBytes), Flat.Next(t), info.keyBytes)
  {
    match t.cur
    case None => UnderLockAgrees(info, n, t);
    case Some(c) =>
      CeilingNested(n.base, t.base, info.keyBytes, c);
      match Nested.Ceiling(n.base, Nested.Split(c, info.keyBytes))
      case None =>
      case Some(p) =>
        HigherNested(n.base, t.base, info.keyBytes, p.Joined());
        SplitOfJoined(p, info.keyBytes);
        Nested.NeighboursAreEntries(n.base, p);
        MoveAgrees(n, t, info.keyBytes, Nested.Higher(n.base, p));
  }

  lemma PrevAgrees(info: Tables.TableInfo, n: Nested.Table, t: Flat.Table)
    requires Ready(info, n, t)
    ensures Agree(Nested.Prev(n, info.keyBytes), Flat.Prev(t), info.keyBytes)
  {
    match t.cur
    case None => UnderLockAgrees(info, n, t);
    case Some(c) =>
      LowerNested(n.base, t.base, info.keyBytes, c);
      Nested.NeighboursAreEntries(n.base, Nested.Split(c, info.keyBytes));
      MoveAgrees(n, t, info.keyBytes, Nested.Lower(n.base, Nested.Split(c, info.keyBytes)));
  }

  /** An entry is present in the flat store exactly when its pair is in the nested table. */
  lemma HasAgrees(g: Groups, f: Store, keyBytes: nat, fk: Bytes)
    requires Represents(g, f, keyBytes)
    ensures fk in f <==> Nested.Has(g, Nested.Split(fk, keyBytes))
    ensures fk in f ==> keyBytes <= |fk| && f[fk] == g[fk[..keyBytes]][fk[keyBytes..]]
  {
    if keyBytes <= |fk| {
      assert fk == fk[..keyBytes] + fk[keyBytes..];
    }
  }

  lemma CurrentAgrees(info: Tables.TableInfo, n: Nested.Table, t: Flat.Table)
    requires Ready(info, n, t)
    ensures Agree(Nested.Current(n, info.keyBytes), Flat.Current(t), info.keyBytes)
  {
    if t.cur.Some? {
      HasAgrees(n.base, t.base, info.keyBytes, t.cur.value);
    }
  }

  /** The part of a group from one subkey on. */
  lemma GroupFromCovers(g: Groups, f: Store, keyBytes: nat, c: Bytes)
    requires Represents(g, f, keyBytes) && keyBytes <= |c|
    ensures
      var p := Nested.Split(c, keyBytes);
      var subs := From(Nested.Subkeys(g, p.key), p.subkey);
      && Covers(g, f, keyBytes, From(Group(f.Keys, p.key), c), p.key, subs, {})
      && forall k | k in subs ::
           Covers(g, f, keyBytes, After(Group(f.Keys, p.key), p.key + k), p.key, After(subs, k), {})
  {
    var p := Nested.Split(c, keyBytes);
    var subs := From(Nested.Subkeys(g, p.key), p.subkey);
    forall fk | fk in f && fk[..keyBytes] == p.key
      ensures AtMost(c, fk) <==> AtMost(p.subkey, fk[keyBytes..])
    {
      SplitOrder(c, fk, keyBytes);
      BelowIrreflexive(p.key);
    }
    forall k | k in subs
      ensures Covers(g, f, keyBytes, After(Group(f.Keys, p.key), p.key + k), p.key, After(subs, k), {})
    {
      forall fk | fk in f && fk[..keyBytes] == p.key
        ensures Below(p.key + k, fk) <==> fk[keyBytes..] in After(subs, k)
      {
        SplitOrder(p.key + k, fk, keyBytes);
        SplitOfJoined(Nested.Pos(p.key, k), keyBytes);
        BelowIrreflexive(p.key);
        if Below(k, fk[keyBytes..]) && p.subkey != k {
          BelowTransitive(p.subkey, k, fk[keyBytes..]);
        }
      }
    }
  }

  lemma NextDupAgrees(info: Tables.TableInfo, n: Nested.Table, t: Flat.Table)
    requires Ready(info, n, t)
    ensures Agree(Nested.NextDup(n, info.keyBytes), Flat.NextDup(info, t), info.keyBytes)
  {
    match t.cur
    case None => UnderLockAgrees(info, n, t);
    case Some(c) =>
      if |c| < info.keyBytes {
        return;
      }
      var p := Nested.Split(c, info.keyBytes);
      var subs := From(Nested.Subkeys(n.base, p.key), p.subkey);
      var group := Group(t.base.Keys, p.key);
      GroupFromCovers(n.base, t.base, info.keyBytes, c);
      LeastNested(n.base, t.base, info.keyBytes, From(group, c), p.key, subs, {});
      if subs != {} {
        var s := Min(subs);
        var rest := After(subs, s);
        LeastNested(n.base, t.base, info.keyBytes, After(group, p.key + s), p.key, rest, {});
        MoveAgrees(n, t, info.keyBytes, if rest == {} then None else Some(Nested.Pos(p.key, Min(rest))));
      }
  }

  /** A scan from the end of a key's prefix range is a move past the key, or a restart. */
  lemma AfterKeyAgrees(g: Groups, f: Store, keyBytes: nat, key: Bytes)
    requires Represents(g, f, keyBytes) && |key| == keyBytes
    ensures Least(Flat.PastGroup(f.Keys, key)) == Join(Nested.AfterKey(g, key))
  {
    if AllMax(key) {
      FirstNested(g, f, keyBytes);
    } else {
      BeyondNested(g, f, keyBytes, key);
    }
  }

  lemma NextNoDupAgrees(info: Tables.TableInfo, n: Nested.Table, t: Flat.Table)
    requires Ready(info, n, t)
    ensures Agree(Nested.NextNoDup(n, info.keyBytes), Flat.NextNoDup(info, t), info.keyBytes)
  {
    match t.cur
    case None => UnderLockAgrees(info, n, t);
    case Some(c) =>
      if |c| < info.keyBytes {
        return;
      }
      AfterKeyAgrees(n.base, t.base, info.keyBytes, c[..info.keyBytes]);
      MoveAgrees(n, t, info.keyBytes, Nested.AfterKey(n.base, c[..info.keyBytes]));
  }

  lemma SeekByKeySubkeyAgrees(info: Tables.TableInfo, n: Nested.Table, t: Flat.Table, fk: Bytes)
    requires Ready(info, n, t) && Tables.Sized(info, Tables.SeekByKeySubkey(fk))
    ensures Agree(Nested.SeekByKeySubkey(n, info.keyBytes, fk), Flat.SeekByKeySubkey(info, t, fk), info.keyBytes)
  {
    CeilingNested(n.base, t.base, info.keyBytes, fk);
    match Nested.Ceiling(n.base, Nested.Split(fk, info.keyBytes))
    case None =>
    case Some(q) =>
      SplitOfJoined(q, info.keyBytes);
      assert HasPrefix(q.Joined(), fk[..info.keyBytes]) <==> q.key == fk[..info.keyBytes];
  }

  lemma GetAgrees(info: Tables.TableInfo, n: Nested.Table, t: Flat.Table, key: Bytes)
    requires Ready(info, n, t) && |key| == info.keyBytes
    ensures Agree(Nested.Get(n, key), Flat.Get(info, t, key), info.keyBytes)
  {
    GroupNested(n.base, t.base, info.keyBytes, key);
    LeastNested(n.base, t.base, info.keyBytes, Group(t.base.Keys, key), key, Nested.Subkeys(n.base, key), {});
    if key in n.base {
      SplitOfJoined(Nested.Pos(key, Min(n.base[key].Keys)), info.keyBytes);
    }
  }

  // ---------- Mutations ----------

  lemma PutAgrees(info: Tables.TableInfo, n: Nested.Table, t: Flat.Table, fk: Bytes, value: Bytes)
    requires Ready(info, n, t) && info.keyBytes <= |fk|
    ensures Agree(Nested.Put(n, info.keyBytes, fk, value), Flat.Put(t, fk, value), info.keyBytes)
    ensures Agree(Nested.Upsert(n, info.keyBytes, fk, value), Flat.Upsert(t, fk, value), info.keyBytes)
  {
    AssignNested(n.view, t.view, info.keyBytes, fk, value);
  }

  lemma DropOneAgrees(g: Groups, f: Store, keyBytes: nat, c: Bytes)
    requires Represents(g, f, keyBytes)
    ensures
      var p := Nested.Split(c, keyBytes);
      Represents(Nested.Drop(g, p.key, {p.subkey}), f - {c}, keyBytes)
  {
    var p := Nested.Split(c, keyBytes);
    forall fk | fk in f && keyBytes <= |fk|
      ensures fk in {c} <==> fk[..keyBytes] == p.key && fk[keyBytes..] in {p.subkey}
    {
      CursorOrder(c, fk, keyBytes);
    }
    if keyBytes <= |c| {
      DropNested(g, f, keyBytes, p.key, {p.subkey}, {c});
    } else {
      assert p.key !in g && f - {c} == f;
    }
  }

  lemma DeleteEntryAgrees(info: Tables.TableInfo, n: Nested.Table, t: Flat.Table, k: Bytes)
    requires Ready(info, n, t) && |k| == info.EntryBytes()
    ensures Agree(Nested.Delete(n, info.keyBytes, k, true), Flat.Delete(info, t, k, true), info.keyBytes)
  {
    DropOneAgrees(n.view, t.view, info.keyBytes, k);
  }

  lemma DeleteKeyAgrees(info: Tables.TableInfo, n: Nested.Table, t: Flat.Table, k: Bytes)
    requires Ready(info, n, t) && |k| == info.keyBytes
    ensures Agree(Nested.Delete(n, info.keyBytes, k, false), Flat.Delete(info, t, k, false), info.keyBytes)
  {
    SplitOfKey(k, info.keyBytes);
    var gone := Group(t.base.Keys, k);
    forall fk | fk in t.view && info.keyBytes <= |fk|
      ensures fk in gone <==> fk[..info.keyBytes] == k && fk[info.keyBytes..] in Nested.Subkeys(n.base, k)
    {
      HasAgrees(n.base, t.base, info.keyBytes, fk);
    }
    DropNested(n.view, t.view, info.keyBytes, k, Nested.Subkeys(n.base, k), gone);
  }

  lemma DeleteAgrees(info: Tables.TableInfo, n: Nested.Table, t: Flat.Table, k: Bytes, withSubkey: bool)
    requires Ready(info, n, t) && Tables.Sized(info, Tables.Delete(k, withSubkey))
    ensures Agree(Nested.Delete(n, info.keyBytes, k, withSubkey), Flat.Delete(info, t, k, withSubkey), info.keyBytes)
  {
    if withSubkey {
      DeleteEntryAgrees(info, n, t, k);
    } else {
      DeleteKeyAgrees(info, n, t, k);
    }
  }

  lemma InsertAgrees(info: Tables.TableInfo, n: Nested.Table, t: Flat.Table, fk: Bytes, value: Bytes)
    requires Ready(info, n, t) && Tables.Sized(info, Tables.Insert(fk, value))
    ensures Agree(Nested.Insert(n, info.keyBytes, fk, value), Flat.Insert(info, t, fk, value), info.keyBytes)
  {
    GroupNested(n.view, t.view, info.keyBytes, fk[..info.keyBytes]);
    PutAgrees(info, n, t, fk, value);
  }

  lemma AppendAgrees(info: Tables.TableInfo, n: Nested.Table, t: Flat.Table, fk: Bytes, value: Bytes)
    requires Ready(info, n, t) && Tables.Sized(info, Tables.Append(fk, value))
    ensures Agree(Nested.Append(n, info.keyBytes, fk, value), Flat.Append(info, t, fk, value), info.keyBytes)
  {
    GreatestKey(n.view, t.view, info.keyBytes);
    PutAgrees(info, n, t, fk, value);
  }

  /** The greatest flat key of a prefix group ends with the greatest subkey of the key. */
  lemma GreatestSubkey(g: Groups, f: Store, keyBytes: nat, key: Bytes)
    requires Represents(g, f, keyBytes) && |key| == keyBytes
    ensures Greatest(Group(f.Keys, key)) == if key in g then Some(key + Max(g[key].Keys)) else None
  {
    GroupNested(g, f, keyBytes, key);
    GreatestNested(g, f, keyBytes, Group(f.Keys, key), key, Nested.Subkeys(g, key), {});
  }

  lemma AppendDupAgrees(info: Tables.TableInfo, n: Nested.Table, t: Flat.Table, fk: Bytes, value: Bytes)
    requires Ready(info, n, t) && Tables.Sized(info, Tables.AppendDup(fk, value))
    ensures Agree(Nested.AppendDup(n, info.keyBytes, fk, value), Flat.AppendDup(info, t, fk, value), info.keyBytes)
  {
    var key := fk[..info.keyBytes];
    GreatestSubkey(n.view, t.view, info.keyBytes, key);
    PutAgrees(info, n, t, fk, value);
    if key in n.view {
      SplitOfJoined(Nested.Pos(key, Max(n.view[key].Keys)), info.keyBytes);
    }
  }

  lemma DeleteCurrentAgrees(info: Tables.TableInfo, n: Nested.Table, t: Flat.Table)
    requires Ready(info, n, t)
    ensures Agree(Nested.DeleteCurrent(n, info.keyBytes), Flat.DeleteCurrent(t), info.keyBytes)
  {
    match t.cur
    case None =>
    case Some(c) =>
      CeilingNested(n.view, t.view, info.keyBytes, c);
      match Nested.Ceiling(n.view, Nested.Split(c, info.keyBytes))
      case None =>
      case Some(q) =>
        HigherNested(n.view, t.view, info.keyBytes, q.Joined());
        SplitOfJoined(q, info.keyBytes);
        DropOneAgrees(n.view, t.view, info.keyBytes, c);
  }

  lemma DropGroupAgrees(g: Groups, f: Store, keyBytes: nat, key: Bytes)
    requires Represents(g, f, keyBytes) && key in g
    ensures Represents(g - {key}, f - Group(f.Keys, key), keyBytes)
  {
    GroupNested(g, f, keyBytes, key);
    DropNested(g, f, keyBytes, key, g[key].Keys, Group(f.Keys, key));
    assert g[key] - g[key].Keys == map[];
  }

  lemma DeleteCurrentDuplicatesAgrees(info: Tables.TableInfo, n: Nested.Table, t: Flat.Table)
    requires Ready(info, n, t)
    ensures Agree(Nested.DeleteCurrentDuplicates(n, info.keyBytes), Flat.DeleteCurrentDuplicates(info, t),
                  info.keyBytes)
  {
    match t.cur
    case None =>
    case Some(c) =>
      if |c| < info.keyBytes {
        return;
      }
      var key := c[..info.keyBytes];
      GroupNested(n.view, t.view, info.keyBytes, key);
      if key in n.view {
        DropGroupAgrees(n.view, t.view, info.keyBytes, key);
        AfterKeyAgrees(n.view - {key}, t.view - Group(t.view.Keys, key), info.keyBytes, key);
      }
  }

  // ---------- Every operation ----------

  lemma ReadAgrees(info: Tables.TableInfo, op: Tables.Op, n: Nested.Table, t: Flat.Table)
    requires Ready(info, n, t) && Tables.Sized(info, op) && Tables.ReadOnly(op)
    ensures Agree(Nested.Apply(info, op, n), Flat.Apply(info, op, t), info.keyBytes)
  {
    match op
    case Get(key) => GetAgrees(info, n, t, key);
    case First => FirstAgrees(info, n, t);
    case SeekExact(key) => SeekExactAgrees(info, n, t, key);
    case Seek(key) => SeekAgrees(info, n, t, key);
    case Next => NextAgrees(info, n, t);
    case Prev => PrevAgrees(info, n, t);
    case Last => LastAgrees(info, n, t);
    case Current => CurrentAgrees(info, n, t);
    case NextDup => NextDupAgrees(info, n, t);
    case NextNoDup => NextNoDupAgrees(info, n, t);
    case SeekByKeySubkey(fk) => SeekByKeySubkeyAgrees(info, n, t, fk);
  }

  lemma MutationAgrees(info: Tables.TableInfo, op: Tables.Op, n: Nested.Table, t: Flat.Table)
    requires Ready(info, n, t) && Tables.Sized(info, op) && !Tables.ReadOnly(op)
    ensures Agree(Nested.Apply(info, op, n), Flat.Apply(info, op, t), info.keyBytes)
  {
    match op
    case Put(fk, value) => PutAgrees(info, n, t, fk, value);
    case Delete(k, withSubkey) => DeleteAgrees(info, n, t, k, withSubkey);
    case Upsert(fk, value) => PutAgrees(info, n, t, fk, value);
    case Insert(fk, value) => InsertAgrees(info, n, t, fk, value);
    case Append(fk, value) => AppendAgrees(info, n, t, fk, value);
    case DeleteCurrent => DeleteCurrentAgrees(info, n, t);
    case DeleteCurrentDuplicates => DeleteCurrentDuplicatesAgrees(info, n, t);
    case AppendDup(fk, value) => AppendDupAgrees(info, n, t, fk, value);
  }

  lemma ApplyAgrees(info: Tables.TableInfo, op: Tables.Op, n: Nested.Table, t: Flat.Table)
    requires Ready(info, n, t) && Tables.Sized(info, op)
    ensures Agree(Nested.Apply(info, op, n), Flat.Apply(info, op, t), info.keyBytes)
  {
    if Tables.ReadOnly(op) {
      ReadAgrees(info, op, n, t);
    } else {
      MutationAgrees(info, op, n, t);
    }
  }
}
