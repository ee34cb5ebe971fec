/** The abstraction from flat stores to sorted lists, and the agreement of every operation on a regular table. */
module Listing {
  import opened Wrappers
  import opened ByteStrings
  import opened OrderedKeys
  import opened Listed
  import Tables
  import Flat

  type Store = Tables.Store

  function KeysOf(r: List): (ks: seq<Bytes>)
    ensures |ks| == |r| && forall i | 0 <= i < |r| :: ks[i] == r[i].key
  {
    seq(|r|, i requires 0 <= i < |r| => r[i].key)
  }

  /** r holds exactly the entries of s, in order. */
  ghost predicate Represents(r: List, s: Store) {
    && Sorted(r)
    && (forall i | 0 <= i < |r| :: r[i].key in s && s[r[i].key] == r[i].value)
    && (forall k | k in s :: k in KeysOf(r))
  }

  function ListOf(s: Store): (r: List)
    ensures |r| == |Ascending(s.Keys)|
  {
    AscendingElements(s.Keys);
    var ks := Ascending(s.Keys);
    seq(|ks|, i requires 0 <= i < |ks| => Pair(ks[i], if ks[i] in s then s[ks[i]] else []))
  }

  lemma ListRepresents(s: Store)
    ensures Represents(ListOf(s), s)
  {
    AscendingElements(s.Keys);
    AscendingIsSorted(s.Keys);
    var ks, r := Ascending(s.Keys), ListOf(s);
    forall i | 0 <= i < |r| ensures r[i].key in s && s[r[i].key] == r[i].value {
      assert ks[i] in ks;
    }
    forall k | k in s ensures k in KeysOf(r) {
      assert k in ks;
      var i :| 0 <= i < |ks| && ks[i] == k;
      assert KeysOf(r)[i] == k;
    }
  }

  lemma KeysRepresented(r: List, s: Store)
    requires Represents(r, s)
    ensures StrictlyAscending(KeysOf(r)) && forall k :: k in KeysOf(r) <==> k in s.Keys
  {
  }

  /** A store has only one list. */
  lemma RepresentsUnique(r: List, q: List, s: Store)
    requires Represents(r, s) && Represents(q, s)
    ensures r == q
  {
    KeysRepresented(r, s);
    KeysRepresented(q, s);
    AscendingUnique(KeysOf(r));
    AscendingUnique(KeysOf(q));
    assert Elements(KeysOf(r)) == s.Keys == Elements(KeysOf(q));
    forall i | 0 <= i < |r| ensures r[i] == q[i] {
      assert KeysOf(r)[i] == KeysOf(q)[i];
    }
  }

  // ---------- Positions and order statistics ----------

  function KeyAt(r: List, i: int): Option<Bytes> {
    if 0 <= i < |r| then Some(r[i].key) else None
  }

  lemma PositionOf(r: List, s: Store, k: Bytes) returns (i: nat)
    requires Represents(r, s) && k in s
    ensures i < |r| && r[i].key == k && s[k] == r[i].value
  {
    i :| 0 <= i < |KeysOf(r)| && KeysOf(r)[i] == k;
  }

  lemma EndsAgree(r: List, s: Store)
    requires Represents(r, s)
    ensures Least(s.Keys) == KeyAt(r, 0) && Greatest(s.Keys) == KeyAt(r, |r| - 1)
    ensures s == map[] <==> r == []
  {
    if r == [] {
      assert forall k :: k !in s;
    } else {
      forall k | k in s ensures AtMost(r[0].key, k) && AtMost(k, r[|r| - 1].key) {
        var i := PositionOf(r, s, k);
      }
      assert r[0].key in s;
      MinIs(s.Keys, r[0].key);
      MaxIs(s.Keys, r[|r| - 1].key);
    }
  }

  lemma NotBelow(a: Bytes, b: Bytes)
    requires AtMost(a, b)
    ensures !Below(b, a)
  {
    BelowIrreflexive(a);
    if Below(a, b) {
      BelowAsymmetric(a, b);
    }
  }

  /** The least key at or above another is at its rank. */
  lemma FromAgrees(r: List, s: Store, key: Bytes)
    requires Represents(r, s)
    ensures Least(From(s.Keys, key)) == KeyAt(r, Rank(r, key))
  {
    var n := Rank(r, key);
    RankSplits(r, key);
    forall k | k in From(s.Keys, key) ensures n < |r| && AtMost(r[n].key, k) {
      var i := PositionOf(r, s, k);
      NotBelow(key, k);
    }
    if n < |r| {
      MinIs(From(s.Keys, key), r[n].key);
    }
  }

  /** The greatest key below another is right before its rank. */
  lemma BeforeAgrees(r: List, s: Store, key: Bytes)
    requires Represents(r, s)
    ensures Greatest(Before(s.Keys, key)) == KeyAt(r, Rank(r, key) - 1)
  {
    var n := Rank(r, key);
    RankSplits(r, key);
    forall k | k in Before(s.Keys, key) ensures 0 < n && AtMost(k, r[n - 1].key) {
      var i := PositionOf(r, s, k);
      if AtMost(key, k) {
        NotBelow(key, k);
      }
    }
    if n > 0 {
      MaxIs(Before(s.Keys, key), r[n - 1].key);
    }
  }

  lemma AfterAgrees(r: List, s: Store, i: nat)
    requires Represents(r, s) && i < |r|
    ensures Least(After(s.Keys, r[i].key)) == KeyAt(r, i + 1)
  {
    KeysRepresented(r, s);
    NextInSorted(KeysOf(r), s.Keys, i);
  }

  lemma HasAgrees(r: List, s: Store, key: Bytes)
    requires Represents(r, s)
    ensures key in s <==> Has(r, key)
    ensures key in s ==> s[key] == r[Rank(r, key)].value
  {
    RankSplits(r, key);
    if key in s {
      var i := PositionOf(r, s, key);
      BelowIrreflexive(key);
      if Rank(r, key) < i {
        BelowAsymmetric(r[Rank(r, key)].key, key);
      }
    }
  }

  // ---------- Edits ----------

  lemma ReplaceRepresents(r: List, s: Store, key: Bytes, value: Bytes)
    requires Represents(r, s) && Has(r, key)
    ensures Represents(Listed.Store(r, key, value), s[key := value])
  {
    var q, n := Listed.Store(r, key, value), Rank(r, key);
    StoreKeepsSorted(r, key, value);
    forall i | 0 <= i < |q| && i != n ensures q[i].key in s && q[i].key != key && s[q[i].key] == q[i].value {
      BelowIrreflexive(key);
      assert Below(r[i].key, r[n].key) || Below(r[n].key, r[i].key);
    }
    forall k | k in s[key := value] ensures k in KeysOf(q) {
      if k == key {
        assert KeysOf(q)[n] == k;
      } else {
        var i := PositionOf(r, s, k);
        assert KeysOf(q)[i] == k;
      }
    }
  }

  lemma InsertedAt(r: List, n: nat, p: Pair)
    requires n <= |r|
    ensures
      var q := r[..n] + [p] + r[n..];
      && |q| == |r| + 1 && q[n] == p
      && (forall i | 0 <= i < n :: q[i] == r[i])
      && (forall i | n <= i < |r| :: q[i + 1] == r[i])
  {
  }

  lemma ShiftRepresents(r: List, s: Store, q: List, n: nat, p: Pair)
    requires Represents(r, s) && p.key !in s && Sorted(q) && n <= |r| && |q| == |r| + 1
    requires q[n] == p && (forall i | 0 <= i < n :: q[i] == r[i]) && (forall i | n <= i < |r| :: q[i + 1] == r[i])
    ensures Represents(q, s[p.key := p.value])
  {
    forall i | 0 <= i <= |r| ensures q[i].key in s[p.key := p.value] && s[p.key := p.value][q[i].key] == q[i].value {
      if i > n {
        assert q[i - 1 + 1] == r[i - 1];
      }
    }
    forall k | k in s[p.key := p.value] ensures k in KeysOf(q) {
      if k == p.key {
        assert KeysOf(q)[n] == q[n].key;
      } else {
        var i := PositionOf(r, s, k);
        var j := if i < n then i else i + 1;
        assert q[j] == r[i] && KeysOf(q)[j] == q[j].key;
      }
    }
  }

  lemma InsertRepresents(r: List, s: Store, key: Bytes, value: Bytes)
    requires Represents(r, s) && !Has(r, key)
    ensures Represents(Listed.Store(r, key, value), s[key := value])
  {
    var q := Listed.Store(r, key, value);
    StoreKeepsSorted(r, key, value);
    HasAgrees(r, s, key);
    InsertedAt(r, Rank(r, key), Pair(key, value));
    ShiftRepresents(r, s, q, Rank(r, key), Pair(key, value));
  }

  lemma StoreRepresents(r: List, s: Store, key: Bytes, value: Bytes)
    requires Represents(r, s)
    ensures Represents(Listed.Store(r, key, value), s[key := value])
  {
    if Has(r, key) {
      ReplaceRepresents(r, s, key, value);
    } else {
      InsertRepresents(r, s, key, value);
    }
  }

  lemma OthersDiffer(r: List, n: nat)
    requires Sorted(r) && n < |r|
    ensures forall i | 0 <= i < |r| && i != n :: r[i].key != r[n].key
  {
    BelowIrreflexive(r[n].key);
  }

  lemma RemoveEntry(r: List, s: Store, n: nat)
    requires Represents(r, s) && n < |r|
    ensures Represents(r[..n] + r[n + 1..], s - {r[n].key})
  {
    var q, key := r[..n] + r[n + 1..], r[n].key;
    OthersDiffer(r, n);
    forall i | 0 <= i < |q| ensures q[i].key in s - {key} && (s - {key})[q[i].key] == q[i].value {
      assert q[i] == r[if i < n then i else i + 1];
    }
    forall k | k in s - {key} ensures k in KeysOf(q) {
      var i := PositionOf(r, s, k);
      assert KeysOf(q)[if i < n then i else i - 1] == k;
    }
  }

  lemma RemoveRepresents(r: List, s: Store, key: Bytes)
    requires Represents(r, s)
    ensures Represents(Remove(r, key), s - {key})
  {
    HasAgrees(r, s, key);
    if Has(r, key) {
      RemoveEntry(r, s, Rank(r, key));
    } else {
      assert s - {key} == s;
    }
  }

  // ---------- Every operation ----------

  ghost predicate Same(n: Listed.Table, t: Flat.Table) {
    Represents(n.base, t.base) && Represents(n.view, t.view) && n.cur == t.cur
  }

  /** Equal replies, and tables that still correspond. */
  ghost predicate Agree(n: Listed.Outcome, f: Flat.Outcome) {
    Same(n.table, f.table) && n.reply == f.reply
  }

  lemma MoveAgrees(n: Listed.Table, t: Flat.Table, i: int)
    requires Same(n, t)
    ensures KeyAt(n.base, i).Some? ==> KeyAt(n.base, i).value in t.base
    ensures Agree(Listed.MoveTo(n, i), Flat.MoveTo(t, KeyAt(n.base, i)))
  {
  }

  lemma SeekAgrees(info: Tables.TableInfo, n: Listed.Table, t: Flat.Table, key: Bytes)
    requires Same(n, t) && !info.dupSorted
    ensures Agree(Listed.Seek(n, key), Flat.Seek(t, key))
    ensures Agree(Listed.SeekExact(n, key), Flat.SeekExact(info, t, key))
  {
    FromAgrees(n.base, t.base, key);
    MoveAgrees(n, t, Rank(n.base, key));
  }

  lemma StepsAgree(n: Listed.Table, t: Flat.Table)
    requires Same(n, t)
    ensures Agree(Listed.Next(n), Flat.Next(t))
    ensures Agree(Listed.Prev(n), Flat.Prev(t))
  {
    EndsAgree(n.base, t.base);
    if t.cur.Some? {
      var i := Rank(n.base, t.cur.value);
      FromAgrees(n.base, t.base, t.cur.value);
      BeforeAgrees(n.base, t.base, t.cur.value);
      if i < |n.base| {
        AfterAgrees(n.base, t.base, i);
        MoveAgrees(n, t, i + 1);
      }
      MoveAgrees(n, t, i - 1);
    }
  }

  lemma ReadAgrees(info: Tables.TableInfo, op: Tables.Op, n: Listed.Table, t: Flat.Table)
    requires !info.dupSorted && Flat.Fits(info, t) && Same(n, t) && Tables.Sized(info, op) && Tables.ReadOnly(op)
    ensures Agree(Listed.Apply(info, op, n), Flat.Apply(info, op, t))
  {
    EndsAgree(n.base, t.base);
    match op
    case Get(key) => HasAgrees(n.base, t.base, key);
    case First => MoveAgrees(n, t, 0);
    case Last => MoveAgrees(n, t, |n.base| - 1);
    case SeekExact(key) => SeekAgrees(info, n, t, key);
    case Seek(key) => SeekAgrees(info, n, t, key);
    case Next => StepsAgree(n, t);
    case Prev => StepsAgree(n, t);
    case Current => if t.cur.Some? { HasAgrees(n.base, t.base, t.cur.value); }
    case _ =>
  }

  lemma DeleteCurrentAgrees(n: Listed.Table, t: Flat.Table)
    requires Same(n, t)
    ensures Agree(Listed.DeleteCurrent(n), Flat.DeleteCurrent(t))
  {
    if t.cur.Some? {
      var c := t.cur.value;
      FromAgrees(n.view, t.view, c);
      RemoveRepresents(n.view, t.view, c);
      if Rank(n.view, c) < |n.view| {
        AfterAgrees(n.view, t.view, Rank(n.view, c));
      }
    }
  }

  lemma PutAgrees(n: Listed.Table, t: Flat.Table, key: Bytes, value: Bytes)
    requires Same(n, t)
    ensures Agree(Listed.Put(n, key, value), Flat.Put(t, key, value))
    ensures Agree(Listed.Upsert(n, key, value), Flat.Upsert(t, key, value))
  {
    StoreRepresents(n.view, t.view, key, value);
  }

  lemma InsertAgrees(info: Tables.TableInfo, n: Listed.Table, t: Flat.Table, key: Bytes, value: Bytes)
    requires !info.dupSorted && Same(n, t) && Tables.Sized(info, Tables.Insert(key, value))
    ensures Agree(Listed.Insert(n, key, value), Flat.Insert(info, t, key, value))
  {
    PutAgrees(n, t, key, value);
    HasAgrees(n.view, t.view, key);
  }

  lemma AppendAgrees(info: Tables.TableInfo, n: Listed.Table, t: Flat.Table, key: Bytes, value: Bytes)
    requires !info.dupSorted && Same(n, t) && Tables.Sized(info, Tables.Append(key, value))
    ensures Agree(Listed.Append(n, info.keyBytes, key, value), Flat.Append(info, t, key, value))
  {
    PutAgrees(n, t, key, value);
    EndsAgree(n.view, t.view);
  }

  lemma MutationAgrees(info: Tables.TableInfo, op: Tables.Op, n: Listed.Table, t: Flat.Table)
    requires !info.dupSorted && Flat.Fits(info, t) && Same(n, t) && Tables.Sized(info, op) && !Tables.ReadOnly(op)
    ensures Agree(Listed.Apply(info, op, n), Flat.Apply(info, op, t))
  {
    match op
    case Put(key, value) => PutAgrees(n, t, key, value);
    case Upsert(key, value) => PutAgrees(n, t, key, value);
    case Insert(key, value) => InsertAgrees(info, n, t, key, value);
    case Append(key, value) => AppendAgrees(info, n, t, key, value);
    case Delete(key, _) => RemoveRepresents(n.view, t.view, key);
    case DeleteCurrent => DeleteCurrentAgrees(n, t);
    case _ =>
  }

  lemma ApplyAgrees(info: Tables.TableInfo, op: Tables.Op, n: Listed.Table, t: Flat.Table)
    requires !info.dupSorted && Flat.Fits(info, t) && Same(n, t) && Tables.Sized(info, op)
    ensures Agree(Listed.Apply(info, op, n), Flat.Apply(info, op, t))
  {
    if Tables.ReadOnly(op) {
      ReadAgrees(info, op, n, t);
    } else {
      MutationAgrees(info, op, n, t);
    }
  }
}
