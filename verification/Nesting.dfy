/** The abstraction from flat stores to nested groups, and how it carries order statistics over. */
module Nesting {
  import opened Wrappers
  import opened ByteStrings
  import opened OrderedKeys
  import Tables
  import Nested

  type Store = Tables.Store
  type Groups = Nested.Groups
  type Pos = Nested.Pos

  predicate Wide(f: Store, keyBytes: nat) {
    forall fk | fk in f :: keyBytes <= |fk|
  }

  function Heads(f: Store, keyBytes: nat): set<Bytes> {
    set fk | fk in f && keyBytes <= |fk| :: fk[..keyBytes]
  }

  function Tails(s: set<Bytes>, key: Bytes): set<Bytes> {
    set fk | fk in s && HasPrefix(fk, key) :: fk[|key|..]
  }

  lemma TailsJoin(s: set<Bytes>, key: Bytes)
    ensures forall t :: t in Tails(s, key) <==> key + t in s
  {
    forall t ensures t in Tails(s, key) <==> key + t in s {
      if t in Tails(s, key) {
        var fk :| fk in s && HasPrefix(fk, key) && t == fk[|key|..];
        assert fk == key + t;
      }
      if key + t in s {
        assert HasPrefix(key + t, key) && (key + t)[|key|..] == t;
      }
    }
  }

  /** The groups of a flat store: its keys cut after the first keyBytes bytes. */
  function Nest(f: Store, keyBytes: nat): Groups {
    map key | key in Heads(f, keyBytes) ::
      TailsJoin(f.Keys, key);
      map t | t in Tails(f.Keys, key) :: f[key + t]
  }

  /** Every entry of g is one of f. */
  predicate Within(g: Groups, f: Store) {
    forall key, t | key in g && t in g[key] :: key + t in f && g[key][t] == f[key + t]
  }

  /** Every key of f is cut into an entry of g. */
  predicate Contains(g: Groups, f: Store, keyBytes: nat) {
    forall fk | fk in f :: keyBytes <= |fk| && fk[..keyBytes] in g && fk[keyBytes..] in g[fk[..keyBytes]]
  }

  /** g holds exactly the entries of f, and no empty group. */
  predicate Represents(g: Groups, f: Store, keyBytes: nat) {
    Nested.Keyed(g, keyBytes) && Within(g, f) && Contains(g, f, keyBytes)
  }

  /** Nothing is lost or added by nesting. */
  lemma NestRepresents(f: Store, keyBytes: nat)
    requires Wide(f, keyBytes)
    ensures Represents(Nest(f, keyBytes), f, keyBytes)
  {
    var g := Nest(f, keyBytes);
    forall key | key in g ensures |key| == keyBytes && g[key].Keys == Tails(f.Keys, key) && g[key] != map[] {
      var fk :| fk in f && keyBytes <= |fk| && key == fk[..keyBytes];
      assert fk[|key|..] in Tails(f.Keys, key);
    }
    forall key, t | key in g && t in g[key] ensures key + t in f && g[key][t] == f[key + t] {
      TailsJoin(f.Keys, key);
    }
    forall fk | fk in f ensures fk[..keyBytes] in g && fk[keyBytes..] in g[fk[..keyBytes]] {
      assert fk[keyBytes..] in Tails(f.Keys, fk[..keyBytes]);
    }
  }

  lemma SameKeys(g: Groups, h: Groups, f: Store, keyBytes: nat, key: Bytes)
    requires Represents(g, f, keyBytes) && Represents(h, f, keyBytes) && key in g
    ensures key in h
    ensures forall t | t in g[key] :: t in h[key] && h[key][t] == g[key][t]
  {
  }

  lemma SameGroups(g: Groups, h: Groups, f: Store, keyBytes: nat)
    requires Represents(g, f, keyBytes) && Represents(h, f, keyBytes)
    ensures g.Keys <= h.Keys && forall key | key in g :: g[key] == h[key]
  {
    forall key | key in g ensures key in h && g[key] == h[key] {
      SameKeys(g, h, f, keyBytes, key);
      SameKeys(h, g, f, keyBytes, key);
    }
  }

  /** A flat store is represented by one nested table only. */
  lemma RepresentsUnique(g: Groups, h: Groups, f: Store, keyBytes: nat)
    requires Represents(g, f, keyBytes) && Represents(h, f, keyBytes)
    ensures g == h
  {
    SameGroups(g, h, f, keyBytes);
    SameGroups(h, g, f, keyBytes);
  }

  // ---------- Order ----------

  /** Flat order is pair order. */
  lemma SplitOrder(a: Bytes, b: Bytes, keyBytes: nat)
    requires keyBytes <= |a| && keyBytes <= |b|
    ensures a == b <==> a[..keyBytes] == b[..keyBytes] && a[keyBytes..] == b[keyBytes..]
    ensures Below(a, b) <==>
            Below(a[..keyBytes], b[..keyBytes])
            || (a[..keyBytes] == b[..keyBytes] && Below(a[keyBytes..], b[keyBytes..]))
  {
    assert a == a[..keyBytes] + a[keyBytes..] && b == b[..keyBytes] + b[keyBytes..];
    BelowConcat(a[..keyBytes], a[keyBytes..], b[..keyBytes], b[keyBytes..]);
  }

  /** The same for a cursor of any length against an entry. */
  lemma CursorOrder(c: Bytes, fk: Bytes, keyBytes: nat)
    requires keyBytes <= |fk|
    ensures
      var p := Nested.Split(c, keyBytes);
      && (c == fk <==> p.key == fk[..keyBytes] && p.subkey == fk[keyBytes..])
      && (Below(c, fk) <==>
            Below(p.key, fk[..keyBytes]) || (p.key == fk[..keyBytes] && Below(p.subkey, fk[keyBytes..])))
      && (Below(fk, c) <==>
            Below(fk[..keyBytes], p.key) || (p.key == fk[..keyBytes] && Below(fk[keyBytes..], p.subkey)))
  {
    if keyBytes <= |c| {
      SplitOrder(c, fk, keyBytes);
      SplitOrder(fk, c, keyBytes);
      assert c[..keyBytes] == Nested.Split(c, keyBytes).key && c[keyBytes..] == Nested.Split(c, keyBytes).subkey;
    } else {
      BelowShort(c, fk[..keyBytes], fk[keyBytes..]);
      assert fk == fk[..keyBytes] + fk[keyBytes..];
    }
  }

  function Join(p: Option<Pos>): Option<Bytes> {
    match p case None => None case Some(q) => Some(q.Joined())
  }

  /** Part of a nested table: some subkeys of one key, and all entries of some other keys. */
  predicate Covers(g: Groups, f: Store, keyBytes: nat, s: set<Bytes>, key: Bytes, subs: set<Bytes>, keys: set<Bytes>)
    requires Represents(g, f, keyBytes)
  {
    && subs <= Nested.Subkeys(g, key)
    && keys <= g.Keys
    && s <= f.Keys
    && forall fk | fk in f :: fk in s <==> (fk[..keyBytes] == key && fk[keyBytes..] in subs) || fk[..keyBytes] in keys
  }

  lemma MinOfPairs(s: set<Bytes>, keyBytes: nat, key: Bytes, sub: Bytes)
    requires |key| == keyBytes && key + sub in s
    requires forall fk | fk in s ::
               keyBytes <= |fk|
               && (Below(key, fk[..keyBytes]) || (key == fk[..keyBytes] && AtMost(sub, fk[keyBytes..])))
    ensures Least(s) == Some(key + sub)
  {
    forall fk | fk in s ensures AtMost(key + sub, fk) {
      SplitOrder(key + sub, fk, keyBytes);
      assert (key + sub)[..keyBytes] == key && (key + sub)[keyBytes..] == sub;
    }
    MinIs(s, key + sub);
  }

  lemma MaxOfPairs(s: set<Bytes>, keyBytes: nat, key: Bytes, sub: Bytes)
    requires |key| == keyBytes && key + sub in s
    requires forall fk | fk in s ::
               keyBytes <= |fk|
               && (Below(fk[..keyBytes], key) || (key == fk[..keyBytes] && AtMost(fk[keyBytes..], sub)))
    ensures Greatest(s) == Some(key + sub)
  {
    forall fk | fk in s ensures AtMost(fk, key + sub) {
      SplitOrder(fk, key + sub, keyBytes);
      assert (key + sub)[..keyBytes] == key && (key + sub)[keyBytes..] == sub;
    }
    MaxIs(s, key + sub);
  }

  /** The least flat key of such a part is its least subkey, or the first entry of its least other key. */
  lemma LeastNested(g: Groups, f: Store, keyBytes: nat, s: set<Bytes>, key: Bytes, subs: set<Bytes>, keys: set<Bytes>)
    requires Represents(g, f, keyBytes) && Covers(g, f, keyBytes, s, key, subs, keys)
    requires subs != {} ==> forall k | k in keys :: Below(key, k)
    ensures Least(s) == Join(if subs != {} then Some(Nested.Pos(key, Min(subs)))
                             else Nested.FirstOf(g, keys))
  {
    if subs != {} {
      var m := Min(subs);
      assert (key + m)[..keyBytes] == key && (key + m)[keyBytes..] == m;
      MinOfPairs(s, keyBytes, key, m);
    } else if keys != {} {
      var k := Min(keys);
      var m := Min(g[k].Keys);
      assert (k + m)[..keyBytes] == k && (k + m)[keyBytes..] == m;
      MinOfPairs(s, keyBytes, k, m);
    } else {
      assert s == {};
    }
  }

  lemma GreatestNested(g: Groups, f: Store, keyBytes: nat, s: set<Bytes>, key: Bytes, subs: set<Bytes>,
                       keys: set<Bytes>)
    requires Represents(g, f, keyBytes) && Covers(g, f, keyBytes, s, key, subs, keys)
    requires subs != {} ==> forall k | k in keys :: Below(k, key)
    ensures Greatest(s) == Join(if subs != {} then Some(Nested.Pos(key, Max(subs)))
                                else Nested.LastOf(g, keys))
  {
    if subs != {} {
      var m := Max(subs);
      assert (key + m)[..keyBytes] == key && (key + m)[keyBytes..] == m;
      MaxOfPairs(s, keyBytes, key, m);
    } else if keys != {} {
      var k := Max(keys);
      var m := Max(g[k].Keys);
      assert (k + m)[..keyBytes] == k && (k + m)[keyBytes..] == m;
      MaxOfPairs(s, keyBytes, k, m);
    } else {
      assert s == {};
    }
  }

  lemma FirstNested(g: Groups, f: Store, keyBytes: nat)
    requires Represents(g, f, keyBytes)
    ensures Least(f.Keys) == Join(Nested.FirstOf(g, g.Keys))
  {
    LeastNested(g, f, keyBytes, f.Keys, [], {}, g.Keys);
  }

  lemma LastNested(g: Groups, f: Store, keyBytes: nat)
    requires Represents(g, f, keyBytes)
    ensures Greatest(f.Keys) == Join(Nested.LastOf(g, g.Keys))
  {
    GreatestNested(g, f, keyBytes, f.Keys, [], {}, g.Keys);
  }

  lemma CeilingNested(g: Groups, f: Store, keyBytes: nat, c: Bytes)
    requires Represents(g, f, keyBytes)
    ensures Least(From(f.Keys, c)) == Join(Nested.Ceiling(g, Nested.Split(c, keyBytes)))
  {
    var p := Nested.Split(c, keyBytes);
    forall fk | fk in f ensures AtMost(c, fk) <==>
      (fk[..keyBytes] == p.key && AtMost(p.subkey, fk[keyBytes..])) || Below(p.key, fk[..keyBytes])
    {
      CursorOrder(c, fk, keyBytes);
    }
    LeastNested(g, f, keyBytes, From(f.Keys, c), p.key, From(Nested.Subkeys(g, p.key), p.subkey), After(g.Keys, p.key));
  }

  lemma HigherNested(g: Groups, f: Store, keyBytes: nat, c: Bytes)
    requires Represents(g, f, keyBytes)
    ensures Least(After(f.Keys, c)) == Join(Nested.Higher(g, Nested.Split(c, keyBytes)))
  {
    var p := Nested.Split(c, keyBytes);
    forall fk | fk in f ensures Below(c, fk) <==>
      (fk[..keyBytes] == p.key && Below(p.subkey, fk[keyBytes..])) || Below(p.key, fk[..keyBytes])
    {
      CursorOrder(c, fk, keyBytes);
    }
    LeastNested(g, f, keyBytes, After(f.Keys, c), p.key,
                After(Nested.Subkeys(g, p.key), p.subkey), After(g.Keys, p.key));
  }

  lemma LowerNested(g: Groups, f: Store, keyBytes: nat, c: Bytes)
    requires Represents(g, f, keyBytes)
    ensures Greatest(Before(f.Keys, c)) == Join(Nested.Lower(g, Nested.Split(c, keyBytes)))
  {
    var p := Nested.Split(c, keyBytes);
    forall fk | fk in f ensures Below(fk, c) <==>
      (fk[..keyBytes] == p.key && Below(fk[keyBytes..], p.subkey)) || Below(fk[..keyBytes], p.key)
    {
      CursorOrder(c, fk, keyBytes);
    }
    GreatestNested(g, f, keyBytes, Before(f.Keys, c), p.key,
                   Before(Nested.Subkeys(g, p.key), p.subkey), Before(g.Keys, p.key));
  }

  /** A prefix group is one group of the nested table. */
  lemma GroupNested(g: Groups, f: Store, keyBytes: nat, key: Bytes)
    requires Represents(g, f, keyBytes) && |key| == keyBytes
    ensures Covers(g, f, keyBytes, Group(f.Keys, key), key, Nested.Subkeys(g, key), {})
    ensures Group(f.Keys, key) == {} <==> key !in g
  {
    if key in g {
      var t :| t in g[key];
      assert HasPrefix(key + t, key);
    }
  }

  lemma BeyondNested(g: Groups, f: Store, keyBytes: nat, key: Bytes)
    requires Represents(g, f, keyBytes) && |key| == keyBytes
    ensures Least(Beyond(f.Keys, key)) == Join(Nested.FirstOf(g, After(g.Keys, key)))
  {
    forall fk | fk in f ensures fk in Beyond(f.Keys, key) <==> Below(key, fk[..keyBytes]) {
      SplitOrder(key, fk, keyBytes);
      assert key[..keyBytes] == key && key[keyBytes..] == [];
      if Below(key, fk[..keyBytes]) {
        BelowIrreflexive(key);
      }
    }
    LeastNested(g, f, keyBytes, Beyond(f.Keys, key), [], {}, After(g.Keys, key));
  }

  // ---------- Edits ----------

  lemma HasAfterAssign(g: Groups, q: Pos, value: Bytes, p: Pos)
    ensures Nested.Has(Nested.Assign(g, q, value), p) <==> p == q || Nested.Has(g, p)
    ensures Nested.Has(Nested.Assign(g, q, value), p) ==>
              Nested.Assign(g, q, value)[p.key][p.subkey] == if p == q then value else g[p.key][p.subkey]
  {
  }

  lemma SplitOfPair(a: Pos, b: Pos, keyBytes: nat)
    requires |a.key| == |b.key| == keyBytes
    ensures a.Joined() == b.Joined() <==> a == b
  {
    assert a.Joined()[..keyBytes] == a.key && a.Joined()[keyBytes..] == a.subkey;
    assert b.Joined()[..keyBytes] == b.key && b.Joined()[keyBytes..] == b.subkey;
  }

  lemma AssignWithin(g: Groups, f: Store, keyBytes: nat, q: Pos, value: Bytes)
    requires Within(g, f) && Nested.Keyed(g, keyBytes) && |q.key| == keyBytes
    ensures Within(Nested.Assign(g, q, value), f[q.Joined() := value])
  {
    var h := Nested.Assign(g, q, value);
    forall key, t | key in h && t in h[key]
      ensures key + t in f[q.Joined() := value] && h[key][t] == f[q.Joined() := value][key + t]
    {
      HasAfterAssign(g, q, value, Nested.Pos(key, t));
      SplitOfPair(q, Nested.Pos(key, t), keyBytes);
    }
  }

  lemma AssignContains(g: Groups, f: Store, keyBytes: nat, q: Pos, value: Bytes)
    requires Contains(g, f, keyBytes) && |q.key| == keyBytes
    ensures Contains(Nested.Assign(g, q, value), f[q.Joined() := value], keyBytes)
  {
  }

  lemma AssignNested(g: Groups, f: Store, keyBytes: nat, fk: Bytes, value: Bytes)
    requires Represents(g, f, keyBytes) && keyBytes <= |fk|
    ensures Represents(Nested.Assign(g, Nested.Split(fk, keyBytes), value), f[fk := value], keyBytes)
  {
    var q := Nested.Split(fk, keyBytes);
    assert fk == q.Joined();
    Nested.AssignKeyed(g, keyBytes, fk, value);
    AssignWithin(g, f, keyBytes, q, value);
    AssignContains(g, f, keyBytes, q, value);
  }

  lemma StaysAfterDrop(g: Groups, key: Bytes, subs: set<Bytes>, p: Pos)
    requires Nested.Has(g, p) && !(p.key == key && p.subkey in subs)
    ensures Nested.Has(Nested.Drop(g, key, subs), p)
  {
    if p.key == key {
      assert p.subkey in g[key] - subs;
    }
  }

  lemma LeftAfterDrop(g: Groups, key: Bytes, subs: set<Bytes>, p: Pos)
    requires Nested.Has(Nested.Drop(g, key, subs), p)
    ensures Nested.Has(g, p) && !(p.key == key && p.subkey in subs)
    ensures Nested.Drop(g, key, subs)[p.key][p.subkey] == g[p.key][p.subkey]
  {
  }

  /** `gone` are the keys of f that are cut into `key` and one of the subkeys. */
  predicate Cuts(f: Store, keyBytes: nat, key: Bytes, subs: set<Bytes>, gone: set<Bytes>) {
    forall fk | fk in f && keyBytes <= |fk| :: fk in gone <==> fk[..keyBytes] == key && fk[keyBytes..] in subs
  }

  lemma DropWithin(g: Groups, f: Store, keyBytes: nat, key: Bytes, subs: set<Bytes>, gone: set<Bytes>)
    requires Represents(g, f, keyBytes) && Cuts(f, keyBytes, key, subs, gone)
    ensures Within(Nested.Drop(g, key, subs), f - gone)
  {
    var h := Nested.Drop(g, key, subs);
    forall k, t | k in h && t in h[k] ensures k + t in f - gone && h[k][t] == (f - gone)[k + t] {
      LeftAfterDrop(g, key, subs, Nested.Pos(k, t));
      assert (k + t)[..keyBytes] == k && (k + t)[keyBytes..] == t;
    }
  }

  lemma DropContains(g: Groups, f: Store, keyBytes: nat, key: Bytes, subs: set<Bytes>, gone: set<Bytes>)
    requires Represents(g, f, keyBytes) && Cuts(f, keyBytes, key, subs, gone)
    ensures Contains(Nested.Drop(g, key, subs), f - gone, keyBytes)
  {
    var h := Nested.Drop(g, key, subs);
    forall fk | fk in f - gone
      ensures keyBytes <= |fk| && fk[..keyBytes] in h && fk[keyBytes..] in h[fk[..keyBytes]]
    {
      StaysAfterDrop(g, key, subs, Nested.Pos(fk[..keyBytes], fk[keyBytes..]));
    }
  }

  lemma DropNested(g: Groups, f: Store, keyBytes: nat, key: Bytes, subs: set<Bytes>, gone: set<Bytes>)
    requires Represents(g, f, keyBytes) && Cuts(f, keyBytes, key, subs, gone)
    ensures Represents(Nested.Drop(g, key, subs), f - gone, keyBytes)
  {
    DropWithin(g, f, keyBytes, key, subs, gone);
    DropContains(g, f, keyBytes, key, subs, gone);
  }
}
