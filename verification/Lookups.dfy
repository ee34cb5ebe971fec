/** Point lookups on a dup-sorted table agree with each other. */
module Lookups {
  import opened Wrappers
  import opened ByteStrings
  import opened OrderedKeys
  import opened GroupedScans
  import Tables
  import Flat

  type TableInfo = Tables.TableInfo

  lemma {:induction false} ZerosLeast(s: Bytes)
    ensures AtMost(Zeros(|s|), s)
  {
    if s != [] {
      ZerosLeast(s[1..]);
      assert Zeros(|s|)[1..] == Zeros(|s| - 1);
      assert s == [s[0]] + s[1..];
    }
  }

  /** Within a prefix group or past it: the keys at or above the prefix. */
  lemma LeastFromPrefix(s: set<Bytes>, key: Bytes)
    ensures From(s, key) == Group(s, key) + Beyond(s, key)
    ensures Group(s, key) != {} ==> Least(From(s, key)) == Least(Group(s, key))
    ensures Group(s, key) == {} ==> forall k | k in From(s, key) :: !HasPrefix(k, key)
  {
    forall k | k in s ensures k in From(s, key) <==> k in Group(s, key) || k in Beyond(s, key) {
      if HasPrefix(k, key) {
        PrefixAtMost(key, k);
      }
    }
    if Group(s, key) != {} {
      var m := Min(Group(s, key));
      forall k | k in From(s, key) ensures AtMost(m, k) {
        if k in Beyond(s, key) {
          GroupBeforeBeyond(key, m, k);
        }
      }
      MinIs(From(s, key), m);
    }
  }

  /** With fixed-width keys, searching from the bare key and from key ++ zeros is the same search. */
  lemma FromZeros(s: set<Bytes>, key: Bytes, n: nat)
    requires forall k | k in s :: |k| == |key| + n
    ensures From(s, key + Zeros(n)) == From(s, key)
  {
    var low := key + Zeros(n);
    assert HasPrefix(low, key);
    forall k | k in s ensures AtMost(low, k) <==> AtMost(key, k) {
      if HasPrefix(k, key) {
        PrefixAtMost(key, k);
        var sub := k[|key|..];
        ZerosLeast(sub);
        assert k == key + sub;
        BelowCancel(key, Zeros(n), sub);
      } else {
        PrefixAtMost(key, low);
        if AtMost(low, k) && key != low && low != k {
          BelowTransitive(key, low, k);
        }
        if AtMost(key, k) {
          GroupBeforeBeyond(key, low, k);
        }
      }
    }
  }

  /**
   Get, SeekExact and SeekByKeySubkey with an all-zero subkey find the same entry of a key, and find none exactly when
   the key has no entry; Seek agrees with SeekExact whenever that finds one.
   */
  lemma LookupsAgree(info: TableInfo, t: Flat.Table, key: Bytes)
    requires Flat.Fits(info, t) && info.dupSorted && |key| == info.keyBytes
    ensures
      var got := Flat.Get(info, t, key).reply;
      var exact := Flat.SeekExact(info, t, key);
      var seek := Flat.Seek(t, key);
      var bySubkey := Flat.SeekByKeySubkey(info, t, key + Zeros(info.subKeyBytes));
      && (got.Found? <==> Group(t.base.Keys, key) != {})
      && (!got.Found? ==> got == exact.reply == bySubkey.reply == Tables.Nothing)
      && (got.Found? ==> exact.reply == Tables.Found(key + got.data) && bySubkey.reply == got)
      && (got.Found? ==> seek == exact && seek.table == bySubkey.table)
  {
    var ks := t.base.Keys;
    var low := key + Zeros(info.subKeyBytes);
    LeastFromPrefix(ks, key);
    FromZeros(ks, key, info.subKeyBytes);
    assert low[..info.keyBytes] == key;
    if Group(ks, key) != {} {
      var m := Min(Group(ks, key));
      assert m == key + m[info.keyBytes..];
      assert key + (m[info.keyBytes..] + t.base[m]) == m + t.base[m];
    }
  }

  /**
   On a regular table Get and SeekExact find the same value, exactly when the key is present, and Seek agrees. Where it
   is absent SeekExact still moves the cursor as Seek does, to the least entry above, if there is one.
   */
  lemma RegularLookupsAgree(info: TableInfo, t: Flat.Table, key: Bytes)
    requires Flat.Fits(info, t) && !info.dupSorted && |key| == info.keyBytes
    ensures
      var got := Flat.Get(info, t, key).reply;
      var exact := Flat.SeekExact(info, t, key);
      && (got.Found? <==> key in t.base)
      && (got.Found? ==> got.data == t.base[key] && exact.reply == Tables.Found(key + got.data))
      && (got.Found? ==> Flat.Seek(t, key) == exact && exact.table.cur == Some(key))
      && (!got.Found? ==> got == exact.reply == Tables.Nothing)
      && (!got.Found? ==>
            var above := After(t.base.Keys, key);
            exact.table == t.(cur := if above == {} then t.cur else Some(Min(above))) == Flat.Seek(t, key).table)
  {
    if key in t.base {
      FromPresent(t.base.Keys, key);
    } else {
      assert From(t.base.Keys, key) == After(t.base.Keys, key);
    }
  }

  /**
   SeekByKeySubkey is a ceiling within the key's group, while the cursor goes to the ceiling within the table,
   or is unset when there is none.
   */
  lemma SubkeyCeiling(info: TableInfo, t: Flat.Table, fk: Bytes)
    requires Flat.Fits(info, t) && info.dupSorted && |fk| == info.EntryBytes()
    ensures
      var within := From(Group(t.base.Keys, fk[..info.keyBytes]), fk);
      var outcome := Flat.SeekByKeySubkey(info, t, fk);
      && outcome.table == t.(cur := Least(From(t.base.Keys, fk)))
      && (within == {} ==> outcome.reply == Tables.Nothing)
      && (within != {} ==>
            && outcome.table.cur == Some(Min(within))
            && outcome.reply == Tables.Found(Min(within)[info.keyBytes..] + t.base[Min(within)]))
  {
    var key := fk[..info.keyBytes];
    var within := From(Group(t.base.Keys, key), fk);
    var all := From(t.base.Keys, fk);
    if within != {} {
      var m := Min(within);
      forall k | k in all ensures AtMost(m, k) {
        if !HasPrefix(k, key) {
          PrefixAtMost(key, fk);
          if key != fk && fk != k {
            BelowTransitive(key, fk, k);
          }
          GroupBeforeBeyond(key, m, k);
        }
      }
      MinIs(all, m);
    } else {
      assert forall k | k in all :: HasPrefix(k, key) ==> k in within;
    }
  }
}
