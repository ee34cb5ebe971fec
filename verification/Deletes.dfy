/** What the deleting operations remove, what they keep, and where they leave the cursor. */
module Deletes {
  import opened Wrappers
  import opened ByteStrings
  import opened OrderedKeys
  import opened GroupedScans
  import opened TableRuns
  import Tables
  import Flat

  // ---------- Whole groups ----------

  /**
   Delete by key alone removes the entries that base holds for the key; it empties the staged group exactly when
   every entry of that group is in base.
   */
  lemma DeleteEmptiesGroupWhen(info: TableInfo, t: Table, key: Bytes)
    requires Flat.Fits(info, t) && info.dupSorted && |key| == info.keyBytes
    ensures
      var after := Flat.Delete(info, t, key, false).table.view;
      && after.Keys == t.view.Keys - Group(t.base.Keys, key)
      && (after == t.view - Group(t.view.Keys, key) <==> Group(t.view.Keys, key) <= t.base.Keys)
  {
  }

  /**
   A corollary of the definition: a successful DeleteCurrentDuplicates removes exactly the cursor's group and keeps
   every other entry with its value.
   */
  lemma DuplicatesExact(info: TableInfo, t: Table, c: Bytes)
    requires Flat.Fits(info, t) && t.cur == Some(c)
    requires Flat.DeleteCurrentDuplicates(info, t).reply == Tables.Done
    ensures info.keyBytes <= |c|
    ensures
      var after := Flat.DeleteCurrentDuplicates(info, t).table;
      && after.base == t.base
      && (forall k :: k in after.view <==> k in t.view && k[..info.keyBytes] != c[..info.keyBytes])
      && (forall k | k in after.view :: after.view[k] == t.view[k])
  {
  }

  /**
   It leaves the cursor on the next greater key's first entry, or unset, exactly when the key is not all 0xFF or
   every staged entry has it.
   */
  lemma DuplicatesMoveOnWhen(info: TableInfo, t: Table, c: Bytes)
    requires Flat.Fits(info, t) && t.cur == Some(c)
    requires Flat.DeleteCurrentDuplicates(info, t).reply == Tables.Done
    ensures info.keyBytes <= |c|
    ensures
      var after := Flat.DeleteCurrentDuplicates(info, t).table;
      after.cur == Least(Beyond(after.view.Keys, c[..info.keyBytes]))
      <==> !AllMax(c[..info.keyBytes]) || Group(t.view.Keys, c[..info.keyBytes]) == t.view.Keys
  {
    var key := c[..info.keyBytes];
    var after := Flat.DeleteCurrentDuplicates(info, t).table;
    assert after.view.Keys == t.view.Keys - Group(t.view.Keys, key);
    if AllMax(key) {
      NothingBeyondMax(after.view.Keys, key);
    }
  }

  /** Both ways of deleting a key's group leave the same store exactly when nothing of the group is staged only. */
  lemma DeletesAgreeWhen(info: TableInfo, t: Table, c: Bytes)
    requires Flat.Fits(info, t) && t.cur == Some(c)
    requires Flat.DeleteCurrentDuplicates(info, t).reply == Tables.Done
    ensures info.keyBytes <= |c|
    ensures
      var key := c[..info.keyBytes];
      Flat.Delete(info, t, key, false).table.view == Flat.DeleteCurrentDuplicates(info, t).table.view
      <==> Group(t.view.Keys, key) <= t.base.Keys
  {
  }

  // ---------- DeleteCurrent ----------

  /** A successful DeleteCurrent moves to the entry after the cursor exactly when the cursor was on a staged entry. */
  lemma DeleteCurrentMovesOnWhen(t: Table, c: Bytes)
    requires t.cur == Some(c) && Flat.DeleteCurrent(t).reply == Tables.Done
    ensures Flat.DeleteCurrent(t).table.cur == Least(After(t.view.Keys, c)) <==> c in t.view
  {
    var ks := t.view.Keys;
    if c in ks {
      FromPresent(ks, c);
    } else {
      assert From(ks, c) == After(ks, c);
      BelowIrreflexive(Min(After(ks, c)));
    }
  }

  /** The n least keys of a set. */
  function Lowest(s: set<Bytes>, n: nat): set<Bytes>
    requires n <= |s|
  {
    if n == 0 then {} else {Min(s)} + Lowest(s - {Min(s)}, n - 1)
  }

  lemma {:induction false} LowestAll(s: set<Bytes>)
    ensures Lowest(s, |s|) == s
  {
    if s != {} {
      LowestAll(s - {Min(s)});
    }
  }

  /** The n least keys come before all others of the set, and are n in number. */
  lemma {:induction false} LowestAreLeast(s: set<Bytes>, n: nat)
    requires n <= |s|
    ensures Lowest(s, n) <= s && |Lowest(s, n)| == n
    ensures forall a, b | a in Lowest(s, n) && b in s - Lowest(s, n) :: Below(a, b)
    decreases n
  {
    if n > 0 {
      var m := Min(s);
      LowestAreLeast(s - {m}, n - 1);
      forall a, b | a in Lowest(s, n) && b in s - Lowest(s, n) ensures Below(a, b) {
        if a != m {
          assert a in Lowest(s - {m}, n - 1) && b in (s - {m}) - Lowest(s - {m}, n - 1);
        }
      }
    }
  }

  /** The table once the n lowest of the keys `above` are gone and the cursor stands on the least one left. */
  function Drained(t: Table, above: set<Bytes>, n: nat): Table
    requires n <= |above|
  {
    Flat.Table(t.base, t.view - Lowest(above, n), Least(above - Lowest(above, n)))
  }

  /** The cursor is on the least of the staged keys from some point on, or unset when there are none. */
  ghost predicate Draining(t: Table, above: set<Bytes>) {
    && above <= t.view.Keys
    && t.cur == Least(above)
    && (t.cur.Some? ==> above == From(t.view.Keys, t.cur.value))
  }

  lemma DrainedNone(t: Table, above: set<Bytes>)
    requires t.cur == Least(above)
    ensures Drained(t, above, 0) == t
  {
    assert t.view - {} == t.view && above - {} == above;
  }

  lemma DrainedInTurn(t: Table, above: set<Bytes>, n: nat)
    requires 0 < n <= |above|
    ensures Drained(Drained(t, above, 1), above - {Min(above)}, n - 1) == Drained(t, above, n)
  {
    var m := Min(above);
    var rest := Lowest(above - {m}, n - 1);
    assert {m} + {} == {m} && Lowest(above, 1) == {m};
    assert t.view - {m} - rest == t.view - ({m} + rest);
    assert above - {m} - rest == above - ({m} + rest);
  }

  lemma DeleteCurrentDrains(t: Table, above: set<Bytes>)
    requires Draining(t, above) && above != {}
    ensures Flat.DeleteCurrent(t).table == Drained(t, above, 1) && Flat.DeleteCurrent(t).reply == Tables.Done
    ensures Draining(Drained(t, above, 1), above - {Min(above)})
  {
    var ks, c := t.view.Keys, Min(above);
    FromPresent(ks, c);
    assert {c} + {} == {c} && Lowest(above, 1) == {c};
    assert above - {c} == After(ks, c);
    var rest := above - {c};
    if rest != {} {
      var m := Min(rest);
      forall k | k in ks ensures k in rest <==> k != c && AtMost(m, k) {
        if k != c && AtMost(m, k) && k != m {
          BelowTransitive(c, m, k);
        }
      }
      assert (t.view - {c}).Keys == ks - {c};
      assert rest == From(ks - {c}, m);
    }
  }

  /** The table and the replies that n moves leave. */
  function Iterate(move: Table -> Flat.Outcome, t: Table, n: nat): (Table, seq<Reply>)
    decreases n
  {
    if n == 0 then (t, [])
    else
      var rest := Iterate(move, move(t).table, n - 1);
      (rest.0, [move(t).reply] + rest.1)
  }

  function Deletion(): Table -> Flat.Outcome {
    t => Flat.DeleteCurrent(t)
  }

  lemma {:induction false} RepeatIsIterate(info: TableInfo, t: Table, n: nat)
    requires Flat.Fits(info, t)
    ensures Perform(info, t, Repeat(Tables.DeleteCurrent, n)) == Iterate(Deletion(), t, n)
    decreases n
  {
    if n > 0 {
      PerformCons(info, t, Tables.DeleteCurrent, Repeat(Tables.DeleteCurrent, n - 1));
      RepeatIsIterate(info, Flat.DeleteCurrent(t).table, n - 1);
    }
  }

  /** A move that drains: it takes away the least key and goes to the next. */
  ghost predicate Drains(move: Table -> Flat.Outcome) {
    forall t, above | Draining(t, above) && above != {} ::
      && move(t).table == Drained(t, above, 1) && move(t).reply == Tables.Done
      && Draining(Drained(t, above, 1), above - {Min(above)})
  }

  lemma {:induction false} DrainsInTurn(move: Table -> Flat.Outcome, t: Table, above: set<Bytes>, n: nat)
    requires Drains(move) && Draining(t, above) && n <= |above|
    ensures Iterate(move, t, n) == (Drained(t, above, n), Times(Tables.Done, n))
    decreases n
  {
    if n == 0 {
      DrainedNone(t, above);
    } else {
      var next := Drained(t, above, 1);
      DrainsInTurn(move, next, above - {Min(above)}, n - 1);
      DrainedInTurn(t, above, n);
    }
  }

  /** n calls: all succeed, they remove the n lowest keys from the cursor on, and the cursor ends on the next one. */
  lemma DeleteCurrentRun(info: TableInfo, t: Table, above: set<Bytes>, n: nat)
    requires Flat.Fits(info, t) && Draining(t, above) && n <= |above|
    ensures Perform(info, t, Repeat(Tables.DeleteCurrent, n)) == (Drained(t, above, n), Times(Tables.Done, n))
  {
    forall t, above | Draining(t, above) && above != {}
      ensures Deletion()(t).table == Drained(t, above, 1) && Deletion()(t).reply == Tables.Done
      ensures Draining(Drained(t, above, 1), above - {Min(above)})
    {
      DeleteCurrentDrains(t, above);
    }
    DrainsInTurn(Deletion(), t, above, n);
    RepeatIsIterate(info, t, n);
  }

  /**
   Draining: from a cursor on a staged entry exactly as many calls succeed as there are staged entries at or above it;
   they remove those entries and no other, and the next call finds the cursor unset.
   */
  lemma Drain(info: TableInfo, t: Table, c: Bytes)
    requires Flat.Fits(info, t) && t.cur == Some(c) && c in t.view
    ensures
      var above := From(t.view.Keys, c);
      var last := Flat.Table(t.base, t.view - above, None);
      && Perform(info, t, Repeat(Tables.DeleteCurrent, |above|)) == (last, Times(Tables.Done, |above|))
      && Flat.DeleteCurrent(last) == Flat.Outcome(last, Tables.Failed(Tables.CurrentKeyIsNotSet))
  {
    var above := From(t.view.Keys, c);
    FromPresent(t.view.Keys, c);
    LowestAll(above);
    DeleteCurrentRun(info, t, above, |above|);
    assert above - above == {};
  }

  /** Part of the way the calls have removed the least entries, in ascending order. */
  lemma DrainInOrder(info: TableInfo, t: Table, c: Bytes, n: nat)
    requires Flat.Fits(info, t) && t.cur == Some(c) && c in t.view && n <= |From(t.view.Keys, c)|
    ensures
      var above := From(t.view.Keys, c);
      var (last, replies) := Perform(info, t, Repeat(Tables.DeleteCurrent, n));
      var gone := t.view.Keys - last.view.Keys;
      && replies == Times(Tables.Done, n)
      && |gone| == n && gone <= above
      && (forall a, b | a in gone && b in above - gone :: Below(a, b))
      && last.cur == Least(above - gone)
  {
    var above := From(t.view.Keys, c);
    FromPresent(t.view.Keys, c);
    DeleteCurrentRun(info, t, above, n);
    LowestAreLeast(above, n);
    assert t.view.Keys - (t.view - Lowest(above, n)).Keys == Lowest(above, n);
  }
}
