/** Scans: what a client sees that walks a table with cursor moves, and when a move is the one documented. */
module Scans {
  import opened Wrappers
  import opened ByteStrings
  import opened OrderedKeys
  import opened TableRuns
  import Tables
  import Flat
  import Machine

  /** The keys of a store, in order. */
  ghost predicate Lists(s: Tables.Store, r: seq<Bytes>) {
    StrictlyAscending(r) && forall k :: k in r <==> k in s
  }

  lemma AscendingLists(s: Tables.Store)
    ensures Lists(s, Ascending(s.Keys)) && |Ascending(s.Keys)| == |s|
  {
    AscendingElements(s.Keys);
    AscendingIsSorted(s.Keys);
  }

  /** The reply that returns the entry under k. */
  function Entry(s: Tables.Store, k: Bytes): Reply {
    if k in s then Tables.Found(k + s[k]) else Tables.Nothing
  }

  /** The entries of r from position i on, upwards, and then `end`. */
  function Upward(s: Tables.Store, r: seq<Bytes>, i: nat, end: Reply): seq<Reply>
    requires i <= |r|
    decreases |r| - i
  {
    if i == |r| then [end] else [Entry(s, r[i])] + Upward(s, r, i + 1, end)
  }

  lemma {:induction false} UpwardAt(s: Tables.Store, r: seq<Bytes>, i: nat, end: Reply)
    requires i <= |r|
    ensures |Upward(s, r, i, end)| == |r| - i + 1 && Upward(s, r, i, end)[|r| - i] == end
    ensures forall j | 0 <= j < |r| - i :: Upward(s, r, i, end)[j] == Entry(s, r[i + j])
    decreases |r| - i
  {
    if i < |r| {
      UpwardAt(s, r, i + 1, end);
    }
  }

  lemma ConsEqual(x: Reply, a: seq<Reply>, b: seq<Reply>)
    ensures [x] + a == [x] + b <==> a == b
  {
    if [x] + a == [x] + b {
      assert a == ([x] + a)[1..] == b;
    }
  }

  lemma {:induction false} UpwardEnds(s: Tables.Store, r: seq<Bytes>, i: nat, a: Reply, b: Reply)
    requires i <= |r|
    ensures Upward(s, r, i, a) == Upward(s, r, i, b) <==> a == b
    decreases |r| - i
  {
    if i < |r| {
      UpwardEnds(s, r, i + 1, a, b);
      ConsEqual(Entry(s, r[i]), Upward(s, r, i + 1, a), Upward(s, r, i + 1, b));
    } else if [a] == [b] {
      assert [a][0] == [b][0];
    }
  }

  /** The first i entries of r, downwards, and then nothing. */
  function Downward(s: Tables.Store, r: seq<Bytes>, i: nat): seq<Reply>
    requires i <= |r|
  {
    if i == 0 then [Tables.Nothing] else [Entry(s, r[i - 1])] + Downward(s, r, i - 1)
  }

  lemma {:induction false} DownwardAt(s: Tables.Store, r: seq<Bytes>, i: nat)
    requires i <= |r|
    ensures |Downward(s, r, i)| == i + 1 && Downward(s, r, i)[i] == Tables.Nothing
    ensures forall j | 0 <= j < i :: Downward(s, r, i)[j] == Entry(s, r[i - 1 - j])
  {
    if i > 0 {
      DownwardAt(s, r, i - 1);
    }
  }

  // ---------- Moves from a cursor on an entry ----------

  lemma NextAt(t: Table, r: seq<Bytes>, i: nat)
    requires Lists(t.base, r) && i < |r| && t.cur == Some(r[i])
    ensures i + 1 < |r| ==> r[i + 1] in t.base
    ensures Flat.Next(t) == Flat.MoveTo(t, if i + 1 < |r| then Some(r[i + 1]) else None)
  {
    NextInSorted(r, t.base.Keys, i);
    FromPresent(t.base.Keys, r[i]);
  }

  lemma PrevAt(t: Table, r: seq<Bytes>, i: nat)
    requires Lists(t.base, r) && i < |r| && t.cur == Some(r[i])
    ensures i > 0 ==> r[i - 1] in t.base
    ensures Flat.Prev(t) == Flat.MoveTo(t, if i > 0 then Some(r[i - 1]) else None)
  {
    PrevInSorted(r, t.base.Keys, i);
  }

  lemma NextThen(info: TableInfo, t: Table, r: seq<Bytes>, i: nat, ops: seq<Op>)
    requires Flat.Fits(info, t) && Lists(t.base, r) && i + 1 < |r| && t.cur == Some(r[i]) && AllSized(info, ops)
    ensures AllSized(info, [Tables.Next] + ops)
    ensures
      var at := t.(cur := Some(r[i + 1]));
      r[i + 1] in t.base && Flat.Fits(info, at)
      && Perform(info, t, [Tables.Next] + ops).1 == [Entry(t.base, r[i + 1])] + Perform(info, at, ops).1
  {
    NextAt(t, r, i);
    PerformCons(info, t, Tables.Next, ops);
  }

  lemma NextAtLast(info: TableInfo, t: Table, r: seq<Bytes>)
    requires Flat.Fits(info, t) && Lists(t.base, r) && r != [] && t.cur == Some(r[|r| - 1])
    ensures Perform(info, t, Repeat(Tables.Next, 1)).1 == [Tables.Nothing]
  {
    NextAt(t, r, |r| - 1);
    PerformCons(info, t, Tables.Next, []);
  }

  /** From the i-th entry on Next returns the entries after it in order, then nothing. */
  lemma {:induction false} NextRun(info: TableInfo, t: Table, r: seq<Bytes>, i: nat)
    requires Flat.Fits(info, t) && Lists(t.base, r) && i < |r| && t.cur == Some(r[i])
    ensures Perform(info, t, Repeat(Tables.Next, |r| - i)).1 == Upward(t.base, r, i + 1, Tables.Nothing)
    decreases |r| - i
  {
    if i + 1 == |r| {
      NextAtLast(info, t, r);
    } else {
      NextThen(info, t, r, i, Repeat(Tables.Next, |r| - i - 1));
      NextRun(info, t.(cur := Some(r[i + 1])), r, i + 1);
    }
  }

  lemma FirstAt(t: Table, r: seq<Bytes>)
    requires Lists(t.base, r)
    ensures r != [] ==> r[0] in t.base
    ensures Flat.First(t) == Flat.MoveTo(t, if r != [] then Some(r[0]) else None)
  {
    if r != [] {
      forall k | k in t.base ensures AtMost(r[0], k) {
        assert k in r;
        var i :| 0 <= i < |r| && r[i] == k;
      }
      MinIs(t.base.Keys, r[0]);
    } else {
      assert forall k :: k !in t.base;
    }
  }

  lemma LastAt(t: Table, r: seq<Bytes>)
    requires Lists(t.base, r)
    ensures r != [] ==> r[|r| - 1] in t.base
    ensures Flat.Last(t) == Flat.MoveTo(t, if r != [] then Some(r[|r| - 1]) else None)
  {
    if r != [] {
      forall k | k in t.base ensures AtMost(k, r[|r| - 1]) {
        assert k in r;
        var i :| 0 <= i < |r| && r[i] == k;
      }
      MaxIs(t.base.Keys, r[|r| - 1]);
    } else {
      assert forall k :: k !in t.base;
    }
  }

  lemma FirstThen(info: TableInfo, t: Table, r: seq<Bytes>, ops: seq<Op>)
    requires Flat.Fits(info, t) && Lists(t.base, r) && r != [] && AllSized(info, ops)
    ensures AllSized(info, [Tables.First] + ops)
    ensures
      var at := t.(cur := Some(r[0]));
      && Flat.Fits(info, at)
      && Perform(info, t, [Tables.First] + ops).1 == [Entry(t.base, r[0])] + Perform(info, at, ops).1
  {
    FirstAt(t, r);
    PerformCons(info, t, Tables.First, ops);
  }

  lemma LastThen(info: TableInfo, t: Table, r: seq<Bytes>, ops: seq<Op>)
    requires Flat.Fits(info, t) && Lists(t.base, r) && r != [] && AllSized(info, ops)
    ensures AllSized(info, [Tables.Last] + ops)
    ensures
      var at := t.(cur := Some(r[|r| - 1]));
      && Flat.Fits(info, at)
      && Perform(info, t, [Tables.Last] + ops).1 == [Entry(t.base, r[|r| - 1])] + Perform(info, at, ops).1
  {
    LastAt(t, r);
    PerformCons(info, t, Tables.Last, ops);
  }

  lemma EndsOfNothing(info: TableInfo, t: Table)
    requires Flat.Fits(info, t) && Lists(t.base, [])
    ensures Perform(info, t, [Tables.First] + []).1 == [Tables.Nothing]
    ensures Perform(info, t, [Tables.Last] + []).1 == [Tables.Nothing]
  {
    FirstAt(t, []);
    LastAt(t, []);
    PerformCons(info, t, Tables.First, []);
    PerformCons(info, t, Tables.Last, []);
  }

  lemma ForwardScanFrom(info: TableInfo, t: Table, r: seq<Bytes>)
    requires Flat.Fits(info, t) && Lists(t.base, r) && r != []
    ensures Perform(info, t, [Tables.First] + Repeat(Tables.Next, |r|)).1
         == [Entry(t.base, r[0])] + Upward(t.base, r, 1, Tables.Nothing)
  {
    var at := t.(cur := Some(r[0]));
    FirstThen(info, t, r, Repeat(Tables.Next, |r|));
    NextRun(info, at, r, 0);
  }

  lemma {:induction false} ForwardScanOf(info: TableInfo, t: Table, r: seq<Bytes>)
    requires Flat.Fits(info, t) && Lists(t.base, r)
    ensures Perform(info, t, [Tables.First] + Repeat(Tables.Next, |r|)).1 == Upward(t.base, r, 0, Tables.Nothing)
  {
    if r == [] {
      EndsOfNothing(info, t);
    } else {
      ForwardScanFrom(info, t, r);
    }
  }

  /** First and then Next until nothing is left: every entry exactly once, in order. */
  lemma ForwardScan(info: TableInfo, t: Table)
    requires Flat.Fits(info, t)
    ensures
      var r := Ascending(t.base.Keys);
      |r| == |t.base|
      && Perform(info, t, [Tables.First] + Repeat(Tables.Next, |t.base|)).1
         == Upward(t.base, r, 0, Tables.Nothing)
  {
    AscendingLists(t.base);
    ForwardScanOf(info, t, Ascending(t.base.Keys));
  }

  lemma ScanSized(info: TableInfo, n: nat)
    ensures AllSized(info, [Tables.First] + Repeat(Tables.Next, n))
    ensures AllSized(info, [Tables.Last] + Repeat(Tables.Prev, n))
  {
  }

  /** The same for the whole database, whatever the cursor held before. */
  lemma DatabaseScan(st: Machine.State, code: Tables.TableCode, id: Tables.CursorID)
    requires Machine.Valid(st) && code in Tables.TABLES
    ensures
      var calls := Calls(code, id, [Tables.First] + Repeat(Tables.Next, |st.base[code]|));
      && Machine.AllWellFormed(calls)
      && |Ascending(st.base[code].Keys)| == |st.base[code]|
      && Machine.Run(st, calls).1
         == Upward(st.base[code], Ascending(st.base[code].Keys), 0, Tables.Nothing)
  {
    var ops := [Tables.First] + Repeat(Tables.Next, |st.base[code]|);
    Machine.FocusFits(st, code, id);
    ForwardScan(Tables.TABLES[code], Machine.Focus(st, code, id));
    ScanSized(Tables.TABLES[code], |st.base[code]|);
    RunOnOneTable(st, code, id, ops);
  }

  // ---------- Backwards ----------

  lemma PrevThen(info: TableInfo, t: Table, r: seq<Bytes>, i: nat, ops: seq<Op>)
    requires Flat.Fits(info, t) && Lists(t.base, r) && 0 < i < |r| && t.cur == Some(r[i]) && AllSized(info, ops)
    ensures AllSized(info, [Tables.Prev] + ops)
    ensures
      var at := t.(cur := Some(r[i - 1]));
      r[i - 1] in t.base && Flat.Fits(info, at)
      && Perform(info, t, [Tables.Prev] + ops).1 == [Entry(t.base, r[i - 1])] + Perform(info, at, ops).1
  {
    PrevAt(t, r, i);
    PerformCons(info, t, Tables.Prev, ops);
  }

  lemma PrevAtFirst(info: TableInfo, t: Table, r: seq<Bytes>)
    requires Flat.Fits(info, t) && Lists(t.base, r) && r != [] && t.cur == Some(r[0])
    ensures Perform(info, t, Repeat(Tables.Prev, 1)).1 == [Tables.Nothing]
  {
    PrevAt(t, r, 0);
    PerformCons(info, t, Tables.Prev, []);
  }

  /** Prev from the i-th entry on returns the entries before it in falling order, then nothing. */
  lemma {:induction false} PrevRun(info: TableInfo, t: Table, r: seq<Bytes>, i: nat)
    requires Flat.Fits(info, t) && Lists(t.base, r) && i < |r| && t.cur == Some(r[i])
    ensures Perform(info, t, Repeat(Tables.Prev, i + 1)).1 == Downward(t.base, r, i)
    decreases i
  {
    if i == 0 {
      PrevAtFirst(info, t, r);
    } else {
      PrevThen(info, t, r, i, Repeat(Tables.Prev, i));
      PrevRun(info, t.(cur := Some(r[i - 1])), r, i - 1);
    }
  }

  lemma BackwardScanOf(info: TableInfo, t: Table, r: seq<Bytes>)
    requires Flat.Fits(info, t) && Lists(t.base, r)
    ensures Perform(info, t, [Tables.Last] + Repeat(Tables.Prev, |r|)).1 == Downward(t.base, r, |r|)
  {
    if r == [] {
      EndsOfNothing(info, t);
    } else {
      LastThen(info, t, r, Repeat(Tables.Prev, |r|));
      PrevRun(info, t.(cur := Some(r[|r| - 1])), r, |r| - 1);
    }
  }

  /** Last and then Prev until nothing is left: every entry exactly once, in falling order. */
  lemma BackwardScan(info: TableInfo, t: Table)
    requires Flat.Fits(info, t)
    ensures
      var r := Ascending(t.base.Keys);
      |r| == |t.base|
      && Perform(info, t, [Tables.Last] + Repeat(Tables.Prev, |t.base|)).1 == Downward(t.base, r, |r|)
  {
    AscendingLists(t.base);
    BackwardScanOf(info, t, Ascending(t.base.Keys));
  }

  lemma DatabaseBackwardScan(st: Machine.State, code: Tables.TableCode, id: Tables.CursorID)
    requires Machine.Valid(st) && code in Tables.TABLES
    ensures
      var calls := Calls(code, id, [Tables.Last] + Repeat(Tables.Prev, |st.base[code]|));
      && Machine.AllWellFormed(calls)
      && |Ascending(st.base[code].Keys)| == |st.base[code]|
      && Machine.Run(st, calls).1
         == Downward(st.base[code], Ascending(st.base[code].Keys), |st.base[code]|)
  {
    var ops := [Tables.Last] + Repeat(Tables.Prev, |st.base[code]|);
    Machine.FocusFits(st, code, id);
    BackwardScan(Tables.TABLES[code], Machine.Focus(st, code, id));
    ScanSized(Tables.TABLES[code], |st.base[code]|);
    RunOnOneTable(st, code, id, ops);
  }

  /** The replies of one scan are those of the other read backwards, and then both end with nothing. */
  ghost predicate Mirrors(up: seq<Reply>, down: seq<Reply>) {
    && |up| == |down| > 0
    && up[|up| - 1] == down[|up| - 1] == Tables.Nothing
    && forall j | 0 <= j < |up| - 1 :: down[j] == up[|up| - 2 - j]
  }

  lemma ListingsMirror(s: Tables.Store, r: seq<Bytes>)
    ensures Mirrors(Upward(s, r, 0, Tables.Nothing), Downward(s, r, |r|))
  {
    UpwardAt(s, r, 0, Tables.Nothing);
    DownwardAt(s, r, |r|);
  }

  /** Last and then Prev through one cursor gives what First and then Next through any other gives, in reverse. */
  lemma ScansMirror(st: Machine.State, code: Tables.TableCode, a: Tables.CursorID, b: Tables.CursorID)
    requires Machine.Valid(st) && code in Tables.TABLES
    ensures
      var up := Calls(code, a, [Tables.First] + Repeat(Tables.Next, |st.base[code]|));
      var down := Calls(code, b, [Tables.Last] + Repeat(Tables.Prev, |st.base[code]|));
      && Machine.AllWellFormed(up) && Machine.AllWellFormed(down)
      && Mirrors(Machine.Run(st, up).1, Machine.Run(st, down).1)
  {
    DatabaseScan(st, code, a);
    DatabaseBackwardScan(st, code, b);
    ListingsMirror(st.base[code], Ascending(st.base[code].Keys));
  }

  // ---------- Next and Prev undo each other ----------

  lemma PositionIn(s: Tables.Store, k: Bytes) returns (r: seq<Bytes>, i: nat)
    requires k in s
    ensures Lists(s, r) && i < |r| && r[i] == k
  {
    r := Ascending(s.Keys);
    AscendingLists(s);
    assert k in r;
    i :| 0 <= i < |r| && r[i] == k;
  }

  /** From a cursor on an entry, a Next that finds an entry followed by Prev is back on the original entry. */
  lemma PrevUndoesNext(t: Table, c: Bytes)
    requires t.cur == Some(c) && c in t.base && Flat.Next(t).reply.Found?
    ensures Flat.Prev(Flat.Next(t).table) == Flat.Outcome(t, Tables.Found(c + t.base[c]))
  {
    var r, i := PositionIn(t.base, c);
    NextAt(t, r, i);
    PrevAt(Flat.Next(t).table, r, i + 1);
  }

  lemma NextUndoesPrev(t: Table, c: Bytes)
    requires t.cur == Some(c) && c in t.base && Flat.Prev(t).reply.Found?
    ensures Flat.Next(Flat.Prev(t).table) == Flat.Outcome(t, Tables.Found(c + t.base[c]))
  {
    var r, i := PositionIn(t.base, c);
    PrevAt(t, r, i);
    NextAt(Flat.Prev(t).table, r, i - 1);
  }

  // ---------- When a move is the documented one ----------

  /**
   A corollary of the definition: on an unset cursor the moves are First and Last, as they say, exactly when the table
   is empty. Otherwise they block.
   */
  lemma UnsetMovesWhen(info: TableInfo, t: Table)
    requires Flat.Fits(info, t) && t.cur == None
    ensures Flat.Next(t) == Flat.First(t) <==> t.base == map[]
    ensures Flat.Prev(t) == Flat.Last(t) <==> t.base == map[]
    ensures info.dupSorted ==> (Flat.NextDup(info, t) == Flat.First(t) <==> t.base == map[])
    ensures info.dupSorted ==> (Flat.NextNoDup(info, t) == Flat.First(t) <==> t.base == map[])
  {
  }

  /** Next is "the entry after the cursor" exactly when the cursor is on an entry or nothing lies above it. */
  lemma NextIsSuccessorWhen(t: Table, c: Bytes)
    requires t.cur == Some(c)
    ensures Flat.Next(t) == Flat.MoveTo(t, Least(After(t.base.Keys, c)))
            <==> c in t.base || After(t.base.Keys, c) == {}
  {
    var ks := t.base.Keys;
    if c in ks {
      FromPresent(ks, c);
    } else {
      assert From(ks, c) == After(ks, c);
      if After(ks, c) != {} {
        var k := Min(After(ks, c));
        BelowIrreflexive(k);
      }
    }
  }
}
