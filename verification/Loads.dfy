/** Runs of the inserting operations: bulk loads, and what runs of Insert and Append can build up. */
module Loads {
  import opened Wrappers
  import opened ByteStrings
  import opened OrderedKeys
  import opened Nesting
  import opened TableRuns
  import opened Scans
  import opened Isolation
  import Tables
  import Flat
  import Machine

  // ---------- Loading a sorted sequence ----------

  /** One entry of a load, stored by Append or, where `dup` says so, by AppendDup. */
  datatype Row = Row(key: Bytes, value: Bytes, dup: bool) {
    function Op(): Tables.Op {
      if dup then Tables.AppendDup(key, value) else Tables.Append(key, value)
    }
  }

  /** Rows in strictly rising order of (key, subkey); a regular table has no AppendDup. */
  predicate Sorted(info: TableInfo, rows: seq<Row>) {
    && (forall row | row in rows :: |row.key| == info.EntryBytes() && (row.dup ==> info.dupSorted))
    && (forall i, j | 0 <= i < j < |rows| :: Below(rows[i].key, rows[j].key))
  }

  function Ops(rows: seq<Row>): (ops: seq<Tables.Op>)
    ensures |ops| == |rows|
  {
    if rows == [] then [] else [rows[0].Op()] + Ops(rows[1..])
  }

  lemma {:induction false} OpsSized(info: TableInfo, rows: seq<Row>)
    requires forall row | row in rows :: |row.key| == info.EntryBytes()
    ensures AllSized(info, Ops(rows))
  {
    if rows != [] {
      OpsSized(info, rows[1..]);
    }
  }

  function Content(s: Tables.Store, rows: seq<Row>): Tables.Store
    decreases |rows|
  {
    if rows == [] then s else Content(s[rows[0].key := rows[0].value], rows[1..])
  }

  /** Append can cut the greatest key: it is an entry, and not the shorter key that the connection loop sets. */
  predicate Appendable(info: TableInfo, s: Tables.Store) {
    s.Keys != {} ==> info.keyBytes <= |Max(s.Keys)|
  }

  /** Every row sorts above everything in the store. */
  predicate LiesAbove(rows: seq<Row>, s: Tables.Store) {
    forall k, row | k in s && row in rows :: Below(k, row.key)
  }

  /** An entry above everything staged is accepted by either operation. */
  lemma RowAccepted(info: TableInfo, t: Table, row: Row)
    requires Flat.Fits(info, t) && Appendable(info, t.view)
    requires |row.key| == info.EntryBytes() && (row.dup ==> info.dupSorted)
    requires forall k | k in t.view :: Below(k, row.key)
    ensures
      var outcome := Flat.Apply(info, row.Op(), t);
      && outcome.reply == Tables.Done
      && outcome.table.base == t.base
      && outcome.table.view == t.view[row.key := row.value]
  {
    var within := if row.dup then Group(t.view.Keys, row.key[..info.keyBytes]) else t.view.Keys;
    if within != {} {
      var g := Max(within);
      SplitOrder(g, row.key, info.keyBytes);
      BelowIrreflexive(g[..info.keyBytes]);
      if Below(row.key[..info.keyBytes], g[..info.keyBytes]) {
        BelowAsymmetric(row.key[..info.keyBytes], g[..info.keyBytes]);
      }
      if Below(row.key[info.keyBytes..], g[info.keyBytes..]) {
        BelowAsymmetric(row.key[info.keyBytes..], g[info.keyBytes..]);
      }
      if !info.dupSorted {
        assert row.key[..info.keyBytes] == row.key;
      }
    }
  }

  /** What is left of a load after its first row lies above the store with that row. */
  lemma RestOfLoad(info: TableInfo, s: Tables.Store, rows: seq<Row>)
    requires Sorted(info, rows) && LiesAbove(rows, s) && rows != []
    ensures
      var next := s[rows[0].key := rows[0].value];
      Sorted(info, rows[1..]) && LiesAbove(rows[1..], next) && Appendable(info, next)
  {
    var row, rest := rows[0], rows[1..];
    var next := s[row.key := row.value];
    assert row in rows;
    forall other | other in rest ensures Below(row.key, other.key) {
      var j :| 0 <= j < |rest| && rest[j] == other;
      assert rows[j + 1] == other;
    }
    forall i, j | 0 <= i < j < |rest| ensures Below(rest[i].key, rest[j].key) {
      assert Below(rows[i + 1].key, rows[j + 1].key);
    }
    MaxIs(next.Keys, row.key);
  }

  lemma {:induction false} LoadAccepted(info: TableInfo, t: Table, rows: seq<Row>)
    requires Flat.Fits(info, t) && Appendable(info, t.view) && Sorted(info, rows) && LiesAbove(rows, t.view)
    ensures AllSized(info, Ops(rows))
    ensures
      var (last, replies) := Perform(info, t, Ops(rows));
      && replies == Times(Tables.Done, |rows|)
      && last.base == t.base && last.view == Content(t.view, rows)
    decreases |rows|
  {
    OpsSized(info, rows);
    if rows != [] {
      RowAccepted(info, t, rows[0]);
      RestOfLoad(info, t.view, rows);
      PerformCons(info, t, rows[0].Op(), Ops(rows[1..]));
      LoadAccepted(info, Flat.Apply(info, rows[0].Op(), t).table, rows[1..]);
    }
  }

  lemma LoadPanics(info: TableInfo, t: Table, rows: seq<Row>)
    requires Flat.Fits(info, t) && !Appendable(info, t.view) && Sorted(info, rows) && rows != []
    ensures AllSized(info, Ops(rows)) && Perform(info, t, Ops(rows)).1[0] == Tables.Panicked
  {
    assert Max(t.view.Keys) in t.view && rows[0] in rows;
    OpsSized(info, rows);
    PerformCons(info, t, rows[0].Op(), Ops(rows[1..]));
  }

  /**
   A strictly sorted load above everything staged is accepted row by row exactly when the greatest staged key is not
   the key that the connection loop sets in the accounts.
   */
  lemma LoadRun(info: TableInfo, t: Table, rows: seq<Row>)
    requires Flat.Fits(info, t) && Sorted(info, rows) && LiesAbove(rows, t.view)
    ensures AllSized(info, Ops(rows))
    ensures
      var (last, replies) := Perform(info, t, Ops(rows));
      && (replies == Times(Tables.Done, |rows|) <==> rows == [] || Appendable(info, t.view))
      && (replies == Times(Tables.Done, |rows|) ==> last.base == t.base && last.view == Content(t.view, rows))
  {
    OpsSized(info, rows);
    if Appendable(info, t.view) {
      LoadAccepted(info, t, rows);
    } else if rows != [] {
      LoadPanics(info, t, rows);
    }
  }

  // ---------- Reading a load back ----------

  function Keys(rows: seq<Row>): (ks: seq<Bytes>)
    ensures |ks| == |rows| && forall i | 0 <= i < |rows| :: ks[i] == rows[i].key
  {
    seq(|rows|, i requires 0 <= i < |rows| => rows[i].key)
  }

  /** The replies that return the rows from the i-th on, and then nothing. */
  function RowReplies(rows: seq<Row>, i: nat): seq<Reply>
    requires i <= |rows|
    decreases |rows| - i
  {
    if i == |rows| then [Tables.Nothing]
    else [Tables.Found(rows[i].key + rows[i].value)] + RowReplies(rows, i + 1)
  }

  ghost predicate Distinct(rows: seq<Row>) {
    forall i, j | 0 <= i < j < |rows| :: rows[i].key != rows[j].key
  }

  lemma {:induction false} ContentKeeps(s: Tables.Store, rows: seq<Row>, k: Bytes)
    requires forall row | row in rows :: row.key != k
    ensures (k in Content(s, rows) <==> k in s) && (k in s ==> Content(s, rows)[k] == s[k])
    decreases |rows|
  {
    if rows != [] {
      assert rows[0] in rows;
      ContentKeeps(s[rows[0].key := rows[0].value], rows[1..], k);
    }
  }

  lemma DistinctTail(rows: seq<Row>)
    requires Distinct(rows) && rows != []
    ensures Distinct(rows[1..]) && forall row | row in rows[1..] :: row.key != rows[0].key
  {
  }

  lemma {:induction false} ContentHolds(s: Tables.Store, rows: seq<Row>)
    requires Distinct(rows)
    ensures Content(s, rows).Keys == s.Keys + Elements(Keys(rows))
    ensures forall row | row in rows :: row.key in Content(s, rows) && Content(s, rows)[row.key] == row.value
    decreases |rows|
  {
    if rows == [] {
      assert Elements(Keys(rows)) == {};
    } else {
      var next, rest := s[rows[0].key := rows[0].value], rows[1..];
      DistinctTail(rows);
      ContentHolds(next, rest);
      ContentKeeps(next, rest, rows[0].key);
      assert Keys(rows) == [rows[0].key] + Keys(rest);
      assert Elements(Keys(rows)) == {rows[0].key} + Elements(Keys(rest));
    }
  }

  lemma {:induction false} RowsRead(s: Tables.Store, rows: seq<Row>, i: nat)
    requires i <= |rows| && forall row | row in rows :: row.key in s && s[row.key] == row.value
    ensures Upward(s, Keys(rows), i, Tables.Nothing) == RowReplies(rows, i)
    decreases |rows| - i
  {
    if i < |rows| {
      assert rows[i] in rows;
      RowsRead(s, rows, i + 1);
    }
  }

  /** The replies that return the entries of the store under r, from the i-th on. */
  function Entries(s: Tables.Store, r: seq<Bytes>, i: nat): seq<Reply>
    requires i <= |r|
    decreases |r| - i
  {
    if i == |r| then [] else [Entry(s, r[i])] + Entries(s, r, i + 1)
  }

  lemma {:induction false} UpwardOfTail(s: Tables.Store, a: seq<Bytes>, b: seq<Bytes>, j: nat)
    requires j <= |b|
    ensures Upward(s, a + b, |a| + j, Tables.Nothing) == Upward(s, b, j, Tables.Nothing)
    decreases |b| - j
  {
    if j < |b| {
      UpwardOfTail(s, a, b, j + 1);
    }
  }

  /** Listing one sequence and then another, when the first part holds what some other store holds. */
  lemma {:induction false} UpwardOfBoth(s: Tables.Store, was: Tables.Store, a: seq<Bytes>, b: seq<Bytes>, i: nat)
    requires i <= |a| && forall k | k in a :: Entry(s, k) == Entry(was, k)
    ensures Upward(s, a + b, i, Tables.Nothing) == Entries(was, a, i) + Upward(s, b, 0, Tables.Nothing)
    decreases |a| - i
  {
    if i == |a| {
      UpwardOfTail(s, a, b, 0);
      assert [] + Upward(s, b, 0, Tables.Nothing) == Upward(s, b, 0, Tables.Nothing);
    } else {
      UpwardOfBoth(s, was, a, b, i + 1);
      assert a[i] in a && (a + b)[i] == a[i];
      var rest := Entries(was, a, i + 1);
      assert [Entry(was, a[i])] + (rest + Upward(s, b, 0, Tables.Nothing))
          == ([Entry(was, a[i])] + rest) + Upward(s, b, 0, Tables.Nothing);
    }
  }

  lemma KeysBelow(info: TableInfo, s: Tables.Store, rows: seq<Row>)
    requires Sorted(info, rows) && LiesAbove(rows, s)
    ensures StrictlyAscending(Ascending(s.Keys) + Keys(rows))
    ensures Distinct(rows) && forall row | row in rows :: row.key !in s
  {
    var a, b := Ascending(s.Keys), Keys(rows);
    AscendingLists(s);
    forall i, j | 0 <= i < j < |a + b| ensures Below((a + b)[i], (a + b)[j]) {
      if j < |a| {
        assert Below(a[i], a[j]);
      } else if |a| <= i {
        assert Below(rows[i - |a|].key, rows[j - |a|].key);
      } else {
        assert a[i] in a && rows[j - |a|] in rows;
      }
    }
    forall i, j | 0 <= i < j < |rows| ensures rows[i].key != rows[j].key {
      BelowAsymmetric(rows[i].key, rows[j].key);
    }
    forall row | row in rows ensures row.key !in s {
      BelowIrreflexive(row.key);
    }
  }

  /** The loaded content lists what was there, and then the rows in the order they were loaded. */
  lemma ContentLists(info: TableInfo, s: Tables.Store, rows: seq<Row>)
    requires Sorted(info, rows) && LiesAbove(rows, s)
    ensures Lists(Content(s, rows), Ascending(s.Keys) + Keys(rows))
    ensures Upward(Content(s, rows), Ascending(s.Keys) + Keys(rows), 0, Tables.Nothing)
         == Entries(s, Ascending(s.Keys), 0) + RowReplies(rows, 0)
  {
    var a, after := Ascending(s.Keys), Content(s, rows);
    KeysBelow(info, s, rows);
    AscendingLists(s);
    ContentHolds(s, rows);
    forall k | k in a ensures Entry(after, k) == Entry(s, k) {
      ContentKeeps(s, rows, k);
    }
    UpwardOfBoth(after, s, a, Keys(rows), 0);
    RowsRead(after, rows, 0);
    assert forall k :: k in Keys(rows) <==> k in Elements(Keys(rows));
  }

  /** The calls of a bulk load that is published and then scanned, with n calls of Next. */
  function LoadWriteScan(code: Tables.TableCode, id: Tables.CursorID, rows: seq<Row>, n: nat): seq<Machine.Call> {
    Calls(code, id, Ops(rows)) + ([Machine.Write] + Calls(code, id, [Tables.First] + Repeat(Tables.Next, n)))
  }

  lemma ScanRows(info: TableInfo, t: Table, s: Tables.Store, rows: seq<Row>, n: nat)
    requires Flat.Fits(info, t) && Sorted(info, rows) && LiesAbove(rows, s) && t.base == Content(s, rows)
    requires n == |s| + |rows|
    ensures Perform(info, t, [Tables.First] + Repeat(Tables.Next, n)).1
         == Entries(s, Ascending(s.Keys), 0) + RowReplies(rows, 0)
  {
    ContentLists(info, s, rows);
    AscendingLists(s);
    var ks := Ascending(s.Keys) + Keys(rows);
    assert |ks| == n;
    ForwardScanOf(info, t, ks);
  }

  lemma ScanPublished(st: Machine.State, code: Tables.TableCode, id: Tables.CursorID, s: Tables.Store, rows: seq<Row>,
                      n: nat)
    requires Machine.Valid(st) && code in Tables.TABLES && Sorted(Tables.TABLES[code], rows) && LiesAbove(rows, s)
    requires st.base[code] == Content(s, rows) && n == |s| + |rows|
    ensures
      var scan := Calls(code, id, [Tables.First] + Repeat(Tables.Next, n));
      && Machine.AllWellFormed(scan)
      && Machine.Run(st, scan).1 == Entries(s, Ascending(s.Keys), 0) + RowReplies(rows, 0)
  {
    Machine.FocusFits(st, code, id);
    ScanRows(Tables.TABLES[code], Machine.Focus(st, code, id), s, rows, n);
    ScanSized(Tables.TABLES[code], n);
    RunOnOneTable(st, code, id, [Tables.First] + Repeat(Tables.Next, n));
  }

  lemma WriteThen(st: Machine.State, calls: seq<Machine.Call>)
    requires Machine.Valid(st) && Machine.AllWellFormed(calls)
    ensures Machine.Valid(Machine.Step(st, Machine.Write).0) && Machine.AllWellFormed([Machine.Write] + calls)
    ensures Machine.Run(st, [Machine.Write] + calls).1
         == [Tables.Done] + Machine.Run(Machine.Step(st, Machine.Write).0, calls).1
  {
  }

  /**
   End to end: a strictly sorted load above what is staged in a table never fails, unless the greatest staged key is
   that of the connection loop, and after Write a First/Next scan returns exactly what was there and then the loaded
   rows, in order, and then nothing.
   */
  lemma BulkLoad(st: Machine.State, code: Tables.TableCode, id: Tables.CursorID, rows: seq<Row>, n: nat)
    requires Machine.Valid(st) && code in Tables.TABLES
    requires Sorted(Tables.TABLES[code], rows) && LiesAbove(rows, st.view[code])
    requires rows == [] || Appendable(Tables.TABLES[code], st.view[code])
    requires n == |st.view[code]| + |rows|
    ensures Machine.AllWellFormed(LoadWriteScan(code, id, rows, n))
    ensures
      var listing := Entries(st.view[code], Ascending(st.view[code].Keys), 0) + RowReplies(rows, 0);
      Machine.Run(st, LoadWriteScan(code, id, rows, n)).1
      == Times(Tables.Done, |rows|) + ([Tables.Done] + listing)
  {
    var info := Tables.TABLES[code];
    var load := Calls(code, id, Ops(rows));
    var scan := Calls(code, id, [Tables.First] + Repeat(Tables.Next, n));
    Machine.FocusFits(st, code, id);
    LoadRun(info, Machine.Focus(st, code, id), rows);
    RunOnOneTable(st, code, id, Ops(rows));
    var loaded := Machine.Run(st, load).0;
    Machine.StepKeepsValid(loaded, Machine.Write);
    var published := Machine.Step(loaded, Machine.Write).0;
    ScanPublished(published, code, id, st.view[code], rows, n);
    WriteThen(loaded, scan);
    Machine.RunConcat(st, load, [Machine.Write] + scan);
  }

  // ---------- Runs of Insert ----------

  /** No two entries share their key. */
  ghost predicate OnePerKey(s: Tables.Store, keyBytes: nat) {
    forall a, b | a in s && b in s && keyBytes <= |a| && keyBytes <= |b| :: a[..keyBytes] == b[..keyBytes] ==> a == b
  }

  lemma InsertKeepsOnePerKey(info: TableInfo, t: Table, op: Op)
    requires Flat.Fits(info, t) && info.dupSorted && op.Insert? && Tables.Sized(info, op)
    requires OnePerKey(t.view, info.keyBytes)
    ensures OnePerKey(Flat.Apply(info, op, t).table.view, info.keyBytes)
  {
    var after := Flat.Apply(info, op, t);
    var key := op.key[..info.keyBytes];
    forall a, b | a in after.table.view && b in after.table.view && info.keyBytes <= |a| && info.keyBytes <= |b|
                  && a[..info.keyBytes] == b[..info.keyBytes]
      ensures a == b
    {
      if after.reply.Done? && (a !in t.view || b !in t.view) {
        assert a !in Group(t.view.Keys, key) && b !in Group(t.view.Keys, key);
      }
    }
  }

  /** Nothing but Inserts changes the table; other tables, reads, Writes and Resets may come in between. */
  predicate OnlyInserts(calls: seq<Machine.Call>, code: Tables.TableCode) {
    forall call | call in calls ::
      call.Call? && call.code == code ==> Tables.ReadOnly(call.op) || call.op.Insert?
  }

  ghost predicate OnePerKeyIn(st: Machine.State, code: Tables.TableCode)
    requires Machine.Valid(st) && code in Tables.TABLES
  {
    OnePerKey(st.base[code], Tables.TABLES[code].keyBytes) && OnePerKey(st.view[code], Tables.TABLES[code].keyBytes)
  }

  lemma StepKeepsOnePerKey(st: Machine.State, code: Tables.TableCode, call: Machine.Call)
    requires Machine.Valid(st) && code in Tables.TABLES && Tables.TABLES[code].dupSorted && Machine.WellFormed(call)
    requires OnlyInserts([call], code) && OnePerKeyIn(st, code)
    ensures Machine.Valid(Machine.Step(st, call).0) && OnePerKeyIn(Machine.Step(st, call).0, code)
  {
    assert call in [call];
    Machine.StepKeepsValid(st, call);
    if call.Call? {
      if call.code != code || Tables.ReadOnly(call.op) {
        OthersKeepTable(st, call, code);
      } else {
        StepKeepsBase(st, call);
        Machine.FocusFits(st, code, call.cursor);
        InsertKeepsOnePerKey(Tables.TABLES[code], Machine.Focus(st, code, call.cursor), call.op);
      }
    }
  }

  /** Through any cursors, a run of Inserts never gives a key a second subkey. */
  lemma {:induction false} InsertRun(st: Machine.State, code: Tables.TableCode, calls: seq<Machine.Call>)
    requires Machine.Valid(st) && code in Tables.TABLES && Tables.TABLES[code].dupSorted
    requires Machine.AllWellFormed(calls) && OnlyInserts(calls, code) && OnePerKeyIn(st, code)
    ensures OnePerKeyIn(Machine.Run(st, calls).0, code)
    decreases |calls|
  {
    if calls != [] {
      assert calls[0] in calls;
      StepKeepsOnePerKey(st, code, calls[0]);
      InsertRun(Machine.Step(st, calls[0]).0, code, calls[1..]);
    }
  }

  /** An Insert into a dup-sorted table succeeds exactly when the view has no entry under the key. */
  lemma InsertAcceptedWhen(info: TableInfo, t: Table, key: Bytes, value: Bytes)
    requires Flat.Fits(info, t) && info.dupSorted && |key| == info.EntryBytes()
    ensures Flat.Insert(info, t, key, value).reply == Tables.Done
            <==> forall k | k in t.view :: k[..info.keyBytes] != key[..info.keyBytes]
  {
    var group := Group(t.view.Keys, key[..info.keyBytes]);
    if group != {} {
      var k :| k in group;
      assert k in t.view;
    } else {
      forall k | k in t.view ensures k[..info.keyBytes] != key[..info.keyBytes] {
        assert k !in group;
      }
    }
  }

  /**
   Into a regular table it is refused exactly when the view has the key, and then changes nothing; otherwise the entry
   is staged with the cursor on it.
   */
  lemma RegularInsertWhen(info: TableInfo, t: Table, key: Bytes, value: Bytes)
    requires Flat.Fits(info, t) && !info.dupSorted && |key| == info.EntryBytes()
    ensures
      var outcome := Flat.Insert(info, t, key, value);
      && (outcome.reply == Tables.Failed(Tables.KeyAlreadyPresent) <==> key in t.view)
      && (key in t.view ==> outcome.table == t && outcome.edits == [])
      && (key !in t.view ==>
            outcome.reply == Tables.Done && outcome.table == Flat.Table(t.base, t.view[key := value], Some(key)))
  {
  }

  /** The entries of one store are all in another, with their values. */
  predicate Within(s: Tables.Store, after: Tables.Store) {
    forall k | k in s :: k in after && after[k] == s[k]
  }

  lemma InsertKeepsEntries(info: TableInfo, t: Table, op: Op)
    requires Flat.Fits(info, t) && op.Insert? && Tables.Sized(info, op)
    ensures Within(t.view, Flat.Apply(info, op, t).table.view)
  {
    if info.dupSorted && op.key in t.view {
      assert op.key in Group(t.view.Keys, op.key[..info.keyBytes]);
    }
  }

  lemma StepKeepsEntries(st: Machine.State, code: Tables.TableCode, call: Machine.Call)
    requires Machine.Valid(st) && code in Tables.TABLES && Machine.WellFormed(call)
    requires OnlyInserts([call], code) && !call.Reset?
    ensures Machine.Valid(Machine.Step(st, call).0)
    ensures Within(st.view[code], Machine.Step(st, call).0.view[code])
  {
    assert call in [call];
    Machine.StepKeepsValid(st, call);
    if call.Call? {
      if call.code != code || Tables.ReadOnly(call.op) {
        OthersKeepTable(st, call, code);
      } else {
        Machine.FocusFits(st, code, call.cursor);
        InsertKeepsEntries(Tables.TABLES[code], Machine.Focus(st, code, call.cursor), call.op);
      }
    }
  }

  /** Through any cursors, a run of Inserts never changes or removes an entry, in a table of either kind. */
  lemma {:induction false} InsertsKeepEntries(st: Machine.State, code: Tables.TableCode, calls: seq<Machine.Call>)
    requires Machine.Valid(st) && code in Tables.TABLES && Machine.AllWellFormed(calls)
    requires OnlyInserts(calls, code) && forall call | call in calls :: !call.Reset?
    ensures Within(st.view[code], Machine.Run(st, calls).0.view[code])
    decreases |calls|
  {
    if calls != [] {
      assert calls[0] in calls;
      StepKeepsEntries(st, code, calls[0]);
      InsertsKeepEntries(Machine.Step(st, calls[0]).0, code, calls[1..]);
    }
  }

  // ---------- Runs of Append ----------

  lemma AtMostTransitive(a: Bytes, b: Bytes, c: Bytes)
    requires AtMost(a, b) && AtMost(b, c)
    ensures AtMost(a, c)
  {
    if a != b && b != c {
      BelowTransitive(a, b, c);
    }
  }

  lemma HeadAtMost(a: Bytes, b: Bytes, keyBytes: nat)
    requires keyBytes <= |a| && keyBytes <= |b| && AtMost(a, b)
    ensures AtMost(a[..keyBytes], b[..keyBytes])
  {
    SplitOrder(a, b, keyBytes);
  }

  predicate Stores(op: Op) {
    op.Put? || op.Upsert? || op.Insert? || op.Append? || op.AppendDup?
  }

  /** An accepted Append has a key part at least that of every staged entry. */
  lemma AppendAtLeast(info: TableInfo, t: Table, key: Bytes, value: Bytes, x: Bytes)
    requires Flat.Fits(info, t) && |key| == info.EntryBytes() && x in t.view && info.keyBytes <= |x|
    requires Flat.Append(info, t, key, value).reply == Tables.Done
    ensures AtMost(x[..info.keyBytes], key[..info.keyBytes])
  {
    assert x in t.view.Keys;
    var g := Max(t.view.Keys);
    HeadAtMost(x, g, info.keyBytes);
    if !info.dupSorted {
      assert key[..info.keyBytes] == key;
    }
    BelowConnected(key[..info.keyBytes], g[..info.keyBytes]);
    AtMostTransitive(x[..info.keyBytes], g[..info.keyBytes], key[..info.keyBytes]);
  }

  /**
   An Append is accepted exactly when no staged key part lies above its own, and refused exactly when one does, unless
   the greatest staged key is too short to be cut.
   */
  lemma AppendAcceptedWhen(info: TableInfo, t: Table, key: Bytes, value: Bytes)
    requires Flat.Fits(info, t) && |key| == info.EntryBytes()
    ensures
      var reply := Flat.Append(info, t, key, value).reply;
      && (reply == Tables.Done <==>
            Appendable(info, t.view)
            && forall k | k in t.view && info.keyBytes <= |k| :: AtMost(k[..info.keyBytes], key[..info.keyBytes]))
      && (reply == Tables.Failed(Tables.AppendBelowGreatestKey) <==>
            Appendable(info, t.view)
            && exists k :: k in t.view && info.keyBytes <= |k| && Below(key[..info.keyBytes], k[..info.keyBytes]))
  {
    var head := key[..info.keyBytes];
    if !info.dupSorted {
      assert head == key;
    }
    if t.view.Keys != {} && Appendable(info, t.view) {
      var g := Max(t.view.Keys);
      assert g in t.view;
      if Below(head, g[..info.keyBytes]) {
        BelowAsymmetric(head, g[..info.keyBytes]);
      } else {
        forall k | k in t.view && info.keyBytes <= |k| ensures !Below(head, k[..info.keyBytes])
                                                       ensures AtMost(k[..info.keyBytes], head)
        {
          AppendAtLeast(info, t, key, value, k);
          if Below(head, k[..info.keyBytes]) {
            BelowAsymmetric(head, k[..info.keyBytes]);
          }
        }
      }
    }
  }

  lemma StoringKeeps(info: TableInfo, t: Table, op: Op)
    requires Flat.Fits(info, t) && Tables.Sized(info, op) && Stores(op)
    ensures t.view.Keys <= Flat.Apply(info, op, t).table.view.Keys
    ensures Flat.Apply(info, op, t).reply == Tables.Done ==>
              |op.key| == info.EntryBytes() && op.key in Flat.Apply(info, op, t).table.view
  {
  }

  predicate Accepts(st: Machine.State, call: Machine.Call) {
    Machine.Valid(st) && Machine.WellFormed(call) && Machine.Step(st, call).1 == Tables.Done
  }

  /** Nothing is taken out of the table; other tables, reads and Writes may come in between. */
  predicate NothingRemoved(calls: seq<Machine.Call>, code: Tables.TableCode) {
    forall call | call in calls ::
      !call.Reset? && (call.Call? && call.code == code ==> Tables.ReadOnly(call.op) || Stores(call.op))
  }

  /** A call that stores an entry in the table, through any cursor. */
  predicate StoresIn(call: Machine.Call, code: Tables.TableCode) {
    call.Call? && call.code == code && Stores(call.op)
  }

  function Later(st: Machine.State, call: Machine.Call): (next: Machine.State)
    requires Accepts(st, call)
    ensures Machine.Valid(next)
  {
    Machine.StepKeepsValid(st, call);
    Machine.Step(st, call).0
  }

  lemma StoringStays(st: Machine.State, code: Tables.TableCode, call: Machine.Call)
    requires Machine.Valid(st) && code in Tables.TABLES && Machine.WellFormed(call) && StoresIn(call, code)
    ensures code in Machine.Step(st, call).0.view
    ensures st.view[code].Keys <= Machine.Step(st, call).0.view[code].Keys
    ensures Machine.Step(st, call).1 == Tables.Done ==>
              |call.op.key| == Tables.TABLES[code].EntryBytes() && call.op.key in Machine.Step(st, call).0.view[code]
  {
    Machine.FocusFits(st, code, call.cursor);
    StoringKeeps(Tables.TABLES[code], Machine.Focus(st, code, call.cursor), call.op);
  }

  lemma StoredStays(st: Machine.State, code: Tables.TableCode, call: Machine.Call)
    requires Machine.Valid(st) && code in Tables.TABLES && Machine.WellFormed(call) && NothingRemoved([call], code)
    ensures Machine.Valid(Machine.Step(st, call).0)
    ensures st.view[code].Keys <= Machine.Step(st, call).0.view[code].Keys
  {
    assert call in [call];
    Machine.StepKeepsValid(st, call);
    if call.Call? {
      if call.code != code || Tables.ReadOnly(call.op) {
        OthersKeepTable(st, call, code);
      } else {
        StoringStays(st, code, call);
      }
    }
  }

  lemma {:induction false} StoredStaysOver(st: Machine.State, code: Tables.TableCode, calls: seq<Machine.Call>)
    requires Machine.Valid(st) && code in Tables.TABLES && Machine.AllWellFormed(calls) && NothingRemoved(calls, code)
    ensures st.view[code].Keys <= Machine.Run(st, calls).0.view[code].Keys
    decreases |calls|
  {
    if calls != [] {
      assert calls[0] in calls;
      StoredStays(st, code, calls[0]);
      StoredStaysOver(Machine.Step(st, calls[0]).0, code, calls[1..]);
    }
  }

  predicate AppendsIn(call: Machine.Call, code: Tables.TableCode) {
    call.Call? && call.code == code && call.op.Append?
  }

  /** The order of the key parts alone. */
  predicate KeyPartAtMost(a: Bytes, b: Bytes) {
    && Tables.KEY_BYTES <= |a| && Tables.KEY_BYTES <= |b|
    && AtMost(a[..Tables.KEY_BYTES], b[..Tables.KEY_BYTES])
  }

  lemma StepAppendsAbove(st: Machine.State, code: Tables.TableCode, call: Machine.Call, x: Bytes)
    requires code in Tables.TABLES && AppendsIn(call, code) && Accepts(st, call)
    requires x in st.view[code] && Tables.KEY_BYTES <= |x|
    ensures KeyPartAtMost(x, call.op.key)
  {
    Machine.FocusFits(st, code, call.cursor);
    AppendAtLeast(Tables.TABLES[code], Machine.Focus(st, code, call.cursor), call.op.key, call.op.value, x);
  }

  lemma StillThere(st: Machine.State, code: Tables.TableCode, first: Machine.Call, between: seq<Machine.Call>)
    requires code in Tables.TABLES && StoresIn(first, code) && Accepts(st, first)
    requires Machine.AllWellFormed(between) && NothingRemoved(between, code)
    ensures Tables.KEY_BYTES <= |first.op.key|
    ensures first.op.key in Machine.Run(Later(st, first), between).0.view[code]
  {
    StoringStays(st, code, first);
    StoredStaysOver(Later(st, first), code, between);
  }

  /**
   Through any cursors, while nothing is removed from the table: an accepted Append has a key part at least that of
   every entry that an operation has stored before it in the run.
   */
  lemma AppendRunSorted(st: Machine.State, code: Tables.TableCode, first: Machine.Call, between: seq<Machine.Call>,
                        last: Machine.Call)
    requires Machine.Valid(st) && code in Tables.TABLES && Machine.WellFormed(first) && Machine.WellFormed(last)
    requires Machine.AllWellFormed(between) && NothingRemoved(between, code)
    requires StoresIn(first, code) && AppendsIn(last, code)
    ensures Machine.Valid(Machine.Step(st, first).0)
    ensures
      var (next, stored) := Machine.Step(st, first);
      var mid := Machine.Run(next, between).0;
      stored == Tables.Done && Machine.Step(mid, last).1 == Tables.Done ==> KeyPartAtMost(first.op.key, last.op.key)
  {
    Machine.StepKeepsValid(st, first);
    if Accepts(st, first) {
      var mid := Machine.Run(Later(st, first), between).0;
      StillThere(st, code, first, between);
      if Accepts(mid, last) {
        StepAppendsAbove(mid, code, last, first.op.key);
      }
    }
  }

  /** On a regular table an accepted Append leaves its key as the greatest of the view. */
  lemma AppendIsGreatest(info: TableInfo, t: Table, key: Bytes, value: Bytes)
    requires Flat.Fits(info, t) && !info.dupSorted && |key| == info.EntryBytes() && info.keyBytes > 0
    requires Flat.Append(info, t, key, value).reply == Tables.Done
    ensures Greatest(Flat.Append(info, t, key, value).table.view.Keys) == Some(key)
  {
    var after := Flat.Append(info, t, key, value).table.view;
    if t.view != map[] {
      var k :| k in t.view;
      var g := Max(t.view.Keys);
      assert g in t.view && g[..info.keyBytes] == g;
      BelowConnected(key, g);
      forall x | x in after ensures AtMost(x, key) {
        if x in t.view {
          AtMostTransitive(x, g, key);
        }
      }
    }
    MaxIs(after.Keys, key);
  }

  /** On a dup-sorted table that holds unless the subkey lies below the greatest staged subkey of the same key. */
  lemma AppendIsGreatestWhen(info: TableInfo, t: Table, key: Bytes, value: Bytes)
    requires Flat.Fits(info, t) && info.dupSorted && |key| == info.EntryBytes() && t.view != map[]
    requires Flat.Append(info, t, key, value).reply == Tables.Done
    ensures
      var g := Max(t.view.Keys);
      && g in t.view
      && (Greatest(Flat.Append(info, t, key, value).table.view.Keys) == Some(key)
          <==> !(g[..info.keyBytes] == key[..info.keyBytes] && Below(key[info.keyBytes..], g[info.keyBytes..])))
  {
    var k :| k in t.view;
    var g := Max(t.view.Keys);
    var after := Flat.Append(info, t, key, value).table.view;
    assert g in after;
    SplitOrder(key, g, info.keyBytes);
    SplitOrder(g, key, info.keyBytes);
    BelowConnected(key, g);
    if Below(key, g) {
      BelowAsymmetric(key, g);
    } else {
      forall x | x in after ensures AtMost(x, key) {
        if x in t.view {
          AtMostTransitive(x, g, key);
        }
      }
      MaxIs(after.Keys, key);
    }
  }

  /**
   A corollary of the definition: an accepted Append leaves the cursor on its key exactly when the view was not empty
   or the cursor was there already.
   */
  lemma AppendMovesCursorWhen(info: TableInfo, t: Table, key: Bytes, value: Bytes)
    requires Flat.Fits(info, t) && |key| == info.EntryBytes()
    requires Flat.Append(info, t, key, value).reply == Tables.Done
    ensures Flat.Append(info, t, key, value).table.cur == Some(key) <==> t.view != map[] || t.cur == Some(key)
  {
  }
}
