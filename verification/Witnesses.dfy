/**
 The exact conditions under which an operation is not what its comment says can be met: for each a run of calls, from
 any state that fits, that ends in the failing case.
 */
module Witnesses {
  import opened Wrappers
  import opened ByteStrings
  import opened OrderedKeys
  import opened TableRuns
  import opened Scans
  import GroupedScans
  import Tables
  import Flat
  import Frames
  import Machine
  import Serving

  type Call = Machine.Call
  type State = Machine.State
  type TableCode = Tables.TableCode
  type CursorID = Tables.CursorID

  const ACCOUNTS: TableCode := Tables.HASHED_ACCOUNTS
  const STORAGES: TableCode := Tables.HASHED_STORAGES

  /** A run of two operations through one cursor, on its table alone. */
  lemma TwoCalls(st: State, code: TableCode, id: CursorID, a: Op, b: Op)
    requires Machine.Valid(st) && code in Tables.TABLES
    requires Tables.Sized(Tables.TABLES[code], a) && Tables.Sized(Tables.TABLES[code], b)
    ensures
      var info := Tables.TABLES[code];
      var first := Flat.Apply(info, a, Machine.Focus(st, code, id));
      var calls := [Machine.Call(code, id, a), Machine.Call(code, id, b)];
      && Flat.Fits(info, first.table) && Machine.AllWellFormed(calls)
      && var second := Flat.Apply(info, b, first.table);
      && Machine.Valid(Machine.Run(st, calls).0) && Machine.Run(st, calls).0.base == st.base
      && Machine.Focus(Machine.Run(st, calls).0, code, id) == second.table
      && Machine.Run(st, calls).1 == [first.reply, second.reply]
  {
    Machine.FocusFits(st, code, id);
    FocusOfStep(st, code, id, a);
    var next := Machine.Step(st, Machine.Call(code, id, a)).0;
    Machine.FocusFits(next, code, id);
    FocusOfStep(next, code, id, b);
    Machine.RunOfTwo(st, Machine.Call(code, id, a), Machine.Call(code, id, b));
  }

  // ---------- Next ----------

  lemma NextFromAbsent(t: Flat.Table, k: Bytes)
    requires t.cur == Some(k) && k !in t.base && After(t.base.Keys, k) != {}
    ensures Flat.Next(t) == Flat.MoveTo(t, Least(After(t.base.Keys, Min(After(t.base.Keys, k)))))
    ensures Flat.Next(t).table.cur != Least(After(t.base.Keys, k))
  {
    assert From(t.base.Keys, k) == After(t.base.Keys, k);
    BelowIrreflexive(Min(After(t.base.Keys, k)));
  }

  /** Upsert of a key that is not committed, then Next: the entry after the key is passed over. */
  lemma NextSkips(st: State, code: TableCode, id: CursorID, k: Bytes, v: Bytes)
    requires Machine.Valid(st) && code in Tables.TABLES && |k| == Tables.TABLES[code].EntryBytes()
    requires k !in st.base[code] && After(st.base[code].Keys, k) != {}
    ensures
      var s := st.base[code];
      var skipped := Min(After(s.Keys, k));
      var calls := [Machine.Call(code, id, Tables.Upsert(k, v)), Machine.Call(code, id, Tables.Next)];
      && Machine.AllWellFormed(calls)
      && Machine.Valid(Machine.Run(st, calls).0)
      && Machine.Focus(Machine.Run(st, calls).0, code, id).cur != Some(skipped)
      && Machine.Run(st, calls).1
         == [Tables.Done,
             if After(s.Keys, skipped) == {} then Tables.Nothing else Entry(s, Min(After(s.Keys, skipped)))]
  {
    TwoCalls(st, code, id, Tables.Upsert(k, v), Tables.Next);
    NextFromAbsent(Flat.Upsert(Machine.Focus(st, code, id), k, v).table, k);
  }

  // ---------- NextDup ----------

  lemma AfterLeast(s: set<Bytes>, k: Bytes)
    requires After(s, k) != {}
    ensures After(After(s, k), Min(After(s, k))) == After(s, Min(After(s, k)))
  {
    TotalOrder();
  }

  lemma NextDupFromAbsent(info: TableInfo, t: Flat.Table, fk: Bytes)
    requires info.dupSorted && info.keyBytes <= |fk| && t.cur == Some(fk) && fk !in t.base
    ensures
      var group := Group(t.base.Keys, fk[..info.keyBytes]);
      var outcome := Flat.NextDup(info, t);
      if After(group, fk) == {} then outcome.reply == Tables.Failed(Tables.CurrentIteratorKeyIsInvalid)
      else
        && outcome == Flat.MoveTo(t, Least(After(group, Min(After(group, fk)))))
        && outcome.table.cur != Least(After(group, fk))
  {
    var group := Group(t.base.Keys, fk[..info.keyBytes]);
    assert From(group, fk) == After(group, fk);
    if After(group, fk) != {} {
      BelowIrreflexive(Min(After(group, fk)));
    }
  }

  /**
   Upsert of an entry that is not committed, then NextDup: the next entry with the same key is passed over, and where
   there is none the reply is an error.
   */
  lemma NextDupSkips(st: State, id: CursorID, fk: Bytes, v: Bytes)
    requires Machine.Valid(st) && |fk| == Tables.KEY_BYTES + Tables.SUBKEY_BYTES && fk !in st.base[STORAGES]
    ensures
      var s := st.base[STORAGES];
      var above := After(Group(s.Keys, fk[..Tables.KEY_BYTES]), fk);
      var calls := [Machine.Call(STORAGES, id, Tables.Upsert(fk, v)), Machine.Call(STORAGES, id, Tables.NextDup)];
      && Machine.AllWellFormed(calls)
      && var (last, replies) := Machine.Run(st, calls);
      && Machine.Valid(last)
      && (above == {} ==> replies == [Tables.Done, Tables.Failed(Tables.CurrentIteratorKeyIsInvalid)])
      && (above != {} ==>
            var further := After(above, Min(above));
            && Machine.Focus(last, STORAGES, id).cur != Some(Min(above))
            && replies == [Tables.Done, if further == {} then Tables.Nothing else Entry(s, Min(further))])
  {
    var group := Group(st.base[STORAGES].Keys, fk[..Tables.KEY_BYTES]);
    TwoCalls(st, STORAGES, id, Tables.Upsert(fk, v), Tables.NextDup);
    NextDupFromAbsent(Tables.TABLES[STORAGES], Flat.Upsert(Machine.Focus(st, STORAGES, id), fk, v).table, fk);
    if After(group, fk) != {} {
      AfterLeast(group, fk);
    }
  }

  // ---------- DeleteCurrent ----------

  lemma DeleteCurrentFromAbsent(t: Flat.Table, k: Bytes)
    requires t.cur == Some(k) && k !in t.view && After(t.view.Keys, k) != {}
    ensures Flat.DeleteCurrent(t).reply == Tables.Done
    ensures Flat.DeleteCurrent(t).table.view == t.view
    ensures Flat.DeleteCurrent(t).table.cur != Least(After(t.view.Keys, k))
  {
    assert From(t.view.Keys, k) == After(t.view.Keys, k);
    assert t.view - {k} == t.view;
    BelowIrreflexive(Min(After(t.view.Keys, k)));
  }

  lemma SetThenDrop(s: Tables.Store, k: Bytes, v: Bytes)
    ensures s[k := v] - {k} == s - {k}
    ensures After(s[k := v].Keys, k) == After(s.Keys, k)
  {
    BelowIrreflexive(k);
  }

  lemma DeleteTwice(info: TableInfo, t: Flat.Table, k: Bytes)
    requires Flat.Fits(info, t) && |k| == info.EntryBytes() && t.cur == Some(k) && After(t.view.Keys, k) != {}
    ensures
      var deleted := Flat.Apply(info, Tables.Delete(k, info.dupSorted), t);
      && Flat.Fits(info, deleted.table) && deleted.reply == Tables.Done
      && var second := Flat.Apply(info, Tables.DeleteCurrent, deleted.table);
      && second.reply == Tables.Done
      && second.table.view == t.view - {k}
      && second.table.cur != Least(After(t.view.Keys, k))
  {
    var deleted := Flat.Delete(info, t, k, info.dupSorted).table;
    Flat.ApplyFits(info, Tables.Delete(k, info.dupSorted), t);
    assert deleted.view == t.view - {k};
    BelowIrreflexive(k);
    assert After(deleted.view.Keys, k) == After(t.view.Keys, k);
    DeleteCurrentFromAbsent(deleted, k);
  }

  /**
   Deleting the entry under the cursor by its key, then DeleteCurrent: that succeeds, removes nothing, and passes over
   the entry after the cursor.
   */
  lemma DeleteCurrentSkips(st: State, code: TableCode, id: CursorID, k: Bytes, v: Bytes)
    requires Machine.Valid(st) && code in Tables.TABLES && |k| == Tables.TABLES[code].EntryBytes()
    requires After(st.view[code].Keys, k) != {}
    ensures
      var upsert := Machine.Call(code, id, Tables.Upsert(k, v));
      var delete := Machine.Call(code, id, Tables.Delete(k, Tables.TABLES[code].dupSorted));
      var calls := [upsert] + [delete, Machine.Call(code, id, Tables.DeleteCurrent)];
      && Machine.AllWellFormed(calls)
      && Machine.Valid(Machine.Run(st, calls).0)
      && Machine.Run(st, calls).1 == [Tables.Done] + [Tables.Done, Tables.Done]
      && Machine.Run(st, calls).0.view[code] == st.view[code] - {k}
      && Machine.Focus(Machine.Run(st, calls).0, code, id).cur != Least(After(st.view[code].Keys, k))
  {
    var upsert := Machine.Call(code, id, Tables.Upsert(k, v));
    var delete := Machine.Call(code, id, Tables.Delete(k, Tables.TABLES[code].dupSorted));
    var current := Machine.Call(code, id, Tables.DeleteCurrent);
    Machine.FocusFits(st, code, id);
    FocusOfStep(st, code, id, upsert.op);
    var upserted := Machine.Step(st, upsert).0;
    var t := Machine.Focus(upserted, code, id);
    Machine.FocusFits(upserted, code, id);
    SetThenDrop(st.view[code], k, v);
    DeleteTwice(Tables.TABLES[code], t, k);
    TwoCalls(upserted, code, id, delete.op, current.op);
    Machine.RunCons(st, upsert, [delete, current]);
  }

  // ---------- All-0xFF keys ----------

  lemma SeekMax(t: Flat.Table, key: Bytes, fk: Bytes)
    requires AllMax(key) && HasPrefix(fk, key) && fk in t.base
    ensures Flat.Seek(t, key).reply.Found?
    ensures Flat.Seek(t, key).table.base == t.base
    ensures Flat.Seek(t, key).table.cur.Some? && HasPrefix(Flat.Seek(t, key).table.cur.value, key)
  {
    PrefixAtMost(key, fk);
    assert fk in From(t.base.Keys, key);
    var c := Min(From(t.base.Keys, key));
    GroupedScans.NothingBeyondMax(t.base.Keys, key);
    assert c !in Beyond(t.base.Keys, key);
  }

  /** What follows a Put and a Write starts in a state in which the entry is committed. */
  lemma PutWriteThen(st: State, code: TableCode, id: CursorID, fk: Bytes, v: Bytes, rest: seq<Call>)
    returns (published: State)
    requires Machine.Valid(st) && code in Tables.TABLES && |fk| == Tables.TABLES[code].EntryBytes()
    requires Machine.AllWellFormed(rest)
    ensures Machine.Valid(published) && fk in published.base[code]
    ensures
      var put := Machine.Call(code, id, Tables.Put(fk, v));
      var calls := [put] + ([Machine.Write] + rest);
      && Machine.AllWellFormed(calls)
      && Machine.Run(st, calls)
         == (Machine.Run(published, rest).0, [Tables.Done] + ([Tables.Done] + Machine.Run(published, rest).1))
  {
    var put := Machine.Call(code, id, Tables.Put(fk, v));
    FocusOfStep(st, code, id, put.op);
    var staged := Machine.Step(st, put).0;
    assert Machine.Focus(staged, code, id).view == staged.view[code];
    Machine.StepKeepsValid(staged, Machine.Write);
    published := Machine.Step(staged, Machine.Write).0;
    Machine.RunCons(staged, Machine.Write, rest);
    Machine.RunCons(st, put, [Machine.Write] + rest);
  }

  function SeekThenLeave(id: CursorID, key: Bytes): seq<Call> {
    [Machine.Call(STORAGES, id, Tables.Seek(key)), Machine.Call(STORAGES, id, Tables.NextNoDup)]
  }

  /** The last reply of a run returns the first entry of the table, although no key lies above `key`. */
  predicate StartsOver(run: (State, seq<Reply>), key: Bytes) {
    && STORAGES in run.0.base && run.1 != []
    && var s := run.0.base[STORAGES];
    s.Keys != {} && Beyond(s.Keys, key) == {} && run.1[|run.1| - 1] == Entry(s, Min(s.Keys))
  }

  lemma SeekThenRestart(st: State, id: CursorID, key: Bytes, fk: Bytes)
    requires Machine.Valid(st) && |key| == Tables.KEY_BYTES && AllMax(key)
    requires fk in st.base[STORAGES] && HasPrefix(fk, key)
    ensures Machine.AllWellFormed(SeekThenLeave(id, key)) && StartsOver(Machine.Run(st, SeekThenLeave(id, key)), key)
  {
    var t := Machine.Focus(st, STORAGES, id);
    TwoCalls(st, STORAGES, id, Tables.Seek(key), Tables.NextNoDup);
    SeekMax(t, key, fk);
    GroupedScans.NothingBeyondMax(t.base.Keys, key);
  }

  lemma StartsOverAfter(run: (State, seq<Reply>), a: Reply, b: Reply, key: Bytes)
    requires StartsOver(run, key)
    ensures StartsOver((run.0, [a] + ([b] + run.1)), key)
  {
  }

  /**
   Once an entry with an all-0xFF key is published, Seek to that key and NextNoDup end on the first entry of the table,
   although no key lies above.
   */
  lemma NextNoDupRestarts(st: State, id: CursorID, key: Bytes, sub: Bytes, v: Bytes)
    requires Machine.Valid(st) && |key| == Tables.KEY_BYTES && AllMax(key) && |sub| == Tables.SUBKEY_BYTES
    ensures
      var put := Machine.Call(STORAGES, id, Tables.Put(key + sub, v));
      var calls := [put] + ([Machine.Write] + SeekThenLeave(id, key));
      Machine.AllWellFormed(calls) && StartsOver(Machine.Run(st, calls), key)
  {
    var published := PutWriteThen(st, STORAGES, id, key + sub, v, SeekThenLeave(id, key));
    SeekThenRestart(published, id, key, key + sub);
    StartsOverAfter(Machine.Run(published, SeekThenLeave(id, key)), Tables.Done, Tables.Done, key);
  }

  lemma DropRestarts(t: Flat.Table, key: Bytes, fk: Bytes, other: Bytes)
    requires |key| == Tables.KEY_BYTES && AllMax(key) && t.cur == Some(fk) && HasPrefix(fk, key) && fk in t.view
    requires other in t.view && !HasPrefix(other, key)
    ensures
      var outcome := Flat.DeleteCurrentDuplicates(Tables.TABLES[STORAGES], t);
      && outcome.reply == Tables.Done
      && outcome.table.view.Keys != {} && Beyond(outcome.table.view.Keys, key) == {}
      && outcome.table.cur == Some(Min(outcome.table.view.Keys))
  {
    var outcome := Flat.DeleteCurrentDuplicates(Tables.TABLES[STORAGES], t);
    assert fk[..Tables.KEY_BYTES] == key && fk in Group(t.view.Keys, key);
    assert other in outcome.table.view.Keys;
    GroupedScans.NothingBeyondMax(outcome.table.view.Keys, key);
  }

  /** So does DeleteCurrentDuplicates on such a key: the cursor goes back to the first entry that is left. */
  lemma DuplicatesRestart(st: State, id: CursorID, key: Bytes, sub: Bytes, v: Bytes, other: Bytes)
    requires Machine.Valid(st) && |key| == Tables.KEY_BYTES && AllMax(key) && |sub| == Tables.SUBKEY_BYTES
    requires other in st.view[STORAGES] && !HasPrefix(other, key)
    ensures
      var upsert := Machine.Call(STORAGES, id, Tables.Upsert(key + sub, v));
      var calls := [upsert, Machine.Call(STORAGES, id, Tables.DeleteCurrentDuplicates)];
      && Machine.AllWellFormed(calls)
      && var (last, replies) := Machine.Run(st, calls);
      && Machine.Valid(last) && replies == [Tables.Done, Tables.Done]
      && last.view[STORAGES].Keys != {} && Beyond(last.view[STORAGES].Keys, key) == {}
      && Machine.Focus(last, STORAGES, id).cur == Some(Min(last.view[STORAGES].Keys))
  {
    TwoCalls(st, STORAGES, id, Tables.Upsert(key + sub, v), Tables.DeleteCurrentDuplicates);
    var t := Flat.Upsert(Machine.Focus(st, STORAGES, id), key + sub, v).table;
    DropRestarts(t, key, key + sub, other);
  }

  // ---------- Delete by key ----------

  /** Put of an entry that is not committed, then Delete of its key: the entry is still staged. */
  lemma DeleteLeavesStaged(st: State, id: CursorID, key: Bytes, sub: Bytes, v: Bytes)
    requires Machine.Valid(st) && |key| == Tables.KEY_BYTES && |sub| == Tables.SUBKEY_BYTES
    requires key + sub !in st.base[STORAGES]
    ensures
      var put := Machine.Call(STORAGES, id, Tables.Put(key + sub, v));
      var calls := [put, Machine.Call(STORAGES, id, Tables.Delete(key, false))];
      && Machine.AllWellFormed(calls)
      && var (last, replies) := Machine.Run(st, calls);
      && Machine.Valid(last) && replies == [Tables.Done, Tables.Done]
      && key + sub in last.view[STORAGES] && last.view[STORAGES][key + sub] == v
  {
    TwoCalls(st, STORAGES, id, Tables.Put(key + sub, v), Tables.Delete(key, false));
    var last := Machine.Run(st, [Machine.Call(STORAGES, id, Tables.Put(key + sub, v)),
                                 Machine.Call(STORAGES, id, Tables.Delete(key, false))]).0;
    assert Machine.Focus(last, STORAGES, id).view == last.view[STORAGES];
  }

  // ---------- Append ----------

  lemma AppendToEmpty(info: TableInfo, t: Flat.Table, k: Bytes, v: Bytes)
    requires Flat.Fits(info, t) && |k| == info.EntryBytes() && t.view == map[]
    ensures Flat.Append(info, t, k, v) == Flat.Put(t, k, v)
    ensures Flat.Put(t, k, v).table.view == map[k := v]
  {
  }

  /** Append to an empty table through a cursor that is not set leaves it unset. */
  lemma AppendLeavesCursor(st: State, code: TableCode, id: CursorID, k: Bytes, v: Bytes)
    requires Machine.Valid(st) && code in Tables.TABLES && |k| == Tables.TABLES[code].EntryBytes()
    requires st.view[code] == map[] && id !in st.cursors
    ensures
      var calls := [Machine.Call(code, id, Tables.Append(k, v)), Machine.Call(code, id, Tables.Current)];
      && Machine.AllWellFormed(calls)
      && Machine.Run(st, calls).1 == [Tables.Done, Tables.Failed(Tables.CurrentKeyIsNotSet)]
  {
    Machine.FocusFits(st, code, id);
    AppendToEmpty(Tables.TABLES[code], Machine.Focus(st, code, id), k, v);
    TwoCalls(st, code, id, Tables.Append(k, v), Tables.Current);
  }

  lemma LowerSubkeyAccepted(info: TableInfo, t: Flat.Table, key: Bytes, low: Bytes, high: Bytes, v: Bytes)
    requires Flat.Fits(info, t) && info.dupSorted && |key| == info.keyBytes && |low| == info.subKeyBytes
    requires Below(low, high)
    requires t.view == map[key + high := v]
    ensures Flat.Append(info, t, key + low, v) == Flat.SetAndMove(t, key + low, v)
    ensures Greatest(Flat.SetAndMove(t, key + low, v).table.view.Keys) == Some(key + high)
    ensures key + high != key + low
  {
    assert t.view.Keys == {key + high};
    MaxIs(t.view.Keys, key + high);
    assert (key + low)[..info.keyBytes] == key == (key + high)[..info.keyBytes];
    BelowIrreflexive(key);
    BelowCancel(key, low, high);
    BelowAsymmetric(key + low, key + high);
    MaxIs(Flat.SetAndMove(t, key + low, v).table.view.Keys, key + high);
  }

  /** Append accepts a lower subkey of the greatest key: the appended entry is not the greatest. */
  lemma AppendBelowLast(st: State, id: CursorID, key: Bytes, low: Bytes, high: Bytes, v: Bytes)
    requires Machine.Valid(st) && st.view[STORAGES] == map[]
    requires |key| == Tables.KEY_BYTES && |low| == |high| == Tables.SUBKEY_BYTES && Below(low, high)
    ensures
      var first := Machine.Call(STORAGES, id, Tables.Append(key + high, v));
      var calls := [first, Machine.Call(STORAGES, id, Tables.Append(key + low, v))];
      && Machine.AllWellFormed(calls)
      && var (last, replies) := Machine.Run(st, calls);
      && Machine.Valid(last) && replies == [Tables.Done, Tables.Done]
      && Greatest(last.view[STORAGES].Keys) == Some(key + high) != Some(key + low)
  {
    var info := Tables.TABLES[STORAGES];
    Machine.FocusFits(st, STORAGES, id);
    AppendToEmpty(info, Machine.Focus(st, STORAGES, id), key + high, v);
    TwoCalls(st, STORAGES, id, Tables.Append(key + high, v), Tables.Append(key + low, v));
    LowerSubkeyAccepted(info, Flat.Put(Machine.Focus(st, STORAGES, id), key + high, v).table, key, low, high, v);
    var calls := [Machine.Call(STORAGES, id, Tables.Append(key + high, v)),
                  Machine.Call(STORAGES, id, Tables.Append(key + low, v))];
    assert Machine.Focus(Machine.Run(st, calls).0, STORAGES, id).view == Machine.Run(st, calls).0.view[STORAGES];
  }

  // ---------- Frames that are not answered ----------

  /** On an accounts table with nothing above the loop's own key, such as an empty one, an Append ends the process. */
  lemma AppendCrashes(st: State, id: CursorID, k: Bytes, v: Bytes)
    requires Machine.Valid(st) && |k| == Tables.KEY_BYTES
    requires forall x | x in st.base[ACCOUNTS] :: AtMost(x, Tables.DEBUG_KEY)
    requires |Frames.Encode(Machine.Call(ACCOUNTS, id, Tables.Append(k, v)))| <= Frames.READ_BYTES
    ensures Serving.Respond(st, Frames.Encode(Machine.Call(ACCOUNTS, id, Tables.Append(k, v)))).1 == Serving.Crashed
  {
    var call := Machine.Call(ACCOUNTS, id, Tables.Append(k, v));
    Frames.DecodeEncode(call);
    Serving.CrashesWhen(st, Frames.Encode(call));
  }

  /** A move through a cursor, as a frame. */
  function MoveFrame(code: TableCode, id: CursorID, op: Op): (frame: Serving.Frame)
    requires Frames.TakesOnlyCursor(op)
    ensures frame != []
  {
    Frames.Encode(Machine.Call(code, id, op))
  }

  /** A Next on the accounts through a cursor that is not set is never answered, whatever the table holds. */
  lemma UnsetNextHangs(st: State, id: CursorID)
    requires Machine.Valid(st) && id !in st.cursors
    ensures Serving.Respond(st, MoveFrame(ACCOUNTS, id, Tables.Next)).1 == Serving.Stuck
  {
    Frames.DecodeEncode(Machine.Call(ACCOUNTS, id, Tables.Next));
    Serving.StuckWhen(st, MoveFrame(ACCOUNTS, id, Tables.Next));
  }

  lemma FirstIsMark(st: State, id: CursorID)
    requires Machine.Valid(st) && forall x | x in st.base[ACCOUNTS] :: AtMost(Tables.DEBUG_KEY, x)
    ensures
      var first := Machine.Call(ACCOUNTS, id, Tables.First);
      && Machine.Valid(Machine.Fresh(st)) && Machine.WellFormed(first)
      && var (next, reply) := Machine.Step(Machine.Fresh(st), first);
      && id in next.cursors && next.cursors[id] == Tables.DEBUG_KEY
      && reply == Tables.Found(Tables.DEBUG_KEY + Tables.DEBUG_VALUE)
  {
    Machine.FreshIsValid(st);
    var s := Machine.Marked(st.base)[ACCOUNTS];
    assert Tables.DEBUG_KEY in s.Keys;
    MinIs(s.Keys, Tables.DEBUG_KEY);
  }

  lemma FirstFrame(st: State, id: CursorID) returns (next: State, response: Serving.Response)
    requires Machine.Valid(st) && forall x | x in st.base[ACCOUNTS] :: AtMost(Tables.DEBUG_KEY, x)
    ensures Machine.Valid(next) && id in next.cursors && next.cursors[id] == Tables.DEBUG_KEY
    ensures response == Serving.Answered(Tables.Found(Tables.DEBUG_KEY + Tables.DEBUG_VALUE))
    ensures Serving.Respond(st, MoveFrame(ACCOUNTS, id, Tables.First)) == (next, response)
  {
    var first := Machine.Call(ACCOUNTS, id, Tables.First);
    Frames.DecodeEncode(first);
    FirstIsMark(st, id);
    Serving.RespondsToCall(st, MoveFrame(ACCOUNTS, id, Tables.First), first);
    next := Serving.Respond(st, MoveFrame(ACCOUNTS, id, Tables.First)).0;
    response := Serving.Answered(Tables.Found(Tables.DEBUG_KEY + Tables.DEBUG_VALUE));
  }

  lemma DupFrameCrashes(st: State, id: CursorID)
    requires Machine.Valid(st) && id in st.cursors && st.cursors[id] == Tables.DEBUG_KEY
    ensures Serving.Respond(st, MoveFrame(STORAGES, id, Tables.NextDup)).1 == Serving.Crashed
  {
    Frames.DecodeEncode(Machine.Call(STORAGES, id, Tables.NextDup));
    Serving.CrashesWhen(st, MoveFrame(STORAGES, id, Tables.NextDup));
  }

  /**
   First on an accounts table without entries below the loop's own key, such as an empty one, answers with that key; a
   NextDup on the storages through the same cursor, as the next frame, ends the process.
   */
  lemma NextDupCrashes(st: State, id: CursorID) returns (next: State, response: Serving.Response)
    requires Machine.Valid(st) && forall x | x in st.base[ACCOUNTS] :: AtMost(Tables.DEBUG_KEY, x)
    ensures Machine.Valid(next)
    ensures Serving.Respond(st, MoveFrame(ACCOUNTS, id, Tables.First)) == (next, response)
    ensures response == Serving.Answered(Tables.Found(Tables.DEBUG_KEY + Tables.DEBUG_VALUE))
    ensures Serving.Respond(next, MoveFrame(STORAGES, id, Tables.NextDup)).1 == Serving.Crashed
  {
    next, response := FirstFrame(st, id);
    DupFrameCrashes(next, id);
  }
}
