/** The calls that slice a key shorter than they take it to be, or wait for a lock they hold, and so never return. */
module Crashes {
  import opened Wrappers
  import opened ByteStrings
  import opened OrderedKeys
  import opened Tables
  import Flat
  import Frames
  import Machine

  /** A dup operation through a cursor that another table left on a key too short to hold a key part of this one. */
  predicate ShortCursor(st: Machine.State, call: Machine.Call) {
    && call.Call? && (call.op.NextDup? || call.op.NextNoDup? || call.op.DeleteCurrentDuplicates?)
    && call.cursor in st.cursors && |st.cursors[call.cursor]| < KEY_BYTES
  }

  /** An Append to the accounts when no committed key lies above the mark of the connection loop. */
  predicate AppendToMark(st: Machine.State, call: Machine.Call)
    requires Machine.Valid(st)
  {
    && call.Call? && call.op.Append? && call.code == HASHED_ACCOUNTS
    && forall k | k in st.base[HASHED_ACCOUNTS] :: AtMost(k, DEBUG_KEY)
  }

  /** A relative move on an unset cursor, over a table with an entry; the accounts always have one, the mark. */
  predicate UnsetMove(st: Machine.State, call: Machine.Call)
    requires Machine.Valid(st)
  {
    && call.Call? && (call.op.Next? || call.op.Prev? || call.op.NextDup? || call.op.NextNoDup?)
    && call.cursor !in st.cursors
    && call.code in TABLES && (call.code == HASHED_ACCOUNTS || st.base[call.code] != map[])
  }

  /** On one table: the greatest staged key is too short. */
  lemma AppendPanicsWhen(info: TableInfo, t: Flat.Table, key: Bytes, value: Bytes)
    requires Flat.Fits(info, t) && |key| == info.EntryBytes()
    ensures Flat.Append(info, t, key, value).reply.Panicked?
            <==> t.view.Keys != {} && !info.dupSorted && Max(t.view.Keys) == DEBUG_KEY && info.keyBytes > 1
  {
  }

  lemma DupMovesPanicWhen(info: TableInfo, op: Op, t: Flat.Table)
    requires Flat.Fits(info, t) && Sized(info, op) && !op.Append?
    ensures Flat.Apply(info, op, t).reply.Panicked?
            <==> info.dupSorted && (op.NextDup? || op.NextNoDup? || op.DeleteCurrentDuplicates?)
                 && t.cur.Some? && |t.cur.value| < info.keyBytes
  {
  }

  /** In the marked accounts store the mark is the greatest key exactly when no committed key lies above it. */
  lemma MarkIsGreatest(base: map<TableCode, Store>)
    requires HASHED_ACCOUNTS in base
    ensures
      var keys := Machine.Marked(base)[HASHED_ACCOUNTS].Keys;
      keys != {} && (Max(keys) == DEBUG_KEY <==> forall k | k in base[HASHED_ACCOUNTS] :: AtMost(k, DEBUG_KEY))
  {
    var s := Machine.Marked(base)[HASHED_ACCOUNTS];
    assert DEBUG_KEY in s.Keys;
    if forall k | k in base[HASHED_ACCOUNTS] :: AtMost(k, DEBUG_KEY) {
      MaxIs(s.Keys, DEBUG_KEY);
    } else {
      var k :| k in base[HASHED_ACCOUNTS] && !AtMost(k, DEBUG_KEY);
      assert k in s.Keys && AtMost(k, Max(s.Keys));
    }
  }

  /** After a fresh cache a call ends the process in these two cases and no other. */
  lemma StepPanicsWhen(st: Machine.State, call: Machine.Call)
    requires Machine.Valid(st) && Frames.Expressible(call)
    ensures Machine.Valid(Machine.Fresh(st)) && Machine.WellFormed(call)
    ensures Machine.Step(Machine.Fresh(st), call).1.Panicked? <==> ShortCursor(st, call) || AppendToMark(st, call)
  {
    var clean := Machine.Fresh(st);
    Machine.FreshIsValid(st);
    Frames.ExpressibleWellFormed(call);
    if call.Call? {
      var t := Machine.Focus(clean, call.code, call.cursor);
      Machine.FocusFits(clean, call.code, call.cursor);
      if call.op.Append? {
        AppendPanicsWhen(TABLES[call.code], t, call.op.key, call.op.value);
        MarkIsGreatest(st.base);
      } else {
        DupMovesPanicWhen(TABLES[call.code], call.op, t);
      }
    }
  }

  lemma MovesBlockWhen(info: TableInfo, op: Op, t: Flat.Table)
    requires Flat.Fits(info, t) && Sized(info, op)
    ensures Flat.Apply(info, op, t).reply.Blocked?
            <==> (op.Next? || op.Prev? || (info.dupSorted && (op.NextDup? || op.NextNoDup?)))
                 && t.cur == None && t.base != map[]
  {
  }

  /** After a fresh cache a call blocks in this case and no other. */
  lemma StepBlocksWhen(st: Machine.State, call: Machine.Call)
    requires Machine.Valid(st) && Frames.Expressible(call)
    ensures Machine.Valid(Machine.Fresh(st)) && Machine.WellFormed(call)
    ensures Machine.Step(Machine.Fresh(st), call).1.Blocked? <==> UnsetMove(st, call)
  {
    var clean := Machine.Fresh(st);
    Machine.FreshIsValid(st);
    Frames.ExpressibleWellFormed(call);
    if call.Call? {
      Machine.FocusFits(clean, call.code, call.cursor);
      MovesBlockWhen(TABLES[call.code], call.op, Machine.Focus(clean, call.code, call.cursor));
      assert DEBUG_KEY in clean.base[HASHED_ACCOUNTS];
      assert call.code != HASHED_ACCOUNTS ==> clean.base[call.code] == st.base[call.code];
    }
  }
}
