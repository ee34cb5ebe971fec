/** Staging is invisible until it is published, publication is atomic, and reads move only their own cursor. */
module Isolation {
  import opened Wrappers
  import opened ByteStrings
  import opened OrderedKeys
  import opened Overlay
  import Tables
  import Flat
  import Machine
  import Scans

  type Call = Machine.Call
  type State = Machine.State
  type Reply = Tables.Reply

  // ---------- Isolation ----------

  lemma StepKeepsBase(st: State, call: Call)
    requires Machine.Valid(st) && Machine.WellFormed(call) && !call.Write?
    ensures Machine.Step(st, call).0.base == st.base
  {
  }

  /** Only Write changes base. */
  lemma {:induction false} RunKeepsBase(st: State, calls: seq<Call>)
    requires Machine.Valid(st) && Machine.AllWellFormed(calls) && (forall call | call in calls :: !call.Write?)
    ensures Machine.Run(st, calls).0.base == st.base
    decreases |calls|
  {
    if calls != [] {
      assert calls[0] in calls;
      Machine.StepKeepsValid(st, calls[0]);
      StepKeepsBase(st, calls[0]);
      RunKeepsBase(Machine.Step(st, calls[0]).0, calls[1..]);
    }
  }

  predicate Reads(call: Call) {
    call.Call? && Tables.ReadOnly(call.op)
  }

  /** The same committed content and cursors, whatever is staged. */
  predicate LooksAlike(a: State, b: State) {
    a.base == b.base && a.cursors == b.cursors
  }

  lemma ReadLooksAlike(a: State, b: State, call: Call)
    requires Machine.Valid(a) && Machine.Valid(b) && LooksAlike(a, b) && Machine.WellFormed(call) && Reads(call)
    ensures LooksAlike(Machine.Step(a, call).0, Machine.Step(b, call).0)
    ensures Machine.Step(a, call).1 == Machine.Step(b, call).1
    ensures Machine.Step(a, call).0.view == a.view
  {
    if call.code in Tables.TABLES {
      var info := Tables.TABLES[call.code];
      var ta, tb := Machine.Focus(a, call.code, call.cursor), Machine.Focus(b, call.code, call.cursor);
      Machine.FocusFits(a, call.code, call.cursor);
      Machine.FocusFits(b, call.code, call.cursor);
      Flat.ReadsIgnoreStaging(info, call.op, ta, tb.view);
      Flat.ReadKeeps(info, call.op, ta);
      Flat.ReadKeeps(info, call.op, tb);
      assert tb == ta.(view := tb.view);
      Machine.Settle(a, call.code, call.cursor);
    }
  }

  /** No run of reads can tell what is staged, and none changes it. */
  lemma {:induction false} ReadsCannotSeeStaging(a: State, b: State, calls: seq<Call>)
    requires Machine.Valid(a) && Machine.Valid(b) && LooksAlike(a, b)
    requires Machine.AllWellFormed(calls) && forall call | call in calls :: Reads(call)
    ensures Machine.Run(a, calls).1 == Machine.Run(b, calls).1
    ensures Machine.Run(a, calls).0.view == a.view && LooksAlike(Machine.Run(a, calls).0, Machine.Run(b, calls).0)
    decreases |calls|
  {
    if calls != [] {
      assert calls[0] in calls;
      ReadLooksAlike(a, b, calls[0]);
      Machine.StepKeepsValid(a, calls[0]);
      Machine.StepKeepsValid(b, calls[0]);
      ReadsCannotSeeStaging(Machine.Step(a, calls[0]).0, Machine.Step(b, calls[0]).0, calls[1..]);
    }
  }

  /** An operation leaves the other tables alone, and a read leaves its own. */
  lemma OthersKeepTable(st: State, call: Call, code: Tables.TableCode)
    requires Machine.Valid(st) && Machine.WellFormed(call) && call.Call? && code in Tables.TABLES
    requires call.code == code ==> Tables.ReadOnly(call.op)
    ensures Machine.Step(st, call).0.base == st.base
    ensures code in Machine.Step(st, call).0.view && Machine.Step(st, call).0.view[code] == st.view[code]
  {
    StepKeepsBase(st, call);
    if call.code == code {
      ReadLooksAlike(st, st, call);
    }
  }

  // ---------- Publication ----------

  /** What a run has done to one table: the edits it has published, and after those the edits that are only staged. */
  datatype Log = Log(committed: seq<Edit>, pending: seq<Edit>)

  /** Operations stage edits; a Write publishes what is pending, a Reset forgets it. */
  function Record(st: State, call: Call, code: Tables.TableCode, log: Log): Log
    requires Machine.Valid(st) && Machine.WellFormed(call) && code in Tables.TABLES
  {
    match call
    case Write => Log(log.committed + log.pending, [])
    case Reset => Log(log.committed, [])
    case Call(_, _, _) => Log(log.committed, log.pending + Machine.CallEdits(st, call, code))
  }

  function RecordRun(st: State, calls: seq<Call>, code: Tables.TableCode, log: Log): Log
    requires Machine.Valid(st) && Machine.AllWellFormed(calls) && code in Tables.TABLES
    decreases |calls|
  {
    if calls == [] then log
    else
      Machine.StepKeepsValid(st, calls[0]);
      RecordRun(Machine.Step(st, calls[0]).0, calls[1..], code, Record(st, calls[0], code, log))
  }

  /** The table is what the log makes of the content it started from. */
  predicate Recorded(st: State, code: Tables.TableCode, start: Tables.Store, log: Log)
    requires Machine.Valid(st) && code in Tables.TABLES
  {
    st.base[code] == Replay(start, log.committed) && st.view[code] == Replay(st.base[code], log.pending)
  }

  /** An operation changes the view of each table by exactly what it stages there. */
  lemma StepIsReplay(st: State, call: Call, code: Tables.TableCode)
    requires Machine.Valid(st) && Machine.WellFormed(call) && call.Call? && code in Tables.TABLES
    ensures Machine.Valid(Machine.Step(st, call).0)
    ensures Machine.Step(st, call).0.view[code] == Replay(st.view[code], Machine.CallEdits(st, call, code))
  {
    Machine.StepKeepsValid(st, call);
    if call.code == code {
      Machine.FocusFits(st, code, call.cursor);
      Flat.ApplyIsReplay(Tables.TABLES[code], call.op, Machine.Focus(st, code, call.cursor));
    }
  }

  lemma StepRecorded(st: State, call: Call, code: Tables.TableCode, start: Tables.Store, log: Log)
    requires Machine.Valid(st) && Machine.WellFormed(call) && code in Tables.TABLES && Recorded(st, code, start, log)
    ensures Machine.Valid(Machine.Step(st, call).0)
    ensures Recorded(Machine.Step(st, call).0, code, start, Record(st, call, code, log))
  {
    Machine.StepKeepsValid(st, call);
    match call
    case Write => ReplayConcat(start, log.committed, log.pending);
    case Reset =>
    case Call(_, _, _) =>
      StepKeepsBase(st, call);
      StepIsReplay(st, call, code);
      ReplayConcat(st.base[code], log.pending, Machine.CallEdits(st, call, code));
  }

  lemma {:induction false} RunRecorded(st: State, calls: seq<Call>, code: Tables.TableCode, start: Tables.Store,
                                       log: Log)
    requires Machine.Valid(st) && Machine.AllWellFormed(calls) && code in Tables.TABLES
    requires Recorded(st, code, start, log)
    ensures Recorded(Machine.Run(st, calls).0, code, start, RecordRun(st, calls, code, log))
    decreases |calls|
  {
    if calls != [] {
      StepRecorded(st, calls[0], code, start, log);
      RunRecorded(Machine.Step(st, calls[0]).0, calls[1..], code, start, Record(st, calls[0], code, log));
    }
  }

  /**
   Publication over every run of operations, Writes and Resets from a fresh cache: base of every table is the old base
   with all published edits applied in order, and the view is that with the pending ones, which is also what an overlay
   that keeps only each key's latest edit gives: Databases.Database.Perform leaves the overlay of just these edits.
   */
  lemma PublishesInOrder(st: State, calls: seq<Call>, code: Tables.TableCode)
    requires Machine.Valid(st) && st.view == st.base && Machine.AllWellFormed(calls) && code in Tables.TABLES
    ensures
      var log := RecordRun(st, calls, code, Log([], []));
      var last := Machine.Run(st, calls).0;
      && last.base[code] == Replay(st.base[code], log.committed)
      && last.view[code] == Replay(last.base[code], log.pending) == View(last.base[code], Collect(map[], log.pending))
  {
    var log := RecordRun(st, calls, code, Log([], []));
    var base := Machine.Run(st, calls).0.base[code];
    RunRecorded(st, calls, code, st.base[code], Log([], []));
    CollectIsReplay(base, map[], log.pending);
    ViewOfNothing(base);
  }

  /** So a run leaves a table's base as it was exactly when its published edits come to nothing, in their order. */
  lemma PublishesNothingWhen(st: State, calls: seq<Call>)
    requires Machine.Valid(st) && st.view == st.base && Machine.AllWellFormed(calls)
    ensures Machine.Run(st, calls).0.base == st.base
            <==> forall code | code in Tables.TABLES ::
                   Replay(st.base[code], RecordRun(st, calls, code, Log([], [])).committed) == st.base[code]
  {
    var last := Machine.Run(st, calls).0;
    forall code | code in Tables.TABLES
      ensures last.base[code] == Replay(st.base[code], RecordRun(st, calls, code, Log([], [])).committed)
    {
      PublishesInOrder(st, calls, code);
    }
    if forall code | code in Tables.TABLES :: last.base[code] == st.base[code] {
      assert last.base == st.base;
    }
  }

  /** A corollary of the definitions: a second Write, or a Reset after a Write, changes nothing. */
  lemma WriteSettles(st: State)
    requires Machine.Valid(st)
    ensures Machine.Valid(Machine.Step(st, Machine.Write).0)
    ensures
      var written := Machine.Step(st, Machine.Write).0;
      && Machine.Step(written, Machine.Write).0 == written
      && Machine.Step(written, Machine.Reset).0 == written
      && (written.base == st.base <==> st.view == st.base)
  {
  }

  // ---------- The connection loop ----------

  /** Every Write comes when nothing has been staged since the last Reset; `clean` says that of the start. */
  predicate Shielded(calls: seq<Call>, clean: bool) {
    calls == []
    || match calls[0]
       case Reset => Shielded(calls[1..], true)
       case Write => clean && Shielded(calls[1..], true)
       case Call(_, _, op) => Shielded(calls[1..], clean && Tables.ReadOnly(op))
  }

  lemma ReadKeepsView(st: State, call: Call)
    requires Machine.Valid(st) && Machine.WellFormed(call) && Reads(call)
    ensures Machine.Step(st, call).0.view == st.view
  {
    ReadLooksAlike(st, st, call);
  }

  /** When nothing is staged no request changes base, not even a Write. */
  lemma CleanStep(st: State, call: Call)
    requires Machine.Valid(st) && Machine.WellFormed(call) && st.view == st.base
    ensures Machine.Step(st, call).0.base == st.base
  {
  }

  /** Such a run never changes base. */
  lemma {:induction false} ShieldedPublishesNothing(st: State, calls: seq<Call>, clean: bool)
    requires Machine.Valid(st) && Machine.AllWellFormed(calls)
    requires Shielded(calls, clean) && (clean ==> st.view == st.base)
    ensures Machine.Run(st, calls).0.base == st.base
    decreases |calls|
  {
    if calls != [] {
      var call := calls[0];
      Machine.StepKeepsValid(st, call);
      var next := Machine.Step(st, call).0;
      match call
      case Reset => ShieldedPublishesNothing(next, calls[1..], true);
      case Write => ShieldedPublishesNothing(next, calls[1..], true);
      case Call(_, _, op) =>
        StepKeepsBase(st, call);
        if Tables.ReadOnly(op) {
          ReadKeepsView(st, call);
        }
        ShieldedPublishesNothing(next, calls[1..], clean && Tables.ReadOnly(op));
    }
  }

  /** What connections perform that start a fresh cache before every request and are served one request at a time. */
  function Served(calls: seq<Call>): seq<Call> {
    if calls == [] then [] else [Machine.Reset, calls[0]] + Served(calls[1..])
  }

  lemma ShieldedPair(call: Call, rest: seq<Call>, clean: bool)
    requires Machine.WellFormed(call) && Machine.AllWellFormed(rest)
    requires Shielded(rest, if call.Call? then Tables.ReadOnly(call.op) else true)
    ensures Machine.AllWellFormed([Machine.Reset, call] + rest)
    ensures Shielded([Machine.Reset, call] + rest, clean)
  {
  }

  lemma {:induction false} ServedShielded(calls: seq<Call>, clean: bool)
    requires Machine.AllWellFormed(calls)
    ensures Machine.AllWellFormed(Served(calls)) && Shielded(Served(calls), clean)
  {
    if calls != [] {
      var after := if calls[0].Call? then Tables.ReadOnly(calls[0].op) else true;
      assert calls[0] in calls;
      ServedShielded(calls[1..], after);
      ShieldedPair(calls[0], Served(calls[1..]), clean);
    }
  }

  /** Requests served like that never change base: each Write finds nothing staged. */
  lemma ServedPublishesNothing(st: State, calls: seq<Call>)
    requires Machine.Valid(st) && Machine.AllWellFormed(calls)
    ensures Machine.AllWellFormed(Served(calls))
    ensures Machine.Run(st, Served(calls)).0.base == st.base
  {
    ServedShielded(calls, false);
    ShieldedPublishesNothing(st, Served(calls), false);
  }

  /** The operations themselves do publish: without the resets a Put and a Write change base. */
  lemma UnservedPublishes(st: State, code: Tables.TableCode, id: Tables.CursorID, key: Bytes, value: Bytes)
    requires Machine.Valid(st) && code in Tables.TABLES && |key| == Tables.TABLES[code].EntryBytes()
    ensures
      var calls := [Machine.Call(code, id, Tables.Put(key, value)), Machine.Write];
      Machine.AllWellFormed(calls) && Machine.Run(st, calls).0.base == st.view[code := st.view[code][key := value]]
  {
    Machine.RunOfTwo(st, Machine.Call(code, id, Tables.Put(key, value)), Machine.Write);
  }

  /**
   Two connections share one cache. Both have started it afresh and wait for a request; each request marks the committed
   accounts before it is served, the second to no effect. If a Write of one falls between a Put of the other and its
   next fresh cache, the entry is published.
   */
  lemma RacePublishes(st: State, code: Tables.TableCode, id: Tables.CursorID, key: Bytes, value: Bytes)
    requires Machine.Valid(st) && code in Tables.TABLES && |key| == Tables.TABLES[code].EntryBytes()
    ensures
      var put := Machine.Call(code, id, Tables.Put(key, value));
      var marked := Machine.Fresh(Machine.Step(st, Machine.Reset).0);
      && Machine.Valid(Machine.Step(st, Machine.Reset).0) && Machine.Valid(marked) && marked == Machine.Fresh(st)
      && var staged := Machine.Step(marked, put).0;
      && Machine.Valid(staged) && Machine.Marked(staged.base) == staged.base
      && Machine.Step(staged, Machine.Write).0.base
         == Machine.Marked(st.base)[code := Machine.Marked(st.base)[code][key := value]]
  {
    var put := Machine.Call(code, id, Tables.Put(key, value));
    Machine.StepKeepsValid(st, Machine.Reset);
    Machine.FreshIsValid(st);
    Machine.MarkedTwice(st.base);
    StepKeepsBase(Machine.Fresh(st), put);
    UnservedPublishes(Machine.Fresh(st), code, id, key, value);
    Machine.RunOfTwo(Machine.Fresh(st), put, Machine.Write);
    Machine.StepKeepsValid(Machine.Fresh(st), put);
  }

  // ---------- Cursors over read-only runs ----------

  /** Every cursor is used with one table, and every set cursor stands on a committed entry of it. */
  predicate OnEntries(st: State, owner: map<Tables.CursorID, Tables.TableCode>) {
    forall id | id in st.cursors :: id in owner && owner[id] in st.base && st.cursors[id] in st.base[owner[id]]
  }

  /** Get takes no cursor, whatever cursor id stands in the call. */
  predicate Owned(calls: seq<Call>, owner: map<Tables.CursorID, Tables.TableCode>) {
    forall call | call in calls ::
      Reads(call) && (call.op.Get? || (call.cursor in owner && owner[call.cursor] == call.code))
  }

  /** A read is a cursor assignment and nothing else. */
  lemma ReadMovesOneCursor(st: State, call: Call) returns (cur: Option<Bytes>)
    requires Machine.Valid(st) && Machine.WellFormed(call) && Reads(call) && call.code in Tables.TABLES
    ensures Machine.Step(st, call).0 == st.(cursors := Machine.SetCursor(st.cursors, call.cursor, cur))
    ensures cur == None || cur.value in st.base[call.code]
            || (call.cursor in st.cursors && cur.value == st.cursors[call.cursor])
  {
    var t := Machine.Focus(st, call.code, call.cursor);
    Machine.FocusFits(st, call.code, call.cursor);
    Flat.ReadKeeps(Tables.TABLES[call.code], call.op, t);
    Machine.Settle(st, call.code, call.cursor);
    cur := Flat.Apply(Tables.TABLES[call.code], call.op, t).table.cur;
  }

  lemma GetMovesNothing(st: State, call: Call)
    requires Machine.Valid(st) && Machine.WellFormed(call) && call.Call? && call.op.Get?
    ensures Machine.Step(st, call).0 == st
  {
    if call.code in Tables.TABLES {
      Machine.Settle(st, call.code, call.cursor);
    }
  }

  lemma SetCursorKeepsOnEntries(st: State, id: Tables.CursorID, cur: Option<Bytes>,
                                owner: map<Tables.CursorID, Tables.TableCode>)
    requires OnEntries(st, owner) && id in owner && owner[id] in st.base
    requires cur == None || cur.value in st.base[owner[id]]
    ensures OnEntries(st.(cursors := Machine.SetCursor(st.cursors, id, cur)), owner)
    ensures Machine.SetCursor(st.cursors, id, cur) - {id} == st.cursors - {id}
  {
  }

  /** One read keeps set cursors on entries, and leaves everything but its own cursor as it was. */
  lemma ReadKeepsCursors(st: State, call: Call, owner: map<Tables.CursorID, Tables.TableCode>)
    requires Machine.Valid(st) && Machine.WellFormed(call) && OnEntries(st, owner) && Owned([call], owner)
    ensures call.Call?
    ensures
      var next := Machine.Step(st, call).0;
      && OnEntries(next, owner)
      && next.base == st.base && next.view == st.view
      && next.cursors - {call.cursor} == st.cursors - {call.cursor}
  {
    assert call in [call];
    if call.op.Get? {
      GetMovesNothing(st, call);
    } else if call.code in Tables.TABLES {
      var cur := ReadMovesOneCursor(st, call);
      SetCursorKeepsOnEntries(st, call.cursor, cur, owner);
    }
  }

  /** So does every run of reads; from any state it reaches, Next never skips an entry. */
  lemma {:induction false} ReadRunKeepsCursors(st: State, calls: seq<Call>,
                                               owner: map<Tables.CursorID, Tables.TableCode>)
    requires Machine.Valid(st) && Machine.AllWellFormed(calls) && OnEntries(st, owner) && Owned(calls, owner)
    ensures
      var last := Machine.Run(st, calls).0;
      && OnEntries(last, owner)
      && last.base == st.base && last.view == st.view
      && (forall id | id in last.cursors && owner[id] in Tables.TABLES ::
            var t := Machine.Focus(last, owner[id], id);
            Flat.Next(t) == Flat.MoveTo(t, Least(After(t.base.Keys, last.cursors[id]))))
    decreases |calls|
  {
    if calls == [] {
      forall id | id in st.cursors && owner[id] in Tables.TABLES
        ensures
          var t := Machine.Focus(st, owner[id], id);
          Flat.Next(t) == Flat.MoveTo(t, Least(After(t.base.Keys, st.cursors[id])))
      {
        Scans.NextIsSuccessorWhen(Machine.Focus(st, owner[id], id), st.cursors[id]);
      }
    } else {
      assert calls[0] in calls;
      ReadKeepsCursors(st, calls[0], owner);
      Machine.StepKeepsValid(st, calls[0]);
      ReadRunKeepsCursors(Machine.Step(st, calls[0]).0, calls[1..], owner);
    }
  }
}
