/**
 The whole database with dup-sorted tables held as nested groups and regular ones as sorted lists, and the proof that
 every run of the flat database is a run of this one.
 */
module GroupedMachine {
  import opened Wrappers
  import opened ByteStrings
  import opened Nesting
  import Tables
  import Flat
  import Listed
  import Listing
  import Nested
  import Refinement
  import Machine

  type TableCode = Tables.TableCode
  type CursorID = Tables.CursorID

  datatype Content = Sorted(entries: Listed.List) | Grouped(groups: Groups)

  datatype State = State(base: map<TableCode, Content>, view: map<TableCode, Content>, cursors: map<CursorID, Bytes>)

  predicate ValidContent(info: Tables.TableInfo, c: Content) {
    if info.dupSorted then c.Grouped? && Nested.Keyed(c.groups, info.keyBytes)
    else c.Sorted? && Listed.Sorted(c.entries)
  }

  predicate Valid(st: State) {
    && st.base.Keys == st.view.Keys == Tables.TABLES.Keys
    && (forall code | code in Tables.TABLES ::
          ValidContent(Tables.TABLES[code], st.base[code]) && ValidContent(Tables.TABLES[code], st.view[code]))
  }

  function Cursor(st: State, id: CursorID): Option<Bytes> {
    if id in st.cursors then Some(st.cursors[id]) else None
  }

  /** The cursors once one of them has been set or unset. */
  function Point(cursors: map<CursorID, Bytes>, id: CursorID, cur: Option<Bytes>): map<CursorID, Bytes> {
    map k | k in cursors.Keys + {id} && (k == id ==> cur.Some?) :: if k == id then cur.value else cursors[k]
  }

  lemma PointIsSetCursor(cursors: map<CursorID, Bytes>, id: CursorID, cur: Option<Bytes>)
    ensures Point(cursors, id, cur) == Machine.SetCursor(cursors, id, cur)
  {
  }

  /** The operation on one table: nested groups for a dup-sorted table, a sorted list for a regular one. */
  function Operate(info: Tables.TableInfo, op: Tables.Op, base: Content, view: Content, cur: Option<Bytes>)
    : (Content, Option<Bytes>, Tables.Reply)
    requires ValidContent(info, base) && ValidContent(info, view) && Tables.Sized(info, op)
  {
    if info.dupSorted then
      var outcome := Nested.Apply(info, op, Nested.Table(base.groups, view.groups, cur));
      (Grouped(outcome.table.view), outcome.table.cur, outcome.reply)
    else
      var outcome := Listed.Apply(info, op, Listed.Table(base.entries, view.entries, cur));
      (Sorted(outcome.table.view), outcome.table.cur, outcome.reply)
  }

  lemma OperateKeepsValid(info: Tables.TableInfo, op: Tables.Op, base: Content, view: Content, cur: Option<Bytes>)
    requires ValidContent(info, base) && ValidContent(info, view) && Tables.Sized(info, op)
    ensures ValidContent(info, Operate(info, op, base, view, cur).0)
  {
    if info.dupSorted {
      Nested.ApplyKeepsOk(info, op, Nested.Table(base.groups, view.groups, cur));
    } else {
      Listed.ApplyKeepsSorted(info, op, Listed.Table(base.entries, view.entries, cur));
    }
  }

  function Step(st: State, call: Machine.Call): (State, Tables.Reply)
    requires Valid(st) && Machine.WellFormed(call)
  {
    match call
    case Write => (st.(base := st.view), Tables.Done)
    case Reset => (st.(view := st.base), Tables.Done)
    case Call(code, id, op) =>
      if code !in Tables.TABLES then (st, Tables.Failed(Tables.TableNotFound))
      else
        var (view, cur, reply) := Operate(Tables.TABLES[code], op, st.base[code], st.view[code], Cursor(st, id));
        (st.(view := st.view[code := view], cursors := Point(st.cursors, id, cur)), reply)
  }

  lemma StepKeepsValid(st: State, call: Machine.Call)
    requires Valid(st) && Machine.WellFormed(call)
    ensures Valid(Step(st, call).0)
  {
    if call.Call? && call.code in Tables.TABLES {
      OperateKeepsValid(Tables.TABLES[call.code], call.op, st.base[call.code], st.view[call.code],
                        Cursor(st, call.cursor));
    }
  }

  function Run(st: State, calls: seq<Machine.Call>): (r: (State, seq<Tables.Reply>))
    requires Valid(st) && Machine.AllWellFormed(calls)
    decreases |calls|
  {
    if calls == [] then (st, [])
    else
      StepKeepsValid(st, calls[0]);
      var (next, reply) := Step(st, calls[0]);
      var (last, replies) := Run(next, calls[1..]);
      (last, [reply] + replies)
  }

  // ---------- The abstraction ----------

  function Abstract(info: Tables.TableInfo, s: Store): Content {
    if info.dupSorted then Grouped(Nest(s, info.keyBytes)) else Sorted(Listing.ListOf(s))
  }

  function AbstractAll(stores: map<TableCode, Store>): map<TableCode, Content>
    requires stores.Keys == Tables.TABLES.Keys
  {
    map code | code in stores :: Abstract(Tables.TABLES[code], stores[code])
  }

  function AbstractState(st: Machine.State): State
    requires Machine.Valid(st)
  {
    State(AbstractAll(st.base), AbstractAll(st.view), st.cursors)
  }

  lemma AbstractValid(info: Tables.TableInfo, s: Store)
    requires Flat.WellKeyed(info, s)
    ensures ValidContent(info, Abstract(info, s))
  {
    if info.dupSorted {
      NestRepresents(s, info.keyBytes);
    } else {
      Listing.ListRepresents(s);
    }
  }

  lemma AbstractStateValid(st: Machine.State)
    requires Machine.Valid(st)
    ensures Valid(AbstractState(st))
  {
    forall code | code in Tables.TABLES
      ensures ValidContent(Tables.TABLES[code], AbstractState(st).base[code])
      ensures ValidContent(Tables.TABLES[code], AbstractState(st).view[code])
    {
      AbstractValid(Tables.TABLES[code], st.base[code]);
      AbstractValid(Tables.TABLES[code], st.view[code]);
    }
  }

  /** The abstraction of a dup-sorted table. */
  function NestedTable(info: Tables.TableInfo, t: Flat.Table): Nested.Table {
    Nested.Table(Nest(t.base, info.keyBytes), Nest(t.view, info.keyBytes), t.cur)
  }

  lemma NestedReady(info: Tables.TableInfo, t: Flat.Table)
    requires Flat.Fits(info, t) && info.dupSorted
    ensures Refinement.Ready(info, NestedTable(info, t), t)
  {
    NestRepresents(t.base, info.keyBytes);
    NestRepresents(t.view, info.keyBytes);
  }

  lemma ApplyCommutes(info: Tables.TableInfo, op: Tables.Op, t: Flat.Table)
    requires Flat.Fits(info, t) && Tables.Sized(info, op) && info.dupSorted
    ensures Nested.Ok(NestedTable(info, t), info.keyBytes)
    ensures
      var after := Flat.Apply(info, op, t);
      var nested := Nested.Apply(info, op, NestedTable(info, t));
      nested.table.view == Nest(after.table.view, info.keyBytes)
      && nested.table.cur == after.table.cur && nested.reply == after.reply
  {
    var n := NestedTable(info, t);
    NestedReady(info, t);
    Refinement.ApplyAgrees(info, op, n, t);
    Flat.ApplyFits(info, op, t);
    var after := Flat.Apply(info, op, t).table.view;
    NestRepresents(after, info.keyBytes);
    RepresentsUnique(Nested.Apply(info, op, n).table.view, Nest(after, info.keyBytes), after, info.keyBytes);
  }

  /** The abstraction of a regular table. */
  function ListedTable(t: Flat.Table): Listed.Table {
    Listed.Table(Listing.ListOf(t.base), Listing.ListOf(t.view), t.cur)
  }

  lemma ListCommutes(info: Tables.TableInfo, op: Tables.Op, t: Flat.Table)
    requires Flat.Fits(info, t) && Tables.Sized(info, op) && !info.dupSorted
    ensures
      var after := Flat.Apply(info, op, t);
      var listed := Listed.Apply(info, op, ListedTable(t));
      listed.table.view == Listing.ListOf(after.table.view)
      && listed.table.cur == after.table.cur && listed.reply == after.reply
  {
    var n := ListedTable(t);
    Listing.ListRepresents(t.base);
    Listing.ListRepresents(t.view);
    Listing.ApplyAgrees(info, op, n, t);
    var after := Flat.Apply(info, op, t).table.view;
    Listing.ListRepresents(after);
    Listing.RepresentsUnique(Listed.Apply(info, op, n).table.view, Listing.ListOf(after), after);
  }

  /** One operation commutes with the abstraction. */
  lemma OperateCommutes(info: Tables.TableInfo, op: Tables.Op, t: Flat.Table)
    requires Flat.Fits(info, t) && Tables.Sized(info, op)
    ensures ValidContent(info, Abstract(info, t.base)) && ValidContent(info, Abstract(info, t.view))
    ensures
      var after := Flat.Apply(info, op, t);
      Operate(info, op, Abstract(info, t.base), Abstract(info, t.view), t.cur)
      == (Abstract(info, after.table.view), after.table.cur, after.reply)
  {
    AbstractValid(info, t.base);
    AbstractValid(info, t.view);
    if info.dupSorted {
      ApplyCommutes(info, op, t);
    } else {
      ListCommutes(info, op, t);
    }
  }

  lemma AbstractUpdate(stores: map<TableCode, Store>, code: TableCode, s: Store)
    requires stores.Keys == Tables.TABLES.Keys && code in stores
    ensures AbstractAll(stores[code := s]) == AbstractAll(stores)[code := Abstract(Tables.TABLES[code], s)]
  {
  }

  /** One call commutes with the abstraction, and gets the same reply. */
  lemma StepCommutes(st: Machine.State, call: Machine.Call)
    requires Machine.Valid(st) && Machine.WellFormed(call)
    ensures Valid(AbstractState(st)) && Machine.Valid(Machine.Step(st, call).0)
    ensures Step(AbstractState(st), call)
         == (AbstractState(Machine.Step(st, call).0), Machine.Step(st, call).1)
  {
    AbstractStateValid(st);
    Machine.StepKeepsValid(st, call);
    if call.Call? && call.code in Tables.TABLES {
      var info, t := Tables.TABLES[call.code], Machine.Focus(st, call.code, call.cursor);
      Machine.FocusFits(st, call.code, call.cursor);
      OperateCommutes(info, call.op, t);
      PointIsSetCursor(st.cursors, call.cursor, Flat.Apply(info, call.op, t).table.cur);
      AbstractUpdate(st.view, call.code, Flat.Apply(info, call.op, t).table.view);
    }
  }

  /** Every run of the flat database is, reply for reply, the run of this one. */
  lemma {:induction false} RunCommutes(st: Machine.State, calls: seq<Machine.Call>)
    requires Machine.Valid(st) && Machine.AllWellFormed(calls)
    ensures Valid(AbstractState(st))
    ensures Run(AbstractState(st), calls) == (AbstractState(Machine.Run(st, calls).0), Machine.Run(st, calls).1)
    decreases |calls|
  {
    AbstractStateValid(st);
    if calls != [] {
      StepCommutes(st, calls[0]);
      RunCommutes(Machine.Step(st, calls[0]).0, calls[1..]);
    }
  }
}
