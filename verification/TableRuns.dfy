/** Runs of operations on one table through one cursor. */
module TableRuns {
  import Tables
  import Flat
  import Machine

  type Op = Tables.Op
  type Reply = Tables.Reply
  type Table = Flat.Table
  type TableInfo = Tables.TableInfo

  predicate AllSized(info: TableInfo, ops: seq<Op>) {
    forall op | op in ops :: Tables.Sized(info, op)
  }

  function Perform(info: TableInfo, t: Table, ops: seq<Op>): (r: (Table, seq<Reply>))
    requires Flat.Fits(info, t) && AllSized(info, ops)
    ensures Flat.Fits(info, r.0) && |r.1| == |ops|
    decreases |ops|
  {
    if ops == [] then (t, [])
    else
      Flat.ApplyFits(info, ops[0], t);
      var outcome := Flat.Apply(info, ops[0], t);
      var (last, replies) := Perform(info, outcome.table, ops[1..]);
      (last, [outcome.reply] + replies)
  }

  lemma PerformCons(info: TableInfo, t: Table, op: Op, ops: seq<Op>)
    requires Flat.Fits(info, t) && Tables.Sized(info, op) && AllSized(info, ops)
    ensures AllSized(info, [op] + ops) && Flat.Fits(info, Flat.Apply(info, op, t).table)
    ensures Perform(info, t, [op] + ops).0 == Perform(info, Flat.Apply(info, op, t).table, ops).0
    ensures Perform(info, t, [op] + ops).1
         == [Flat.Apply(info, op, t).reply] + Perform(info, Flat.Apply(info, op, t).table, ops).1
  {
    Flat.ApplyFits(info, op, t);
    assert ([op] + ops)[1..] == ops;
  }

  function Repeat(op: Op, n: nat): (ops: seq<Op>)
    ensures |ops| == n && forall o | o in ops :: o == op
  {
    if n == 0 then [] else [op] + Repeat(op, n - 1)
  }

  function Times(reply: Reply, n: nat): (r: seq<Reply>)
    ensures |r| == n
  {
    if n == 0 then [] else [reply] + Times(reply, n - 1)
  }

  // ---------- The same run on the whole database ----------

  function Calls(code: Tables.TableCode, id: Tables.CursorID, ops: seq<Op>): (calls: seq<Machine.Call>)
    ensures |calls| == |ops| && forall i | 0 <= i < |ops| :: calls[i] == Machine.Call(code, id, ops[i])
  {
    seq(|ops|, i requires 0 <= i < |ops| => Machine.Call(code, id, ops[i]))
  }

  lemma CallsWellFormed(code: Tables.TableCode, id: Tables.CursorID, ops: seq<Op>)
    requires code in Tables.TABLES && AllSized(Tables.TABLES[code], ops)
    ensures Machine.AllWellFormed(Calls(code, id, ops))
  {
  }

  lemma FocusOfLand(st: Machine.State, code: Tables.TableCode, id: Tables.CursorID, outcome: Flat.Outcome)
    requires Machine.Valid(st) && code in Tables.TABLES && outcome.table.base == st.base[code]
    ensures
      var (next, reply) := Machine.Land(st, code, id, outcome);
      && next.base == st.base && next.view.Keys == st.view.Keys
      && Machine.Focus(next, code, id) == outcome.table
      && reply == outcome.reply
  {
  }

  lemma FocusOfStep(st: Machine.State, code: Tables.TableCode, id: Tables.CursorID, op: Op)
    requires Machine.Valid(st) && code in Tables.TABLES && Tables.Sized(Tables.TABLES[code], op)
    ensures
      var outcome := Flat.Apply(Tables.TABLES[code], op, Machine.Focus(st, code, id));
      var (next, reply) := Machine.Step(st, Machine.Call(code, id, op));
      && Machine.Valid(next)
      && Machine.Focus(next, code, id) == outcome.table
      && reply == outcome.reply
      && next.base == st.base
  {
    Machine.StepKeepsValid(st, Machine.Call(code, id, op));
    Machine.FocusFits(st, code, id);
    var t := Machine.Focus(st, code, id);
    Flat.ApplyKeepsBase(Tables.TABLES[code], op, t);
    FocusOfLand(st, code, id, Flat.Apply(Tables.TABLES[code], op, t));
  }

  /** A run through one cursor of one table sees only that table and that cursor. */
  lemma {:induction false} RunOnOneTable(st: Machine.State, code: Tables.TableCode, id: Tables.CursorID, ops: seq<Op>)
    requires Machine.Valid(st) && code in Tables.TABLES && AllSized(Tables.TABLES[code], ops)
    ensures Machine.AllWellFormed(Calls(code, id, ops))
    ensures
      var (last, replies) := Machine.Run(st, Calls(code, id, ops));
      && Machine.Valid(last) && last.base == st.base
      && (Machine.Focus(last, code, id), replies)
         == Perform(Tables.TABLES[code], Machine.Focus(st, code, id), ops)
    decreases |ops|
  {
    CallsWellFormed(code, id, ops);
    Machine.FocusFits(st, code, id);
    if ops != [] {
      FocusOfStep(st, code, id, ops[0]);
      assert Calls(code, id, ops)[1..] == Calls(code, id, ops[1..]);
      RunOnOneTable(Machine.Step(st, Machine.Call(code, id, ops[0])).0, code, id, ops[1..]);
    }
  }
}
