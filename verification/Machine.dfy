/** The whole database as a state machine over calls, with staging seen as one edited copy of every table. */
module Machine {
  import opened Wrappers
  import opened ByteStrings
  import OrderedKeys
  import Tables
  import Flat
  import Overlay

  type Store = Tables.Store
  type TableCode = Tables.TableCode
  type CursorID = Tables.CursorID

  /** `cursors` is shared by all tables: an id is not tied to the table it was last used with. */
  datatype State = State(base: map<TableCode, Store>, view: map<TableCode, Store>, cursors: map<CursorID, Bytes>)

  /** Reset is a fresh cache over the committed stores. */
  datatype Call = Call(code: TableCode, cursor: CursorID, op: Tables.Op) | Write | Reset

  predicate Valid(st: State) {
    && st.base.Keys == st.view.Keys == Tables.TABLES.Keys
    && (forall code | code in Tables.TABLES ::
          Flat.WellKeyed(Tables.TABLES[code], st.base[code]) && Flat.WellKeyed(Tables.TABLES[code], st.view[code]))
  }

  predicate WellFormed(call: Call) {
    call.Call? && call.code in Tables.TABLES ==> Tables.Sized(Tables.TABLES[call.code], call.op)
  }

  predicate AllWellFormed(calls: seq<Call>) {
    forall call | call in calls :: WellFormed(call)
  }

  // ---------- One call ----------

  function Focus(st: State, code: TableCode, id: CursorID): Flat.Table
    requires code in st.base && code in st.view
  {
    Flat.Table(st.base[code], st.view[code], if id in st.cursors then Some(st.cursors[id]) else None)
  }

  function SetCursor(cursors: map<CursorID, Bytes>, id: CursorID, cur: Option<Bytes>): map<CursorID, Bytes> {
    match cur
    case None => cursors - {id}
    case Some(k) => cursors[id := k]
  }

  function Replace(st: State, code: TableCode, id: CursorID, t: Flat.Table): State {
    st.(view := st.view[code := t.view], cursors := SetCursor(st.cursors, id, t.cur))
  }

  lemma FocusFits(st: State, code: TableCode, id: CursorID)
    requires Valid(st) && code in Tables.TABLES
    ensures Flat.Fits(Tables.TABLES[code], Focus(st, code, id))
  {
  }

  /** The state and reply that an operation on one table leaves behind. */
  function Land(st: State, code: TableCode, id: CursorID, outcome: Flat.Outcome): (State, Tables.Reply) {
    (Replace(st, code, id, outcome.table), outcome.reply)
  }

  lemma ViewKeepsValid(st: State, code: TableCode, store: Store)
    requires Valid(st) && code in Tables.TABLES && Flat.WellKeyed(Tables.TABLES[code], store)
    ensures Valid(st.(view := st.view[code := store]))
  {
  }

  /** Putting a table and a cursor back as they were changes nothing. */
  lemma Settle(st: State, code: TableCode, id: CursorID)
    requires code in st.base && code in st.view
    ensures st.view[code := st.view[code]] == st.view
    ensures SetCursor(st.cursors, id, Focus(st, code, id).cur) == st.cursors
    ensures Replace(st, code, id, Focus(st, code, id)) == st
  {
  }

  function Step(st: State, call: Call): (State, Tables.Reply)
    requires Valid(st) && WellFormed(call)
  {
    match call
    case Write => (st.(base := st.view), Tables.Done)
    case Reset => (st.(view := st.base), Tables.Done)
    case Call(code, id, op) =>
      if code !in Tables.TABLES then (st, Tables.Failed(Tables.TableNotFound))
      else
        Land(st, code, id, Flat.Apply(Tables.TABLES[code], op, Focus(st, code, id)))
  }

  /** What a call stages in one table. */
  function CallEdits(st: State, call: Call, code: TableCode): seq<Overlay.Edit>
    requires Valid(st) && WellFormed(call) && code in Tables.TABLES
  {
    if call.Call? && call.code == code then
      Flat.Apply(Tables.TABLES[code], call.op, Focus(st, code, call.cursor)).edits
    else []
  }

  lemma StepKeepsValid(st: State, call: Call)
    requires Valid(st) && WellFormed(call)
    ensures Valid(Step(st, call).0)
  {
    if call.Call? && call.code in Tables.TABLES {
      Flat.ApplyFits(Tables.TABLES[call.code], call.op, Focus(st, call.code, call.cursor));
    }
  }

  // ---------- The committed write of the connection loop ----------

  function WithMark(accounts: Store): Store {
    accounts[Tables.DEBUG_KEY := Tables.DEBUG_VALUE]
  }

  /** The committed stores once the connection loop has set its own key in the accounts store. */
  function Marked(base: map<TableCode, Store>): map<TableCode, Store> {
    map code | code in base :: if code == Tables.HASHED_ACCOUNTS then WithMark(base[code]) else base[code]
  }

  lemma MarkKeepsKeys(base: map<TableCode, Store>)
    requires Tables.HASHED_ACCOUNTS in base
    ensures Marked(base) == base[Tables.HASHED_ACCOUNTS := WithMark(base[Tables.HASHED_ACCOUNTS])]
  {
  }

  /** The key {1} of table 0 holds {1}, and every other entry of every table is as it was. */
  ghost predicate OnlyMarkAdded(before: map<TableCode, Store>, after: map<TableCode, Store>) {
    var key: Bytes, value: Bytes := [1], [1];
    && after.Keys == before.Keys
    && (0 in before ==> key in after[0] && after[0][key] == value)
    && (forall code, k | code in before && !(code == 0 && k == key) :: k in after[code] <==> k in before[code])
    && (forall code, k | code in before && !(code == 0 && k == key) && k in before[code] ::
          after[code][k] == before[code][k])
  }

  lemma MarkedOnlyAdds(base: map<TableCode, Store>)
    ensures OnlyMarkAdded(base, Marked(base))
  {
  }

  lemma MarkedTwice(base: map<TableCode, Store>)
    ensures Marked(Marked(base)) == Marked(base)
  {
    if Tables.HASHED_ACCOUNTS in base {
      var accounts := base[Tables.HASHED_ACCOUNTS];
      assert WithMark(WithMark(accounts)) == WithMark(accounts);
    }
  }

  /** A fresh cache over the marked stores: how every frame finds the database. */
  function Fresh(st: State): State
    requires Valid(st)
  {
    st.(base := Marked(st.base), view := Marked(st.base))
  }

  lemma FreshIsValid(st: State)
    requires Valid(st)
    ensures Valid(Fresh(st))
  {
  }

  // ---------- Runs ----------

  function Run(st: State, calls: seq<Call>): (r: (State, seq<Tables.Reply>))
    requires Valid(st) && AllWellFormed(calls)
    ensures Valid(r.0) && |r.1| == |calls|
    decreases |calls|
  {
    if calls == [] then (st, [])
    else
      StepKeepsValid(st, calls[0]);
      var (next, reply) := Step(st, calls[0]);
      var (last, replies) := Run(next, calls[1..]);
      (last, [reply] + replies)
  }

  lemma RunCons(st: State, call: Call, rest: seq<Call>)
    requires Valid(st) && WellFormed(call) && AllWellFormed(rest)
    ensures AllWellFormed([call] + rest) && Valid(Step(st, call).0)
    ensures
      var (next, reply) := Step(st, call);
      Run(st, [call] + rest) == (Run(next, rest).0, [reply] + Run(next, rest).1)
  {
    StepKeepsValid(st, call);
    assert ([call] + rest)[1..] == rest;
  }

  lemma RunOfOne(st: State, a: Call)
    requires Valid(st) && WellFormed(a)
    ensures AllWellFormed([a]) && Valid(Step(st, a).0)
    ensures Run(st, [a]) == (Step(st, a).0, [Step(st, a).1])
  {
    RunCons(st, a, []);
    assert [a] + [] == [a];
    var (next, reply) := Step(st, a);
    assert Run(next, []) == (next, []) && [reply] + [] == [reply];
  }

  lemma RunOfTwo(st: State, a: Call, b: Call)
    requires Valid(st) && WellFormed(a) && WellFormed(b)
    ensures AllWellFormed([a, b]) && Valid(Step(st, a).0)
    ensures
      var (mid, first) := Step(st, a);
      Run(st, [a, b]) == (Step(mid, b).0, [first, Step(mid, b).1])
  {
    RunCons(st, a, [b]);
    var (mid, first) := Step(st, a);
    RunOfOne(mid, b);
    assert [a] + [b] == [a, b] && [first] + [Step(mid, b).1] == [first, Step(mid, b).1];
  }

  lemma {:induction false} RunConcat(st: State, a: seq<Call>, b: seq<Call>)
    requires Valid(st) && AllWellFormed(a) && AllWellFormed(b)
    ensures AllWellFormed(a + b)
    ensures Run(st, a + b).0 == Run(Run(st, a).0, b).0
    ensures Run(st, a + b).1 == Run(st, a).1 + Run(Run(st, a).0, b).1
    decreases |a|
  {
    if a == [] {
      assert a + b == b;
      assert [] + Run(st, b).1 == Run(st, b).1;
    } else {
      assert (a + b)[1..] == a[1..] + b;
      StepKeepsValid(st, a[0]);
      var (next, reply) := Step(st, a[0]);
      RunConcat(next, a[1..], b);
      OrderedKeys.Regroup(reply, Run(next, a[1..]).1, Run(Run(next, a[1..]).0, b).1);
    }
  }
}
