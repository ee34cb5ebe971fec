/** Walking a dup-sorted table group by group, and the moves that leave a group. */
module GroupedScans {
  import opened Wrappers
  import opened ByteStrings
  import opened OrderedKeys
  import opened Nesting
  import opened TableRuns
  import opened Scans
  import Tables
  import Flat
  import Machine

  /** Within the group if it has a further entry, else on to the next group. */
  function GroupStep(info: TableInfo, t: Table): Flat.Outcome {
    var dup := Flat.NextDup(info, t);
    if dup.reply.Found? then dup else Flat.NextNoDup(info, t)
  }

  // ---------- Groups and what lies past them ----------

  lemma NothingBeyondMax(s: set<Bytes>, key: Bytes)
    requires AllMax(key)
    ensures Beyond(s, key) == {}
  {
    forall k | k in s ensures k !in Beyond(s, key) {
      PrefixEndOpen(key);
      PrefixEndSplits(key, k);
    }
  }

  /** Every entry of a group comes before every entry past it. */
  lemma GroupBeforeBeyond(key: Bytes, g: Bytes, k: Bytes)
    requires HasPrefix(g, key) && Below(key, k) && !HasPrefix(k, key)
    ensures Below(g, k)
  {
    PrefixEndSplits(key, k);
    PrefixRangeExact(key, g);
    var end := PrefixEnd(key).value;
    if end != k {
      BelowTransitive(g, end, k);
    }
  }

  /** The keys after c: first those of its group, then those past the group. */
  lemma AfterSplits(s: set<Bytes>, key: Bytes, c: Bytes)
    requires HasPrefix(c, key)
    ensures After(s, c) == After(Group(s, key), c) + Beyond(s, key)
    ensures Least(After(s, c)) ==
            if After(Group(s, key), c) != {} then Least(After(Group(s, key), c)) else Least(Beyond(s, key))
  {
    forall k | k in s ensures k in After(s, c) <==> k in After(Group(s, key), c) || k in Beyond(s, key) {
      if Below(c, k) && !HasPrefix(k, key) {
        PrefixAtMost(key, c);
        if key != c {
          BelowTransitive(key, c, k);
        }
      }
      if k in Beyond(s, key) {
        GroupBeforeBeyond(key, c, k);
      }
    }
    if After(Group(s, key), c) != {} {
      var m := Min(After(Group(s, key), c));
      forall k | k in After(s, c) ensures AtMost(m, k) {
        if k in Beyond(s, key) {
          GroupBeforeBeyond(key, m, k);
        }
      }
      MinIs(After(s, c), m);
    } else {
      assert After(s, c) == Beyond(s, key);
    }
  }

  lemma NextDupPresent(info: TableInfo, t: Table, c: Bytes)
    requires Flat.Fits(info, t) && info.dupSorted && t.cur == Some(c) && c in t.base
    ensures Flat.NextDup(info, t)
         == Flat.MoveTo(t, Least(After(Group(t.base.Keys, c[..info.keyBytes]), c)))
  {
    var group := Group(t.base.Keys, c[..info.keyBytes]);
    assert c in group;
    FromPresent(group, c);
  }

  // ---------- Exact conditions ----------

  /**
   NextDup is the next entry of the cursor's group, or nothing, exactly when the cursor is on an entry; on an absent key
   it passes over one, or is an error where the group has none at or above the cursor. On a cursor left by another table
   that is too short to hold a key it panics.
   */
  lemma NextDupAdvancesWhen(info: TableInfo, t: Table, c: Bytes)
    requires Flat.Fits(info, t) && info.dupSorted && t.cur == Some(c)
    ensures Flat.NextDup(info, t).reply.Panicked? <==> |c| < info.keyBytes
    ensures info.keyBytes <= |c| ==>
            var group := Group(t.base.Keys, c[..info.keyBytes]);
            && (Flat.NextDup(info, t) == Flat.MoveTo(t, Least(After(group, c))) <==> c in t.base)
            && (Flat.NextDup(info, t).reply.Failed? <==> From(group, c) == {})
  {
    if info.keyBytes <= |c| {
      var group := Group(t.base.Keys, c[..info.keyBytes]);
      if c in t.base {
        NextDupPresent(info, t, c);
      } else if From(group, c) != {} {
        assert From(group, c) == After(group, c);
        BelowIrreflexive(Min(After(group, c)));
      }
    }
  }

  /** Asked for the value only, NextDup leaves out exactly the cursor's key, and moves and fails as before. */
  lemma ValueOnlyCuts(info: TableInfo, t: Table)
    requires Flat.Fits(info, t) && info.dupSorted && t.cur.Some?
    ensures
      var full := Flat.NextDup(info, t).reply;
      var short := Flat.ValueOnly(info, t, full);
      && (full.Found? ==>
            short.Found? && info.keyBytes <= |t.cur.value| && full.data == t.cur.value[..info.keyBytes] + short.data)
      && (!full.Found? ==> short == full)
  {
    if Flat.NextDup(info, t).reply.Found? {
      var key := t.cur.value[..info.keyBytes];
      var k := Flat.NextDup(info, t).table.cur.value;
      assert HasPrefix(k, key) && k == key + k[info.keyBytes..];
      assert key + (k[info.keyBytes..] + t.base[k]) == k + t.base[k];
    }
  }

  /**
   NextNoDup reaches the next key's first entry, or nothing, exactly when the key is not all 0xFF or base is empty; on
   a cursor left by another table that is too short to hold a key it panics.
   */
  lemma NextNoDupAdvancesWhen(info: TableInfo, t: Table, c: Bytes)
    requires Flat.Fits(info, t) && info.dupSorted && t.cur == Some(c)
    ensures Flat.NextNoDup(info, t).reply.Panicked? <==> |c| < info.keyBytes
    ensures info.keyBytes <= |c| ==>
            (Flat.NextNoDup(info, t) == Flat.MoveTo(t, Least(Beyond(t.base.Keys, c[..info.keyBytes])))
             <==> !AllMax(c[..info.keyBytes]) || t.base == map[])
  {
    if info.keyBytes <= |c| && AllMax(c[..info.keyBytes]) {
      NothingBeyondMax(t.base.Keys, c[..info.keyBytes]);
      if t.base != map[] {
        var k :| k in t.base;
        assert t.base.Keys != {};
      }
    }
  }

  /**
   From a cursor on an entry, a grouped step is Next, cursor and all, exactly when the key is not all 0xFF or its
   group goes on.
   */
  lemma StepDecomposesWhen(info: TableInfo, t: Table, c: Bytes)
    requires Flat.Fits(info, t) && info.dupSorted && t.cur == Some(c) && c in t.base
    ensures GroupStep(info, t) == Flat.Next(t)
            <==> !AllMax(c[..info.keyBytes]) || After(Group(t.base.Keys, c[..info.keyBytes]), c) != {}
  {
    var key := c[..info.keyBytes];
    NextDupPresent(info, t, c);
    FromPresent(t.base.Keys, c);
    AfterSplits(t.base.Keys, key, c);
    if AllMax(key) {
      NothingBeyondMax(t.base.Keys, key);
    }
  }

  // ---------- The grouped scan ----------

  /** The replies to n moves. */
  function Walk(move: Table -> Flat.Outcome, t: Table, n: nat): seq<Reply>
    decreases n
  {
    if n == 0 then [] else [move(t).reply] + Walk(move, move(t).table, n - 1)
  }

  function GroupMove(info: TableInfo): Table -> Flat.Outcome {
    t => GroupStep(info, t)
  }

  function GroupedWalk(info: TableInfo, t: Table, n: nat): seq<Reply> {
    Walk(GroupMove(info), t, n)
  }

  function AtEntry(t: Table, r: seq<Bytes>, i: nat): Table
    requires i < |r|
  {
    t.(cur := Some(r[i]))
  }

  /** From each entry of r the move goes to the next one, and from the last it replies `end`. */
  ghost predicate Visits(move: Table -> Flat.Outcome, t: Table, r: seq<Bytes>, end: Reply) {
    forall i: nat | i < |r| ::
      if i + 1 < |r| then move(AtEntry(t, r, i)) == Flat.Outcome(AtEntry(t, r, i + 1), Entry(t.base, r[i + 1]))
      else move(AtEntry(t, r, i)).reply == end
  }

  /** From the i-th entry on such moves list the entries after it, then give the reply that ends the walk. */
  lemma {:induction false} WalkFrom(move: Table -> Flat.Outcome, t: Table, r: seq<Bytes>, i: nat, end: Reply)
    requires Visits(move, t, r, end) && i < |r|
    ensures Walk(move, AtEntry(t, r, i), |r| - i) == Upward(t.base, r, i + 1, end)
    decreases |r| - i
  {
    var at := AtEntry(t, r, i);
    assert Walk(move, at, |r| - i) == [move(at).reply] + Walk(move, move(at).table, |r| - i - 1);
    if i + 1 == |r| {
      assert Walk(move, move(at).table, 0) == [] && [end] + [] == [end];
    } else {
      WalkFrom(move, t, r, i + 1, end);
    }
  }

  /** From an entry a grouped step goes to the next one; from the last it stops, or restarts on an all-0xFF key. */
  lemma GroupStepAt(info: TableInfo, t: Table, r: seq<Bytes>, i: nat)
    requires Flat.Fits(info, t) && info.dupSorted && Lists(t.base, r) && i < |r| && t.cur == Some(r[i])
    requires r[i] in t.base && info.keyBytes <= |r[i]|
    ensures
      var target := if i + 1 < |r| then Some(r[i + 1]) else if AllMax(r[i][..info.keyBytes]) then Some(r[0]) else None;
      && (target.Some? ==> target.value in t.base)
      && GroupStep(info, t) == Flat.MoveTo(t, target)
  {
    var c := r[i];
    var key := c[..info.keyBytes];
    var ks := t.base.Keys;
    NextInSorted(r, ks, i);
    AfterSplits(ks, key, c);
    NextDupPresent(info, t, c);
    FirstAt(t, r);
    if AllMax(key) {
      NothingBeyondMax(ks, key);
    }
  }

  /** The reply to the grouped step taken from the last entry. */
  function EndReply(info: TableInfo, base: Tables.Store, r: seq<Bytes>): Reply
    requires r != [] && info.keyBytes <= |r[|r| - 1]|
  {
    if AllMax(r[|r| - 1][..info.keyBytes]) then Entry(base, r[0]) else Tables.Nothing
  }

  lemma EndIsNothingWhen(info: TableInfo, base: Tables.Store, r: seq<Bytes>)
    requires r != [] && info.keyBytes <= |r[|r| - 1]| && r[0] in base
    ensures EndReply(info, base, r) == Tables.Nothing <==> !AllMax(r[|r| - 1][..info.keyBytes])
  {
  }

  lemma GroupMoveVisits(info: TableInfo, t: Table, r: seq<Bytes>)
    requires Flat.Fits(info, t) && info.dupSorted && Lists(t.base, r) && r != []
    ensures info.keyBytes <= |r[|r| - 1]|
    ensures Visits(GroupMove(info), t, r, EndReply(info, t.base, r))
  {
    assert r[|r| - 1] in t.base;
    forall i: nat | i < |r|
      ensures
        var move, at := GroupMove(info), AtEntry(t, r, i);
        if i + 1 < |r| then move(at) == Flat.Outcome(AtEntry(t, r, i + 1), Entry(t.base, r[i + 1]))
        else move(at).reply == EndReply(info, t.base, r)
    {
      assert r[i] in t.base;
      GroupStepAt(info, AtEntry(t, r, i), r, i);
    }
  }

  lemma GroupedScanOf(info: TableInfo, t: Table, r: seq<Bytes>)
    requires Flat.Fits(info, t) && info.dupSorted && Lists(t.base, r) && r != [] && t.cur == Some(r[0])
    ensures info.keyBytes <= |r[|r| - 1]|
    ensures GroupedWalk(info, t, |r|) == Upward(t.base, r, 1, Tables.Nothing)
            <==> !AllMax(r[|r| - 1][..info.keyBytes])
  {
    GroupMoveVisits(info, t, r);
    var end := EndReply(info, t.base, r);
    WalkFrom(GroupMove(info), t, r, 0, end);
    assert AtEntry(t, r, 0) == t;
    EndIsNothingWhen(info, t.base, r);
    UpwardEnds(t.base, r, 1, end, Tables.Nothing);
  }

  lemma ListOfEntries(s: Tables.Store) returns (r: seq<Bytes>)
    requires s != map[]
    ensures s.Keys != {} && Max(s.Keys) in s && |s| > 0
    ensures r == Ascending(s.Keys) && |r| == |s| && Lists(s, r)
    ensures r[0] == Min(s.Keys) && r[|r| - 1] == Max(s.Keys)
  {
    var k :| k in s;
    assert k in s.Keys;
    r := Ascending(s.Keys);
    AscendingLists(s);
    AscendingEnds(s.Keys);
  }

  /**
   First, then grouped steps, lists every entry exactly once, in order, and then reports the end, exactly when the
   greatest key of the table is not all 0xFF.
   */
  lemma GroupedScanIsListingWhen(info: TableInfo, t: Table)
    requires Flat.Fits(info, t) && info.dupSorted && t.base != map[]
    requires t.cur == Least(t.base.Keys)
    ensures
      var ks := t.base.Keys;
      ks != {} && Max(ks) in t.base && info.keyBytes <= |Max(ks)| && |Ascending(ks)| == |t.base| > 0
      && (GroupedWalk(info, t, |t.base|) == Upward(t.base, Ascending(ks), 1, Tables.Nothing)
          <==> !AllMax(Max(ks)[..info.keyBytes]))
  {
    var r := ListOfEntries(t.base);
    assert t.cur == Some(r[0]);
    GroupedScanOf(info, t, r);
  }

  /** With an all-0xFF key in the table the grouped scan never reports an end, however long it goes on. */
  lemma {:induction false} GroupedScanNeverEnds(info: TableInfo, t: Table, r: seq<Bytes>, i: nat, n: nat)
    requires Flat.Fits(info, t) && info.dupSorted && Lists(t.base, r) && i < |r| && t.cur == Some(r[i])
    requires r[|r| - 1] in t.base && info.keyBytes <= |r[|r| - 1]| && AllMax(r[|r| - 1][..info.keyBytes])
    ensures forall reply | reply in GroupedWalk(info, t, n) :: reply.Found?
    decreases n
  {
    if n > 0 {
      GroupStepAt(info, t, r, i);
      GroupedScanNeverEnds(info, GroupStep(info, t).table, r, if i + 1 < |r| then i + 1 else 0, n - 1);
    }
  }

  // ---------- The same on the whole database ----------

  /** The calls of one turn of the client: NextDup, and NextNoDup only if that finds nothing. */
  function TurnCalls(st: Machine.State, code: Tables.TableCode, id: Tables.CursorID): (calls: seq<Machine.Call>)
    requires Machine.Valid(st)
    ensures calls != [] && Machine.AllWellFormed(calls)
  {
    var dup := Machine.Call(code, id, Tables.NextDup);
    if Machine.Step(st, dup).1.Found? then [dup] else [dup, Machine.Call(code, id, Tables.NextNoDup)]
  }

  /** One turn: the state it leaves, and the reply that ends it. */
  function Turn(st: Machine.State, code: Tables.TableCode, id: Tables.CursorID): (Machine.State, Reply)
    requires Machine.Valid(st)
  {
    var (next, replies) := Machine.Run(st, TurnCalls(st, code, id));
    (next, replies[|replies| - 1])
  }

  function TurnOf(code: Tables.TableCode, id: Tables.CursorID): Machine.State -> (Machine.State, Reply) {
    (st: Machine.State) => if Machine.Valid(st) then Turn(st, code, id) else (st, Tables.Nothing)
  }

  /** The replies that end n turns. */
  function Turns<S>(turn: S -> (S, Reply), st: S, n: nat): (r: seq<Reply>)
    ensures |r| == n
    decreases n
  {
    if n == 0 then [] else [turn(st).1] + Turns(turn, turn(st).0, n - 1)
  }

  function Answers(st: Machine.State, code: Tables.TableCode, id: Tables.CursorID, n: nat): (r: seq<Reply>)
    requires Machine.Valid(st)
    ensures |r| == n
  {
    Turns(TurnOf(code, id), st, n)
  }

  lemma NoDupFound(info: TableInfo, t: Table)
    requires Flat.Fits(info, t) && !Flat.NextDup(info, t).reply.Found?
    ensures Flat.NextDup(info, t).table == t
  {
  }

  /** A turn is one grouped step of its table. */
  lemma TurnIsGroupStep(st: Machine.State, code: Tables.TableCode, id: Tables.CursorID)
    requires Machine.Valid(st) && code in Tables.TABLES
    ensures Flat.Fits(Tables.TABLES[code], Machine.Focus(st, code, id))
    ensures
      var (next, replies) := Machine.Run(st, TurnCalls(st, code, id));
      var step := GroupStep(Tables.TABLES[code], Machine.Focus(st, code, id));
      && Machine.Valid(next)
      && Machine.Focus(next, code, id) == step.table
      && |replies| > 0 && replies[|replies| - 1] == step.reply
  {
    var info, t := Tables.TABLES[code], Machine.Focus(st, code, id);
    Machine.FocusFits(st, code, id);
    Flat.ApplyDupMoves(info, t);
    FocusOfStep(st, code, id, Tables.NextDup);
    var dup, noDup := Machine.Call(code, id, Tables.NextDup), Machine.Call(code, id, Tables.NextNoDup);
    if Machine.Step(st, dup).1.Found? {
      Machine.RunOfOne(st, dup);
    } else {
      NoDupFound(info, t);
      FocusOfStep(Machine.Step(st, dup).0, code, id, Tables.NextNoDup);
      Machine.RunOfTwo(st, dup, noDup);
    }
  }

  /** Seen through one table, the turns are moves of it. */
  ghost predicate TurnsAreMoves<S(!new)>(good: S -> bool, turn: S -> (S, Reply), see: S -> Table,
                                         move: Table -> Flat.Outcome) {
    forall st | good(st) ::
      good(turn(st).0) && see(turn(st).0) == move(see(st)).table && turn(st).1 == move(see(st)).reply
  }

  lemma {:induction false} TurnsAreWalk<S(!new)>(good: S -> bool, turn: S -> (S, Reply), see: S -> Table,
                                           move: Table -> Flat.Outcome, st: S, n: nat)
    requires TurnsAreMoves(good, turn, see, move) && good(st)
    ensures Turns(turn, st, n) == Walk(move, see(st), n)
    decreases n
  {
    if n > 0 {
      TurnsAreWalk(good, turn, see, move, turn(st).0, n - 1);
    }
  }

  function ThroughTable(code: Tables.TableCode, id: Tables.CursorID): Machine.State -> Table {
    (st: Machine.State) =>
      if code in st.base && code in st.view then Machine.Focus(st, code, id) else Flat.Table(map[], map[], None)
  }

  lemma TurnMoves(st: Machine.State, code: Tables.TableCode, id: Tables.CursorID)
    requires Machine.Valid(st) && code in Tables.TABLES
    ensures
      var (next, reply) := TurnOf(code, id)(st);
      var outcome := GroupMove(Tables.TABLES[code])(ThroughTable(code, id)(st));
      Machine.Valid(next) && ThroughTable(code, id)(next) == outcome.table && reply == outcome.reply
  {
    TurnIsGroupStep(st, code, id);
  }

  lemma AllTurnsMove(code: Tables.TableCode, id: Tables.CursorID)
    requires code in Tables.TABLES
    ensures TurnsAreMoves((st: Machine.State) => Machine.Valid(st), TurnOf(code, id), ThroughTable(code, id),
                          GroupMove(Tables.TABLES[code]))
  {
    forall st | Machine.Valid(st)
      ensures
        var (next, reply) := TurnOf(code, id)(st);
        var outcome := GroupMove(Tables.TABLES[code])(ThroughTable(code, id)(st));
        Machine.Valid(next) && ThroughTable(code, id)(next) == outcome.table && reply == outcome.reply
    {
      TurnMoves(st, code, id);
    }
  }

  lemma AnswersAreWalk(st: Machine.State, code: Tables.TableCode, id: Tables.CursorID, n: nat)
    requires Machine.Valid(st) && code in Tables.TABLES
    ensures Answers(st, code, id, n) == GroupedWalk(Tables.TABLES[code], Machine.Focus(st, code, id), n)
  {
    AllTurnsMove(code, id);
    TurnsAreWalk((st: Machine.State) => Machine.Valid(st), TurnOf(code, id), ThroughTable(code, id),
                 GroupMove(Tables.TABLES[code]), st, n);
  }

  /** First on a table that is not empty: the least entry, with the cursor on it. */
  lemma StartsAtLeast(st: Machine.State, code: Tables.TableCode, id: Tables.CursorID)
    requires Machine.Valid(st) && code in Tables.TABLES && st.base[code] != map[]
    ensures
      var ks := st.base[code].Keys;
      var (start, reply) := Machine.Step(st, Machine.Call(code, id, Tables.First));
      && ks != {} && Machine.Valid(start) && start.base == st.base
      && Machine.Focus(start, code, id).cur == Least(ks)
      && reply == Entry(st.base[code], Min(ks))
  {
    var k :| k in st.base[code];
    assert k in st.base[code].Keys;
    FocusOfStep(st, code, id, Tables.First);
  }

  lemma EmptyScan(st: Machine.State, code: Tables.TableCode, id: Tables.CursorID)
    requires Machine.Valid(st) && code in Tables.TABLES && st.base[code] == map[]
    ensures
      var s := st.base[code];
      var (start, reply) := Machine.Step(st, Machine.Call(code, id, Tables.First));
      && Machine.Valid(start) && |Ascending(s.Keys)| == 0
      && [reply] + Answers(start, code, id, 0) == Upward(s, Ascending(s.Keys), 0, Tables.Nothing)
  {
    Machine.FocusFits(st, code, id);
    FocusOfStep(st, code, id, Tables.First);
    assert st.base[code].Keys == {};
    assert [Tables.Nothing] + [] == [Tables.Nothing];
  }

  /** The greatest key part is all 0xFF exactly when some key part is. */
  lemma GreatestIsMax(s: Tables.Store, keyBytes: nat)
    requires s.Keys != {} && forall k | k in s :: keyBytes <= |k|
    ensures Max(s.Keys) in s
    ensures AllMax(Max(s.Keys)[..keyBytes]) <==> exists k :: k in s && AllMax(k[..keyBytes])
  {
    var g := Max(s.Keys);
    assert g in s;
    forall k | k in s && AllMax(k[..keyBytes]) ensures k[..keyBytes] == g[..keyBytes] {
      SplitOrder(k, g, keyBytes);
      MaxIsTop(k[..keyBytes], g[..keyBytes]);
      if Below(k[..keyBytes], g[..keyBytes]) {
        BelowAsymmetric(k[..keyBytes], g[..keyBytes]);
      }
    }
  }

  /**
   The client's scan through any cursor of the whole database: First, then turns of NextDup and NextNoDup. What the
   turns answer is every entry exactly once, in order, and then the end, exactly when no key is all 0xFF.
   */
  lemma DatabaseGroupedScanWhen(st: Machine.State, code: Tables.TableCode, id: Tables.CursorID)
    requires Machine.Valid(st) && code in Tables.TABLES && Tables.TABLES[code].dupSorted
    ensures
      var s := st.base[code];
      var (start, reply) := Machine.Step(st, Machine.Call(code, id, Tables.First));
      && Machine.Valid(start) && |Ascending(s.Keys)| == |s|
      && ([reply] + Answers(start, code, id, |s|) == Upward(s, Ascending(s.Keys), 0, Tables.Nothing)
          <==> forall k | k in s :: !AllMax(k[..Tables.KEY_BYTES]))
  {
    var s, info := st.base[code], Tables.TABLES[code];
    var start := Machine.Step(st, Machine.Call(code, id, Tables.First)).0;
    if s == map[] {
      EmptyScan(st, code, id);
      return;
    }
    StartsAtLeast(st, code, id);
    Machine.FocusFits(start, code, id);
    GroupedScanIsListingWhen(info, Machine.Focus(start, code, id));
    AnswersAreWalk(start, code, id, |s|);
    AscendingEnds(s.Keys);
    ConsEqual(Entry(s, Min(s.Keys)), Answers(start, code, id, |s|),
              Upward(s, Ascending(s.Keys), 1, Tables.Nothing));
    GreatestIsMax(s, info.keyBytes);
  }

  lemma WalkNeverEnds(info: TableInfo, t: Table, n: nat)
    requires Flat.Fits(info, t) && info.dupSorted && t.base.Keys != {} && t.cur == Least(t.base.Keys)
    requires exists k :: k in t.base && AllMax(k[..info.keyBytes])
    ensures forall reply | reply in GroupedWalk(info, t, n) :: reply.Found?
  {
    AscendingLists(t.base);
    AscendingEnds(t.base.Keys);
    GreatestIsMax(t.base, info.keyBytes);
    GroupedScanNeverEnds(info, t, Ascending(t.base.Keys), 0, n);
  }

  /** With an all-0xFF key in base that scan never ends: every turn answers with an entry, however many are taken. */
  lemma DatabaseGroupedScanNeverEnds(st: Machine.State, code: Tables.TableCode, id: Tables.CursorID, n: nat)
    requires Machine.Valid(st) && code in Tables.TABLES && Tables.TABLES[code].dupSorted
    requires exists k :: k in st.base[code] && AllMax(k[..Tables.KEY_BYTES])
    ensures
      var (start, reply) := Machine.Step(st, Machine.Call(code, id, Tables.First));
      Machine.Valid(start) && reply.Found? && forall answer | answer in Answers(start, code, id, n) :: answer.Found?
  {
    var start := Machine.Step(st, Machine.Call(code, id, Tables.First)).0;
    StartsAtLeast(st, code, id);
    Machine.FocusFits(start, code, id);
    WalkNeverEnds(Tables.TABLES[code], Machine.Focus(start, code, id), n);
    AnswersAreWalk(start, code, id, n);
  }
}
