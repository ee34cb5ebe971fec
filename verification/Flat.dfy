/**
 What each operation does to one table, in terms of order statistics of its flat key set.
 `base` is the committed content, `view` the content that the staged sets and tombstones would leave, `cur` the cursor.
 */
module Flat {
  import opened Wrappers
  import opened ByteStrings
  import opened OrderedKeys
  import opened Overlay
  import Tables

  type TableInfo = Tables.TableInfo

  datatype Table = Table(base: Store, view: Store, cur: Option<Bytes>)

  /** `edits` are the sets and removals that were staged, in the order they were made. */
  datatype Outcome = Outcome(table: Table, reply: Tables.Reply, edits: seq<Edit> := [])

  /** A dup-sorted table stores keys of one width; a regular table may also hold the key of the connection loop. */
  predicate WellKeyed(info: TableInfo, s: Store) {
    forall k | k in s :: |k| == info.EntryBytes() || (!info.dupSorted && k == Tables.DEBUG_KEY)
  }

  predicate Fits(info: TableInfo, t: Table) {
    WellKeyed(info, t.base) && WellKeyed(info, t.view)
  }

  /** A cursor that holds a whole key part; other tables share the cursor, and their keys may be shorter. */
  predicate CursorHolds(info: TableInfo, t: Table) {
    t.cur.Some? ==> info.keyBytes <= |t.cur.value|
  }

  // ---------- Reads and cursor moves: base only ----------

  function MoveTo(t: Table, target: Option<Bytes>): Outcome
    requires target.Some? ==> target.value in t.base
  {
    match target
    case None => Outcome(t, Tables.Nothing)
    case Some(k) => Outcome(t.(cur := Some(k)), Tables.Found(k + t.base[k]))
  }

  function First(t: Table): Outcome { MoveTo(t, Least(t.base.Keys)) }

  function Last(t: Table): Outcome { MoveTo(t, Greatest(t.base.Keys)) }

  function Seek(t: Table, key: Bytes): Outcome { MoveTo(t, Least(From(t.base.Keys, key))) }

  function SeekExact(info: TableInfo, t: Table, key: Bytes): Outcome {
    match Least(From(t.base.Keys, key))
    case None => Outcome(t, Tables.Nothing)
    case Some(k) =>
      var hit := if info.dupSorted then HasPrefix(k, key) else k == key;
      Outcome(t.(cur := Some(k)), if hit then Tables.Found(k + t.base[k]) else Tables.Nothing)
  }

  /**
   First or Last, called by a move that holds the cursor lock: to set the cursor they wait for that lock, so they
   return only where there is no entry.
   */
  function UnderLock(t: Table): Outcome { Outcome(t, if t.base == map[] then Tables.Nothing else Tables.Blocked) }

  /** The second key at or above the cursor. */
  function Next(t: Table): Outcome {
    match t.cur
    case None => UnderLock(t)
    case Some(c) =>
      match Least(From(t.base.Keys, c))
      case None => Outcome(t, Tables.Nothing)
      case Some(k) => MoveTo(t, Least(After(t.base.Keys, k)))
  }

  function Prev(t: Table): Outcome {
    match t.cur
    case None => UnderLock(t)
    case Some(c) => MoveTo(t, Greatest(Before(t.base.Keys, c)))
  }

  function Current(t: Table): Outcome {
    match t.cur
    case None => Outcome(t, Tables.Failed(Tables.CurrentKeyIsNotSet))
    case Some(c) => Outcome(t, if c in t.base then Tables.Found(c + t.base[c]) else Tables.Nothing)
  }

  function NextDup(info: TableInfo, t: Table): Outcome {
    if !info.dupSorted then Outcome(t, Tables.Failed(Tables.InvalidRequestData))
    else if !CursorHolds(info, t) then Outcome(t, Tables.Panicked)
    else match t.cur
      case None => UnderLock(t)
      case Some(c) =>
        var group := Group(t.base.Keys, c[..info.keyBytes]);
        match Least(From(group, c))
        case None => Outcome(t, Tables.Failed(Tables.CurrentIteratorKeyIsInvalid))
        case Some(k) => MoveTo(t, Least(After(group, k)))
  }

  /** The reply of NextDup when asked for the value only: without its key part, which no empty reply of First has. */
  function ValueOnly(info: TableInfo, t: Table, reply: Tables.Reply): Tables.Reply {
    match reply
    case Found(data) => if |data| < info.keyBytes then Tables.Panicked else Tables.Found(data[info.keyBytes..])
    case Nothing => if info.dupSorted && t.cur == None && info.keyBytes > 0 then Tables.Panicked else Tables.Nothing
    case _ => reply
  }

  /** Where a scan that starts at the end of the prefix range lands: an all-0xFF prefix has no end, so it restarts. */
  function PastGroup(s: set<Bytes>, key: Bytes): set<Bytes> {
    if AllMax(key) then s else Beyond(s, key)
  }

  function NextNoDup(info: TableInfo, t: Table): Outcome {
    if !info.dupSorted then Outcome(t, Tables.Failed(Tables.InvalidRequestData))
    else if !CursorHolds(info, t) then Outcome(t, Tables.Panicked)
    else match t.cur
      case None => UnderLock(t)
      case Some(c) => MoveTo(t, Least(PastGroup(t.base.Keys, c[..info.keyBytes])))
  }

  function SeekByKeySubkey(info: TableInfo, t: Table, key: Bytes): Outcome
    requires Fits(info, t) && Tables.Sized(info, Tables.SeekByKeySubkey(key))
  {
    if !info.dupSorted then Outcome(t, Tables.Failed(Tables.InvalidRequestData))
    else match Least(From(t.base.Keys, key))
      case None => Outcome(t.(cur := None), Tables.Nothing)
      case Some(k) =>
        Outcome(t.(cur := Some(k)),
                if HasPrefix(k, key[..info.keyBytes]) then Tables.Found(k[info.keyBytes..] + t.base[k])
                else Tables.Nothing)
  }

  function Get(info: TableInfo, t: Table, key: Bytes): Outcome
    requires Fits(info, t)
  {
    Outcome(t,
            if info.dupSorted then
              match Least(Group(t.base.Keys, key))
              case None => Tables.Nothing
              case Some(k) => Tables.Found(k[info.keyBytes..] + t.base[k])
            else if key in t.base then Tables.Found(t.base[key])
            else Tables.Nothing)
  }

  // ---------- Mutations: view only ----------

  function Set(t: Table, key: Bytes, value: Bytes): Table { t.(view := t.view[key := value]) }

  function SetAndMove(t: Table, key: Bytes, value: Bytes): Outcome {
    Outcome(Set(t, key, value).(cur := Some(key)), Tables.Done, [Edit.Set(key, value)])
  }

  function Put(t: Table, key: Bytes, value: Bytes): Outcome {
    Outcome(Set(t, key, value), Tables.Done, [Edit.Set(key, value)])
  }

  /** Without a subkey the entries to drop are looked up in base, not in the view. */
  function Delete(info: TableInfo, t: Table, key: Bytes, withSubkey: bool): Outcome {
    if info.dupSorted && !withSubkey then
      var gone := Group(t.base.Keys, key);
      Outcome(t.(view := t.view - gone), Tables.Done, Removals(Ascending(gone)))
    else
      Outcome(t.(view := t.view - {key}), Tables.Done, [Remove(key)])
  }

  function Upsert(t: Table, key: Bytes, value: Bytes): Outcome { SetAndMove(t, key, value) }

  function Insert(info: TableInfo, t: Table, key: Bytes, value: Bytes): Outcome
    requires Tables.Sized(info, Tables.Insert(key, value))
  {
    var present := if info.dupSorted then Group(t.view.Keys, key[..info.keyBytes]) != {} else key in t.view;
    if present then Outcome(t, Tables.Failed(Tables.KeyAlreadyPresent)) else SetAndMove(t, key, value)
  }

  /** On an empty view the entry is stored and the cursor is left alone; the greatest key may be too short to cut. */
  function Append(info: TableInfo, t: Table, key: Bytes, value: Bytes): Outcome
    requires Tables.Sized(info, Tables.Append(key, value))
  {
    match Greatest(t.view.Keys)
    case None => Put(t, key, value)
    case Some(g) =>
      var head := if info.dupSorted then key[..info.keyBytes] else key;
      if |g| < info.keyBytes then Outcome(t, Tables.Panicked)
      else if Below(head, g[..info.keyBytes]) then Outcome(t, Tables.Failed(Tables.AppendBelowGreatestKey))
      else SetAndMove(t, key, value)
  }

  function DropOne(t: Table, c: Bytes, k: Bytes): Outcome {
    Outcome(Table(t.base, t.view - {c}, Least(After(t.view.Keys, k))), Tables.Done, [Remove(c)])
  }

  /** Drops the cursor's own key and moves to the second key at or above it in the view as it was. */
  function DeleteCurrent(t: Table): Outcome {
    match t.cur
    case None => Outcome(t, Tables.Failed(Tables.CurrentKeyIsNotSet))
    case Some(c) =>
      match Least(From(t.view.Keys, c))
      case None => Outcome(t, Tables.Failed(Tables.CurrentIteratorKeyIsInvalid))
      case Some(k) => DropOne(t, c, k)
  }

  function DropGroup(t: Table, key: Bytes): Outcome {
    var gone := Group(t.view.Keys, key);
    var rest := t.view - gone;
    Outcome(Table(t.base, rest, Least(PastGroup(rest.Keys, key))), Tables.Done, Removals(Ascending(gone)))
  }

  function DeleteCurrentDuplicates(info: TableInfo, t: Table): Outcome {
    if !info.dupSorted then Outcome(t, Tables.Failed(Tables.InvalidRequestData))
    else if !CursorHolds(info, t) then Outcome(t, Tables.Panicked)
    else match t.cur
      case None => Outcome(t, Tables.Failed(Tables.CurrentKeyIsNotSet))
      case Some(c) =>
        var key := c[..info.keyBytes];
        if Group(t.view.Keys, key) == {} then Outcome(t, Tables.Failed(Tables.CurrentIteratorKeyIsInvalid))
        else DropGroup(t, key)
  }

  function AppendDup(info: TableInfo, t: Table, key: Bytes, value: Bytes): Outcome
    requires Fits(info, t) && Tables.Sized(info, Tables.AppendDup(key, value))
  {
    if !info.dupSorted then Outcome(t, Tables.Failed(Tables.InvalidRequestData))
    else match Greatest(Group(t.view.Keys, key[..info.keyBytes]))
      case None => SetAndMove(t, key, value)
      case Some(g) =>
        if Below(key[info.keyBytes..], g[info.keyBytes..])
        then Outcome(t, Tables.Failed(Tables.AppendBelowGreatestSubkey))
        else SetAndMove(t, key, value)
  }

  function Apply(info: TableInfo, op: Tables.Op, t: Table): Outcome
    requires Fits(info, t) && Tables.Sized(info, op)
  {
    match op
    case Get(key) => Get(info, t, key)
    case Put(key, value) => Put(t, key, value)
    case Delete(key, withSubkey) => Delete(info, t, key, withSubkey)
    case First => First(t)
    case SeekExact(key) => SeekExact(info, t, key)
    case Seek(key) => Seek(t, key)
    case Next => Next(t)
    case Prev => Prev(t)
    case Last => Last(t)
    case Current => Current(t)
    case Upsert(key, value) => Upsert(t, key, value)
    case Insert(key, value) => Insert(info, t, key, value)
    case Append(key, value) => Append(info, t, key, value)
    case DeleteCurrent => DeleteCurrent(t)
    case NextDup => NextDup(info, t)
    case NextNoDup => NextNoDup(info, t)
    case SeekByKeySubkey(key) => SeekByKeySubkey(info, t, key)
    case DeleteCurrentDuplicates => DeleteCurrentDuplicates(info, t)
    case AppendDup(key, value) => AppendDup(info, t, key, value)
  }

  lemma ApplyDupMoves(info: TableInfo, t: Table)
    requires Fits(info, t)
    ensures Apply(info, Tables.NextDup, t) == NextDup(info, t)
    ensures Apply(info, Tables.NextNoDup, t) == NextNoDup(info, t)
  {
  }

  // ---------- What every operation keeps ----------

  /** A read stages nothing, changes only its cursor, and leaves that on a key of base, where it was, or unset. */
  lemma ReadKeeps(info: TableInfo, op: Tables.Op, t: Table)
    requires Fits(info, t) && Tables.Sized(info, op) && Tables.ReadOnly(op)
    ensures Apply(info, op, t).table == t.(cur := Apply(info, op, t).table.cur)
    ensures Apply(info, op, t).edits == []
    ensures
      var cur := Apply(info, op, t).table.cur;
      cur == t.cur || cur == None || cur.value in t.base
  {
  }

  /** A mutation never touches base. */
  lemma MutationKeepsBase(info: TableInfo, op: Tables.Op, t: Table)
    requires Fits(info, t) && Tables.Sized(info, op) && !Tables.ReadOnly(op)
    ensures Apply(info, op, t).table.base == t.base
  {
  }

  /** No operation touches base: only publication does. */
  lemma ApplyKeepsBase(info: TableInfo, op: Tables.Op, t: Table)
    requires Fits(info, t) && Tables.Sized(info, op)
    ensures Apply(info, op, t).table.base == t.base
  {
    if Tables.ReadOnly(op) {
      ReadKeeps(info, op, t);
    } else {
      MutationKeepsBase(info, op, t);
    }
  }

  /** Key widths survive every mutation. */
  lemma MutationFits(info: TableInfo, op: Tables.Op, t: Table)
    requires Fits(info, t) && Tables.Sized(info, op) && !Tables.ReadOnly(op)
    ensures Fits(info, Apply(info, op, t).table)
  {
  }

  lemma ApplyFits(info: TableInfo, op: Tables.Op, t: Table)
    requires Fits(info, t) && Tables.Sized(info, op)
    ensures Fits(info, Apply(info, op, t).table)
  {
    if Tables.ReadOnly(op) {
      ReadKeeps(info, op, t);
    } else {
      MutationFits(info, op, t);
    }
  }

  // ---------- Every operation changes the view by exactly its edits ----------

  lemma ReplayGroup(s: Store, gone: set<Bytes>)
    ensures Replay(s, Removals(Ascending(gone))) == s - gone
  {
    ReplayRemovals(s, Ascending(gone));
    AscendingElements(gone);
    assert Elements(Ascending(gone)) == gone;
  }

  lemma StoringIsReplay(info: TableInfo, op: Tables.Op, t: Table)
    requires Fits(info, t) && Tables.Sized(info, op)
    requires op.Put? || op.Upsert? || op.Insert? || op.Append? || op.AppendDup?
    ensures Apply(info, op, t).table.view == Replay(t.view, Apply(info, op, t).edits)
  {
    OneEdit(t.view, map[], Edit.Set(op.key, op.value));
  }

  lemma RemovalIsReplay(info: TableInfo, op: Tables.Op, t: Table)
    requires Fits(info, t) && Tables.Sized(info, op)
    requires op.Delete? || op.DeleteCurrent? || op.DeleteCurrentDuplicates?
    ensures Apply(info, op, t).table.view == Replay(t.view, Apply(info, op, t).edits)
  {
    match op
    case Delete(key, withSubkey) =>
      ReplayGroup(t.view, Group(t.base.Keys, key));
      OneEdit(t.view, map[], Remove(key));
    case DeleteCurrent =>
      if t.cur.Some? {
        OneEdit(t.view, map[], Remove(t.cur.value));
      }
    case DeleteCurrentDuplicates =>
      if t.cur.Some? && info.keyBytes <= |t.cur.value| {
        ReplayGroup(t.view, Group(t.view.Keys, t.cur.value[..info.keyBytes]));
      }
  }

  lemma ApplyIsReplay(info: TableInfo, op: Tables.Op, t: Table)
    requires Fits(info, t) && Tables.Sized(info, op)
    ensures Apply(info, op, t).table.view == Replay(t.view, Apply(info, op, t).edits)
  {
    if Tables.ReadOnly(op) {
      ReadKeeps(info, op, t);
    } else if op.Delete? || op.DeleteCurrent? || op.DeleteCurrentDuplicates? {
      RemovalIsReplay(info, op, t);
    } else {
      StoringIsReplay(info, op, t);
    }
  }

  // ---------- Isolation of one read ----------

  lemma DupReadsIgnoreStaging(info: TableInfo, t: Table, staged: Store)
    ensures
      var other := t.(view := staged);
      && NextDup(info, other).reply == NextDup(info, t).reply
      && NextDup(info, other).table.cur == NextDup(info, t).table.cur
      && NextNoDup(info, other).reply == NextNoDup(info, t).reply
      && NextNoDup(info, other).table.cur == NextNoDup(info, t).table.cur
  {
  }

  /** A read depends on base and cursor only: what is staged cannot be seen through it. */
  lemma ReadsIgnoreStaging(info: TableInfo, op: Tables.Op, t: Table, staged: Store)
    requires Fits(info, t) && Tables.Sized(info, op) && Tables.ReadOnly(op)
    requires WellKeyed(info, staged)
    ensures Apply(info, op, t.(view := staged)).reply == Apply(info, op, t).reply
    ensures Apply(info, op, t.(view := staged)).table.cur == Apply(info, op, t).table.cur
  {
    if op.NextDup? || op.NextNoDup? {
      DupReadsIgnoreStaging(info, t, staged);
    }
  }
}
