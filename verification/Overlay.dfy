/** The staging overlay of one table: the latest set or tombstone of every touched key. */
module Overlay {
  import opened Wrappers
  import opened ByteStrings
  import opened OrderedKeys
  import Tables

  type Store = Tables.Store

  /** Some(value) is a staged set, None a tombstone. */
  type Overlay = map<Bytes, Option<Bytes>>

  /** The content a read through the overlay sees, and the content that publishing it leaves in base. */
  function View(base: Store, staged: Overlay): Store {
    map k | k in base.Keys + staged.Keys && (k in staged ==> staged[k].Some?) ::
      if k in staged then staged[k].value else base[k]
  }

  lemma ViewOfNothing(base: Store)
    ensures View(base, map[]) == base
  {
  }

  /** The same for the overlays of all tables. */
  function Views(base: map<Tables.TableCode, Store>, staged: map<Tables.TableCode, Overlay>)
    : map<Tables.TableCode, Store>
  {
    map code | code in base.Keys && code in staged.Keys :: View(base[code], staged[code])
  }

  lemma ViewsOfEdit(base: map<Tables.TableCode, Store>, staged: map<Tables.TableCode, Overlay>,
                    code: Tables.TableCode, edited: Overlay)
    requires code in base && code in staged
    ensures Views(base, staged[code := edited]) == Views(base, staged)[code := View(base[code], edited)]
  {
  }

  lemma FreshViews(base: map<Tables.TableCode, Store>, staged: map<Tables.TableCode, Overlay>)
    requires base.Keys == staged.Keys && forall code | code in staged :: staged[code] == map[]
    ensures Views(base, staged) == base
  {
    forall code | code in base ensures View(base[code], staged[code]) == base[code] {
      ViewOfNothing(base[code]);
    }
  }

  // ---------- Only the latest edit of a key matters ----------

  datatype Edit = Set(key: Bytes, value: Bytes) | Remove(key: Bytes)

  /** One edit of the content itself. */
  function Change(content: Store, edit: Edit): Store {
    match edit
    case Set(key, value) => content[key := value]
    case Remove(key) => content - {key}
  }

  /** One edit kept in an overlay, where it replaces any earlier one of the key. */
  function Stage(staged: Overlay, edit: Edit): Overlay {
    match edit
    case Set(key, value) => staged[key := Some(value)]
    case Remove(key) => staged[key := None]
  }

  /** The edits applied to the content itself, in order. */
  function Replay(content: Store, edits: seq<Edit>): Store {
    if edits == [] then content
    else Change(Replay(content, edits[..|edits| - 1]), edits[|edits| - 1])
  }

  /** The edits collected in an overlay. */
  function Collect(staged: Overlay, edits: seq<Edit>): Overlay {
    if edits == [] then staged
    else Stage(Collect(staged, edits[..|edits| - 1]), edits[|edits| - 1])
  }

  /** The edits of one table, collected among the overlays of all tables. */
  function CollectIn(staged: map<Tables.TableCode, Overlay>, code: Tables.TableCode, edits: seq<Edit>)
    : map<Tables.TableCode, Overlay>
    requires code in staged
  {
    staged[code := Collect(staged[code], edits)]
  }

  lemma ViewOfStage(base: Store, staged: Overlay, edit: Edit)
    ensures View(base, Stage(staged, edit)) == Change(View(base, staged), edit)
  {
  }

  /** Publishing the collected overlay is applying the edits in the order they were made. */
  lemma {:induction false} CollectIsReplay(base: Store, staged: Overlay, edits: seq<Edit>)
    ensures View(base, Collect(staged, edits)) == Replay(View(base, staged), edits)
  {
    if edits != [] {
      var before := edits[..|edits| - 1];
      CollectIsReplay(base, staged, before);
      ViewOfStage(base, Collect(staged, before), edits[|edits| - 1]);
    }
  }

  lemma OneEdit(content: Store, staged: Overlay, edit: Edit)
    ensures Replay(content, [edit]) == Change(content, edit)
    ensures Collect(staged, [edit]) == Stage(staged, edit)
  {
  }

  lemma OneMoreEdit(staged: Overlay, edits: seq<Edit>, edit: Edit)
    ensures Collect(staged, edits + [edit]) == Stage(Collect(staged, edits), edit)
  {
  }

  lemma {:induction false} ReplayConcat(content: Store, a: seq<Edit>, b: seq<Edit>)
    ensures Replay(content, a + b) == Replay(Replay(content, a), b)
  {
    if b == [] {
      assert a + b == a;
    } else {
      var i := |b| - 1;
      assert (a + b)[..|a| + i] == a + b[..i];
      ReplayConcat(content, a, b[..i]);
    }
  }

  // ---------- Tombstones for many keys ----------

  function Removals(keys: seq<Bytes>): (edits: seq<Edit>)
    ensures |edits| == |keys| && forall i | 0 <= i < |keys| :: edits[i] == Remove(keys[i])
  {
    seq(|keys|, i requires 0 <= i < |keys| => Remove(keys[i]))
  }

  lemma RemovalsUpTo(keys: seq<Bytes>, i: nat)
    requires i < |keys|
    ensures Removals(keys[..i + 1]) == Removals(keys[..i]) + [Remove(keys[i])]
  {
  }

  lemma {:induction false} ReplayRemovals(content: Store, keys: seq<Bytes>)
    ensures Replay(content, Removals(keys)) == content - Elements(keys)
  {
    if keys == [] {
      assert content - Elements(keys) == content;
    } else {
      var i := |keys| - 1;
      ReplayRemovals(content, keys[..i]);
      assert keys[..i + 1] == keys;
      RemovalsUpTo(keys, i);
      assert Removals(keys)[..i] == Removals(keys[..i]);
      ElementsUpTo(keys, i);
      assert content - Elements(keys[..i]) - {keys[i]} == content - (Elements(keys[..i]) + {keys[i]});
    }
  }

  /** One more tombstone staged in one table. */
  lemma OneMoreRemoval(was: map<Tables.TableCode, Overlay>, code: Tables.TableCode, keys: seq<Bytes>, i: nat)
    requires code in was && i < |keys|
    ensures CollectIn(CollectIn(was, code, Removals(keys[..i])), code, [Remove(keys[i])])
         == CollectIn(was, code, Removals(keys[..i + 1]))
  {
    var now := Collect(was[code], Removals(keys[..i]));
    OneEdit(map[], now, Remove(keys[i]));
    RemovalsUpTo(keys, i);
    OneMoreEdit(was[code], Removals(keys[..i]), Remove(keys[i]));
  }

  /** Tombstones for many keys of one table take those keys out of its view. */
  lemma ViewsOfRemovals(base: map<Tables.TableCode, Store>, staged: map<Tables.TableCode, Overlay>,
                        code: Tables.TableCode, keys: seq<Bytes>)
    requires code in base && code in staged
    ensures Views(base, CollectIn(staged, code, Removals(keys)))
         == Views(base, staged)[code := Views(base, staged)[code] - Elements(keys)]
  {
    var edits := Removals(keys);
    CollectIsReplay(base[code], staged[code], edits);
    ReplayRemovals(View(base[code], staged[code]), keys);
    ViewsOfEdit(base, staged, code, Collect(staged[code], edits));
  }

  /** One edit of one table. */
  lemma ViewsOfOneEdit(base: map<Tables.TableCode, Store>, staged: map<Tables.TableCode, Overlay>,
                       code: Tables.TableCode, edit: Edit)
    requires code in base && code in staged
    ensures CollectIn(staged, code, [edit]) == staged[code := Stage(staged[code], edit)]
    ensures Views(base, CollectIn(staged, code, [edit]))
         == Views(base, staged)[code := Change(Views(base, staged)[code], edit)]
  {
    OneEdit(map[], staged[code], edit);
    ViewOfStage(base[code], staged[code], edit);
    ViewsOfEdit(base, staged, code, Stage(staged[code], edit));
  }

  lemma CollectNothing(staged: map<Tables.TableCode, Overlay>, code: Tables.TableCode)
    requires code in staged
    ensures CollectIn(staged, code, []) == staged
  {
  }
}
