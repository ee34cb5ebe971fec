# Verification of the Scalerize execution database

Scalerize keeps the state of an EVM execution client in committed key-value stores and serves it through an MDBX-style
table and cursor interface (`app/db_eth.go`), and serves state proofs over the same data (`app/state_transport.go`,
`app/state_query_utils.go`). This project models both in Dafny and proves, over every input, every state and every run,
what they keep of their promises, and for each promise that they break exactly when.

Check it with `dafny verify dfyconfig.toml`.

## What is modelled

**The cursor database.** `Databases.Database` is a class with the three pieces of mutable state: the committed stores
(`base`), a staging overlay of sets and tombstones per table (`staged`), and one map from cursor ids to current keys
shared by all tables (`cursors`). Its methods do what the operations do, with iterators (`KeyIterators.KeyIterator`) and
the delete loops. The proofs run through four layers:

1. `Databases`: each method is proved to turn the abstract state (base, staged *view*, cursors) into exactly the one
   that module `Flat` gives, and to stage exactly the edits that `Flat` gives; `Perform`, the switch on the operation,
   makes exactly one `Machine.Step`. The view is base with the overlay applied, so tombstones and their replay at
   `Write` are hidden above this layer.
2. `Flat` specifies the operations on one table by order statistics of its key set: least key at or above, least key
   after, greatest key before, a prefix group, what lies past a group.
3. Each table is specified again in another form. `Nested` holds a dup-sorted table as an ordered map from keys to ordered
   maps from subkeys to values, in which keys and subkeys are never joined to be compared; `Listed` holds a regular one as
   a sorted list of entries, in which a cursor stands at a position. `Refinement` and `Listing` prove each operation the
   same in both forms, and `GroupedMachine.RunCommutes` lifts that to every run of calls on all tables, with all cursors.
4. `Scans`, `GroupedScans`, `Lookups`, `Deletes`, `Loads` and `Isolation` prove what clients rely on: scans, bulk loads,
   draining, agreement of lookups, isolation and publication. `Witnesses` reaches the cases in which they may not.

`Frames` is the request format, `Serving` the connection loop with the key `{1}` it sets itself, and `Crashes` the calls
that never return to it. `Layouts` has the bytes of every request with its codes and lengths written out: what each asks
for, which are refused, and how. `Panicked` and `Blocked` stand among the replies for a slice out of range and for a wait
on a lock that the caller holds. They change nothing, and a run that goes on after one says nothing about the program.

**The state-proof request.** `StateRequests` is the wire format. `StateProofs` models Go slices of one shared buffer on
the heap: the address and the storage keys are windows of the request buffer, and every query key is built by appending
to the address window, in place, over the bytes of the first storage key. `StateNodes` is what is asked of the node, and
the numbers and hexadecimal strings in which its answers are sent on.

Both tables have 40-byte keys and `hashed_storages` 40-byte subkeys, as `app/client.go` and `app/constants.go` set them;
the lemmas on one table hold for any widths.

## Where the code is not what its comments say

The model follows the code. Each case has its exact condition; module `Witnesses` has runs of calls that meet it:

- `Next` is "the next entry" if and only if the cursor is on a committed entry or nothing lies above it
  (`Scans.NextIsSuccessorWhen`); on an absent key, as after an `Upsert`, it returns the second entry above
  (`Witnesses.NextSkips`).
- `NextDup` is "the next entry with the same key, or nothing" if and only if the cursor is on a committed entry
  (`GroupedScans.NextDupAdvancesWhen`); on an absent one it returns the second entry above within the key, and an error
  where the key has none (`Witnesses.NextDupSkips`).
- On an unset cursor `Next`, `Prev`, `NextDup` and `NextNoDup` are `First` or `Last` if and only if the table is empty
  (`Scans.UnsetMovesWhen`). Otherwise they wait for the cursor lock they hold, so that the frame is never answered
  (`Serving.StuckWhen`), as any `Next` on the accounts through such a cursor (`Witnesses.UnsetNextHangs`).
- `DeleteCurrent` moves to the next entry if and only if the cursor was on a staged entry
  (`Deletes.DeleteCurrentMovesOnWhen`), and not after a `Delete` of the cursor's key (`Witnesses.DeleteCurrentSkips`).
- `NextNoDup` moves on to the next greater key, or reports the end, if and only if the cursor's key is not all 0xFF or
  base is empty (`GroupedScans.NextNoDupAdvancesWhen`), and `DeleteCurrentDuplicates` if and only if the key is not all
  0xFF or every staged entry has it (`Deletes.DuplicatesMoveOnWhen`). Otherwise both restart at the first entry
  (`Witnesses.NextNoDupRestarts`, `Witnesses.DuplicatesRestart`), so that a grouped scan of a table with an all-0xFF key
  never ends (`GroupedScans.DatabaseGroupedScanNeverEnds`).
- `Delete` by key alone looks the entries up in base, so it empties the group if and only if no entry of the group is
  staged only (`Deletes.DeleteEmptiesGroupWhen`, `Witnesses.DeleteLeavesStaged`).
- `Append` leaves the cursor where it was when the staged table is empty (`Loads.AppendMovesCursorWhen`,
  `Witnesses.AppendLeavesCursor`), and on a dup-sorted table compares keys only, so an accepted entry may sort below the
  last one (`Loads.AppendIsGreatestWhen`, `Witnesses.AppendBelowLast`).
- The connection loop starts a fresh cache before every request (`app/db_eth.go:18`), so a `Write` sent on a single
  connection finds nothing staged: no sequence of frames changes the committed stores, apart from the key `{1}` that the
  loop itself sets in the accounts store for every frame (`app/db_eth.go:39`, `Serving.ConnectionPublishesNothing`). So
  it is for several connections as long as no request of one falls between a request of another and its next fresh cache
  (`Isolation.ShieldedPublishesNothing`); a `Write` that falls there does publish (`Isolation.RacePublishes`), and so do
  the operations without the fresh caches (`Isolation.UnservedPublishes`). In general a run of operations, `Write`s and
  fresh caches leaves the committed stores as they were if and only if the edits it publishes, in order, come to nothing
  (`Isolation.PublishesNothingWhen`), and a single `Write` if and only if nothing effective is staged
  (`Isolation.WriteSettles`).
- A frame ends the process if and only if it is a lone byte, a regular entry frame whose length guard leaves out the
  cursor id (`Frames.PanicsWhen`), an `Append` to an accounts table with nothing above the key `{1}`, such as an empty
  one, or a dup operation through a cursor that another table left on that key (`Serving.CrashesWhen`,
  `Witnesses.AppendCrashes`, `Witnesses.NextDupCrashes`).

## Library behaviour taken as given

Iteration is in byte order over a snapshot of the keys in a half-open range; a cached store reads its own edits first
and then the committed store, `Write` applies the latest edit of every touched key, and `PrefixEndBytes` drops trailing
0xFF bytes and increments the last byte left. `bytes.Compare` is lexicographic. `append` writes in place when the
capacity allows. The keys that stores and iterators return have no spare capacity, so that cutting one beyond its length
is out of range. A read-write lock is not granted to a caller that holds it.

## Model

| member | source | states |
|---|---|---|
| `ByteStrings.PrefixEndBytes` | app/db_eth.go:535 | the loop over trailing 0xFF bytes yields the end of the prefix range, and no end exactly for an all-0xFF prefix |
| `ByteStrings.PrefixRangeExact` | app/db_eth.go:535 | the half-open range from a prefix to its end holds exactly the keys with that prefix, for every prefix and key, carry and open end included |
| `ByteStrings.PastPrefixExact` | app/db_eth.go:1107 | the range that starts at the end of a prefix holds exactly the keys above the prefix that do not have it |
| `ByteStrings.BelowWhen` | app/db_eth.go:958 | a string is below another exactly when they agree up to a place where the one ends, or has the smaller byte |
| `KeyIterators.KeyIterator.Forward` | app/db_eth.go:635 | a new ascending iterator stands at the least key of its range |
| `KeyIterators.KeyIterator.Backward` | app/db_eth.go:785 | a new descending iterator stands at the greatest key of its range |
| `KeyIterators.KeyIterator.Next` | app/db_eth.go:750 | a step of an ascending iterator reaches the least key of the range above the one it left, or its end |
| `KeyIterators.KeyIterator.Exhausted` | app/db_eth.go:595-598 | a finished walk has visited exactly the keys of its range |
| `Databases.Database.constructor` | app/db_transport.go:26 | a fresh cache over the committed stores: nothing staged, the view equals base |
| `Databases.Database.Get` | app/db_eth.go:525-554 | on a dup-sorted table the least entry of the key's group without its key part, on a regular table the value; nothing if absent; changes nothing |
| `Databases.Database.First` | app/db_eth.go:624-650 | returns the least committed entry and moves the cursor to it; changes nothing else |
| `Databases.Database.SeekExact` | app/db_eth.go:655-687 | moves the cursor to the least entry at or above the key and returns it only if it is the key's |
| `Databases.Database.Seek` | app/db_eth.go:693-720 | moves the cursor to the least entry at or above the key and returns it |
| `Databases.Database.Next` | app/db_eth.go:725-762 | moves to the second entry at or above the cursor, or stays; on an unset cursor blocks unless the table is empty |
| `Databases.Database.Prev` | app/db_eth.go:767-799 | moves to the greatest entry below the cursor, or stays; on an unset cursor blocks unless the table is empty |
| `Databases.Database.Last` | app/db_eth.go:803-830 | returns the greatest committed entry and moves the cursor to it |
| `Databases.Database.Current` | app/db_eth.go:833-864 | returns the committed entry under the cursor, nothing if it is gone, an error if the cursor is unset |
| `Databases.Database.UnderLock` | app/db_eth.go:736-741 | First and Last, called under the cursor lock, return only where the table is empty |
| `Databases.Database.NextDup` | app/db_eth.go:1017-1077 | moves to the second entry of the cursor's group at or above it; the prefix test on the entry found never fails; blocks on an unset cursor unless the table is empty, panics on one shorter than a key; for the value only, the reply is without its key part, and an unset cursor on an empty table panics |
| `Databases.Database.NextNoDup` | app/db_eth.go:1081-1120 | moves to the least entry past the cursor's group, or to the first entry for an all-0xFF key; blocks on an unset cursor unless the table is empty, panics on one shorter than a key |
| `Databases.Database.SeekByKeySubkey` | app/db_eth.go:1298-1334 | moves to the table-wide ceiling or unsets the cursor, and returns the entry only if it is in the key's group |
| `Databases.Database.StageEdit` | app/db_eth.go:566-603 | a set or a tombstone replaces the key's earlier edit in one overlay, and changes one key of one table's view |
| `Databases.Database.Put` | app/db_eth.go:557-569 | the entry is staged, as one edit; base and cursors do not change |
| `Databases.Database.Delete` | app/db_eth.go:574-606 | one staged entry is removed, or without a subkey all those that base holds under the key |
| `Databases.Database.DeleteEach` | app/db_eth.go:595-598 | the delete loop stages one tombstone for each key of the iterator's range, in order, and takes exactly those keys from the view |
| `Databases.Database.Upsert` | app/db_eth.go:867-882 | the entry is staged and the cursor is on it |
| `Databases.Database.Insert` | app/db_eth.go:887-923 | refused if the staged view has the key (on a dup-sorted table, any subkey of it), otherwise staged with the cursor on it |
| `Databases.Database.Append` | app/db_eth.go:929-970 | refused if the key part is below that of the greatest staged key, otherwise staged; the cursor moves unless the view was empty; panics on a greatest key shorter than a key part |
| `Databases.Database.DeleteCurrent` | app/db_eth.go:975-1013 | removes the cursor's key and moves to the second staged key at or above it, or unsets the cursor |
| `Databases.Database.DeleteCurrentDuplicates` | app/db_eth.go:1339-1387 | removes the staged group of the cursor's key and moves past it, or unsets the cursor; panics on a cursor shorter than a key |
| `Databases.Database.AppendDup` | app/db_eth.go:1392-1440 | refused if the subkey is below the greatest staged subkey of the key, otherwise staged with the cursor on it |
| `Databases.Database.Write` | app/db_eth.go:608-620 | base becomes the view of every table, and nothing is staged any more |
| `Databases.Database.Reset` | app/db_eth.go:18 | the view becomes base again: staged edits are forgotten |
| `Databases.Database.Mark` | app/db_eth.go:39 | the key {1} of the committed accounts store is set to {1}, and every other committed entry, and all that is staged, stays as it is; a second time to no effect |
| `Databases.Database.Perform` | app/db_eth.go:66-516 | a request makes exactly one step of the state machine, whatever the operation, and the overlay collects exactly the edits of that step |
| `Overlay.CollectIsReplay` | app/db_eth.go:566-603 | keeping only the latest edit of each key and applying that equals applying all edits in order |
| `Flat.ApplyIsReplay` | app/db_eth.go:557-606 | every operation changes the view by exactly the edits it stages, deletions of whole groups included |
| `Machine.StepKeepsValid` | app/db_eth.go:525-1440 | every call keeps key widths: entries of full width, and in a regular table at most the key {1} besides |
| `Nesting.NestRepresents` | app/db_eth.go:530-547 | cutting flat keys into key and subkey loses and adds nothing and leaves no empty group |
| `Nesting.RepresentsUnique` | app/db_eth.go:530-547 | a flat store has only one nested image |
| `Nesting.LeastNested` | app/db_eth.go:1310-1322 | the least flat key of a part of the table is its least subkey, or the first entry of its least other key |
| `Refinement.NextAgrees` | app/db_eth.go:725-762 | Next on key ++ subkey is: the next subkey, or the first subkey of the next key |
| `Refinement.PrevAgrees` | app/db_eth.go:767-799 | Prev is the previous subkey, or the last subkey of the previous key |
| `Refinement.NextDupAgrees` | app/db_eth.go:1017-1077 | NextDup is a step among the subkeys of one key |
| `Refinement.NextNoDupAgrees` | app/db_eth.go:1081-1120 | NextNoDup is a step among keys, with a restart on the all-0xFF key |
| `Refinement.SeekExactAgrees` | app/db_eth.go:655-687 | SeekExact returns the key's first subkey exactly when the key is present |
| `Refinement.SeekByKeySubkeyAgrees` | app/db_eth.go:1298-1334 | SeekByKeySubkey is a ceiling by (key, subkey) |
| `Refinement.DeleteAgrees` | app/db_eth.go:574-606 | Delete drops one subkey, or the subkeys base has for the key; an emptied group disappears |
| `Refinement.AppendAgrees` | app/db_eth.go:929-970 | Append compares with the greatest key only |
| `Refinement.AppendDupAgrees` | app/db_eth.go:1392-1440 | AppendDup compares with the greatest subkey of its key only |
| `Refinement.DeleteCurrentAgrees` | app/db_eth.go:975-1013 | DeleteCurrent drops one subkey and steps on in pair order |
| `Refinement.DeleteCurrentDuplicatesAgrees` | app/db_eth.go:1339-1387 | DeleteCurrentDuplicates drops one key and moves to the next |
| `Refinement.ApplyAgrees` | app/db_eth.go:525-1440 | every operation on a dup-sorted table commutes with the nested view, with equal replies |
| `Listing.ListRepresents` | app/db_eth.go:624-650 | the list of a store holds exactly its entries, in order |
| `Listing.RepresentsUnique` | app/db_eth.go:624-650 | a store has only one list |
| `Listing.FromAgrees` | app/db_eth.go:693-720 | the least key at or above another is the entry after all that lie below it |
| `Listing.StepsAgree` | app/db_eth.go:725-799 | on a regular table Next is one position on from where the cursor stands, and Prev one back |
| `Listing.SeekAgrees` | app/db_eth.go:655-720 | Seek and SeekExact move to the same position, and SeekExact returns only the entry of the key itself |
| `Listing.InsertAgrees` | app/db_eth.go:907-921 | Insert is refused exactly where the list has the key, and otherwise inserts the entry where it belongs, with the cursor on it |
| `Listing.AppendAgrees` | app/db_eth.go:946-968 | Append compares with the last entry of the list, and accepts its key again |
| `Listing.DeleteCurrentAgrees` | app/db_eth.go:975-1013 | the cursor's own entry goes, and the cursor goes to the entry after the first one at or above it |
| `Listing.ApplyAgrees` | app/db_eth.go:525-1440 | every operation on a regular table commutes with the list, with equal replies; the dup operations are refused |
| `GroupedMachine.StepCommutes` | app/db_eth.go:525-1440 | one call on any table, a Write or a reset commutes with the abstraction, and gets the same reply and the same cursors |
| `GroupedMachine.RunCommutes` | app/db_eth.go:525-1440 | every run of the flat database is, reply for reply, the run of the one with nested groups and sorted lists |
| `Scans.ForwardScan` | app/db_eth.go:624-650 | First and then Next lists every entry exactly once in ascending order, then nothing |
| `Scans.DatabaseScan` | app/db_eth.go:725-762 | the same scan through any cursor of the whole database, whatever that cursor held |
| `Scans.BackwardScan` | app/db_eth.go:803-830 | Last and then Prev lists every entry exactly once in descending order, then nothing |
| `Scans.ScansMirror` | app/db_eth.go:624-830 | Last and then Prev through one cursor gives the replies of First and then Next through any other, in reverse |
| `Scans.PrevUndoesNext` | app/db_eth.go:767-799 | from an entry, a Next that finds one followed by Prev is back on the original entry |
| `Scans.NextUndoesPrev` | app/db_eth.go:725-762 | from an entry, a Prev that finds one followed by Next is back on the original entry |
| `Scans.NextIsSuccessorWhen` | app/db_eth.go:743-755 | Next is the successor of the cursor exactly when the cursor is on an entry or nothing lies above it |
| `Scans.UnsetMovesWhen` | app/db_eth.go:736-741 | a corollary of the definition: on an unset cursor the relative moves are First or Last exactly when the table is empty |
| `GroupedScans.NextDupAdvancesWhen` | app/db_eth.go:1051-1076 | NextDup is the next entry of the cursor's group, or nothing, exactly when the cursor is on an entry; it is an error exactly when the group has none at or above the cursor, and panics exactly on a cursor shorter than a key |
| `GroupedScans.ValueOnlyCuts` | app/db_eth.go:1068-1072 | asked for the value only, NextDup leaves out exactly the cursor's key, and moves and fails as before |
| `GroupedScans.NextNoDupAdvancesWhen` | app/db_eth.go:1103-1119 | NextNoDup reaches the next key's first entry, or nothing, exactly when the key is not all 0xFF or base is empty; it panics exactly on a cursor shorter than a key |
| `GroupedScans.StepDecomposesWhen` | app/db_eth.go:1047-1119 | from an entry, "NextDup, else NextNoDup" is Next, cursor included, exactly when the key is not all 0xFF or its group goes on |
| `GroupedScans.GroupedScanIsListingWhen` | app/db_eth.go:1047-1119 | on one table, from the first entry on, grouped steps list the table and then end, exactly when the greatest key is not all 0xFF |
| `GroupedScans.TurnIsGroupStep` | app/db_eth.go:1047-1119 | a turn of the client, the call NextDup and, if that finds nothing, the call NextNoDup, is one grouped step |
| `GroupedScans.DatabaseGroupedScanWhen` | app/db_eth.go:1017-1120 | First and then such turns, as calls through any cursor of the whole database, answer with every entry once, in order, and then the end, exactly when no key is all 0xFF |
| `GroupedScans.DatabaseGroupedScanNeverEnds` | app/db_eth.go:1107-1115 | with an all-0xFF key in base every turn of that scan answers with an entry, however many are taken |
| `Lookups.LookupsAgree` | app/db_eth.go:534-719 | Get, SeekExact and SeekByKeySubkey with an all-zero subkey find the same entry, none exactly when the group is empty; Seek agrees with a SeekExact that finds one |
| `Lookups.RegularLookupsAgree` | app/db_eth.go:549-719 | on a regular table Get, SeekExact and Seek agree, and find exactly the keys present; for an absent key SeekExact still moves the cursor to the least entry above |
| `Lookups.SubkeyCeiling` | app/db_eth.go:1310-1333 | the least subkey at or above the one asked for in the key's group, or none, with the cursor at the table-wide ceiling or unset |
| `Deletes.DeleteEmptiesGroupWhen` | app/db_eth.go:591-598 | Delete by key removes exactly the entries base has under it, and empties the group exactly when none is staged only |
| `Deletes.DuplicatesExact` | app/db_eth.go:1361-1373 | a corollary of the definition: DeleteCurrentDuplicates removes exactly the cursor's group and keeps every other entry with its value |
| `Deletes.DuplicatesMoveOnWhen` | app/db_eth.go:1375-1382 | it leaves the cursor on the next greater key's first entry, or unset, exactly when the key is not all 0xFF or every staged entry has it |
| `Deletes.DeletesAgreeWhen` | app/db_eth.go:1364-1373 | Delete by key and DeleteCurrentDuplicates leave the same store exactly when nothing of the group is staged only |
| `Deletes.DeleteCurrentMovesOnWhen` | app/db_eth.go:991-1008 | a successful DeleteCurrent moves to the entry after the cursor exactly when the cursor was on a staged entry |
| `Deletes.Drain` | app/db_eth.go:975-1013 | exactly as many calls succeed as entries lie at or above the cursor; they remove those and no other, and the next call finds the cursor unset |
| `Deletes.DrainInOrder` | app/db_eth.go:975-1013 | part of the way, the removed entries are the least ones, and the cursor is on the least one left |
| `Loads.LoadRun` | app/db_eth.go:929-970 | a strictly sorted load above everything staged is accepted row by row, by Append, AppendDup or a mix, exactly when it is empty or the greatest staged key is not the short key {1} |
| `Loads.BulkLoad` | app/db_eth.go:1392-1440 | such a load never fails, and after Write a scan through any cursor returns exactly what was staged before and then the rows, in order, then nothing |
| `Loads.InsertRun` | app/db_eth.go:887-923 | over every run, through any cursors and with other tables, reads, Writes and resets in between, Inserts never give a key a second subkey |
| `Loads.InsertAcceptedWhen` | app/db_eth.go:898-906 | Insert on a dup-sorted table succeeds exactly when no staged entry has the key |
| `Loads.RegularInsertWhen` | app/db_eth.go:907-921 | into a regular table Insert is refused exactly when the view has the key, and then changes nothing; otherwise the entry is staged with the cursor on it |
| `Loads.InsertsKeepEntries` | app/db_eth.go:887-923 | over every run, through any cursors and with other tables, reads and Writes in between, Inserts never change or remove an entry of either table |
| `Loads.AppendRunSorted` | app/db_eth.go:957-962 | over every run, through any cursors, in which nothing is removed from the table, an accepted Append has a key part at least that of every entry that any operation has stored before it |
| `Loads.AppendAcceptedWhen` | app/db_eth.go:946-960 | an Append is accepted exactly when no staged key part lies above its own, and refused exactly when one does, unless the greatest staged key is too short to be cut |
| `Loads.AppendIsGreatest` | app/db_eth.go:957-965 | on a regular table an accepted Append is the greatest key of the view |
| `Loads.AppendIsGreatestWhen` | app/db_eth.go:957-965 | on a dup-sorted table exactly unless its subkey is below the greatest staged subkey of the same key |
| `Loads.AppendMovesCursorWhen` | app/db_eth.go:952-965 | a corollary of the definition: an accepted Append leaves the cursor on its key exactly when the view was not empty or the cursor was there |
| `Isolation.RunKeepsBase` | app/db_eth.go:525-1440 | no run without Write changes base |
| `Isolation.ReadsCannotSeeStaging` | app/db_eth.go:525-864 | over every run of reads the replies are those of any state with the same base and cursors, and staging is untouched |
| `Isolation.PublishesInOrder` | app/db_eth.go:608-620 | over every run of operations, Writes and fresh caches, base is the old base with the published edits applied in order, and the view is base with the pending ones; the edits are those that Perform stages |
| `Isolation.PublishesNothingWhen` | app/db_eth.go:608-620 | a run leaves base as it was exactly when its published edits, in order, come to nothing |
| `Isolation.WriteSettles` | app/db_eth.go:608-620 | a corollary of the definition: a second Write changes nothing, and Write changes base exactly when something effective is staged |
| `Isolation.ShieldedPublishesNothing` | app/db_eth.go:17-18 | a run in which a fresh cache comes between every mutation and the next Write never changes base |
| `Isolation.ServedPublishesNothing` | app/db_eth.go:17-18 | with a fresh cache right before every call, no sequence of calls changes base |
| `Isolation.UnservedPublishes` | app/db_eth.go:557-620 | without it, a Put followed by Write does |
| `Isolation.RacePublishes` | app/db_eth.go:18-39 | two connections share the cache: with both fresh and the key {1} set by the frames of both, a Write of one between a Put of the other and its next fresh cache publishes the entry |
| `Isolation.ReadRunKeepsCursors` | app/db_eth.go:624-864 | if each cursor id is used with one table, Get aside, which uses none, runs of reads keep set cursors on entries, and Next from there never skips one |
| `Frames.DecodeEncode` | app/db_eth.go:66-516 | every expressible call is read back from its frame |
| `Frames.AskedForWhen` | app/db_eth.go:28-516 | a call is what some frame asks for exactly if it is expressible and its frame fits in the read buffer of 4096 bytes |
| `Frames.EncodeDecode` | app/db_eth.go:66-516 | an accepted frame asks for an expressible call and re-encodes to itself, a Write excepted |
| `Frames.WritesWhen` | app/db_eth.go:70-168 | a corollary of the definition: a frame is a Write exactly by its operation code and a known table code, whatever else it holds |
| `Frames.PanicsWhen` | app/db_eth.go:286-391 | exactly which frames index or slice out of range |
| `Layouts.MoveLayout` | app/db_eth.go:170-405 | the bytes of a move: operation code, table code and cursor id, with the codes written out |
| `Layouts.DupMoveLayout` | app/db_eth.go:407-490 | the same for the moves of a dup-sorted table |
| `Layouts.KeyLayout` | app/db_eth.go:82-225 | the bytes of Get, Delete, SeekExact and Seek, with a key of 40 bytes |
| `Layouts.SubkeyLayout` | app/db_eth.go:134-470 | the bytes of Delete and SeekByKeySubkey with a key and subkey of 80 bytes |
| `Layouts.PutLayout` | app/db_eth.go:101-133 | the bytes of Put for either table |
| `Layouts.EntryLayout` | app/db_eth.go:286-512 | the bytes of Upsert, Insert, Append and AppendDup |
| `Layouts.RefusedWhen` | app/db_eth.go:66-516 | exactly which frames are refused for their table, for their operation or for their length, and which end the process, with every code and length written out |
| `Serving.Serve` | app/db_eth.go:17-520 | one turn of the connection loop: fresh cache, the key {1} set, decode, one step, response |
| `Serving.RespondsToCall` | app/db_eth.go:66-518 | an accepted frame is one step from a fresh cache, and the client is told the reply of that step, success or error, unless it never comes |
| `Serving.RespondsToOthers` | app/db_eth.go:62-82 | an empty frame is not answered, and a refused one is answered with its own error; nothing is staged and no cursor moves |
| `Serving.SessionInTurn` | app/db_eth.go:17-520 | the responses of a session are those to its frames in order, each in the state that the frames before it have left, up to the first that ends it |
| `Serving.HandleConnection` | app/db_eth.go:12-521 | on a single connection the loop gives the responses of its session, and leaves every committed entry as it was but for the key {1} of the accounts, and nothing staged unless it was ended |
| `Serving.ConnectionPublishesNothing` | app/db_eth.go:17-39 | on a single connection, after any frames of any content, every committed entry of every table is as it was and there are no others, but that the accounts hold {1} under the key {1} |
| `Crashes.StepPanicsWhen` | app/db_eth.go:957-1361 | after a fresh cache a call slices out of range exactly if it is an Append to accounts with nothing above the key {1}, or a dup operation on a cursor shorter than a key |
| `Crashes.StepBlocksWhen` | app/db_eth.go:736-1100 | and waits for its own lock exactly if it is a relative move on an unset cursor over a table with an entry |
| `Serving.CrashesWhen` | app/db_eth.go:66-516 | exactly which frames end the process, in any state |
| `Serving.StuckWhen` | app/db_eth.go:66-516 | exactly which frames are never answered, in any state |
| `Witnesses.NextSkips` | app/db_eth.go:743-755 | Upsert of an absent key, then Next, passes over the entry after the key |
| `Witnesses.NextDupSkips` | app/db_eth.go:1051-1076 | Upsert of an absent entry, then NextDup, passes over the next entry with the same key, or is an error where there is none |
| `Witnesses.DeleteCurrentSkips` | app/db_eth.go:991-1008 | Delete of the cursor's key, then DeleteCurrent, succeeds, removes nothing and passes over the entry after the cursor |
| `Witnesses.NextNoDupRestarts` | app/db_eth.go:1107-1115 | an all-0xFF key put, written and sought, NextNoDup returns the first entry though no key lies above |
| `Witnesses.DuplicatesRestart` | app/db_eth.go:1375-1382 | DeleteCurrentDuplicates on such a key leaves the cursor on the first entry left |
| `Witnesses.DeleteLeavesStaged` | app/db_eth.go:591-598 | an entry that is only staged survives the Delete of its key |
| `Witnesses.AppendLeavesCursor` | app/db_eth.go:952-955 | Append to an empty table, then Current, finds the cursor unset |
| `Witnesses.AppendBelowLast` | app/db_eth.go:957-965 | Append accepts a lower subkey of the greatest key, which then is not the greatest entry |
| `Witnesses.AppendCrashes` | app/db_eth.go:957 | an Append frame on an accounts table with nothing above the key {1}, such as an empty one, ends the process |
| `Witnesses.UnsetNextHangs` | app/db_eth.go:736-741 | a Next frame on the accounts through an unset cursor is never answered |
| `Witnesses.NextDupCrashes` | app/db_eth.go:1047 | a First frame on an accounts table with nothing below the key {1}, such as an empty one, and then a NextDup frame on the storages through the same cursor, end the process |
| `StateRequests.ChunksLossless` | app/state_transport.go:146-159 | cutting yields only 80-byte keys whose concatenation is the bytes that were cut |
| `StateRequests.EncodeDecode` | app/state_transport.go:78-160 | every accepted request is valid and re-encodes to the original bytes |
| `StateRequests.DecodeEncode` | app/state_transport.go:78-160 | every valid request is accepted and read back unchanged, block number sign included |
| `StateRequests.BigEndianOrder` | app/state_transport.go:88 | numbers of one width are ordered as their byte strings are: the first byte is the most significant |
| `StateRequests.SignedIs` | app/state_transport.go:88 | the signed height is the number in the range of int64 that is congruent to the unsigned one |
| `Layouts.RootLayout` | app/state_transport.go:78-88 | a state-root request is the byte 1 and eight bytes of height |
| `Layouts.LastHeight` | app/state_transport.go:88 | eight 0xFF bytes ask for height -1 |
| `Layouts.ProofLayout` | app/state_transport.go:96-160 | a proof request by number is the bytes 2 and 0, eight bytes of number, 40 of address, and keys of 80 |
| `Layouts.ProofByHashLayout` | app/state_transport.go:96-160 | one by hash is the bytes 2 and 1, 32 bytes of hash, 40 of address, and keys of 80 |
| `Layouts.QueryRefusedWhen` | app/state_transport.go:78-171 | exactly which queries are refused for their operation, and which for their lengths |
| `StateProofs.AppendTo` | app/state_query_utils.go:88 | append yields both contents, overwriting the bytes after the slice when the capacity allows |
| `StateProofs.Parse` | app/state_transport.go:70-160 | the frame is refused or cut exactly as its decoding says, into slices of the one buffer |
| `StateProofs.CutKeys` | app/state_transport.go:152-159 | the chunking loop yields back-to-back 80-byte windows that end with the frame |
| `StateProofs.CollectStorage` | app/state_query_utils.go:86-97 | each query key is the address followed by the key as received, although every iteration overwrites the first key in the buffer |
| `StateNodes.GetHexProofs` | app/state_query_utils.go:113-127 | one string per proof operation, an empty one for empty data; a single empty one without a proof |
| `StateNodes.HexProofsDistinguish` | app/state_query_utils.go:113-127 | the strings determine the proof, but that no proof and one operation without data look alike |
| `StateNodes.HexLayout` | app/state_query_utils.go:120-123 | the characters sent for data: 0x and two lower-case hexadecimal digits a byte, the higher first; nothing for no data |
| `StateNodes.SameNumberWhen` | app/state_query_utils.go:94 | values are sent as the same number exactly when they are equal up to leading zeros |
| `StateNodes.ProvedWhen` | app/state_query_utils.go:70-151 | a proof is returned exactly above height 2 when the node answers for the account and every storage key; it carries the strings of the account's proof, and for each key in order the number of its value and the strings of its proof |
| `StateNodes.RootAnswered` | app/state_transport.go:176-198 | a state-root request is refused below -1, answered with the working hash at -1, and from 0 on with the hash of that block, or as the node fails |
| `StateNodes.ProofAnswered` | app/state_transport.go:200-214 | a proof request is answered from the height of the block it names, by number or by hash, with all that the node answers there, and refused if that is not all |
| `StateNodes.UnreadableAnswered` | app/state_transport.go:78-171 | a query that cannot be read is answered with its own error |
| `StateProofs.GetProof` | app/state_query_utils.go:70-168 | the block is looked up, and the result is that of the request as received; the address is intact for the account query, and the buffer is left as after the last query |
| `StateProofs.BufferAfterAll` | app/state_query_utils.go:86-97 | after the last query the first key's place holds the last key, and every other byte of the buffer is as received |
| `StateProofs.BufferUnchangedWhen` | app/state_query_utils.go:86-97 | a complete collection leaves the buffer unchanged exactly when the first and the last key are equal |
| `StateProofs.HandleStateQuery` | app/state_transport.go:66-214 | the response, to a state-root request too, depends on the request bytes and the node alone, not on the overwriting |

## Left out

- Serving.HandleConnection: is a single connection. Of several it is only shown when their requests publish (`Isolation.ShieldedPublishesNothing`, `Isolation.RacePublishes`); what they do to each other's cursors is left out, as is how a stuck handler stops the others.
- Mutexes other than that of the cursors, and goroutines: every operation is one atomic step.
- Sockets, partial reads, response bytes and status codes, logging and printing: I/O. A frame is what one read yields, at most 4096 bytes; how a longer request falls into frames is left out.
- Store keys are identified with table codes; tree hashing, versions and Merkle proofs are library code.
- Values: a nil value and an empty value are not told apart, and an empty reply is only distinguished from no reply inside the model.
- Aliasing of key slices inside the database: keys are immutable byte strings there. The heap is modelled for the proof buffer only.
- The node: block lookups, application hashes and key queries are functions of what is asked; a node that cannot be reached answers with errors. The JSON form of a proof result is left out.
- The execution engine client, the export of genesis state, the command line and deployment files.
