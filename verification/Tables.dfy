/** The tables of the execution client, the calls on them and their replies. */
module Tables {
  import opened ByteStrings

  type Store = map<Bytes, Bytes>

  type TableCode = byte

  type CursorID = c: Bytes | |c| == 8 witness [0, 0, 0, 0, 0, 0, 0, 0]

  datatype TableInfo = TableInfo(dupSorted: bool, keyBytes: nat, subKeyBytes: nat) {
    /** The width of a stored key: a dup-sorted table stores key ++ subkey. */
    function EntryBytes(): nat {
      if dupSorted then keyBytes + subKeyBytes else keyBytes
    }
  }

  const HASHED_ACCOUNTS: TableCode := 0
  const HASHED_STORAGES: TableCode := 1
  const KEY_BYTES: nat := 40
  const SUBKEY_BYTES: nat := 40

  /** The key and value that the connection loop sets in the committed accounts store for every frame it reads. */
  const DEBUG_KEY: Bytes := [1]
  const DEBUG_VALUE: Bytes := [1]

  const TABLES: map<TableCode, TableInfo> := map[
    HASHED_ACCOUNTS := TableInfo(false, KEY_BYTES, 0),
    HASHED_STORAGES := TableInfo(true, KEY_BYTES, SUBKEY_BYTES)
  ]

  datatype Error =
    | TableNotFound
    | InvalidRequestData
    | InvalidOperationCode
    | CurrentIteratorKeyIsInvalid
    | CurrentKeyIsNotSet
    | KeyAlreadyPresent
    | AppendBelowGreatestKey
    | AppendBelowGreatestSubkey

  /**
   Nothing is a successful reply without data. The last two are no replies: Panicked is a slice out of range, which
   ends the process, and Blocked a call that waits for ever for a lock it holds itself.
   */
  datatype Reply = Failed(error: Error) | Nothing | Found(data: Bytes) | Done | Panicked | Blocked

  datatype Op =
    | Get(key: Bytes)
    | Put(key: Bytes, value: Bytes)
    | Delete(key: Bytes, withSubkey: bool)
    | First
    | SeekExact(key: Bytes)
    | Seek(key: Bytes)
    | Next
    | Prev
    | Last
    | Current
    | Upsert(key: Bytes, value: Bytes)
    | Insert(key: Bytes, value: Bytes)
    | Append(key: Bytes, value: Bytes)
    | DeleteCurrent
    | NextDup
    | NextNoDup
    | SeekByKeySubkey(key: Bytes)
    | DeleteCurrentDuplicates
    | AppendDup(key: Bytes, value: Bytes)

  predicate ReadOnly(op: Op) {
    op.Get? || op.First? || op.SeekExact? || op.Seek? || op.Next? || op.Prev? || op.Last? || op.Current?
    || op.NextDup? || op.NextNoDup? || op.SeekByKeySubkey?
  }

  /** The key widths that the request decoder guarantees to the operations. */
  predicate Sized(info: TableInfo, op: Op) {
    match op
    case Get(key) => |key| == info.keyBytes
    case SeekExact(key) => |key| == info.keyBytes
    case Seek(key) => |key| == info.keyBytes
    case Delete(key, withSubkey) =>
      if withSubkey then info.dupSorted && |key| == info.EntryBytes() else |key| == info.keyBytes
    case Put(key, _) => |key| == info.EntryBytes()
    case Upsert(key, _) => |key| == info.EntryBytes()
    case Insert(key, _) => |key| == info.EntryBytes()
    case Append(key, _) => |key| == info.EntryBytes()
    case SeekByKeySubkey(key) => info.dupSorted ==> |key| == info.EntryBytes()
    case AppendDup(key, _) => info.dupSorted ==> |key| == info.EntryBytes()
    case _ => true
  }
}
