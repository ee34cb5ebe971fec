/** The bytes of requests, with every code and every length written out: what is read from them, and what is refused. */
module Layouts {
  import opened ByteStrings
  import opened Tables
  import Frames
  import Machine
  import StateRequests

  type Call = Machine.Call

  function Asked(code: TableCode, id: CursorID, op: Op): Frames.Decoded {
    Frames.Accepted(Machine.Call(code, id, op))
  }

  // ---------- Database requests ----------

  /** Operation code, table code, cursor id. */
  lemma MoveLayout(code: TableCode, id: CursorID)
    requires code == 0 || code == 1
    ensures Frames.Decode([5, code] + id) == Asked(code, id, First)
    ensures Frames.Decode([8, code] + id) == Asked(code, id, Next)
    ensures Frames.Decode([9, code] + id) == Asked(code, id, Prev)
    ensures Frames.Decode([10, code] + id) == Asked(code, id, Last)
    ensures Frames.Decode([11, code] + id) == Asked(code, id, Current)
    ensures Frames.Decode([15, code] + id) == Asked(code, id, DeleteCurrent)
  {
    Frames.Decoding(5, code, id);
    Frames.Decoding(8, code, id);
    Frames.Decoding(9, code, id);
    Frames.Decoding(10, code, id);
    Frames.Decoding(11, code, id);
    Frames.Decoding(15, code, id);
  }

  lemma DupMoveLayout(id: CursorID)
    ensures Frames.Decode([16, 1] + id) == Asked(1, id, NextDup)
    ensures Frames.Decode([17, 1] + id) == Asked(1, id, NextNoDup)
    ensures Frames.Decode([20, 1] + id) == Asked(1, id, DeleteCurrentDuplicates)
  {
    Frames.Decoding(16, 1, id);
    Frames.Decoding(17, 1, id);
    Frames.Decoding(20, 1, id);
  }

  /** A key of 40 bytes, after a cursor id where the operation takes one. */
  lemma KeyLayout(code: TableCode, id: CursorID, key: Bytes)
    requires (code == 0 || code == 1) && |key| == 40
    ensures Frames.Decode([2, code] + key) == Asked(code, [0, 0, 0, 0, 0, 0, 0, 0], Get(key))
    ensures Frames.Decode([3, code] + key) == Asked(code, [0, 0, 0, 0, 0, 0, 0, 0], Delete(key, false))
    ensures Frames.Decode([6, code] + (id + key)) == Asked(code, id, SeekExact(key))
    ensures Frames.Decode([7, code] + (id + key)) == Asked(code, id, Seek(key))
  {
    Frames.Decoding(2, code, key);
    Frames.Decoding(3, code, key);
    Frames.Decoding(6, code, id + key);
    Frames.Decoding(7, code, id + key);
    assert (id + key)[..8] == id && (id + key)[8..] == key;
  }

  /** A key and a subkey of 40 bytes each. */
  lemma SubkeyLayout(id: CursorID, fk: Bytes)
    requires |fk| == 80
    ensures Frames.Decode([3, 1] + fk) == Asked(1, [0, 0, 0, 0, 0, 0, 0, 0], Delete(fk, true))
    ensures Frames.Decode([19, 1] + (id + fk)) == Asked(1, id, SeekByKeySubkey(fk))
  {
    Frames.Decoding(3, 1, fk);
    Frames.Decoding(19, 1, id + fk);
    assert (id + fk)[..8] == id && (id + fk)[8..] == fk;
  }

  lemma PutLayout(code: TableCode, key: Bytes, value: Bytes)
    requires (code == 0 && |key| == 40) || (code == 1 && |key| == 80)
    requires value != []
    ensures Frames.Decode([1, code] + (key + value)) == Asked(code, [0, 0, 0, 0, 0, 0, 0, 0], Put(key, value))
  {
    Frames.Decoding(1, code, key + value);
    assert (key + value)[..|key|] == key && (key + value)[|key|..] == value;
  }

  lemma EntryLayout(code: TableCode, id: CursorID, key: Bytes, value: Bytes)
    requires (code == 0 && |key| == 40) || (code == 1 && |key| == 80)
    requires value != []
    ensures Frames.Decode([12, code] + (id + key + value)) == Asked(code, id, Upsert(key, value))
    ensures Frames.Decode([13, code] + (id + key + value)) == Asked(code, id, Insert(key, value))
    ensures Frames.Decode([14, code] + (id + key + value)) == Asked(code, id, Append(key, value))
    ensures code == 1 ==> Frames.Decode([21, 1] + (id + key + value)) == Asked(1, id, AppendDup(key, value))
  {
    var body := id + key + value;
    assert body[..8] == id && body[8..8 + |key|] == key && body[8 + |key|..] == value;
    Frames.Decoding(12, code, body);
    Frames.Decoding(13, code, body);
    Frames.Decoding(14, code, body);
    if code == 1 {
      Frames.Decoding(21, 1, body);
    }
  }

  predicate KnownOperation(operation: byte) {
    1 <= operation <= 17 || 19 <= operation <= 21
  }

  /** The lengths that are let through for a known operation: for the accounts, and for the storages. */
  predicate AccountsLength(operation: byte, n: nat) {
    if operation == 1 then n > 42
    else if operation == 2 || operation == 3 then n == 42
    else if operation == 4 then true
    else if operation == 6 || operation == 7 then n == 50
    else if 12 <= operation <= 14 then n > 42
    else operation <= 15 && n == 10
  }

  predicate StoragesLength(operation: byte, n: nat) {
    if operation == 1 then n > 82
    else if operation == 2 then n == 42
    else if operation == 3 then n == 42 || n == 82
    else if operation == 4 then true
    else if operation == 6 || operation == 7 then n == 50
    else if 12 <= operation <= 14 || operation == 21 then n > 90
    else if operation == 19 then n == 90
    else n == 10
  }

  predicate RightLength(operation: byte, code: TableCode, n: nat) {
    if code == 0 then AccountsLength(operation, n) else StoragesLength(operation, n)
  }

  /** Which frames of two bytes or more are refused, and how: the table first, then the operation, then the length. */
  lemma RefusedWhen(data: Bytes)
    requires |data| >= 2
    ensures Frames.Decode(data) == Frames.Rejected(TableNotFound) <==> data[1] > 1
    ensures Frames.Decode(data) == Frames.Rejected(InvalidOperationCode) <==> data[1] <= 1 && !KnownOperation(data[0])
    ensures Frames.Decode(data) == Frames.Rejected(InvalidRequestData)
            <==> data[1] <= 1 && KnownOperation(data[0]) && !RightLength(data[0], data[1], |data|)
    ensures Frames.Decode(data).Panics? <==> data[1] == 0 && 12 <= data[0] <= 14 && 42 < |data| < 50
  {
  }

  // ---------- State queries ----------

  /** A state-root request is the byte 1 and a block number. */
  lemma RootLayout(number: Bytes)
    requires |number| == 8
    ensures StateRequests.Decode([1] + number)
         == StateRequests.Accepted(StateRequests.StateRoot(StateRequests.Signed(StateRequests.BigEndian(number))))
  {
    assert ([1] + number)[1..] == number;
  }

  lemma FullKeys(keys: Bytes)
    requires |keys| % 80 == 0
    ensures |keys| % StateRequests.STORAGE_KEY_BYTES == 0
  {
  }

  lemma BlockHead(head: Bytes, block: StateRequests.BlockSpec)
    requires block.BlockHash? ==> head == [2, 1] + block.hash
    requires block.BlockNumber? ==>
               head == [2, 0] + StateRequests.BigEndianBytes(StateRequests.Unsigned(block.number), 8)
    ensures head == [2] + StateRequests.EncodeBlock(block)
  {
  }

  /** A proof request is the byte 2, a block by number (0) or by hash (1), the address and the storage keys. */
  lemma ProofLayout(head: Bytes, number: Bytes, address: Bytes, keys: Bytes)
    requires head == [2, 0] + number && |number| == 8 && |address| == 40 && |keys| % 80 == 0
    ensures StateRequests.Decode(head + address + keys)
         == StateRequests.Accepted(StateRequests.StateProof(
              StateRequests.BlockNumber(StateRequests.Signed(StateRequests.BigEndian(number))),
              address, StateRequests.Chunks(keys)))
  {
    var block := StateRequests.BlockNumber(StateRequests.Signed(StateRequests.BigEndian(number)));
    StateRequests.HeightOfBytes(number);
    BlockHead(head, block);
    FullKeys(keys);
    StateRequests.ProofDecodes(head, block, address, keys);
  }

  lemma ProofByHashLayout(head: Bytes, hash: Bytes, address: Bytes, keys: Bytes)
    requires head == [2, 1] + hash && |hash| == 32 && |address| == 40 && |keys| % 80 == 0
    ensures StateRequests.Decode(head + address + keys)
         == StateRequests.Accepted(StateRequests.StateProof(
              StateRequests.BlockHash(hash), address, StateRequests.Chunks(keys)))
  {
    var block := StateRequests.BlockHash(hash);
    BlockHead(head, block);
    FullKeys(keys);
    StateRequests.ProofDecodes(head, block, address, keys);
  }

  lemma QueryRefusedWhen(data: Bytes)
    requires data != []
    ensures StateRequests.Decode(data) == StateRequests.Rejected(StateRequests.InvalidOperationCode)
            <==> data[0] != 1 && data[0] != 2
    ensures StateRequests.Decode(data) == StateRequests.Rejected(StateRequests.InvalidRequestData)
            <==> || (data[0] == 1 && |data| != 9)
                 || (data[0] == 2
                     && (|data| == 1 || data[1] > 1
                         || (data[1] == 0 && (|data| < 50 || (|data| - 50) % 80 != 0))
                         || (data[1] == 1 && (|data| < 74 || (|data| - 74) % 80 != 0))))
  {
  }

  /** Eight 0xFF bytes ask for height -1. */
  lemma LastHeight()
    ensures StateRequests.Decode([1, 0xFF, 0xFF, 0xFF, 0xFF, 0xFF, 0xFF, 0xFF, 0xFF])
         == StateRequests.Accepted(StateRequests.StateRoot(-1))
  {
    var number: Bytes := [0xFF, 0xFF, 0xFF, 0xFF, 0xFF, 0xFF, 0xFF, 0xFF];
    RootLayout(number);
    assert [1] + number == [1, 0xFF, 0xFF, 0xFF, 0xFF, 0xFF, 0xFF, 0xFF, 0xFF];
    StateRequests.BytesOfHeight(-1);
    StateRequests.AllMaxIsLast(number);
  }
}
