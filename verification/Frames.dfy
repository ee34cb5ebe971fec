/** The wire format of database requests: operation code, table code, then the operation's arguments. */
module Frames {
  import opened ByteStrings
  import opened Tables
  import Machine

  const OP_PUT: byte := 1
  const OP_GET: byte := 2
  const OP_DELETE: byte := 3
  const OP_WRITE: byte := 4
  const OP_FIRST: byte := 5
  const OP_SEEK_EXACT: byte := 6
  const OP_SEEK: byte := 7
  const OP_NEXT: byte := 8
  const OP_PREV: byte := 9
  const OP_LAST: byte := 10
  const OP_CURRENT: byte := 11
  const OP_UPSERT: byte := 12
  const OP_INSERT: byte := 13
  const OP_APPEND: byte := 14
  const OP_DELETE_CURRENT: byte := 15
  const OP_NEXT_DUP: byte := 16
  const OP_NEXT_NO_DUP: byte := 17
  const OP_SEEK_BY_KEY_SUBKEY: byte := 19
  const OP_DELETE_CURRENT_DUPLICATES: byte := 20
  const OP_APPEND_DUP: byte := 21

  const CURSOR_BYTES: nat := 8

  /** The cursor of operations that use none. */
  const NO_CURSOR: CursorID := [0, 0, 0, 0, 0, 0, 0, 0]

  /** The length of the buffer that one read of the connection fills. */
  const READ_BYTES: nat := 4096

  /** What one read of the connection yields. */
  type Frame = b: Bytes | |b| <= READ_BYTES

  /** Panics stands for a slice or index out of range, which ends the process. */
  datatype Decoded = Rejected(error: Error) | Panics | Accepted(call: Machine.Call)

  // ---------- Decoding ----------

  function Invalid(): Decoded { Rejected(InvalidRequestData) }

  /** A cursor id and nothing else. */
  function CursorOnly(code: TableCode, body: Bytes, op: Op): Decoded {
    if |body| != CURSOR_BYTES then Invalid() else Accepted(Machine.Call(code, body, op))
  }

  /** A cursor id and a key of the given width. */
  function CursorAndKey(code: TableCode, body: Bytes, width: nat, op: Bytes -> Op): Decoded {
    if |body| != CURSOR_BYTES + width then Invalid()
    else Accepted(Machine.Call(code, body[..CURSOR_BYTES], op(body[CURSOR_BYTES..])))
  }

  /**
   A cursor id, an entry key and a value. For a regular table the length guard leaves out the cursor id, so a frame may
   pass it and still be too short for the value slice.
   */
  function CursorAndEntry(info: TableInfo, code: TableCode, body: Bytes, op: (Bytes, Bytes) -> Op): Decoded {
    var valueStart := CURSOR_BYTES + info.EntryBytes();
    if info.dupSorted && |body| <= valueStart then Invalid()
    else if !info.dupSorted && |body| <= info.keyBytes then Invalid()
    else if |body| < valueStart then Panics
    else Accepted(Machine.Call(code, body[..CURSOR_BYTES], op(body[CURSOR_BYTES..valueStart], body[valueStart..])))
  }

  function DecodePlain(info: TableInfo, code: TableCode, operation: byte, body: Bytes): Decoded {
    var width := info.EntryBytes();
    if operation == OP_GET then
      if |body| != info.keyBytes then Invalid() else Accepted(Machine.Call(code, NO_CURSOR, Get(body)))
    else if operation == OP_PUT then
      if |body| <= width then Invalid() else Accepted(Machine.Call(code, NO_CURSOR, Put(body[..width], body[width..])))
    else if operation == OP_DELETE then
      if |body| != info.keyBytes && !(info.dupSorted && |body| == width) then Invalid()
      else Accepted(Machine.Call(code, NO_CURSOR, Delete(body, info.dupSorted && |body| == width)))
    else if operation == OP_WRITE then Accepted(Machine.Write)
    else Rejected(InvalidOperationCode)
  }

  function DecodeMove(info: TableInfo, code: TableCode, operation: byte, body: Bytes): Decoded {
    if operation == OP_FIRST then CursorOnly(code, body, First)
    else if operation == OP_NEXT then CursorOnly(code, body, Next)
    else if operation == OP_PREV then CursorOnly(code, body, Prev)
    else if operation == OP_LAST then CursorOnly(code, body, Last)
    else if operation == OP_CURRENT then CursorOnly(code, body, Current)
    else if operation == OP_SEEK_EXACT then CursorAndKey(code, body, info.keyBytes, key => SeekExact(key))
    else if operation == OP_SEEK then CursorAndKey(code, body, info.keyBytes, key => Seek(key))
    else if operation == OP_DELETE_CURRENT then CursorOnly(code, body, DeleteCurrent)
    else Rejected(InvalidOperationCode)
  }

  function DecodeEntry(info: TableInfo, code: TableCode, operation: byte, body: Bytes): Decoded {
    if operation == OP_UPSERT then CursorAndEntry(info, code, body, (key, value) => Upsert(key, value))
    else if operation == OP_INSERT then CursorAndEntry(info, code, body, (key, value) => Insert(key, value))
    else CursorAndEntry(info, code, body, (key, value) => Append(key, value))
  }

  function DecodeDup(info: TableInfo, code: TableCode, operation: byte, body: Bytes): Decoded {
    if !info.dupSorted then Invalid()
    else if operation == OP_NEXT_DUP then CursorOnly(code, body, NextDup)
    else if operation == OP_NEXT_NO_DUP then CursorOnly(code, body, NextNoDup)
    else if operation == OP_SEEK_BY_KEY_SUBKEY then
      CursorAndKey(code, body, info.EntryBytes(), key => SeekByKeySubkey(key))
    else if operation == OP_DELETE_CURRENT_DUPLICATES then CursorOnly(code, body, DeleteCurrentDuplicates)
    else CursorAndEntry(info, code, body, (key, value) => AppendDup(key, value))
  }

  predicate DupCode(operation: byte) {
    operation == OP_NEXT_DUP || operation == OP_NEXT_NO_DUP || operation == OP_SEEK_BY_KEY_SUBKEY
    || operation == OP_DELETE_CURRENT_DUPLICATES || operation == OP_APPEND_DUP
  }

  predicate EntryCode(operation: byte) {
    operation == OP_UPSERT || operation == OP_INSERT || operation == OP_APPEND
  }

  /** The operation and table code are read before any length is checked. */
  function Decode(data: Bytes): Decoded
    requires data != []
  {
    if |data| == 1 then Panics
    else if data[1] !in TABLES then Rejected(TableNotFound)
    else
      var info := TABLES[data[1]];
      if data[0] <= OP_WRITE then DecodePlain(info, data[1], data[0], data[2..])
      else if DupCode(data[0]) then DecodeDup(info, data[1], data[0], data[2..])
      else if EntryCode(data[0]) then DecodeEntry(info, data[1], data[0], data[2..])
      else DecodeMove(info, data[1], data[0], data[2..])
  }

  // ---------- Encoding ----------

  function Encode(call: Machine.Call): Bytes {
    match call
    case Reset => []
    case Write => [OP_WRITE, HASHED_ACCOUNTS]
    case Call(code, id, op) =>
      match op
      case Get(key) => [OP_GET, code] + key
      case Put(key, value) => [OP_PUT, code] + key + value
      case Delete(key, _) => [OP_DELETE, code] + key
      case First => [OP_FIRST, code] + id
      case SeekExact(key) => [OP_SEEK_EXACT, code] + id + key
      case Seek(key) => [OP_SEEK, code] + id + key
      case Next => [OP_NEXT, code] + id
      case Prev => [OP_PREV, code] + id
      case Last => [OP_LAST, code] + id
      case Current => [OP_CURRENT, code] + id
      case Upsert(key, value) => [OP_UPSERT, code] + id + key + value
      case Insert(key, value) => [OP_INSERT, code] + id + key + value
      case Append(key, value) => [OP_APPEND, code] + id + key + value
      case DeleteCurrent => [OP_DELETE_CURRENT, code] + id
      case NextDup => [OP_NEXT_DUP, code] + id
      case NextNoDup => [OP_NEXT_NO_DUP, code] + id
      case SeekByKeySubkey(key) => [OP_SEEK_BY_KEY_SUBKEY, code] + id + key
      case DeleteCurrentDuplicates => [OP_DELETE_CURRENT_DUPLICATES, code] + id
      case AppendDup(key, value) => [OP_APPEND_DUP, code] + id + key + value
  }

  /**
   The calls a frame can ask for: known table, right widths, dup operations on dup-sorted tables only, and a value that
   is not empty except for Upsert, Insert and Append on a regular table.
   */
  predicate Expressible(call: Machine.Call) {
    match call
    case Reset => false
    case Write => true
    case Call(code, id, op) =>
      && code in TABLES
      && Sized(TABLES[code], op)
      && (op.Get? || op.Put? || op.Delete? ==> id == NO_CURSOR)
      && (op.Put? || op.AppendDup? ==> op.value != [])
      && (op.Upsert? || op.Insert? || op.Append? ==> op.value != [] || !TABLES[code].dupSorted)
      && (op.NextDup? || op.NextNoDup? || op.SeekByKeySubkey? || op.DeleteCurrentDuplicates? || op.AppendDup? ==>
            TABLES[code].dupSorted)
  }

  lemma Decoding(operation: byte, code: TableCode, body: Bytes)
    requires code in TABLES
    ensures
      var info := TABLES[code];
      var data := [operation, code] + body;
      Decode(data) ==
      if operation <= OP_WRITE then DecodePlain(info, code, operation, body)
      else if DupCode(operation) then DecodeDup(info, code, operation, body)
      else if EntryCode(operation) then DecodeEntry(info, code, operation, body)
      else DecodeMove(info, code, operation, body)
  {
  }

  lemma EntryDecodes(code: TableCode, id: CursorID, key: Bytes, value: Bytes, op: (Bytes, Bytes) -> Op)
    requires code in TABLES && |key| == TABLES[code].EntryBytes() && (value != [] || !TABLES[code].dupSorted)
    ensures CursorAndEntry(TABLES[code], code, id + key + value, op) == Accepted(Machine.Call(code, id, op(key, value)))
  {
    var body := id + key + value;
    var valueStart := CURSOR_BYTES + |key|;
    assert body[..CURSOR_BYTES] == id && body[CURSOR_BYTES..valueStart] == key && body[valueStart..] == value;
  }

  lemma PutDecodes(code: TableCode, key: Bytes, value: Bytes)
    requires Expressible(Machine.Call(code, NO_CURSOR, Put(key, value)))
    ensures
      var call := Machine.Call(code, NO_CURSOR, Put(key, value));
      Encode(call) != [] && Decode(Encode(call)) == Accepted(call)
  {
    var body := key + value;
    assert [OP_PUT, code] + key + value == [OP_PUT, code] + body;
    Decoding(OP_PUT, code, body);
    assert body[..|key|] == key && body[|key|..] == value;
  }

  lemma PlainDecodes(call: Machine.Call)
    requires Expressible(call) && call.Call? && (call.op.Get? || call.op.Put? || call.op.Delete?)
    ensures Encode(call) != [] && Decode(Encode(call)) == Accepted(call)
  {
    match call.op
    case Put(key, value) => PutDecodes(call.code, key, value);
    case Get(key) => Decoding(OP_GET, call.code, key);
    case Delete(key, _) => Decoding(OP_DELETE, call.code, key);
    case _ =>
  }

  lemma EntryCallDecodes(call: Machine.Call)
    requires Expressible(call) && call.Call?
    requires call.op.Upsert? || call.op.Insert? || call.op.Append? || call.op.AppendDup?
    ensures Encode(call) != [] && Decode(Encode(call)) == Accepted(call)
  {
    var Call(code, id, op) := call;
    var data := Encode(call);
    assert data[2..] == id + op.key + op.value;
    assert data == [data[0], code] + data[2..];
    Decoding(data[0], code, data[2..]);
    EntryDecodes(code, id, op.key, op.value, (key, value) => Upsert(key, value));
    EntryDecodes(code, id, op.key, op.value, (key, value) => Insert(key, value));
    EntryDecodes(code, id, op.key, op.value, (key, value) => Append(key, value));
    EntryDecodes(code, id, op.key, op.value, (key, value) => AppendDup(key, value));
  }

  lemma SeekDecodes(call: Machine.Call)
    requires Expressible(call) && call.Call? && (call.op.SeekExact? || call.op.Seek? || call.op.SeekByKeySubkey?)
    ensures Encode(call) != [] && Decode(Encode(call)) == Accepted(call)
  {
  }

  predicate TakesOnlyCursor(op: Op) {
    op.First? || op.Next? || op.Prev? || op.Last? || op.Current? || op.DeleteCurrent?
    || op.NextDup? || op.NextNoDup? || op.DeleteCurrentDuplicates?
  }

  lemma MoveDecodes(call: Machine.Call)
    requires Expressible(call) && call.Call? && TakesOnlyCursor(call.op)
    ensures Encode(call) != [] && Decode(Encode(call)) == Accepted(call)
  {
    var data := Encode(call);
    assert data == [data[0], call.code] + data[2..] && data[2..] == call.cursor;
    Decoding(data[0], call.code, data[2..]);
  }

  /** Every expressible call has a frame that decodes to it. */
  lemma DecodeEncode(call: Machine.Call)
    requires Expressible(call)
    ensures Encode(call) != [] && Decode(Encode(call)) == Accepted(call)
  {
    if call.Write? {
      Decoding(OP_WRITE, HASHED_ACCOUNTS, []);
      assert Encode(call) == [OP_WRITE, HASHED_ACCOUNTS] + [];
    } else if call.op.Get? || call.op.Put? || call.op.Delete? {
      PlainDecodes(call);
    } else if call.op.SeekExact? || call.op.Seek? || call.op.SeekByKeySubkey? {
      SeekDecodes(call);
    } else if TakesOnlyCursor(call.op) {
      MoveDecodes(call);
    } else {
      EntryCallDecodes(call);
    }
  }

  lemma EncodeDecodePut(code: TableCode, body: Bytes)
    requires code in TABLES && DecodePlain(TABLES[code], code, OP_PUT, body).Accepted?
    ensures
      var call := DecodePlain(TABLES[code], code, OP_PUT, body).call;
      Expressible(call) && Encode(call) == [OP_PUT, code] + body
  {
  }

  lemma EncodeDecodeUnary(operation: byte, code: TableCode, body: Bytes)
    requires code in TABLES && operation != OP_PUT && DecodePlain(TABLES[code], code, operation, body).Accepted?
    ensures
      var call := DecodePlain(TABLES[code], code, operation, body).call;
      Expressible(call) && (call.Call? ==> Encode(call) == [operation, code] + body)
  {
  }

  lemma EncodeDecodePlain(data: Bytes)
    requires data != [] && Decode(data).Accepted? && data[0] <= OP_WRITE
    ensures Expressible(Decode(data).call)
    ensures Decode(data).call.Call? ==> Encode(Decode(data).call) == data
  {
    var code, body := data[1], data[2..];
    assert data == [data[0], code] + body;
    if data[0] == OP_PUT {
      EncodeDecodePut(code, body);
    } else {
      EncodeDecodeUnary(data[0], code, body);
    }
  }

  lemma EncodeDecodeAppendDup(code: TableCode, body: Bytes)
    requires code in TABLES && DecodeDup(TABLES[code], code, OP_APPEND_DUP, body).Accepted?
    ensures
      var call := DecodeDup(TABLES[code], code, OP_APPEND_DUP, body).call;
      Expressible(call) && call.Call? && Encode(call) == [OP_APPEND_DUP, code] + body
  {
  }

  lemma EncodeDecodeDupMove(operation: byte, code: TableCode, body: Bytes)
    requires code in TABLES && DupCode(operation) && operation != OP_APPEND_DUP
    requires DecodeDup(TABLES[code], code, operation, body).Accepted?
    ensures
      var call := DecodeDup(TABLES[code], code, operation, body).call;
      Expressible(call) && call.Call? && Encode(call) == [operation, code] + body
  {
  }

  lemma EncodeDecodeDup(data: Bytes)
    requires data != [] && Decode(data).Accepted? && DupCode(data[0])
    ensures Expressible(Decode(data).call)
    ensures Decode(data).call.Call? && Encode(Decode(data).call) == data
  {
    var code, body := data[1], data[2..];
    assert data == [data[0], code] + body;
    if data[0] == OP_APPEND_DUP {
      EncodeDecodeAppendDup(code, body);
    } else {
      EncodeDecodeDupMove(data[0], code, body);
    }
  }

  lemma EncodeDecodeMove(data: Bytes)
    requires data != [] && Decode(data).Accepted? && data[0] > OP_WRITE && !DupCode(data[0]) && !EntryCode(data[0])
    ensures Expressible(Decode(data).call)
    ensures Decode(data).call.Call? && Encode(Decode(data).call) == data
  {
    var body := data[2..];
    assert data == [data[0], data[1]] + body;
    if data[0] == OP_SEEK_EXACT || data[0] == OP_SEEK {
      assert body == body[..CURSOR_BYTES] + body[CURSOR_BYTES..];
      assert data == [data[0], data[1]] + body[..CURSOR_BYTES] + body[CURSOR_BYTES..];
    }
  }

  lemma EncodeDecodeUpsert(code: TableCode, body: Bytes)
    requires code in TABLES && CursorAndEntry(TABLES[code], code, body, (key, value) => Upsert(key, value)).Accepted?
    ensures
      var call := CursorAndEntry(TABLES[code], code, body, (key, value) => Upsert(key, value)).call;
      Expressible(call) && Encode(call) == [OP_UPSERT, code] + body
  {
  }

  lemma EncodeDecodeInsert(code: TableCode, body: Bytes)
    requires code in TABLES && CursorAndEntry(TABLES[code], code, body, (key, value) => Insert(key, value)).Accepted?
    ensures
      var call := CursorAndEntry(TABLES[code], code, body, (key, value) => Insert(key, value)).call;
      Expressible(call) && Encode(call) == [OP_INSERT, code] + body
  {
  }

  lemma EncodeDecodeAppend(code: TableCode, body: Bytes)
    requires code in TABLES && CursorAndEntry(TABLES[code], code, body, (key, value) => Append(key, value)).Accepted?
    ensures
      var call := CursorAndEntry(TABLES[code], code, body, (key, value) => Append(key, value)).call;
      Expressible(call) && Encode(call) == [OP_APPEND, code] + body
  {
  }

  lemma EncodeDecodeEntry(data: Bytes)
    requires data != [] && Decode(data).Accepted? && EntryCode(data[0])
    ensures Expressible(Decode(data).call)
    ensures Decode(data).call.Call? && Encode(Decode(data).call) == data
  {
    var code, body := data[1], data[2..];
    assert data == [data[0], code] + body;
    if data[0] == OP_UPSERT {
      EncodeDecodeUpsert(code, body);
    } else if data[0] == OP_INSERT {
      EncodeDecodeInsert(code, body);
    } else {
      EncodeDecodeAppend(code, body);
    }
  }

  /** What an accepted frame asks for is expressible, and nothing of the frame is lost, a Write excepted. */
  lemma EncodeDecode(data: Bytes)
    requires data != [] && Decode(data).Accepted?
    ensures Expressible(Decode(data).call)
    ensures Decode(data).call.Call? ==> Encode(Decode(data).call) == data
  {
    var body := data[2..];
    assert data == [data[0], data[1]] + body;
    if data[0] <= OP_WRITE {
      EncodeDecodePlain(data);
    } else if DupCode(data[0]) {
      EncodeDecodeDup(data);
    } else if EntryCode(data[0]) {
      EncodeDecodeEntry(data);
    } else {
      EncodeDecodeMove(data);
    }
  }

  /** Decoded calls are ones the operations can take. */
  lemma ExpressibleWellFormed(call: Machine.Call)
    requires Expressible(call)
    ensures Machine.WellFormed(call)
  {
  }

  lemma AcceptedWellFormed(data: Bytes)
    requires data != [] && Decode(data).Accepted?
    ensures Machine.WellFormed(Decode(data).call)
  {
    EncodeDecode(data);
    ExpressibleWellFormed(Decode(data).call);
  }

  predicate Asks(frame: Frame, call: Machine.Call) {
    frame != [] && Decode(frame) == Accepted(call)
  }

  /** A call is what some frame asks for exactly if it is expressible and its frame fits in the read buffer. */
  lemma AskedForWhen(call: Machine.Call)
    ensures (exists frame: Frame :: Asks(frame, call)) <==> Expressible(call) && |Encode(call)| <= 4096
  {
    if frame: Frame :| Asks(frame, call) {
      EncodeDecode(frame);
    }
    if Expressible(call) && |Encode(call)| <= READ_BYTES {
      DecodeEncode(call);
      var frame: Frame := Encode(call);
      assert Asks(frame, call);
    }
  }

  /**
   A corollary of the definition: a Write is read off the operation code alone, once the table code is known; all else
   in the frame is ignored.
   */
  lemma WritesWhen(data: Bytes)
    requires data != []
    ensures Decode(data) == Accepted(Machine.Write) <==> |data| > 1 && data[0] == OP_WRITE && data[1] in TABLES
  {
  }

  /** The frames that end the process: a lone byte, and short entry frames for a regular table. */
  lemma PanicsWhen(data: Bytes)
    requires data != []
    ensures Decode(data).Panics? <==>
            || |data| == 1
            || (data[1] == HASHED_ACCOUNTS && EntryCode(data[0])
                && 2 + KEY_BYTES < |data| < 2 + CURSOR_BYTES + KEY_BYTES)
  {
  }
}
