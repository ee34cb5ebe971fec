/** The wire format of state queries. */
module StateRequests {
  import opened Wrappers
  import opened ByteStrings

  const OP_STATE_ROOT: byte := 1
  const OP_STATE_PROOF: byte := 2
  const BLOCK_NUMBER_BYTES: nat := 8
  const BLOCK_HASH_BYTES: nat := 32
  const ADDRESS_BYTES: nat := 40
  const STORAGE_KEY_BYTES: nat := 80

  /** The length of n storage keys; the literal keeps the arithmetic linear. */
  function KeysBytes(n: nat): nat { n * 80 }

  const TWO_63: int := 0x8000_0000_0000_0000
  const TWO_64: int := 0x1_0000_0000_0000_0000

  datatype BlockSpec = BlockNumber(number: int) | BlockHash(hash: Bytes)

  datatype Request =
    | StateRoot(height: int)
    | StateProof(block: BlockSpec, address: Bytes, storageKeys: seq<Bytes>)

  datatype Error = InvalidRequestData | InvalidOperationCode

  datatype Decoded = Rejected(error: Error) | Accepted(request: Request)

  // ---------- Numbers ----------

  function Power256(n: nat): (p: int)
    ensures p > 0
  {
    if n == 0 then 1 else 256 * Power256(n - 1)
  }

  function BigEndian(b: Bytes): int {
    if b == [] then 0 else 256 * BigEndian(b[..|b| - 1]) + b[|b| - 1] as int
  }

  function BigEndianBytes(x: int, n: nat): (b: Bytes)
    ensures |b| == n
    decreases n
  {
    if n == 0 then [] else BigEndianBytes(x / 256, n - 1) + [(x % 256) as byte]
  }

  lemma {:induction false} BytesOfNumber(b: Bytes)
    ensures 0 <= BigEndian(b) < Power256(|b|)
    ensures BigEndianBytes(BigEndian(b), |b|) == b
  {
    if b != [] {
      var rest, last := b[..|b| - 1], b[|b| - 1];
      BytesOfNumber(rest);
      assert BigEndian(b) / 256 == BigEndian(rest) && BigEndian(b) % 256 == last as int;
      assert b == rest + [last];
    }
  }

  lemma {:induction false} NumberOfBytes(x: int, n: nat)
    requires 0 <= x < Power256(n)
    ensures BigEndian(BigEndianBytes(x, n)) == x
    decreases n
  {
    if n > 0 {
      NumberOfBytes(x / 256, n - 1);
      var b := BigEndianBytes(x, n);
      assert b[..n - 1] == BigEndianBytes(x / 256, n - 1);
    }
  }

  /** Big-endian: numbers of one width are ordered as their byte strings are. */
  lemma {:induction false} BigEndianOrder(a: Bytes, b: Bytes)
    requires |a| == |b|
    ensures Below(a, b) <==> BigEndian(a) < BigEndian(b)
  {
    if a != [] {
      var i := |a| - 1;
      BigEndianOrder(a[..i], b[..i]);
      BytesOfNumber(a[..i]);
      BytesOfNumber(b[..i]);
      assert a == a[..i] + a[i..] && b == b[..i] + b[i..];
      BelowConcat(a[..i], a[i..], b[..i], b[i..]);
      assert Below(a[i..], b[i..]) <==> a[i] < b[i];
    }
  }

  /** Conversion between uint64 and int64 keeps the 64 bits. */
  function Signed(x: int): int { if x < TWO_63 then x else x - TWO_64 }

  function Unsigned(x: int): int { if x < 0 then x + TWO_64 else x }

  predicate Int64(x: int) { -TWO_63 <= x < TWO_63 }

  /** The signed number is the one in the range of int64 that is congruent to the unsigned. */
  lemma SignedIs(x: int, y: int)
    requires 0 <= x < 0x1_0000_0000_0000_0000
    ensures Signed(x) == y <==>
            -0x8000_0000_0000_0000 <= y < 0x8000_0000_0000_0000 && (x - y) % 0x1_0000_0000_0000_0000 == 0
  {
  }

  lemma Power256Of8()
    ensures Power256(8) == TWO_64
  {
  }

  lemma {:induction false} HeightOfBytes(b: Bytes)
    requires |b| == BLOCK_NUMBER_BYTES
    ensures Int64(Signed(BigEndian(b))) && BigEndianBytes(Unsigned(Signed(BigEndian(b))), BLOCK_NUMBER_BYTES) == b
  {
    BytesOfNumber(b);
    Power256Of8();
  }

  lemma BytesOfHeight(x: int)
    requires Int64(x)
    ensures Signed(BigEndian(BigEndianBytes(Unsigned(x), BLOCK_NUMBER_BYTES))) == x
  {
    Power256Of8();
    NumberOfBytes(Unsigned(x), BLOCK_NUMBER_BYTES);
  }

  lemma AllMaxIsLast(number: Bytes)
    requires |number| == BLOCK_NUMBER_BYTES && AllMax(number)
    ensures Signed(BigEndian(number)) == -1
  {
    var top := BigEndianBytes(TWO_64 - 1, BLOCK_NUMBER_BYTES);
    Power256Of8();
    NumberOfBytes(TWO_64 - 1, BLOCK_NUMBER_BYTES);
    BytesOfNumber(number);
    MaxIsTop(number, top);
    BigEndianOrder(top, number);
  }

  // ---------- Storage keys ----------

  function Concat(parts: seq<Bytes>): Bytes {
    if parts == [] then [] else parts[0] + Concat(parts[1..])
  }

  function Chunks(b: Bytes): seq<Bytes>
    requires |b| % STORAGE_KEY_BYTES == 0
  {
    if b == [] then [] else [b[..STORAGE_KEY_BYTES]] + Chunks(b[STORAGE_KEY_BYTES..])
  }

  predicate AllKeys(parts: seq<Bytes>) {
    forall part | part in parts :: |part| == STORAGE_KEY_BYTES
  }

  /** Cutting loses nothing and yields only full keys. */
  lemma {:induction false} ChunksLossless(b: Bytes)
    requires |b| % STORAGE_KEY_BYTES == 0
    ensures AllKeys(Chunks(b)) && Concat(Chunks(b)) == b && |Chunks(b)| == |b| / STORAGE_KEY_BYTES
  {
    if b != [] {
      ChunksLossless(b[STORAGE_KEY_BYTES..]);
      assert b == b[..STORAGE_KEY_BYTES] + b[STORAGE_KEY_BYTES..];
    }
  }

  lemma {:induction false} ConcatChunks(parts: seq<Bytes>)
    requires AllKeys(parts)
    ensures |Concat(parts)| == KeysBytes(|parts|) && |Concat(parts)| % STORAGE_KEY_BYTES == 0
    ensures Chunks(Concat(parts)) == parts
  {
    if parts != [] {
      assert parts[0] in parts;
      ConcatChunks(parts[1..]);
      assert Concat(parts)[..STORAGE_KEY_BYTES] == parts[0];
      assert Concat(parts)[STORAGE_KEY_BYTES..] == Concat(parts[1..]);
    }
  }

  lemma {:induction false} ChunkAt(b: Bytes, i: nat)
    requires |b| % STORAGE_KEY_BYTES == 0 && i < |b| / STORAGE_KEY_BYTES
    ensures |Chunks(b)| == |b| / STORAGE_KEY_BYTES
    ensures Chunks(b)[i] == b[i * STORAGE_KEY_BYTES..(i + 1) * STORAGE_KEY_BYTES]
  {
    ChunksLossless(b);
    if i > 0 {
      var rest := b[STORAGE_KEY_BYTES..];
      ChunkAt(rest, i - 1);
      assert rest[(i - 1) * STORAGE_KEY_BYTES..i * STORAGE_KEY_BYTES]
          == b[i * STORAGE_KEY_BYTES..(i + 1) * STORAGE_KEY_BYTES];
    }
  }

  // ---------- Requests ----------

  /** The bytes of the block specification after its tag, or None where the frame is too short or the tag unknown. */
  function BlockSpecBytes(data: Bytes): Option<nat> {
    if |data| < 2 then None
    else if data[1] == 0 then if |data| < 2 + BLOCK_NUMBER_BYTES then None else Some(BLOCK_NUMBER_BYTES)
    else if data[1] == 1 then if |data| < 2 + BLOCK_HASH_BYTES then None else Some(BLOCK_HASH_BYTES)
    else None
  }

  /** Where the address starts and ends in an acceptable proof request. */
  function AddressStart(data: Bytes): Option<nat> {
    match BlockSpecBytes(data)
    case None => None
    case Some(n) =>
      if |data| < 2 + n + ADDRESS_BYTES || (|data| - (2 + n + ADDRESS_BYTES)) % STORAGE_KEY_BYTES != 0 then None
      else Some(2 + n)
  }

  function DecodeBlock(data: Bytes, end: nat): BlockSpec
    requires 2 <= end <= |data|
  {
    if data[1] == 0 then BlockNumber(Signed(BigEndian(data[2..end]))) else BlockHash(data[2..end])
  }

  function Decode(data: Bytes): Decoded
    requires data != []
  {
    if data[0] == OP_STATE_ROOT then
      if |data| != 1 + BLOCK_NUMBER_BYTES then Rejected(InvalidRequestData)
      else Accepted(StateRoot(Signed(BigEndian(data[1..]))))
    else if data[0] == OP_STATE_PROOF then
      match AddressStart(data)
      case None => Rejected(InvalidRequestData)
      case Some(start) =>
        var end := start + ADDRESS_BYTES;
        Accepted(StateProof(DecodeBlock(data, start), data[start..end], Chunks(data[end..])))
    else Rejected(InvalidOperationCode)
  }

  function EncodeBlock(block: BlockSpec): Bytes {
    match block
    case BlockNumber(n) => [0] + BigEndianBytes(Unsigned(n), BLOCK_NUMBER_BYTES)
    case BlockHash(h) => [1] + h
  }

  function Encode(request: Request): Bytes {
    match request
    case StateRoot(height) => [OP_STATE_ROOT] + BigEndianBytes(Unsigned(height), BLOCK_NUMBER_BYTES)
    case StateProof(block, address, storageKeys) =>
      [OP_STATE_PROOF] + EncodeBlock(block) + address + Concat(storageKeys)
  }

  predicate ValidBlock(block: BlockSpec) {
    match block
    case BlockNumber(n) => Int64(n)
    case BlockHash(h) => |h| == BLOCK_HASH_BYTES
  }

  predicate ValidRequest(request: Request) {
    match request
    case StateRoot(height) => Int64(height)
    case StateProof(block, address, storageKeys) =>
      ValidBlock(block) && |address| == ADDRESS_BYTES && AllKeys(storageKeys)
  }

  lemma BlockRoundTrip(data: Bytes, end: nat)
    requires 2 <= end <= |data|
    requires (data[1] == 0 && end == 2 + BLOCK_NUMBER_BYTES) || (data[1] == 1 && end == 2 + BLOCK_HASH_BYTES)
    ensures ValidBlock(DecodeBlock(data, end)) && EncodeBlock(DecodeBlock(data, end)) == data[1..end]
  {
    if data[1] == 0 {
      HeightOfBytes(data[2..end]);
    }
    assert data[1..end] == [data[1]] + data[2..end];
  }

  lemma Pieces(data: Bytes, a: nat, b: nat)
    requires 1 <= a <= b <= |data|
    ensures [data[0]] + data[1..a] + data[a..b] + data[b..] == data
  {
  }

  lemma EncodeDecodeProof(data: Bytes)
    requires data != [] && data[0] == OP_STATE_PROOF && Decode(data).Accepted?
    ensures ValidRequest(Decode(data).request) && Encode(Decode(data).request) == data
  {
    var start := AddressStart(data).value;
    var end := start + ADDRESS_BYTES;
    BlockRoundTrip(data, start);
    ChunksLossless(data[end..]);
    Pieces(data, start, end);
  }

  /** Every accepted frame is a valid request, and re-encodes to itself: nothing in it is dropped. */
  lemma EncodeDecode(data: Bytes)
    requires data != [] && Decode(data).Accepted?
    ensures ValidRequest(Decode(data).request) && Encode(Decode(data).request) == data
  {
    if data[0] == OP_STATE_ROOT {
      HeightOfBytes(data[1..]);
      assert data == [data[0]] + data[1..];
    } else {
      EncodeDecodeProof(data);
    }
  }

  lemma BlockDecodes(data: Bytes, block: BlockSpec, rest: Bytes)
    requires ValidBlock(block) && |rest| >= ADDRESS_BYTES && (|rest| - ADDRESS_BYTES) % STORAGE_KEY_BYTES == 0
    requires data == [OP_STATE_PROOF] + EncodeBlock(block) + rest
    ensures AddressStart(data) == Some(1 + |EncodeBlock(block)|)
    ensures DecodeBlock(data, 1 + |EncodeBlock(block)|) == block
    ensures data[1 + |EncodeBlock(block)|..] == rest
  {
    var start := 1 + |EncodeBlock(block)|;
    assert data[1] == EncodeBlock(block)[0];
    assert data[2..start] == EncodeBlock(block)[1..];
    if block.BlockNumber? {
      BytesOfHeight(block.number);
      assert data[2..start] == BigEndianBytes(Unsigned(block.number), BLOCK_NUMBER_BYTES);
    }
  }

  lemma ProofDecodes(head: Bytes, block: BlockSpec, address: Bytes, body: Bytes)
    requires ValidBlock(block) && |address| == ADDRESS_BYTES && |body| % STORAGE_KEY_BYTES == 0
    requires head == [OP_STATE_PROOF] + EncodeBlock(block)
    ensures Decode(head + address + body) == Accepted(StateProof(block, address, Chunks(body)))
  {
    var data, start, rest := head + address + body, |head|, address + body;
    assert data == head + rest;
    BlockDecodes(data, block, rest);
    assert data[start..start + ADDRESS_BYTES] == rest[..ADDRESS_BYTES] == address;
    assert data[start + ADDRESS_BYTES..] == rest[ADDRESS_BYTES..] == body;
  }

  lemma DecodeEncodeProof(block: BlockSpec, address: Bytes, storageKeys: seq<Bytes>)
    requires ValidRequest(StateProof(block, address, storageKeys))
    ensures
      var data := Encode(StateProof(block, address, storageKeys));
      data != [] && Decode(data) == Accepted(StateProof(block, address, storageKeys))
  {
    var head, body := [OP_STATE_PROOF] + EncodeBlock(block), Concat(storageKeys);
    ConcatChunks(storageKeys);
    ProofDecodes(head, block, address, body);
  }

  /** Every valid request is accepted and read back unchanged. */
  lemma DecodeEncode(request: Request)
    requires ValidRequest(request)
    ensures Encode(request) != [] && Decode(Encode(request)) == Accepted(request)
  {
    match request
    case StateRoot(height) =>
      BytesOfHeight(height);
      assert Encode(request)[1..] == BigEndianBytes(Unsigned(height), BLOCK_NUMBER_BYTES);
    case StateProof(block, address, storageKeys) => DecodeEncodeProof(block, address, storageKeys);
  }
}
