/**
 Serving a state-proof request from the buffer it was read into. The storage keys and the address are slices of that
 buffer, and each query key is built by appending to the address slice, in place, over the bytes of the first key.
 */
module StateProofs {
  import opened Wrappers
  import opened ByteStrings
  import opened StateRequests
  import opened StateNodes

  // ---------- Slices ----------

  /** A window of an array; appending may use the array up to the capacity. */
  datatype Slice = Slice(arr: array<byte>, off: nat, len: nat, cap: nat) {
    predicate Ok() {
      len <= cap && off + cap <= arr.Length
    }

    function Bytes(): ByteStrings.Bytes
      requires Ok()
      reads arr
    {
      arr[..][off..off + len]
    }
  }

  /** The buffer with some bytes written over it. */
  function Overwrite(buffer: Bytes, at: nat, bytes: Bytes): Bytes
    requires at + |bytes| <= |buffer|
  {
    seq(|buffer|, i requires 0 <= i < |buffer| => if at <= i < at + |bytes| then bytes[i - at] else buffer[i])
  }

  lemma OverwriteBytes(before: Bytes, after: Bytes, at: nat, bytes: Bytes)
    requires at + |bytes| <= |before| == |after|
    requires forall i | 0 <= i < |before| ::
               after[i] == if at <= i < at + |bytes| then bytes[i - at] else before[i]
    ensures after == Overwrite(before, at, bytes)
  {
  }

  lemma OverwriteExtends(before: Bytes, from: nat, at: nat, bytes: Bytes)
    requires from <= at && at + |bytes| <= |before|
    ensures Overwrite(before, at, bytes)[from..at + |bytes|] == before[from..at] + bytes
    ensures Overwrite(before, at, bytes)[from..at] == before[from..at]
  {
    var after := Overwrite(before, at, bytes);
    var a, b := after[from..at + |bytes|], before[from..at] + bytes;
    assert |a| == |b|;
    forall i | 0 <= i < |a| ensures a[i] == b[i] {
      assert a[i] == after[from + i];
    }
  }

  method WriteAt(arr: array<byte>, at: nat, bytes: Bytes)
    requires at + |bytes| <= arr.Length
    modifies arr
    ensures arr[..] == Overwrite(old(arr[..]), at, bytes)
  {
    ghost var before := arr[..];
    forall i | 0 <= i < |bytes| {
      arr[at + i] := bytes[i];
    }
    OverwriteBytes(before, arr[..], at, bytes);
  }

  /** A new array that holds just these bytes. */
  method SliceOf(bytes: Bytes) returns (r: Slice)
    ensures r.Ok() && fresh(r.arr) && r.Bytes() == bytes
  {
    var copy := new byte[|bytes|](i requires 0 <= i < |bytes| => bytes[i]);
    r := Slice(copy, 0, |bytes|, |bytes|);
    assert copy[..] == bytes && bytes[0..|bytes|] == bytes;
  }

  /** append(s, t...): in place when the capacity allows, otherwise into a new array. */
  method AppendTo(s: Slice, t: Slice) returns (r: Slice)
    requires s.Ok() && t.Ok()
    modifies s.arr
    ensures r.Ok() && r.Bytes() == old(s.Bytes()) + old(t.Bytes())
    ensures s.len + t.len <= s.cap ==>
              && r == Slice(s.arr, s.off, s.len + t.len, s.cap)
              && s.arr[..] == Overwrite(old(s.arr[..]), s.off + s.len, old(t.Bytes()))
    ensures s.cap < s.len + t.len ==> fresh(r.arr) && s.arr[..] == old(s.arr[..])
  {
    var added := t.arr[..][t.off..t.off + t.len];
    if s.len + t.len <= s.cap {
      ghost var before := s.arr[..];
      WriteAt(s.arr, s.off + s.len, added);
      r := Slice(s.arr, s.off, s.len + t.len, s.cap);
      OverwriteExtends(before, s.off, s.off + s.len, added);
    } else {
      var both := s.arr[..][s.off..s.off + s.len] + added;
      r := SliceOf(both);
    }
  }

  // ---------- Cutting the request ----------

  datatype Parsed =
    | Refused(error: Error)
    | RootAt(height: int)
    | Proof(block: BlockSpec, address: Slice, keys: seq<Slice>)

  predicate KeyAt(address: Slice, i: nat, key: Slice) {
    && key.arr == address.arr
    && key.off == address.off + address.len + KeysBytes(i)
    && key.len == STORAGE_KEY_BYTES
    && key.Ok()
  }

  /** Address and keys lie back to back in one array, the keys each of full width. */
  predicate Chunked(address: Slice, keys: seq<Slice>) {
    && address.Ok()
    && address.off + address.cap == address.arr.Length
    && address.off + address.len + KeysBytes(|keys|) <= address.arr.Length
    && forall i | 0 <= i < |keys| :: KeyAt(address, i, keys[i])
  }

  /** The i-th key of the request as it stands in the buffer. */
  function KeyBytes(buffer: Bytes, addressEnd: nat, i: nat): Bytes
    requires addressEnd + KeysBytes(i + 1) <= |buffer|
  {
    var from := addressEnd + KeysBytes(i);
    buffer[from..from + STORAGE_KEY_BYTES]
  }

  /** The first n keys as they stand in a buffer. */
  function Received(buffer: Bytes, end: nat, n: nat): (r: seq<Bytes>)
    requires end + KeysBytes(n) <= |buffer|
    ensures |r| == n
  {
    if n == 0 then [] else Received(buffer, end, n - 1) + [KeyBytes(buffer, end, n - 1)]
  }

  lemma {:induction false} ReceivedAt(buffer: Bytes, end: nat, n: nat, i: nat)
    requires i < n && end + KeysBytes(n) <= |buffer|
    ensures Received(buffer, end, n)[i] == KeyBytes(buffer, end, i)
    decreases n
  {
    if i + 1 < n {
      ReceivedAt(buffer, end, n - 1, i);
    }
  }

  /** What Parse owes for the frame it was given. */
  ghost predicate Reads(parsed: Parsed, buffer: array<byte>, n: nat)
    requires 0 < n <= buffer.Length
    reads buffer
  {
    match Decode(buffer[..n])
    case Rejected(error) => parsed == Refused(error)
    case Accepted(StateRoot(height)) => parsed == RootAt(height)
    case Accepted(StateProof(block, address, storageKeys)) =>
      && parsed.Proof? && parsed.block == block
      && parsed.address.arr == buffer && Chunked(parsed.address, parsed.keys)
      && parsed.address.Bytes() == address
      && parsed.address.off + parsed.address.len + KeysBytes(|parsed.keys|) == n
      && Received(buffer[..], parsed.address.off + parsed.address.len, |parsed.keys|) == storageKeys
  }

  /** The chunking loop. */
  method CutKeys(buffer: array<byte>, n: nat, address: Slice) returns (keys: seq<Slice>)
    requires address.Ok() && address.arr == buffer && n <= buffer.Length
    requires address.off + address.len <= n && address.off + address.cap == buffer.Length
    requires (n - (address.off + address.len)) % STORAGE_KEY_BYTES == 0
    ensures Chunked(address, keys)
    ensures address.off + address.len + KeysBytes(|keys|) == n
  {
    var addressEnd := address.off + address.len;
    var noOfStorageKeys := (n - addressEnd) / STORAGE_KEY_BYTES;
    keys := [];
    for i := 0 to noOfStorageKeys
      invariant |keys| == i
      invariant forall j | 0 <= j < i :: KeyAt(address, j, keys[j])
    {
      var start := addressEnd + KeysBytes(i);
      keys := keys + [Slice(buffer, start, STORAGE_KEY_BYTES, buffer.Length - start)];
    }
  }

  lemma SliceOfSlice(b: Bytes, n: nat, start: nat, from: nat, to: nat)
    requires start + from <= start + to <= n <= |b|
    ensures b[..n][start..][from..to] == b[start + from..start + to]
  {
    var inner := b[..n][start..];
    assert forall i | 0 <= i < |inner| :: inner[i] == b[start + i];
    var a, c := inner[from..to], b[start + from..start + to];
    assert |a| == |c|;
    forall i | 0 <= i < |a| ensures a[i] == c[i] {
      assert a[i] == inner[from + i];
    }
  }

  lemma KeyIsChunk(buffer: Bytes, n: nat, end: nat, i: nat)
    requires end + KeysBytes(i + 1) <= n <= |buffer| && (n - end) % STORAGE_KEY_BYTES == 0
    ensures
      var body := buffer[..n][end..];
      |Chunks(body)| == |body| / STORAGE_KEY_BYTES > i && Chunks(body)[i] == KeyBytes(buffer, end, i)
  {
    ChunkAt(buffer[..n][end..], i);
    SliceOfSlice(buffer, n, end, KeysBytes(i), KeysBytes(i + 1));
  }

  /** The keys as they stand in the buffer are the keys that decoding cuts off. */
  lemma ReceivedAreChunks(buffer: Bytes, n: nat, end: nat, count: nat)
    requires end + KeysBytes(count) == n <= |buffer|
    ensures (n - end) % STORAGE_KEY_BYTES == 0
    ensures Received(buffer, end, count) == Chunks(buffer[..n][end..])
  {
    var body := buffer[..n][end..];
    ChunksLossless(body);
    forall i | 0 <= i < count ensures Received(buffer, end, count)[i] == Chunks(body)[i] {
      ReceivedAt(buffer, end, count, i);
      KeyIsChunk(buffer, n, end, i);
    }
  }

  /** The slices of a proof request whose lengths have been checked. */
  method CutProof(buffer: array<byte>, n: nat, blockSpecBytes: nat) returns (parsed: Parsed)
    requires 0 < n <= buffer.Length && buffer[0] == OP_STATE_PROOF
    requires AddressStart(buffer[..n]) == Some(2 + blockSpecBytes)
    ensures Reads(parsed, buffer, n)
  {
    ghost var data := buffer[..n];
    var addressStart := 2 + blockSpecBytes;
    var addressEnd := addressStart + ADDRESS_BYTES;
    var block :=
      if buffer[1] == 0 then BlockNumber(Signed(BigEndian(buffer[2..addressStart])))
      else BlockHash(buffer[2..addressStart]);
    var address := Slice(buffer, addressStart, ADDRESS_BYTES, buffer.Length - addressStart);
    var keys := CutKeys(buffer, n, address);
    assert data[2..addressStart] == buffer[2..addressStart];
    assert data[addressStart..addressEnd] == buffer[addressStart..addressEnd];
    ReceivedAreChunks(buffer[..], n, addressEnd, |keys|);
    assert buffer[..][..n] == data;
    return Proof(block, address, keys);
  }

  method ParseProof(buffer: array<byte>, n: nat) returns (parsed: Parsed)
    requires 0 < n <= buffer.Length && buffer[0] == OP_STATE_PROOF
    ensures Reads(parsed, buffer, n)
  {
    if n < 2 {
      return Refused(InvalidRequestData);
    }
    var blockSpecBytes: nat;
    if buffer[1] == 0 {
      if n < 2 + BLOCK_NUMBER_BYTES {
        return Refused(InvalidRequestData);
      }
      blockSpecBytes := BLOCK_NUMBER_BYTES;
    } else if buffer[1] == 1 {
      if n < 2 + BLOCK_HASH_BYTES {
        return Refused(InvalidRequestData);
      }
      blockSpecBytes := BLOCK_HASH_BYTES;
    } else {
      return Refused(InvalidRequestData);
    }
    assert BlockSpecBytes(buffer[..n]) == Some(blockSpecBytes);
    var addressEnd := 2 + blockSpecBytes + ADDRESS_BYTES;
    if n < addressEnd || (n - addressEnd) % STORAGE_KEY_BYTES != 0 {
      return Refused(InvalidRequestData);
    }
    parsed := CutProof(buffer, n, blockSpecBytes);
  }

  /** handleStateQuery up to the call of StateProof: the request is read from the first n bytes of the buffer. */
  method Parse(buffer: array<byte>, n: nat) returns (parsed: Parsed)
    requires 0 < n <= buffer.Length
    ensures Reads(parsed, buffer, n)
  {
    ghost var data := buffer[..n];
    var operation := buffer[0];
    if operation == OP_STATE_ROOT {
      if n != 1 + BLOCK_NUMBER_BYTES {
        return Refused(InvalidRequestData);
      }
      assert data[1..] == buffer[1..n];
      return RootAt(Signed(BigEndian(buffer[1..n])));
    } else if operation == OP_STATE_PROOF {
      parsed := ParseProof(buffer, n);
    } else {
      return Refused(InvalidOperationCode);
    }
  }

  // ---------- Collecting the proofs ----------

  /** The buffer before the i-th query: each earlier query has written its key over the first one. */
  function BeforeQuery(buffer: Bytes, end: nat, i: nat): (now: Bytes)
    requires end + KeysBytes(i) <= |buffer|
    ensures |now| == |buffer|
  {
    if i == 0 then buffer
    else Overwrite(BeforeQuery(buffer, end, i - 1), end, KeyBytes(buffer, end, i - 1))
  }

  /** Only the place of the first key ever changes. */
  lemma {:induction false} OnlyFirstKeyChanges(buffer: Bytes, end: nat, i: nat, j: nat)
    requires end + KeysBytes(i) <= |buffer| && j < |buffer|
    requires i == 0 || !(end <= j < end + STORAGE_KEY_BYTES)
    ensures BeforeQuery(buffer, end, i)[j] == buffer[j]
    decreases i
  {
    if i > 0 {
      OnlyFirstKeyChanges(buffer, end, i - 1, j);
    }
  }

  /** The i-th key is as received until its own query: of the keys only the first place is ever written over. */
  lemma KeyIntact(was: Bytes, end: nat, i: nat)
    requires end + KeysBytes(i + 1) <= |was|
    ensures KeyBytes(BeforeQuery(was, end, i), end, i) == KeyBytes(was, end, i)
  {
    var a, b := KeyBytes(BeforeQuery(was, end, i), end, i), KeyBytes(was, end, i);
    forall k | 0 <= k < STORAGE_KEY_BYTES ensures a[k] == b[k] {
      OnlyFirstKeyChanges(was, end, i, end + KeysBytes(i) + k);
    }
  }

  /** The address, and everything else before the keys, is as received before every query. */
  lemma AddressIntact(was: Bytes, off: nat, end: nat, i: nat)
    requires off <= end && end + KeysBytes(i) <= |was|
    ensures BeforeQuery(was, end, i)[off..end] == was[off..end]
  {
  }

  /** Before its query a key reads as received, and so does the address. */
  lemma BeforeItsQuery(was: Bytes, address: Slice, keys: seq<Slice>, i: nat)
    requires Chunked(address, keys) && i < |keys| && |was| == address.arr.Length
    ensures address.off + address.len + KeysBytes(|keys|) <= |was|
    ensures address.off + address.len + KeysBytes(i + 1) <= |was|
    ensures
      var end := address.off + address.len;
      var now := BeforeQuery(was, end, i);
      && keys[i].Ok() && keys[i].arr == address.arr && address.len + keys[i].len <= address.cap
      && now[keys[i].off..keys[i].off + keys[i].len] == Received(was, end, |keys|)[i] == KeyBytes(was, end, i)
      && now[address.off..end] == was[address.off..end]
  {
    var end := address.off + address.len;
    assert KeyAt(address, i, keys[i]);
    assert end + KeysBytes(i + 1) <= end + KeysBytes(|keys|);
    ReceivedAt(was, end, |keys|, i);
    KeyIntact(was, end, i);
    AddressIntact(was, address.off, end, i);
  }

  /** The query of one iteration: its key is the address and the key as they now stand in the buffer. */
  method QueryStorage(node: Node, height: int, address: Slice, key: Slice) returns (answer: Option<Answer>)
    requires address.Ok() && key.Ok() && address.len + key.len <= address.cap
    modifies address.arr
    ensures answer == ProofForKey(node, height, HashedStorages, old(address.Bytes()) + old(key.Bytes()))
    ensures address.arr[..] == Overwrite(old(address.arr[..]), address.off + address.len, old(key.Bytes()))
  {
    var query := AppendTo(address, key);
    answer := ProofForKey(node, height, HashedStorages, query.Bytes());
  }

  /** The results for the first n of `count` keys of a request, given the buffer it was received in. */
  ghost function Collected(node: Node, height: int, was: Bytes, address: Slice, count: nat, n: nat)
    : Option<seq<StorageResult>>
    requires address.off + address.len + KeysBytes(count) <= |was| && n <= count
  {
    var end := address.off + address.len;
    StorageProofsOf(node, height, was[address.off..end], Received(was, end, count), n)
  }

  /** The buffer as it stands before the i-th query, with the address as received. */
  ghost predicate ReadyFor(address: Slice, was: Bytes, i: nat)
    requires address.Ok() && address.off + address.len + KeysBytes(i) <= |was|
    reads address.arr
  {
    && address.arr[..] == BeforeQuery(was, address.off + address.len, i)
    && address.Bytes() == was[address.off..address.off + address.len]
  }

  /** The i-th iteration of the loop, in terms of the buffer as it was before the first. */
  method CollectOne(node: Node, height: int, address: Slice, keys: seq<Slice>, i: nat, results: seq<StorageResult>,
                    ghost was: Bytes)
    returns (more: Option<seq<StorageResult>>)
    requires Chunked(address, keys) && i < |keys| && |was| == address.arr.Length
    requires ReadyFor(address, was, i)
    requires Collected(node, height, was, address, |keys|, i) == Some(results)
    modifies address.arr
    ensures ReadyFor(address, was, i + 1)
    ensures more.Some? ==> Collected(node, height, was, address, |keys|, i + 1) == more
    ensures more.None? ==> Collected(node, height, was, address, |keys|, |keys|) == None
  {
    ghost var end := address.off + address.len;
    BeforeItsQuery(was, address, keys, i);
    AddressIntact(was, address.off, end, i + 1);
    ghost var received := Received(was, end, |keys|);
    OneMoreQuery(node, height, was[address.off..end], received, i, results);
    assert keys[i].Bytes() == received[i];
    var answer := QueryStorage(node, height, address, keys[i]);
    assert address.arr[..] == BeforeQuery(was, end, i + 1);
    if answer.None? {
      return None;
    }
    var proof := GetHexProofs(answer.value.proof);
    return Some(results + [StorageResult(BigEndian(answer.value.value), proof)]);
  }

  /** The loop of getProof over the storage keys. */
  method CollectStorage(node: Node, height: int, address: Slice, keys: seq<Slice>)
    returns (storageProofs: Option<seq<StorageResult>>)
    requires Chunked(address, keys)
    modifies address.arr
    ensures storageProofs == Collected(node, height, old(address.arr[..]), address, |keys|, |keys|)
    ensures address.Bytes() == old(address.Bytes())
    ensures storageProofs.Some? ==>
              address.arr[..] == BeforeQuery(old(address.arr[..]), address.off + address.len, |keys|)
  {
    ghost var was := address.arr[..];
    var results: seq<StorageResult> := [];
    for i := 0 to |keys|
      invariant ReadyFor(address, was, i)
      invariant Collected(node, height, was, address, |keys|, i) == Some(results)
    {
      var more := CollectOne(node, height, address, keys, i, results, was);
      if more.None? {
        return None;
      }
      results := more.value;
    }
    return Some(results);
  }

  /**
   getProof. The result is that of the request as it was received, although every iteration overwrites the first key
   in the buffer; the address is intact for the last query. After a complete collection the first key's place holds
   the last key, and the rest of the buffer is unchanged.
   */
  method GetProof(node: Node, block: BlockSpec, address: Slice, keys: seq<Slice>) returns (result: Proving)
    requires Chunked(address, keys)
    modifies address.arr
    ensures
      var storageKeys := Received(old(address.arr[..]), address.off + address.len, |keys|);
      result == ProvingOf(node, block, old(address.Bytes()), storageKeys)
    ensures address.Bytes() == old(address.Bytes())
    ensures result.Proven? ==>
              address.arr[..] == BeforeQuery(old(address.arr[..]), address.off + address.len, |keys|)
  {
    match HeightOf(node, block)
    case Unavailable =>
      return Unproven;
    case NoBlock =>
      return NilBlock;
    case Of(height) =>
      var storageProofs := CollectStorage(node, height, address, keys);
      if storageProofs.None? {
        return Unproven;
      }
      var account := ProofForKey(node, height, HashedAccounts, address.Bytes());
      if account.None? {
        return Unproven;
      }
      var accountProof := GetHexProofs(account.value.proof);
      return Proven(AccountResult(accountProof, storageProofs.value));
  }

  /** After the last query the first key's place holds the last key, and the rest of the buffer is unchanged. */
  lemma BufferAfterAll(buffer: Bytes, end: nat, n: nat)
    requires n > 0 && end + KeysBytes(n) <= |buffer|
    ensures BeforeQuery(buffer, end, n) == Overwrite(buffer, end, KeyBytes(buffer, end, n - 1))
  {
  }

  /** A complete collection leaves the buffer unchanged exactly when the first and the last key are equal. */
  lemma BufferUnchangedWhen(buffer: Bytes, end: nat, n: nat)
    requires n > 0 && end + KeysBytes(n) <= |buffer|
    ensures BeforeQuery(buffer, end, n) == buffer <==> KeyBytes(buffer, end, 0) == KeyBytes(buffer, end, n - 1)
  {
    BufferAfterAll(buffer, end, n);
    var last := KeyBytes(buffer, end, n - 1);
    var after := Overwrite(buffer, end, last);
    var first := buffer[end..end + STORAGE_KEY_BYTES];
    assert KeyBytes(buffer, end, 0) == first;
    if KeyBytes(buffer, end, 0) == last {
      forall j | 0 <= j < |buffer| ensures after[j] == buffer[j] {
        if end <= j < end + STORAGE_KEY_BYTES {
          assert buffer[j] == first[j - end];
        }
      }
    } else {
      var k :| 0 <= k < STORAGE_KEY_BYTES && first[k] != last[k];
      assert after[end + k] == last[k] && buffer[end + k] == first[k];
    }
  }

  // ---------- A whole request ----------

  /** handleStateQuery: parsing and collecting from one shared buffer answers what was asked. */
  method HandleStateQuery(node: Node, buffer: array<byte>, n: nat) returns (response: Response)
    requires 0 < n <= buffer.Length
    modifies buffer
    ensures response == Respond(node, old(buffer[..n]))
  {
    ghost var data := buffer[..n];
    var parsed := Parse(buffer, n);
    match parsed
    case Refused(error) =>
      return Failure(error);
    case RootAt(height) =>
      return StateRootResponse(node, height);
    case Proof(block, address, keys) =>
      assert Decode(data).Accepted? && Decode(data).request.StateProof?;
      var proving := GetProof(node, block, address, keys);
      return ProofResponse(proving);
  }
}
