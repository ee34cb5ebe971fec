/** What a state query asks of the node, and the form in which the node's answers are sent on. */
module StateNodes {
  import opened Wrappers
  import opened ByteStrings
  import opened StateRequests

  datatype StoreName = HashedAccounts | HashedStorages

  /** A proof is absent, or the data of each of its operations. */
  datatype Answer = Answer(value: Bytes, proof: Option<seq<Bytes>>)

  /** A block lookup ends in an error, in an answer that holds no block, or in what was asked of the block. */
  datatype Lookup<T> = Unavailable | NoBlock | Of(value: T)

  /** A node that cannot be reached answers every query with an error: None or Unavailable. */
  datatype Node = Node(
    query: (int, StoreName, Bytes) -> Option<Answer>,
    heightOf: Bytes -> Lookup<int>,
    appHash: int -> Lookup<Bytes>,
    workingHash: Bytes)

  const LOWEST_PROOF_HEIGHT: int := 3

  function HeightOf(node: Node, block: BlockSpec): Lookup<int> {
    match block
    case BlockNumber(number) => Of(number)
    case BlockHash(hash) => node.heightOf(hash)
  }

  /** Proof queries at height 2 and below are refused before the node is asked. */
  function ProofForKey(node: Node, height: int, store: StoreName, key: Bytes): Option<Answer> {
    if height < LOWEST_PROOF_HEIGHT then None else node.query(height, store, key)
  }

  // ---------- Hexadecimal ----------

  function Digit(n: byte): char
    requires n < 16
  {
    "0123456789abcdef"[n as int]
  }

  function DigitValue(c: char): (n: Option<byte>)
    ensures n.Some? ==> n.value < 16
  {
    if '0' <= c <= '9' then Some((c - '0') as byte)
    else if 'a' <= c <= 'f' then Some((c - 'a') as byte + 10)
    else None
  }

  function Digits(data: Bytes): string {
    if data == [] then "" else [Digit(data[0] / 16), Digit(data[0] % 16)] + Digits(data[1..])
  }

  function Undigits(s: string): Option<Bytes> {
    if s == "" then Some([])
    else if |s| == 1 then None
    else match (DigitValue(s[0]), DigitValue(s[1]), Undigits(s[2..]))
      case (Some(high), Some(low), Some(rest)) => Some([high * 16 + low] + rest)
      case _ => None
  }

  lemma DigitRoundTrip(n: byte)
    requires n < 16
    ensures DigitValue(Digit(n)) == Some(n)
  {
  }

  lemma TwoDigits(b: byte, rest: string)
    requires Undigits(rest).Some?
    ensures Undigits([Digit(b / 16), Digit(b % 16)] + rest) == Some([b] + Undigits(rest).value)
  {
    DigitRoundTrip(b / 16);
    DigitRoundTrip(b % 16);
    assert ([Digit(b / 16), Digit(b % 16)] + rest)[2..] == rest;
    assert (b / 16) * 16 + b % 16 == b;
  }

  lemma {:induction false} UndigitsDigits(data: Bytes)
    ensures Undigits(Digits(data)) == Some(data)
  {
    if data != [] {
      UndigitsDigits(data[1..]);
      TwoDigits(data[0], Digits(data[1..]));
      assert data == [data[0]] + data[1..];
    }
  }

  /** The data of one proof operation: nothing for empty data, otherwise hexutil.Encode. */
  function HexOf(data: Bytes): string {
    if data == [] then "" else "0x" + Digits(data)
  }

  /** The character of a value below 16: 0 to 9, then a to f. */
  predicate Hexadecimal(c: char, value: int) {
    (0 <= value < 10 && c as int == 48 + value) || (10 <= value < 16 && c as int == 87 + value)
  }

  lemma {:induction false} DigitsLength(data: Bytes)
    ensures |Digits(data)| == 2 * |data|
  {
    if data != [] {
      DigitsLength(data[1..]);
    }
  }

  lemma DigitShown(n: byte)
    requires n < 16
    ensures Hexadecimal(Digit(n), n as int)
  {
  }

  lemma {:induction false} DigitsAt(data: Bytes, i: nat)
    requires i < |data|
    ensures |Digits(data)| == 2 * |data|
    ensures Digits(data)[2 * i] == Digit(data[i] / 16) && Digits(data)[2 * i + 1] == Digit(data[i] % 16)
  {
    DigitsLength(data);
    if i > 0 {
      var rest := data[1..];
      DigitsLength(rest);
      DigitsAt(rest, i - 1);
      assert Digits(data)[2 * i] == Digits(rest)[2 * (i - 1)];
      assert Digits(data)[2 * i + 1] == Digits(rest)[2 * (i - 1) + 1];
    }
  }

  /** The characters that are sent: 0x and two lower-case digits a byte, the higher first; nothing for no data. */
  lemma HexLayout(data: Bytes)
    ensures data == [] ==> HexOf(data) == ""
    ensures data != [] ==> |HexOf(data)| == 2 + 2 * |data| && HexOf(data)[..2] == ['0', 'x']
    ensures forall i | 0 <= i < |data| ::
              && Hexadecimal(HexOf(data)[2 + 2 * i], data[i] as int / 16)
              && Hexadecimal(HexOf(data)[3 + 2 * i], data[i] as int % 16)
  {
    DigitsLength(data);
    forall i | 0 <= i < |data|
      ensures Hexadecimal(HexOf(data)[2 + 2 * i], data[i] as int / 16)
      ensures Hexadecimal(HexOf(data)[3 + 2 * i], data[i] as int % 16)
    {
      DigitsAt(data, i);
      DigitShown(data[i] / 16);
      DigitShown(data[i] % 16);
    }
  }

  function Unhex(s: string): Option<Bytes> {
    if s == "" then Some([])
    else if |s| >= 2 && s[..2] == "0x" then Undigits(s[2..])
    else None
  }

  lemma HexRoundTrip(data: Bytes)
    ensures Unhex(HexOf(data)) == Some(data)
  {
    UndigitsDigits(data);
    assert ("0x" + Digits(data))[2..] == Digits(data);
  }

  function HexAll(ops: seq<Bytes>): (proofs: seq<string>)
    ensures |proofs| == |ops| && forall i | 0 <= i < |ops| :: proofs[i] == HexOf(ops[i])
  {
    seq(|ops|, i requires 0 <= i < |ops| => HexOf(ops[i]))
  }

  function HexProofs(proof: Option<seq<Bytes>>): seq<string> {
    match proof case None => [""] case Some(ops) => HexAll(ops)
  }

  lemma HexAllInjective(a: seq<Bytes>, b: seq<Bytes>)
    ensures HexAll(a) == HexAll(b) <==> a == b
  {
    if HexAll(a) == HexAll(b) {
      forall i | 0 <= i < |a| ensures a[i] == b[i] {
        assert HexAll(a)[i] == HexAll(b)[i];
        HexRoundTrip(a[i]);
        HexRoundTrip(b[i]);
      }
    }
  }

  /** No proof, and a proof of one operation without data, are sent alike. */
  predicate LooksAbsent(proof: Option<seq<Bytes>>) {
    proof == None || proof == Some([[]])
  }

  /** The strings that are sent determine the proof, but for those two. */
  lemma HexProofsDistinguish(a: Option<seq<Bytes>>, b: Option<seq<Bytes>>)
    ensures HexProofs(a) == HexProofs(b) <==> a == b || (LooksAbsent(a) && LooksAbsent(b))
  {
    var one: seq<Bytes> := [[]];
    assert HexAll(one) == [""];
    HexAllInjective(if a.Some? then a.value else one, if b.Some? then b.value else one);
  }

  method GetHex(data: Bytes) returns (proof: string)
    ensures proof == HexOf(data)
  {
    proof := "";
    if |data| > 0 {
      proof := "0x" + Digits(data);
    }
  }

  /** The strings of a proof: an empty one without a proof, otherwise one that stands for each operation's data. */
  predicate Shows(strings: seq<string>, proof: Option<seq<Bytes>>) {
    match proof
    case None => strings == [""]
    case Some(ops) =>
      |strings| == |ops|
      && forall i | 0 <= i < |ops| :: Unhex(strings[i]) == Some(ops[i]) && (ops[i] == [] ==> strings[i] == "")
  }

  lemma HexProofsShow(proof: Option<seq<Bytes>>)
    ensures Shows(HexProofs(proof), proof)
  {
    if proof.Some? {
      forall i | 0 <= i < |proof.value| ensures Unhex(HexOf(proof.value[i])) == Some(proof.value[i]) {
        HexRoundTrip(proof.value[i]);
      }
    }
  }

  /** getHexProofs. */
  method GetHexProofs(proof: Option<seq<Bytes>>) returns (proofs: seq<string>)
    ensures proofs == HexProofs(proof)
  {
    if proof.None? {
      return [""];
    }
    var ops := proof.value;
    proofs := [];
    ghost var all := HexAll(ops);
    for i := 0 to |ops|
      invariant proofs == all[..i]
    {
      var hex := GetHex(ops[i]);
      proofs := proofs + [hex];
      assert all[..i + 1] == all[..i] + [all[i]];
    }
    assert all[..|ops|] == all;
  }

  // ---------- Values ----------

  lemma {:induction false} LeadingZeros(n: nat, b: Bytes)
    ensures BigEndian(Zeros(n) + b) == BigEndian(b)
    decreases n + |b|
  {
    if b == [] {
      assert Zeros(n) + b == Zeros(n);
      if n > 0 {
        LeadingZeros(n - 1, []);
        assert Zeros(n)[..n - 1] == Zeros(n - 1) == Zeros(n - 1) + [];
      }
    } else {
      var rest := b[..|b| - 1];
      LeadingZeros(n, rest);
      assert (Zeros(n) + b)[..n + |b| - 1] == Zeros(n) + rest;
    }
  }

  /** A value is sent as a number, which determines its bytes up to leading zeros. */
  lemma SameNumberWhen(a: Bytes, b: Bytes)
    requires |a| <= |b|
    ensures BigEndian(a) == BigEndian(b) <==> b == Zeros(|b| - |a|) + a
  {
    var padded := Zeros(|b| - |a|) + a;
    LeadingZeros(|b| - |a|, a);
    BytesOfNumber(b);
    BytesOfNumber(padded);
  }

  // ---------- The result of a proof request ----------

  datatype StorageResult = StorageResult(value: int, proof: seq<string>)

  datatype AccountResult = AccountResult(accountProof: seq<string>, storageProofs: seq<StorageResult>)

  function StorageResultOf(answer: Answer): StorageResult {
    StorageResult(BigEndian(answer.value), HexProofs(answer.proof))
  }

  /** The results for the first n storage keys: one query per key, under the account. */
  function StorageProofsOf(node: Node, height: int, address: Bytes, storageKeys: seq<Bytes>, n: nat)
    : Option<seq<StorageResult>>
    requires n <= |storageKeys|
  {
    if n == 0 then Some([])
    else
      match StorageProofsOf(node, height, address, storageKeys, n - 1)
      case None => None
      case Some(results) =>
        match ProofForKey(node, height, HashedStorages, address + storageKeys[n - 1])
        case None => None
        case Some(answer) => Some(results + [StorageResultOf(answer)])
  }

  /** The storage keys first, then the account. */
  function ProofOf(node: Node, height: int, address: Bytes, storageKeys: seq<Bytes>): Option<AccountResult> {
    match StorageProofsOf(node, height, address, storageKeys, |storageKeys|)
    case None => None
    case Some(storageProofs) =>
      match ProofForKey(node, height, HashedAccounts, address)
      case None => None
      case Some(answer) => Some(AccountResult(HexProofs(answer.proof), storageProofs))
  }

  /** A failed storage query fails the whole collection. */
  lemma {:induction false} FailureStays(node: Node, height: int, address: Bytes, storageKeys: seq<Bytes>,
                                        i: nat, n: nat)
    requires i < n <= |storageKeys|
    requires ProofForKey(node, height, HashedStorages, address + storageKeys[i]).None?
    ensures StorageProofsOf(node, height, address, storageKeys, n).None?
    decreases n
  {
    if i + 1 < n {
      FailureStays(node, height, address, storageKeys, i, n - 1);
    }
  }

  /** What the answer to the next query means for the collection. */
  lemma OneMoreQuery(node: Node, height: int, address: Bytes, storageKeys: seq<Bytes>, i: nat,
                     results: seq<StorageResult>)
    requires i < |storageKeys| && StorageProofsOf(node, height, address, storageKeys, i) == Some(results)
    ensures
      var answer := ProofForKey(node, height, HashedStorages, address + storageKeys[i]);
      && (answer.None? ==> StorageProofsOf(node, height, address, storageKeys, |storageKeys|) == None)
      && (answer.Some? ==>
            StorageProofsOf(node, height, address, storageKeys, i + 1)
            == Some(results + [StorageResultOf(answer.value)]))
  {
    if ProofForKey(node, height, HashedStorages, address + storageKeys[i]).None? {
      FailureStays(node, height, address, storageKeys, i, |storageKeys|);
    }
  }

  lemma {:induction false} CollectedWhen(node: Node, height: int, address: Bytes, storageKeys: seq<Bytes>, n: nat)
    requires n <= |storageKeys|
    ensures
      var results := StorageProofsOf(node, height, address, storageKeys, n);
      && (results.Some? <==>
            forall i | 0 <= i < n :: ProofForKey(node, height, HashedStorages, address + storageKeys[i]).Some?)
      && (results.Some? ==>
            && |results.value| == n
            && forall i | 0 <= i < n ::
                 results.value[i]
                 == StorageResultOf(ProofForKey(node, height, HashedStorages, address + storageKeys[i]).value))
  {
    if n > 0 {
      CollectedWhen(node, height, address, storageKeys, n - 1);
    }
  }

  /** Height above 2, and an answer for the account and for every storage key. */
  predicate Answered(node: Node, height: int, address: Bytes, storageKeys: seq<Bytes>) {
    && height > 2
    && node.query(height, HashedAccounts, address).Some?
    && forall i | 0 <= i < |storageKeys| :: node.query(height, HashedStorages, address + storageKeys[i]).Some?
  }

  /** The account's proof, and the number and the proof of each storage key in the order of the request. */
  predicate Carries(result: AccountResult, node: Node, height: int, address: Bytes, storageKeys: seq<Bytes>)
    requires Answered(node, height, address, storageKeys)
  {
    && Shows(result.accountProof, node.query(height, HashedAccounts, address).value.proof)
    && |result.storageProofs| == |storageKeys|
    && forall i | 0 <= i < |storageKeys| ::
         var answer := node.query(height, HashedStorages, address + storageKeys[i]).value;
         && result.storageProofs[i].value == BigEndian(answer.value)
         && Shows(result.storageProofs[i].proof, answer.proof)
  }

  /** A proof is returned exactly when the node answers all that is asked, and carries those answers. */
  lemma ProvedWhen(node: Node, height: int, address: Bytes, storageKeys: seq<Bytes>)
    ensures
      var result := ProofOf(node, height, address, storageKeys);
      && (result.Some? <==> Answered(node, height, address, storageKeys))
      && (result.Some? ==> Carries(result.value, node, height, address, storageKeys))
  {
    CollectedWhen(node, height, address, storageKeys, |storageKeys|);
    var result := ProofOf(node, height, address, storageKeys);
    if result.Some? {
      HexProofsShow(node.query(height, HashedAccounts, address).value.proof);
      forall i | 0 <= i < |storageKeys|
        ensures
          var answer := node.query(height, HashedStorages, address + storageKeys[i]).value;
          && result.value.storageProofs[i].value == BigEndian(answer.value)
          && Shows(result.value.storageProofs[i].proof, answer.proof)
      {
        HexProofsShow(node.query(height, HashedStorages, address + storageKeys[i]).value.proof);
      }
    }
  }

  // ---------- Requests ----------

  /** NilBlock is a use of the block in an answer that holds none, which ends the process. */
  datatype Proving = Proven(result: AccountResult) | Unproven | NilBlock

  /** getProof in terms of the request alone. */
  function ProvingOf(node: Node, block: BlockSpec, address: Bytes, storageKeys: seq<Bytes>): Proving {
    match HeightOf(node, block)
    case Unavailable => Unproven
    case NoBlock => NilBlock
    case Of(height) =>
      match ProofOf(node, height, address, storageKeys)
      case None => Unproven
      case Some(result) => Proven(result)
  }

  datatype Response =
    | Failure(error: Error)
    | NodeFailure
    | Root(hash: Bytes)
    | Proved(result: AccountResult)
    | Crashed

  /** The state root after the pending changes for height -1, of a block from height 0 on. */
  function StateRootResponse(node: Node, height: int): Response {
    if height < -1 then Failure(InvalidRequestData)
    else if height == -1 then Root(node.workingHash)
    else match node.appHash(height)
      case Unavailable => NodeFailure
      case NoBlock => Crashed
      case Of(hash) => Root(hash)
  }

  function ProofResponse(proving: Proving): Response {
    match proving
    case Proven(result) => Proved(result)
    case Unproven => Failure(InvalidRequestData)
    case NilBlock => Crashed
  }

  /** The response to a frame, in terms of the frame alone. */
  function Respond(node: Node, data: Bytes): Response
    requires data != []
  {
    match Decode(data)
    case Rejected(error) => Failure(error)
    case Accepted(StateRoot(height)) => StateRootResponse(node, height)
    case Accepted(StateProof(block, address, storageKeys)) =>
      ProofResponse(ProvingOf(node, block, address, storageKeys))
  }

  // ---------- What requests are answered ----------

  /**
   A request for a state root: below height -1 it is refused, at -1 answered with the working hash, and from 0 on with
   the hash of that block, which the node may not have, or not give.
   */
  lemma RootAnswered(node: Node, height: int)
    requires Int64(height)
    ensures Encode(StateRoot(height)) != []
    ensures
      var response := Respond(node, Encode(StateRoot(height)));
      && (height < -1 ==> response == Failure(InvalidRequestData))
      && (height == -1 ==> response == Root(node.workingHash))
      && (height >= 0 && node.appHash(height).Of? ==> response == Root(node.appHash(height).value))
      && (height >= 0 && node.appHash(height).Unavailable? ==> response == NodeFailure)
      && (height >= 0 && node.appHash(height).NoBlock? ==> response == Crashed)
  {
    DecodeEncode(StateRoot(height));
  }

  /** The height that a block specification stands for: the number itself, or that of the block with the hash. */
  predicate StandsFor(node: Node, block: BlockSpec, height: int) {
    if block.BlockNumber? then block.number == height else node.heightOf(block.hash) == Of(height)
  }

  lemma ProofAtHeight(node: Node, block: BlockSpec, address: Bytes, storageKeys: seq<Bytes>, height: int)
    requires StandsFor(node, block, height)
    ensures
      var response := ProofResponse(ProvingOf(node, block, address, storageKeys));
      if Answered(node, height, address, storageKeys)
      then response.Proved? && Carries(response.result, node, height, address, storageKeys)
      else response == Failure(InvalidRequestData)
  {
    ProvedWhen(node, height, address, storageKeys);
  }

  /**
   A request for a proof: answered with what the node answers at the block's height, refused if that is not all, or if
   the node does not give the block; a block that the node does not have ends the process.
   */
  lemma ProofAnswered(node: Node, block: BlockSpec, address: Bytes, storageKeys: seq<Bytes>)
    requires ValidRequest(StateProof(block, address, storageKeys))
    ensures Encode(StateProof(block, address, storageKeys)) != []
    ensures
      var response := Respond(node, Encode(StateProof(block, address, storageKeys)));
      && (block.BlockHash? && node.heightOf(block.hash).NoBlock? <==> response == Crashed)
      && (block.BlockHash? && node.heightOf(block.hash).Unavailable? ==> response == Failure(InvalidRequestData))
      && forall height | StandsFor(node, block, height) ::
           if Answered(node, height, address, storageKeys)
           then response.Proved? && Carries(response.result, node, height, address, storageKeys)
           else response == Failure(InvalidRequestData)
  {
    DecodeEncode(StateProof(block, address, storageKeys));
    var response := ProofResponse(ProvingOf(node, block, address, storageKeys));
    forall height | StandsFor(node, block, height)
      ensures if Answered(node, height, address, storageKeys)
              then response.Proved? && Carries(response.result, node, height, address, storageKeys)
              else response == Failure(InvalidRequestData)
    {
      ProofAtHeight(node, block, address, storageKeys, height);
    }
  }

  /** A frame that cannot be read is refused as it is decoded. */
  lemma UnreadableAnswered(node: Node, data: Bytes)
    requires data != [] && Decode(data).Rejected?
    ensures Respond(node, data) == Failure(Decode(data).error)
  {
  }
}
