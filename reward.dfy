/**
 * `RewardService::triggerSmartContract`: validate the user and the distance, find
 * `submitDistance` in the contract's ABI, encode the call, estimate its gas, fetch
 * the block reference, build, sign and send the transaction, and wait for its
 * receipt. Every exception is rethrown with the prefix "Failed to trigger smart
 * contract: "; a PHP `Error` (a TypeError) is not an `Exception` and passes through.
 *
 * The node's answers, the ABI, the signer, Keccak-256 and the random nonce are
 * inputs. The result records the requests made to the node, in order.
 */
module Reward {
  import opened Wrappers
  import opened Hex
  import opened Rlp
  import opened Abi
  import opened Transaction
  import opened Node

  // ---------------------------------------------------------------------------
  // The service's configuration
  // ---------------------------------------------------------------------------

  /**
   * `fetchPrivateKeyFromVault`: the key from the environment (None when unset) is
   * accepted when it is truthy, starts with "0x" and has 66 characters.
   */
  function FetchPrivateKey(walletKey: Option<string>): (r: Result<string>)
    ensures r.Ok? <==> walletKey.Some? && |walletKey.value| == 66 && walletKey.value[..2] == "0x"
    ensures r.Ok? ==> r.value == walletKey.value
    ensures r.Err? ==> r.error == "Invalid private key"
  {
    if walletKey.None? || !Truthy(walletKey.value) || Take(walletKey.value, 2) != "0x"
       || |walletKey.value| != 66
    then Err("Invalid private key")
    else Ok(walletKey.value)
  }

  /** What the constructor reads from the environment. */
  datatype Service = Service(contractAddress: string, privateKey: string)

  /** The constructor: it throws when the private key is not accepted. */
  function NewService(contractAddress: string, walletKey: Option<string>): (r: Result<Service>)
    ensures r.Ok? <==> FetchPrivateKey(walletKey).Ok?
    ensures r.Ok? ==> (r.value.contractAddress == contractAddress
                       && |r.value.privateKey| == 66 && r.value.privateKey[..2] == "0x")
  {
    var key := FetchPrivateKey(walletKey);
    if key.Err? then Err(key.error) else Ok(Service(contractAddress, key.value))
  }

  // ---------------------------------------------------------------------------
  // isValidAddress
  // ---------------------------------------------------------------------------

  /**
   * `preg_match('/^0x[a-fA-F0-9]{40}$/', $address) === 1` as PCRE reads it: without
   * the D modifier `$` also matches before a final newline.
   */
  predicate IsValidAddressAsWritten(address: string) {
    IsAddress(address) || (|address| == 43 && address[42] == '\n' && IsAddress(address[..42]))
  }

  /**
   * The pattern as written lets an address with a trailing newline through, and its
   * call data then carries the newline inside the address word.
   */
  lemma TrailingNewlineAccepted(address: string, distance: PhpInt, signatureHash: string)
    requires IsAddress(address) && distance >= 0 && |signatureHash| >= 8
    ensures IsValidAddressAsWritten(address + "\n") && !IsAddress(address + "\n")
    ensures var data := CallData(SubmitDistanceInputs, SubmitParams(address + "\n", distance), signatureHash);
      data.Ok? && |data.value| == 202 && data.value[73] == '\n'
  {
    var a := address + "\n";
    assert a[..42] == address;
    var w0 := PadLeft(Drop(a, 2), 64);
    assert w0 == Zeros(23) + address[2..] + "\n";
    var params := SubmitParams(a, distance);
    var w1 := PadLeft(DecHexInt(distance), 64);
    var w2 := PadLeft(DecHexInt(1), 64);
    UintWord(distance);
    UintWord(1);
    assert params[..0] == [] && params[..1][..0] == [];
    assert params[..2][..1] == params[..1] && params[..3][..2] == params[..2] && params[..3] == params;
    assert EncodedParams(SubmitDistanceInputs, params[..1]) == Ok("" + w0);
    assert EncodedParams(SubmitDistanceInputs, params[..2]) == Ok("" + w0 + w1);
    assert EncodedParams(SubmitDistanceInputs, params) == Ok("" + w0 + w1 + w2);
    assert "" + w0 == w0;
    var data := "0x" + Take(signatureHash, 8) + (w0 + w1 + w2);
    assert data[73] == w0[63];
  }

  // ---------------------------------------------------------------------------
  // The transaction of one reward
  // ---------------------------------------------------------------------------

  /** `hexdec('0x4a')`: the testnet chain tag ("x" is not a hex digit and is skipped). */
  const ChainTag: PhpInt := 74

  lemma ChainTagValue()
    ensures HexDec("0x4a") == ChainTag
  {
    assert HexDec("0") == 0;
    assert "0x4a"[..3] == "0x4";
    assert "0x4"[..2] == "0x";
    assert "0x"[..1] == "0";
  }

  /** `[$userAddress, $distance, 1]`. */
  function SubmitParams(user: string, distance: PhpInt): seq<Param> {
    [PStr(user), PInt(distance), PInt(1)]
  }

  /** The one clause: call the contract, send no value, pass the call data. */
  function RewardClauses(contractAddress: string, data: string): (c: seq<Clause>)
    ensures c != []
  {
    [Clause(contractAddress, "0x0", data)]
  }

  /** `$txBody`: expiration 32 blocks, gas price coefficient 128, no dependency, nothing reserved. */
  function RewardBody(clauses: seq<Clause>, gas: PhpInt, blockRef: string, nonce: PhpInt): TxBody {
    TxBody(ChainTag, blockRef, 32, clauses, gas, 128, "", nonce, [])
  }

  /** A text the environment can hold: shorter than 4 GiB. */
  const MaxEnvText: nat := 0x1_0000_0000

  lemma {:induction false} SizeAllBound(items: seq<Item>, bound: nat)
    requires forall i | 0 <= i < |items| :: Size(items[i]) <= bound
    ensures SizeAll(items) <= |items| * bound
    decreases |items|
  {
    if items != [] {
      var rest := items[1..];
      assert forall i | 0 <= i < |rest| :: rest[i] == items[i + 1];
      SizeAllBound(rest, bound);
      assert Size(items[0]) <= bound;
      assert |items| * bound == bound + |rest| * bound;
    }
  }

  /** The reward's fields are far below PHP's length limit. */
  lemma RewardBodyFits(contractAddress: string, data: string, gas: PhpInt, blockRef: string, nonce: PhpInt)
    requires |contractAddress| < MaxEnvText && |data| <= 202 && |blockRef| <= 18
    ensures Fits(BodyFields(RewardBody(RewardClauses(contractAddress, data), gas, blockRef, nonce)))
  {
    var c := Clause(contractAddress, "0x0", data);
    var item := ClauseItem(c);
    var three := item.items;
    SizeAllThree(three[0], three[1], three[2]);
    assert three == [three[0], three[1], three[2]];
    assert Size(item) <= 0x4_0000_0000;
    var tx := RewardBody(RewardClauses(contractAddress, data), gas, blockRef, nonce);
    var fields := BodyFields(tx);
    var clauses := fields[3].items;
    SizeAllBound(clauses, 0x4_0000_0000);
    assert SizeAll(fields[8].items) == 0;
    SizeAllBound(fields, 0x8_0000_0000);
  }

  /** Hex text that cannot start with "0x", since 'x' is not a hex digit. */
  lemma HexUnprefixed(t: string)
    requires IsByteHex(t)
    ensures StripPrefix(t) == t
  {
    if |t| >= 2 {
      assert IsHexDigit(t[1]);
    }
  }

  /**
   * With a well-formed contract address, hex call data, a block reference that is
   * whole-byte hex and non-negative gas and nonce, every field of the reward is one
   * RLP encodes: a byte string or a non-negative integer.
   */
  lemma RewardBodySignable(contractAddress: string, data: string, gas: PhpInt, blockRef: string, nonce: PhpInt)
    requires IsAddress(contractAddress) && |data| <= 202 && |blockRef| <= 18
    requires |data| >= 2 && data[..2] == "0x" && IsByteHex(data[2..])
    requires Canonical(Str(blockRef)) && gas >= 0 && nonce >= 0
    ensures Signable(BodyFields(RewardBody(RewardClauses(contractAddress, data), gas, blockRef, nonce)))
  {
    RewardBodyFits(contractAddress, data, gas, blockRef, nonce);
    var to := Trimmed(contractAddress);
    assert to == contractAddress[2..];
    HexUnprefixed(to);
    var d := Trimmed(data);
    assert d == data[2..];
    HexUnprefixed(d);
    var c := ClauseItem(Clause(contractAddress, "0x0", data));
    assert Canonical(c);
    var tx := RewardBody(RewardClauses(contractAddress, data), gas, blockRef, nonce);
    var fields := BodyFields(tx);
    assert fields[3] == List([c]);
    assert Canonical(fields[3]);
    assert Canonical(fields[6]);
    assert Canonical(fields[8]);
  }

  // ---------------------------------------------------------------------------
  // triggerSmartContract
  // ---------------------------------------------------------------------------

  /** A request to the node. */
  datatype Request =
    | EstimateRequest(clauses: seq<Clause>)
    | BlockRequest
    | SendRequest(raw: string)
    | ReceiptRequest(txId: string)

  /** What the node answers, request by request; one answer per receipt request. */
  datatype NodeAnswers = NodeAnswers(
    gas: Exchange<Option<seq<Option<int>>>>,
    block: Exchange<Option<string>>,
    send: Exchange<SendReply>,
    receipts: seq<Exchange<ReceiptReply>>)

  /** The result of one call and the requests it made. */
  datatype Outcome = Outcome(result: Result<string>, requests: seq<Request>)

  const FailurePrefix: string := "Failed to trigger smart contract: "

  /** `throw new Exception('Failed to trigger smart contract: ' . $e->getMessage())`. */
  function Failed(message: string, requests: seq<Request>): Outcome {
    Outcome(Err(FailurePrefix + message), requests)
  }

  /** A TypeError is not caught: it leaves with its own message. */
  function Uncaught(message: string, requests: seq<Request>): Outcome {
    Outcome(Err(message), requests)
  }

  function Receipts(txId: string, n: nat): (r: seq<Request>)
    ensures |r| == n && forall i | 0 <= i < n :: r[i] == ReceiptRequest(txId)
  {
    seq(n, _ => ReceiptRequest(txId))
  }

  /** What `triggerSmartContract` returns or throws, and the requests it makes. */
  function Triggered(user: string, distance: PhpInt, service: Service, abi: seq<AbiEntry>,
                     keccak: string -> string, sign: (string, string) -> Result<string>,
                     nonce: PhpInt, node: NodeAnswers): Outcome
    requires |service.contractAddress| < MaxEnvText && MaxPolls <= |node.receipts|
  {
    if !IsValidAddressAsWritten(user) then Failed("Invalid user address", [])
    else if distance < 0 then Failed("Distance must be non-negative", [])
    else
      var entry := FindSubmitDistance(abi);
      if entry.Err? then Failed(entry.error, [])
      else
        var data := CallData(entry.value.inputs, SubmitParams(user, distance), keccak(Signature));
        if data.Err? then
          (if data.error == DechexTypeError then Uncaught(data.error, []) else Failed(data.error, []))
        else
          CallDataLength(entry.value.inputs, SubmitParams(user, distance), keccak(Signature));
          Submitted(service, data.value, sign, nonce, node)
  }

  /** From the call data on: estimate the gas, fetch the block reference, sign, send. */
  function Submitted(service: Service, data: string, sign: (string, string) -> Result<string>,
                     nonce: PhpInt, node: NodeAnswers): Outcome
    requires |service.contractAddress| < MaxEnvText && |data| <= 202 && MaxPolls <= |node.receipts|
  {
    var clauses := RewardClauses(service.contractAddress, data);
    var estimated := [EstimateRequest(clauses)];
    var gas := EstimateGas(clauses, node.gas);
    if gas.Err? then
      (if node.gas.Answer? && gas.error == GasTypeError then Uncaught(gas.error, estimated)
       else Failed(gas.error, estimated))
    else
      var fetched := estimated + [BlockRequest];
      var blockRef := GetBlockRef(node.block);
      if blockRef.Err? then Failed(blockRef.error, fetched)
      else Signed(service, data, sign, nonce, node, gas.value, blockRef.value, fetched)
  }

  /** From the gas and the block reference on: build the body, sign it, send it. */
  function Signed(service: Service, data: string, sign: (string, string) -> Result<string>,
                  nonce: PhpInt, node: NodeAnswers, gas: PhpInt, blockRef: string, before: seq<Request>): Outcome
    requires |service.contractAddress| < MaxEnvText && |data| <= 202 && |blockRef| <= 18
    requires MaxPolls <= |node.receipts|
  {
    RewardBodyFits(service.contractAddress, data, gas, blockRef, nonce);
    var tx := RewardBody(RewardClauses(service.contractAddress, data), gas, blockRef, nonce);
    var raw := SignedFieldsText(BodyFields(tx), service.privateKey, sign);
    if raw.Err? then Failed(raw.error, before)
    else Dispatched(raw.value, before, node)
  }

  /** From the signed transaction on: send it, then poll for its receipt. */
  function Dispatched(raw: string, before: seq<Request>, node: NodeAnswers): Outcome
    requires MaxPolls <= |node.receipts|
  {
    var sent := before + [SendRequest(raw)];
    var txId := SendTransaction(node.send);
    if txId.Err? then Failed(txId.error, sent)
    else
      var polled := Poll(node.receipts, 0);
      var all := sent + Receipts(txId.value, polled.requests);
      if polled.result.Err? then Failed(polled.result.error, all)
      else Outcome(Ok(txId.value), all)
  }

  /** `triggerSmartContract`, step by step. */
  method TriggerSmartContract(user: string, distance: PhpInt, service: Service, abi: seq<AbiEntry>,
                              keccak: string -> string, sign: (string, string) -> Result<string>,
                              nonce: PhpInt, node: NodeAnswers)
    returns (r: Result<string>, requests: seq<Request>)
    requires |service.contractAddress| < MaxEnvText && MaxPolls <= |node.receipts|
    ensures Outcome(r, requests) == Triggered(user, distance, service, abi, keccak, sign, nonce, node)
  {
    if !IsValidAddressAsWritten(user) {
      return Err(FailurePrefix + "Invalid user address"), [];
    }
    if distance < 0 {
      return Err(FailurePrefix + "Distance must be non-negative"), [];
    }
    var entry := FindSubmitDistance(abi);
    if entry.Err? {
      return Err(FailurePrefix + entry.error), [];
    }
    var data := EncodeFunctionCall(entry.value, SubmitParams(user, distance), keccak);
    if data.Err? {
      r := if data.error == DechexTypeError then data else Err(FailurePrefix + data.error);
      return r, [];
    }
    CallDataLength(entry.value.inputs, SubmitParams(user, distance), keccak(Signature));
    r, requests := Submit(service, data.value, sign, nonce, node);
  }

  method Submit(service: Service, data: string, sign: (string, string) -> Result<string>,
                nonce: PhpInt, node: NodeAnswers)
    returns (r: Result<string>, requests: seq<Request>)
    requires |service.contractAddress| < MaxEnvText && |data| <= 202 && MaxPolls <= |node.receipts|
    ensures Outcome(r, requests) == Submitted(service, data, sign, nonce, node)
  {
    var clauses := RewardClauses(service.contractAddress, data);
    requests := [EstimateRequest(clauses)];
    var gas := EstimateGas(clauses, node.gas);
    if gas.Err? {
      r := if node.gas.Answer? && gas.error == GasTypeError then Err(gas.error) else Err(FailurePrefix + gas.error);
      return;
    }
    requests := requests + [BlockRequest];
    var blockRef := GetBlockRef(node.block);
    if blockRef.Err? {
      return Err(FailurePrefix + blockRef.error), requests;
    }
    RewardBodyFits(service.contractAddress, data, gas.value, blockRef.value, nonce);
    var tx := RewardBody(clauses, gas.value, blockRef.value, nonce);
    var raw := SignTransaction(tx, service.privateKey, sign);
    if raw.Err? {
      return Err(FailurePrefix + raw.error), requests;
    }
    r, requests := Dispatch(raw.value, requests, node);
  }

  method Dispatch(raw: string, before: seq<Request>, node: NodeAnswers)
    returns (r: Result<string>, requests: seq<Request>)
    requires MaxPolls <= |node.receipts|
    ensures Outcome(r, requests) == Dispatched(raw, before, node)
  {
    requests := before + [SendRequest(raw)];
    var txId := SendTransaction(node.send);
    if txId.Err? {
      return Err(FailurePrefix + txId.error), requests;
    }
    var verified, polls := VerifyTransaction(node.receipts);
    requests := requests + Receipts(txId.value, polls);
    if verified.Err? {
      return Err(FailurePrefix + verified.error), requests;
    }
    r := Ok(txId.value);
  }

  // ---------------------------------------------------------------------------
  // Properties
  // ---------------------------------------------------------------------------

  predicate StartsWith(s: string, prefix: string) {
    |s| >= |prefix| && s[..|prefix|] == prefix
  }

  lemma PrefixedBy(p: string, m: string)
    ensures StartsWith(p + m, p)
  {
    assert (p + m)[..|p|] == p;
  }

  /**
   * The requests in the order the code makes them: the gas estimate, the block
   * reference, the raw transaction, then at most ten receipt requests.
   */
  predicate InOrder(q: seq<Request>) {
    |q| <= 3 + MaxPolls
    && (|q| >= 1 ==> q[0].EstimateRequest?)
    && (|q| >= 2 ==> q[1] == BlockRequest)
    && (|q| >= 3 ==> q[2].SendRequest?)
    && forall i | 3 <= i < |q| :: q[i].ReceiptRequest?
  }

  /** A bad address or a negative distance is refused before the ABI is read or any request is made. */
  lemma InvalidInputRejected(user: string, distance: PhpInt, service: Service, abi: seq<AbiEntry>,
                             keccak: string -> string, sign: (string, string) -> Result<string>,
                             nonce: PhpInt, node: NodeAnswers)
    requires |service.contractAddress| < MaxEnvText && MaxPolls <= |node.receipts|
    requires !IsValidAddressAsWritten(user) || distance < 0
    ensures var o := Triggered(user, distance, service, abi, keccak, sign, nonce, node);
      o.requests == []
      && o.result == Err(FailurePrefix + (if !IsValidAddressAsWritten(user) then "Invalid user address"
                                          else "Distance must be non-negative"))
  {
  }

  /** Every address the pattern accepts starts "0x": a digit, then a non-digit. */
  lemma AddressLeadingNumeric(user: string)
    requires IsValidAddressAsWritten(user)
    ensures LeadingNumeric(user)
  {
    assert user[..2] == "0x" by {
      if !IsAddress(user) {
        assert user[..42][..2] == user[..2];
      }
    }
    assert user[0] == '0' && user[1] == 'x';
  }

  /**
   * An ABI whose first input is a uint256 makes `dechex` read the address: "0x…" is
   * leading-numeric, so PHP warns, and the warning is caught and prefixed.
   */
  lemma AddressAsUintWarns(user: string, distance: PhpInt, service: Service, abi: seq<AbiEntry>,
                           keccak: string -> string, sign: (string, string) -> Result<string>,
                           nonce: PhpInt, node: NodeAnswers)
    requires |service.contractAddress| < MaxEnvText && MaxPolls <= |node.receipts|
    requires IsValidAddressAsWritten(user) && distance >= 0
    requires FindSubmitDistance(abi).Ok? && InputType(FindSubmitDistance(abi).value.inputs, 0) == Ok("uint256")
    ensures Triggered(user, distance, service, abi, keccak, sign, nonce, node) == Failed(NonNumericWarning, [])
  {
    AddressLeadingNumeric(user);
    var data := CallData(FindSubmitDistance(abi).value.inputs, SubmitParams(user, distance), keccak(Signature));
    LeadingNumericFirst(FindSubmitDistance(abi).value.inputs, SubmitParams(user, distance), keccak(Signature));
    assert data.error != DechexTypeError by {
      assert |NonNumericWarning| != |DechexTypeError|;
    }
  }

  /** An ABI without a `submitDistance` function fails before any request. */
  lemma MissingFunctionRejected(user: string, distance: PhpInt, service: Service, abi: seq<AbiEntry>,
                                keccak: string -> string, sign: (string, string) -> Result<string>,
                                nonce: PhpInt, node: NodeAnswers)
    requires |service.contractAddress| < MaxEnvText && MaxPolls <= |node.receipts|
    requires IsValidAddressAsWritten(user) && distance >= 0
    requires forall i | 0 <= i < |abi| :: !IsSubmitDistance(abi[i])
    ensures var o := Triggered(user, distance, service, abi, keccak, sign, nonce, node);
      o.requests == [] && o.result == Err(FailurePrefix + "submitDistance function not found in ABI")
  {
  }

  /** Sending and polling: one send request, then the receipt requests; every failure is prefixed. */
  lemma DispatchedShape(raw: string, before: seq<Request>, node: NodeAnswers)
    requires MaxPolls <= |node.receipts|
    ensures var o := Dispatched(raw, before, node);
      |before| + 1 <= |o.requests| <= |before| + 1 + MaxPolls
      && o.requests[..|before| + 1] == before + [SendRequest(raw)]
      && (forall i | |before| + 1 <= i < |o.requests| :: o.requests[i].ReceiptRequest?)
      && (o.result.Err? ==> StartsWith(o.result.error, FailurePrefix))
  {
    var o := Dispatched(raw, before, node);
    var sent := before + [SendRequest(raw)];
    var txId := SendTransaction(node.send);
    if txId.Ok? {
      var polled := Poll(node.receipts, 0);
      assert o.requests == sent + Receipts(txId.value, polled.requests);
      assert o.requests[..|sent|] == sent;
      if polled.result.Err? {
        PrefixedBy(FailurePrefix, polled.result.error);
      }
    } else {
      assert o.requests[..|sent|] == sent;
      PrefixedBy(FailurePrefix, txId.error);
    }
  }

  /** From the call data on, the requests are in order, and only a float gas total is not prefixed. */
  lemma SubmittedShape(service: Service, data: string, sign: (string, string) -> Result<string>,
                       nonce: PhpInt, node: NodeAnswers)
    requires |service.contractAddress| < MaxEnvText && |data| <= 202 && MaxPolls <= |node.receipts|
    ensures var o := Submitted(service, data, sign, nonce, node);
      InOrder(o.requests) && 1 <= |o.requests|
      && (o.result.Err? ==> StartsWith(o.result.error, FailurePrefix) || o.result.error == GasTypeError)
  {
    var o := Submitted(service, data, sign, nonce, node);
    var clauses := RewardClauses(service.contractAddress, data);
    var gas := EstimateGas(clauses, node.gas);
    var fetched := [EstimateRequest(clauses), BlockRequest];
    if gas.Err? {
      PrefixedBy(FailurePrefix, gas.error);
    } else {
      var blockRef := GetBlockRef(node.block);
      assert [EstimateRequest(clauses)] + [BlockRequest] == fetched;
      if blockRef.Err? {
        PrefixedBy(FailurePrefix, blockRef.error);
      } else {
        SignedShape(service, data, sign, nonce, node, gas.value, blockRef.value, fetched);
      }
    }
  }

  lemma SignedShape(service: Service, data: string, sign: (string, string) -> Result<string>,
                    nonce: PhpInt, node: NodeAnswers, gas: PhpInt, blockRef: string, before: seq<Request>)
    requires |service.contractAddress| < MaxEnvText && |data| <= 202 && |blockRef| <= 18
    requires MaxPolls <= |node.receipts|
    requires before == [EstimateRequest(RewardClauses(service.contractAddress, data)), BlockRequest]
    ensures var o := Signed(service, data, sign, nonce, node, gas, blockRef, before);
      InOrder(o.requests) && 2 <= |o.requests|
      && (o.result.Err? ==> StartsWith(o.result.error, FailurePrefix))
  {
    RewardBodyFits(service.contractAddress, data, gas, blockRef, nonce);
    var tx := RewardBody(RewardClauses(service.contractAddress, data), gas, blockRef, nonce);
    var raw := SignedFieldsText(BodyFields(tx), service.privateKey, sign);
    var o := Signed(service, data, sign, nonce, node, gas, blockRef, before);
    if raw.Err? {
      PrefixedBy(FailurePrefix, raw.error);
    } else {
      DispatchedShape(raw.value, before, node);
      var q := o.requests;
      assert q[..3] == before + [SendRequest(raw.value)];
      assert q[0] == q[..3][0] && q[1] == q[..3][1] && q[2] == q[..3][2];
    }
  }

  /**
   * Every failure carries the prefix, except the two TypeErrors the catch does not
   * see: `dechex` of a string, and a gas total beyond PHP's int range. The requests
   * are always made in order.
   */
  lemma TriggeredShape(user: string, distance: PhpInt, service: Service, abi: seq<AbiEntry>,
                       keccak: string -> string, sign: (string, string) -> Result<string>,
                       nonce: PhpInt, node: NodeAnswers)
    requires |service.contractAddress| < MaxEnvText && MaxPolls <= |node.receipts|
    ensures var o := Triggered(user, distance, service, abi, keccak, sign, nonce, node);
      InOrder(o.requests)
      && (o.result.Err? ==> StartsWith(o.result.error, FailurePrefix)
                            || o.result.error == DechexTypeError || o.result.error == GasTypeError)
  {
    if !IsValidAddressAsWritten(user) {
      PrefixedBy(FailurePrefix, "Invalid user address");
    } else if distance < 0 {
      PrefixedBy(FailurePrefix, "Distance must be non-negative");
    } else {
      var entry := FindSubmitDistance(abi);
      if entry.Err? {
        PrefixedBy(FailurePrefix, entry.error);
      } else {
        var data := CallData(entry.value.inputs, SubmitParams(user, distance), keccak(Signature));
        if data.Err? {
          PrefixedBy(FailurePrefix, data.error);
        } else {
          CallDataLength(entry.value.inputs, SubmitParams(user, distance), keccak(Signature));
          SubmittedShape(service, data.value, sign, nonce, node);
        }
      }
    }
  }

  /**
   * A reward that went through: the node accepted the transaction and its id is the
   * result, and the receipt was found and not reverted after some 1 to 10 requests.
   */
  lemma DispatchedSuccess(raw: string, before: seq<Request>, node: NodeAnswers)
    requires MaxPolls <= |node.receipts|
    requires Dispatched(raw, before, node).result.Ok?
    ensures var o := Dispatched(raw, before, node);
      SendTransaction(node.send).Ok? && o.result.value == SendTransaction(node.send).value
      && Poll(node.receipts, 0).result.Ok?
      && o.requests == before + [SendRequest(raw)] + Receipts(o.result.value, Poll(node.receipts, 0).requests)
  {
  }

  /**
   * On success the raw transaction sent is the signed body of the reward: chain tag
   * 74, the block reference, expiration 32, one clause calling the contract with the
   * call data and no value, gas price coefficient 128, the estimated gas, no
   * dependency, the nonce and nothing reserved.
   */
  lemma SubmittedSuccess(service: Service, data: string, sign: (string, string) -> Result<string>,
                         nonce: PhpInt, node: NodeAnswers)
    requires |service.contractAddress| < MaxEnvText && |data| <= 202 && MaxPolls <= |node.receipts|
    requires Submitted(service, data, sign, nonce, node).result.Ok?
    ensures var clauses := RewardClauses(service.contractAddress, data);
      var gas := EstimateGas(clauses, node.gas);
      var blockRef := GetBlockRef(node.block);
      gas.Ok? && blockRef.Ok?
      && Fits(BodyFields(RewardBody(clauses, gas.value, blockRef.value, nonce)))
      && var raw := SignedFieldsText(BodyFields(RewardBody(clauses, gas.value, blockRef.value, nonce)),
                                     service.privateKey, sign);
      raw.Ok?
      && Submitted(service, data, sign, nonce, node)
         == Dispatched(raw.value, [EstimateRequest(clauses), BlockRequest], node)
  {
    var clauses := RewardClauses(service.contractAddress, data);
    var gas := EstimateGas(clauses, node.gas);
    var blockRef := GetBlockRef(node.block);
    assert [EstimateRequest(clauses)] + [BlockRequest] == [EstimateRequest(clauses), BlockRequest];
    RewardBodyFits(service.contractAddress, data, gas.value, blockRef.value, nonce);
  }

  /** Past validation, the ABI lookup and the call data, the trigger is the submission. */
  lemma TriggeredSubmits(user: string, distance: PhpInt, service: Service, abi: seq<AbiEntry>,
                         keccak: string -> string, sign: (string, string) -> Result<string>,
                         nonce: PhpInt, node: NodeAnswers)
    requires |service.contractAddress| < MaxEnvText && MaxPolls <= |node.receipts|
    requires IsValidAddressAsWritten(user) && distance >= 0 && FindSubmitDistance(abi).Ok?
    requires CallData(FindSubmitDistance(abi).value.inputs, SubmitParams(user, distance), keccak(Signature)).Ok?
    ensures var data := CallData(FindSubmitDistance(abi).value.inputs, SubmitParams(user, distance), keccak(Signature));
      |data.value| <= 202
      && Triggered(user, distance, service, abi, keccak, sign, nonce, node)
         == Submitted(service, data.value, sign, nonce, node)
  {
    CallDataLength(FindSubmitDistance(abi).value.inputs, SubmitParams(user, distance), keccak(Signature));
  }

  /** A successful trigger validated its inputs, found the function and encoded the call. */
  lemma TriggeredSuccess(user: string, distance: PhpInt, service: Service, abi: seq<AbiEntry>,
                         keccak: string -> string, sign: (string, string) -> Result<string>,
                         nonce: PhpInt, node: NodeAnswers)
    requires |service.contractAddress| < MaxEnvText && MaxPolls <= |node.receipts|
    requires Triggered(user, distance, service, abi, keccak, sign, nonce, node).result.Ok?
    ensures IsValidAddressAsWritten(user) && distance >= 0 && FindSubmitDistance(abi).Ok?
    ensures CallData(FindSubmitDistance(abi).value.inputs, SubmitParams(user, distance), keccak(Signature)).Ok?
    ensures InputType(FindSubmitDistance(abi).value.inputs, 0) == Ok("address") ==> IsAddress(user)
  {
    if InputType(FindSubmitDistance(abi).value.inputs, 0) == Ok("address") && !IsAddress(user) {
      NewlineAddressNotSent(user, distance, service, abi, keccak, sign, nonce, node);
    }
  }

  /** Text with a character that is not a hex digit past its first two is not hex once "0x" is dropped. */
  lemma NotHexStripped(t: string, j: nat)
    requires 2 <= j < |t| && !IsHexDigit(t[j])
    ensures !IsHex(StripPrefix(t))
  {
    var u := StripPrefix(t);
    if u == t {
      assert !IsHexDigit(u[j]);
    } else {
      assert u == t[2..] && u[j - 2] == t[j];
    }
  }

  /**
   * Call data holding a character that is not a hex digit (past its first four) is
   * never sent: its clause field is not hex, so `hex2bin` of the body's encoding
   * throws inside the signing, before the signer is called.
   */
  lemma SignedRefusesNonHex(service: Service, data: string, sign: (string, string) -> Result<string>,
                            nonce: PhpInt, node: NodeAnswers, gas: PhpInt, blockRef: string,
                            before: seq<Request>, k: nat)
    requires |service.contractAddress| < MaxEnvText && |data| <= 202 && |blockRef| <= 18
    requires MaxPolls <= |node.receipts|
    requires 4 <= k < |data| && !IsHexDigit(data[k])
    ensures var o := Signed(service, data, sign, nonce, node, gas, blockRef, before);
      o.requests == before
      && o.result.Err? && StartsWith(o.result.error, FailurePrefix + "Transaction signing failed: " + Hex2Bin)
  {
    RewardBodyFits(service.contractAddress, data, gas, blockRef, nonce);
    var body := BodyFields(RewardBody(RewardClauses(service.contractAddress, data), gas, blockRef, nonce));
    RewardBodyNotHex(service.contractAddress, data, gas, blockRef, nonce, k);
    NonHexFieldsFail(body, service.privateKey, sign);
    var m := HexBin(Encode(List(body)).value).error;
    var o := Signed(service, data, sign, nonce, node, gas, blockRef, before);
    assert o == Failed(SigningFailure(m).error, before);
    SigningMessage(m);
  }

  /** A `hex2bin` warning, rethrown by the signing and then by the trigger. */
  lemma SigningMessage(m: string)
    requires m == Hex2Bin + "Hexadecimal input string must have an even length"
          || m == Hex2Bin + "Input string must be hexadecimal string"
    ensures StartsWith(Failed(SigningFailure(m).error, []).result.error,
                       FailurePrefix + "Transaction signing failed: " + Hex2Bin)
  {
    var p := FailurePrefix + "Transaction signing failed: " + Hex2Bin;
    var rest := m[|Hex2Bin|..];
    assert m == Hex2Bin + rest;
    assert FailurePrefix + ("Transaction signing failed: " + m) == p + rest;
    PrefixedBy(p, rest);
  }

  /** The clause of call data with a non-hex character past its first four is not all hex. */
  lemma ClauseNotHex(contractAddress: string, data: string, k: nat)
    requires 4 <= k < |data| && !IsHexDigit(data[k])
    ensures var c := ClauseItem(Clause(contractAddress, "0x0", data));
      Supported(c) && !HexTexts(c)
  {
    var t := Trimmed(data);
    assert t == data[2..] && t[k - 2] == data[k];
    NotHexStripped(t, k - 2);
    var c := ClauseItem(Clause(contractAddress, "0x0", data));
    assert !HexTexts(c.items[2]);
  }

  /** The reward's fields hold no unsupported value, and a non-hex call data character makes them not all hex. */
  lemma RewardBodyNotHex(contractAddress: string, data: string, gas: PhpInt, blockRef: string, nonce: PhpInt, k: nat)
    requires 4 <= k < |data| && !IsHexDigit(data[k])
    ensures var body := BodyFields(RewardBody(RewardClauses(contractAddress, data), gas, blockRef, nonce));
      Supported(List(body)) && !HexTexts(List(body))
  {
    var tx := RewardBody(RewardClauses(contractAddress, data), gas, blockRef, nonce);
    ClauseNotHex(contractAddress, data, k);
    assert tx.clauses[0] == Clause(contractAddress, "0x0", data);
    BodyFieldsNotHex(tx, 0);
    BodyFieldsSupported(tx);
  }

  /** From the call data on, call data with a non-hex character fails and sends nothing. */
  lemma SubmittedRefusesNonHex(service: Service, data: string, sign: (string, string) -> Result<string>,
                               nonce: PhpInt, node: NodeAnswers, k: nat)
    requires |service.contractAddress| < MaxEnvText && |data| <= 202 && MaxPolls <= |node.receipts|
    requires 4 <= k < |data| && !IsHexDigit(data[k])
    ensures var o := Submitted(service, data, sign, nonce, node);
      o.result.Err? && 1 <= |o.requests| <= 2 && forall i | 0 <= i < |o.requests| :: !o.requests[i].SendRequest?
  {
    var clauses := RewardClauses(service.contractAddress, data);
    var gas := EstimateGas(clauses, node.gas);
    var fetched := [EstimateRequest(clauses), BlockRequest];
    if gas.Ok? {
      var blockRef := GetBlockRef(node.block);
      assert [EstimateRequest(clauses)] + [BlockRequest] == fetched;
      if blockRef.Ok? {
        SignedRefusesNonHex(service, data, sign, nonce, node, gas.value, blockRef.value, fetched, k);
      }
    }
  }

  /**
   * The call data of an address the pattern lets through with a trailing newline
   * holds that newline inside the address word, 63 characters after the selector.
   */
  lemma NewlineInCallData(inputs: seq<string>, user: string, distance: PhpInt, signatureHash: string)
    requires IsValidAddressAsWritten(user) && !IsAddress(user) && InputType(inputs, 0) == Ok("address")
    ensures var d := CallData(inputs, SubmitParams(user, distance), signatureHash);
      var k := 2 + |Take(signatureHash, 8)| + 63;
      d.Ok? ==> k < |d.value| && d.value[k] == '\n'
  {
    var params := SubmitParams(user, distance);
    var d := CallData(inputs, params, signatureHash);
    if d.Ok? {
      EncodedParamsFirst(inputs, params);
      var w := WordAt(inputs, 0, params[0]).value;
      var tail := Drop(user, 2);
      assert w == PadLeft(tail, 64) && |tail| == 41 && tail[40] == '\n';
      assert w[63] == w[23..][40];
      var encoded := EncodedParams(inputs, params).value;
      assert encoded[63] == encoded[..|w|][63];
      var h := Take(signatureHash, 8);
      assert d.value == "0x" + h + encoded;
      assert d.value[2 + |h| + 63] == encoded[63];
    }
  }

  /**
   * An address with a trailing newline passes the pattern as written, but when the
   * first input is an address no transaction is ever sent: the estimate and the
   * block reference may be requested, then the signing fails.
   */
  lemma NewlineAddressNotSent(user: string, distance: PhpInt, service: Service, abi: seq<AbiEntry>,
                              keccak: string -> string, sign: (string, string) -> Result<string>,
                              nonce: PhpInt, node: NodeAnswers)
    requires |service.contractAddress| < MaxEnvText && MaxPolls <= |node.receipts|
    requires IsValidAddressAsWritten(user) && !IsAddress(user) && distance >= 0
    requires FindSubmitDistance(abi).Ok? && InputType(FindSubmitDistance(abi).value.inputs, 0) == Ok("address")
    ensures var o := Triggered(user, distance, service, abi, keccak, sign, nonce, node);
      o.result.Err? && |o.requests| <= 2 && forall i | 0 <= i < |o.requests| :: !o.requests[i].SendRequest?
  {
    var inputs := FindSubmitDistance(abi).value.inputs;
    var data := CallData(inputs, SubmitParams(user, distance), keccak(Signature));
    if data.Ok? {
      TriggeredSubmits(user, distance, service, abi, keccak, sign, nonce, node);
      NewlineInCallData(inputs, user, distance, keccak(Signature));
      var k := 2 + |Take(keccak(Signature), 8)| + 63;
      SubmittedRefusesNonHex(service, data.value, sign, nonce, node, k);
    }
  }

  /**
   * With a well-formed contract address, hex call data, a block reference of whole
   * bytes and non-negative gas and nonce, the signer is handed the hash of the
   * reward's RLP encoding, and a signer error fails the trigger with the signing
   * prefix. A signature of 64 hex bytes or more makes the text sent "0x" and the
   * encoding of the fields followed by the signature list as written: when the
   * recovery bit is 0 those are Appendix B's bytes of the fields followed by
   * [r, s, v], and when it is 1 the text is not whole bytes.
   */
  lemma SignedSendsRlp(service: Service, data: string, sign: (string, string) -> Result<string>,
                       nonce: PhpInt, node: NodeAnswers, gas: PhpInt, blockRef: string, before: seq<Request>)
    requires |service.contractAddress| < MaxEnvText && |data| <= 202 && |blockRef| <= 18
    requires MaxPolls <= |node.receipts|
    requires IsAddress(service.contractAddress) && |data| >= 2 && data[..2] == "0x" && IsByteHex(data[2..])
    requires Canonical(Str(blockRef)) && gas >= 0 && nonce >= 0
    ensures var body := BodyFields(RewardBody(RewardClauses(service.contractAddress, data), gas, blockRef, nonce));
      Signable(body)
      && var sig := sign(SigningHash(body), Drop(service.privateKey, 2));
      var o := Signed(service, data, sign, nonce, node, gas, blockRef, before);
      (sig.Err? ==> o == Failed(SigningFailure(sig.error).error, before))
      && (sig.Ok? && SignatureShape(sig.value) ==>
            var raw := RawTransaction(body, sig.value);
            raw.Ok? && |raw.value| >= 2 && raw.value[..2] == "0x"
            && o == Dispatched(raw.value, before, node)
            && (RecoveryBit(sig.value) == 0 ==>
                  IsByteHex(raw.value[2..]) && Canonical(List(CorrectedFields(body, sig.value)))
                  && HexToBytes(raw.value[2..]) == RlpRef(ToTree(List(CorrectedFields(body, sig.value)))))
            && (RecoveryBit(sig.value) == 1 ==> !IsByteHex(raw.value[2..])))
  {
    RewardBodySignable(service.contractAddress, data, gas, blockRef, nonce);
    var body := BodyFields(RewardBody(RewardClauses(service.contractAddress, data), gas, blockRef, nonce));
    SignedStep(service, data, sign, nonce, node, gas, blockRef, before);
    var sig := sign(SigningHash(body), Drop(service.privateKey, 2));
    if sig.Ok? && SignatureShape(sig.value) {
      RawTransactionAsWritten(body, sig.value);
    }
  }

  /** On a signable reward, the signing stage calls the signer once and sends what it builds. */
  lemma SignedStep(service: Service, data: string, sign: (string, string) -> Result<string>,
                   nonce: PhpInt, node: NodeAnswers, gas: PhpInt, blockRef: string, before: seq<Request>)
    requires |service.contractAddress| < MaxEnvText && |data| <= 202 && |blockRef| <= 18
    requires MaxPolls <= |node.receipts|
    requires Signable(BodyFields(RewardBody(RewardClauses(service.contractAddress, data), gas, blockRef, nonce)))
    ensures var body := BodyFields(RewardBody(RewardClauses(service.contractAddress, data), gas, blockRef, nonce));
      var sig := sign(SigningHash(body), Drop(service.privateKey, 2));
      Signed(service, data, sign, nonce, node, gas, blockRef, before)
        == if sig.Err? then Failed(SigningFailure(sig.error).error, before)
           else
             var raw := RawTransaction(body, sig.value);
             if raw.Err? then Failed(raw.error, before) else Dispatched(raw.value, before, node)
  {
    var body := BodyFields(RewardBody(RewardClauses(service.contractAddress, data), gas, blockRef, nonce));
    SignableSigning(body, service.privateKey, sign);
  }

  /**
   * Past a gas estimate that is not negative and a well-formed block id, the
   * submission signs the reward built on the id's first 8 bytes.
   */
  lemma SubmittedSigns(service: Service, data: string, sign: (string, string) -> Result<string>,
                       nonce: PhpInt, node: NodeAnswers, id: string)
    requires |service.contractAddress| < MaxEnvText && |data| <= 202 && MaxPolls <= |node.receipts|
    requires node.block == Answer(Some(id)) && IsBlockId(id)
    ensures var clauses := RewardClauses(service.contractAddress, data);
      var gas := EstimateGas(clauses, node.gas);
      gas.Ok? ==>
        Canonical(Str("0x" + id[2..18]))
        && Submitted(service, data, sign, nonce, node)
           == Signed(service, data, sign, nonce, node, gas.value, "0x" + id[2..18],
                     [EstimateRequest(clauses), BlockRequest])
  {
    BlockRefOfId(id);
    var clauses := RewardClauses(service.contractAddress, data);
    assert [EstimateRequest(clauses)] + [BlockRequest] == [EstimateRequest(clauses), BlockRequest];
  }
}
