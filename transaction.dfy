/**
 * `RewardService::signTransaction`: the VeChain transaction body as a list of RLP
 * fields, the Blake2b hash of its encoding, and the raw transaction with the
 * signature appended. The secp256k1 signer is a parameter: it receives the hash and
 * the private key without "0x" and returns the signature's hex text, or the message
 * of the exception it throws.
 */
module Transaction {
  import opened Wrappers
  import opened Hex
  import opened Rlp
  import opened Blake2b

  /** One clause: the contract called, the value sent, the call data. */
  datatype Clause = Clause(to: string, value: string, data: string)

  /** The `$txBody` array; `dependsOn` is "" where the source has null. */
  datatype TxBody = TxBody(
    chainTag: PhpInt,
    blockRef: string,
    expiration: PhpInt,
    clauses: seq<Clause>,
    gas: PhpInt,
    gasPriceCoef: PhpInt,
    dependsOn: string,
    nonce: PhpInt,
    reserved: seq<Item>)

  /** `$x ? substr($x, 2) : ''`. */
  function Trimmed(s: string): (r: string)
    ensures |r| <= |s|
    ensures Truthy(s) && |s| >= 2 ==> s == s[..2] + r
    ensures !Truthy(s) ==> r == ""
  {
    if Truthy(s) then Drop(s, 2) else ""
  }

  /** The three fields of a clause: `to` and `data` lose their first two characters. */
  function ClauseItem(c: Clause): Item {
    List([Str(Trimmed(c.to)), Str(c.value), Str(Trimmed(c.data))])
  }

  /** The nine fields of the body, in the order VeChain signs them. */
  function BodyFields(tx: TxBody): (r: seq<Item>)
    ensures |r| == 9
  {
    [Int(tx.chainTag), Str(tx.blockRef), Int(tx.expiration),
     List(seq(|tx.clauses|, i requires 0 <= i < |tx.clauses| => ClauseItem(tx.clauses[i]))),
     Int(tx.gasPriceCoef), Int(tx.gas), Str(Trimmed(tx.dependsOn)), Int(tx.nonce), List(tx.reserved)]
  }

  /** The body holds no unsupported value when its reserved list holds none. */
  lemma BodyFieldsSupported(tx: TxBody)
    requires forall i | 0 <= i < |tx.reserved| :: Supported(tx.reserved[i])
    ensures Supported(List(BodyFields(tx)))
  {
    var fields := BodyFields(tx);
    assert Supported(fields[3]) by {
      var clauses := fields[3].items;
      forall i | 0 <= i < |clauses|
        ensures Supported(clauses[i])
      {
        assert clauses[i] == ClauseItem(tx.clauses[i]);
      }
    }
    assert Supported(fields[8]);
    assert forall i | 0 <= i < 9 :: Supported(fields[i]);
  }

  /** A clause whose texts are not all hex makes the body's texts not all hex. */
  lemma BodyFieldsNotHex(tx: TxBody, j: nat)
    requires j < |tx.clauses| && !HexTexts(ClauseItem(tx.clauses[j]))
    ensures !HexTexts(List(BodyFields(tx)))
  {
    var fields := BodyFields(tx);
    assert fields[3].items[j] == ClauseItem(tx.clauses[j]);
    assert !HexTexts(fields[3]);
  }

  /** Fields whose lengths PHP can hold, with room left for the signature list. */
  predicate Fits(body: seq<Item>) {
    Size(List(body)) + 300 < MaxText
  }

  /** Every text of the fields is whole-byte hex and every int is non-negative. */
  predicate Signable(body: seq<Item>) {
    Canonical(List(body)) && Fits(body)
  }

  /** The encoding of signable fields: hex of whole bytes, Appendix B's encoding. */
  function BodyEncoding(body: seq<Item>): (e: string)
    requires Signable(body)
    ensures IsByteHex(e) && HexToBytes(e) == RlpRef(ToTree(List(body)))
  {
    EncodeMatchesReference(List(body));
    Encode(List(body)).value
  }

  /** The hash signed for signable fields: Blake2b of their RLP bytes. */
  function SigningHash(body: seq<Item>): string
    requires Signable(body)
  {
    Digest(HexToBytes(BodyEncoding(body)))
  }

  /** Every warning of `hex2bin` starts with the function's name. */
  const Hex2Bin: string := "hex2bin(): "

  /**
   * `hex2bin`: the bytes of whole-byte hex text. On any other text PHP warns, and
   * the framework's error handler throws the warning as an ErrorException.
   */
  function HexBin(s: string): (r: Result<seq<byte>>)
    ensures r.Ok? <==> IsByteHex(s)
    ensures r.Ok? ==> r.value == HexToBytes(s)
    ensures r.Err? && |s| % 2 == 1 ==> r.error == Hex2Bin + "Hexadecimal input string must have an even length"
    ensures r.Err? && |s| % 2 == 0 ==> r.error == Hex2Bin + "Input string must be hexadecimal string"
  {
    if |s| % 2 == 1 then Err(Hex2Bin + "Hexadecimal input string must have an even length")
    else if !IsHex(s) then Err(Hex2Bin + "Input string must be hexadecimal string")
    else Ok(HexToBytes(s))
  }

  // ---------------------------------------------------------------------------
  // The signature fields
  // ---------------------------------------------------------------------------

  /** `substr($sigHex, -2)`: the last two characters, or all of a shorter text. */
  function LastTwo(sig: string): (r: string)
    ensures |r| == if |sig| < 2 then |sig| else 2
    ensures sig == sig[..|sig| - |r|] + r
  {
    if |sig| < 2 then sig else sig[|sig| - 2..]
  }

  /** `hexdec(substr($sigHex, -2)) % 2`: the parity of the signature's last byte. */
  function RecoveryBit(sig: string): (b: nat)
    ensures b < 2
  {
    HexDec(LastTwo(sig)) % 2
  }

  /** `substr($sigHex, 0, 64)` and `substr($sigHex, 64, 64)`. */
  function SigR(sig: string): string { Take(sig, 64) }

  function SigS(sig: string): string { Take(Drop(sig, 64), 64) }

  /** The signature as the source writes it: `['0x' . $r, '0x' . $s, '0x' . $v]`. */
  function SignatureItemsAsWritten(sig: string): seq<Item> {
    [Str("0x" + SigR(sig)), Str("0x" + SigS(sig)), Str("0x" + DecHex(RecoveryBit(sig)))]
  }

  /** The signature with v as a whole byte: the integer 0 or 1. */
  function SignatureItems(sig: string): seq<Item> {
    [Str("0x" + SigR(sig)), Str("0x" + SigS(sig)), Int(RecoveryBit(sig))]
  }

  /** What every secp256k1 signature text holds: at least r and s, 64 hex digits each. */
  predicate SignatureShape(sig: string) {
    |sig| >= 128 && IsHex(sig)
  }

  /** The body fields followed by the signature list, as `array_merge` builds them. */
  function SignedFields(body: seq<Item>, sig: string): seq<Item> {
    body + [List(SignatureItemsAsWritten(sig))]
  }

  /** The body fields followed by the signature list with v as a whole byte. */
  function CorrectedFields(body: seq<Item>, sig: string): seq<Item> {
    body + [List(SignatureItems(sig))]
  }

  /** Every exception inside `signTransaction` is rethrown with this prefix. */
  function SigningFailure(message: string): Result<string> {
    Err("Transaction signing failed: " + message)
  }

  /** "0x" and the encoding of the signed fields; an encoder error is wrapped. */
  function RawTransaction(body: seq<Item>, sig: string): Result<string>
    requires Fits(body)
  {
    SignedSize(body, sig);
    var e := Encode(List(SignedFields(body, sig)));
    if e.Err? then SigningFailure(e.error) else Ok("0x" + e.value)
  }

  /** The raw transaction over the corrected signature list. */
  function CorrectedRawTransaction(body: seq<Item>, sig: string): Result<string>
    requires Fits(body)
  {
    SignedSize(body, sig);
    var e := Encode(List(CorrectedFields(body, sig)));
    if e.Err? then SigningFailure(e.error) else Ok("0x" + e.value)
  }

  /**
   * `signTransaction` on its fields: encode them, hash the bytes, sign the hash with
   * the key without "0x", then encode the fields with the signature appended.
   */
  function SignedFieldsText(body: seq<Item>, privateKey: string, sign: (string, string) -> Result<string>): Result<string>
    requires Fits(body)
  {
    var e := Encode(List(body));
    if e.Err? then SigningFailure(e.error)
    else
      var bytes := HexBin(e.value);
      if bytes.Err? then SigningFailure(bytes.error)
      else
        var sig := sign(Digest(bytes.value), Drop(privateKey, 2));
        if sig.Err? then SigningFailure(sig.error)
        else RawTransaction(body, sig.value)
  }

  // ---------------------------------------------------------------------------
  // The method
  // ---------------------------------------------------------------------------

  /** `signTransaction`: the raw transaction of the body's fields. */
  method SignTransaction(tx: TxBody, privateKey: string, sign: (string, string) -> Result<string>)
    returns (r: Result<string>)
    requires Fits(BodyFields(tx))
    ensures r == SignedFieldsText(BodyFields(tx), privateKey, sign)
  {
    r := SignFields(BodyFields(tx), privateKey, sign);
  }

  method SignFields(fields: seq<Item>, privateKey: string, sign: (string, string) -> Result<string>)
    returns (r: Result<string>)
    requires Fits(fields)
    ensures r == SignedFieldsText(fields, privateKey, sign)
  {
    var encoded := Encode(List(fields));
    if encoded.Err? {
      return SigningFailure(encoded.error);
    }
    var bytes := HexBin(encoded.value);
    if bytes.Err? {
      return SigningFailure(bytes.error);
    }
    var messageHash := Blake2b256(bytes.value);
    var signature := sign(messageHash, Drop(privateKey, 2));
    if signature.Err? {
      return SigningFailure(signature.error);
    }
    r := RawTransaction(fields, signature.value);
  }

  // ---------------------------------------------------------------------------
  // Properties
  // ---------------------------------------------------------------------------

  lemma SignatureSize(sig: string)
    ensures Size(List(SignatureItems(sig))) <= 300 && Size(List(SignatureItemsAsWritten(sig))) <= 300
  {
    var items := SignatureItems(sig);
    SizeAllThree(items[0], items[1], items[2]);
    var written := SignatureItemsAsWritten(sig);
    SizeAllThree(written[0], written[1], written[2]);
    DecHexLength(RecoveryBit(sig), 1);
  }

  lemma SizeAllThree(a: Item, b: Item, c: Item)
    ensures SizeAll([a, b, c]) == Size(a) + Size(b) + Size(c)
  {
    assert [a, b, c][1..] == [b, c] && [b, c][1..] == [c] && [c][1..] == [];
    assert SizeAll([c]) == Size(c);
    assert SizeAll([b, c]) == Size(b) + SizeAll([c]);
  }

  /** Appending one field whose size leaves room keeps a list encodable. */
  lemma AppendSize(body: seq<Item>, x: Item)
    requires Size(List(body)) + Size(x) < MaxText
    ensures Encodable(List(body + [x])) && EncodableAll(body + [x])
    ensures EncodableAll(body) && EncodableAll([x]) && Encodable(x)
  {
    SizeAllAppend(body, [x]);
    assert [x][1..] == [];
  }

  lemma SignedSize(body: seq<Item>, sig: string)
    requires Fits(body)
    ensures Encodable(List(SignedFields(body, sig))) && Encodable(List(CorrectedFields(body, sig)))
  {
    SignatureSize(sig);
    AppendSize(body, List(SignatureItems(sig)));
    AppendSize(body, List(SignatureItemsAsWritten(sig)));
  }

  /** The hash signed is 32 bytes wide at least: 128 or more hex digits. */
  lemma SigningHashShape(body: seq<Item>)
    requires Signable(body)
    ensures IsHex(SigningHash(body)) && |SigningHash(body)| >= 128
  {
    DigestShape(HexToBytes(BodyEncoding(body)));
  }

  /**
   * On signable fields neither the encoder nor `hex2bin` throws: the signer is given
   * Blake2b of the fields' RLP bytes.
   */
  lemma SignableSigning(body: seq<Item>, privateKey: string, sign: (string, string) -> Result<string>)
    requires Signable(body)
    ensures SignedFieldsText(body, privateKey, sign) ==
      var sig := sign(SigningHash(body), Drop(privateKey, 2));
      if sig.Err? then SigningFailure(sig.error) else RawTransaction(body, sig.value)
  {
    EncodeMatchesReference(List(body));
  }

  /** A field of a type the encoder does not know fails the signing before the signer is called. */
  lemma UnsupportedFieldFails(body: seq<Item>, privateKey: string, sign: (string, string) -> Result<string>)
    requires Fits(body) && !Supported(List(body))
    ensures Encode(List(body)).Err?
    ensures SignedFieldsText(body, privateKey, sign) == SigningFailure(Encode(List(body)).error)
  {
    EncodeOkIffSupported(List(body));
  }

  /**
   * Fields of known types whose texts are not all hex encode, but `hex2bin` of the
   * encoding throws: the signing fails before the signer is called.
   */
  lemma NonHexFieldsFail(body: seq<Item>, privateKey: string, sign: (string, string) -> Result<string>)
    requires Fits(body) && Supported(List(body)) && !HexTexts(List(body))
    ensures Encode(List(body)).Ok? && HexBin(Encode(List(body)).value).Err?
    ensures SignedFieldsText(body, privateKey, sign) == SigningFailure(HexBin(Encode(List(body)).value).error)
  {
    EncodeOkIffSupported(List(body));
    EncodeHexTexts(List(body));
  }

  /** With a well-formed signature, each signature field is a whole-byte hex text. */
  lemma SignatureCanonical(sig: string)
    requires SignatureShape(sig)
    ensures Canonical(List(SignatureItems(sig)))
    ensures SigR(sig) == sig[..64] && SigS(sig) == sig[64..128]
  {
    assert StripPrefix("0x" + sig[..64]) == sig[..64];
    assert StripPrefix("0x" + sig[64..128]) == sig[64..128];
    assert IsByteHex(sig[..64]) && IsByteHex(sig[64..128]);
    var items := SignatureItems(sig);
    assert forall i | 0 <= i < 3 :: Canonical(items[i]);
  }

  /** Canonical fields stay canonical when one canonical field is appended. */
  lemma AppendCanonical(body: seq<Item>, x: Item)
    requires Canonical(List(body)) && Canonical(x)
    ensures Canonical(List(body + [x]))
  {
    var all := body + [x];
    assert forall i | 0 <= i < |all| :: all[i] == if i < |body| then body[i] else x;
  }

  /**
   * With v as a byte, the raw transaction is "0x" and whole-byte hex, and its bytes
   * are Appendix B's encoding of the ten fields: the body, then the list [r, s, v].
   */
  lemma RawTransactionIsRlp(body: seq<Item>, sig: string)
    requires Signable(body) && SignatureShape(sig)
    ensures Canonical(List(CorrectedFields(body, sig)))
    ensures var raw := CorrectedRawTransaction(body, sig);
      raw.Ok? && raw.value[..2] == "0x" && IsByteHex(raw.value[2..])
      && HexToBytes(raw.value[2..]) == RlpRef(ToTree(List(CorrectedFields(body, sig))))
  {
    SignedSize(body, sig);
    SignatureCanonical(sig);
    AppendCanonical(body, List(SignatureItems(sig)));
    var fields := CorrectedFields(body, sig);
    EncodeMatchesReference(List(fields));
    var e := Encode(List(fields)).value;
    assert ("0x" + e)[2..] == e;
  }

  /** Every signature list encodes: it holds only strings and an integer. */
  lemma SignatureEncodes(sig: string)
    ensures Encodable(List(SignatureItems(sig))) && Encode(List(SignatureItems(sig))).Ok?
    ensures Encodable(List(SignatureItemsAsWritten(sig))) && Encode(List(SignatureItemsAsWritten(sig))).Ok?
  {
    SignatureSize(sig);
    EncodeOkIffSupported(List(SignatureItems(sig)));
    EncodeOkIffSupported(List(SignatureItemsAsWritten(sig)));
  }

  /**
   * The signed list's payload is the body's payload followed by the signature list:
   * signing appends a field and leaves the body fields as they were hashed.
   */
  lemma SignedPayload(body: seq<Item>, sig: string)
    requires Signable(body)
    ensures EncodableAll(SignedFields(body, sig)) && EncodableAll(body)
    ensures EncodeAll(SignedFields(body, sig)).Ok? && EncodeAll(body).Ok?
    ensures Encodable(List(SignatureItemsAsWritten(sig))) && Encode(List(SignatureItemsAsWritten(sig))).Ok?
    ensures EncodeAll(SignedFields(body, sig)).value
      == EncodeAll(body).value + Encode(List(SignatureItemsAsWritten(sig))).value
  {
    var x := List(SignatureItemsAsWritten(sig));
    SignatureSize(sig);
    SignatureEncodes(sig);
    AppendSize(body, x);
    EncodeAllAppend(body, [x]);
    EncodeAllOne(x);
    assert forall i | 0 <= i < |body| :: Canonical(body[i]);
    EncodeAllMatchesReference(body);
  }

  lemma EncodeAllOne(x: Item)
    requires Encodable(x) && Encode(x).Ok?
    ensures EncodableAll([x]) && EncodeAll([x]) == Ok(Encode(x).value)
  {
    assert [x][1..] == [];
    assert Encode(x).value + "" == Encode(x).value;
  }

  /** Three encodable items that encode: their encodings in order. */
  lemma EncodeAllThree(x: Item, y: Item, z: Item)
    requires Size(x) + Size(y) + Size(z) < MaxText
    requires Encode(x).Ok? && Encode(y).Ok? && Encode(z).Ok?
    ensures EncodableAll([x, y, z])
    ensures EncodeAll([x, y, z]) == Ok(Encode(x).value + Encode(y).value + Encode(z).value)
  {
    SizeAllThree(x, y, z);
    var items := [x, y, z];
    assert items[1..] == [y, z];
    EncodeAllPair(y, z);
    EncodeAllStep(items);
    Associative(Encode(x).value, Encode(y).value, Encode(z).value);
  }

  // ---------------------------------------------------------------------------
  // v written as "0x" . dechex(bit)
  // ---------------------------------------------------------------------------

  /** "0x1" is a single hex digit, half a byte: it encodes to the three digits "801". */
  lemma WrittenRecoveryOne()
    ensures Encode(Str("0x" + DecHex(1))) == Ok("801")
    ensures Encode(Int(1)) == Ok("01")
  {
    assert DecHex(1) == "1";
    assert StripPrefix("0x1") == "1";
    assert LengthPrefix(0, 128) == "80" by {
      assert DecHex(128) == DecHex(8) + "0";
    }
    assert EncodeText("0x1") == "801";
    assert EvenPad(DecHexInt(1)) == "01";
  }

  /** "0x0" is PHP-empty after the prefix: it encodes to "80", as the integer 0 does. */
  lemma WrittenRecoveryZero()
    ensures Encode(Str("0x" + DecHex(0))) == Ok("80")
    ensures Encode(Int(0)) == Ok("80")
  {
    assert DecHex(0) == "0";
    assert StripPrefix("0x0") == "0";
  }

  /** With a well-formed signature, r and s encode to whole bytes. */
  lemma SignatureHalves(sig: string)
    requires SignatureShape(sig)
    ensures Encode(Str("0x" + SigR(sig))).Ok? && |Encode(Str("0x" + SigR(sig))).value| % 2 == 0
    ensures Encode(Str("0x" + SigS(sig))).Ok? && |Encode(Str("0x" + SigS(sig))).value| % 2 == 0
  {
    assert StripPrefix("0x" + SigR(sig)) == SigR(sig);
    assert StripPrefix("0x" + SigS(sig)) == SigS(sig);
  }

  /**
   * The signature list as written, when the recovery bit is 1, has an odd number of
   * hex digits: "0x1" contributes the three digits "801".
   */
  lemma WrittenSignatureOdd(sig: string)
    requires SignatureShape(sig) && RecoveryBit(sig) == 1
    ensures Encodable(List(SignatureItemsAsWritten(sig)))
    ensures Encode(List(SignatureItemsAsWritten(sig))).Ok?
    ensures |Encode(List(SignatureItemsAsWritten(sig))).value| % 2 == 1
  {
    var w := SignatureItemsAsWritten(sig);
    SignatureSize(sig);
    SizeAllThree(w[0], w[1], w[2]);
    WrittenRecoveryOne();
    SignatureHalves(sig);
    EncodeAllThree(w[0], w[1], w[2]);
    assert w == [w[0], w[1], w[2]];
    var e0, e1 := Encode(w[0]).value, Encode(w[1]).value;
    assert |e0| % 2 == 0 && |e1| % 2 == 0;
    AppendBound(e0, e1, |e0|, |e1|);
    var payload := EncodeAll(w).value;
    assert payload == e0 + e1 + "801";
    OddLength(e0 + e1, "801");
    var r := LengthPrefixed(payload, 192);
    assert |r| % 2 == 1;
    assert Encode(List(w)) == Ok(r);
  }

  lemma OddLength(even: string, odd: string)
    requires |even| % 2 == 0 && |odd| % 2 == 1
    ensures |even + odd| % 2 == 1
  {
  }

  /**
   * The raw transaction as written is not whole bytes when the recovery bit is 1:
   * its encoding has an odd number of hex digits, so `hex2bin` of it fails and the
   * node cannot decode it. This happens for about half of all signatures.
   */
  lemma RawTransactionAsWrittenOdd(body: seq<Item>, sig: string)
    requires Signable(body) && SignatureShape(sig) && RecoveryBit(sig) == 1
    ensures var raw := RawTransaction(body, sig);
      raw.Ok? && |raw.value| >= 2 && raw.value[..2] == "0x"
      && |raw.value[2..]| % 2 == 1 && !IsByteHex(raw.value[2..])
  {
    SignedSize(body, sig);
    SignedEncodingOdd(body, sig);
    var e := Encode(List(SignedFields(body, sig))).value;
    assert RawTransaction(body, sig) == Ok("0x" + e);
    assert ("0x" + e)[2..] == e;
  }

  lemma SignedEncodingOdd(body: seq<Item>, sig: string)
    requires Signable(body) && SignatureShape(sig) && RecoveryBit(sig) == 1
    ensures Encodable(List(SignedFields(body, sig)))
    ensures Encode(List(SignedFields(body, sig))).Ok?
    ensures |Encode(List(SignedFields(body, sig))).value| % 2 == 1
  {
    SignedPayload(body, sig);
    WrittenSignatureOdd(sig);
    assert forall i | 0 <= i < |body| :: Canonical(body[i]);
    EncodeAllMatchesReference(body);
    var a, w := EncodeAll(body).value, Encode(List(SignatureItemsAsWritten(sig))).value;
    assert |a| % 2 == 0;
    OddLength(a, w);
    SignedSize(body, sig);
    var fields := SignedFields(body, sig);
    assert EncodeAll(fields).value == a + w;
    EncodeListStep(fields);
    assert |LengthPrefixed(a + w, 192)| % 2 == 1;
  }

  /** When the recovery bit is 0 the written and the corrected signature encode alike. */
  lemma WrittenAgreesOnZero(sig: string)
    requires RecoveryBit(sig) == 0
    ensures Encodable(List(SignatureItemsAsWritten(sig))) && Encodable(List(SignatureItems(sig)))
    ensures Encode(List(SignatureItemsAsWritten(sig))) == Encode(List(SignatureItems(sig)))
  {
    var w, c := SignatureItemsAsWritten(sig), SignatureItems(sig);
    SignatureSize(sig);
    SizeAllThree(w[0], w[1], w[2]);
    SizeAllThree(c[0], c[1], c[2]);
    WrittenRecoveryZero();
    EncodeAllThree(w[0], w[1], w[2]);
    EncodeAllThree(c[0], c[1], c[2]);
    assert w == [w[0], w[1], w[2]] && c == [c[0], c[1], c[2]];
  }

  /** When the recovery bit is 0 the raw transaction as written is the corrected one. */
  lemma RawTransactionOnZero(body: seq<Item>, sig: string)
    requires Fits(body) && RecoveryBit(sig) == 0
    ensures RawTransaction(body, sig) == CorrectedRawTransaction(body, sig)
  {
    var w, c := List(SignatureItemsAsWritten(sig)), List(SignatureItems(sig));
    SignatureSize(sig);
    WrittenAgreesOnZero(sig);
    AppendSize(body, w);
    AppendSize(body, c);
    EncodeAllLastAgrees(body, w, c);
    assert Encode(List(SignedFields(body, sig))) == Encode(List(CorrectedFields(body, sig)));
  }

  /**
   * With a well-formed signature the raw transaction as written is "0x" and an
   * encoding; it is the corrected one when the recovery bit is 0, and not whole
   * bytes when it is 1.
   */
  lemma RawTransactionAsWritten(body: seq<Item>, sig: string)
    requires Signable(body) && SignatureShape(sig)
    ensures var raw := RawTransaction(body, sig);
      raw.Ok? && |raw.value| >= 2 && raw.value[..2] == "0x"
      && (RecoveryBit(sig) == 0 ==> raw == CorrectedRawTransaction(body, sig))
      && (RecoveryBit(sig) == 0 ==>
            IsByteHex(raw.value[2..]) && Canonical(List(CorrectedFields(body, sig)))
            && HexToBytes(raw.value[2..]) == RlpRef(ToTree(List(CorrectedFields(body, sig)))))
      && (RecoveryBit(sig) == 1 ==> !IsByteHex(raw.value[2..]))
  {
    if RecoveryBit(sig) == 0 {
      RawTransactionZeroIsRlp(body, sig);
    } else {
      RawTransactionAsWrittenOdd(body, sig);
    }
  }

  lemma RawTransactionZeroIsRlp(body: seq<Item>, sig: string)
    requires Signable(body) && SignatureShape(sig) && RecoveryBit(sig) == 0
    ensures var raw := RawTransaction(body, sig);
      raw == CorrectedRawTransaction(body, sig) && raw.Ok? && |raw.value| >= 2 && raw.value[..2] == "0x"
      && IsByteHex(raw.value[2..]) && Canonical(List(CorrectedFields(body, sig)))
      && HexToBytes(raw.value[2..]) == RlpRef(ToTree(List(CorrectedFields(body, sig))))
  {
    RawTransactionOnZero(body, sig);
    RawTransactionIsRlp(body, sig);
  }
}
