# Trip rewards, trip limits and suspicious patterns: a Dafny model

This project models three parts of the trip backend.

- **`RewardService`** pays a user for a trip's distance by calling the
  `submitDistance(address,uint256,uint256)` function of a VeChain contract. It
  checks the user and the distance, finds the function in the contract's ABI and
  encodes the call. It then estimates the gas, fetches the block reference and
  builds the nine-field transaction body. The body is signed over a Blake2b-256
  hash of its RLP encoding. Finally the raw transaction is sent, and the service
  polls for the receipt at most ten times.
- **`ThresholdService::checkAndValidateTripLimits`** lets a trip through only
  from a mobile device. The trip must also be within the wallet's daily
  threshold, the city's daily threshold and the system's daily threshold. An
  accepted trip increments the wallet's daily counter and the city's daily
  counter.
- **`TripAnalysisController::suspiciousPatterns`** takes the grouped rows of
  suspicious windows and splits each row's reasons into (sensor type, reason)
  patterns. It sums their frequencies, averages their confidence scores, sorts
  them by frequency and cuts the list to the requested limit.

The modules follow the code:

| module | what it holds |
|---|---|
| `Wrappers` | `Option` and `Result` |
| `Hex` | hex digits, `hexdec`, `dechex`, `str_pad`, `hex2bin` |
| `Rlp` | `rlpEncode`, plus a byte-level reference encoding from Appendix B of the Ethereum Yellow Paper |
| `Abi` | `encodeFunctionCall`, the ABI lookup and a decoder of the call data |
| `Blake2b` | `blake2b256`, imperative over arrays as written, with a functional specification |
| `Transaction` | `signTransaction` |
| `Node` | `estimateGas`, `getBlockRef`, `sendTransaction`, `verifyTransaction` |
| `Reward` | `fetchPrivateKeyFromVault`, `isValidAddress`, `triggerSmartContract` |
| `Threshold` | the `ThresholdService` class and `DailyCount::incrementCount` |
| `Patterns` | the aggregation loop of `suspiciousPatterns` and its reference definition |

Each of these is an input:

- every answer of the VeChain node (already decoded from JSON), or the exception the HTTP client threw;
- the secp256k1 signer and Keccak-256;
- the nonce that `random_int` draws;
- the private key from the environment;
- for the limits: the user agent's device, the city found for the IP, and today's database rows.

Where PHP has a quirk, the model follows it:

- `empty("0")` is true;
- `dechex` of a negative number is its 64-bit two's complement;
- `substr` past the end gives "";
- a `TypeError` escapes `catch (Exception $e)`;
- a warning (from `hex2bin`, or from a leading-numeric string passed as an int) is thrown by the framework's error handler as an `ErrorException`, which `catch (Exception $e)` sees;
- without the `D` modifier, `$` in `/^0x[a-fA-F0-9]{40}$/` also matches before a final newline;
- a deprecation notice is only logged, not thrown. This covers `hexdec('0x4a')` skipping the invalid 'x' (`Reward.ChainTagValue`) and `dechex` of the fractional length in the odd-length branch of `Rlp.Encode`, which loses precision. Both go on with their value.

The request pipeline (`Reward.Triggered`, `Reward.TriggerSmartContract`,
`Reward.Submit`, `Transaction.SignTransaction`) follows the code as written. It
checks the user with `Reward.IsValidAddressAsWritten`, which lets a final newline
through. It appends the signature list `Transaction.SignedFields`, whose v is the
text `'0x' . dechex(bit)`. The two findings below each have a corrected half that
the pipeline does not use: `Abi.IsAddress` (exactly "0x" and 40 hex digits) and
`Transaction.CorrectedFields` / `Transaction.CorrectedRawTransaction` (v as the
integer 0 or 1). The properties of a well-formed reward call are proved on the
corrected halves (`Abi.SubmitDistanceRoundTrip`, `Transaction.RawTransactionIsRlp`).
Lemmas then tie them to the pipeline: `Transaction.RawTransactionOnZero` shows the
two raw transactions are equal when the recovery bit is 0, and
`Reward.TriggeredSuccess` shows a successful trigger had a strict address.

## Model

| member | source | states |
|---|---|---|
| Hex.DecHexValue | app/Services/RewardService.php:237-241 | `hexdec(dechex(n)) == n` for every n ≥ 0, and `dechex` has a leading zero only for zero |
| Hex.HexToBytesToHex | app/Services/RewardService.php:389 | `hex2bin` inverts the encoding of bytes as hex |
| Hex.HexToBytesAppend | app/Services/RewardService.php:389 | `hex2bin` of a concatenation is the concatenation of the two byte strings |
| Rlp.Encode | app/Services/RewardService.php:204-249 | the encoding is at most the item's size bound; it has even length whenever every text in it has even length |
| Rlp.EncodeText | app/Services/RewardService.php:219-235 | a text encodes to at least 2 characters, and to an even number exactly when its stripped hex has even length or is "0" |
| Rlp.EncodeOkIffSupported | app/Services/RewardService.php:206-248 | the encoder fails iff some nested value is neither a string, an int nor an array |
| Rlp.EncodeAllOkIffSupported | app/Services/RewardService.php:207-211 | a list's items all encode iff each item is supported |
| Rlp.EncodeAllAppend | app/Services/RewardService.php:207-211 | the payload of a list is the concatenation of its items' encodings |
| Rlp.EncodeAllLastAgrees | app/Services/RewardService.php:207-211 | two lists that differ only in a last item with the same encoding have the same payload |
| Rlp.EncodeHexTexts | app/Services/RewardService.php:204-249 | an encoding that succeeds and is all hex comes only from items whose texts are hex once "0x" is dropped |
| Rlp.EncodeMatchesReference | app/Services/RewardService.php:204-249 | for whole-byte hex texts and non-negative ints, the hex output decodes to the Yellow Paper's RLP bytes of the same tree |
| Rlp.EncodeAllMatchesReference | app/Services/RewardService.php:207-218 | a list payload decodes to the reference encoding of its children |
| Rlp.TextMatches | app/Services/RewardService.php:219-235 | a whole-byte text encodes to its reference string encoding: a single byte under 0x80, else a length prefix |
| Rlp.PrefixMatches | app/Services/RewardService.php:213-218 | the short and long length prefixes are the reference prefix for the payload's byte length |
| Rlp.LengthBytes | app/Services/RewardService.php:216-217 | the zero-padded `dechex` of a length is its big-endian bytes |
| Rlp.ExampleEmpty | app/Services/RewardService.php:206-240 | the empty list is "c0"; "", "0x" and 0 are "80" |
| Rlp.ExampleInt15 | app/Services/RewardService.php:241-244 | an int under 128 is its own byte ("0f") |
| Rlp.ExampleInt1024 | app/Services/RewardService.php:241-246 | a larger int is re-encoded as a byte string ("820400") |
| Rlp.ExampleUnsupported | app/Services/RewardService.php:248 | a null field fails with "Unsupported RLP input type: NULL" |
| Abi.FindSubmitDistance | app/Services/RewardService.php:57-62 | finds the first `submitDistance` function entry if and only if one exists; otherwise fails with the source's message |
| Abi.Word | app/Services/RewardService.php:142-147 | an address word is the text after "0x" left-padded to 64; a uint word is `dechex` padded to 64; other types add nothing; a uint string that starts with a digit but is not all digits throws the non-numeric warning; any other string that is not a 64-bit digit string is the `dechex` TypeError |
| Abi.InputType | app/Services/RewardService.php:142 | reading `inputs[index]` succeeds iff the index is in range |
| Abi.EncodedParamsLength | app/Services/RewardService.php:141-148 | each short parameter adds at most one 32-byte word |
| Abi.EncodedParamsHex | app/Services/RewardService.php:141-148 | hex parameters give hex words of even total length |
| Abi.CallDataHex | app/Services/RewardService.php:135-151 | the call data is "0x" and whole-byte hex |
| Abi.CallDataLength | app/Services/RewardService.php:135-151 | the call data has at most 10 + 64 per parameter characters |
| Abi.EncodedParamsFirst | app/Services/RewardService.php:141-148 | an encoding that succeeds starts with the first parameter's word |
| Abi.LeadingNumericFirst | app/Services/RewardService.php:141-148 | a leading-numeric first parameter declared uint256 makes the call data throw the non-numeric warning |
| Abi.ErrorSticks | app/Services/RewardService.php:141-148 | the first failing parameter decides the error whatever follows it |
| Abi.EncodeFunctionCall | app/Services/RewardService.php:135-151 | the loop returns "0x", the 8-digit selector and the parameter words |
| Abi.DecodeSubmitDistance | app/Services/RewardService.php:150 | a call data text can be read back iff it has 202 characters |
| Abi.UintWord | app/Services/RewardService.php:146 | a non-negative uint word has 64 digits whose value is the number |
| Abi.SubmitDistanceRoundTrip | app/Services/RewardService.php:67 | encoding (user, distance, 1) gives 202 characters that decode back to the selector, the user, the distance and 1 |
| Abi.SubmitDistanceWords | app/Services/RewardService.php:141-148 | the three words are the zero-padded address, the distance and 1 |
| Blake2b.MaskedNot | app/Services/RewardService.php:307-314 | the GMP xor-and-mask is the complement of the low 64 bits |
| Blake2b.ShiftNotIsNotRotation | app/Services/RewardService.php:307-314 | the rotation closure computes a shifted complement, not a rotation: on 0 it gives the mask, a rotation gives 0 |
| Blake2b.HalfMix | app/Services/RewardService.php:305-309 | half of the G closure updates the array as `HalfG` says |
| Blake2b.Mix | app/Services/RewardService.php:304-316 | the G closure updates the work vector as `G` says |
| Blake2b.MixRound | app/Services/RewardService.php:334-342 | one round applies the eight G calls of its sigma row |
| Blake2b.RunRounds | app/Services/RewardService.php:333-343 | the twelve rounds |
| Blake2b.SetUpWork | app/Services/RewardService.php:319-327 | the work vector is h, the IV, the counter and the final flag |
| Blake2b.FillBlock | app/Services/RewardService.php:329-331 | a block reads the next 16 words and keeps stale ones past the end |
| Blake2b.Feed | app/Services/RewardService.php:345-347 | the feed-forward xors both halves of the work vector into h |
| Blake2b.CompressBlock | app/Services/RewardService.php:318-347 | one pass of the loop is load then compress |
| Blake2b.Absorb | app/Services/RewardService.php:318-348 | the loop stops at the first multiple of 16 words not below the word count, with the chain value of that many blocks |
| Blake2b.HexChain | app/Services/RewardService.php:350-353 | the output loop writes each h word as padded hex |
| Blake2b.Blake2b256 | app/Services/RewardService.php:262-356 | the method computes the `Digest` of its input |
| Blake2b.WordsBounded | app/Services/RewardService.php:290-294 | the message words are 64-bit and number one per 8 bytes |
| Blake2b.StaleBlock | app/Services/RewardService.php:329-331 | past the end of the message a block keeps the previous block's words |
| Blake2b.GMasks | app/Services/RewardService.php:307-314 | after G, the b and d words are below 2^64 |
| Blake2b.DigestShape | app/Services/RewardService.php:350-355 | the digest is hex of at least 128 characters |
| Transaction.BodyFields | app/Services/RewardService.php:365-381 | the body has the nine fields, in order |
| Transaction.Trimmed | app/Services/RewardService.php:371-378 | a truthy text loses its first two characters; a falsy one becomes "" |
| Transaction.BodyEncoding | app/Services/RewardService.php:386 | signable fields encode as whole-byte hex equal to their reference RLP |
| Transaction.HexBin | app/Services/RewardService.php:389 | `hex2bin` succeeds iff the text is whole-byte hex; an odd length and a non-hex character each give PHP's warning message |
| Transaction.LastTwo | app/Services/RewardService.php:399 | `substr($sigHex, -2)` is the text's last two characters |
| Transaction.RecoveryBit | app/Services/RewardService.php:399 | v is 0 or 1 |
| Transaction.SigningHashShape | app/Services/RewardService.php:389 | the hash given to the signer is hex of at least 128 characters |
| Transaction.SignableSigning | app/Services/RewardService.php:361-413 | for signable fields the signer gets the Blake2b hash of their RLP bytes; the outcome is the signer's error with the prefix, or the raw transaction over the signature list as written |
| Transaction.BodyFieldsSupported | app/Services/RewardService.php:365-381 | the body holds no unsupported value when its reserved list holds none |
| Transaction.BodyFieldsNotHex | app/Services/RewardService.php:365-381 | a clause whose texts are not all hex makes the body's texts not all hex |
| Transaction.NonHexFieldsFail | app/Services/RewardService.php:386-390 | fields of known types whose texts are not all hex encode, but `hex2bin` of the encoding fails, so the signing fails before the signer is called |
| Transaction.UnsupportedFieldFails | app/Services/RewardService.php:386-411 | an unsupported field fails with "Transaction signing failed: " and the encoder's message |
| Transaction.SignTransaction | app/Services/RewardService.php:361-413 | the method computes `SignedFieldsText`: encode, `hex2bin`, sign the hash, and append [r, s, v] with v as the text `'0x' . dechex(bit)` |
| Transaction.RawTransactionIsRlp | app/Services/RewardService.php:402-406 | corrected half: with v as the byte 0 or 1, the raw transaction is "0x" and the reference RLP of the fields and [r, s, v] |
| Transaction.RawTransactionAsWrittenOdd | app/Services/RewardService.php:399-404 | with v written as "0x1", the raw transaction as written has odd length after "0x" and is not hex of whole bytes |
| Transaction.SignedEncodingOdd | app/Services/RewardService.php:399-404 | with v written as "0x1", the encoding of the signed fields has an odd number of digits |
| Transaction.RawTransactionOnZero | app/Services/RewardService.php:399-406 | with a recovery bit of 0, the raw transaction as written equals the corrected one |
| Transaction.RawTransactionZeroIsRlp | app/Services/RewardService.php:399-406 | with a recovery bit of 0, the raw transaction as written is "0x" and the reference RLP of the fields and [r, s, 0] |
| Transaction.RawTransactionAsWritten | app/Services/RewardService.php:399-406 | with a well-formed signature the raw transaction as written is "0x" and an encoding: the reference RLP when the bit is 0, not whole bytes when it is 1 |
| Transaction.WrittenAgreesOnZero | app/Services/RewardService.php:399-404 | for v = 0 the written form and the corrected form encode alike |
| Transaction.SignatureCanonical | app/Services/RewardService.php:397-398 | r and s are the signature's two 64-digit halves |
| Node.EstimateGas | app/Services/RewardService.php:156-179 | empty clauses fail; otherwise the result is the sum of `gasUsed`, and only when it is non-zero and an int; a sum beyond 64 bits is the `int` return type's TypeError |
| Node.GasSumIsColumnSum | app/Services/RewardService.php:169 | the sum skips rows without `gasUsed`, as `array_column` does |
| Node.GetBlockRef | app/Services/RewardService.php:184-199 | the first 18 characters of the block id; a missing id and a request failure each give the source's error |
| Node.BlockRefOfId | app/Services/RewardService.php:193 | a 32-byte block id gives "0x" and its first 8 bytes, a canonical RLP string |
| Node.SendTransaction | app/Services/RewardService.php:418-442 | the transaction id iff the status is 200 and an id came back; else the node's error or "Unknown error"; a request failure gives its message |
| Node.Decision | app/Services/RewardService.php:453-459 | an answer that is not pending succeeds iff its receipt is truthy and not reverted |
| Node.Poll | app/Services/RewardService.php:450-462 | the polling makes between one and ten requests |
| Node.VerifyTransaction | app/Services/RewardService.php:447-471 | the loop computes `Poll` |
| Node.FirstAnswerDecides | app/Services/RewardService.php:450-462 | the first answer that is not pending decides, after k + 1 requests |
| Node.NoReceipt | app/Services/RewardService.php:462 | ten pending answers end in "Transaction receipt not found" |
| Node.PollSucceedsIff | app/Services/RewardService.php:447-471 | the polling succeeds iff some answer within ten is a 200 with an accepted receipt, and every answer before it is pending |
| Node.FirstDecisive | app/Services/RewardService.php:450-462 | the index of the deciding answer |
| Reward.FetchPrivateKey | app/Services/RewardService.php:476-483 | the key is accepted iff it is set, has 66 characters and starts with "0x" |
| Reward.NewService | app/Services/RewardService.php:21-35 | the service exists iff the key is accepted |
| Reward.TrailingNewlineAccepted | app/Services/RewardService.php:127-130 | the pattern as written accepts an address with a final newline, which then lands in the call data |
| Reward.ChainTagValue | app/Services/RewardService.php:86 | `hexdec('0x4a')` is 74 |
| Reward.RewardClauses | app/Services/RewardService.php:70-76 | the clause list is never empty |
| Reward.RewardBodyFits | app/Services/RewardService.php:85-95 | the body of a reward transaction is within the encoder's size bound |
| Reward.RewardBodySignable | app/Services/RewardService.php:85-95 | with a valid contract address, hex call data and a block reference, the body is signable |
| Reward.TriggerSmartContract | app/Services/RewardService.php:40-122 | the method computes `Triggered`: the outcome together with the node requests made |
| Reward.Submit | app/Services/RewardService.php:70-104 | the method computes `Submitted` |
| Reward.Dispatch | app/Services/RewardService.php:101-104 | the method computes `Dispatched` |
| Reward.InvalidInputRejected | app/Services/RewardService.php:44-49 | an address the pattern as written rejects, or a negative distance, fails with its message before any request |
| Reward.AddressLeadingNumeric | app/Services/RewardService.php:127-130 | every address the pattern accepts starts with "0x", so PHP reads it as leading-numeric |
| Reward.AddressAsUintWarns | app/Services/RewardService.php:40-122 | when the ABI's first input is a uint256, `dechex` of the address warns, and the trigger fails with "Failed to trigger smart contract: A non-numeric value encountered" before any request |
| Reward.MissingFunctionRejected | app/Services/RewardService.php:57-62 | an ABI without `submitDistance` fails before any request |
| Reward.DispatchedShape | app/Services/RewardService.php:98-120 | sending comes first, then only receipt polls; errors carry the prefix |
| Reward.SignedShape | app/Services/RewardService.php:98-120 | after the estimate and the block request, the requests keep their order and every error carries the prefix |
| Reward.SubmittedShape | app/Services/RewardService.php:79-120 | the requests are in order and every error carries the prefix or is the gas TypeError |
| Reward.TriggeredShape | app/Services/RewardService.php:40-122 | the requests are estimate, block, send, then receipts; every error has the prefix or is one of the two TypeErrors |
| Reward.DispatchedSuccess | app/Services/RewardService.php:101-108 | success returns the node's transaction id after an accepted receipt |
| Reward.SubmittedSuccess | app/Services/RewardService.php:79-108 | success implies the gas, the block reference and the signature all succeeded |
| Reward.TriggeredSubmits | app/Services/RewardService.php:44-76 | validated input goes on to submit the encoded call |
| Reward.TriggeredSuccess | app/Services/RewardService.php:40-108 | success implies an address the pattern accepts, a non-negative distance, a found ABI entry and encodable call data; when the first input is an address, the address was exactly "0x" and 40 hex digits |
| Reward.NewlineInCallData | app/Services/RewardService.php:127-150 | an address with a final newline puts the newline into the call data, 63 characters after the selector |
| Reward.ClauseNotHex | app/Services/RewardService.php:70-76 | call data with a non-hex character makes the clause field not hex |
| Reward.RewardBodyNotHex | app/Services/RewardService.php:85-95 | such a clause makes the body's texts not all hex, and every field is of a known type |
| Reward.SignedRefusesNonHex | app/Services/RewardService.php:361-413 | call data with a non-hex character fails with "Failed to trigger smart contract: Transaction signing failed: hex2bin(): …" and sends nothing |
| Reward.SubmittedRefusesNonHex | app/Services/RewardService.php:79-98 | from the call data on, such call data fails after at most the estimate and block requests, with no send |
| Reward.NewlineAddressNotSent | app/Services/RewardService.php:40-122 | an address with a final newline passes validation, but when the first input is an address the trigger fails and no transaction is sent |
| Reward.SignedStep | app/Services/RewardService.php:98-104 | on a signable reward, the signing stage fails with the signer's error or the encoder's, or sends what it built |
| Reward.SignedSendsRlp | app/Services/RewardService.php:361-413 | a reward transaction is signed over its RLP hash; a signer error fails with the signing prefix; what is sent is "0x" and the encoding of the fields and [r, s, v] as written, which is the reference RLP of the fields and [r, s, 0] when the bit is 0 and not whole bytes when it is 1 |
| Reward.SubmittedSigns | app/Services/RewardService.php:79-98 | with a well-formed block id, the signed body uses the id's first 8 bytes as block reference |
| Threshold.FirstRejection | app/Services/ThresholdService.php:30-81 | no rejection iff the device is mobile and no limit is reached; each error message iff the checks before it pass and its own fails |
| Threshold.CityResult | app/Services/ThresholdService.php:90 | the city is returned iff it is a truthy string |
| Threshold.IncrementedCount | app/Services/ThresholdService.php:84-87 | an accepted trip adds 1 to the wallet counter and to the city counter and changes no other |
| Threshold.AcceptedKeepsCitiesWithin | app/Services/ThresholdService.php:56-87 | accepted trips keep every city counter within the city threshold |
| Threshold.ThresholdService.IncrementCount | app/Models/DailyCount.php:12-24 | the row's count goes up by one and a new row starts from 0 |
| Threshold.ThresholdService.SendAlert | app/Services/ThresholdService.php:117-123 | the alert is appended to those sent |
| Threshold.ThresholdService.CheckAndValidateTripLimits | app/Services/ThresholdService.php:25-95 | a rejection sends its alert, throws its message and leaves the counters as they were; otherwise the counters are incremented and the city is returned; the city bound is kept |
| Patterns.OccurrencesAppend | app/Http/Controllers/TripAnalysisController.php:335 | the occurrences of concatenated rows are concatenated |
| Patterns.NonArrayIgnored | app/Http/Controllers/TripAnalysisController.php:337 | a row whose reasons are not an array changes nothing |
| Patterns.GroupSnoc | app/Http/Controllers/TripAnalysisController.php:338-352 | grouping one more occurrence is `Add` |
| Patterns.AddWell | app/Http/Controllers/TripAnalysisController.php:339-351 | adding keeps the keys distinct, each in the map and each entry under its own key |
| Patterns.GroupWell | app/Http/Controllers/TripAnalysisController.php:334-354 | the grouping is well formed |
| Patterns.GroupKeys | app/Http/Controllers/TripAnalysisController.php:339-348 | a key is in the grouping iff some occurrence has it |
| Patterns.GroupTotals | app/Http/Controllers/TripAnalysisController.php:349-351 | an entry's frequency, score sum and count are the totals over the occurrences with its key |
| Patterns.Finalize | app/Http/Controllers/TripAnalysisController.php:357-363 | one pattern per key in insertion order, with the average; keys distinct |
| Patterns.InsertElements | app/Http/Controllers/TripAnalysisController.php:365-367 | inserting adds exactly the new element |
| Patterns.InsertSorted | app/Http/Controllers/TripAnalysisController.php:365-367 | inserting into a list sorted by descending frequency keeps it sorted |
| Patterns.SortProperties | app/Http/Controllers/TripAnalysisController.php:365-367 | the sort gives descending frequency, is a permutation and keeps keys distinct |
| Patterns.Slice | app/Http/Controllers/TripAnalysisController.php:371 | the first min(n, length) patterns, with n = 20 when no limit is given, and all of them for a null limit |
| Patterns.PatternsOrdered | app/Http/Controllers/TripAnalysisController.php:357-372 | the response is in descending frequency with one pattern per (sensor type, reason) |
| Patterns.PatternsTotals | app/Http/Controllers/TripAnalysisController.php:334-372 | every pattern's frequency is the sum over its occurrences and its average is their mean score |
| Patterns.PrefixTop | app/Http/Controllers/TripAnalysisController.php:365-371 | a prefix of a sorted list keeps each element or only holds elements at least as frequent |
| Patterns.PatternsTop | app/Http/Controllers/TripAnalysisController.php:334-372 | every grouped pattern is in the response or ranks no higher than each one there |
| Patterns.PatternsCount | app/Http/Controllers/TripAnalysisController.php:369-372 | the response has min(limit, number of keys) patterns |
| Patterns.AddReason | app/Http/Controllers/TripAnalysisController.php:339-351 | the body of the inner loop is `Add` |
| Patterns.AddRow | app/Http/Controllers/TripAnalysisController.php:338-352 | the inner loop groups the row's occurrences |
| Patterns.SuspiciousPatterns | app/Http/Controllers/TripAnalysisController.php:334-372 | the method computes `Patterns`, so its output is sorted by frequency with distinct keys |

## Left out

- The secp256k1 signature and Keccak-256 are parameters. A signature text is assumed to be hex of at least 128 digits (`SignatureShape`) where a property needs it.
- HTTP, the 10-second timeouts, the three-second `sleep` between receipt polls, logging and the block reference cache are left out. Each node call is given its decoded answer or the client's exception.
- The random nonce is a parameter. `contract.json` is read as an ABI value, and a missing or malformed file is not modelled.
- `DistanceCalculator` and the trip controller that calls these services are not part of this model.
- Blake2b.Blake2b256: the mask constant `0xFFFFFFFFFFFFFFFF` is taken as the integer 2^64 − 1. In PHP this literal is a float, and the model does not follow GMP's conversion of it. The digest is proved equal to the function `Digest` of the code as written. It is not proved equal to standard Blake2b. `ShiftNotIsNotRotation` shows that the rotation closure differs from a rotation.
- Blake2b.Blake2b256: `str_split("")` is taken as the PHP 8.2 behaviour, which gives an empty message with no blocks.
- Rlp.Encode: texts must be shorter than 2^64 characters (`Encodable`). On an odd-length text PHP's `/` gives a float length, and the model gives only what that branch outputs; the float itself is not modelled.
- Transaction.SignTransaction: requires the fields to be within the encoder's size bound (`Fits`). Every reward transaction meets it (`RewardBodyFits`).
- Reward.TriggerSmartContract: requires the contract address from the environment to be shorter than 2^32 characters. The address is always a string: when `CONTRACT_ADDRESS` is unset, `env` gives null, and the program then makes the estimate and block requests and fails in the signing with "Unsupported RLP input type: NULL". The model cannot express that case.
- Reward.TriggerSmartContract: the `!$gas` test is dead code, because `estimateGas` already refuses a zero sum. Its exception is therefore not modelled.
- Node.EstimateGas: an integer overflow inside `array_sum` turns the running sum into a float. This is modelled only as the gas `TypeError` on a total outside the 64-bit range; the partial sums are not checked. The difference from PHP shows only when some `gasUsed` is negative: with non-negative values a partial sum overflows only if the total does.
- Abi.Word: a uint string is read as an int only when it is all digits and within 64 bits. PHP also reads leading and trailing whitespace, a sign, a decimal point and an exponent as numeric; the model sends those strings to the non-numeric warning when they start with a digit and to the `dechex` TypeError otherwise. A digit string beyond 64 bits is the TypeError in the model.
- Patterns.SortByFrequency: the sort is modelled as a stable insertion sort. It is proved to be sorted and a permutation. It is not proved equal to PHP's `usort`, whose order for equal frequencies is stable from PHP 8 onward.
- Patterns.SuspiciousPatterns: the SQL query, its filters, its `GROUP BY` and its own limit are not modelled. The grouped rows are the input.
- Patterns.SuspiciousPatterns: `AVG` is a `real`, and floating-point rounding is not modelled.
- Patterns.SuspiciousPatterns: a reason that is not a string, and the JSON decoding of the reasons, are not modelled. A row holds either a list of reasons or something that is not a list.
- Patterns.SuspiciousPatterns: validation is the `ValidLimit` precondition, because a failing request never reaches the loop. The 422 response is not modelled.
- Threshold.ThresholdService.CheckAndValidateTripLimits: "today" is fixed, and the model holds only today's rows. The user agent parser and the ipapi lookup are inputs. A failure of the Telegram call, and the time line of the alert, are not modelled.
- Threshold.ThresholdService.CheckAndValidateTripLimits: the database transaction is modelled by leaving the counters unchanged on every exception. The alerts already sent stay sent.
- Threshold.ThresholdService.CheckAndValidateTripLimits: requests are modelled one at a time, and `AcceptedKeepsCitiesWithin` holds only for requests taken in sequence. PHP's transaction takes no locks: the reads of the daily count and of the trip count are plain selects. Two concurrent requests for one city at count t − 1 can both pass the city check and both add 1, which leaves the counter at t + 1. Two concurrent requests that both find no row both insert it, and the second fails on the unique key (type, value, date); that exception is rolled back and rethrown, while the model accepts the request.
- Threshold.ThresholdService.CheckAndValidateTripLimits: wallets and cities are compared as exact strings. The database compares them under its collation: MySQL's default `utf8mb4_unicode_ci` ignores case and trailing spaces, so "Lagos" and "lagos" are one daily count there and two counters here, and a wallet's trips are counted under every spelling that differs only in case. The collation is not modelled.
- Threshold.ThresholdService.IncrementCount: a new row is taken to be created with `count + 1` evaluated over the column default 0. That is MySQL's behaviour; other databases may differ.

## Findings

| source | as written | input that shows it | evidently intended | confidence | as-written member | corrected member |
|---|---|---|---|---|---|---|
| app/Services/RewardService.php:399-404 | v is written as `'0x' . dechex(bit)`, so a recovery bit of 1 becomes the one-digit text "1"; the encoder emits "801", and the raw transaction has odd length | any signature whose last byte is odd, e.g. a signature hex ending in "01" | v encoded as the byte 0 or 1, so the raw transaction is whole-byte RLP | not executed | Transaction.RawTransactionAsWrittenOdd | Transaction.RawTransactionIsRlp |
| app/Services/RewardService.php:127-130 | `/^0x[a-fA-F0-9]{40}$/` lets through an address followed by "\n", because `$` also matches before a final newline; the newline lands in the call data, and the estimate and block requests are made before `hex2bin` fails in the signing | "0x" + 40 hex digits + "\n" | only exactly 42 characters, "0x" and 40 hex digits | not executed | Reward.NewlineAddressNotSent | Abi.IsAddress |
