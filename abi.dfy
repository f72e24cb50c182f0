/**
 * `RewardService::encodeFunctionCall` and the ABI lookup of `triggerSmartContract`:
 * the call data of `submitDistance(address,uint256,uint256)`, written as hex text.
 * Each parameter becomes one 32-byte word chosen by the declared type of the ABI
 * input at the same position. The Keccak-256 hash of the signature is a parameter.
 */
module Abi {
  import opened Wrappers
  import opened Hex
  import opened Rlp

  const Signature: string := "submitDistance(address,uint256,uint256)"

  /** One entry of the contract's JSON ABI; every entry is taken to hold the keys read. */
  datatype AbiEntry = AbiEntry(kind: string, name: string, inputs: seq<string>)

  /** The PHP values passed as call parameters. */
  datatype Param = PStr(s: string) | PInt(n: PhpInt)

  predicate IsSubmitDistance(e: AbiEntry) {
    e.kind == "function" && e.name == "submitDistance"
  }

  /**
   * `reset(array_filter($abi, ...))`: the first `submitDistance` function entry.
   * An ABI without one throws.
   */
  function FindSubmitDistance(abi: seq<AbiEntry>): (r: Result<AbiEntry>)
    ensures r.Ok? <==> exists i | 0 <= i < |abi| :: IsSubmitDistance(abi[i])
    ensures r.Ok? ==> exists i | 0 <= i < |abi| :: abi[i] == r.value && IsSubmitDistance(abi[i])
                        && forall j | 0 <= j < i :: !IsSubmitDistance(abi[j])
    ensures r.Err? ==> r.error == "submitDistance function not found in ABI"
  {
    if abi == [] then Err("submitDistance function not found in ABI")
    else if IsSubmitDistance(abi[0]) then Ok(abi[0])
    else
      var r := FindSubmitDistance(abi[1..]);
      assert forall i | 0 <= i < |abi| - 1 :: abi[1..][i] == abi[i + 1];
      if r.Ok? then
        ghost var i :| 0 <= i < |abi| - 1 && abi[1..][i] == r.value && IsSubmitDistance(abi[1..][i])
                       && forall j | 0 <= j < i :: !IsSubmitDistance(abi[1..][j]);
        assert abi[i + 1] == r.value && forall j | 0 <= j < i + 1 :: !IsSubmitDistance(abi[j]);
        r
      else r
  }

  /** The decimal text PHP converts an int to when a string is expected. */
  function Decimal(n: int): (r: string)
    ensures |r| >= 1
  {
    if n < 0 then "-" + Natural(-n) else Natural(n)
  }

  function Natural(n: nat): (r: string)
    ensures |r| >= 1 && forall i | 0 <= i < |r| :: '0' <= r[i] <= '9'
  {
    if n < 10 then [('0' as int + n) as char] else Natural(n / 10) + [('0' as int + n % 10) as char]
  }

  predicate IsDigits(s: string) {
    |s| >= 1 && forall i | 0 <= i < |s| :: '0' <= s[i] <= '9'
  }

  function DigitsValue(s: string): nat
    requires forall i | 0 <= i < |s| :: '0' <= s[i] <= '9'
  {
    if s == [] then 0 else DigitsValue(s[..|s| - 1]) * 10 + (s[|s| - 1] as int - '0' as int)
  }

  const DechexTypeError: string := "dechex(): Argument #1 ($num) must be of type int, string given"

  /**
   * A leading-numeric string passed where an int is wanted is read up to its first
   * non-digit, with a warning; the framework's error handler throws the warning as an
   * ErrorException, which the trigger's catch sees.
   */
  const NonNumericWarning: string := "A non-numeric value encountered"

  /** A string that starts with a digit but is not all digits, such as "12abc" or "0x1f". */
  predicate LeadingNumeric(s: string) {
    |s| >= 1 && '0' <= s[0] <= '9' && !IsDigits(s)
  }

  /**
   * The word for one parameter and its declared type. An address loses its first
   * two characters; a uint256 is `dechex`ed; both are left-padded with zeros to 64
   * characters (never truncated). Any other type contributes nothing. A uint string
   * that starts with a digit but is not all digits throws the warning; any other
   * string that is not a PHP int, passed where `dechex` wants an int, is a TypeError.
   */
  function Word(kind: string, p: Param): (r: Result<string>)
    ensures r.Ok? ==> |r.value| == 0 || |r.value| >= 64
    ensures r.Ok? && ShortParam(p) ==> |r.value| <= 64
    ensures kind != "address" && kind != "uint256" ==> r == Ok("")
    ensures r.Err? <==> kind == "uint256" && p.PStr? && !(IsDigits(p.s) && DigitsValue(p.s) <= PhpIntMax)
    ensures r.Err? ==> p.PStr? && r.error == if LeadingNumeric(p.s) then NonNumericWarning else DechexTypeError
    ensures kind == "uint256" && p.PInt? ==> r == Ok(PadLeft(DecHexInt(p.n), 64))
    ensures kind == "address" && p.PStr? ==> r == Ok(PadLeft(Drop(p.s, 2), 64))
  {
    if kind == "address" then
      match p
      case PStr(s) => Ok(PadLeft(Drop(s, 2), 64))
      case PInt(n) => DecimalLength(n); Ok(PadLeft(Drop(Decimal(n), 2), 64))
    else if kind == "uint256" then
      match p
      case PInt(n) => Ok(PadLeft(DecHexInt(n), 64))
      case PStr(s) =>
        if IsDigits(s) && DigitsValue(s) <= PhpIntMax then Ok(PadLeft(DecHexInt(DigitsValue(s)), 64))
        else if LeadingNumeric(s) then Err(NonNumericWarning)
        else Err(DechexTypeError)
    else Ok("")
  }

  /** A parameter whose word is hex: an int, or a text that is hex after its first two characters. */
  predicate HexParam(p: Param) {
    p.PInt? || IsHex(Drop(p.s, 2))
  }

  /** The word of a hex parameter is hex. */
  lemma WordHex(kind: string, p: Param)
    requires HexParam(p)
    ensures Word(kind, p).Ok? ==> IsHex(Word(kind, p).value)
  {
    match p
    case PStr(s) =>
      PadLeftHex(Drop(s, 2), 64);
      if IsDigits(s) && DigitsValue(s) <= PhpIntMax {
        PadLeftHex(DecHexInt(DigitsValue(s)), 64);
      }
    case PInt(n) =>
      DecimalHex(n);
      PadLeftHex(Drop(Decimal(n), 2), 64);
      PadLeftHex(DecHexInt(n), 64);
  }

  lemma PadLeftHex(s: string, width: nat)
    ensures IsHex(s) ==> IsHex(PadLeft(s, width))
  {
    var r := PadLeft(s, width);
    forall i | 0 <= i < |r| && IsHex(s)
      ensures IsHexDigit(r[i])
    {
      if i >= |r| - |s| {
        assert r[i] == r[|r| - |s|..][i - (|r| - |s|)];
      }
    }
  }

  /** The decimal digits of an int, past its first two characters, are hex digits. */
  lemma DecimalHex(n: int)
    ensures IsHex(Drop(Decimal(n), 2))
  {
    var d := Decimal(n);
    if |d| >= 2 {
      forall i | 0 <= i < |d| - 2
        ensures IsHexDigit(Drop(d, 2)[i])
      {
        if n < 0 {
          assert Drop(d, 2)[i] == Natural(-n)[i + 1];
        } else {
          assert Drop(d, 2)[i] == Natural(n)[i + 2];
        }
      }
    }
  }

  /** A parameter whose word is one 32-byte word at most: an int, or a text of 66 characters or fewer. */
  predicate ShortParam(p: Param) {
    p.PInt? || |p.s| <= 66
  }

  function Pow10(k: nat): (r: nat)
    ensures r >= 1
  {
    if k == 0 then 1 else 10 * Pow10(k - 1)
  }

  /** A value below 10^k prints in at most k decimal digits. */
  lemma {:induction false} NaturalLength(n: nat, k: nat)
    requires 1 <= k && n < Pow10(k)
    ensures |Natural(n)| <= k
  {
    if n >= 10 {
      assert k != 1;
      NaturalLength(n / 10, k - 1);
    }
  }

  /** Every PHP int prints in at most 20 characters, the sign included. */
  lemma DecimalLength(n: PhpInt)
    ensures |Decimal(n)| <= 20
  {
    var p := Pow10(19);
    assert p == 10_000_000_000_000_000_000 by {
      assert Pow10(4) == 10_000;
      assert Pow10(8) == 100_000_000;
      assert Pow10(12) == 1_000_000_000_000;
      assert Pow10(16) == 10_000_000_000_000_000;
    }
    var m: int := n;
    if m < 0 {
      NaturalLength(-m, 19);
    } else {
      NaturalLength(n, 19);
    }
  }

  /**
   * `$abi['inputs'][$index]['type']`. Past the end of the inputs PHP warns
   * "Undefined array key", which the framework's error handler throws as an
   * ErrorException.
   */
  function InputType(inputs: seq<string>, i: nat): (r: Result<string>)
    ensures r.Ok? <==> i < |inputs|
    ensures r.Ok? ==> r.value == inputs[i]
  {
    if i < |inputs| then Ok(inputs[i]) else Err("Undefined array key " + Natural(i))
  }

  /** The word for the parameter at position i, or the error reading its type throws. */
  function WordAt(inputs: seq<string>, i: nat, p: Param): Result<string> {
    var kind := InputType(inputs, i);
    if kind.Err? then Err(kind.error) else Word(kind.value, p)
  }

  /** The words of the parameters in order; the first error stops the encoding. */
  function EncodedParams(inputs: seq<string>, params: seq<Param>): Result<string>
    decreases |params|
  {
    if params == [] then Ok("")
    else
      var front := EncodedParams(inputs, params[..|params| - 1]);
      var word := WordAt(inputs, |params| - 1, params[|params| - 1]);
      if front.Err? then front
      else if word.Err? then word
      else Ok(front.value + word.value)
  }

  /** The call data: "0x", the 4-byte selector (8 hex characters of the hash), the words. */
  function CallData(inputs: seq<string>, params: seq<Param>, signatureHash: string): Result<string> {
    var encoded := EncodedParams(inputs, params);
    if encoded.Err? then encoded else Ok("0x" + Take(signatureHash, 8) + encoded.value)
  }

  /** Each short parameter adds one 32-byte word at most. */
  lemma {:induction false} EncodedParamsLength(inputs: seq<string>, params: seq<Param>)
    requires forall i | 0 <= i < |params| :: ShortParam(params[i])
    ensures EncodedParams(inputs, params).Ok? ==> |EncodedParams(inputs, params).value| <= 64 * |params|
    decreases |params|
  {
    if params != [] {
      var front := params[..|params| - 1];
      assert forall i | 0 <= i < |front| :: front[i] == params[i];
      EncodedParamsLength(inputs, front);
      assert ShortParam(params[|params| - 1]);
    }
  }

  lemma HexAppend(a: string, b: string)
    requires IsHex(a) && IsHex(b)
    ensures IsHex(a + b)
  {
    assert forall i | 0 <= i < |a + b| :: (a + b)[i] == if i < |a| then a[i] else b[i - |a|];
  }

  /** The word of a short hex parameter: hex, of 64 digits or none. */
  lemma WordAtShape(inputs: seq<string>, i: nat, p: Param)
    requires ShortParam(p) && HexParam(p)
    ensures var w := WordAt(inputs, i, p); w.Ok? ==> IsHex(w.value) && (|w.value| == 0 || |w.value| == 64)
  {
    var kind := InputType(inputs, i);
    if kind.Ok? {
      WordHex(kind.value, p);
      assert WordAt(inputs, i, p) == Word(kind.value, p);
    }
  }

  lemma EvenAppend(a: nat, b: nat)
    requires a % 2 == 0 && (b == 0 || b == 64)
    ensures (a + b) % 2 == 0 && (8 + a) % 2 == 0
  {
  }

  /** Short hex parameters give whole-byte hex. */
  lemma {:induction false} EncodedParamsHex(inputs: seq<string>, params: seq<Param>)
    requires forall i | 0 <= i < |params| :: ShortParam(params[i]) && HexParam(params[i])
    ensures var e := EncodedParams(inputs, params); e.Ok? ==> IsHex(e.value) && |e.value| % 2 == 0
    decreases |params|
  {
    if params != [] {
      var front := params[..|params| - 1];
      assert forall i | 0 <= i < |front| :: front[i] == params[i];
      EncodedParamsHex(inputs, front);
      var last := params[|params| - 1];
      assert ShortParam(last) && HexParam(last);
      var e := EncodedParams(inputs, params);
      if e.Ok? {
        var f := EncodedParams(inputs, front).value;
        WordAtShape(inputs, |params| - 1, last);
        var w := WordAt(inputs, |params| - 1, last).value;
        assert e.value == f + w;
        HexAppend(f, w);
        EvenAppend(|f|, |w|);
      }
    }
  }

  /**
   * The call data of short hex parameters, under a hex selector: "0x" and whole-byte
   * hex.
   */
  lemma CallDataHex(inputs: seq<string>, params: seq<Param>, signatureHash: string)
    requires forall i | 0 <= i < |params| :: ShortParam(params[i]) && HexParam(params[i])
    requires |signatureHash| >= 8 && IsHex(signatureHash[..8])
    ensures var d := CallData(inputs, params, signatureHash);
      d.Ok? ==> |d.value| >= 10 && d.value[..2] == "0x" && IsByteHex(d.value[2..])
  {
    EncodedParamsHex(inputs, params);
    var d := CallData(inputs, params, signatureHash);
    if d.Ok? {
      var e := EncodedParams(inputs, params).value;
      var sel := signatureHash[..8];
      assert Take(signatureHash, 8) == sel;
      assert d.value == "0x" + (sel + e);
      assert d.value[2..] == sel + e;
      HexAppend(sel, e);
      EvenAppend(|e|, 0);
    }
  }

  /** The call data of short parameters: "0x", the selector, one word at most per parameter. */
  lemma CallDataLength(inputs: seq<string>, params: seq<Param>, signatureHash: string)
    requires forall i | 0 <= i < |params| :: ShortParam(params[i])
    ensures CallData(inputs, params, signatureHash).Ok? ==>
      |CallData(inputs, params, signatureHash).value| <= 10 + 64 * |params|
  {
    EncodedParamsLength(inputs, params);
  }

  /** An encoding that succeeds starts with the word of the first parameter. */
  lemma {:induction false} EncodedParamsFirst(inputs: seq<string>, params: seq<Param>)
    requires params != [] && EncodedParams(inputs, params).Ok?
    ensures WordAt(inputs, 0, params[0]).Ok?
    ensures var w := WordAt(inputs, 0, params[0]).value;
      |w| <= |EncodedParams(inputs, params).value| && EncodedParams(inputs, params).value[..|w|] == w
    decreases |params|
  {
    var front := params[..|params| - 1];
    var all := EncodedParams(inputs, params).value;
    if |params| == 1 {
      assert front == [];
      assert all == "" + WordAt(inputs, 0, params[0]).value;
    } else {
      assert front[0] == params[0];
      EncodedParamsFirst(inputs, front);
      var f := EncodedParams(inputs, front).value;
      var w := WordAt(inputs, 0, params[0]).value;
      assert all == f + WordAt(inputs, |params| - 1, params[|params| - 1]).value;
      assert all[..|w|] == f[..|w|];
    }
  }

  /** A leading-numeric first parameter declared uint256 makes the call data throw the warning. */
  lemma LeadingNumericFirst(inputs: seq<string>, params: seq<Param>, signatureHash: string)
    requires params != [] && InputType(inputs, 0) == Ok("uint256")
    requires params[0].PStr? && LeadingNumeric(params[0].s)
    ensures CallData(inputs, params, signatureHash) == Err(NonNumericWarning)
  {
    assert params[..1][..0] == [] && params[..1][0] == params[0];
    assert EncodedParams(inputs, params[..1]) == Err(NonNumericWarning);
    ErrorSticks(inputs, params, 1);
  }

  /** Once a prefix of the parameters fails, every longer prefix fails the same way. */
  lemma {:induction false} ErrorSticks(inputs: seq<string>, params: seq<Param>, k: nat)
    requires k <= |params| && EncodedParams(inputs, params[..k]).Err?
    ensures EncodedParams(inputs, params) == EncodedParams(inputs, params[..k])
    decreases |params| - k
  {
    if k < |params| {
      var next := params[..k + 1];
      assert next[..|next| - 1] == params[..k];
      ErrorSticks(inputs, params, k + 1);
    } else {
      assert params[..k] == params;
    }
  }

  /**
   * `encodeFunctionCall`: the loop over the parameters, appending one word each.
   * The call data is `CallData` of the ABI entry's input types.
   */
  method EncodeFunctionCall(entry: AbiEntry, params: seq<Param>, keccak: string -> string)
    returns (r: Result<string>)
    ensures r == CallData(entry.inputs, params, keccak(Signature))
  {
    var selector := Take(keccak(Signature), 8);
    var encoded := "";
    var i := 0;
    while i < |params|
      invariant 0 <= i <= |params|
      invariant EncodedParams(entry.inputs, params[..i]) == Ok(encoded)
    {
      var word := WordAt(entry.inputs, i, params[i]);
      assert params[..i + 1][..i] == params[..i];
      if word.Err? {
        ErrorSticks(entry.inputs, params, i + 1);
        return Err(word.error);
      }
      encoded := encoded + word.value;
      i := i + 1;
    }
    assert params[..i] == params;
    r := Ok("0x" + selector + encoded);
  }

  // ---------------------------------------------------------------------------
  // The call `triggerSmartContract` makes, and reading it back
  // ---------------------------------------------------------------------------

  /** `/^0x[a-fA-F0-9]{40}$/` read strictly: "0x" and exactly 40 hex digits. */
  predicate IsAddress(s: string) {
    |s| == 42 && s[..2] == "0x" && IsHex(s[2..])
  }

  /** The inputs `submitDistance` declares. */
  const SubmitDistanceInputs: seq<string> := ["address", "uint256", "uint256"]

  /** The three fields read back from a call data text of 202 characters. */
  datatype Call = Call(selector: string, user: string, distance: nat, flag: nat)

  function DecodeSubmitDistance(data: string): (c: Option<Call>)
    ensures c.Some? <==> |data| == 202
  {
    if |data| != 202 then None
    else Some(Call(data[2..10], "0x" + data[34..74], HexDec(data[74..138]), HexDec(data[138..202])))
  }

  /** A word holding a 64-bit value reads back as that value and is a full word. */
  lemma UintWord(n: PhpInt)
    requires n >= 0
    ensures |PadLeft(DecHexInt(n), 64)| == 64 && HexDec(PadLeft(DecHexInt(n), 64)) == n
  {
    DecHexValue(n);
    HexDecPadLeft(DecHex(n), 64);
  }

  /**
   * The call `triggerSmartContract` encodes, `[$userAddress, $distance, 1]`, against
   * the declared inputs: 2 + 8 + 3 * 64 characters, whose words give back the
   * address, the distance and the flag 1.
   */
  lemma {:induction false} SubmitDistanceRoundTrip(user: string, distance: PhpInt, signatureHash: string)
    requires IsAddress(user) && distance >= 0 && |signatureHash| >= 8
    ensures var r := CallData(SubmitDistanceInputs, [PStr(user), PInt(distance), PInt(1)], signatureHash);
      r.Ok? && |r.value| == 202 && r.value[..2] == "0x" && r.value[10..34] == Zeros(24)
      && DecodeSubmitDistance(r.value) == Some(Call(signatureHash[..8], user, distance, 1))
  {
    var w0, w1, w2 := SubmitDistanceWords(user, distance);
    UintWord(distance);
    UintWord(1);
    var data := "0x" + Take(signatureHash, 8) + (w0 + w1 + w2);
    assert data[74..138] == w1 && data[138..202] == w2;
    assert data[34..74] == user[2..];
    assert data[10..34] == Zeros(24);
    assert data[2..10] == signatureHash[..8];
    assert "0x" + user[2..] == user;
  }

  /** The three words of that call, one per declared input. */
  lemma SubmitDistanceWords(user: string, distance: PhpInt) returns (w0: string, w1: string, w2: string)
    requires IsAddress(user) && distance >= 0
    ensures w0 == Zeros(24) + user[2..]
    ensures w1 == PadLeft(DecHexInt(distance), 64) && w2 == PadLeft(DecHexInt(1), 64)
    ensures EncodedParams(SubmitDistanceInputs, [PStr(user), PInt(distance), PInt(1)]) == Ok(w0 + w1 + w2)
  {
    var params := [PStr(user), PInt(distance), PInt(1)];
    w0 := PadLeft(Drop(user, 2), 64);
    w1 := PadLeft(DecHexInt(distance), 64);
    w2 := PadLeft(DecHexInt(1), 64);
    assert params[..0] == [] && params[..1][..0] == [];
    assert params[..2][..1] == params[..1] && params[..3][..2] == params[..2] && params[..3] == params;
    assert EncodedParams(SubmitDistanceInputs, params[..1]) == Ok("" + w0);
    assert EncodedParams(SubmitDistanceInputs, params[..2]) == Ok("" + w0 + w1);
    assert EncodedParams(SubmitDistanceInputs, params) == Ok("" + w0 + w1 + w2);
    assert "" + w0 == w0;
  }
}
