/**
 * `RewardService::rlpEncode`: the Recursive Length Prefix encoding of Appendix B of
 * the Ethereum Yellow Paper, computed on hex text. A byte string is held as its hex
 * digits and its byte length is half its character count. A leading "0x" is dropped.
 *
 * `Encode` is the encoder as written; `RlpRef` is the byte-level definition of the
 * Yellow Paper, and `EncodeMatchesReference` proves that the two agree on hex input.
 */
module Rlp {
  import opened Wrappers
  import opened Hex

  const PhpIntMin: int := -0x8000_0000_0000_0000
  const PhpIntMax: int := 0x7fff_ffff_ffff_ffff
  const TwoTo64: int := 0x1_0000_0000_0000_0000

  /** A PHP integer: 64-bit signed. */
  type PhpInt = n: int | PhpIntMin <= n <= PhpIntMax

  /** The PHP values `rlpEncode` tells apart: arrays (in order), strings, ints, and anything else. */
  datatype Item =
    | Str(s: string)
    | Int(n: PhpInt)
    | List(items: seq<Item>)
    | Unsupported(typeName: string)

  /** The encoder never sees a text longer than this (PHP string lengths are PHP ints). */
  const MaxText: int := TwoTo64

  /** `substr($s, 0, 2) === '0x'` followed by `substr($s, 2)`. */
  function StripPrefix(s: string): (t: string)
    ensures t == s || (|s| >= 2 && s[..2] == "0x" && t == s[2..])
    ensures |t| <= |s|
  {
    if |s| >= 2 && s[..2] == "0x" then s[2..] else s
  }

  /** `dechex` on a PHP int: a negative value prints as its 64-bit two's complement. */
  function DecHexInt(n: PhpInt): (r: string)
    ensures IsHex(r) && 1 <= |r| <= 16
    ensures n >= 0 ==> r == DecHex(n)
  {
    var u := if n < 0 then n + TwoTo64 else n;
    DecHex64(u);
    DecHex(u)
  }

  /** An upper bound on the encoding's length in characters (see `Encode`). */
  function Size(x: Item): nat
    decreases x
  {
    match x
    case Str(s) => |s| + 20
    case Int(_) => 40
    case List(items) => SizeAll(items) + 20
    case Unsupported(_) => 0
  }

  function SizeAll(items: seq<Item>): nat
    decreases items
  {
    if items == [] then 0 else Size(items[0]) + SizeAll(items[1..])
  }

  /**
   * Texts that stand for whole bytes once "0x" is dropped: an even number of
   * characters, or "0", which PHP's `empty` treats like "".
   */
  predicate ValidText(s: string) {
    var t := StripPrefix(s);
    |t| % 2 == 0 || t == "0"
  }

  predicate EvenStrings(x: Item)
    decreases x
  {
    match x
    case Str(s) => ValidText(s)
    case List(items) => EvenStringsAll(items)
    case Int(_) => true
    case Unsupported(_) => true
  }

  predicate EvenStringsAll(items: seq<Item>)
    decreases items
  {
    items == [] || (EvenStrings(items[0]) && EvenStringsAll(items[1..]))
  }

  /** Values whose lengths PHP can hold (string lengths are PHP ints). */
  predicate Encodable(x: Item) {
    Size(x) < MaxText
  }

  predicate EncodableAll(items: seq<Item>) {
    SizeAll(items) < MaxText
  }

  /**
   * The length prefix over a payload of n bytes: the single byte offset + n when
   * n < 56, otherwise the byte offset + 55 + k followed by the k bytes of n.
   * The offset is 0x80 for strings and 0xc0 for lists.
   */
  function LengthPrefixed(payload: string, offset: nat): (r: string)
    requires |payload| < MaxText
    requires offset == 128 || offset == 192
    ensures |r| % 2 == |payload| % 2 && |payload| + 2 <= |r| <= |payload| + 18
  {
    var prefix := LengthPrefix(|payload| / 2, offset);
    EvenAppend(prefix, payload);
    prefix + payload
  }

  lemma EvenAppend(prefix: string, payload: string)
    requires |prefix| % 2 == 0
    ensures |prefix + payload| % 2 == |payload| % 2
  {
  }

  /** The prefix alone, for a payload of n bytes. */
  function LengthPrefix(n: nat, offset: nat): (p: string)
    requires n < TwoTo64 / 2
    requires offset == 128 || offset == 192
    ensures |p| % 2 == 0 && 2 <= |p| <= 18
  {
    if n < 56 then
      PrefixByteLength(offset + n);
      DecHex(offset + n)
    else
      var lengthHex := LengthHex(n);
      PrefixByteLength(offset + 55 + |lengthHex| / 2);
      DecHex(offset + 55 + |lengthHex| / 2) + lengthHex
  }

  /** The even-padded hex of a byte count below 2^64: at most 8 bytes of it. */
  function LengthHex(n: nat): (r: string)
    requires n < TwoTo64
    ensures |r| % 2 == 0 && 2 <= |r| <= 16
  {
    DecHex64(n);
    EvenPad(DecHex(n))
  }

  lemma PrefixByteLength(v: nat)
    requires 16 <= v < 256
    ensures |DecHex(v)| == 2
  {
    assert DecHex(v) == DecHex(v / 16) + [Digit(v % 16)];
  }

  /**
   * The string branch. On a text of odd length `strlen / 2` is a float: it is never
   * `=== 1`, and `dechex` truncates it, so the prefix counts the whole bytes only and
   * the result still has an odd number of digits.
   */
  function EncodeText(s: string): (r: string)
    requires |s| < MaxText
    ensures (|r| % 2 == 0 <==> ValidText(s)) && 2 <= |r| <= |s| + 18
  {
    var t := StripPrefix(s);
    if !Truthy(t) then "80"
    else if |t| == 2 && HexDec(t) < 128 then t
    else LengthPrefixed(t, 128)
  }

  lemma NotPrefixed(hex: string)
    requires IsHex(hex)
    ensures StripPrefix(hex) == hex
  {
    if |hex| >= 2 {
      assert IsHexDigit(hex[1]);
    }
  }

  /**
   * `rlpEncode`. Every successful encoding stays within `Size`, and has an even
   * number of characters (whole bytes) when every text does; an unsupported value
   * anywhere throws.
   */
  function Encode(x: Item): (r: Result<string>)
    requires Encodable(x)
    ensures r.Ok? ==> 2 <= |r.value| <= Size(x)
    ensures r.Ok? && EvenStrings(x) ==> |r.value| % 2 == 0
    decreases x
  {
    match x
    case List(items) =>
      (match EncodeAll(items)
       case Err(e) => Err(e)
       case Ok(payload) => Ok(LengthPrefixed(payload, 192)))
    case Str(s) => Ok(EncodeText(s))
    case Int(n) =>
      if n == 0 then Ok("80")
      else
        var hex := EvenPad(DecHexInt(n));
        if n < 128 then Ok(hex)
        else
          NotPrefixed(hex);
          Ok(EncodeText(hex))
    case Unsupported(t) => Err("Unsupported RLP input type: " + t)
  }

  lemma RestEncodable(items: seq<Item>)
    requires EncodableAll(items) && items != []
    ensures Encodable(items[0]) && EncodableAll(items[1..])
    ensures SizeAll(items) == Size(items[0]) + SizeAll(items[1..])
    ensures EvenStringsAll(items) <==> EvenStrings(items[0]) && EvenStringsAll(items[1..])
  {
  }

  lemma AppendBound(a: string, b: string, na: nat, nb: nat)
    requires |a| <= na && |b| <= nb
    ensures |a + b| <= na + nb
    ensures |a| % 2 == 0 && |b| % 2 == 0 ==> |a + b| % 2 == 0
  {
  }

  /** The items of a list encoded in order and concatenated; the first failure wins. */
  function EncodeAll(items: seq<Item>): (r: Result<string>)
    requires EncodableAll(items)
    ensures r.Ok? ==> |r.value| <= SizeAll(items)
    ensures r.Ok? && EvenStringsAll(items) ==> |r.value| % 2 == 0
    decreases items
  {
    if items == [] then Ok("")
    else
      RestEncodable(items);
      var head := Encode(items[0]);
      if head.Err? then head
      else
        var tail := EncodeAll(items[1..]);
        if tail.Err? then tail
        else
          AppendBound(head.value, tail.value, Size(items[0]), SizeAll(items[1..]));
          Ok(head.value + tail.value)
  }

  /** Values without an unsupported type anywhere inside. */
  predicate Supported(x: Item)
    decreases x
  {
    match x
    case List(items) => forall i | 0 <= i < |items| :: Supported(items[i])
    case Unsupported(_) => false
    case _ => true
  }

  /** `rlpEncode` throws exactly when an unsupported value occurs somewhere inside. */
  lemma {:induction false} EncodeOkIffSupported(x: Item)
    requires Encodable(x)
    ensures Encode(x).Ok? <==> Supported(x)
    decreases x
  {
    match x
    case List(items) =>
      EncodeAllOkIffSupported(items);
    case _ =>
  }

  lemma {:induction false} EncodeAllOkIffSupported(items: seq<Item>)
    requires EncodableAll(items)
    ensures EncodeAll(items).Ok? <==> forall i | 0 <= i < |items| :: Supported(items[i])
    decreases items
  {
    if items != [] {
      RestEncodable(items);
      EncodeOkIffSupported(items[0]);
      EncodeAllOkIffSupported(items[1..]);
      assert forall i | 0 <= i < |items| - 1 :: items[1..][i] == items[i + 1];
    }
  }

  /** Every text inside is hex once its "0x" is stripped. */
  predicate HexTexts(x: Item)
    decreases x
  {
    match x
    case Str(s) => IsHex(StripPrefix(s))
    case List(items) => forall i | 0 <= i < |items| :: HexTexts(items[i])
    case _ => true
  }

  /** Both halves of a hex text are hex. */
  lemma HexParts(a: string, b: string)
    requires IsHex(a + b)
    ensures IsHex(a) && IsHex(b)
  {
    assert forall i | 0 <= i < |a| :: a[i] == (a + b)[i];
    assert forall i | 0 <= i < |b| :: b[i] == (a + b)[|a| + i];
  }

  /**
   * The encoder copies every text into its output: an encoding that is all hex
   * digits comes only from values whose texts are all hex.
   */
  lemma {:induction false} EncodeHexTexts(x: Item)
    requires Encodable(x)
    ensures Encode(x).Ok? && IsHex(Encode(x).value) ==> HexTexts(x)
    decreases x
  {
    if Encode(x).Ok? && IsHex(Encode(x).value) {
      match x
      case Str(s) =>
        var t := StripPrefix(s);
        if !Truthy(t) {
          assert t == "" || t == "0";
        } else if !(|t| == 2 && HexDec(t) < 128) {
          HexParts(LengthPrefix(|t| / 2, 128), t);
        }
      case List(items) =>
        var payload := EncodeAll(items).value;
        HexParts(LengthPrefix(|payload| / 2, 192), payload);
        EncodeAllHexTexts(items);
      case _ =>
    }
  }

  lemma {:induction false} EncodeAllHexTexts(items: seq<Item>)
    requires EncodableAll(items)
    ensures EncodeAll(items).Ok? && IsHex(EncodeAll(items).value) ==>
      forall i | 0 <= i < |items| :: HexTexts(items[i])
    decreases items
  {
    if items != [] && EncodeAll(items).Ok? && IsHex(EncodeAll(items).value) {
      RestEncodable(items);
      HexParts(Encode(items[0]).value, EncodeAll(items[1..]).value);
      EncodeHexTexts(items[0]);
      EncodeAllHexTexts(items[1..]);
      assert forall i | 0 <= i < |items| - 1 :: items[1..][i] == items[i + 1];
    }
  }

  /** Sizes add up over concatenated lists of items. */
  lemma {:induction false} SizeAllAppend(a: seq<Item>, b: seq<Item>)
    ensures SizeAll(a + b) == SizeAll(a) + SizeAll(b)
    decreases |a|
  {
    if a == [] {
      assert a + b == b;
    } else {
      assert (a + b)[0] == a[0] && (a + b)[1..] == a[1..] + b;
      SizeAllAppend(a[1..], b);
    }
  }

  /** Encoding a concatenation of items that encode concatenates the encodings. */
  lemma {:induction false} EncodeAllAppend(a: seq<Item>, b: seq<Item>)
    requires EncodableAll(a + b)
    ensures EncodableAll(a) && EncodableAll(b)
    ensures EncodeAll(a).Ok? && EncodeAll(b).Ok? ==>
      EncodeAll(a + b) == Ok(EncodeAll(a).value + EncodeAll(b).value)
    decreases |a|
  {
    SizeAllAppend(a, b);
    if a == [] {
      assert a + b == b;
      if EncodeAll(b).Ok? {
        assert "" + EncodeAll(b).value == EncodeAll(b).value;
      }
    } else if EncodeAll(a).Ok? && EncodeAll(b).Ok? {
      var ab := a + b;
      assert ab[0] == a[0] && ab[1..] == a[1..] + b;
      EncodeAllStep(ab);
      EncodeAllStep(a);
      EncodeAllAppend(a[1..], b);
      var h, r := Encode(a[0]), EncodeAll(a[1..]);
      assert h.Ok? && r.Ok? && EncodeAll(a) == Ok(h.value + r.value);
      var t := EncodeAll(a[1..] + b);
      assert t == Ok(r.value + EncodeAll(b).value);
      assert Encode(ab[0]) == h && EncodeAll(ab[1..]) == t;
      assert EncodeAll(ab) == Ok(h.value + t.value);
      Associative(h.value, r.value, EncodeAll(b).value);
    }
  }

  lemma Associative(x: string, y: string, z: string)
    ensures x + (y + z) == (x + y) + z
  {
  }

  /** One unfolding of `EncodeAll`. */
  lemma EncodeAllStep(items: seq<Item>)
    requires EncodableAll(items) && items != []
    ensures Encodable(items[0]) && EncodableAll(items[1..])
    ensures EncodeAll(items) ==
      if Encode(items[0]).Err? then Encode(items[0])
      else if EncodeAll(items[1..]).Err? then EncodeAll(items[1..])
      else Ok(Encode(items[0]).value + EncodeAll(items[1..]).value)
  {
    RestEncodable(items);
  }

  /** One unfolding of `Encode` on a list whose items encode. */
  lemma EncodeListStep(items: seq<Item>)
    requires Encodable(List(items)) && EncodableAll(items) && EncodeAll(items).Ok?
    ensures Encode(List(items)) == Ok(LengthPrefixed(EncodeAll(items).value, 192))
  {
  }

  /** Two lists that differ only in a last item of the same encoding encode alike. */
  lemma {:induction false} EncodeAllLastAgrees(a: seq<Item>, x: Item, y: Item)
    requires EncodableAll(a + [x]) && EncodableAll(a + [y])
    requires Encodable(x) && Encodable(y) && Encode(x) == Encode(y)
    ensures EncodeAll(a + [x]) == EncodeAll(a + [y])
    decreases |a|
  {
    var ax, ay := a + [x], a + [y];
    EncodeAllStep(ax);
    EncodeAllStep(ay);
    if a == [] {
      assert ax[0] == x && ay[0] == y && ax[1..] == [] && ay[1..] == [];
    } else {
      assert ax[0] == a[0] && ay[0] == a[0];
      assert ax[1..] == a[1..] + [x] && ay[1..] == a[1..] + [y];
      EncodeAllLastAgrees(a[1..], x, y);
    }
  }

  // ---------------------------------------------------------------------------
  // The byte-level definition (Yellow Paper, Appendix B)
  // ---------------------------------------------------------------------------

  datatype Tree = Leaf(bytes: seq<byte>) | Node(children: seq<Tree>)

  /** The big-endian bytes of n without leading zeros; BE(0) is empty. */
  function BE(n: nat): (r: seq<byte>)
    ensures n > 0 ==> |r| > 0 && r[0] > 0
    decreases n
  {
    if n == 0 then [] else BE(n / 256) + [n % 256]
  }

  function RefPrefix(n: nat, offset: nat): seq<int> {
    if n < 56 then [offset + n] else [offset + 55 + |BE(n)|] + BE(n)
  }

  function RlpRef(t: Tree): seq<int>
    decreases t
  {
    match t
    case Leaf(b) => if |b| == 1 && b[0] < 128 then b else RefPrefix(|b|, 128) + b
    case Node(c) => var p := RefAll(c); RefPrefix(|p|, 192) + p
  }

  function RefAll(c: seq<Tree>): seq<int>
    decreases c
  {
    if c == [] then [] else RlpRef(c[0]) + RefAll(c[1..])
  }

  /** Items that stand for byte strings, lists and non-negative integers. */
  predicate Canonical(x: Item)
    decreases x
  {
    match x
    case Str(s) => var t := StripPrefix(s); t == "0" || IsByteHex(t)
    case Int(n) => n >= 0
    case List(items) => forall i | 0 <= i < |items| :: Canonical(items[i])
    case Unsupported(_) => false
  }

  /** The bytes a text stands for; "0" is PHP-empty and stands for no bytes. */
  function TextBytes(s: string): seq<byte>
    requires var t := StripPrefix(s); t == "0" || IsByteHex(t)
  {
    var t := StripPrefix(s);
    if t == "0" then [] else HexToBytes(t)
  }

  function ToTree(x: Item): Tree
    requires Canonical(x)
    decreases x
  {
    match x
    case Str(s) => Leaf(TextBytes(s))
    case Int(n) => Leaf(BE(n))
    case List(items) => Node(ToTrees(items))
  }

  function ToTrees(items: seq<Item>): (r: seq<Tree>)
    requires forall i | 0 <= i < |items| :: Canonical(items[i])
    ensures |r| == |items|
    decreases items
  {
    if items == [] then []
    else
      assert forall i | 0 <= i < |items| - 1 :: items[1..][i] == items[i + 1];
      [ToTree(items[0])] + ToTrees(items[1..])
  }

  /** The even-padded hex of a positive length is its big-endian bytes. */
  lemma {:induction false} LengthBytes(n: nat)
    requires n > 0
    ensures IsByteHex(EvenPad(DecHex(n))) && HexToBytes(EvenPad(DecHex(n))) == BE(n)
    decreases n
  {
    if n < 16 {
      assert EvenPad(DecHex(n)) == ['0', Digit(n)];
      assert BE(n) == BE(0) + [n];
    } else if n < 256 {
      TwoDigitByte(n);
      assert BE(n) == BE(0) + [n];
    } else {
      var q := n / 256;
      var tail := LowByteDigits(n);
      LengthBytes(q);
      EvenPadAppend(DecHex(q), tail);
      HexToBytesAppend(EvenPad(DecHex(q)), tail);
    }
  }

  lemma EvenPadAppend(a: string, tail: string)
    requires |tail| % 2 == 0
    ensures EvenPad(a + tail) == EvenPad(a) + tail
  {
    if |a| % 2 == 1 {
      assert "0" + (a + tail) == ("0" + a) + tail;
    }
  }

  /** Above 255, the last two digits of `dechex` are the low byte. */
  function LowByteDigits(n: nat): (tail: string)
    requires n >= 256
    ensures DecHex(n) == DecHex(n / 256) + tail
    ensures IsByteHex(tail) && HexToBytes(tail) == [n % 256]
    ensures BE(n) == BE(n / 256) + [n % 256]
  {
    var hi, lo := n / 16 % 16, n % 16;
    assert n / 16 / 16 == n / 256;
    assert hi * 16 + lo == n % 256;
    assert DecHex(n / 16) == DecHex(n / 256) + [Digit(hi)];
    [Digit(hi), Digit(lo)]
  }

  lemma PrefixMatches(payload: string, offset: nat)
    requires IsByteHex(payload) && |payload| < MaxText
    requires offset == 128 || offset == 192
    ensures IsByteHex(LengthPrefixed(payload, offset))
    ensures HexToBytes(LengthPrefixed(payload, offset)) == RefPrefix(|payload| / 2, offset) + HexToBytes(payload)
  {
    PrefixBytes(|payload| / 2, offset);
    HexToBytesAppend(LengthPrefix(|payload| / 2, offset), payload);
  }

  /** The prefix text is the byte-level prefix of Appendix B. */
  lemma PrefixBytes(n: nat, offset: nat)
    requires n < TwoTo64 / 2
    requires offset == 128 || offset == 192
    ensures IsByteHex(LengthPrefix(n, offset)) && HexToBytes(LengthPrefix(n, offset)) == RefPrefix(n, offset)
  {
    if n < 56 {
      TwoDigitByte(offset + n);
    } else {
      LengthBytes(n);
      var lengthHex := LengthHex(n);
      var k := |lengthHex| / 2;
      TwoDigitByte(offset + 55 + k);
      HexToBytesAppend(DecHex(offset + 55 + k), lengthHex);
    }
  }

  lemma TextMatches(s: string)
    requires |s| < MaxText
    requires var t := StripPrefix(s); t == "0" || IsByteHex(t)
    ensures IsByteHex(EncodeText(s))
    ensures HexToBytes(EncodeText(s)) == RlpRef(Leaf(TextBytes(s)))
  {
    var t := StripPrefix(s);
    if !Truthy(t) {
      assert HexToBytes("80") == [128];
    } else if |t| == 2 && HexDec(t) < 128 {
      TwoDigitsValue(t);
    } else {
      PrefixMatches(t, 128);
      if |t| == 2 {
        TwoDigitsValue(t);
      }
    }
  }

  /**
   * Appendix B agreement: on byte strings written in hex, lists and non-negative
   * integers, the hex text `rlpEncode` produces is the byte-level RLP encoding.
   */
  lemma {:induction false} EncodeMatchesReference(x: Item)
    requires Encodable(x) && Canonical(x)
    ensures Encode(x).Ok? && IsByteHex(Encode(x).value)
    ensures HexToBytes(Encode(x).value) == RlpRef(ToTree(x))
    decreases x
  {
    match x
    case Str(s) => TextMatches(s);
    case Int(n) =>
      if n == 0 {
        assert HexToBytes("80") == [128];
      } else {
        var hex := EvenPad(DecHexInt(n));
        LengthBytes(n);
        if n >= 128 {
          NotPrefixed(hex);
          TextMatches(hex);
        } else {
          assert BE(n) == BE(0) + [n];
        }
      }
    case List(items) =>
      assert forall i | 0 <= i < |items| :: Canonical(items[i]);
      EncodeAllMatchesReference(items);
      PrefixMatches(EncodeAll(items).value, 192);
  }

  lemma {:induction false} EncodeAllMatchesReference(items: seq<Item>)
    requires EncodableAll(items)
    requires forall i | 0 <= i < |items| :: Canonical(items[i])
    ensures EncodeAll(items).Ok? && IsByteHex(EncodeAll(items).value)
    ensures HexToBytes(EncodeAll(items).value) == RefAll(ToTrees(items))
    decreases items
  {
    if items != [] {
      assert forall i | 0 <= i < |items| - 1 :: items[1..][i] == items[i + 1];
      assert Canonical(items[0]);
      EncodeMatchesReference(items[0]);
      EncodeAllMatchesReference(items[1..]);
      HexToBytesAppend(Encode(items[0]).value, EncodeAll(items[1..]).value);
    }
  }

  /** Worked examples of Appendix B, on the hex text `rlpEncode` takes and returns. */
  lemma ExampleEmpty()
    ensures Encode(List([])) == Ok("c0")
    ensures Encode(Str("")) == Ok("80") && Encode(Str("0x")) == Ok("80") && Encode(Int(0)) == Ok("80")
  {
    assert DecHex(12) == "c";
    assert DecHex(192) == "c0";
    assert LengthPrefix(0, 192) == "c0";
    assert LengthPrefixed("", 192) == "c0";
    assert EncodeAll([]) == Ok("");
    assert StripPrefix("0x") == "";
  }

  /** A value below 128 is its own single byte. */
  lemma ExampleInt15()
    ensures Encode(Int(15)) == Ok("0f")
  {
    assert DecHex(15) == "f";
    assert DecHexInt(15) == "f";
    assert EvenPad("f") == "0f";
    assert Encode(Int(15)) == Ok(EvenPad(DecHexInt(15)));
  }

  /** 1024 is the two bytes 04 00, behind the short string prefix 0x82. */
  lemma ExampleInt1024()
    ensures Encode(Int(1024)) == Ok("820400")
  {
    Hex1024();
    NotPrefixed("0400");
    assert HexDec("0400") >= 128 by {
      assert HexDec("04") == HexDec("0") * 16 + 4;
      assert HexDec("040") == HexDec("04") * 16;
    }
    assert LengthPrefix(2, 128) == "82" by {
      assert DecHex(130) == DecHex(8) + "2";
    }
    assert EncodeText("0400") == "820400";
  }

  lemma Hex1024()
    ensures EvenPad(DecHexInt(1024)) == "0400"
  {
    assert DecHex(64) == DecHex(4) + "0";
    assert DecHex(1024) == DecHex(64) + "0";
  }

  /** `EncodeAll` on two items: the first one's encoding, then the second's. */
  lemma EncodeAllPair(x: Item, y: Item)
    requires Encodable(x) && Encodable(y) && Size(x) + Size(y) < MaxText
    ensures EncodableAll([x, y])
    ensures EncodeAll([x, y]) ==
      if Encode(x).Err? then Encode(x)
      else if Encode(y).Err? then Encode(y)
      else Ok(Encode(x).value + Encode(y).value)
  {
    var items := [x, y];
    assert items[1..] == [y] && [y][1..] == [];
    assert SizeAll([y]) == Size(y);
    assert SizeAll(items) == Size(x) + Size(y);
    RestEncodable(items);
    RestEncodable([y]);
    assert EncodeAll([y][1..]) == Ok("");
    assert Encode([y][0]) == Encode(y);
    var tail := EncodeAll([y]);
    assert Encode(y).Ok? ==> Encode(y).value + "" == Encode(y).value;
    assert tail == Encode(y);
    assert EncodeAll(items) == if Encode(x).Err? then Encode(x) else if tail.Err? then tail else Ok(Encode(x).value + tail.value);
  }

  /** An unsupported value anywhere in a list makes the whole encoding throw. */
  lemma ExampleUnsupported()
    ensures Encode(List([Int(1), Unsupported("NULL")])) == Err("Unsupported RLP input type: NULL")
  {
    EncodeAllPair(Int(1), Unsupported("NULL"));
  }
}
