/**
 * Hex text as PHP handles it: `dechex`, `hexdec`, `str_pad(.., '0', STR_PAD_LEFT)`,
 * `bin2hex` and `hex2bin`. The reward pipeline keeps every byte string as hex text,
 * so these are the primitives the encoders are built from.
 */
module Hex {

  type byte = x: int | 0 <= x < 256

  predicate IsHexDigit(c: char) {
    '0' <= c <= '9' || 'a' <= c <= 'f' || 'A' <= c <= 'F'
  }

  predicate IsHex(s: string) {
    forall i | 0 <= i < |s| :: IsHexDigit(s[i])
  }

  /** Hex text that `hex2bin` accepts: hex digits, an even number of them. */
  predicate IsByteHex(s: string) {
    IsHex(s) && |s| % 2 == 0
  }

  function DigitValue(c: char): (d: nat)
    requires IsHexDigit(c)
    ensures d < 16
  {
    if '0' <= c <= '9' then c as int - '0' as int
    else if 'a' <= c <= 'f' then c as int - 'a' as int + 10
    else c as int - 'A' as int + 10
  }

  /** The lowercase digit PHP prints for a value below 16. */
  function Digit(d: nat): (c: char)
    requires d < 16
    ensures IsHexDigit(c) && DigitValue(c) == d
    ensures '0' <= c <= '9' || 'a' <= c <= 'f'
  {
    if d < 10 then ('0' as int + d) as char else ('a' as int + d - 10) as char
  }

  /**
   * PHP `hexdec`: the big-endian value of the hex digits of `s`; every other
   * character is skipped.
   */
  function HexDec(s: string): nat
  {
    if s == [] then 0
    else if IsHexDigit(s[|s| - 1]) then HexDec(s[..|s| - 1]) * 16 + DigitValue(s[|s| - 1])
    else HexDec(s[..|s| - 1])
  }

  /**
   * PHP `dechex` (and `gmp_strval(_, 16)`) on a non-negative value: lowercase
   * digits, no leading zero, "0" for zero. HexDec reads it back to the value.
   */
  function DecHex(n: nat): (r: string)
    ensures 1 <= |r| && IsHex(r)
  {
    if n < 16 then [Digit(n)] else DecHex(n / 16) + [Digit(n % 16)]
  }

  /** `hexdec(dechex($n)) == $n`, and only zero prints with a leading 0. */
  lemma {:induction false} DecHexValue(n: nat)
    ensures HexDec(DecHex(n)) == n
    ensures DecHex(n)[0] == '0' <==> n == 0
    decreases n
  {
    if n >= 16 {
      DecHexValue(n / 16);
      HexDecAppendDigit(DecHex(n / 16), Digit(n % 16));
    }
  }

  function Zeros(k: nat): (r: string)
    ensures |r| == k && forall i | 0 <= i < k :: r[i] == '0'
  {
    seq(k, _ => '0')
  }

  /** `str_pad($s, $width, '0', STR_PAD_LEFT)`: never truncates. */
  function PadLeft(s: string, width: nat): (r: string)
    ensures |r| == if |s| >= width then |s| else width
    ensures r[|r| - |s|..] == s
    ensures forall i | 0 <= i < |r| - |s| :: r[i] == '0'
  {
    if |s| >= width then s else Zeros(width - |s|) + s
  }

  /** The "prepend one 0 if the length is odd" step used before length prefixes. */
  function EvenPad(s: string): (r: string)
    ensures |r| % 2 == 0
    ensures |r| == |s| || (|r| == |s| + 1 && r == "0" + s)
  {
    if |s| % 2 == 0 then s else "0" + s
  }

  /** `bin2hex`: two lowercase digits per byte. */
  function ToHex(bytes: seq<byte>): (r: string)
    ensures |r| == 2 * |bytes| && IsByteHex(r)
  {
    if bytes == [] then "" else [Digit(bytes[0] / 16), Digit(bytes[0] % 16)] + ToHex(bytes[1..])
  }

  /** `hex2bin` on text it accepts. */
  function HexToBytes(s: string): (r: seq<byte>)
    requires IsByteHex(s)
    ensures |r| == |s| / 2
  {
    if s == [] then [] else [DigitValue(s[0]) * 16 + DigitValue(s[1])] + HexToBytes(s[2..])
  }

  lemma {:induction false} HexToBytesAppend(a: string, b: string)
    requires IsByteHex(a) && IsByteHex(b)
    ensures IsByteHex(a + b)
    ensures HexToBytes(a + b) == HexToBytes(a) + HexToBytes(b)
  {
    if a != [] {
      assert (a + b)[2..] == a[2..] + b;
      HexToBytesAppend(a[2..], b);
    } else {
      assert a + b == b;
    }
  }

  /** `hex2bin(bin2hex($b)) === $b`. */
  lemma {:induction false} HexToBytesToHex(bytes: seq<byte>)
    ensures HexToBytes(ToHex(bytes)) == bytes
  {
    if bytes != [] {
      var s := ToHex(bytes);
      assert s[2..] == ToHex(bytes[1..]);
      HexToBytesToHex(bytes[1..]);
    }
  }

  /** A value of one byte at or above 16 prints as exactly the two digits of that byte. */
  lemma TwoDigitByte(v: nat)
    requires 16 <= v < 256
    ensures |DecHex(v)| == 2 && IsByteHex(DecHex(v)) && HexToBytes(DecHex(v)) == [v]
  {
    assert DecHex(v) == [Digit(v / 16), Digit(v % 16)];
  }

  lemma {:induction false} HexDecAppendDigit(s: string, c: char)
    requires IsHexDigit(c)
    ensures HexDec(s + [c]) == HexDec(s) * 16 + DigitValue(c)
  {
    assert (s + [c])[..|s + [c]| - 1] == s;
  }

  /** `hexdec` on the two digits of a byte gives that byte. */
  lemma TwoDigitsValue(s: string)
    requires |s| == 2 && IsHex(s)
    ensures HexDec(s) == DigitValue(s[0]) * 16 + DigitValue(s[1])
  {
    assert s == [s[0]] + [s[1]];
    HexDecAppendDigit([s[0]], s[1]);
    assert [s[0]][..0] == [];
  }

  /** Zeros add nothing to a value: `hexdec` ignores leading zeros. */
  lemma {:induction false} HexDecZeros(k: nat)
    ensures HexDec(Zeros(k)) == 0
  {
    if k > 0 {
      assert Zeros(k)[..k - 1] == Zeros(k - 1);
      HexDecZeros(k - 1);
    }
  }

  lemma {:induction false} HexDecLeadingZeros(k: nat, s: string)
    ensures HexDec(Zeros(k) + s) == HexDec(s)
    decreases |s|
  {
    if s == [] {
      assert Zeros(k) + s == Zeros(k);
      HexDecZeros(k);
    } else {
      var z := Zeros(k) + s;
      assert z[..|z| - 1] == Zeros(k) + s[..|s| - 1];
      HexDecLeadingZeros(k, s[..|s| - 1]);
    }
  }

  /** `hexdec(str_pad($s, $w, '0', STR_PAD_LEFT)) == hexdec($s)`. */
  lemma HexDecPadLeft(s: string, width: nat)
    ensures HexDec(PadLeft(s, width)) == HexDec(s)
  {
    if |s| < width {
      HexDecLeadingZeros(width - |s|, s);
    }
  }

  function Pow16(k: nat): (r: nat)
    ensures r >= 1
  {
    if k == 0 then 1 else 16 * Pow16(k - 1)
  }

  lemma Pow16Of16()
    ensures Pow16(16) == 0x1_0000_0000_0000_0000
  {
    assert Pow16(1) == 16; assert Pow16(2) == 0x100; assert Pow16(3) == 0x1000;
    assert Pow16(4) == 0x1_0000; assert Pow16(5) == 0x10_0000; assert Pow16(6) == 0x100_0000;
    assert Pow16(7) == 0x1000_0000; assert Pow16(8) == 0x1_0000_0000;
    assert Pow16(9) == 0x10_0000_0000; assert Pow16(10) == 0x100_0000_0000;
    assert Pow16(11) == 0x1000_0000_0000; assert Pow16(12) == 0x1_0000_0000_0000;
    assert Pow16(13) == 0x10_0000_0000_0000; assert Pow16(14) == 0x100_0000_0000_0000;
    assert Pow16(15) == 0x1000_0000_0000_0000;
  }

  /** A value below 16^k prints in at most k digits. */
  lemma {:induction false} DecHexLength(n: nat, k: nat)
    requires 1 <= k && n < Pow16(k)
    ensures |DecHex(n)| <= k
  {
    if n >= 16 {
      assert k != 1;
      assert n / 16 < Pow16(k - 1);
      DecHexLength(n / 16, k - 1);
    }
  }

  /** Every 64-bit value prints in at most 16 digits. */
  lemma DecHex64(n: nat)
    requires n < 0x1_0000_0000_0000_0000
    ensures |DecHex(n)| <= 16
  {
    Pow16Of16();
    DecHexLength(n, 16);
  }
}
