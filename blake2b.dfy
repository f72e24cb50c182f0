/**
 * `RewardService::blake2b256`, the hash the transaction is signed over, modelled
 * as the code computes it with GMP integers (unbounded and never negative). It
 * departs from RFC 7693 in the ways recorded below; the lemmas state what the code
 * does, not what the RFC does:
 *  - the G mixing step shifts right and complements the low 64 bits where the RFC
 *    rotates (`ShiftNot`, `ShiftNotIsNotRotation`);
 *  - the additions into v[a] and v[c] are never reduced modulo 2^64;
 *  - message words are the big-endian values of 16-hex-digit chunks of the input,
 *    the last chunk as short as it comes (`Words`);
 *  - the block buffer is not cleared between blocks (`StaleBlock`);
 *  - the byte count and the "f0" word only enter the first block (`InitWork`).
 * The all-ones literal `0xffffffffffffffff` is read as 2^64 - 1.
 */
module Blake2b {
  import opened Hex

  const TwoTo64: nat := 0x1_0000_0000_0000_0000

  /** `0xffffffffffffffff`, read as the 64-bit all-ones value. */
  const Mask: nat := TwoTo64 - 1

  function Pow2(k: nat): (r: nat)
    ensures r >= 1
  {
    if k == 0 then 1 else 2 * Pow2(k - 1)
  }

  /** `gmp_xor` on non-negative values, bit by bit from the lowest. */
  function Xor(a: nat, b: nat): nat
    decreases a + b
  {
    if a == 0 && b == 0 then 0 else 2 * Xor(a / 2, b / 2) + (a % 2 + b % 2) % 2
  }

  /** `gmp_and` on non-negative values. */
  function And(a: nat, b: nat): nat
    decreases a + b
  {
    if a == 0 && b == 0 then 0 else 2 * And(a / 2, b / 2) + (a % 2) * (b % 2)
  }

  /** `gmp_shr`: `gmp_div_q` by 2^k, which on non-negative values halves k times. */
  function Shr(x: nat, k: nat): nat {
    if k == 0 then x else Shr(x / 2, k - 1)
  }

  /** `gmp_and(gmp_xor($x, MASK), MASK)`: the complement of the low 64 bits of x. */
  function MaskedNot(x: nat): (r: nat)
    ensures r == Mask - x % TwoTo64 && r < TwoTo64
  {
    Pow2Of64();
    MaskedNotBits(x, 64);
    And(Xor(x, Mask), Mask)
  }

  /** The G step's update of v[d] or v[b]: shift right by k, then complement. */
  function ShiftNot(x: nat, k: nat): nat {
    MaskedNot(Shr(x, k))
  }

  // ---------------------------------------------------------------------------
  // Bit arithmetic
  // ---------------------------------------------------------------------------

  lemma {:induction false} XorZero(x: nat)
    ensures Xor(x, 0) == x
    decreases x
  {
    if x != 0 {
      XorZero(x / 2);
    }
  }

  lemma AndZero(x: nat)
    ensures And(x, 0) == 0
  {
    if x != 0 {
      assert And(x / 2, 0) == 0 by { AndZero(x / 2); }
    }
  }

  lemma ModDouble(y: nat, p: nat)
    requires p >= 1
    ensures y % (2 * p) == 2 * ((y / 2) % p) + y % 2
  {
    var q, r0 := y / 2, y % 2;
    var q2, r1 := q / p, q % p;
    assert y == 2 * q + r0;
    assert q == p * q2 + r1;
    assert y == (2 * p) * q2 + (2 * r1 + r0);
    ModUnique(y, 2 * p, q2, 2 * r1 + r0);
  }

  /** The remainder is the one r in [0, n) with y == n * q + r. */
  lemma ModUnique(y: int, n: int, q: int, r: int)
    requires n > 0 && y == n * q + r && 0 <= r < n
    ensures y % n == r
  {
    var q', r' := y / n, y % n;
    assert y == n * q' + r';
    if q > q' {
      MulAtLeast(n, q - q');
    } else if q < q' {
      MulAtLeast(n, q' - q);
    }
  }

  lemma {:induction false} MulAtLeast(n: nat, k: nat)
    requires k >= 1
    ensures n * k >= n
  {
    if k > 1 {
      MulAtLeast(n, k - 1);
      assert n * k == n * (k - 1) + n;
    }
  }

  /** Complementing under the all-ones mask of k bits subtracts the low k bits. */
  predicate ComplementsLowBits(y: nat, k: nat) {
    And(Xor(y, Pow2(k) - 1), Pow2(k) - 1) == Pow2(k) - 1 - y % Pow2(k)
  }

  lemma {:induction false} MaskedNotBits(y: nat, k: nat)
    ensures ComplementsLowBits(y, k)
    decreases k
  {
    if k == 0 {
      XorZero(y);
      AndZero(y);
    } else {
      MaskedNotBits(y / 2, k - 1);
      MaskedNotStep(y, k);
    }
  }

  /** The step of `MaskedNotBits`: one more bit of mask. */
  lemma MaskedNotStep(y: nat, k: nat)
    requires k >= 1 && ComplementsLowBits(y / 2, k - 1)
    ensures ComplementsLowBits(y, k)
  {
    var p := Pow2(k - 1);
    var n := p - 1;
    assert Pow2(k) - 1 == 2 * n + 1 && Pow2(k) == 2 * p;
    var x := Xor(y, 2 * n + 1);
    XorOdd(y, n);
    AndOdd(x, n);
    ModDouble(y, p);
  }

  lemma XorOdd(y: nat, n: nat)
    ensures Xor(y, 2 * n + 1) / 2 == Xor(y / 2, n) && Xor(y, 2 * n + 1) % 2 == 1 - y % 2
  {
    assert (2 * n + 1) / 2 == n && (2 * n + 1) % 2 == 1;
  }

  lemma AndOdd(x: nat, n: nat)
    ensures And(x, 2 * n + 1) == 2 * And(x / 2, n) + x % 2
  {
    assert (2 * n + 1) / 2 == n && (2 * n + 1) % 2 == 1;
  }

  lemma {:induction false} Pow2Pow16(k: nat)
    ensures Pow2(4 * k) == Pow16(k)
  {
    if k > 0 {
      Pow2Pow16(k - 1);
      var j := 4 * (k - 1);
      assert Pow2(j + 4) == 2 * Pow2(j + 3) == 4 * Pow2(j + 2) == 8 * Pow2(j + 1) == 16 * Pow2(j);
    }
  }

  lemma Pow2Of64()
    ensures Pow2(64) == TwoTo64
  {
    Pow2Pow16(16);
    Pow16Of16();
  }

  /** The rotation RFC 7693 uses in G, on 64-bit words. */
  function RotR64(x: nat, k: nat): int
    requires k < 64
  {
    Shr(x % TwoTo64, k) + (x % Pow2(k)) * Pow2(64 - k)
  }

  lemma {:induction false} ShrZero(k: nat)
    ensures Shr(0, k) == 0
  {
    if k > 0 {
      ShrZero(k - 1);
    }
  }

  /** The step G takes is not the rotation: on 0 it gives all ones, the rotation gives 0. */
  lemma ShiftNotIsNotRotation()
    ensures forall k | 0 < k < 64 :: ShiftNot(0, k) == Mask && RotR64(0, k) == 0
  {
    forall k | 0 < k < 64
      ensures ShiftNot(0, k) == Mask && RotR64(0, k) == 0
    {
      ShrZero(k);
    }
  }

  // ---------------------------------------------------------------------------
  // Constants
  // ---------------------------------------------------------------------------

  type Index = i: int | 0 <= i < 16

  type Row = s: seq<Index> | |s| == 16
    witness [0, 1, 2, 3, 4, 5, 6, 7, 8, 9, 10, 11, 12, 13, 14, 15]

  const IV: seq<nat> := [
    0x6a09e667f3bcc908, 0xbb67ae8584caa73b, 0x3c6ef372fe94f82b, 0xa54ff53a5f1d36f1,
    0x510e527fade682d1, 0x9b05688c2b3e6c1f, 0x1f83d9abfb41bd6b, 0x5be0cd19137e2179]

  /**
   * The message schedule. The code lists 12 rows (the last two repeat the first
   * two) and reads row `round % 10`.
   */
  const SIGMA: seq<Row> := [Sigma0, Sigma1, Sigma2, Sigma3, Sigma4, Sigma5, Sigma6, Sigma7, Sigma8, Sigma9, Sigma0, Sigma1]
  const Sigma0: Row := [0, 1, 2, 3, 4, 5, 6, 7, 8, 9, 10, 11, 12, 13, 14, 15]
  const Sigma1: Row := [14, 10, 4, 8, 9, 15, 13, 6, 1, 12, 0, 2, 11, 7, 5, 3]
  const Sigma2: Row := [11, 8, 12, 0, 5, 2, 15, 13, 10, 14, 3, 6, 7, 1, 9, 4]
  const Sigma3: Row := [7, 9, 3, 1, 13, 12, 11, 14, 2, 6, 5, 10, 4, 0, 15, 8]
  const Sigma4: Row := [9, 0, 5, 7, 2, 4, 10, 15, 14, 1, 11, 12, 6, 8, 3, 13]
  const Sigma5: Row := [2, 12, 6, 10, 0, 11, 8, 3, 4, 13, 7, 5, 15, 14, 1, 9]
  const Sigma6: Row := [12, 5, 1, 15, 14, 13, 4, 10, 0, 7, 6, 3, 9, 2, 8, 11]
  const Sigma7: Row := [13, 11, 7, 14, 12, 1, 3, 9, 5, 0, 15, 4, 8, 6, 2, 10]
  const Sigma8: Row := [6, 15, 14, 9, 11, 3, 0, 8, 12, 2, 13, 7, 1, 4, 10, 5]
  const Sigma9: Row := [10, 2, 8, 4, 7, 6, 1, 5, 15, 11, 9, 14, 3, 12, 13, 0]

  /** The parameter block word for a 32-byte digest, XORed into h[0]. */
  const ParamWord: nat := 0x01010020

  function InitialH(): (h: seq<nat>)
    ensures |h| == 8
  {
    IV[0 := Xor(IV[0], ParamWord)]
  }

  // ---------------------------------------------------------------------------
  // The hash as functions
  // ---------------------------------------------------------------------------

  /**
   * Half of the G closure, with message word x: add into v[a], shift-complement
   * v[d], add into v[c], shift-complement v[b].
   */
  function HalfG(v: seq<nat>, a: Index, b: Index, c: Index, d: Index, x: nat, k1: nat, k2: nat): (r: seq<nat>)
    requires |v| == 16
    ensures |r| == 16
  {
    var v1 := v[a := v[a] + (v[b] + x)];
    var v2 := v1[d := ShiftNot(Xor(v1[d], v1[a]), k1)];
    var v3 := v2[c := v2[c] + v2[d]];
    v3[b := ShiftNot(Xor(v3[b], v3[c]), k2)]
  }

  /** The G closure: it takes v by value and returns the updated copy. */
  function G(v: seq<nat>, a: Index, b: Index, c: Index, d: Index, m: seq<nat>, s0: Index, s1: Index): (r: seq<nat>)
    requires |v| == 16 && |m| == 16
    ensures |r| == 16
  {
    HalfG(HalfG(v, a, b, c, d, m[s0], 32, 24), a, b, c, d, m[s1], 16, 63)
  }

  /** The work-vector indices (a, b, c, d) of one G step. */
  datatype Lane = Lane(a: Index, b: Index, c: Index, d: Index)

  /** The eight G steps of a round: four columns, then four diagonals. */
  const Lanes: seq<Lane> := [
    Lane(0, 4, 8, 12), Lane(1, 5, 9, 13), Lane(2, 6, 10, 14), Lane(3, 7, 11, 15),
    Lane(0, 5, 10, 15), Lane(1, 6, 11, 12), Lane(2, 7, 8, 13), Lane(3, 4, 9, 14)]

  /** G step i of a round: lane i, message words s[2i] and s[2i + 1]. */
  function Step(v: seq<nat>, m: seq<nat>, s: Row, i: nat): (r: seq<nat>)
    requires |v| == 16 && |m| == 16 && i < 8
    ensures |r| == 16
  {
    var lane := Lanes[i];
    G(v, lane.a, lane.b, lane.c, lane.d, m, s[2 * i], s[2 * i + 1])
  }

  /** The first j G steps of a round. */
  function Steps(v: seq<nat>, m: seq<nat>, s: Row, j: nat): (r: seq<nat>)
    requires |v| == 16 && |m| == 16 && j <= 8
    ensures |r| == 16
  {
    if j == 0 then v else Step(Steps(v, m, s, j - 1), m, s, j - 1)
  }

  /** One round: all eight steps. */
  function Round(v: seq<nat>, m: seq<nat>, s: Row): (r: seq<nat>)
    requires |v| == 16 && |m| == 16
    ensures |r| == 16
  {
    Steps(v, m, s, 8)
  }

  /** The first n rounds, round r with schedule row r % 10. */
  function Rounds(v: seq<nat>, m: seq<nat>, n: nat): (r: seq<nat>)
    requires |v| == 16 && |m| == 16
    ensures |r| == 16
  {
    if n == 0 then v else Round(Rounds(v, m, n - 1), m, SIGMA[(n - 1) % 10])
  }

  /**
   * The work vector at the start of a block: h, then IV[0..3], then IV[4] and
   * IV[5] XORed with the byte count and f0 on the first block only, then IV[6..7].
   */
  function InitWork(h: seq<nat>, offset: nat, t: nat, f0: nat): (v: seq<nat>)
    requires |h| == 8
    ensures |v| == 16 && v[..8] == h
  {
    h + [IV[0], IV[1], IV[2], IV[3],
         Xor(IV[4], if offset == 0 then t else 0), Xor(IV[5], if offset == 0 then f0 else 0),
         IV[6], IV[7]]
  }

  /** 12 rounds on one block, then h[i] ^= v[i] ^ v[i + 8]. */
  function Compress(h: seq<nat>, block: seq<nat>, offset: nat, t: nat, f0: nat): (r: seq<nat>)
    requires |h| == 8 && |block| == 16
    ensures |r| == 8
  {
    FeedForward(h, Rounds(InitWork(h, offset, t, f0), block, 12))
  }

  /** h[i] ^ v[i] ^ v[i + 8] for each of the 8 words. */
  function FeedForward(h: seq<nat>, v: seq<nat>): (r: seq<nat>)
    requires |h| == 8 && |v| == 16
    ensures |r| == 8
  {
    seq(8, i requires 0 <= i < 8 => Xor(h[i], Xor(v[i], v[i + 8])))
  }

  /** The block buffer after loading the words at `offset`; the rest keep their old value. */
  function LoadBlock(block: seq<nat>, m: seq<nat>, offset: nat): (r: seq<nat>)
    requires |block| == 16
    ensures |r| == 16
  {
    seq(16, i requires 0 <= i < 16 => if offset + i < |m| then m[offset + i] else block[i])
  }

  /** `str_split($hex, 16)` (PHP 8.2 and later: no chunks for ""). */
  function Chunks(hex: string): (r: seq<string>)
    ensures forall i | 0 <= i < |r| :: 1 <= |r[i]| <= 16
    ensures |r| == (|hex| + 15) / 16
    decreases |hex|
  {
    if hex == "" then [] else if |hex| <= 16 then [hex] else [hex[..16]] + Chunks(hex[16..])
  }

  /** The message words: `gmp_init($chunk, 16)` of every chunk of `bin2hex($data)`. */
  function Words(data: seq<byte>): (m: seq<nat>)
    ensures |m| == (|data| + 7) / 8
  {
    var chunks := Chunks(ToHex(data));
    seq(|chunks|, i requires 0 <= i < |chunks| => HexDec(chunks[i]))
  }

  /** The block buffer after the first k blocks have been loaded into it. */
  function BlockAt(m: seq<nat>, k: nat): (block: seq<nat>)
    ensures |block| == 16
  {
    if k == 0 then seq(16, _ => 0) else LoadBlock(BlockAt(m, k - 1), m, 16 * (k - 1))
  }

  /** The chain value h after the first k blocks. */
  function ChainAt(m: seq<nat>, t: nat, f0: nat, k: nat): (h: seq<nat>)
    ensures |h| == 8
  {
    if k == 0 then InitialH() else Compress(ChainAt(m, t, f0, k - 1), BlockAt(m, k), 16 * (k - 1), t, f0)
  }

  /** Each word of h as at least 16 hex digits, in order. */
  function Output(h: seq<nat>): (r: string)
    ensures IsHex(r) && |r| >= 16 * |h|
  {
    if h == [] then "" else PadLeft(DecHex(h[0]), 16) + Output(h[1..])
  }

  /** The blocks the offset loop runs: one per 16 words, rounded up. */
  function BlockCount(words: nat): nat {
    (words + 15) / 16
  }

  /** The loop stops after k blocks when 16 * k first reaches the word count. */
  lemma BlockCountIs(n: nat, k: nat)
    requires n <= 16 * k <= n + 15
    ensures BlockCount(n) == k
  {
  }

  function Digest(data: seq<byte>): string {
    var m := Words(data);
    var t := |data|;
    Output(ChainAt(m, t, if t <= 128 then t else 0, BlockCount(|m|)))
  }

  // ---------------------------------------------------------------------------
  // The hash as the code runs it, on arrays
  // ---------------------------------------------------------------------------

  /** Half of the G closure, in place. */
  method HalfMix(v: array<nat>, a: Index, b: Index, c: Index, d: Index, x: nat, k1: nat, k2: nat)
    requires v.Length == 16
    modifies v
    ensures v[..] == HalfG(old(v[..]), a, b, c, d, x, k1, k2)
  {
    ghost var v0 := v[..];
    ghost var v1 := v0[a := v0[a] + (v0[b] + x)];
    v[a] := v[a] + (v[b] + x);
    assert v[..] == v1;
    ghost var v2 := v1[d := ShiftNot(Xor(v1[d], v1[a]), k1)];
    v[d] := ShiftNot(Xor(v[d], v[a]), k1);
    assert v[..] == v2;
    ghost var v3 := v2[c := v2[c] + v2[d]];
    v[c] := v[c] + v[d];
    assert v[..] == v3;
    v[b] := ShiftNot(Xor(v[b], v[c]), k2);
  }

  /** The G closure applied to the work vector in place. */
  method Mix(v: array<nat>, a: Index, b: Index, c: Index, d: Index, block: array<nat>, s0: Index, s1: Index)
    requires v.Length == 16 && block.Length == 16 && v != block
    modifies v
    ensures v[..] == G(old(v[..]), a, b, c, d, block[..], s0, s1)
  {
    HalfMix(v, a, b, c, d, block[s0], 32, 24);
    HalfMix(v, a, b, c, d, block[s1], 16, 63);
  }

  /** One round, in place. */
  method MixRound(v: array<nat>, block: array<nat>, s: Row)
    requires v.Length == 16 && block.Length == 16 && v != block
    modifies v
    ensures v[..] == Round(old(v[..]), block[..], s)
  {
    ghost var v0 := v[..];
    MixStep(v, block, s, 0);
    assert v[..] == Steps(v0, block[..], s, 1);
    MixStep(v, block, s, 1);
    assert v[..] == Steps(v0, block[..], s, 2);
    MixStep(v, block, s, 2);
    assert v[..] == Steps(v0, block[..], s, 3);
    MixStep(v, block, s, 3);
    assert v[..] == Steps(v0, block[..], s, 4);
    MixStep(v, block, s, 4);
    assert v[..] == Steps(v0, block[..], s, 5);
    MixStep(v, block, s, 5);
    assert v[..] == Steps(v0, block[..], s, 6);
    MixStep(v, block, s, 6);
    assert v[..] == Steps(v0, block[..], s, 7);
    MixStep(v, block, s, 7);
  }

  /** `$v = $G($v, a, b, c, d, $block, $s[2i], $s[2i + 1])` for lane i. */
  method MixStep(v: array<nat>, block: array<nat>, s: Row, i: nat)
    requires v.Length == 16 && block.Length == 16 && v != block && i < 8
    modifies v
    ensures v[..] == Step(old(v[..]), block[..], s, i)
  {
    var lane := Lanes[i];
    Mix(v, lane.a, lane.b, lane.c, lane.d, block, s[2 * i], s[2 * i + 1]);
  }

  /** The 12 rounds of one block. */
  method RunRounds(v: array<nat>, block: array<nat>)
    requires v.Length == 16 && block.Length == 16 && v != block
    modifies v
    ensures v[..] == Rounds(old(v[..]), block[..], 12)
  {
    var round := 0;
    while round < 12
      invariant 0 <= round <= 12
      invariant v[..] == Rounds(old(v[..]), block[..], round)
    {
      MixRound(v, block, SIGMA[round % 10]);
      round := round + 1;
    }
  }

  /** `array_merge($h, ...)` and the eight IV-derived words. */
  method SetUpWork(v: array<nat>, h: array<nat>, offset: nat, t: nat, f0: nat)
    requires v.Length == 16 && h.Length == 8 && v != h
    modifies v
    ensures v[..] == InitWork(h[..], offset, t, f0)
  {
    var i := 0;
    while i < 8
      invariant 0 <= i <= 8
      invariant forall j | 0 <= j < i :: v[j] == h[j]
    {
      v[i] := h[i];
      i := i + 1;
    }
    v[8] := IV[0];
    v[9] := IV[1];
    v[10] := IV[2];
    v[11] := IV[3];
    v[12] := Xor(IV[4], if offset == 0 then t else 0);
    v[13] := Xor(IV[5], if offset == 0 then f0 else 0);
    v[14] := IV[6];
    v[15] := IV[7];
  }

  /** Copy the words at `offset` into the buffer; the entries past the message stay. */
  method FillBlock(block: array<nat>, m: seq<nat>, offset: nat)
    requires block.Length == 16
    modifies block
    ensures block[..] == LoadBlock(old(block[..]), m, offset)
  {
    var i := 0;
    while i < |m| - offset && i < 16
      invariant 0 <= i <= 16
      invariant offset + i <= |m| || i == 0
      invariant forall j | 0 <= j < 16 :: block[j] == if j < i then m[offset + j] else old(block[j])
    {
      block[i] := m[offset + i];
      i := i + 1;
    }
  }

  /** h[i] ^= v[i] ^ v[i + 8]. */
  method Feed(h: array<nat>, v: array<nat>)
    requires h.Length == 8 && v.Length == 16 && h != v
    modifies h
    ensures h[..] == FeedForward(old(h[..]), v[..])
  {
    ghost var h0 := h[..];
    var i := 0;
    while i < 8
      invariant 0 <= i <= 8
      invariant forall j | 0 <= j < i :: h[j] == Xor(h0[j], Xor(v[j], v[j + 8]))
      invariant forall j | i <= j < 8 :: h[j] == h0[j]
    {
      h[i] := Xor(h[i], Xor(v[i], v[i + 8]));
      i := i + 1;
    }
  }

  /** The body of the offset loop: set up v, load the block, 12 rounds, feed h. */
  method CompressBlock(h: array<nat>, v: array<nat>, block: array<nat>, m: seq<nat>, offset: nat, t: nat, f0: nat)
    requires h.Length == 8 && v.Length == 16 && block.Length == 16
    requires h != v && h != block && v != block
    modifies h, v, block
    ensures block[..] == LoadBlock(old(block[..]), m, offset)
    ensures h[..] == Compress(old(h[..]), block[..], offset, t, f0)
  {
    ghost var h0 := h[..];
    SetUpWork(v, h, offset, t, f0);
    ghost var work := v[..];
    FillBlock(block, m, offset);
    ghost var loaded := block[..];
    assert h[..] == h0 && v[..] == work;
    RunRounds(v, block);
    assert v[..] == Rounds(work, loaded, 12) && h[..] == h0 && block[..] == loaded;
    Feed(h, v);
    assert h[..] == FeedForward(h0, Rounds(InitWork(h0, offset, t, f0), loaded, 12));
  }

  /** The offset loop: one compression per 16 words. */
  method Absorb(h: array<nat>, v: array<nat>, block: array<nat>, m: seq<nat>, t: nat, f0: nat) returns (ghost k: nat)
    requires h.Length == 8 && v.Length == 16 && block.Length == 16
    requires h != v && h != block && v != block
    requires h[..] == InitialH() && block[..] == BlockAt(m, 0)
    modifies h, v, block
    ensures |m| <= 16 * k <= |m| + 15
    ensures h[..] == ChainAt(m, t, f0, k)
  {
    var offset := 0;
    k := 0;
    while offset < |m|
      invariant offset == 16 * k
      invariant h[..] == ChainAt(m, t, f0, k) && block[..] == BlockAt(m, k)
      invariant 16 * k <= |m| + 15
    {
      NextBlock(h, v, block, m, offset, t, f0, k);
      offset := offset + 16;
      k := k + 1;
    }
  }

  /** One pass of the offset loop takes the state after k blocks to the state after k + 1. */
  method NextBlock(h: array<nat>, v: array<nat>, block: array<nat>, m: seq<nat>, offset: nat, t: nat, f0: nat, ghost k: nat)
    requires h.Length == 8 && v.Length == 16 && block.Length == 16 && offset == 16 * k
    requires h != v && h != block && v != block
    requires h[..] == ChainAt(m, t, f0, k) && block[..] == BlockAt(m, k)
    modifies h, v, block
    ensures h[..] == ChainAt(m, t, f0, k + 1) && block[..] == BlockAt(m, k + 1)
  {
    ChainStep(m, t, f0, k);
    CompressBlock(h, v, block, m, offset, t, f0);
  }

  lemma ChainStep(m: seq<nat>, t: nat, f0: nat, k: nat)
    ensures BlockAt(m, k + 1) == LoadBlock(BlockAt(m, k), m, 16 * k)
    ensures ChainAt(m, t, f0, k + 1) == Compress(ChainAt(m, t, f0, k), BlockAt(m, k + 1), 16 * k, t, f0)
  {
  }

  /** `str_pad(gmp_strval($h[$i], 16), 16, '0', STR_PAD_LEFT)` for each word, concatenated. */
  method HexChain(h: array<nat>) returns (out: string)
    ensures out == Output(h[..])
  {
    out := "";
    var i := 0;
    while i < h.Length
      invariant 0 <= i <= h.Length
      invariant out + Output(h[i..]) == Output(h[..])
    {
      assert h[i..][1..] == h[i + 1..];
      out := out + PadLeft(DecHex(h[i]), 16);
      i := i + 1;
    }
    assert h[i..] == [];
  }

  /** The chain value before the first block: the IV with the parameter word folded into h[0]. */
  method InitChain() returns (h: array<nat>)
    ensures fresh(h) && h.Length == 8 && h[..] == InitialH()
  {
    h := new nat[8](i requires 0 <= i < 8 => IV[i]);
    h[0] := Xor(h[0], ParamWord);
  }

  /** `blake2b256`: the digest of the bytes, as `Digest` defines it. */
  method Blake2b256(data: seq<byte>) returns (digest: string)
    ensures digest == Digest(data)
  {
    var h := InitChain();
    var m := Words(data);
    var t := |data|;
    var f0 := if t <= 128 then t else 0;
    var v := new nat[16](_ => 0);
    var block := new nat[16](_ => 0);
    assert block[..] == BlockAt(m, 0);
    ghost var blocks := Absorb(h, v, block, m, t, f0);
    BlockCountIs(|m|, blocks);
    digest := HexChain(h);
  }

  // ---------------------------------------------------------------------------
  // Properties
  // ---------------------------------------------------------------------------

  /** After a G step, v[b] and v[d] are below 2^64 whatever v held. */
  lemma GMasks(v: seq<nat>, a: Index, b: Index, c: Index, d: Index, m: seq<nat>, s0: Index, s1: Index)
    requires |v| == 16 && |m| == 16
    requires a != b && a != c && a != d && b != c && b != d && c != d
    ensures G(v, a, b, c, d, m, s0, s1)[b] < TwoTo64 && G(v, a, b, c, d, m, s0, s1)[d] < TwoTo64
  {
  }

  /** One chunk of at most 16 hex digits reads back as a value below 2^64. */
  lemma {:induction false} ChunkValue(s: string)
    requires |s| <= 16
    ensures HexDec(s) < Pow16(|s|) && Pow16(|s|) <= TwoTo64
    decreases |s|
  {
    if s != [] {
      ChunkValue(s[..|s| - 1]);
    }
    Pow16Bound(|s|);
  }

  lemma {:induction false} Pow16Bound(k: nat)
    requires k <= 16
    ensures Pow16(k) <= TwoTo64
  {
    Pow16Of16();
    Pow16Monotone(k, 16);
  }

  lemma {:induction false} Pow16Monotone(j: nat, k: nat)
    requires j <= k
    ensures Pow16(j) <= Pow16(k)
    decreases k
  {
    if j < k {
      Pow16Monotone(j, k - 1);
    }
  }

  /** Every message word is a 64-bit value, and there is one per 8 bytes, rounded up. */
  lemma WordsBounded(data: seq<byte>)
    ensures |Words(data)| == (|data| + 7) / 8
    ensures forall i | 0 <= i < |Words(data)| :: Words(data)[i] < TwoTo64
  {
    var chunks := Chunks(ToHex(data));
    forall i | 0 <= i < |chunks|
      ensures HexDec(chunks[i]) < TwoTo64
    {
      ChunkValue(chunks[i]);
    }
  }

  /**
   * The buffer is not cleared: in a block past the first whose words run out at
   * position i, entry i still holds what the previous block loaded there.
   */
  lemma StaleBlock(m: seq<nat>, k: nat, i: Index)
    requires k >= 2 && 16 * (k - 1) + i >= |m| && 16 * (k - 2) + i < |m|
    ensures BlockAt(m, k)[i] == m[16 * (k - 2) + i]
  {
  }

  /** The digest is hex text of at least 128 digits: 8 words of at least 16 each. */
  lemma DigestShape(data: seq<byte>)
    ensures IsHex(Digest(data)) && |Digest(data)| >= 128
  {
  }

  /** With no input there are no words and no blocks: the digest prints the initial chain value. */
  lemma EmptyDigest()
    ensures Digest([]) == Output(InitialH())
  {
    assert ToHex([]) == "";
  }
}
