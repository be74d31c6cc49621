/** The AVX-512 paths against the scalar ones (include/qtx/quantize/quantizer_simd.hpp): the BF16 lane with its
    chunks of sixteen and scalar tail, and the INT4 nibble packing and unpacking networks. */
module SimdBF16 {
  import opened FloatEncoders
  import opened FloatDecoders

  const LANES: nat := 16

  /** One lane: compares make masks, blends pick by mask. */
  function Lane(bits: nat): nat
    requires bits < WORD
  {
    var absBits := Abs(bits);
    var isNan := absBits > INF;
    var bias := TopHalf(bits) % 2 + 0x7FFF;
    var rounded := (bits + bias) % WORD;
    var roundedIsInf := Exponent(rounded) == 0xFF;
    var inputWasInfOrNan := absBits == INF || isNan;
    var overflowed := roundedIsInf && !inputWasInfOrNan;
    var saturated := if overflowed then Sign(bits) * 0x8000_0000 + 0x7F7F_0000 else rounded;
    TopHalf(if isNan then 0x7FC0_0000 else saturated)
  }

  predicate NegativeNan(bits: nat) { Abs(bits) > INF && Sign(bits) == 1 }

  /** The lane computes the scalar encoder's code on every input but a negative NaN, whose sign it drops. */
  lemma LaneIsScalar(bits: nat)
    requires bits < WORD
    ensures Lane(bits) == ToBF16(bits) <==> !NegativeNan(bits)
    ensures NegativeNan(bits) ==> Lane(bits) == 0x7FC0
  {
    hide TopHalf, Exponent, Mantissa, Sign, Abs;
    NonFinite(bits);
    Constants(bits);
    if Abs(bits) == INF { InfinityLane(bits); }
  }

  lemma NonFinite(bits: nat)
    requires bits < WORD
    ensures Exponent(bits) == 0xFF <==> Abs(bits) >= INF
    ensures Exponent(bits) == 0xFF ==> (Mantissa(bits) != 0 <==> Abs(bits) > INF)
    ensures Sign(bits) <= 1
  {
  }

  lemma Constants(bits: nat)
    requires bits < WORD
    ensures TopHalf(0x7FC0_0000) == 0x7FC0
    ensures Sign(bits) <= 1 ==> TopHalf(Sign(bits) * 0x8000_0000 + 0x7F7F_0000) == Sign(bits) * 0x8000 + 0x7F7F
  {
    hide Sign;
  }

  /** Infinities are rounded like numbers and land on themselves. */
  lemma InfinityLane(bits: nat)
    requires bits < WORD && Abs(bits) == INF
    ensures TopHalf((bits + (TopHalf(bits) % 2 + 0x7FFF)) % WORD) == TopHalf(bits)
  {
    assert bits == 0x7F80_0000 || bits == 0xFF80_0000;
  }

  /** What the whole compression writes for element i of n. */
  function Compressed(bits: nat, i: nat, n: nat): nat
    requires bits < WORD
  {
    if i < n - n % LANES then Lane(bits) else ToBF16(bits)
  }

  /** Chunks of sixteen lanes, then the scalar loop for the rest. */
  method CompressBF16(input: array<nat>, output: array<nat>)
    requires input != output && input.Length == output.Length
    requires forall i :: 0 <= i < input.Length ==> input[i] < WORD
    modifies output
    ensures forall i :: 0 <= i < input.Length ==> output[i] == Compressed(input[i], i, input.Length)
    ensures (forall i :: 0 <= i < input.Length ==> !NegativeNan(input[i])) ==> output[..] == EncodeAll(AsBF16, input[..])
  {
    hide Lane, NegativeNan, Encode;
    var n := input.Length;
    var i := 0;
    while i + LANES <= n
      invariant 0 <= i <= n && i % LANES == 0
      invariant forall j :: 0 <= j < i ==> output[j] == Lane(input[j])
    {
      for k := 0 to LANES
        invariant forall j :: 0 <= j < i + k ==> output[j] == Lane(input[j])
      {
        output[i + k] := Lane(input[i + k]);
      }
      i := i + LANES;
    }
    assert i == n - n % LANES;
    ghost var whole := i;
    while i < n
      invariant whole <= i <= n
      invariant forall j :: 0 <= j < i ==> output[j] == Compressed(input[j], j, n)
    {
      output[i] := ToBF16(input[i]);
      i := i + 1;
    }
    if forall j :: 0 <= j < n ==> !NegativeNan(input[j]) {
      forall j | 0 <= j < n ensures output[j] == Encode(AsBF16, input[j]) {
        LaneIsScalar(input[j]);
        EncodeBF16(input[j]);
      }
    }
  }

  lemma EncodeBF16(bits: nat)
    requires bits < WORD
    ensures Encode(AsBF16, bits) == ToBF16(bits)
  {
  }
}

/** Thirty-two signed nibbles in sixteen bytes (include/qtx/quantize/quantizer.hpp), and the vector networks
    that do the same sixteen lanes at a time. */
module NibblePacking {
  import opened Common

  /** The scalar pack of one pair. */
  function Pack(lo: bv8, hi: bv8): bv8 { (lo & 0x0F) | ((hi & 0x0F) << 4) }

  /** (x ^ 8) - 8 on the low and on the high nibble. */
  function Low(byte: bv8): bv8 { ((byte & 0x0F) ^ 0x08) - 0x08 }
  function High(byte: bv8): bv8 { (((byte >> 4) & 0x0F) ^ 0x08) - 0x08 }

  /** Two's complement in [-8, 7]. */
  predicate SignedNibble(x: bv8) { x <= 7 || x >= 0xF8 }

  lemma NibbleRoundTrip(lo: bv8, hi: bv8)
    requires SignedNibble(lo) && SignedNibble(hi)
    ensures Low(Pack(lo, hi)) == lo && High(Pack(lo, hi)) == hi
  {
  }

  function PackAll(q: Bytes): (p: Bytes)
    requires |q| == 32
    ensures |p| == 16
  {
    seq(16, k requires 0 <= k < 16 => Pack(q[2 * k], q[2 * k + 1]))
  }

  function UnpackAll(p: Bytes): Bytes
    requires |p| == 16
  {
    seq(32, i requires 0 <= i < 32 => if i % 2 == 0 then Low(p[i / 2]) else High(p[i / 2]))
  }

  /** A block of signed nibbles survives packing, and every packed block is one. */
  lemma BlockRoundTrip(q: Bytes, p: Bytes)
    requires |q| == 32 && |p| == 16 && forall i :: 0 <= i < 32 ==> SignedNibble(q[i])
    ensures UnpackAll(PackAll(q)) == q
    ensures PackAll(UnpackAll(p)) == p
  {
    hide Pack, Low, High, SignedNibble;
    forall i | 0 <= i < 32 ensures UnpackAll(PackAll(q))[i] == q[i] {
      var k := i / 2;
      assert i == 2 * k || i == 2 * k + 1;
      NibbleRoundTrip(q[2 * k], q[2 * k + 1]);
    }
    forall k | 0 <= k < 16 ensures PackAll(UnpackAll(p))[k] == p[k] {
      assert 2 * k / 2 == k && (2 * k + 1) / 2 == k && (2 * k) % 2 == 0 && (2 * k + 1) % 2 == 1;
      ByteRoundTrip(p[k]);
    }
  }

  lemma ByteRoundTrip(b: bv8)
    ensures Pack(Low(b), High(b)) == b
  {
  }

  /* ---- the vector networks ---- */

  /** _mm_maddubs_epi16 with multipliers 1 and 16 on one pair of masked bytes: a 16-bit lane. */
  function MaddLane(lo: bv8, hi: bv8): bv16 { ((lo & 0x0F) as bv16) + 16 * ((hi & 0x0F) as bv16) }

  /** The low byte of a 16-bit lane, as the shuffle picks it. */
  function PickLow(lane: bv16): bv8 { (lane & 0xFF) as bv8 }

  lemma PickIsPack(lo: bv8, hi: bv8)
    ensures PickLow(MaddLane(lo, hi)) == Pack(lo, hi)
  {
  }

  /** Two halves of eight 16-bit lanes, narrowed and joined. */
  function PackVector(q: Bytes): Bytes
    requires |q| == 32
  {
    seq(8, k requires 0 <= k < 8 => PickLow(MaddLane(q[2 * k], q[2 * k + 1])))
    + seq(8, k requires 0 <= k < 8 => PickLow(MaddLane(q[16 + 2 * k], q[16 + 2 * k + 1])))
  }

  lemma PackVectorIsScalar(q: Bytes)
    requires |q| == 32
    ensures PackVector(q) == PackAll(q)
  {
    hide Pack, MaddLane, PickLow;
    forall k | 0 <= k < 16 ensures PackVector(q)[k] == PackAll(q)[k] { PickIsPack(q[2 * k], q[2 * k + 1]); }
  }

  /** _mm_srli_epi16 by four shifts pairs of bytes together, so the odd byte's low bits enter the even one. */
  function ShiftPair(even: bv8, odd: bv8): bv16 { ((even as bv16) | ((odd as bv16) << 8)) >> 4 }

  function EvenHigh(even: bv8, odd: bv8): bv8 { PickLow(ShiftPair(even, odd)) & 0x0F }
  function OddHigh(even: bv8, odd: bv8): bv8 { PickLow(ShiftPair(even, odd) >> 8) & 0x0F }

  lemma MaskDropsNeighbour(even: bv8, odd: bv8)
    ensures EvenHigh(even, odd) == (even >> 4) & 0x0F && OddHigh(even, odd) == (odd >> 4) & 0x0F
  {
  }

  /** The sign-extended high nibble of byte k. */
  function HighLane(p: Bytes, k: nat): bv8
    requires |p| == 16 && k < 16
  {
    ((if k % 2 == 0 then EvenHigh(p[k], p[k + 1]) else OddHigh(p[k - 1], p[k])) ^ 0x08) - 0x08
  }

  /** _mm_unpacklo_epi8 and _mm_unpackhi_epi8 interleave the two nibble vectors. */
  function UnpackVector(p: Bytes): Bytes
    requires |p| == 16
  {
    seq(16, i requires 0 <= i < 16 => if i % 2 == 0 then Low(p[i / 2]) else HighLane(p, i / 2))
    + seq(16, i requires 0 <= i < 16 => if i % 2 == 0 then Low(p[8 + i / 2]) else HighLane(p, 8 + i / 2))
  }

  lemma UnpackVectorIsScalar(p: Bytes)
    requires |p| == 16
    ensures UnpackVector(p) == UnpackAll(p)
  {
    hide Low, High, HighLane;
    forall i | 0 <= i < 32 ensures UnpackVector(p)[i] == UnpackAll(p)[i] { HighLaneIsHigh(p, i / 2); }
  }

  lemma HighLaneIsHigh(p: Bytes, k: nat)
    requires |p| == 16 && k < 16
    ensures HighLane(p, k) == High(p[k])
  {
    hide EvenHigh, OddHigh;
    if k % 2 == 0 { MaskDropsNeighbour(p[k], p[k + 1]); } else { MaskDropsNeighbour(p[k - 1], p[k]); }
  }
}
