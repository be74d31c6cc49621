/** MXFP4 (include/qtx/quantize/quantizer.hpp, section 6.3 of the OCP Microscaling specification): a block of 32
    numbers shares a power-of-two scale, each number is an E2M1 nibble.  Magnitudes are natural numbers in
    units of 2^-149, so that every FP32 number, every scale and every product is exact.  The encoder runs under
    FtzDazGuard, which on x86-64 and ARM64 makes arithmetic read denormals as zeros and elsewhere does nothing:
    `guard` says which. */
module Mxfp4 {
  import opened Arithmetic
  import opened BitWords
  import opened FloatFormats
  import opened FloatEncoders
  import opened FloatRounding

  const BLOCK: nat := 32

  /** A sign and a magnitude; the sign of zero is kept. */
  datatype Number = Number(negative: bool, mag: nat)

  /** The encoded block: the E8M0 byte and a nibble per element. */
  datatype Encoded = Encoded(e8m0: nat, nibbles: seq<nat>)

  /* ---- the E2M1 element ---- */

  /** Twice the magnitude of codepoint c: 0, 0.5, 1, 1.5, 2, 3, 4, 6. */
  function Twice(c: nat): nat {
    match c case 0 => 0 case 1 => 1 case 2 => 2 case 3 => 3 case 4 => 4 case 5 => 6 case 6 => 8 case _ => 12
  }

  /** Four times the midpoint above codepoint i: 0.25, 0.75, 1.25, 1.75, 2.5, 3.5, 5. */
  function Mid(i: nat): nat {
    match i case 0 => 1 case 1 => 3 case 2 => 5 case 3 => 7 case 4 => 10 case 5 => 14 case _ => 20
  }

  function TieToEven(i: nat): nat {
    match i case 0 => 0 case 1 => 2 case 2 => 2 case 3 => 4 case 4 => 4 case 5 => 6 case _ => 6
  }

  /** The nearest codepoint to v / (4 * q), ties to the even one, saturating at 6. */
  ghost predicate NearestPoint(v: nat, q: nat, c: nat) {
    c < 8 && forall d: nat {:trigger Twice(d)} :: d < 8 ==>
      Distance(Twice(c) * (2 * q), v) <= Distance(Twice(d) * (2 * q), v)
      && (d != c && Distance(Twice(c) * (2 * q), v) == Distance(Twice(d) * (2 * q), v) ==> c % 2 == 0)
  }

  /** The search over the midpoints from midpoint i on. */
  function Search(v: nat, q: nat, i: nat): nat
    requires i <= 7
    decreases 7 - i
  {
    if i == 7 then 7
    else if v == Mid(i) * q then TieToEven(i)
    else if v < Mid(i) * q then i
    else Search(v, q, i + 1)
  }

  /** The codepoint of the scaled magnitude v / (4 * q). */
  function Point(v: nat, q: nat): nat { if v >= 24 * q then 7 else Search(v, q, 0) }

  method EncodeMagnitude(v: nat, q: nat) returns (idx: nat)
    ensures idx == Point(v, q)
  {
    if v >= 24 * q { return 7; }
    idx := 7;
    var i := 0;
    while i < 7
      invariant 0 <= i <= 7 && idx == 7 && Search(v, q, 0) == Search(v, q, i)
    {
      if v == Mid(i) * q { return TieToEven(i); }
      if v < Mid(i) * q { return i; }
      i := i + 1;
    }
  }

  lemma {:induction false} SearchIsNearest(v: nat, q: nat, i: nat)
    requires q > 0 && i <= 7 && v < 24 * q && (i > 0 ==> v > Mid(i - 1) * q)
    ensures NearestPoint(v, q, Search(v, q, i))
    decreases 7 - i
  {
    if i == 7 {
      Between(v, q, 7);
    } else if v == Mid(i) * q {
      AtMidpoint(v, q, i);
    } else if v < Mid(i) * q {
      Between(v, q, i);
    } else {
      SearchIsNearest(v, q, i + 1);
    }
  }

  /** The element encoder rounds to the nearest codepoint, ties to even, and saturates. */
  lemma PointIsNearest(v: nat, q: nat)
    requires q > 0
    ensures NearestPoint(v, q, Point(v, q))
  {
    if v >= 24 * q { Saturated(v, q); } else { SearchIsNearest(v, q, 0); }
  }

  lemma Saturated(v: nat, q: nat)
    requires v >= 24 * q && q > 0
    ensures NearestPoint(v, q, 7)
  {
    forall d: nat | d < 7 ensures Twice(d) * (2 * q) < Twice(7) * (2 * q) { TimesMonotone(Twice(d), Twice(7), 2 * q); }
  }

  /** Strictly between two midpoints the codepoint in between is nearest. */
  lemma Between(v: nat, q: nat, c: nat)
    requires q > 0 && c <= 7 && v < 24 * q
    requires c > 0 ==> v > Mid(c - 1) * q
    requires c < 7 ==> v < Mid(c) * q
    ensures NearestPoint(v, q, c)
  {
    forall d: nat | d < 8 && d != c ensures Distance(Twice(c) * (2 * q), v) < Distance(Twice(d) * (2 * q), v) {
      Apart(v, q, c, d);
    }
  }

  lemma Apart(v: nat, q: nat, c: nat, d: nat)
    requires q > 0 && c <= 7 && d <= 7 && d != c && v < 24 * q
    requires c > 0 ==> v > Mid(c - 1) * q
    requires c < 7 ==> v < Mid(c) * q
    ensures Distance(Twice(c) * (2 * q), v) < Distance(Twice(d) * (2 * q), v)
  {
  }

  lemma AtMidpoint(v: nat, q: nat, i: nat)
    requires q > 0 && i < 7 && v == Mid(i) * q
    ensures NearestPoint(v, q, TieToEven(i))
  {
    var c := TieToEven(i);
    forall d: nat | d < 8
      ensures Distance(Twice(c) * (2 * q), v) <= Distance(Twice(d) * (2 * q), v)
    {
    }
  }

  /** A codepoint's own magnitude is encoded as that codepoint. */
  lemma PointOfPoint(c: nat, q: nat)
    requires q > 0 && c < 8
    ensures Point(Twice(c) * (2 * q), q) == c
  {
    var v := Twice(c) * (2 * q);
    PointIsNearest(v, q);
    var d := Point(v, q);
    assert Distance(Twice(d) * (2 * q), v) <= Distance(Twice(c) * (2 * q), v);
    assert Twice(d) * (2 * q) == v;
    if Twice(d) < Twice(c) { TimesMonotone(Twice(d), Twice(c), 2 * q); }
    if Twice(c) < Twice(d) { TimesMonotone(Twice(c), Twice(d), 2 * q); }
  }

  /* ---- the shared exponent ---- */

  function FloorLog2(v: nat): nat { if v <= 1 then 0 else 1 + FloorLog2(v / 2) }

  lemma {:induction false} FloorLog2Bounds(v: nat)
    requires v > 0
    ensures Pow2(FloorLog2(v)) <= v < Pow2(FloorLog2(v) + 1)
  {
    if v > 1 { FloorLog2Bounds(v / 2); }
  }

  lemma FloorLog2Is(v: nat, n: nat)
    requires Pow2(n) <= v < Pow2(n + 1)
    ensures FloorLog2(v) == n
  {
    hide Pow2;
    FloorLog2Bounds(v);
    if FloorLog2(v) < n { Pow2Monotone(FloorLog2(v) + 1, n); }
    if FloorLog2(v) > n { Pow2Monotone(n + 1, FloorLog2(v)); }
  }

  /** The exponent field of the FP32 number of that magnitude. */
  function Field(v: nat): int { if v < 0x80_0000 then 0 else FloorLog2(v) - 22 }

  /** It is the field the encoder reads from the bit pattern. */
  lemma FieldIsExponent(abs: nat)
    requires abs < INF
    ensures Field(Value(FP32, abs)) == abs / 0x80_0000
  {
    hide Pow2, FloorLog2, Value;
    FP32Value(abs);
    var e, m := abs / 0x80_0000, Mantissa(abs);
    if e > 0 {
      Pow2Add(23, e - 1);
      Pow2Add(24, e - 1);
      SmallPowers();
      TimesMonotone(0x80_0000, 0x80_0000 + m, Pow2(e - 1));
      TimesMonotone(0x80_0000 + m, 0x100_0000, Pow2(e - 1));
      TimesMonotone(1, Pow2(e - 1), 0x80_0000);
      FloorLog2Is(Value(FP32, abs), e + 22);
    }
  }

  lemma SmallPowers()
    ensures Pow2(23) == 0x80_0000 && Pow2(24) == 0x100_0000
  {
    hide Pow2;
    Powers();
    Halve(24);
  }

  function AbsMax(x: seq<Number>): nat {
    if x == [] then 0
    else if x[|x| - 1].mag > AbsMax(x[..|x| - 1]) then x[|x| - 1].mag else AbsMax(x[..|x| - 1])
  }

  lemma {:induction false} AbsMaxBounds(x: seq<Number>)
    ensures forall i :: 0 <= i < |x| ==> x[i].mag <= AbsMax(x)
    ensures AbsMax(x) > 0 ==> exists i :: 0 <= i < |x| && x[i].mag == AbsMax(x)
  {
    if x != [] {
      var init := x[..|x| - 1];
      AbsMaxBounds(init);
      forall i | 0 <= i < |x| ensures x[i].mag <= AbsMax(x) {
        if i < |x| - 1 { assert init[i] == x[i]; }
      }
      if AbsMax(x) > 0 {
        if x[|x| - 1].mag == AbsMax(x) {
        } else {
          var i :| 0 <= i < |init| && init[i].mag == AbsMax(init);
          assert x[i].mag == AbsMax(x);
        }
      }
    }
  }

  /** floor(log2 max) - 2 in FP32 bias, clamped to [1, 254]; 0 marks a block of zeros. */
  function SharedExponent(max: nat): nat {
    if max == 0 then 0
    else
      var biased := Field(max) - 2;
      if biased < 1 then 1 else if biased > 254 then 254 else biased
  }

  /** A quarter of the scale 2^(e - 127). */
  function Quarter(e: nat): nat { Pow2(e + 20) }

  /* ---- the block ---- */

  function EncodeNumber(n: Number, e: nat): nat {
    (if n.negative then 8 else 0) + if e == 0 then 0 else Point(n.mag, Quarter(e))
  }

  function Encode(x: seq<Number>): Encoded {
    var e := SharedExponent(AbsMax(x));
    Encoded(e, seq(|x|, i requires 0 <= i < |x| => EncodeNumber(x[i], e)))
  }

  function DecodeNibble(n: nat, e: nat): Number {
    Number(n >= 8, if e == 0 then 0 else Twice(n % 8) * (2 * Quarter(e)))
  }

  /** The decoder rejects the reserved exponent. */
  function Decode(c: Encoded): seq<Number> {
    if c.e8m0 == 0xFF then [] else seq(|c.nibbles|, i requires 0 <= i < |c.nibbles| => DecodeNibble(c.nibbles[i], c.e8m0))
  }

  /** 2^-126, the least normal magnitude. */
  const LEAST_NORMAL: nat := 0x80_0000

  /** What arithmetic under the guard makes of an operand: a denormal is a zero of its sign. */
  function Seen(n: Number, guard: bool): Number { if guard && n.mag < LEAST_NORMAL then n.(mag := 0) else n }

  function SeenAll(x: seq<Number>, guard: bool): (r: seq<Number>)
    ensures |r| == |x|
  {
    seq(|x|, i requires 0 <= i < |x| => Seen(x[i], guard))
  }

  method BlockAbsMax(x: seq<Number>, guard: bool) returns (m: nat)
    ensures m == AbsMax(SeenAll(x, guard))
  {
    ghost var y := SeenAll(x, guard);
    m := 0;
    for i := 0 to |x|
      invariant m == AbsMax(y[..i])
    {
      assert y[..i + 1][..i] == y[..i];
      var a := Seen(x[i], guard).mag;
      m := if a > m then a else m;
    }
    assert y[..|x|] == y;
  }

  /** One block: the exponent byte, then two nibbles to a byte. */
  method EncodeBlock(x: seq<Number>, guard: bool) returns (e8m0: nat, packed: seq<nat>)
    requires |x| == BLOCK
    ensures var c := Encode(SeenAll(x, guard));
            && e8m0 == c.e8m0 && |packed| == BLOCK / 2
            && forall i :: 0 <= i < BLOCK ==> c.nibbles[i] == if i % 2 == 0 then packed[i / 2] % 16 else packed[i / 2] / 16
  {
    var max := BlockAbsMax(x, guard);
    e8m0 := SharedExponent(max);
    packed := [];
    hide Point, SharedExponent, Quarter, AbsMax;
    for k := 0 to BLOCK / 2
      invariant |packed| == k
      invariant forall i :: 0 <= i < 2 * k ==>
                  EncodeNumber(Seen(x[i], guard), e8m0) == if i % 2 == 0 then packed[i / 2] % 16 else packed[i / 2] / 16
    {
      var n0 := EncodeElement(Seen(x[2 * k], guard), e8m0);
      var n1 := EncodeElement(Seen(x[2 * k + 1], guard), e8m0);
      packed := packed + [n0 + 16 * n1];
    }
  }

  method EncodeElement(n: Number, e: nat) returns (nibble: nat)
    ensures nibble == EncodeNumber(n, e) < 16
  {
    var idx := 0;
    if e != 0 {
      idx := EncodeMagnitude(n.mag, Quarter(e));
      PointIsNearest(n.mag, Quarter(e));
    }
    nibble := (if n.negative then 8 else 0) + idx;
  }

  /* ---- the format ---- */

  /** What a nibble stands for: bit 3 is the sign, the low three bits choose 0, 0.5, 1, 1.5, 2, 3, 4 or 6 times the scale
      2^(e - 127), which is 2^(e + 22) units; exponent byte 0 stands for zeros and byte 255 for nothing. */
  lemma NibbleMeans(n: nat, e: nat)
    requires n < 16
    ensures DecodeNibble(n, e).negative <==> n >= 8
    ensures DecodeNibble(n, e).mag == if e == 0 then 0 else [0, 1, 2, 3, 4, 6, 8, 12][n % 8] * Pow2(e + 21)
    ensures Decode(Encoded(0xFF, [n])) == []
  {
    Halve(e + 21);
  }

  /** What the encoder writes: the sign in bit 3; exponent byte 0 for a block of zeros, 1 below 2^-124, and otherwise the
      e for which the largest magnitude lies in [4, 8) times 2^(e - 127). */
  lemma BytesMean(x: seq<Number>)
    requires AbsMax(x) < Pow2(277)
    ensures var c := Encode(x);
            && |c.nibbles| == |x|
            && (forall i :: 0 <= i < |x| ==> c.nibbles[i] < 16 && (c.nibbles[i] >= 8 <==> x[i].negative))
            && (AbsMax(x) == 0 <==> c.e8m0 == 0)
            && (0 < AbsMax(x) < 0x200_0000 ==> c.e8m0 == 1)
            && (AbsMax(x) >= 0x200_0000 ==> 0 < c.e8m0 < 253 && Pow2(c.e8m0 + 24) <= AbsMax(x) < Pow2(c.e8m0 + 25))
  {
    hide AbsMax, Pow2, FloorLog2, Point;
    var max, e := AbsMax(x), SharedExponent(AbsMax(x));
    ExponentInRange(max);
    ClampedField(max);
    if max > 0 {
      ScaleFits(max);
      Pow2Add(4, e + 20);
      Pow2Add(5, e + 20);
      Sixteen();
    }
    forall i | 0 <= i < |x| ensures EncodeNumber(x[i], e) < 16 && (EncodeNumber(x[i], e) >= 8 <==> x[i].negative) {
      PointBelow(x[i].mag, e);
    }
  }

  /* ---- what a block keeps ---- */

  /** The exponent byte is never the reserved one, and never clamped from above for FP32 numbers. */
  lemma ExponentInRange(max: nat)
    requires max < Pow2(277)
    ensures SharedExponent(max) <= 252
  {
    hide Pow2, FloorLog2;
    if max >= 0x80_0000 {
      FloorLog2Bounds(max);
      if FloorLog2(max) >= 277 { Pow2Monotone(277, FloorLog2(max)); }
    }
  }

  /** Where the largest magnitude lies relative to the scale. */
  lemma ScaleFits(max: nat)
    requires 0 < max < Pow2(277)
    ensures var e := SharedExponent(max);
            && e > 0 && max < 32 * Quarter(e)
            && (if Field(max) >= 3 then 16 * Quarter(e) <= max && Field(max) == e + 2 else e == 1 && max < 16 * Quarter(e))
  {
    hide FloorLog2, Pow2;
    ExponentInRange(max);
    var e := SharedExponent(max);
    Pow2Add(4, e + 20);
    Pow2Add(5, e + 20);
    Sixteen();
    if max >= 0x80_0000 {
      FloorLog2Bounds(max);
      if Field(max) < 3 { Pow2Monotone(FloorLog2(max) + 1, 25); }
    } else {
      SmallPowers();
      Pow2Monotone(23, 25);
    }
  }

  lemma Sixteen()
    ensures Pow2(4) == 16 && Pow2(5) == 32
  {
  }

  lemma NearCodepoint(v: nat, q: nat)
    requires q > 0 && v < 32 * q
    ensures Distance(Twice(Point(v, q)) * (2 * q), v) <= 4 * q || (v >= 24 * q && Distance(Twice(Point(v, q)) * (2 * q), v) == v - 24 * q)
    ensures v < 16 * q ==> Distance(Twice(Point(v, q)) * (2 * q), v) <= 2 * q
  {
    PointIsNearest(v, q);
    hide Point;
    var d := if v <= 2 * q then 0 else if v <= 6 * q then 2 else if v <= 10 * q then 4 else if v <= 14 * q then 5
             else if v <= 20 * q then 6 else 7;
    assert Distance(Twice(Point(v, q)) * (2 * q), v) <= Distance(Twice(d) * (2 * q), v);
  }

  /** Every decoded number has its sign, and is off by at most a quarter of the block's largest magnitude, or
      by half the scale where the exponent was clamped from below. */
  lemma BlockErrorBound(x: seq<Number>, i: nat)
    requires i < |x| && AbsMax(x) < Pow2(277)
    ensures |Decode(Encode(x))| == |x|
    ensures var y := Decode(Encode(x))[i];
            && y.negative == x[i].negative
            && (Field(AbsMax(x)) >= 3 ==> 4 * Distance(y.mag, x[i].mag) <= AbsMax(x))
            && (Field(AbsMax(x)) < 3 ==> Distance(y.mag, x[i].mag) <= 2 * Quarter(1))
  {
    hide Point, Field, Pow2, FloorLog2, AbsMax, SharedExponent, Encode, Decode, Quarter;
    var max := AbsMax(x);
    AbsMaxBounds(x);
    ExponentInRange(max);
    DecodedShape(x);
    var e := SharedExponent(max);
    if max > 0 {
      ScaleFits(max);
      QuarterPositive(e);
      NearCodepoint(x[i].mag, Quarter(e));
    } else {
      ZeroExponent();
      ZeroField();
    }
  }

  lemma QuarterPositive(e: nat)
    ensures Quarter(e) > 0
  {
  }

  lemma ZeroField()
    ensures Field(0) == 0
  {
  }

  /** Decoded values do not change when encoded and decoded again. */
  lemma BlockIsIdempotent(x: seq<Number>)
    requires AbsMax(x) < Pow2(277)
    ensures Decode(Encode(Decode(Encode(x)))) == Decode(Encode(x))
  {
    hide Field, Pow2, AbsMax, SharedExponent, Encode, Decode, FloorLog2, Quarter, Point, Twice;
    var y := Decode(Encode(x));
    ExponentInRange(AbsMax(x));
    DecodedShape(x);
    var e, f := SharedExponent(AbsMax(x)), SharedExponent(AbsMax(y));
    SameExponent(x);
    DecodedShape(y);
    forall i | 0 <= i < |y| ensures Decode(Encode(y))[i] == y[i] {
      if f == e && e > 0 {
        QuarterPositive(e);
        PointIsNearest(x[i].mag, Quarter(e));
        PointOfPoint(Point(x[i].mag, Quarter(e)), Quarter(e));
      }
    }
  }

  /** What an element of a block with exponent e decodes to. */
  function Decoded(n: Number, e: nat): Number {
    Number(n.negative, if e == 0 then 0 else Twice(Point(n.mag, Quarter(e))) * (2 * Quarter(e)))
  }

  lemma DecodedShape(x: seq<Number>)
    requires SharedExponent(AbsMax(x)) <= 252
    ensures |Decode(Encode(x))| == |x|
    ensures forall i :: 0 <= i < |x| ==> Decode(Encode(x))[i] == Decoded(x[i], SharedExponent(AbsMax(x)))
  {
    hide Decoded, SharedExponent, AbsMax, EncodeNumber, DecodeNibble;
    var e := SharedExponent(AbsMax(x));
    forall i | 0 <= i < |x| ensures DecodeNibble(EncodeNumber(x[i], e), e) == Decoded(x[i], e) { ElementShape(x[i], e); }
  }

  lemma ElementShape(n: Number, e: nat)
    ensures DecodeNibble(EncodeNumber(n, e), e) == Decoded(n, e)
  {
    hide Point, Twice;
    PointIsNearest(n.mag, Quarter(e));
  }

  /** The decoded block has the same exponent, or is all zeros. */
  lemma SameExponent(x: seq<Number>)
    requires AbsMax(x) < Pow2(277)
    ensures var y := Decode(Encode(x));
            && SharedExponent(AbsMax(x)) <= 252 && SharedExponent(AbsMax(y)) <= 252
            && (SharedExponent(AbsMax(y)) == SharedExponent(AbsMax(x))
                || (SharedExponent(AbsMax(y)) == 0 && forall i :: 0 <= i < |y| ==> y[i].mag == 0))
  {
    hide Pow2, AbsMax, Encode, Decode, FloorLog2, Field, SharedExponent;
    var max, y := AbsMax(x), Decode(Encode(x));
    ExponentInRange(max);
    DecodedShape(x);
    AbsMaxBounds(x);
    AbsMaxBounds(y);
    var e := SharedExponent(max);
    if max == 0 {
      ZeroExponent();
    } else {
      ScaleFits(max);
      if AbsMax(y) == 0 {
        ZeroExponent();
      } else {
        DecodedMax(x, y, max, e);
        ExponentOf(AbsMax(y), e, Field(max) >= 3);
      }
    }
  }

  lemma ZeroExponent()
    ensures SharedExponent(0) == 0
  {
  }

  /** The largest decoded magnitude stays in the largest one's octave, or under it where the exponent was clamped. */
  lemma DecodedMax(x: seq<Number>, y: seq<Number>, max: nat, e: nat)
    requires |y| == |x| && e > 0 && max < 32 * Quarter(e)
    requires forall i :: 0 <= i < |x| ==> x[i].mag <= max && y[i].mag == Twice(Point(x[i].mag, Quarter(e))) * (2 * Quarter(e))
    requires exists i :: 0 <= i < |x| && x[i].mag == max
    ensures 16 * Quarter(e) <= max ==> 16 * Quarter(e) <= AbsMax(y) < 32 * Quarter(e)
    ensures max < 16 * Quarter(e) ==> AbsMax(y) <= 16 * Quarter(e)
  {
    hide AbsMax;
    var q := Quarter(e);
    AbsMaxBounds(y);
    forall i | 0 <= i < |x| ensures y[i].mag <= 24 * q && (max < 16 * q ==> y[i].mag <= 16 * q) {
      PointRange(x[i].mag, q);
    }
    var i :| 0 <= i < |x| && x[i].mag == max;
    PointRange(max, q);
  }

  lemma PointRange(v: nat, q: nat)
    requires q > 0
    ensures Twice(Point(v, q)) * (2 * q) <= 24 * q
    ensures v < 16 * q ==> Twice(Point(v, q)) * (2 * q) <= 16 * q
    ensures v >= 16 * q ==> Twice(Point(v, q)) * (2 * q) >= 16 * q
  {
    PointIsNearest(v, q);
    hide Point;
    var c := Point(v, q);
    assert Distance(Twice(c) * (2 * q), v) <= Distance(Twice(6) * (2 * q), v);
  }

  lemma ExponentOf(m: nat, e: nat, normal: bool)
    requires m > 0 && 0 < e <= 252
    requires if normal then 16 * Quarter(e) <= m < 32 * Quarter(e) else e == 1 && m <= 16 * Quarter(e)
    ensures SharedExponent(m) == e
  {
    hide FloorLog2, Pow2;
    Pow2Add(4, e + 20);
    Pow2Add(5, e + 20);
    Sixteen();
    SmallPowers();
    Halve(26);
    if m >= 0x80_0000 {
      FloorLog2Bounds(m);
      if normal {
        FloorLog2Is(m, e + 24);
      } else if FloorLog2(m) >= 26 {
        Pow2Monotone(26, FloorLog2(m));
      }
    } else if normal {
      Pow2Monotone(23, e + 24);
    }
  }

  /* ---- under the guard ---- */

  /** The guard changes neither the exponent nor the maximum of a block that is not clamped from below, and
      leaves a clamped block clamped. */
  lemma SeenMax(x: seq<Number>, guard: bool)
    ensures AbsMax(SeenAll(x, guard)) <= AbsMax(x)
    ensures AbsMax(x) >= LEAST_NORMAL ==> AbsMax(SeenAll(x, guard)) == AbsMax(x)
    ensures AbsMax(x) < LEAST_NORMAL && guard ==> AbsMax(SeenAll(x, guard)) == 0
  {
    hide AbsMax;
    var y := SeenAll(x, guard);
    AbsMaxBounds(x);
    AbsMaxBounds(y);
    if AbsMax(x) >= LEAST_NORMAL {
      var i :| 0 <= i < |x| && x[i].mag == AbsMax(x);
      assert y[i].mag <= AbsMax(y);
    }
  }

  lemma ClampedField(max: nat)
    ensures Field(max) >= 3 <==> max >= 0x200_0000
  {
    hide Pow2, FloorLog2;
    SmallPowers();
    Halve(25);
    if max >= LEAST_NORMAL {
      FloorLog2Bounds(max);
      if FloorLog2(max) < 25 { Pow2Monotone(FloorLog2(max) + 1, 25); } else { Pow2Monotone(25, FloorLog2(max)); }
    }
  }

  /** A quarter of the least scale is 2^-128. */
  lemma LeastQuarter()
    ensures Quarter(1) == 0x20_0000
  {
    Powers();
  }

  /** A denormal over half the least scale. */
  predicate Lost(n: Number, guard: bool) { guard && 0x40_0000 < n.mag < LEAST_NORMAL }

  /** Against the true numbers, denormals included: the quarter bound is kept; in a block clamped from below, half
      the scale bounds the error if and only if the element is not such a denormal, and the scale itself always does. */
  lemma GuardedErrorBound(x: seq<Number>, guard: bool, i: nat)
    requires i < |x| && AbsMax(x) < Pow2(277)
    ensures |Decode(Encode(SeenAll(x, guard)))| == |x|
    ensures var y := Decode(Encode(SeenAll(x, guard)))[i];
            && y.negative == x[i].negative
            && (Field(AbsMax(x)) >= 3 ==> 4 * Distance(y.mag, x[i].mag) <= AbsMax(x))
            && (Field(AbsMax(x)) < 3 ==>
                  && (Distance(y.mag, x[i].mag) <= 2 * Quarter(1) <==> !Lost(x[i], guard))
                  && Distance(y.mag, x[i].mag) < 4 * Quarter(1))
  {
    hide Field, Pow2, AbsMax, Encode, Decode, Quarter;
    var z := SeenAll(x, guard);
    SeenMax(x, guard);
    ClampedField(AbsMax(x));
    ClampedField(AbsMax(z));
    LeastQuarter();
    BlockErrorBound(z, i);
    AbsMaxBounds(x);
    if guard && x[i].mag < LEAST_NORMAL { ZeroStays(z, i); }
  }

  lemma ZeroStays(x: seq<Number>, i: nat)
    requires i < |x| && x[i].mag == 0 && AbsMax(x) < Pow2(277)
    ensures |Decode(Encode(x))| == |x| && Decode(Encode(x))[i].mag == 0
  {
    hide Pow2, AbsMax, Encode, Decode, SharedExponent, Quarter;
    ExponentInRange(AbsMax(x));
    DecodedShape(x);
    QuarterPositive(SharedExponent(AbsMax(x)));
  }

  /** No decoded number of a guarded block is a denormal. */
  lemma DecodedNormal(x: seq<Number>, i: nat)
    requires i < |x| && AbsMax(x) < Pow2(277)
    ensures var y := Decode(Encode(SeenAll(x, true)));
            |y| == |x| && (y[i].mag == 0 || y[i].mag >= LEAST_NORMAL)
  {
    hide Pow2, AbsMax, Encode, Decode, SharedExponent, Point, Quarter;
    var z := SeenAll(x, true);
    SeenMax(x, true);
    ExponentInRange(AbsMax(z));
    DecodedShape(z);
    PointNormal(z[i].mag, SharedExponent(AbsMax(z)));
  }

  /** A zero or normal number becomes zero or a normal number: half the least scale is never stored. */
  lemma PointNormal(v: nat, e: nat)
    requires v == 0 || v >= LEAST_NORMAL
    ensures e == 1 ==> Point(v, Quarter(e)) != 1
    ensures e > 0 ==> Point(v, Quarter(e)) == 0 || Twice(Point(v, Quarter(e))) * (2 * Quarter(e)) >= LEAST_NORMAL
  {
    if e > 0 {
      var q := Quarter(e);
      hide Pow2;
      LeastQuarter();
      Pow2Monotone(21, e + 20);
      Pow2Add(e - 1, 21);
      if e >= 2 { Pow2Monotone(22, e + 20); }
      Powers();
      PointIsNearest(v, q);
      hide Point, Quarter;
      var c := Point(v, q);
      if e == 1 {
        assert Distance(Twice(c) * (2 * q), v) <= Distance(Twice(2) * (2 * q), v);
        assert Distance(Twice(c) * (2 * q), v) <= Distance(Twice(0) * (2 * q), v);
      }
      if c > 0 { TimesMonotone(1, Twice(c), 2 * q); }
    }
  }

  /** Under the guard no element of a block with exponent byte 1 is stored as half the scale. */
  lemma NoHalfUnderOne(x: seq<Number>, i: nat)
    requires i < |x| && Encode(SeenAll(x, true)).e8m0 == 1
    ensures Encode(SeenAll(x, true)).nibbles[i] % 8 != 1
  {
    hide AbsMax, SharedExponent, Point, Quarter;
    var z := SeenAll(x, true);
    PointNormal(z[i].mag, 1);
    PointBelow(z[i].mag, 1);
  }

  lemma PointBelow(v: nat, e: nat)
    ensures Point(v, Quarter(e)) < 8
  {
    hide Point, Pow2;
    QuarterPositive(e);
    PointIsNearest(v, Quarter(e));
  }

  /** A decoded block does not change when encoded and decoded again, guard or no guard. */
  lemma GuardedIdempotent(x: seq<Number>, guard: bool)
    requires AbsMax(x) < Pow2(277)
    ensures var y := Decode(Encode(SeenAll(x, guard)));
            Decode(Encode(SeenAll(y, guard))) == y
  {
    hide Pow2, AbsMax, Encode, Decode;
    var y := Decode(Encode(SeenAll(x, guard)));
    SeenMax(x, guard);
    BlockIsIdempotent(SeenAll(x, guard));
    if guard {
      BlockLength(x, guard);
      forall i | 0 <= i < |y| ensures Seen(y[i], guard) == y[i] { DecodedNormal(x, i); }
    }
    assert SeenAll(y, guard) == y;
  }

  lemma BlockLength(x: seq<Number>, guard: bool)
    requires AbsMax(x) < Pow2(277)
    ensures |Decode(Encode(SeenAll(x, guard)))| == |x|
  {
    hide Pow2, AbsMax, SharedExponent, EncodeNumber, DecodeNibble;
    SeenMax(x, guard);
    ExponentInRange(AbsMax(SeenAll(x, guard)));
    DecodedShape(SeenAll(x, guard));
  }

  /** The product with the inverse scale may underflow too; what it loses is nearest to zero anyway. */
  lemma UnderflowIsZero(v: nat, q: nat)
    requires v < q
    ensures Point(v, q) == 0 && NearestPoint(v, q, 0)
  {
    PointIsNearest(v, q);
  }

  /* ---- FP32 words ---- */

  /** sanitiseFinite, then the number: NaNs and infinities count as +0. */
  function FromWord(bits: nat): Number {
    if Exponent(bits) == 0xFF then Number(false, 0) else Number(Sign(bits) == 1, Value(FP32, Abs(bits)))
  }

  function FromWords(words: seq<nat>): seq<Number> {
    seq(|words|, i requires 0 <= i < |words| => FromWord(words[i]))
  }

  lemma WordInRange(bits: nat)
    requires bits < WORD
    ensures FromWord(bits).mag < Pow2(277)
  {
    hide Pow2, Value;
    Pow2Add(24, 253);
    SmallPowers();
    Pow2Monotone(0, 277);
    FiniteExponent(bits);
    if Exponent(bits) != 0xFF {
      if Abs(bits) < 0x7F7F_FFFF { ValueMonotone(FP32, Abs(bits), 0x7F7F_FFFF); }
      FP32Value(0x7F7F_FFFF);
      TimesMonotone(0xFF_FFFF, 0x100_0000, Pow2(253));
    } else {
      PowerPositive(277);
    }
  }

  lemma PowerPositive(n: nat)
    ensures Pow2(n) > 0
  {
  }

  lemma FiniteExponent(bits: nat)
    requires bits < WORD
    ensures Exponent(bits) != 0xFF ==> Abs(bits) <= 0x7F7F_FFFF
  {
  }

  lemma WordsFit(words: seq<nat>)
    requires forall i :: 0 <= i < |words| ==> words[i] < WORD
    ensures AbsMax(FromWords(words)) < Pow2(277)
  {
    hide Pow2, Value, FromWord, AbsMax;
    var x := FromWords(words);
    AbsMaxBounds(x);
    PowerPositive(277);
    if AbsMax(x) > 0 {
      var i :| 0 <= i < |x| && x[i].mag == AbsMax(x);
      WordInRange(words[i]);
    }
  }

  lemma DenormalWord(bits: nat)
    requires bits < WORD
    ensures FromWord(bits).mag < LEAST_NORMAL <==> Exponent(bits) == 0xFF || Abs(bits) < LEAST_NORMAL
    ensures Abs(bits) < LEAST_NORMAL ==> FromWord(bits).mag == Abs(bits)
    ensures Lost(FromWord(bits), true) <==> 0x40_0000 < Abs(bits) < LEAST_NORMAL
  {
    hide Value, Pow2;
    FP32Value(Abs(bits));
    FP32Value(LEAST_NORMAL);
    Powers();
    SmallExponent(Abs(bits));
    AbsOfAbs(bits);
    if Abs(bits) > LEAST_NORMAL { ValueMonotone(FP32, LEAST_NORMAL, Abs(bits)); }
  }

  /** Every block of FP32 words, NaNs and infinities counting as zero: signs are kept, the decoded block is a fixed
      point, the error is at most a quarter of the largest magnitude, and in a block clamped from below at most half
      the scale if and only if the word is not a denormal above 2^-127 that the guard flushed. */
  lemma WordsAreBounded(words: seq<nat>, guard: bool)
    requires forall i :: 0 <= i < |words| ==> words[i] < WORD
    ensures var x := FromWords(words);
            var y := Decode(Encode(SeenAll(x, guard)));
            && |y| == |x| && Decode(Encode(SeenAll(y, guard))) == y
            && forall i :: 0 <= i < |x| ==>
                 && y[i].negative == x[i].negative
                 && (if Field(AbsMax(x)) >= 3 then 4 * Distance(y[i].mag, x[i].mag) <= AbsMax(x)
                     else (Distance(y[i].mag, x[i].mag) <= 0x40_0000 <==> !(guard && 0x40_0000 < Abs(words[i]) < LEAST_NORMAL))
                          && Distance(y[i].mag, x[i].mag) < LEAST_NORMAL)
  {
    hide Pow2, Value, FromWord, Encode, Decode, AbsMax, Field, Quarter;
    var x := FromWords(words);
    WordsFit(words);
    GuardedIdempotent(x, guard);
    BlockLength(x, guard);
    LeastQuarter();
    forall i | 0 <= i < |x|
      ensures var y := Decode(Encode(SeenAll(x, guard)))[i];
              && y.negative == x[i].negative
              && (if Field(AbsMax(x)) >= 3 then 4 * Distance(y.mag, x[i].mag) <= AbsMax(x)
                  else (Distance(y.mag, x[i].mag) <= 0x40_0000 <==> !(guard && 0x40_0000 < Abs(words[i]) < LEAST_NORMAL))
                       && Distance(y.mag, x[i].mag) < LEAST_NORMAL)
    {
      GuardedErrorBound(x, guard, i);
      DenormalWord(words[i]);
    }
  }

  /** A block at which the guard breaks the half-scale bound: its largest word is 2^-126, and an element of three
      quarters of that comes back as zero; without the guard it comes back within half the scale. */
  lemma FlushedBlock(words: seq<nat>)
    requires words == [0x80_0000, 0x60_0000] + seq(30, _ => 0)
    ensures var x := FromWords(words);
            && Encode(SeenAll(x, true)).e8m0 == 1 && |Decode(Encode(SeenAll(x, true)))| == 32
            && Decode(Encode(SeenAll(x, true)))[1].mag == 0
            && Distance(0, x[1].mag) == 0x60_0000 > 2 * Quarter(1)
            && |Decode(Encode(SeenAll(x, false)))| == 32
            && Distance(Decode(Encode(SeenAll(x, false)))[1].mag, x[1].mag) <= 2 * Quarter(1)
  {
    hide Pow2, Value, FromWord, Encode, Decode, AbsMax, Field, Quarter;
    var x := FromWords(words);
    FlushedMax(words);
    ClampedField(AbsMax(x));
    WordsFit(words);
    LeastQuarter();
    GuardedErrorBound(x, true, 1);
    GuardedErrorBound(x, false, 1);
    DenormalWord(0x60_0000);
    SeenMax(x, true);
    ZeroStays(SeenAll(x, true), 1);
    LeastExponent(SeenAll(x, true));
  }

  lemma FlushedMax(words: seq<nat>)
    requires words == [0x80_0000, 0x60_0000] + seq(30, _ => 0)
    ensures AbsMax(FromWords(words)) == LEAST_NORMAL
  {
    hide Pow2, AbsMax, Value, FromWord;
    var x := FromWords(words);
    AbsMaxBounds(x);
    LeastNormalWord();
    DenormalWord(0x60_0000);
    DenormalWord(0);
    assert x[0].mag == LEAST_NORMAL;
    forall i | 0 <= i < |x| ensures x[i].mag <= LEAST_NORMAL { assert words[i] == 0x80_0000 || words[i] == 0x60_0000 || words[i] == 0; }
  }

  lemma LeastNormalWord()
    ensures FromWord(0x80_0000).mag == LEAST_NORMAL
  {
    hide Value;
    FP32Value(0x80_0000);
    assert Pow2(0) == 1;
  }

  lemma LeastExponent(x: seq<Number>)
    requires AbsMax(x) == LEAST_NORMAL
    ensures Encode(x).e8m0 == 1
  {
    hide Pow2, AbsMax, FloorLog2;
    SmallPowers();
    FloorLog2Is(LEAST_NORMAL, 23);
  }
}
