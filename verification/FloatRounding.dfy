/** What the FP32 encoders guarantee: round to nearest, ties to even, saturating, for BF16, E4M3 and E5M2 on
    every finite input, and for FP16 on every finite input outside one interval, where it is off by a code. */
module FloatRounding {
  import opened Arithmetic
  import opened BitWords
  import opened FloatFormats
  import opened FloatEncoders

  predicate Finite(bits: nat) { bits < WORD && Abs(bits) < INF }

  /** The interval where fp32ToFP16Safe returns the least subnormal instead of zero: magnitudes from 2^-26
      up to, not including, 2^-25. */
  predicate RoundsAwayFromZero(bits: nat) { 0x3280_0000 <= Abs(bits) < 0x3300_0000 }

  lemma Powers()
    ensures Pow2(2) == 4 && Pow2(3) == 8 && Pow2(10) == 0x400 && Pow2(13) == 0x2000 && Pow2(14) == 0x4000 && Pow2(16) == 0x1_0000 && Pow2(20) == 0x10_0000
    ensures Pow2(21) == 0x20_0000 && Pow2(22) == 0x40_0000 && Pow2(23) == 0x80_0000
  {
  }

  lemma {:induction false} Pow2Monotone(a: nat, b: nat)
    requires a <= b
    ensures Pow2(a) <= Pow2(b)
  {
    if a < b { Pow2Monotone(a, b - 1); }
  }

  /** A value under half the least subnormal rounds to zero. */
  lemma NearZero(f: Format, abs: nat, e: nat)
    requires Known(f) && f != FP32 && abs < e * 0x80_0000 && e >= 1 && e + 23 <= f.unit
    ensures NearestEven(f, Value(FP32, abs), 0)
  {
    hide Pow2, Value, Gap, NearestEven, Mantissa;
    ValueMonotone(FP32, abs, e * 0x80_0000);
    PowerOfTwo(e);
    Pow2Monotone(e + 22, f.unit - 1);
    Halve(f.unit);
    SmallCode(f, 0);
    SmallCode(f, 1);
    BetweenCodes(f, Value(FP32, abs), 0, false);
  }

  lemma PowerOfTwo(e: nat)
    requires e >= 1
    ensures Value(FP32, e * 0x80_0000) == Pow2(e + 22)
  {
    hide Value;
    QuotientIs(e * 0x80_0000, 0x80_0000, e, 0);
    Powers();
    hide Pow2;
    FP32Value(e * 0x80_0000);
    Pow2Add(23, e - 1);
  }

  lemma Halve(n: nat)
    requires n > 0
    ensures Pow2(n) == 2 * Pow2(n - 1)
  {
  }

  /** FP32 values from the largest finite code up saturate; `n` is 2^s. */
  lemma Saturates(f: Format, s: nat, n: nat, abs: nat, e: nat, q: nat)
    requires Known(f) && n == Pow2(s) && f.one * n == 0x80_0000 && f.unit >= s && e >= 1 && q < f.one
    requires e * f.one + q == f.maxCode && q * n < 0x80_0000
    requires abs >= (e + (f.unit - s)) * 0x80_0000 + q * n
    ensures NearestEven(f, Value(FP32, abs), f.maxCode)
  {
    hide Pow2, Value, Gap, NearestEven;
    var top := (e + (f.unit - s)) * 0x80_0000 + q * n;
    QuotientIs(top, 0x80_0000, e + (f.unit - s), q * n);
    var w := NormalCode(f, s, top, e, q, 0);
    if top < abs { ValueMonotone(FP32, top, abs); }
    AtTheTop(f, Value(FP32, abs));
  }

  lemma ShiftBound(m: nat, k: nat, small: nat)
    requires m < 0x100_0000 && k >= small && small <= 24
    ensures Shr(m, k) < Pow2(24 - small)
  {
    hide Pow2, Shr, Low;
    ShiftParts(m, k);
    Pow2Monotone(small, k);
    Pow2Add(small, 24 - small);
    Powers();
    Halve(24);
    if Shr(m, k) >= Pow2(24 - small) { ProductGrows(Pow2(small), Pow2(k), Pow2(24 - small), Shr(m, k)); }
  }

  lemma ProductGrows(a: nat, b: nat, c: nat, d: nat)
    requires a <= b && c <= d
    ensures a * c <= b * d
  {
    TimesMonotone(a, b, c);
    TimesMonotone(c, d, b);
  }

  /* ---- BF16 ---- */

  /** Adding the bias and cutting is rounding to nearest even with saturation. */
  lemma BF16Parts(abs: nat)
    requires abs < INF
    ensures var c, r := abs / 0x1_0000, abs % 0x1_0000;
            var up := 2 * r > 0x1_0000 || (2 * r == 0x1_0000 && c % 2 == 1);
            ToBF16(abs) == if up && c < 0x7F7F then c + 1 else c
    ensures abs / 0x1_0000 == abs / 0x80_0000 * 0x80 + Mantissa(abs) / 0x1_0000
    ensures Mantissa(abs) == Mantissa(abs) / 0x1_0000 * 0x1_0000 + abs % 0x1_0000 && Mantissa(abs) / 0x1_0000 < 0x80
  {
  }

  lemma BF16IsNearest(abs: nat)
    requires abs < INF
    ensures NearestEven(BF16, Value(FP32, abs), ToBF16(abs))
  {
    hide Pow2, Value, Gap, NearestEven, ToBF16, Mantissa;
    BF16Parts(abs);
    var c, r := abs / 0x1_0000, abs % 0x1_0000;
    var up := 2 * r > 0x1_0000 || (2 * r == 0x1_0000 && c % 2 == 1);
    var e, q := abs / 0x80_0000, Mantissa(abs) / 0x1_0000;
    Powers();
    if e == 0 {
      FP32Value(abs);
      SmallCode(BF16, c);
      BF16Subnormal(abs);
      CodeNearest(BF16, Value(FP32, abs), c, r, 0x1_0000, 1, up);
    } else {
      var w := NormalCode(BF16, 16, abs, e, q, r);
      CodeNearest(BF16, Value(FP32, abs), c, r, 0x1_0000, w, up);
    }
  }

  lemma BF16Subnormal(abs: nat)
    requires abs < 0x80_0000
    ensures Mantissa(abs) == abs
  {
  }

  /* ---- FP16 ---- */

  lemma FP16Normal(abs: nat)
    requires 0x3880_0000 <= abs < 0x4780_0000
    ensures var e, m := abs / 0x80_0000 - 112, Mantissa(abs);
            var c := e * 0x400 + m / 0x2000;
            && e >= 1 && c <= 0x7BFF && m / 0x2000 < 0x400 && m == m / 0x2000 * 0x2000 + m % 0x2000
            && ToFP16(abs) == if RoundsUp(m, 13) && c < 0x7BFF then c + 1 else c
  {
    hide RoundsUp, Shr, Low;
  }

  lemma FP16Subnormal(abs: nat)
    requires 0x3300_0000 <= abs < 0x3880_0000
    ensures var shift, m := 113 - abs / 0x80_0000 + 13, Mantissa(abs) + 0x80_0000;
            && 14 <= shift && abs / 0x80_0000 - 1 + shift == FP16.unit && abs / 0x80_0000 >= 1 && m < 0x100_0000
            && ToFP16(abs) == Shr(m, shift) + if RoundsUp(m, shift) then 1 else 0
  {
    hide RoundsUp, Shr, Low;
  }

  lemma FP16NormalNearest(abs: nat)
    requires 0x3880_0000 <= abs < 0x4780_0000
    ensures NearestEven(FP16, Value(FP32, abs), ToFP16(abs))
  {
    hide Pow2, Value, Gap, NearestEven, RoundsUp, Shr, Low, Mantissa, ToFP16;
    Powers();
    FP16Normal(abs);
    var e, m := abs / 0x80_0000 - 112, Mantissa(abs);
    NormalNearest(FP16, 13, abs, e, m / 0x2000, m % 0x2000);
  }

  lemma FP16SubnormalNearest(abs: nat)
    requires 0x3300_0000 <= abs < 0x3880_0000
    ensures NearestEven(FP16, Value(FP32, abs), ToFP16(abs))
  {
    hide Pow2, Value, Gap, NearestEven, RoundsUp, Shr, Low, Mantissa, ToFP16;
    Powers();
    FP16Subnormal(abs);
    var shift := 113 - abs / 0x80_0000 + 13;
    ShiftBound(Mantissa(abs) + 0x80_0000, shift, 14);
    SubnormalNearest(FP16, shift, abs);
  }

  lemma FP16IsNearest(abs: nat)
    requires abs < INF && !RoundsAwayFromZero(abs)
    ensures NearestEven(FP16, Value(FP32, abs), ToFP16(abs))
  {
    hide Pow2, Value, Gap, NearestEven, RoundsUp, Shr, Low, Mantissa;
    Powers();
    if abs < 0x3280_0000 {
      NearZero(FP16, abs, 101);
    } else if abs >= 0x4780_0000 {
      Saturates(FP16, 13, 0x2000, abs, 30, 0x3FF);
    } else if abs < 0x3880_0000 {
      FP16SubnormalNearest(abs);
    } else {
      FP16NormalNearest(abs);
    }
  }

  /** Inside the interval the nearest code is zero and the encoder answers one. */
  lemma FP16IsOffByOne(abs: nat)
    requires RoundsAwayFromZero(abs) && abs < INF
    ensures ToFP16(abs) == 1 && NearestEven(FP16, Value(FP32, abs), 0)
    ensures !NearestEven(FP16, Value(FP32, abs), 1)
  {
    hide Value, NearestEven;
    NearZero(FP16, abs, 102);
    if NearestEven(FP16, Value(FP32, abs), 1) { NearestUnique(FP16, Value(FP32, abs), 0, 1); }
  }

  /* ---- E4M3 and E5M2 ---- */

  lemma E4M3Normal(abs: nat)
    requires 0x3C80_0000 <= abs < 0x43E8_0000
    ensures var e, m := abs / 0x80_0000 - 120, Mantissa(abs);
            var c := e * 8 + m / 0x10_0000;
            && e >= 1 && c <= 0x7E && m / 0x10_0000 < 8 && m == m / 0x10_0000 * 0x10_0000 + m % 0x10_0000
            && ToE4M3(abs) == if RoundsUp(m, 20) && c < 0x7E then c + 1 else c
  {
    hide RoundsUp, Shr, Low;
  }

  lemma E4M3Subnormal(abs: nat)
    requires 0x3A80_0000 <= abs < 0x3C80_0000
    ensures var shift, m := 20 + (121 - abs / 0x80_0000), Mantissa(abs) + 0x80_0000;
            && 21 <= shift && abs / 0x80_0000 - 1 + shift == E4M3.unit && abs / 0x80_0000 >= 1 && m < 0x100_0000
            && (Shr(m, shift) < 8 ==> ToE4M3(abs) == Shr(m, shift) + if RoundsUp(m, shift) then 1 else 0)
  {
    hide RoundsUp, Shr, Low;
  }

  lemma E4M3NormalNearest(abs: nat)
    requires 0x3C80_0000 <= abs < 0x43E8_0000
    ensures NearestEven(E4M3, Value(FP32, abs), ToE4M3(abs))
  {
    hide Pow2, Value, Gap, NearestEven, RoundsUp, Shr, Low, Mantissa, ToE4M3;
    Powers();
    E4M3Normal(abs);
    var e, m := abs / 0x80_0000 - 120, Mantissa(abs);
    NormalNearest(E4M3, 20, abs, e, m / 0x10_0000, m % 0x10_0000);
  }

  lemma E4M3SubnormalNearest(abs: nat)
    requires 0x3A80_0000 <= abs < 0x3C80_0000
    ensures NearestEven(E4M3, Value(FP32, abs), ToE4M3(abs))
  {
    hide Pow2, Value, Gap, NearestEven, RoundsUp, Shr, Low, Mantissa, ToE4M3;
    Powers();
    E4M3Subnormal(abs);
    var shift := 20 + (121 - abs / 0x80_0000);
    ShiftBound(Mantissa(abs) + 0x80_0000, shift, 21);
    SubnormalNearest(E4M3, shift, abs);
  }

  lemma E4M3IsNearest(abs: nat)
    requires abs < INF
    ensures NearestEven(E4M3, Value(FP32, abs), ToE4M3(abs))
  {
    hide Pow2, Value, Gap, NearestEven, RoundsUp, Shr, Low, Mantissa;
    Powers();
    if abs >= 0x43E8_0000 {
      Saturates(E4M3, 20, 0x10_0000, abs, 15, 6);
    } else if abs < 0x3A80_0000 {
      NearZero(E4M3, abs, 117);
    } else if abs < 0x3C80_0000 {
      E4M3SubnormalNearest(abs);
    } else {
      E4M3NormalNearest(abs);
    }
  }

  lemma E5M2Normal(abs: nat)
    requires 0x3880_0000 <= abs < 0x477F_0000
    ensures var e, m := abs / 0x80_0000 - 112, Mantissa(abs);
            var c := e * 4 + m / 0x20_0000;
            && e >= 1 && c <= 0x7B && m / 0x20_0000 < 4 && m == m / 0x20_0000 * 0x20_0000 + m % 0x20_0000
            && ToE5M2(abs) == if RoundsUp(m, 21) && c < 0x7B then c + 1 else c
  {
    hide RoundsUp, Shr, Low;
  }

  lemma E5M2Subnormal(abs: nat)
    requires 0x3700_0000 <= abs < 0x3880_0000
    ensures var shift, m := 21 + (113 - abs / 0x80_0000), Mantissa(abs) + 0x80_0000;
            && 22 <= shift && abs / 0x80_0000 - 1 + shift == E5M2.unit && abs / 0x80_0000 >= 1 && m < 0x100_0000
            && (Shr(m, shift) < 4 ==> ToE5M2(abs) == Shr(m, shift) + if RoundsUp(m, shift) then 1 else 0)
  {
    hide RoundsUp, Shr, Low;
  }

  lemma E5M2NormalNearest(abs: nat)
    requires 0x3880_0000 <= abs < 0x477F_0000
    ensures NearestEven(E5M2, Value(FP32, abs), ToE5M2(abs))
  {
    hide Pow2, Value, Gap, NearestEven, RoundsUp, Shr, Low, Mantissa, ToE5M2;
    Powers();
    E5M2Normal(abs);
    var e, m := abs / 0x80_0000 - 112, Mantissa(abs);
    NormalNearest(E5M2, 21, abs, e, m / 0x20_0000, m % 0x20_0000);
  }

  lemma E5M2SubnormalNearest(abs: nat)
    requires 0x3700_0000 <= abs < 0x3880_0000
    ensures NearestEven(E5M2, Value(FP32, abs), ToE5M2(abs))
  {
    hide Pow2, Value, Gap, NearestEven, RoundsUp, Shr, Low, Mantissa, ToE5M2;
    Powers();
    E5M2Subnormal(abs);
    var shift := 21 + (113 - abs / 0x80_0000);
    ShiftBound(Mantissa(abs) + 0x80_0000, shift, 22);
    SubnormalNearest(E5M2, shift, abs);
  }

  lemma E5M2IsNearest(abs: nat)
    requires abs < INF
    ensures NearestEven(E5M2, Value(FP32, abs), ToE5M2(abs))
  {
    hide Pow2, Value, Gap, NearestEven, RoundsUp, Shr, Low, Mantissa;
    Powers();
    if abs >= 0x477F_0000 {
      Saturates(E5M2, 21, 0x20_0000, abs, 30, 3);
    } else if abs < 0x3700_0000 {
      NearZero(E5M2, abs, 110);
    } else if abs < 0x3880_0000 {
      E5M2SubnormalNearest(abs);
    } else {
      E5M2NormalNearest(abs);
    }
  }

  /* ---- with signs ---- */

  /** The encoders treat the sign bit apart, NaNs and infinities included. */
  lemma SignsApart(bits: nat)
    requires bits < WORD
    ensures ToBF16(bits) == Sign(bits) * 0x8000 + ToBF16(Abs(bits)) && ToBF16(Abs(bits)) < 0x8000
    ensures ToFP16(bits) == Sign(bits) * 0x8000 + ToFP16(Abs(bits))
    ensures ToE4M3(bits) == Sign(bits) * 0x80 + ToE4M3(Abs(bits))
    ensures ToE5M2(bits) == Sign(bits) * 0x80 + ToE5M2(Abs(bits))
  {
    hide ToBF16, ToFP16, ToE4M3, ToE5M2, Sign, Abs;
    BF16Sign(bits);
    FP16Sign(bits);
    FP8Sign(bits);
  }

  /** What is not finite keeps its sign: NaNs become quiet NaNs of the format, infinities its infinity, or in E4M3,
      which has none, its largest finite value. */
  lemma NonFiniteCodes(bits: nat)
    requires bits < WORD && Abs(bits) >= INF
    ensures ToBF16(bits) == Sign(bits) * 0x8000 + if Abs(bits) > INF then 0x7FC0 else 0x7F80
    ensures ToFP16(bits) == Sign(bits) * 0x8000 + if Abs(bits) > INF then 0x7E00 else 0x7C00
    ensures ToE4M3(bits) == Sign(bits) * 0x80 + if Abs(bits) > INF then 0x7F else E4M3.maxCode
    ensures ToE5M2(bits) == Sign(bits) * 0x80 + if Abs(bits) > INF then 0x7E else 0x7C
  {
    AbsOfAbs(bits);
    BF16NonFinite(bits);
    hide ToBF16;
  }

  lemma BF16NonFinite(bits: nat)
    requires bits < WORD && Abs(bits) >= INF
    ensures ToBF16(bits) == Sign(bits) * 0x8000 + if Abs(bits) > INF then 0x7FC0 else 0x7F80
  {
    var abs := Abs(bits);
    assert bits == Sign(bits) * 0x8000_0000 + abs && INF <= abs < 0x8000_0000;
    assert Exponent(bits) == 0xFF && Mantissa(bits) == abs - INF;
    if abs == INF { assert bits / 0x1_0000 == Sign(bits) * 0x8000 + 0x7F80; }
  }

  lemma AbsOfAbs(bits: nat)
    requires bits < WORD
    ensures Abs(Abs(bits)) == Abs(bits) < 0x8000_0000 && Sign(Abs(bits)) == 0 && Sign(bits) <= 1
    ensures bits == Sign(bits) * 0x8000_0000 + Abs(bits)
  {
  }

  lemma FP16Sign(bits: nat)
    requires bits < WORD
    ensures ToFP16(bits) == Sign(bits) * 0x8000 + ToFP16(Abs(bits))
  {
    hide RoundsUp, Shr, Low, Sign, Abs, Mantissa;
    AbsOfAbs(bits);
  }

  lemma FP8Sign(bits: nat)
    requires bits < WORD
    ensures ToE4M3(bits) == Sign(bits) * 0x80 + ToE4M3(Abs(bits))
    ensures ToE5M2(bits) == Sign(bits) * 0x80 + ToE5M2(Abs(bits))
  {
    hide RoundsUp, Shr, Low, Sign, Abs, Mantissa;
    AbsOfAbs(bits);
  }

  lemma TopBit(x: nat)
    requires x < 0x8000_0000
    ensures TopHalf(x + 0x8000_0000) == TopHalf(x) + 0x8000 && TopHalf(x) < 0x8000
    ensures Exponent(x + 0x8000_0000) == Exponent(x) && Mantissa(x + 0x8000_0000) == Mantissa(x)
  {
  }

  lemma BF16Sign(bits: nat)
    requires bits < WORD
    ensures ToBF16(bits) == Sign(bits) * 0x8000 + ToBF16(Abs(bits)) && ToBF16(Abs(bits)) < 0x8000
  {
    hide Exponent, Mantissa, Sign, Abs, TopHalf;
    AbsOfAbs(bits);
    BF16Negated(Abs(bits));
  }

  lemma BF16Negated(abs: nat)
    requires abs < 0x8000_0000
    ensures ToBF16(abs + 0x8000_0000) == 0x8000 + ToBF16(abs) && ToBF16(abs) < 0x8000
  {
    hide Exponent, Mantissa, TopHalf;
    TopBit(abs);
    SmallExponent(abs);
    SignBits(abs);
    if Exponent(abs) != 0xFF { TopBit(abs + 0x7FFF + TopHalf(abs) % 2); }
  }

  lemma SignBits(abs: nat)
    requires abs < 0x8000_0000
    ensures Sign(abs) == 0 && Sign(abs + 0x8000_0000) == 1
  {
  }

  lemma SmallExponent(abs: nat)
    requires abs < 0x8000_0000
    ensures Exponent(abs) != 0xFF <==> abs < INF
  {
  }

  /** A code of the format with `signBit` as its sign bit rounds the FP32 number correctly. */
  ghost predicate Correct(f: Format, signBit: nat, bits: nat, code: nat)
    requires Known(f) && signBit > 0
  {
    code / signBit == Sign(bits) && NearestEven(f, Value(FP32, Abs(bits)), code % signBit)
  }

  lemma CorrectCode(f: Format, signBit: nat, bits: nat, c: nat)
    requires Known(f) && (signBit == 0x8000 || signBit == 0x80) && signBit > f.maxCode
    requires NearestEven(f, Value(FP32, Abs(bits)), c)
    ensures Correct(f, signBit, bits, Sign(bits) * signBit + c)
  {
    hide Value, Sign;
    var s := Sign(bits);
    assert s * signBit == signBit * s;
    QuotientIs(s * signBit + c, signBit, s, c);
  }

  /** On every finite FP32 number the encoders round to nearest, ties to even, and saturate, FP16 outside one
      interval; inside it, never. */
  lemma EncodersRoundToNearestEven(bits: nat)
    requires Finite(bits)
    ensures Correct(BF16, 0x8000, bits, ToBF16(bits))
    ensures Correct(E4M3, 0x80, bits, ToE4M3(bits))
    ensures Correct(E5M2, 0x80, bits, ToE5M2(bits))
    ensures Correct(FP16, 0x8000, bits, ToFP16(bits)) <==> !RoundsAwayFromZero(bits)
  {
    hide NearestEven, Value, ToBF16, ToE4M3, ToE5M2, ToFP16;
    var abs := Abs(bits);
    SignsApart(bits);
    BF16IsNearest(abs);
    CorrectCode(BF16, 0x8000, bits, ToBF16(abs));
    E4M3IsNearest(abs);
    CorrectCode(E4M3, 0x80, bits, ToE4M3(abs));
    E5M2IsNearest(abs);
    CorrectCode(E5M2, 0x80, bits, ToE5M2(abs));
    assert Abs(abs) == abs;
    if RoundsAwayFromZero(abs) {
      FP16IsOffByOne(abs);
      QuotientIs(ToFP16(bits), 0x8000, Sign(bits), 1);
    } else {
      FP16IsNearest(abs);
      CorrectCode(FP16, 0x8000, bits, ToFP16(abs));
    }
  }

  /** The number a sign and a magnitude stand for. */
  function Signed(f: Format, signBit: nat, code: nat): int
    requires Known(f) && signBit > 0
  {
    if code / signBit == 0 then Value(f, code % signBit) else 0 - Value(f, code % signBit)
  }

  lemma CorrectIsMonotone(f: Format, signBit: nat, x: nat, y: nat, cx: nat, cy: nat)
    requires Known(f) && signBit > 0 && Finite(x) && Finite(y) && Correct(f, signBit, x, cx) && Correct(f, signBit, y, cy)
    requires Signed(FP32, 0x8000_0000, x) <= Signed(FP32, 0x8000_0000, y)
    ensures Signed(f, signBit, cx) <= Signed(f, signBit, cy)
  {
    hide Value, NearestEven;
    var vx, vy := Value(FP32, Abs(x)), Value(FP32, Abs(y));
    var mx, my := cx % signBit, cy % signBit;
    if vx <= vy { NearestMonotone(f, vx, vy, mx, my); }
    if vy <= vx { NearestMonotone(f, vy, vx, my, mx); }
    if mx < my { ValueMonotone(f, mx, my); }
    if my < mx { ValueMonotone(f, my, mx); }
    ZeroCode(f, vx, mx);
    ZeroCode(f, vy, my);
  }

  lemma ZeroCode(f: Format, v: nat, c: nat)
    requires Known(f) && NearestEven(f, v, c)
    ensures v == 0 ==> Value(f, c) == 0
  {
    hide Value, NearestEven;
    if v == 0 {
      SmallCode(f, 0);
      ExactIsNearest(f, 0);
      NearestUnique(f, 0, 0, c);
    }
  }

  /** A larger number never gets a smaller code; FP16 is in FP16IsMonotoneExactly. */
  lemma EncodersAreMonotone(x: nat, y: nat)
    requires Finite(x) && Finite(y) && Signed(FP32, 0x8000_0000, x) <= Signed(FP32, 0x8000_0000, y)
    ensures Signed(BF16, 0x8000, ToBF16(x)) <= Signed(BF16, 0x8000, ToBF16(y))
    ensures Signed(E4M3, 0x80, ToE4M3(x)) <= Signed(E4M3, 0x80, ToE4M3(y))
    ensures Signed(E5M2, 0x80, ToE5M2(x)) <= Signed(E5M2, 0x80, ToE5M2(y))
    ensures !RoundsAwayFromZero(x) && !RoundsAwayFromZero(y) ==>
              Signed(FP16, 0x8000, ToFP16(x)) <= Signed(FP16, 0x8000, ToFP16(y))
  {
    hide Correct, Signed, ToBF16, ToE4M3, ToE5M2, ToFP16;
    EncodersRoundToNearestEven(x);
    EncodersRoundToNearestEven(y);
    CorrectIsMonotone(BF16, 0x8000, x, y, ToBF16(x), ToBF16(y));
    CorrectIsMonotone(E4M3, 0x80, x, y, ToE4M3(x), ToE4M3(y));
    CorrectIsMonotone(E5M2, 0x80, x, y, ToE5M2(x), ToE5M2(y));
    if !RoundsAwayFromZero(x) && !RoundsAwayFromZero(y) {
      CorrectIsMonotone(FP16, 0x8000, x, y, ToFP16(x), ToFP16(y));
    }
  }

  /** The only inversion FP16 has: a magnitude in the interval gets a larger code than 2^-25 itself. */
  lemma FP16InvertsExactlyAtHalf(a: nat, b: nat)
    requires a <= b < INF
    ensures ToFP16(a) > ToFP16(b) <==> RoundsAwayFromZero(a) && b == 0x3300_0000
  {
    hide Value, NearestEven, ToFP16;
    FP16AtHalf();
    if a < b { ValueMonotone(FP32, a, b); }
    if RoundsAwayFromZero(a) {
      FP16IsOffByOne(a);
      if RoundsAwayFromZero(b) {
        FP16IsOffByOne(b);
      } else if b > 0x3300_0000 {
        FP16IsNearest(b);
        FP16IsNearest(0x3300_0001);
        if b > 0x3300_0001 { ValueMonotone(FP32, 0x3300_0001, b); }
        NearestMonotone(FP16, Value(FP32, 0x3300_0001), Value(FP32, b), 1, ToFP16(b));
      }
    } else {
      FP16IsNearest(a);
      if RoundsAwayFromZero(b) {
        FP16IsOffByOne(b);
        NearestMonotone(FP16, Value(FP32, a), Value(FP32, b), ToFP16(a), 0);
      } else {
        FP16IsNearest(b);
        NearestMonotone(FP16, Value(FP32, a), Value(FP32, b), ToFP16(a), ToFP16(b));
      }
    }
  }

  lemma FP16AtHalf()
    ensures ToFP16(0x3300_0000) == 0 && ToFP16(0x3300_0001) == 1
  {
    hide Pow2, Shr, Low;
    Powers();
    Halve(24);
    ShiftIs(0x80_0000, 24, 0, 0x80_0000);
    ShiftIs(0x80_0000, 23, 1, 0);
    ShiftIs(0x80_0001, 24, 0, 0x80_0001);
    ShiftIs(0x80_0001, 23, 1, 1);
  }

  /** FP16 with signs: the order of two numbers is reversed if and only if one of them is 2^-25 or its negative
      and the other, of the same sign and smaller magnitude, is in the interval. */
  lemma FP16IsMonotoneExactly(x: nat, y: nat)
    requires Finite(x) && Finite(y) && Signed(FP32, 0x8000_0000, x) <= Signed(FP32, 0x8000_0000, y)
    ensures Signed(FP16, 0x8000, ToFP16(x)) > Signed(FP16, 0x8000, ToFP16(y))
            <==> Sign(x) == Sign(y) && if Sign(x) == 0 then RoundsAwayFromZero(x) && Abs(y) == 0x3300_0000
                                       else RoundsAwayFromZero(y) && Abs(x) == 0x3300_0000
  {
    hide Value, ToFP16;
    FP16Parts(x);
    FP16Parts(y);
    var ax, ay := Abs(x), Abs(y);
    var cx, cy := ToFP16(ax), ToFP16(ay);
    if ax < ay { ValueMonotone(FP32, ax, ay); }
    if ay < ax { ValueMonotone(FP32, ay, ax); }
    if cx < cy { ValueMonotone(FP16, cx, cy); }
    if cy < cx { ValueMonotone(FP16, cy, cx); }
    if Sign(x) == 0 && Sign(y) == 0 { FP16InvertsExactlyAtHalf(ax, ay); }
    if Sign(x) == 1 && Sign(y) == 1 { FP16InvertsExactlyAtHalf(ay, ax); }
    FP16Zero();
    if Value(FP32, ax) == 0 && ax > 0 { ValueMonotone(FP32, 0, ax); }
    if Value(FP32, ay) == 0 && ay > 0 { ValueMonotone(FP32, 0, ay); }
  }

  lemma FP16Zero()
    ensures ToFP16(0) == 0 && Value(FP16, 0) == 0
  {
  }

  lemma FP16Parts(bits: nat)
    requires Finite(bits)
    ensures Sign(bits) <= 1 && ToFP16(Abs(bits)) < 0x8000
    ensures Signed(FP16, 0x8000, ToFP16(bits))
         == if Sign(bits) == 0 then Value(FP16, ToFP16(Abs(bits))) else 0 - Value(FP16, ToFP16(Abs(bits)))
  {
    hide Value, ToFP16, NearestEven;
    SignsApart(bits);
    AbsOfAbs(bits);
    var a := Abs(bits);
    if RoundsAwayFromZero(a) { FP16IsOffByOne(a); } else { FP16IsNearest(a); FP16Below(a); }
    QuotientIs(ToFP16(bits), 0x8000, Sign(bits), ToFP16(a));
  }

  lemma FP16Below(a: nat)
    requires a < WORD && NearestEven(FP16, Value(FP32, a), ToFP16(a))
    ensures ToFP16(a) <= 0x7BFF
  {
    hide Value, ToFP16;
  }
}
