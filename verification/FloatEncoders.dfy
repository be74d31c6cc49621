/** The FP32 encoders (include/qtx/core/fpe_guard.hpp) on 32-bit patterns.  A shift right by k is a division by
    2^k and a mask of the low k bits the remainder; fields are joined with +, which is `|` on disjoint fields. */
module FloatEncoders {
  import opened Arithmetic
  import opened BitWords
  import opened FloatFormats

  const WORD: nat := 0x1_0000_0000
  const INF: nat := 0x7F80_0000

  function Sign(bits: nat): nat { bits / 0x8000_0000 }
  function Abs(bits: nat): nat { bits % 0x8000_0000 }
  function Exponent(bits: nat): nat { bits / 0x80_0000 % 0x100 }
  function Mantissa(bits: nat): nat { bits % 0x80_0000 }
  function TopHalf(bits: nat): nat { bits / 0x1_0000 }

  /** x >> k */
  function Shr(x: nat, k: nat): nat { if k == 0 then x else Shr(x / 2, k - 1) }

  /** x & ((1 << k) - 1) */
  function Low(x: nat, k: nat): nat { if k == 0 then 0 else x % 2 + 2 * Low(x / 2, k - 1) }

  /** round_bit && (sticky || lsb), dropping the low k bits of m */
  predicate RoundsUp(m: nat, k: nat)
    requires k > 0
  {
    Shr(m, k - 1) % 2 != 0 && (Low(m, k - 1) != 0 || Shr(m, k) % 2 != 0)
  }

  function ToBF16(bits: nat): nat
    requires bits < WORD
  {
    var isInfOrNan := Exponent(bits) == 0xFF;
    if isInfOrNan && Mantissa(bits) != 0 then Sign(bits) * 0x8000 + 0x7FC0
    else if isInfOrNan then TopHalf(bits)
    else
      var roundingBias := 0x7FFF + TopHalf(bits) % 2;
      var rounded := (bits + roundingBias) % WORD;
      if Exponent(rounded) == 0xFF then Sign(bits) * 0x8000 + 0x7F7F else TopHalf(rounded)
  }

  function ToFP16(bits: nat): nat
    requires bits < WORD
  {
    var sign, abs := Sign(bits) * 0x8000, Abs(bits);
    if abs >= INF then sign + if abs > INF then 0x7E00 else 0x7C00
    else if abs < 0x3300_0000 then sign + if abs >= 0x3280_0000 then 1 else 0
    else if abs >= 0x4780_0000 then sign + 0x7BFF
    else if abs < 0x3880_0000 then
      var shift := 113 - abs / 0x80_0000 + 13;
      var mant := Mantissa(abs) + 0x80_0000;
      sign + Shr(mant, shift) + if RoundsUp(mant, shift) then 1 else 0
    else
      var e, m := abs / 0x80_0000 - 112, Mantissa(abs);
      var result := e * 0x400 + m / 0x2000;
      if !RoundsUp(m, 13) then sign + result
      else if (result + 1) / 0x400 % 0x20 == 0x1F then sign + 0x7BFF
      else sign + result + 1
  }

  function ToE4M3(bits: nat): nat
    requires bits < WORD
  {
    var sign, abs := Sign(bits) * 0x80, Abs(bits);
    if abs >= INF then sign + if abs > INF then 0x7F else 0x7E
    else if abs >= 0x43E8_0000 then sign + 0x7E
    else if abs < 0x3A80_0000 then sign
    else if abs < 0x3C80_0000 then
      var shift := 20 + (121 - abs / 0x80_0000);
      var mant := Mantissa(abs) + 0x80_0000;
      sign + (Shr(mant, shift) + if RoundsUp(mant, shift) then 1 else 0) % 0x10
    else
      var e, m := abs / 0x80_0000 - 120, Mantissa(abs);
      var result := e * 8 + m / 0x10_0000;
      var rounded := if !RoundsUp(m, 20) then result else if result + 1 == 0x7F then 0x7E else result + 1;
      sign + rounded % 0x80
  }

  function ToE5M2(bits: nat): nat
    requires bits < WORD
  {
    var sign, abs := Sign(bits) * 0x80, Abs(bits);
    if abs >= INF then sign + if abs > INF then 0x7E else 0x7C
    else if abs >= 0x477F_0000 then sign + 0x7B
    else if abs < 0x3700_0000 then sign
    else if abs < 0x3880_0000 then
      var shift := 21 + (113 - abs / 0x80_0000);
      var mant := Mantissa(abs) + 0x80_0000;
      sign + (Shr(mant, shift) + if RoundsUp(mant, shift) then 1 else 0) % 8
    else
      var e, m := abs / 0x80_0000 - 112, Mantissa(abs);
      var result := e * 4 + m / 0x20_0000;
      var rounded := if !RoundsUp(m, 21) then result
                     else if (result + 1) / 4 % 0x20 == 0x1F then 0x7B else result + 1;
      sign + rounded % 0x80
  }

  /* ---- rounding to nearest even ---- */

  /** The round bit and the sticky bit compare the dropped bits with half a step. */
  lemma RoundsUpMeans(m: nat, k: nat)
    requires k > 0
    ensures var q, r := Shr(m, k), Low(m, k);
            RoundsUp(m, k) <==> 2 * r > Pow2(k) || (2 * r == Pow2(k) && q % 2 == 1)
  {
    hide Shr, Low, Pow2;
    OneMoreBit(m, k);
    CompareHalf(Pow2(k - 1), Shr(m, k - 1) % 2, Low(m, k - 1), Shr(m, k));
  }

  lemma {:induction false} OneMoreBit(m: nat, k: nat)
    requires k > 0
    ensures Pow2(k) == 2 * Pow2(k - 1) && Low(m, k - 1) < Pow2(k - 1)
    ensures Low(m, k) == Shr(m, k - 1) % 2 * Pow2(k - 1) + Low(m, k - 1)
  {
    if k > 1 {
      OneMoreBit(m / 2, k - 1);
      Bit2(Shr(m, k - 1) % 2, Pow2(k - 2));
    }
  }

  lemma Bit2(b: nat, p: nat)
    requires b < 2
    ensures b * (2 * p) == 2 * (b * p)
  {
  }

  lemma {:induction false} ShiftParts(m: nat, k: nat)
    ensures m == Pow2(k) * Shr(m, k) + Low(m, k) && Low(m, k) < Pow2(k)
  {
    if k > 0 {
      ShiftParts(m / 2, k - 1);
      Associate(2, Pow2(k - 1), Shr(m / 2, k - 1));
    }
  }

  lemma ShiftIs(m: nat, k: nat, q: nat, r: nat)
    requires r < Pow2(k) && m == q * Pow2(k) + r
    ensures Shr(m, k) == q && Low(m, k) == r
  {
    hide Shr, Low, Pow2;
    ShiftParts(m, k);
    QuotientIs(m, Pow2(k), q, r);
    QuotientIs(m, Pow2(k), Shr(m, k), Low(m, k));
  }

  lemma CompareHalf(half: nat, b: nat, l: nat, q: nat)
    requires b < 2 && l < half
    ensures var r := b * half + l;
            (b != 0 && (l != 0 || q % 2 != 0)) <==> (2 * r > 2 * half || (2 * r == 2 * half && q % 2 == 1))
  {
    assert b == 0 ==> b * half == 0;
    assert b == 1 ==> b * half == half;
  }

  /** A value r steps above a code, n steps below the next one. */
  lemma RoundBetween(f: Format, v: nat, c: nat, r: nat, n: nat, w: nat, up: bool)
    requires Known(f) && c < f.maxCode && r < n && w > 0
    requires v == Value(f, c) + r * w && Gap(f, c) == n * w
    requires up <==> (2 * r > n || (2 * r == n && c % 2 == 1))
    ensures NearestEven(f, v, if up then c + 1 else c)
  {
    hide Value, Gap;
    ValueNext(f, c);
    TimesMonotone(2 * r, n, w);
    TimesMonotone(n, 2 * r, w);
    assert 2 * r * w == 2 * (r * w);
    BetweenCodes(f, v, c, up);
  }

  lemma FP32Value(abs: nat)
    ensures Value(FP32, abs) == if abs / 0x80_0000 == 0 then Mantissa(abs)
                                else (0x80_0000 + Mantissa(abs)) * Pow2(abs / 0x80_0000 - 1)
  {
    assert Pow2(0) == 1;
  }

  /** Truncating a normal FP32 value to a normal code of the format: s mantissa bits r are dropped. */
  lemma NormalCode(f: Format, s: nat, abs: nat, e: nat, q: nat, r: nat) returns (w: nat)
    requires Known(f) && f.one * Pow2(s) == 0x80_0000 && f.unit >= s && e >= 1
    requires abs / 0x80_0000 == e + (f.unit - s) && Mantissa(abs) == q * Pow2(s) + r && r < Pow2(s) && q < f.one
    ensures w > 0 && Value(FP32, abs) == Value(f, e * f.one + q) + r * w
    ensures Gap(f, e * f.one + q) == Pow2(s) * w
  {
    hide Pow2;
    w := Pow2(e + (f.unit - s) - 1);
    FP32Value(abs);
    Pow2Add(e - 1, f.unit);
    Pow2Add(s, e + (f.unit - s) - 1);
    QuotientIs(e * f.one + q, f.one, e, q);
    NormalAlgebra(f.one, q, r, Pow2(s), Pow2(e - 1), Pow2(f.unit), w);
  }

  lemma NormalAlgebra(one: nat, q: nat, r: nat, n: nat, p: nat, u: nat, w: nat)
    requires one * n == 0x80_0000 && p * u == n * w
    ensures (0x80_0000 + (q * n + r)) * w == (one + q) * p * u + r * w
  {
    Distribute(one, q, n);
    Distribute((one + q) * n, r, w);
    Associate(one + q, n, w);
    Associate(one + q, p, u);
  }

  lemma NormalNearest(f: Format, s: nat, abs: nat, e: nat, q: nat, r: nat)
    requires Known(f) && f.one * Pow2(s) == 0x80_0000 && f.unit >= s > 0 && e >= 1
    requires abs / 0x80_0000 == e + (f.unit - s) && Mantissa(abs) == q * Pow2(s) + r && r < Pow2(s) && q < f.one
    requires f.one % 2 == 0 && e * f.one + q <= f.maxCode
    ensures var c := e * f.one + q;
            NearestEven(f, Value(FP32, abs), if RoundsUp(Mantissa(abs), s) && c < f.maxCode then c + 1 else c)
  {
    hide Pow2, RoundsUp, Value, Gap, Shr, Low;
    var w := NormalCode(f, s, abs, e, q, r);
    RoundsUpMeans(Mantissa(abs), s);
    ShiftIs(Mantissa(abs), s, q, r);
    Even(e, f.one, q);
    CodeNearest(f, Value(FP32, abs), e * f.one + q, r, Pow2(s), w, RoundsUp(Mantissa(abs), s));
  }

  lemma CodeNearest(f: Format, v: nat, c: nat, r: nat, n: nat, w: nat, up: bool)
    requires Known(f) && c <= f.maxCode && r < n && w > 0 && v == Value(f, c) + r * w && Gap(f, c) == n * w
    requires up <==> (2 * r > n || (2 * r == n && c % 2 == 1))
    ensures NearestEven(f, v, if up && c < f.maxCode then c + 1 else c)
  {
    if c < f.maxCode { RoundBetween(f, v, c, r, n, w, up); } else { AtTheTop(f, v); }
  }

  lemma Even(e: nat, one: nat, q: nat)
    requires one % 2 == 0
    ensures (e * one + q) % 2 == q % 2
  {
    var h := one / 2;
    assert e * one == 2 * (e * h);
  }

  /** Shifting a normal FP32 significand down to a subnormal code. */
  lemma SubnormalNearest(f: Format, shift: nat, abs: nat)
    requires Known(f) && f.one <= f.maxCode && shift > 0
    requires abs / 0x80_0000 >= 1 && abs / 0x80_0000 - 1 + shift == f.unit
    requires Shr(Mantissa(abs) + 0x80_0000, shift) < f.one
    ensures var m := Mantissa(abs) + 0x80_0000;
            NearestEven(f, Value(FP32, abs), Shr(m, shift) + if RoundsUp(m, shift) then 1 else 0)
  {
    hide Pow2, RoundsUp, Value, Gap, Shr, Low;
    var m := Mantissa(abs) + 0x80_0000;
    FP32Value(abs);
    RoundsUpMeans(m, shift);
    Pow2Add(shift, abs / 0x80_0000 - 1);
    ShiftParts(m, shift);
    DroppedNearest(f, Value(FP32, abs), m, Shr(m, shift), Low(m, shift), Pow2(shift), Pow2(abs / 0x80_0000 - 1),
                   RoundsUp(m, shift));
  }

  lemma DroppedNearest(f: Format, v: nat, m: nat, q: nat, r: nat, n: nat, w: nat, up: bool)
    requires Known(f) && f.one <= f.maxCode && q < f.one && n > 0 && w > 0
    requires m == n * q + r && r < n && v == m * w && n * w == Pow2(f.unit)
    requires up <==> (2 * r > n || (2 * r == n && q % 2 == 1))
    ensures NearestEven(f, v, q + if up then 1 else 0)
  {
    hide Pow2, Value, Gap;
    SmallCode(f, q);
    SubnormalAlgebra(m, q, r, n, w);
    RoundBetween(f, v, q, r, n, w, up);
  }

  lemma SubnormalAlgebra(m: nat, q: nat, r: nat, n: nat, w: nat)
    requires m == n * q + r
    ensures m * w == q * (n * w) + r * w
  {
    Distribute(n * q, r, w);
    Associate(q, n, w);
  }

  lemma SmallCode(f: Format, q: nat)
    requires Known(f) && q < f.one
    ensures Value(f, q) == q * Pow2(f.unit) && Gap(f, q) == Pow2(f.unit)
  {
    QuotientIs(q, f.one, 0, q);
    assert Pow2(0) == 1;
    hide Pow2;
  }
}
