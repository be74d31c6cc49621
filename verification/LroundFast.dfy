/** lroundHalfAwayFast (include/qtx/core/fpe_guard.hpp:223-226) on FP32 magnitudes: the sum with one half is an
    FP32 addition, so it rounds before the truncation.  Where the result differs from rounding half away. */
module LroundFast {
  import opened Arithmetic
  import opened BitWords
  import opened FloatFormats
  import opened FloatEncoders
  import opened FloatRounding

  /** One half, and one, in units of 2^-149. */
  function Half(): (h: nat)
    ensures h > 0
  {
    Power(148)
  }

  function One(): (n: nat)
    ensures n > 0
  {
    Power(149)
  }

  function Power(n: nat): (p: nat)
    ensures p > 0
  {
    Pow2(n)
  }

  /** The code of the FP32 sum of the magnitude and one half. */
  ghost predicate IsSum(abs: nat, c: nat) { NearestEven(FP32, Value(FP32, abs) + Half(), c) }

  /** v divided by a unit and truncated */
  function Whole(v: nat, unit: nat): nat { if unit == 0 then 0 else v / unit }

  /** What is left of a magnitude after truncation. */
  function Truncated(c: nat): nat { Whole(Value(FP32, c), One()) }

  /** std::lround */
  function HalfAway(abs: nat): nat { Whole(Value(FP32, abs) + Half(), One()) }

  /** A code with exponent field e and mantissa field m. */
  lemma NormalValue(e: nat, m: nat)
    requires e > 0 && m < 0x80_0000
    ensures Value(FP32, e * 0x80_0000 + m) == (0x80_0000 + m) * Pow2(e - 1)
  {
    QuotientIs(e * 0x80_0000 + m, 0x80_0000, e, m);
  }

  lemma Halves()
    ensures One() == 2 * Half()
  {
    hide Pow2;
    Halve(149);
  }

  lemma WholeIs(v: nat, unit: nat, q: nat, r: nat)
    requires r < unit && v == q * unit + r
    ensures Whole(v, unit) == q
  {
    assert q * unit == unit * q;
    QuotientIs(v, unit, q, r);
  }

  lemma SumIs(abs: nat, c: nat, d: nat)
    requires IsSum(abs, c) && NearestEven(FP32, Value(FP32, abs) + Half(), d)
    ensures c == d
  {
    hide Value, NearestEven, Half;
    NearestUnique(FP32, Value(FP32, abs) + Half(), c, d);
  }

  /** Under one half the answer is 0, but for the largest such number: its sum is a tie, and the even neighbour is 1. */
  lemma UnderHalf(abs: nat, c: nat)
    requires abs < 0x3F00_0000 && IsSum(abs, c)
    ensures HalfAway(abs) == 0 && Truncated(c) == if abs == 0x3EFF_FFFF then 1 else 0
    ensures abs == 0x3EFF_FFFF ==> c == 0x3F80_0000
  {
    hide Pow2, Value, NearestEven, Whole;
    var w := Pow2(124);
    Halves();
    Pow2Add(24, 124);
    Powers();
    Halve(24);
    Halve(125);
    PowerOfTwo(126);
    PowerOfTwo(127);
    NormalValue(125, 0x7F_FFFF);
    NormalValue(125, 0x7F_FFFE);
    NormalValue(126, 0x7F_FFFF);
    assert Half() == 0x100_0000 * w && Value(FP32, 0x3F00_0000) == Half() && Value(FP32, 0x3F80_0000) == One();
    assert Value(FP32, 0x3EFF_FFFF) == 0xFF_FFFF * w && Value(FP32, 0x3F7F_FFFF) == 0xFF_FFFF * (2 * w);
    ValueMonotone(FP32, abs, 0x3F00_0000);
    WholeIs(Value(FP32, abs) + Half(), One(), 0, Value(FP32, abs) + Half());
    if abs == 0x3EFF_FFFF {
      BetweenCodes(FP32, Value(FP32, abs) + Half(), 0x3F7F_FFFF, true);
      SumIs(abs, c, 0x3F80_0000);
      WholeIs(One(), One(), 1, 0);
    } else {
      if abs < 0x3EFF_FFFE { ValueMonotone(FP32, abs, 0x3EFF_FFFE); }
      ExactIsNearest(FP32, 0x3F7F_FFFF);
      NearestMonotone(FP32, Value(FP32, abs) + Half(), Value(FP32, 0x3F7F_FFFF), c, 0x3F7F_FFFF);
      ValueMonotone(FP32, c, 0x3F80_0000);
      WholeIs(Value(FP32, c), One(), 0, Value(FP32, c));
    }
  }

  /** From one half to 2^23 one half is a whole number of mantissa steps. */
  lemma HalfInSteps(abs: nat, e: nat, m: nat)
    requires 126 <= e <= 149 && m < 0x80_0000 && abs == e * 0x80_0000 + m
    ensures Pow2(149 - e) <= 0x80_0000
    ensures Value(FP32, abs) + Half() == (0x80_0000 + m + Pow2(149 - e)) * Pow2(e - 1)
    ensures Pow2(e + 23) == 0x100_0000 * Pow2(e - 1)
  {
    hide Pow2, Value;
    NormalValue(e, m);
    Pow2Add(149 - e, e - 1);
    Pow2Add(24, e - 1);
    Pow2Monotone(149 - e, 23);
    Powers();
    Halve(24);
    Distribute(0x80_0000 + m, Pow2(149 - e), Pow2(e - 1));
  }

  /** There the sum is exact, or rounds within the half-open unit above an integer. */
  lemma Middle(abs: nat, c: nat, e: nat, m: nat)
    requires 126 <= e <= 149 && m < 0x80_0000 && abs == e * 0x80_0000 + m && IsSum(abs, c)
    ensures Truncated(c) == HalfAway(abs)
  {
    hide Pow2, Value, NearestEven, Whole, Half;
    var h := Pow2(149 - e);
    HalfInSteps(abs, e, m);
    if m + h <= 0x80_0000 {
      if m + h < 0x80_0000 { NormalValue(e, m + h); } else { NextBinade(e); }
      ExactIsNearest(FP32, abs + h);
      SumIs(abs, c, abs + h);
    } else {
      TimesMonotone(0x100_0000, 0x80_0000 + m + h, Pow2(e - 1));
      Crossing(abs, c, e, m);
    }
  }

  lemma NextBinade(e: nat)
    requires e > 0
    ensures Value(FP32, e * 0x80_0000 + 0x80_0000) == 0x100_0000 * Pow2(e - 1)
  {
    hide Value;
    NormalValue(e + 1, 0);
    Halve(e);
  }

  lemma Crossing(abs: nat, c: nat, e: nat, m: nat)
    requires 126 <= e <= 149 && m < 0x80_0000 && abs == e * 0x80_0000 + m && IsSum(abs, c)
    requires Value(FP32, abs) + Half() >= Pow2(e + 23)
    ensures Truncated(c) == HalfAway(abs)
  {
    hide Pow2, Value, Whole;
    var d, n := (e + 1) * 0x80_0000, Pow2(e - 126);
    PowerOfTwo(e + 1);
    Pow2Add(e - 126, 149);
    ValueMonotone(FP32, abs, d);
    Halves();
    var sum := Value(FP32, abs) + Half();
    assert Value(FP32, d) == n * One();
    WholeIs(sum, One(), n, sum - n * One());
    assert Distance(Value(FP32, c), sum) <= Distance(Value(FP32, d), sum);
    ExactIsNearest(FP32, d);
    hide NearestEven;
    NearestMonotone(FP32, Value(FP32, d), sum, d, c);
    if d < c { ValueMonotone(FP32, d, c); }
    WholeIs(Value(FP32, c), One(), n, Value(FP32, c) - n * One());
  }

  /** From 2^23 to 2^24 every number is whole and the sum is a tie, which goes to the even code. */
  lemma Ties(abs: nat, c: nat, m: nat)
    requires m < 0x80_0000 && abs == 150 * 0x80_0000 + m && IsSum(abs, c)
    ensures HalfAway(abs) == 0x80_0000 + m && Truncated(c) == HalfAway(abs) + m % 2
  {
    hide Pow2, Value, NearestEven, Whole;
    Halves();
    Halve(150);
    NormalValue(150, m);
    if m + 1 < 0x80_0000 { NormalValue(150, m + 1); } else { NormalValue(151, 0); }
    Distribute(0x80_0000 + m, 1, One());
    BetweenCodes(FP32, Value(FP32, abs) + Half(), abs, m % 2 == 1);
    SumIs(abs, c, abs + m % 2);
    WholeIs(Value(FP32, abs) + Half(), One(), 0x80_0000 + m, Half());
    WholeIs(Value(FP32, c), One(), 0x80_0000 + m + m % 2, 0);
  }

  /** From 2^24 on one half is lost in the sum. */
  lemma Whole24(abs: nat, c: nat, e: nat, m: nat)
    requires 151 <= e <= 158 && m < 0x80_0000 && abs == e * 0x80_0000 + m && IsSum(abs, c)
    ensures Truncated(c) == HalfAway(abs)
  {
    hide Pow2, Value, NearestEven, Whole;
    var u, p := Pow2(e - 1), Pow2(e - 150);
    Halves();
    Halve(e);
    Halve(e - 150);
    Pow2Add(e - 150, 149);
    NormalValue(e, m);
    if m + 1 < 0x80_0000 { NormalValue(e, m + 1); } else { NormalValue(e + 1, 0); }
    Distribute(0x80_0000 + m, 1, u);
    TimesMonotone(2, p, One());
    BetweenCodes(FP32, Value(FP32, abs) + Half(), abs, false);
    SumIs(abs, c, abs);
    Associate(0x80_0000 + m, p, One());
    WholeIs(Value(FP32, abs), One(), (0x80_0000 + m) * p, 0);
    WholeIs(Value(FP32, abs) + Half(), One(), (0x80_0000 + m) * p, Half());
  }

  /** Where lroundHalfAwayFast is std::lround: on every magnitude that fits an int32 except the largest number
      under one half, and the odd integers from 2^23 to 2^24, where it answers one more. */
  lemma FastIsHalfAwayExactly(abs: nat, c: nat)
    requires abs < 0x4F00_0000 && IsSum(abs, c)
    ensures Truncated(c) == HalfAway(abs)
            <==> !(abs == 0x3EFF_FFFF || (0x4B00_0000 <= abs < 0x4B80_0000 && abs % 2 == 1))
    ensures HalfAway(abs) <= Truncated(c) <= HalfAway(abs) + 1
  {
    hide IsSum, Truncated, HalfAway;
    var e, m := abs / 0x80_0000, abs % 0x80_0000;
    if abs < 0x3F00_0000 { UnderHalf(abs, c); }
    else if e <= 149 { Middle(abs, c, e, m); }
    else if e == 150 { Ties(abs, c, m); }
    else { Whole24(abs, c, e, m); }
  }

  /** Every magnitude has a sum, and only one: the theorem speaks of every input. */
  lemma SumExists(abs: nat) returns (c: nat)
    ensures IsSum(abs, c) && forall d: nat :: IsSum(abs, d) ==> d == c
  {
    hide Value, NearestEven, Half;
    c := NearestExists(FP32, Value(FP32, abs) + Half());
    forall d: nat | IsSum(abs, d) ensures d == c { SumIs(abs, c, d); }
  }

  /** Two inputs at which the program answers one more: 0x3EFFFFFF, just under one half, gives 1 for 0, and
      0x4B000001, which is 2^23 + 1, gives 2^23 + 2. */
  lemma WhereItFails()
    ensures IsSum(0x3EFF_FFFF, 0x3F80_0000) && Truncated(0x3F80_0000) == 1 && HalfAway(0x3EFF_FFFF) == 0
    ensures HalfAway(0x4B00_0001) == 0x80_0001
    ensures exists c: nat :: IsSum(0x4B00_0001, c) && Truncated(c) == 0x80_0002
  {
    hide IsSum, Truncated, HalfAway;
    var c := SumExists(0x3EFF_FFFF);
    UnderHalf(0x3EFF_FFFF, c);
    var d := SumExists(0x4B00_0001);
    Ties(0x4B00_0001, d, 1);
  }
}
