/** The FP16, E4M3, E5M2 and BF16 decoders (include/qtx/core/fpe_guard.hpp), with their loops that normalise a
    subnormal, and the element-wise stream codecs (include/qtx/quantize/quantizer.hpp). */
module FloatDecoders {
  import opened Arithmetic
  import opened BitWords
  import opened FloatFormats
  import opened FloatEncoders
  import opened FloatRounding

  /** How often m must be doubled to reach `top`. */
  function Shifts(m: nat, top: nat): nat
    requires m > 0
    decreases top - m
  {
    if m >= top then 0 else 1 + Shifts(2 * m, top)
  }

  /** A non-zero subnormal mantissa as an FP32 magnitude: the leading one moves up to `top` and is dropped. */
  function Normalised(m: nat, top: nat, exponent: int, step: nat): int
    requires m > 0
  {
    var k := Shifts(m, top);
    (exponent - k) * 0x80_0000 + (m * Pow2(k) - top) * step
  }

  function SignField(h: nat, signBit: nat): nat requires signBit > 0 { h / signBit }
  function ExpField(h: nat, one: nat, count: nat): nat requires one > 0 && count > 0 { h / one % count }
  function MantField(h: nat, one: nat): nat requires one > 0 { h % one }

  function FromFP16(h: nat): int {
    var sign, exp, mant := SignField(h, 0x8000) * 0x8000_0000, ExpField(h, 0x400, 0x20), MantField(h, 0x400);
    if exp == 0 then sign + if mant == 0 then 0 else Normalised(mant, 0x400, 113, 0x2000)
    else if exp == 0x1F then sign + INF + mant * 0x2000
    else sign + (exp + 112) * 0x80_0000 + mant * 0x2000
  }

  function FromE4M3(h: nat): int {
    var sign, exp, mant := SignField(h, 0x80) * 0x8000_0000, ExpField(h, 8, 0x10), MantField(h, 8);
    if exp == 0 then sign + if mant == 0 then 0 else Normalised(mant, 4, 120, 0x20_0000)
    else if exp == 0xF && mant == 7 then sign + 0x7FC0_0000
    else sign + (exp + 120) * 0x80_0000 + mant * 0x10_0000
  }

  function FromE5M2(h: nat): int {
    var sign, exp, mant := SignField(h, 0x80) * 0x8000_0000, ExpField(h, 4, 0x20), MantField(h, 4);
    if exp == 0 then sign + if mant == 0 then 0 else Normalised(mant, 2, 112, 0x40_0000)
    else if exp == 0x1F then sign + INF + mant * 0x20_0000
    else sign + (exp + 112) * 0x80_0000 + mant * 0x20_0000
  }

  function FromBF16(h: nat): int { h * 0x1_0000 }

  /** The normalisation loop: shift left until the bit worth `top` is set. */
  method Normalise(mant: nat, top: nat) returns (m: nat, e: nat)
    requires 0 < mant < 2 * top
    ensures e == 1 + Shifts(mant, top) && m == mant * Pow2(e - 1) && top <= m < 2 * top
  {
    m, e := mant, 1;
    while m < top
      invariant 0 < m < 2 * top && e >= 1 && m == mant * Pow2(e - 1)
      invariant Shifts(mant, top) == e - 1 + Shifts(m, top)
      decreases top - m
    {
      m := 2 * m;
      e := e + 1;
      assert mant * (2 * Pow2(e - 2)) == 2 * (mant * Pow2(e - 2));
    }
  }

  method DecodeFP16(h: nat) returns (bits: int)
    requires h < 0x1_0000
    ensures bits == FromFP16(h)
  {
    var sign, exp, mant := SignField(h, 0x8000) * 0x8000_0000, ExpField(h, 0x400, 0x20), MantField(h, 0x400);
    if exp == 0 {
      if mant == 0 { return sign; }
      var m, e := Normalise(mant, 0x400);
      return sign + (114 - e) * 0x80_0000 + (m - 0x400) * 0x2000;
    }
    if exp == 0x1F {
      if mant == 0 { return sign + INF; }
      return sign + INF + mant * 0x2000;
    }
    return sign + (exp + 112) * 0x80_0000 + mant * 0x2000;
  }

  method DecodeE4M3(h: nat) returns (bits: int)
    requires h < 0x100
    ensures bits == FromE4M3(h)
  {
    var sign, exp, mant := SignField(h, 0x80) * 0x8000_0000, ExpField(h, 8, 0x10), MantField(h, 8);
    if exp == 0 {
      if mant == 0 { return sign; }
      var m, e := Normalise(mant, 4);
      return sign + (121 - e) * 0x80_0000 + (m - 4) * 0x20_0000;
    }
    if exp == 0xF && mant == 7 { return sign + 0x7FC0_0000; }
    return sign + (exp + 120) * 0x80_0000 + mant * 0x10_0000;
  }

  method DecodeE5M2(h: nat) returns (bits: int)
    requires h < 0x100
    ensures bits == FromE5M2(h)
  {
    var sign, exp, mant := SignField(h, 0x80) * 0x8000_0000, ExpField(h, 4, 0x20), MantField(h, 4);
    if exp == 0 {
      if mant == 0 { return sign; }
      var m, e := Normalise(mant, 2);
      return sign + (113 - e) * 0x80_0000 + (m - 2) * 0x40_0000;
    }
    if exp == 0x1F {
      if mant == 0 { return sign + INF; }
      return sign + INF + mant * 0x20_0000;
    }
    return sign + (exp + 112) * 0x80_0000 + mant * 0x20_0000;
  }

  /* ---- decoding is exact ---- */

  lemma {:induction false} ShiftsReach(m: nat, top: nat)
    requires 0 < m < 2 * top
    ensures top <= m * Pow2(Shifts(m, top)) < 2 * top
    decreases top - m
  {
    if m < top {
      ShiftsReach(2 * m, top);
      var p := Pow2(Shifts(2 * m, top));
      assert 2 * m * p == m * (2 * p);
    }
  }

  lemma {:induction false} ShiftsBound(m: nat, top: nat, n: nat)
    requires m > 0 && top <= Pow2(n) * m
    ensures Shifts(m, top) <= n
    decreases n
  {
    if m < top {
      if n > 0 {
        assert Pow2(n) * m == Pow2(n - 1) * (2 * m);
        ShiftsBound(2 * m, top, n - 1);
      }
    }
  }

  /** The normalised FP32 number has the subnormal's value. */
  lemma NormalisedIsExact(f: Format, m: nat, top: nat, exponent: nat, s: nat, step: nat)
    requires Known(f) && 0 < m < f.one && m < 2 * top && top <= 0x400
    requires step == Pow2(s) && top * step == 0x80_0000 && 100 <= exponent < 200 && exponent - 1 + s == f.unit
    ensures 0 < Normalised(m, top, exponent, step) < INF
    ensures Value(FP32, Normalised(m, top, exponent, step)) == Value(f, m)
  {
    hide Pow2, Value, Gap;
    var k := Shifts(m, top);
    ShiftsReach(m, top);
    Powers();
    TimesMonotone(1, m, Pow2(10));
    ShiftsBound(m, top, 10);
    SmallCode(f, m);
    Pow2Add(k, exponent - k - 1);
    Pow2Add(s, exponent - 1);
    ScaledValue(m, top, Pow2(k), step, exponent - k, Pow2(exponent - 1), Pow2(f.unit));
  }

  lemma ScaledValue(m: nat, top: nat, p: nat, step: nat, e: nat, w: nat, u: nat)
    requires top <= m * p < 2 * top && top * step == 0x80_0000 && 1 <= e < 200
    requires p * Pow2(e - 1) == w && step * w == u
    ensures var x := e * 0x80_0000 + (m * p - top) * step;
            0 < x < INF && Value(FP32, x) == m * u
  {
    hide Pow2, Value;
    var x := m * p - top;
    Distribute(x, top, step);
    TimesMonotone(x, top, step);
    QuotientIs(e * 0x80_0000 + x * step, 0x80_0000, e, x * step);
    FP32Value(e * 0x80_0000 + x * step);
    Rearrange(m, p, step, Pow2(e - 1), w, u);
  }

  lemma Rearrange(m: nat, p: nat, step: nat, q: nat, w: nat, u: nat)
    requires p * q == w && step * w == u
    ensures m * p * step * q == m * u
  {
    Associate(m, p, step);
    assert p * step == step * p;
    Associate(m, step * p, q);
    Associate(step, p, q);
  }

  lemma NormalIsExact(f: Format, s: nat, step: nat, e: nat, m: nat)
    requires Known(f) && step == Pow2(s) && f.one * step == 0x80_0000 && f.unit >= s && m < f.one
    requires e >= 1 && e + (f.unit - s) < 0xFF
    ensures var x := (e + (f.unit - s)) * 0x80_0000 + m * step;
            x < INF && Value(FP32, x) == Value(f, e * f.one + m)
  {
    hide Pow2, Value, Gap;
    TimesMonotone(m, f.one - 1, step);
    var x := (e + (f.unit - s)) * 0x80_0000 + m * step;
    QuotientIs(x, 0x80_0000, e + (f.unit - s), m * step);
    var w := NormalCode(f, s, x, e, m, 0);
  }

  lemma FP16Fields(h: nat)
    requires h < 0x8000
    ensures SignField(h, 0x8000) == 0 && MantField(h, 0x400) == h % 0x400 && ExpField(h, 0x400, 0x20) == h / 0x400
    ensures ExpField(h + 0x8000, 0x400, 0x20) == ExpField(h, 0x400, 0x20)
    ensures MantField(h + 0x8000, 0x400) == MantField(h, 0x400) && SignField(h + 0x8000, 0x8000) == 1
  {
  }

  lemma FP16IsExact(h: nat)
    requires h <= FP16.maxCode
    ensures 0 <= FromFP16(h) < INF && Value(FP32, FromFP16(h)) == Value(FP16, h)
  {
    hide Pow2, Value, Gap, Normalised, SignField, ExpField, MantField;
    Powers();
    FP16Fields(h);
    var e, m := h / 0x400, h % 0x400;
    if e == 0 {
      SmallCode(FP16, h);
      if m == 0 { FP32Value(0); } else { NormalisedIsExact(FP16, m, 0x400, 113, 13, 0x2000); }
    } else {
      NormalIsExact(FP16, 13, 0x2000, e, m);
    }
  }

  lemma E4M3Fields(h: nat)
    requires h < 0x80
    ensures SignField(h, 0x80) == 0 && MantField(h, 8) == h % 8 && ExpField(h, 8, 0x10) == h / 8
    ensures ExpField(h + 0x80, 8, 0x10) == ExpField(h, 8, 0x10)
    ensures MantField(h + 0x80, 8) == MantField(h, 8) && SignField(h + 0x80, 0x80) == 1
  {
  }

  lemma E4M3IsExact(h: nat)
    requires h <= E4M3.maxCode
    ensures 0 <= FromE4M3(h) < INF && Value(FP32, FromE4M3(h)) == Value(E4M3, h)
  {
    hide Pow2, Value, Gap, Normalised, SignField, ExpField, MantField;
    Powers();
    E4M3Fields(h);
    var e, m := h / 8, h % 8;
    if e == 0 {
      SmallCode(E4M3, h);
      if m == 0 { FP32Value(0); } else { NormalisedIsExact(E4M3, m, 4, 120, 21, 0x20_0000); }
    } else {
      NormalIsExact(E4M3, 20, 0x10_0000, e, m);
    }
  }

  lemma E5M2Fields(h: nat)
    requires h < 0x80
    ensures SignField(h, 0x80) == 0 && MantField(h, 4) == h % 4 && ExpField(h, 4, 0x20) == h / 4
    ensures ExpField(h + 0x80, 4, 0x20) == ExpField(h, 4, 0x20)
    ensures MantField(h + 0x80, 4) == MantField(h, 4) && SignField(h + 0x80, 0x80) == 1
  {
  }

  lemma E5M2IsExact(h: nat)
    requires h <= E5M2.maxCode
    ensures 0 <= FromE5M2(h) < INF && Value(FP32, FromE5M2(h)) == Value(E5M2, h)
  {
    hide Pow2, Value, Gap, Normalised, SignField, ExpField, MantField;
    Powers();
    E5M2Fields(h);
    var e, m := h / 4, h % 4;
    if e == 0 {
      SmallCode(E5M2, h);
      if m == 0 { FP32Value(0); } else { NormalisedIsExact(E5M2, m, 2, 112, 22, 0x40_0000); }
    } else {
      NormalIsExact(E5M2, 21, 0x20_0000, e, m);
    }
  }

  lemma BF16IsExact(h: nat)
    requires h <= BF16.maxCode
    ensures 0 <= FromBF16(h) < INF && Value(FP32, FromBF16(h)) == Value(BF16, h)
  {
    hide Pow2, Value, Gap;
    Powers();
    var e, m := h / 0x80, h % 0x80;
    if e == 0 {
      SmallCode(BF16, h);
      FP32Value(h * 0x1_0000);
    } else {
      NormalIsExact(BF16, 16, 0x1_0000, e, m);
    }
  }

  /* ---- decode, then encode ---- */

  datatype Narrow = AsBF16 | AsFP16 | AsE4M3 | AsE5M2

  function FormatOf(n: Narrow): Format {
    match n case AsBF16 => BF16 case AsFP16 => FP16 case AsE4M3 => E4M3 case AsE5M2 => E5M2
  }

  function SignBit(n: Narrow): nat { if n.AsBF16? || n.AsFP16? then 0x8000 else 0x80 }

  function Encode(n: Narrow, bits: nat): nat
    requires bits < WORD
  {
    match n case AsBF16 => ToBF16(bits) case AsFP16 => ToFP16(bits) case AsE4M3 => ToE4M3(bits) case AsE5M2 => ToE5M2(bits)
  }

  function Decode(n: Narrow, h: nat): int {
    match n case AsBF16 => FromBF16(h) case AsFP16 => FromFP16(h) case AsE4M3 => FromE4M3(h) case AsE5M2 => FromE5M2(h)
  }

  /** E4M3 has no infinity: the code above its largest finite one is its NaN. */
  predicate IsNan(n: Narrow, h: nat) {
    var c := h % SignBit(n);
    if n.AsE4M3? then c > E4M3.maxCode else c > FormatOf(n).maxCode + 1
  }

  lemma DecodeNegative(n: Narrow, c: nat)
    requires c < SignBit(n)
    ensures Decode(n, c + SignBit(n)) == 0x8000_0000 + Decode(n, c)
  {
    hide Normalised, SignField, ExpField, MantField;
    match n
    case AsBF16 =>
    case AsFP16 => FP16Fields(c);
    case AsE4M3 => E4M3Fields(c);
    case AsE5M2 => E5M2Fields(c);
  }

  lemma DecodeSign(n: Narrow, h: nat)
    requires h < 2 * SignBit(n)
    ensures h % SignBit(n) < SignBit(n) && Decode(n, h) == h / SignBit(n) * 0x8000_0000 + Decode(n, h % SignBit(n))
    ensures h == h / SignBit(n) * SignBit(n) + h % SignBit(n) && h / SignBit(n) <= 1
  {
    hide Decode;
    var c := h % SignBit(n);
    if h >= SignBit(n) {
      DecodeNegative(n, c);
    }
  }

  lemma DecodeIsExact(n: Narrow, c: nat)
    requires c <= FormatOf(n).maxCode
    ensures 0 <= Decode(n, c) < INF && Value(FP32, Decode(n, c)) == Value(FormatOf(n), c)
  {
    hide Value, FromBF16, FromFP16, FromE4M3, FromE5M2;
    match n
    case AsBF16 => BF16IsExact(c);
    case AsFP16 => FP16IsExact(c);
    case AsE4M3 => E4M3IsExact(c);
    case AsE5M2 => E5M2IsExact(c);
  }

  lemma EncodeIsNearest(n: Narrow, abs: nat)
    requires abs < INF && !(n.AsFP16? && RoundsAwayFromZero(abs))
    ensures NearestEven(FormatOf(n), Value(FP32, abs), Encode(n, abs))
  {
    hide Value, NearestEven, ToBF16, ToFP16, ToE4M3, ToE5M2;
    match n
    case AsBF16 => BF16IsNearest(abs);
    case AsFP16 => FP16IsNearest(abs);
    case AsE4M3 => E4M3IsNearest(abs);
    case AsE5M2 => E5M2IsNearest(abs);
  }

  /** No FP16 value lies in the interval where the FP16 encoder errs. */
  lemma DecodedIsSafe(c: nat)
    requires c <= FP16.maxCode
    ensures 0 <= FromFP16(c) < INF && !RoundsAwayFromZero(FromFP16(c))
  {
    hide Value, FromFP16, NearestEven;
    FP16IsExact(c);
    var abs := FromFP16(c);
    if RoundsAwayFromZero(abs) {
      FP16IsOffByOne(abs);
      ExactIsNearest(FP16, c);
      NearestUnique(FP16, Value(FP16, c), c, 0);
      SmallCode(FP16, 0);
      FP32Value(0);
      ValueMonotone(FP32, 0, abs);
    }
  }

  /** Infinities pass through. */
  lemma DecodeEncodeInfinity(n: Narrow)
    requires !n.AsE4M3?
    ensures Decode(n, FormatOf(n).maxCode + 1) == INF && Encode(n, INF) == FormatOf(n).maxCode + 1
  {
    hide Normalised, RoundsUp, Shr, Low, Pow2, Value;
    match n
    case AsBF16 => assert ToBF16(INF) == 0x7F80;
    case AsFP16 => assert FromFP16(0x7C00) == INF; assert ToFP16(INF) == 0x7C00;
    case AsE5M2 => assert FromE5M2(0x7C) == INF; assert ToE5M2(INF) == 0x7C;
  }

  lemma EncodeSign(n: Narrow, sign: nat, abs: nat)
    requires sign <= 1 && abs < 0x8000_0000
    ensures Encode(n, sign * 0x8000_0000 + abs) == sign * SignBit(n) + Encode(n, abs)
  {
    hide ToBF16, ToFP16, ToE4M3, ToE5M2, Sign, Abs;
    Joined(sign, abs);
    SignsApart(sign * 0x8000_0000 + abs);
  }

  lemma Joined(sign: nat, abs: nat)
    requires sign <= 1 && abs < 0x8000_0000
    ensures Sign(sign * 0x8000_0000 + abs) == sign && Abs(sign * 0x8000_0000 + abs) == abs
  {
  }

  /** Every code of every format that is not a NaN survives decoding and encoding. */
  lemma DecodeEncode(n: Narrow, h: nat)
    requires h < 2 * SignBit(n) && !IsNan(n, h)
    ensures 0 <= Decode(n, h) < WORD && Encode(n, Decode(n, h)) == h
  {
    hide Value, NearestEven, Decode, Encode;
    var f, c := FormatOf(n), h % SignBit(n);
    DecodeSign(n, h);
    if c > f.maxCode {
      DecodeEncodeInfinity(n);
      EncodeSign(n, h / SignBit(n), INF);
    } else {
      DecodeIsExact(n, c);
      var abs := Decode(n, c);
      EncodeSign(n, h / SignBit(n), abs);
      if n.AsFP16? { DecodeFP16Is(c); DecodedIsSafe(c); }
      EncodeIsNearest(n, abs);
      ExactIsNearest(f, c);
      NearestUnique(f, Value(f, c), c, Encode(n, abs));
    }
  }

  lemma DecodeFP16Is(c: nat)
    ensures Decode(AsFP16, c) == FromFP16(c)
  {
  }

  /** Every code decodes to an FP32 pattern; NaN codes to FP32 NaNs of the same sign. */
  lemma DecodeInRange(n: Narrow, h: nat)
    requires h < 2 * SignBit(n)
    ensures 0 <= Decode(n, h) < WORD
    ensures IsNan(n, h) ==> Abs(Decode(n, h)) > INF && Sign(Decode(n, h)) == h / SignBit(n)
  {
    hide Decode, Sign, Abs;
    if IsNan(n, h) {
      DecodeSign(n, h);
      DecodeNan(n, h % SignBit(n));
      Joined(h / SignBit(n), Decode(n, h % SignBit(n)));
    } else {
      DecodeEncode(n, h);
    }
  }

  lemma DecodeNan(n: Narrow, c: nat)
    requires c < SignBit(n) && IsNan(n, c)
    ensures INF < Decode(n, c) < 0x8000_0000
  {
    hide FromFP16, FromE4M3, FromE5M2;
    match n
    case AsBF16 =>
    case AsFP16 => FP16Nan(c);
    case AsE4M3 => assert FromE4M3(0x7F) == 0x7FC0_0000 by { E4M3Nan(); }
    case AsE5M2 => E5M2Nan(c);
  }

  lemma FP16Nan(c: nat)
    requires 0x7C00 < c < 0x8000
    ensures FromFP16(c) == INF + (c - 0x7C00) * 0x2000
  {
    hide Normalised, SignField, ExpField, MantField;
    FP16Fields(c);
  }

  lemma E4M3Nan()
    ensures FromE4M3(0x7F) == 0x7FC0_0000
  {
    hide Normalised, SignField, ExpField, MantField;
    E4M3Fields(0x7F);
  }

  lemma E5M2Nan(c: nat)
    requires 0x7C < c < 0x80
    ensures FromE5M2(c) == INF + (c - 0x7C) * 0x20_0000
  {
    hide Normalised, SignField, ExpField, MantField;
    E5M2Fields(c);
  }

  /* ---- streams ---- */

  function EncodeAll(n: Narrow, words: seq<nat>): seq<nat>
    requires forall i :: 0 <= i < |words| ==> words[i] < WORD
  {
    seq(|words|, i requires 0 <= i < |words| => Encode(n, words[i]))
  }

  ghost predicate NanFree(n: Narrow, codes: seq<nat>) {
    forall i :: 0 <= i < |codes| ==> codes[i] < 2 * SignBit(n) && !IsNan(n, codes[i])
  }

  /** A stream of codes of any length, decoded into `words`, encodes back to itself. */
  lemma StreamRoundTrip(n: Narrow, codes: seq<nat>, words: seq<nat>)
    requires NanFree(n, codes) && |words| == |codes|
    requires forall i :: 0 <= i < |codes| ==> words[i] == Decode(n, codes[i])
    ensures (forall i :: 0 <= i < |words| ==> words[i] < WORD) && EncodeAll(n, words) == codes
  {
    hide Encode, Decode, IsNan;
    forall i | 0 <= i < |words| ensures words[i] < WORD && Encode(n, words[i]) == codes[i] { DecodeEncode(n, codes[i]); }
  }

  /** The compression loop over elements. */
  method CompressStream(n: Narrow, input: array<nat>, output: array<nat>)
    requires input != output && input.Length <= output.Length
    requires forall i :: 0 <= i < input.Length ==> input[i] < WORD
    modifies output
    ensures output[..input.Length] == EncodeAll(n, input[..])
    ensures output[input.Length..] == old(output[input.Length..])
  {
    for i := 0 to input.Length
      invariant forall j :: 0 <= j < i ==> output[j] == Encode(n, input[j])
      invariant output[input.Length..] == old(output[input.Length..])
    {
      output[i] := Encode(n, input[i]);
    }
  }

  /** The decompression loop; without NaNs the result encodes back to the input. */
  method DecompressStream(n: Narrow, input: array<nat>, output: array<nat>)
    requires input != output && input.Length == output.Length
    requires forall i :: 0 <= i < input.Length ==> input[i] < 2 * SignBit(n)
    modifies output
    ensures forall i :: 0 <= i < input.Length ==> output[i] == Decode(n, input[i]) && output[i] < WORD
    ensures NanFree(n, input[..]) ==> EncodeAll(n, output[..]) == input[..]
  {
    hide Encode, IsNan;
    for i := 0 to input.Length
      invariant forall j :: 0 <= j < i ==> output[j] == Decode(n, input[j]) && output[j] < WORD
    {
      var h := input[i];
      DecodeInRange(n, h);
      match n
      case AsBF16 => output[i] := h * 0x1_0000;
      case AsFP16 => output[i] := DecodeFP16(h);
      case AsE4M3 => output[i] := DecodeE4M3(h);
      case AsE5M2 => output[i] := DecodeE5M2(h);
    }
    if NanFree(n, input[..]) { StreamRoundTrip(n, input[..], output[..]); }
  }
}
