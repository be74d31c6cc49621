/** The INT8 and INT4 block codecs (include/qtx/quantize/quantizer.hpp) in exact rationals: a block shares the
    scale abs-max / levels and each number is the nearest multiple of it.  The roundings that FP32 makes of the
    scale, of its inverse and of the products are not part of this model. */
module IntBlocks {
  import opened Common
  import N = NibblePacking

  const INT8_LEVELS: nat := 127
  const INT4_LEVELS: nat := 7

  datatype Encoded = Encoded(scale: real, quants: seq<int>)

  function Abs(v: real): real { if v >= 0.0 then v else -v }

  /** lroundHalfAwayFast: truncate v + copysign(0.5, v). */
  function RoundHalfAway(v: real): int { if v >= 0.0 then (v + 0.5).Floor else -((-v + 0.5).Floor) }

  function Clamp(q: int, levels: nat): int {
    if q > levels then levels else if q < -(levels as int) then -(levels as int) else q
  }

  function AbsMax(x: seq<real>): real {
    if x == [] then 0.0
    else if Abs(x[|x| - 1]) > AbsMax(x[..|x| - 1]) then Abs(x[|x| - 1]) else AbsMax(x[..|x| - 1])
  }

  /** clampAbsMaxForINT8 and clampAbsMaxForINT4, and the division by the number of levels. */
  function Scale(max: real, levels: nat, limit: real): real
    requires levels > 0
  {
    (if max > limit then limit else max) / levels as real
  }

  function Quant(v: real, scale: real, levels: nat): int {
    if scale > 0.0 then Clamp(RoundHalfAway(v / scale), levels) else 0
  }

  function Encode(x: seq<real>, levels: nat, limit: real): Encoded
    requires levels > 0
  {
    var scale := Scale(AbsMax(x), levels, limit);
    Encoded(scale, seq(|x|, i requires 0 <= i < |x| => Quant(x[i], scale, levels)))
  }

  /** q steps of the scale */
  function Steps(q: int, scale: real): real { Times(q as real, scale) }

  function Decode(c: Encoded): seq<real> {
    seq(|c.quants|, i requires 0 <= i < |c.quants| => Steps(c.quants[i], c.scale))
  }

  method EncodeBlock(x: seq<real>, levels: nat, limit: real) returns (scale: real, quants: seq<int>)
    requires levels > 0
    ensures Encoded(scale, quants) == Encode(x, levels, limit)
  {
    var max := 0.0;
    for i := 0 to |x|
      invariant max == AbsMax(x[..i])
    {
      assert x[..i + 1][..i] == x[..i];
      var a := Abs(x[i]);
      max := if a > max then a else max;
    }
    assert x[..|x|] == x;
    scale := Scale(max, levels, limit);
    quants := [];
    for i := 0 to |x|
      invariant |quants| == i && forall j :: 0 <= j < i ==> quants[j] == Quant(x[j], scale, levels)
    {
      quants := quants + [Quant(x[i], scale, levels)];
    }
  }

  lemma {:induction false} AbsMaxBounds(x: seq<real>)
    ensures AbsMax(x) >= 0.0 && forall i :: 0 <= i < |x| ==> Abs(x[i]) <= AbsMax(x)
    ensures AbsMax(x) > 0.0 ==> exists i :: 0 <= i < |x| && Abs(x[i]) == AbsMax(x)
  {
    if x != [] {
      var init := x[..|x| - 1];
      AbsMaxBounds(init);
      forall i | 0 <= i < |x| ensures Abs(x[i]) <= AbsMax(x) {
        if i < |x| - 1 { assert init[i] == x[i]; }
      }
      if AbsMax(x) > 0.0 && Abs(x[|x| - 1]) != AbsMax(x) {
        var i :| 0 <= i < |init| && Abs(init[i]) == AbsMax(init);
        assert Abs(x[i]) == AbsMax(x);
      }
    }
  }

  /** Rounding is off by at most a half, and exact on integers. */
  lemma RoundingError(v: real)
    ensures Abs(RoundHalfAway(v) as real - v) <= 0.5
  {
  }

  /** Ties go away from zero, on both sides alike. */
  lemma RoundsHalfAway(v: real, n: nat)
    ensures RoundHalfAway(-v) == -RoundHalfAway(v)
    ensures RoundHalfAway(n as real + 0.5) == n + 1 && RoundHalfAway(-(n as real + 0.5)) == -(n + 1)
  {
    assert (n as real + 0.5 + 0.5).Floor == n + 1;
  }

  lemma RoundInteger(n: int)
    ensures RoundHalfAway(n as real) == n
  {
  }

  /** Within the levels the clamp does nothing. */
  lemma ClampIdle(v: real, levels: nat)
    requires -(levels as real) <= v <= levels as real
    ensures Clamp(RoundHalfAway(v), levels) == RoundHalfAway(v)
  {
  }

  /** Products as an uninterpreted name with the laws the proofs need. */
  function Times(a: real, b: real): real { a * b }

  lemma TimesMonotone(a: real, b: real, w: real)
    ensures a <= b && w >= 0.0 ==> Times(a, w) <= Times(b, w)
    ensures a < b && w > 0.0 ==> Times(a, w) < Times(b, w)
  {
    hide Times;
    ProductSign(b - a, w);
    TimesDifference(b, a, w);
  }

  lemma ProductSign(d: real, w: real)
    ensures d >= 0.0 && w >= 0.0 ==> Times(d, w) >= 0.0
    ensures d > 0.0 && w > 0.0 ==> Times(d, w) > 0.0
  {
  }

  lemma TimesDifference(a: real, b: real, w: real)
    ensures Times(a - b, w) == Times(a, w) - Times(b, w)
  {
  }

  lemma TimesConstants(w: real)
    ensures Times(0.5, w) == w / 2.0 && Times(-0.5, w) == -(w / 2.0) && Times(0.0, w) == 0.0
  {
  }

  lemma TimesNegative(a: real, w: real)
    ensures Times(-a, w) == -Times(a, w)
  {
  }

  lemma TimesQuotient(v: real, w: real)
    requires w != 0.0
    ensures Times(v / w, w) == v
  {
  }

  lemma TimesCommutes(a: real, b: real)
    ensures Times(a, b) == Times(b, a)
  {
  }

  lemma Quotient(v: real, scale: real, top: real)
    requires scale > 0.0 && Abs(v) <= Times(scale, top)
    ensures -top <= v / scale <= top && v == Times(v / scale, scale)
  {
    hide Times;
    var r := v / scale;
    TimesQuotient(v, scale);
    TimesCommutes(scale, top);
    TimesNegative(top, scale);
    TimesMonotone(top, r, scale);
    TimesMonotone(r, -top, scale);
  }

  lemma ScaledError(q: real, r: real, scale: real)
    requires scale > 0.0 && Abs(q - r) <= 0.5
    ensures Abs(Times(q, scale) - Times(r, scale)) <= scale / 2.0
  {
    hide Times;
    TimesDifference(q, r, scale);
    TimesConstants(scale);
    TimesMonotone(q - r, 0.5, scale);
    TimesMonotone(-0.5, q - r, scale);
  }

  /** Dividing by the levels and multiplying again. */
  lemma FullScale(max: real, levels: nat)
    requires levels > 0
    ensures Times(max / levels as real, levels as real) == max
    ensures max > 0.0 ==> max / levels as real > 0.0
    ensures max == 0.0 ==> max / levels as real == 0.0
  {
    var s, n := max / levels as real, levels as real;
    assert s * n == max;
    TimesMonotone(s, 0.0, n);
  }

  /** One number against the scale of a block whose largest magnitude is `max`. */
  lemma NumberError(v: real, max: real, levels: nat)
    requires levels > 0 && Abs(v) <= max
    ensures var scale := max / levels as real; Abs(Steps(Quant(v, scale, levels), scale) - v) <= scale / 2.0
  {
    hide RoundHalfAway, Clamp, Times;
    FullScale(max, levels);
    var scale := max / levels as real;
    TimesConstants(scale);
    if max > 0.0 {
      Quotient(v, scale, levels as real);
      ClampIdle(v / scale, levels);
      RoundingError(v / scale);
      ScaledError(RoundHalfAway(v / scale) as real, v / scale, scale);
    }
  }

  /** Under the clamp limit the scale is a whole fraction of the largest magnitude. */
  lemma DecodedAt(x: seq<real>, levels: nat, limit: real, i: nat)
    requires levels > 0 && i < |x| && AbsMax(x) <= limit
    ensures var scale := AbsMax(x) / levels as real;
            var c := Encode(x, levels, limit);
            c.scale == scale && |Decode(c)| == |x| && c.quants[i] == Quant(x[i], scale, levels)
            && Decode(c)[i] == Steps(Quant(x[i], scale, levels), scale)
  {
    hide AbsMax, Quant, Steps;
  }

  /** Under the clamp limit every number comes back within half a scale step. */
  lemma ErrorBound(x: seq<real>, levels: nat, limit: real, i: nat)
    requires levels > 0 && i < |x| && AbsMax(x) <= limit
    ensures Abs(Decode(Encode(x, levels, limit))[i] - x[i]) <= Encode(x, levels, limit).scale / 2.0
  {
    hide AbsMax, Quant, Steps, Scale;
    AbsMaxBounds(x);
    DecodedAt(x, levels, limit, i);
    NumberError(x[i], AbsMax(x), levels);
  }

  lemma QuantInRange(v: real, scale: real, levels: nat)
    ensures -(levels as int) <= Quant(v, scale, levels) <= levels
  {
    hide RoundHalfAway;
  }

  lemma MultipleOfScale(q: int, scale: real)
    requires scale > 0.0
    ensures Times(q as real, scale) / scale == q as real
  {
  }

  /** A whole number of steps within range is its own quant. */
  lemma QuantOfMultiple(q: int, scale: real, levels: nat)
    requires scale > 0.0 && -(levels as int) <= q <= levels
    ensures Quant(Steps(q, scale), scale, levels) == q
  {
    MultipleOfScale(q, scale);
    RoundInteger(q);
    hide RoundHalfAway;
  }

  /** The peak is a whole number of steps, so it is decoded exactly; nothing is decoded beyond it. */
  lemma NumberInRange(v: real, max: real, levels: nat)
    requires levels > 0 && Abs(v) <= max
    ensures var scale := max / levels as real;
            var y := Steps(Quant(v, scale, levels), scale);
            Abs(y) <= max && (Abs(v) == max ==> y == v)
  {
    hide Quant, RoundHalfAway, Times;
    FullScale(max, levels);
    var scale := max / levels as real;
    var q, top := Quant(v, scale, levels), levels as real;
    QuantInRange(v, scale, levels);
    TimesMonotone(q as real, top, scale);
    TimesMonotone(-top, q as real, scale);
    TimesCommutes(scale, top);
    TimesNegative(top, scale);
    TimesConstants(scale);
    if Abs(v) == max && max > 0.0 {
      var n: int := if v >= 0.0 then levels else -(levels as int);
      assert Steps(n, scale) == v;
      QuantOfMultiple(n, scale, levels);
    }
  }

  lemma SameMax(x: seq<real>, levels: nat, limit: real)
    requires levels > 0 && AbsMax(x) <= limit
    ensures AbsMax(Decode(Encode(x, levels, limit))) == AbsMax(x)
  {
    hide AbsMax, Quant, Steps, Scale;
    var max, y := AbsMax(x), Decode(Encode(x, levels, limit));
    AbsMaxBounds(x);
    AbsMaxBounds(y);
    forall i | 0 <= i < |x| ensures Abs(y[i]) <= max && (Abs(x[i]) == max ==> y[i] == x[i]) {
      DecodedAt(x, levels, limit, i);
      NumberInRange(x[i], max, levels);
    }
    if max > 0.0 {
      var i :| 0 <= i < |x| && Abs(x[i]) == max;
      assert Abs(y[i]) == max;
    }
  }

  /** Encoding a decoded block gives the same scale and the same quants. */
  lemma Reencodes(x: seq<real>, levels: nat, limit: real)
    requires levels > 0 && AbsMax(x) <= limit
    ensures Encode(Decode(Encode(x, levels, limit)), levels, limit) == Encode(x, levels, limit)
  {
    hide AbsMax, Quant, Steps, Scale;
    var c := Encode(x, levels, limit);
    var y := Decode(c);
    SameMax(x, levels, limit);
    forall i | 0 <= i < |x| ensures Quant(y[i], c.scale, levels) == c.quants[i] {
      DecodedAt(x, levels, limit, i);
      QuantInRange(x[i], c.scale, levels);
      if c.scale > 0.0 { QuantOfMultiple(c.quants[i], c.scale, levels); } else { NoScale(y[i], x[i], c.scale, levels); }
    }
  }

  lemma NoScale(v: real, w: real, scale: real, levels: nat)
    requires scale <= 0.0
    ensures Quant(v, scale, levels) == Quant(w, scale, levels) == 0
  {
  }

  /** Under the clamp limit the numbers of largest magnitude take the outermost level of their sign. */
  lemma LargestIsOutermost(x: seq<real>, levels: nat, limit: real, i: nat)
    requires levels > 0 && i < |x| && 0.0 < AbsMax(x) <= limit && Abs(x[i]) == AbsMax(x)
    ensures Encode(x, levels, limit).quants[i] == if x[i] > 0.0 then levels else -(levels as int)
  {
    hide AbsMax, RoundHalfAway;
    var max, n := AbsMax(x), levels as real;
    var s := max / n;
    OutermostQuotient(max, n);
    RoundInteger(levels);
    RoundInteger(-(levels as int));
    assert (-(levels as int)) as real == -n;
    if x[i] > 0.0 { assert x[i] == max; } else { assert x[i] == -max && x[i] / s == -(max / s); }
  }

  lemma OutermostQuotient(max: real, n: real)
    requires max > 0.0 && n > 0.0
    ensures max / n > 0.0 && max / (max / n) == n
  {
    var s := max / n;
    assert s * n == max;
    assert s > 0.0;
  }

  /** Over the clamp limit the limit takes the place of the largest magnitude: numbers up to it come back within half a
      step, and those beyond it take the outermost level of their sign. */
  lemma ClampedBlock(x: seq<real>, levels: nat, limit: real, i: nat)
    requires levels > 0 && i < |x| && 0.0 < limit < AbsMax(x)
    ensures var c := Encode(x, levels, limit);
            && c.scale == limit / levels as real && |Decode(c)| == |x|
            && (Abs(x[i]) <= limit ==> Abs(Decode(c)[i] - x[i]) <= c.scale / 2.0)
            && (Abs(x[i]) >= limit ==> c.quants[i] == if x[i] > 0.0 then levels else -(levels as int))
  {
    hide AbsMax, RoundHalfAway, Clamp, Steps;
    if Abs(x[i]) <= limit { NumberError(x[i], limit, levels); }
    if Abs(x[i]) >= limit { BeyondIsOutermost(x[i], limit, levels); }
  }

  lemma BeyondIsOutermost(v: real, limit: real, levels: nat)
    requires levels > 0 && limit > 0.0 && Abs(v) >= limit
    ensures Quant(v, limit / levels as real, levels) == if v > 0.0 then levels else -(levels as int)
  {
    var n := levels as real;
    var s := limit / n;
    OutermostQuotient(limit, n);
    QuotientBeyond(v, limit, s, n);
  }

  lemma QuotientBeyond(v: real, limit: real, s: real, n: real)
    requires s > 0.0 && limit / s == n && Abs(v) >= limit
    ensures v > 0.0 ==> v / s >= n
    ensures v <= 0.0 ==> v / s <= -n
  {
    assert limit == n * s;
    if v > 0.0 { assert v == (v / s) * s; if v / s < n { TimesMonotone(v / s, n, s); } }
    else { assert v == (v / s) * s; if v / s > -n { TimesMonotone(-n, v / s, s); } }
  }

  /** They are stored as 127 or -127 in INT8 and as 7 or -7 in INT4. */
  lemma LargestStored(x: seq<real>, limit: real, i: nat)
    requires i < |x| && 0.0 < AbsMax(x) <= limit && Abs(x[i]) == AbsMax(x)
    ensures Encode(x, INT8_LEVELS, limit).quants[i] == if x[i] > 0.0 then 127 else -127
    ensures Encode(x, INT4_LEVELS, limit).quants[i] == if x[i] > 0.0 then 7 else -7
  {
    hide AbsMax, Quant, Scale;
    LargestIsOutermost(x, INT8_LEVELS, limit, i);
    LargestIsOutermost(x, INT4_LEVELS, limit, i);
  }

  /* ---- how the quants are stored ---- */

  /** static_cast<u8>: two's complement in a byte, and back. */
  function ToByte(q: int): bv8
    requires -128 <= q < 128
  {
    (if q < 0 then q + 256 else q) as bv8
  }

  function FromByte(b: bv8): int { if b < 0x80 then b as int else b as int - 256 }

  function ToBytes(quants: seq<int>): (r: Bytes)
    requires forall i :: 0 <= i < |quants| ==> -128 <= quants[i] < 128
    ensures |r| == |quants|
  {
    seq(|quants|, i requires 0 <= i < |quants| => ToByte(quants[i]))
  }

  function FromBytes(bytes: Bytes): seq<int> { seq(|bytes|, i requires 0 <= i < |bytes| => FromByte(bytes[i])) }

  /** An INT8 block survives storage in bytes: the decoder reads the encoder's quants. */
  lemma Int8BlockStored(x: seq<real>, limit: real)
    ensures var c := Encode(x, INT8_LEVELS, limit);
            (forall i :: 0 <= i < |x| ==> -128 <= c.quants[i] < 128) && FromBytes(ToBytes(c.quants)) == c.quants
            && (forall i :: 0 <= i < |x| ==> ToBytes(c.quants)[i] as int == c.quants[i] % 256)
  {
    hide AbsMax, Quant, Scale, FromByte, ToByte;
    var c := Encode(x, INT8_LEVELS, limit);
    forall i | 0 <= i < |x| ensures -127 <= c.quants[i] <= 127 { QuantInRange(x[i], c.scale, INT8_LEVELS); }
    forall i | 0 <= i < |x| ensures FromByte(ToByte(c.quants[i])) == c.quants[i] && ToByte(c.quants[i]) as int == c.quants[i] % 256 {
      ByteRoundTrip(c.quants[i]);
      ByteIsResidue(c.quants[i]);
    }
  }

  /** So does an INT4 block in sixteen bytes of nibbles. */
  lemma Int4BlockStored(x: seq<real>, limit: real)
    requires |x| == 32
    ensures var c := Encode(x, INT4_LEVELS, limit);
            (forall i :: 0 <= i < |x| ==> -128 <= c.quants[i] < 128)
            && FromBytes(N.UnpackAll(N.PackAll(ToBytes(c.quants)))) == c.quants
            && (forall k {:trigger N.PackAll(ToBytes(c.quants))[k]} :: 0 <= k < 16 ==>
                  N.PackAll(ToBytes(c.quants))[k] as int == c.quants[2 * k] % 16 + 16 * (c.quants[2 * k + 1] % 16))
  {
    hide AbsMax, Quant, Scale, FromByte, ToByte, N.UnpackAll, N.PackAll, N.SignedNibble;
    var c := Encode(x, INT4_LEVELS, limit);
    forall i | 0 <= i < |x| ensures -7 <= c.quants[i] <= 7 { QuantInRange(x[i], c.scale, INT4_LEVELS); }
    var q := ToBytes(c.quants);
    forall i | 0 <= i < |x| ensures FromByte(q[i]) == c.quants[i] && N.SignedNibble(q[i]) { ByteRoundTrip(c.quants[i]); }
    N.BlockRoundTrip(q, Zeros(16));
    forall k {:trigger N.PackAll(q)[k]} | 0 <= k < 16
      ensures N.PackAll(q)[k] as int == c.quants[2 * k] % 16 + 16 * (c.quants[2 * k + 1] % 16)
    {
      PackedPair(q, k, c.quants[2 * k], c.quants[2 * k + 1]);
    }
  }

  lemma ByteIsResidue(q: int)
    requires -128 <= q < 128
    ensures ToByte(q) as int == q % 256
  {
    var n := if q < 0 then q + 256 else q;
    assert (n as bv8) as int == n;
  }

  /** Byte k of a packed block: the residues of its two quants modulo 16, the even one low. */
  lemma PackedPair(q: Bytes, k: nat, lo: int, hi: int)
    requires |q| == 32 && k < 16 && -7 <= lo <= 7 && -7 <= hi <= 7 && q[2 * k] == ToByte(lo) && q[2 * k + 1] == ToByte(hi)
    ensures N.PackAll(q)[k] as int == lo % 16 + 16 * (hi % 16)
  {
    hide N.Pack, ToByte;
    LowNibble(lo);
    LowNibble(hi);
    PackValue(ToByte(lo), ToByte(hi));
    assert N.PackAll(q)[k] == N.Pack(q[2 * k], q[2 * k + 1]);
  }

  lemma LowNibble(q: int)
    requires -7 <= q <= 7
    ensures (ToByte(q) & 0x0F) as int == q % 16
  {
    if q == -7 {} else if q == -6 {} else if q == -5 {} else if q == -4 {} else if q == -3 {} else if q == -2 {} else if q == -1 {}
    else if q == 0 {} else if q == 1 {} else if q == 2 {} else if q == 3 {} else if q == 4 {} else if q == 5 {} else if q == 6 {} else {}
  }

  lemma PackValue(x: bv8, y: bv8)
    ensures N.Pack(x, y) as int == (x & 0x0F) as int + 16 * ((y & 0x0F) as int)
  {
    NibblesAdd(x & 0x0F, y & 0x0F);
  }

  lemma NibblesAdd(a: bv8, b: bv8)
    requires a < 16 && b < 16
    ensures (a | (b << 4)) as int == a as int + 16 * (b as int)
  {
    assert a | (b << 4) == a + 16 * b;
  }

  lemma ByteRoundTrip(q: int)
    requires -128 <= q < 128
    ensures FromByte(ToByte(q)) == q && (-7 <= q <= 7 ==> N.SignedNibble(ToByte(q)))
  {
    hide FromByte, ToByte, N.SignedNibble;
    ByteReadBack(q);
    if -7 <= q <= 7 { NibbleByte(q); }
  }

  lemma ByteReadBack(q: int)
    requires -128 <= q < 128
    ensures FromByte(ToByte(q)) == q
  {
    var n := if q < 0 then q + 256 else q;
    assert (n as bv8) as int == n;
  }

  lemma NibbleByte(q: int)
    requires -7 <= q <= 7
    ensures N.SignedNibble(ToByte(q))
  {
    if q == -7 {} else if q == -6 {} else if q == -5 {} else if q == -4 {} else if q == -3 {} else if q == -2 {} else if q == -1 {}
    else if q == 0 {} else if q == 1 {} else if q == 2 {} else if q == 3 {} else if q == 4 {} else if q == 5 {} else if q == 6 {} else {}
  }
}
