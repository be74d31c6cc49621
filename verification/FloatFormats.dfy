/** Binary floating-point formats as integers: a magnitude code of a format is an exponent field over a
    mantissa field, and its value is counted in units of 2^-149, the least subnormal of FP32, so that every
    finite value of every format here is a natural number. */
module FloatFormats {
  import opened Arithmetic
  import opened BitWords

  /** `one` is 2 to the number of mantissa bits, `unit` the exponent of the format's least subnormal over
      2^-149, `maxCode` its largest finite magnitude code. */
  datatype Format = Format(one: nat, unit: nat, maxCode: nat)

  const FP32: Format := Format(0x80_0000, 0, 0x7F7F_FFFF)
  const BF16: Format := Format(0x80, 16, 0x7F7F)
  const FP16: Format := Format(0x400, 125, 0x7BFF)
  const E4M3: Format := Format(0x8, 140, 0x7E)
  const E5M2: Format := Format(0x4, 133, 0x7B)

  predicate Known(f: Format) { f == FP32 || f == BF16 || f == FP16 || f == E4M3 || f == E5M2 }

  /** Subnormals are m, normals (one + m) * 2^(e - 1), in units of the format's least subnormal. */
  function Significand(one: nat, code: nat): nat
    requires one > 0
  {
    var e, m := code / one, code % one;
    if e == 0 then m else (one + m) * Pow2(e - 1)
  }

  function Value(f: Format, code: nat): nat
    requires Known(f)
  {
    Significand(f.one, code) * Pow2(f.unit)
  }

  function Distance(x: nat, y: nat): nat { if x <= y then y - x else x - y }

  /** Round to nearest, ties to even, on the finite codes: clause 4.3.1 of IEEE 754-2008, except that what
      exceeds the largest finite value goes to it. */
  ghost predicate NearestEven(f: Format, v: nat, c: nat)
    requires Known(f)
  {
    c <= f.maxCode
    && forall d: nat {:trigger Value(f, d)} :: d <= f.maxCode ==>
         Distance(Value(f, c), v) <= Distance(Value(f, d), v)
         && (d != c && Distance(Value(f, c), v) == Distance(Value(f, d), v) ==> c % 2 == 0)
  }

  /** The gap above a code. */
  function Gap(f: Format, c: nat): nat
    requires Known(f)
  {
    Pow2(if c / f.one == 0 then 0 else c / f.one - 1) * Pow2(f.unit)
  }

  lemma SignificandNext(one: nat, c: nat)
    requires one > 0
    ensures Significand(one, c + 1) == Significand(one, c) + Pow2(if c / one == 0 then 0 else c / one - 1)
  {
    var e, m := c / one, c % one;
    FieldsNext(one, c, e, m);
    if m + 1 == one {
      assert Significand(one, c + 1) == one * Pow2(e);
      if e > 0 { CarryStep(one, m, Pow2(e - 1)); }
    } else if e > 0 {
      assert (one + m + 1) * Pow2(e - 1) == (one + m) * Pow2(e - 1) + Pow2(e - 1);
    }
  }

  lemma CarryStep(one: nat, m: nat, p: nat)
    requires m + 1 == one
    ensures one * (2 * p) == (one + m) * p + p
  {
  }

  lemma FieldsNext(one: nat, c: nat, e: nat, m: nat)
    requires one > 0 && e == c / one && m == c % one
    ensures if m + 1 == one then (c + 1) / one == e + 1 && (c + 1) % one == 0
            else (c + 1) / one == e && (c + 1) % one == m + 1
  {
    if m + 1 == one {
      assert one * (e + 1) == one * e + one;
      QuotientIs(c + 1, one, e + 1, 0);
    } else {
      QuotientIs(c + 1, one, e, m + 1);
    }
  }

  lemma ValueNext(f: Format, c: nat)
    requires Known(f)
    ensures Value(f, c + 1) == Value(f, c) + Gap(f, c) && Gap(f, c) > 0
  {
    hide Significand, Pow2;
    var p := Pow2(if c / f.one == 0 then 0 else c / f.one - 1);
    SignificandNext(f.one, c);
    Distribute(Significand(f.one, c), p, Pow2(f.unit));
    Positive(p, Pow2(f.unit));
  }

  lemma {:induction false} ValueMonotone(f: Format, c: nat, d: nat)
    requires Known(f) && c < d
    ensures Value(f, c) < Value(f, d)
  {
    hide Value, Gap;
    ValueNext(f, d - 1);
    if c < d - 1 { ValueMonotone(f, c, d - 1); }
  }

  /** Between two neighbouring codes the nearer one wins, and the even one on a tie. */
  lemma BetweenCodes(f: Format, v: nat, c: nat, up: bool)
    requires Known(f) && c < f.maxCode && Value(f, c) <= v <= Value(f, c + 1)
    requires up <==> (2 * v > Value(f, c) + Value(f, c + 1) || (2 * v == Value(f, c) + Value(f, c + 1) && c % 2 == 1))
    ensures NearestEven(f, v, if up then c + 1 else c)
  {
    hide Value;
    forall d: nat | d <= f.maxCode ensures d < c ==> Value(f, d) < Value(f, c)
                                   ensures d > c + 1 ==> Value(f, d) > Value(f, c + 1) {
      if d < c { ValueMonotone(f, d, c); }
      if d > c + 1 { ValueMonotone(f, c + 1, d); }
    }
  }

  lemma AtTheTop(f: Format, v: nat)
    requires Known(f) && v >= Value(f, f.maxCode)
    ensures NearestEven(f, v, f.maxCode)
  {
    hide Value;
    forall d: nat | d < f.maxCode ensures Value(f, d) < Value(f, f.maxCode) { ValueMonotone(f, d, f.maxCode); }
  }

  /** An exactly representable value rounds to its own code. */
  lemma ExactIsNearest(f: Format, c: nat)
    requires Known(f) && c <= f.maxCode
    ensures NearestEven(f, Value(f, c), c)
  {
    hide Value;
    forall d: nat | d <= f.maxCode && d != c ensures Value(f, d) != Value(f, c) {
      if d < c { ValueMonotone(f, d, c); } else { ValueMonotone(f, c, d); }
    }
  }

  /** Rounding never reverses an order, and so is unique. */
  lemma NearestMonotone(f: Format, v: nat, w: nat, c: nat, d: nat)
    requires Known(f) && v <= w && NearestEven(f, v, c) && NearestEven(f, w, d)
    ensures c <= d
  {
    hide Value;
    assert Distance(Value(f, c), v) <= Distance(Value(f, d), v);
    assert Distance(Value(f, d), w) <= Distance(Value(f, c), w);
    if c > d { ValueMonotone(f, d, c); }
    if c > d + 1 {
      ValueMonotone(f, d, d + 1);
      ValueMonotone(f, d + 1, c);
    }
  }

  lemma NearestUnique(f: Format, v: nat, c: nat, d: nat)
    requires Known(f) && NearestEven(f, v, c) && NearestEven(f, v, d)
    ensures c == d
  {
    NearestMonotone(f, v, v, c, d);
    NearestMonotone(f, v, v, d, c);
  }

  lemma ValueOfZero(f: Format)
    requires Known(f)
    ensures Value(f, 0) == 0
  {
  }

  /** The last code from k down whose value does not exceed v. */
  lemma {:induction false} CodeBelow(f: Format, v: nat, k: nat) returns (c: nat)
    requires Known(f) && k <= f.maxCode && (k < f.maxCode ==> v < Value(f, k + 1))
    ensures c <= k && Value(f, c) <= v && (c < f.maxCode ==> v < Value(f, c + 1))
  {
    hide Value;
    ValueOfZero(f);
    c := k;
    if v < Value(f, k) { c := CodeBelow(f, v, k - 1); }
  }

  /** Every value has a nearest code. */
  lemma NearestExists(f: Format, v: nat) returns (c: nat)
    requires Known(f)
    ensures NearestEven(f, v, c)
  {
    hide Value, NearestEven;
    var d := CodeBelow(f, v, f.maxCode);
    if d == f.maxCode {
      AtTheTop(f, v);
      c := d;
    } else {
      var up := 2 * v > Value(f, d) + Value(f, d + 1) || (2 * v == Value(f, d) + Value(f, d + 1) && d % 2 == 1);
      BetweenCodes(f, v, d, up);
      c := if up then d + 1 else d;
    }
  }
}
