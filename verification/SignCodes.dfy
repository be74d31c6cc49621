/** The sign coding of IQ2_XXS (include/qtx/quantize/quantizer.hpp, src/iq_codebooks.cpp): eight signs are stored
    in seven bits because the encoder first makes the number of minus signs even. */
module SignCodes {
  import opened Common
  import opened MaskBits

  /** The decoder's table from seven stored bits to eight signs, by rows of sixteen. */
  const ROW0: seq<bv8> := [0, 129, 130, 3, 132, 5, 6, 135, 136, 9, 10, 139, 12, 141, 142, 15]
  const ROW1: seq<bv8> := [144, 17, 18, 147, 20, 149, 150, 23, 24, 153, 154, 27, 156, 29, 30, 159]
  const ROW2: seq<bv8> := [160, 33, 34, 163, 36, 165, 166, 39, 40, 169, 170, 43, 172, 45, 46, 175]
  const ROW3: seq<bv8> := [48, 177, 178, 51, 180, 53, 54, 183, 184, 57, 58, 187, 60, 189, 190, 63]
  const ROW4: seq<bv8> := [192, 65, 66, 195, 68, 197, 198, 71, 72, 201, 202, 75, 204, 77, 78, 207]
  const ROW5: seq<bv8> := [80, 209, 210, 83, 212, 85, 86, 215, 216, 89, 90, 219, 92, 221, 222, 95]
  const ROW6: seq<bv8> := [96, 225, 226, 99, 228, 101, 102, 231, 232, 105, 106, 235, 108, 237, 238, 111]
  const ROW7: seq<bv8> := [240, 113, 114, 243, 116, 245, 246, 119, 120, 249, 250, 123, 252, 125, 126, 255]

  /** ksigns_iq2xs[c] */
  function KSigns(c: nat): bv8
    requires c < 128
  {
    if c < 16 then ROW0[c] else if c < 32 then ROW1[c - 16] else if c < 48 then ROW2[c - 32] else if c < 64 then ROW3[c - 48]
    else if c < 80 then ROW4[c - 64] else if c < 96 then ROW5[c - 80] else if c < 112 then ROW6[c - 96] else ROW7[c - 112]
  }

  /** The parity of the first n bits. */
  function Odd(x: bv8, n: nat): bool {
    if n == 0 then false else Odd(x, n - 1) != Has(x, n - 1)
  }

  function Abs(v: real): real { if v >= 0.0 then v else -v }

  /** 2^-126, the least normal magnitude of FP32 */
  const LEAST_NORMAL: real := 1.0 / 85070591730234615865843651857942052864.0

  /** What a comparison reads: under FtzDazGuard, where the architecture has it, a denormal is zero. */
  function Seen(v: real, guard: bool): real { if guard && Abs(v) < LEAST_NORMAL then 0.0 else v }

  function SeenAll(x: seq<real>, guard: bool): (r: seq<real>)
    ensures |r| == |x|
  {
    seq(|x|, i requires 0 <= i < |x| => Seen(x[i], guard))
  }

  /** How many of the first n values are negative. */
  function Negatives(x: seq<real>, n: nat): nat
    requires n <= |x|
  {
    if n == 0 then 0 else Negatives(x, n - 1) + if x[n - 1] < 0.0 then 1 else 0
  }

  /** The parity of all eight bits, folded. */
  function Fold(x: bv8): bv8 {
    var y := x ^ (x >> 4);
    var z := y ^ (y >> 2);
    (z ^ (z >> 1)) & 1
  }

  lemma FoldIsOdd(x: bv8)
    ensures Fold(x) == (if Odd(x, 8) then 1 else 0)
  {
    assert Odd(x, 8) == (Odd(x, 7) != Has(x, 7));
    assert Odd(x, 7) == (Odd(x, 6) != Has(x, 6));
    assert Odd(x, 6) == (Odd(x, 5) != Has(x, 5));
    assert Odd(x, 5) == (Odd(x, 4) != Has(x, 4));
    assert Odd(x, 4) == (Odd(x, 3) != Has(x, 3));
    assert Odd(x, 3) == (Odd(x, 2) != Has(x, 2));
    assert Odd(x, 2) == (Odd(x, 1) != Has(x, 1));
    assert Odd(x, 1) == Has(x, 0);
  }

  predicate GoodEntry(x: bv8, c: nat)
    requires c < 128
  {
    x & 0x7F == c as bv8 && Fold(x) == 0
  }

  lemma GoodIsEven(x: bv8, c: nat)
    requires c < 128
    ensures GoodEntry(x, c) ==> !Odd(x, 8)
  {
    hide Odd;
    FoldIsOdd(x);
  }

  lemma TableRow0(c: nat)
    requires 0 <= c < 16
    ensures GoodEntry(ROW0[c - 0], c)
  {
    if c == 0 {} else if c == 1 {} else if c == 2 {} else if c == 3 {} else if c == 4 {} else if c == 5 {} else if c == 6 {} else if c == 7 {}
    else if c == 8 {} else if c == 9 {} else if c == 10 {} else if c == 11 {} else if c == 12 {} else if c == 13 {} else if c == 14 {} else {}
  }

  lemma TableRow1(c: nat)
    requires 16 <= c < 32
    ensures GoodEntry(ROW1[c - 16], c)
  {
    if c == 16 {} else if c == 17 {} else if c == 18 {} else if c == 19 {} else if c == 20 {} else if c == 21 {} else if c == 22 {} else if c == 23 {}
    else if c == 24 {} else if c == 25 {} else if c == 26 {} else if c == 27 {} else if c == 28 {} else if c == 29 {} else if c == 30 {} else {}
  }

  lemma TableRow2(c: nat)
    requires 32 <= c < 48
    ensures GoodEntry(ROW2[c - 32], c)
  {
    if c == 32 {} else if c == 33 {} else if c == 34 {} else if c == 35 {} else if c == 36 {} else if c == 37 {} else if c == 38 {} else if c == 39 {}
    else if c == 40 {} else if c == 41 {} else if c == 42 {} else if c == 43 {} else if c == 44 {} else if c == 45 {} else if c == 46 {} else {}
  }

  lemma TableRow3(c: nat)
    requires 48 <= c < 64
    ensures GoodEntry(ROW3[c - 48], c)
  {
    if c == 48 {} else if c == 49 {} else if c == 50 {} else if c == 51 {} else if c == 52 {} else if c == 53 {} else if c == 54 {} else if c == 55 {}
    else if c == 56 {} else if c == 57 {} else if c == 58 {} else if c == 59 {} else if c == 60 {} else if c == 61 {} else if c == 62 {} else {}
  }

  lemma TableRow4(c: nat)
    requires 64 <= c < 80
    ensures GoodEntry(ROW4[c - 64], c)
  {
    if c == 64 {} else if c == 65 {} else if c == 66 {} else if c == 67 {} else if c == 68 {} else if c == 69 {} else if c == 70 {} else if c == 71 {}
    else if c == 72 {} else if c == 73 {} else if c == 74 {} else if c == 75 {} else if c == 76 {} else if c == 77 {} else if c == 78 {} else {}
  }

  lemma TableRow5(c: nat)
    requires 80 <= c < 96
    ensures GoodEntry(ROW5[c - 80], c)
  {
    if c == 80 {} else if c == 81 {} else if c == 82 {} else if c == 83 {} else if c == 84 {} else if c == 85 {} else if c == 86 {} else if c == 87 {}
    else if c == 88 {} else if c == 89 {} else if c == 90 {} else if c == 91 {} else if c == 92 {} else if c == 93 {} else if c == 94 {} else {}
  }

  lemma TableRow6(c: nat)
    requires 96 <= c < 112
    ensures GoodEntry(ROW6[c - 96], c)
  {
    if c == 96 {} else if c == 97 {} else if c == 98 {} else if c == 99 {} else if c == 100 {} else if c == 101 {} else if c == 102 {} else if c == 103 {}
    else if c == 104 {} else if c == 105 {} else if c == 106 {} else if c == 107 {} else if c == 108 {} else if c == 109 {} else if c == 110 {} else {}
  }

  lemma TableRow7(c: nat)
    requires 112 <= c < 128
    ensures GoodEntry(ROW7[c - 112], c)
  {
    if c == 112 {} else if c == 113 {} else if c == 114 {} else if c == 115 {} else if c == 116 {} else if c == 117 {} else if c == 118 {} else if c == 119 {}
    else if c == 120 {} else if c == 121 {} else if c == 122 {} else if c == 123 {} else if c == 124 {} else if c == 125 {} else if c == 126 {} else {}
  }

  /** The table appends the bit that makes the number of set bits even. */
  lemma TableIsEven(c: nat)
    requires c < 128
    ensures GoodEntry(KSigns(c), c) && !Odd(KSigns(c), 8)
  {
    GoodIsEven(KSigns(c), c);
    hide GoodEntry, Odd, ROW0, ROW1, ROW2, ROW3, ROW4, ROW5, ROW6, ROW7;
    if c < 16 { TableRow0(c); } else if c < 32 { TableRow1(c); } else if c < 48 { TableRow2(c); }
    else if c < 64 { TableRow3(c); } else if c < 80 { TableRow4(c); } else if c < 96 { TableRow5(c); }
    else if c < 112 { TableRow6(c); } else { TableRow7(c); }
  }

  /** Two masks of even parity that agree on seven bits are equal. */
  lemma SevenBitsSuffice(x: bv8, y: bv8)
    requires x & 0x7F == y & 0x7F && Fold(x) == Fold(y)
    ensures x == y
  {
  }

  lemma CodeIsIndex(s: bv8)
    ensures s & 0x7F < 128 && ((s & 0x7F) as nat) < 128 && ((s & 0x7F) as nat) as bv8 == s & 0x7F
  {
    SevenBits(s);
    var c := s & 0x7F;
    ByteIndex(c);
  }

  lemma SevenBits(s: bv8)
    ensures s & 0x7F < 128
  {
  }

  lemma ByteIndex(c: bv8)
    requires c < 128
    ensures (c as nat) < 128 && (c as nat) as bv8 == c
  {
  }

  /** An even mask comes back from its seven low bits. */
  lemma TableRestores(s: bv8)
    requires Fold(s) == 0
    ensures ((s & 0x7F) as nat) < 128 && KSigns((s & 0x7F) as nat) == s
  {
    hide KSigns, Fold;
    CodeIsIndex(s);
    TableIsEven((s & 0x7F) as nat);
    SevenBitsSuffice(KSigns((s & 0x7F) as nat), s);
  }

  function Flip(x: bv8, n: nat): bv8 { x ^ Mask(n) }

  lemma FlipHas(x: bv8, n: nat, k: nat)
    requires n < 8 && k < 8
    ensures Has(Flip(x, n), k) <==> (Has(x, k) != (k == n))
    ensures !Has(x, n) ==> Flip(x, n) == Set(x, n)
  {
  }

  lemma FlipFold(x: bv8, n: nat)
    requires n < 8
    ensures Fold(Flip(x, n)) == 1 - Fold(x) && Fold(x) < 2
  {
  }

  /** What the stored seven bits decode to, against the true signs: position i (if any) is off. */
  ghost predicate SignsBut(full: bv8, x: seq<real>, off: Option<nat>)
    requires |x| == 8
  {
    forall j :: 0 <= j < 8 ==> (Has(full, j) <==> ((x[j] < 0.0) != (off == Some(j))))
  }

  ghost predicate Smallest(x: seq<real>, i: nat) {
    i < |x| && forall j :: 0 <= j < |x| ==> Abs(x[i]) <= Abs(x[j])
  }

  /** The encoder's loops over one group of eight.  The decoded signs are those the comparisons see, except that an
      odd number of minus signs costs one position of least magnitude; `xval`, which the grid search then fits,
      times the decoded signs is the input again.  So a true sign is wrong exactly at that position, or at a
      negative denormal the guard hides, unless both meet. */
  method CodeSigns(x: seq<real>, guard: bool) returns (code: bv8, xval: seq<real>, ghost off: Option<nat>)
    requires |x| == 8
    ensures code < 128 && (code as nat) < 128 && |xval| == 8
    ensures off.None? <==> Negatives(SeenAll(x, guard), 8) % 2 == 0
    ensures off.Some? ==> Smallest(SeenAll(x, guard), off.value)
    ensures SignsBut(KSigns(code as nat), SeenAll(x, guard), off)
    ensures forall j :: 0 <= j < 8 ==> x[j] == if Has(KSigns(code as nat), j) then -xval[j] else xval[j]
    ensures forall j :: 0 <= j < 8 ==>
              ((Has(KSigns(code as nat), j) <==> x[j] < 0.0)
               <==> ((guard && -LEAST_NORMAL < x[j] < 0.0) == (off == Some(j))))
  {
    hide KSigns, Fold, Has, Flip, Negatives;
    var s, nflip;
    s, nflip, xval := Gather(x, guard);
    off := None;
    if nflip % 2 != 0 {
      var imin := SmallestMagnitude(xval, SeenAll(x, guard), guard);
      xval := xval[imin := -xval[imin]];
      FlipAll(s, imin);
      FlipFold(s, imin);
      s := Flip(s, imin);
      off := Some(imin);
    }
    code := s & 0x7F;
    CodeIsIndex(s);
    TableRestores(s);
  }

  lemma FlipAll(s: bv8, n: nat)
    requires n < 8
    ensures forall k :: 0 <= k < 8 ==> (Has(Flip(s, n), k) <==> (Has(s, k) != (k == n)))
  {
    hide Has, Flip;
    forall k | 0 <= k < 8 ensures Has(Flip(s, n), k) <==> (Has(s, k) != (k == n)) { FlipHas(s, n, k); }
  }

  /** The second loop: the first position of least magnitude. */
  method SmallestMagnitude(xval: seq<real>, ghost seen: seq<real>, guard: bool) returns (imin: nat)
    requires |xval| == |seen| == 8 && forall j :: 0 <= j < 8 ==> Seen(xval[j], guard) == Abs(seen[j])
    ensures imin < 8 && Smallest(seen, imin)
  {
    hide Seen;
    imin := 0;
    for j := 1 to 8
      invariant 0 <= imin < j && forall k :: 0 <= k < j ==> Seen(xval[imin], guard) <= Seen(xval[k], guard)
    {
      if Seen(xval[j], guard) < Seen(xval[imin], guard) { imin := j; }
    }
    forall k | 0 <= k < 8 ensures Abs(seen[imin]) <= Abs(seen[k]) {
      assert Seen(xval[imin], guard) <= Seen(xval[k], guard);
    }
  }

  /** The first loop: the mask and the number of the values that compare as negative, and the magnitudes. */
  method Gather(x: seq<real>, guard: bool) returns (s: bv8, nflip: nat, xval: seq<real>)
    requires |x| == 8
    ensures var seen := SeenAll(x, guard);
            && nflip == Negatives(seen, 8) && Fold(s) == (if nflip % 2 == 1 then 1 else 0) && |xval| == 8
            && (forall k :: 0 <= k < 8 ==> (Has(s, k) <==> seen[k] < 0.0))
            && (forall k :: 0 <= k < 8 ==> xval[k] == (if seen[k] < 0.0 then -x[k] else x[k]) && Seen(xval[k], guard) == Abs(seen[k]))
  {
    hide Has, Set, Flip;
    ghost var seen := SeenAll(x, guard);
    s, nflip, xval := 0, 0, [];
    forall k: nat ensures !Has(0, k) { ZeroHas(k); }
    for j := 0 to 8
      invariant nflip == Negatives(seen, j) && Fold(s) == (if nflip % 2 == 1 then 1 else 0) && |xval| == j
      invariant forall k :: 0 <= k < 8 ==> (Has(s, k) <==> k < j && seen[k] < 0.0)
      invariant forall k :: 0 <= k < j ==> xval[k] == (if seen[k] < 0.0 then -x[k] else x[k]) && Seen(xval[k], guard) == Abs(seen[k])
    {
      if Seen(x[j], guard) >= 0.0 {
        xval := xval + [x[j]];
      } else {
        xval := xval + [-x[j]];
        forall k | 0 <= k < 8 ensures Has(Set(s, j), k) <==> k == j || Has(s, k) { SetHas(s, j, k); }
        FlipHas(s, j, j);
        FlipFold(s, j);
        s := Set(s, j);
        nflip := nflip + 1;
      }
    }
  }

  /* ---- the packed word ---- */

  /** Four 7-bit codes and a 4-bit scale in 32 bits. */
  function Word(c0: bv8, c1: bv8, c2: bv8, c3: bv8, scale: bv8): bv32 {
    (c0 as bv32) | ((c1 as bv32) << 7) | ((c2 as bv32) << 14) | ((c3 as bv32) << 21) | (((scale & 0xF) as bv32) << 28)
  }

  lemma WordRoundTrip(c0: bv8, c1: bv8, c2: bv8, c3: bv8, scale: bv8)
    requires c0 < 128 && c1 < 128 && c2 < 128 && c3 < 128
    ensures var w := Word(c0, c1, c2, c3, scale);
            && w & 0x7F == c0 as bv32 && (w >> 7) & 0x7F == c1 as bv32 && (w >> 14) & 0x7F == c2 as bv32
            && (w >> 21) & 0x7F == c3 as bv32 && w >> 28 == (scale & 0xF) as bv32
  {
  }
}
