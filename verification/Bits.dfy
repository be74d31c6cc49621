/** Machine words as bounded natural numbers, read bit by bit.

    The selector's 64-bit words and the bridge's 32-bit occupancy bitmaps are used only
    through "clear this bit", "set this bit", "lowest set bit" and "population count".
    Each is defined by halving, so the facts below hold for every word width. */
module BitWords {

  function Pow2(n: nat): (p: nat)
    ensures p >= 1
  {
    if n == 0 then 1 else 2 * Pow2(n - 1)
  }

  predicate Bit(w: nat, i: nat) {
    if i == 0 then w % 2 == 1 else Bit(w / 2, i - 1)
  }

  /** w | (1 << i) */
  function SetBit(w: nat, i: nat): nat {
    if i == 0 then 2 * (w / 2) + 1 else 2 * SetBit(w / 2, i - 1) + w % 2
  }

  /** w & ~(1 << i) */
  function ClearBit(w: nat, i: nat): nat {
    if i == 0 then 2 * (w / 2) else 2 * ClearBit(w / 2, i - 1) + w % 2
  }

  /** std::popcount */
  function Popcount(w: nat): nat {
    if w == 0 then 0 else w % 2 + Popcount(w / 2)
  }

  /** std::countr_zero of a non-zero word */
  function LowestSet(w: nat): (i: nat)
    requires w != 0
    ensures Bit(w, i)
  {
    if w % 2 == 1 then 0 else 1 + LowestSet(w / 2)
  }

  /** The first clear bit: std::countr_zero(~w) */
  function LowestClear(w: nat): (i: nat)
    ensures !Bit(w, i)
  {
    if w % 2 == 0 then 0 else 1 + LowestClear(w / 2)
  }

  ghost function BitSet(w: nat, width: nat): set<nat> {
    set i: nat | i < width && Bit(w, i)
  }

  lemma {:induction false} Pow2Add(a: nat, b: nat)
    ensures Pow2(a + b) == Pow2(a) * Pow2(b)
  {
    if a > 0 {
      Pow2Add(a - 1, b);
      assert Pow2(a + b) == 2 * Pow2(a - 1 + b);
    }
  }

  /** Setting or clearing one bit changes that bit and no other. */
  lemma {:induction false} BitAfter(w: nat, i: nat, j: nat)
    ensures Bit(SetBit(w, i), j) == (j == i || Bit(w, j))
    ensures Bit(ClearBit(w, i), j) == (j != i && Bit(w, j))
  {
    var s, c := SetBit(w, i), ClearBit(w, i);
    if i > 0 {
      assert s / 2 == SetBit(w / 2, i - 1) && s % 2 == w % 2;
      assert c / 2 == ClearBit(w / 2, i - 1) && c % 2 == w % 2;
      if j > 0 { BitAfter(w / 2, i - 1, j - 1); }
    } else {
      assert s / 2 == w / 2 && s % 2 == 1 && c / 2 == w / 2 && c % 2 == 0;
    }
  }

  /** The bit updates are what `|` and `& ~` with the mask 1 << i compute. */
  lemma {:induction false} MaskArithmetic(w: nat, i: nat)
    ensures SetBit(w, i) == if Bit(w, i) then w else w + Pow2(i)
    ensures ClearBit(w, i) == if Bit(w, i) then w - Pow2(i) else w
  {
    if i > 0 { MaskArithmetic(w / 2, i - 1); }
  }

  lemma OneFits(n: nat)
    requires n >= 1
    ensures 1 < Pow2(n)
  {
    assert Pow2(n) == 2 * Pow2(n - 1);
  }

  lemma {:induction false} BitBound(w: nat, n: nat, i: nat)
    requires w < Pow2(n)
    ensures Bit(w, i) ==> i < n
  {
    if n > 0 && i > 0 { BitBound(w / 2, n - 1, i - 1); }
    if n == 0 && i > 0 { BitBound(w / 2, 0, i - 1); }
  }

  /** Words stay inside their width. */
  lemma {:induction false} WidthAfter(w: nat, n: nat, i: nat)
    requires w < Pow2(n)
    ensures i < n ==> SetBit(w, i) < Pow2(n)
    ensures ClearBit(w, i) < Pow2(n) && ClearBit(w, i) <= w
  {
    if i > 0 {
      if n > 0 { WidthAfter(w / 2, n - 1, i - 1); } else { WidthAfter(0, 0, i - 1); }
    }
  }

  lemma {:induction false} LowestSetIsLowest(w: nat, j: nat)
    requires w != 0 && Bit(w, j)
    ensures LowestSet(w) <= j
  {
    if j > 0 && w % 2 == 0 { LowestSetIsLowest(w / 2, j - 1); }
  }

  lemma {:induction false} LowestClearIsLowest(w: nat, j: nat)
    requires !Bit(w, j)
    ensures LowestClear(w) <= j
  {
    if j > 0 && w % 2 == 1 { LowestClearIsLowest(w / 2, j - 1); }
  }

  /** A zero word has no bits; a non-zero word has one. */
  lemma {:induction false} ZeroWord(i: nat)
    ensures !Bit(0, i)
  {
    if i > 0 { ZeroWord(i - 1); }
  }

  /** A word is full exactly when no bit inside its width is clear. */
  lemma {:induction false} FullWord(w: nat, n: nat)
    requires w < Pow2(n)
    ensures w == Pow2(n) - 1 ==> forall i: nat | i < n :: Bit(w, i)
    ensures w != Pow2(n) - 1 ==> LowestClear(w) < n
  {
    if n > 0 {
      FullWord(w / 2, n - 1);
      if w == Pow2(n) - 1 {
        forall i: nat | i < n ensures Bit(w, i) {
          if i > 0 { assert Bit(w / 2, i - 1); }
        }
      }
    }
  }

  /** countr_zero of the inverted, masked word finds the same bit as LowestClear. */
  lemma {:induction false} InvertedLowest(w: nat, n: nat)
    requires w < Pow2(n) && w != Pow2(n) - 1
    ensures LowestSet(Pow2(n) - 1 - w) == LowestClear(w)
  {
    if n > 0 {
      var x := Pow2(n) - 1 - w;
      assert x % 2 == 1 - w % 2 && x / 2 == Pow2(n - 1) - 1 - w / 2;
      if w % 2 == 1 { InvertedLowest(w / 2, n - 1); }
    }
  }

  lemma {:induction false} PopcountAfter(w: nat, i: nat)
    ensures Bit(w, i) ==> Popcount(ClearBit(w, i)) == Popcount(w) - 1
    ensures !Bit(w, i) ==> Popcount(SetBit(w, i)) == Popcount(w) + 1
  {
    if i > 0 {
      PopcountAfter(w / 2, i - 1);
      HigherBit(w, i);
      hide SetBit, ClearBit;
      PopcountHalf(w);
      PopcountHalf(ClearBit(w, i));
      PopcountHalf(SetBit(w, i));
    } else {
      hide Popcount;
      PopcountHalf(w);
      PopcountHalf(ClearBit(w, 0));
      PopcountHalf(SetBit(w, 0));
    }
  }

  lemma PopcountHalf(w: nat)
    ensures Popcount(w) == w % 2 + Popcount(w / 2)
  {
  }

  lemma HigherBit(w: nat, i: nat)
    requires i > 0
    ensures ClearBit(w, i) / 2 == ClearBit(w / 2, i - 1) && ClearBit(w, i) % 2 == w % 2
    ensures SetBit(w, i) / 2 == SetBit(w / 2, i - 1) && SetBit(w, i) % 2 == w % 2
  {
  }

  /** Population count is the number of set positions. */
  lemma {:induction false} PopcountIsCardinality(w: nat, n: nat)
    requires w < Pow2(n)
    ensures |BitSet(w, n)| == Popcount(w)
    decreases w
  {
    if w == 0 {
      forall i: nat | i < n ensures !Bit(w, i) { ZeroWord(i); }
      assert BitSet(w, n) == {};
    } else {
      var i := LowestSet(w);
      BitBound(w, n, i);
      var c := ClearBit(w, i);
      MaskArithmetic(w, i);
      WidthAfter(w, n, i);
      PopcountAfter(w, i);
      PopcountIsCardinality(c, n);
      forall j: nat | j < n ensures Bit(c, j) == (j != i && Bit(w, j)) { BitAfter(w, i, j); }
      assert BitSet(w, n) == BitSet(c, n) + {i};
    }
  }
}
