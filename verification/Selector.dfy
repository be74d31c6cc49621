/** The free-slot selector (include/qtx/selector/axiom_selector.hpp), one thread at a time:
    a 1 bit is a free slot.  SelectorSteps.dfy treats it under any interleaving. */
module SelectorSpec {
  import opened Arithmetic
  import opened BitWords
  import opened Common

  const WORD_BITS: nat := 64

  predicate ValidWords(ws: seq<nat>) {
    |ws| > 0 && forall i :: 0 <= i < |ws| ==> ws[i] < Pow2(WORD_BITS)
  }

  predicate Free(ws: seq<nat>, s: nat) {
    s < WORD_BITS * |ws| && Bit(ws[s / WORD_BITS], s % WORD_BITS)
  }

  /** isOccupied: out-of-range slots are not occupied. */
  predicate Occupied(ws: seq<nat>, s: nat) {
    s < WORD_BITS * |ws| && !Bit(ws[s / WORD_BITS], s % WORD_BITS)
  }

  /** (start + k) % n for offsets of one lap */
  function Around(start: nat, k: nat, n: nat): (i: nat)
    requires start < n && k < n
    ensures i < n
  {
    if start + k < n then start + k else start + k - n
  }

  lemma AroundIsModulo(start: nat, k: nat, n: nat)
    requires start < n && k < n
    ensures (start + k) % n == Around(start, k, n)
  {
    QuotientIs(start + k, n, if start + k < n then 0 else 1, Around(start, k, n));
  }

  /** The first non-zero word of the circular sweep from `start`, looking at offsets k and up. */
  function SweepFrom(ws: seq<nat>, start: nat, k: nat): (r: Option<nat>)
    requires start < |ws| && k <= |ws|
    ensures r.Some? ==> r.value < |ws| && ws[r.value] != 0
    decreases |ws| - k
  {
    if k == |ws| then None
    else if ws[Around(start, k, |ws|)] != 0 then Some(Around(start, k, |ws|))
    else SweepFrom(ws, start, k + 1)
  }

  function SlotOf(ws: seq<nat>, word: nat): nat
    requires word < |ws| && ws[word] != 0
  {
    word * WORD_BITS + LowestSet(ws[word])
  }

  /** The slot acquire() hands out to a caller whose hashed thread id is `tid`. */
  function Pick(ws: seq<nat>, tid: nat): Option<nat>
    requires |ws| > 0
  {
    var word := SweepFrom(ws, tid % |ws|, 0);
    if word.None? then None else Some(SlotOf(ws, word.value))
  }

  function Take(ws: seq<nat>, s: nat): seq<nat> {
    if s < WORD_BITS * |ws| then ws[s / WORD_BITS := ClearBit(ws[s / WORD_BITS], s % WORD_BITS)] else ws
  }

  function GiveBack(ws: seq<nat>, s: nat): seq<nat> {
    if s < WORD_BITS * |ws| then ws[s / WORD_BITS := SetBit(ws[s / WORD_BITS], s % WORD_BITS)] else ws
  }

  function FreeCount(ws: seq<nat>): nat {
    if ws == [] then 0 else FreeCount(ws[..|ws| - 1]) + Popcount(ws[|ws| - 1])
  }

  ghost function FreeSlots(ws: seq<nat>): set<nat> {
    set s: nat | s < WORD_BITS * |ws| && Free(ws, s)
  }

  lemma {:induction false} SweepMissesNothing(ws: seq<nat>, start: nat, k: nat)
    requires start < |ws| && k <= |ws|
    ensures SweepFrom(ws, start, k).None? ==> forall j :: k <= j < |ws| ==> ws[Around(start, j, |ws|)] == 0
    decreases |ws| - k
  {
    if k < |ws| { SweepMissesNothing(ws, start, k + 1); }
  }

  /** acquire() fails exactly when every word is zero, whatever the start offset. */
  lemma PickFailsOnlyWhenFull(ws: seq<nat>, tid: nat)
    requires |ws| > 0
    ensures Pick(ws, tid).None? <==> forall i :: 0 <= i < |ws| ==> ws[i] == 0
  {
    var start := tid % |ws|;
    SweepMissesNothing(ws, start, 0);
    if Pick(ws, tid).None? {
      forall i | 0 <= i < |ws| ensures ws[i] == 0 {
        var j := if i >= start then i - start else i + |ws| - start;
        assert Around(start, j, |ws|) == i;
      }
    }
  }

  /** How many words past word number `start` word w is met. */
  function Ahead(start: nat, n: nat, w: nat): int { if w >= start then w - start else w + n - start }

  lemma {:induction false} SweepIsFirst(ws: seq<nat>, start: nat, k: nat)
    requires start < |ws| && k <= |ws| && SweepFrom(ws, start, k).Some?
    ensures var w := SweepFrom(ws, start, k).value;
            Ahead(start, |ws|, w) >= k
            && forall v: nat :: v < |ws| && k <= Ahead(start, |ws|, v) < Ahead(start, |ws|, w) ==> ws[v] == 0
    decreases |ws| - k
  {
    if ws[Around(start, k, |ws|)] == 0 {
      SweepIsFirst(ws, start, k + 1);
      assert Ahead(start, |ws|, Around(start, k, |ws|)) == k;
      forall v: nat | v < |ws| && Ahead(start, |ws|, v) == k ensures ws[v] == 0 { assert v == Around(start, k, |ws|); }
    }
  }

  /** The slot picked is the lowest free one of the first word that has any, going round from word tid % kWords. */
  lemma PickIsFirst(ws: seq<nat>, tid: nat)
    requires ValidWords(ws) && Pick(ws, tid).Some?
    ensures var s := Pick(ws, tid).value;
            var start := tid % |ws|;
            && (forall w: nat {:trigger ws[w]} :: w < |ws| && Ahead(start, |ws|, w) < Ahead(start, |ws|, s / WORD_BITS) ==> ws[w] == 0)
            && (forall r: nat :: r < s && r / WORD_BITS == s / WORD_BITS ==> !Free(ws, r))
  {
    var start := tid % |ws|;
    var word := SweepFrom(ws, start, 0).value;
    SweepIsFirst(ws, start, 0);
    PickIsFree(ws, tid);
    BitBound(ws[word], WORD_BITS, LowestSet(ws[word]));
    var s := Pick(ws, tid).value;
    assert s / WORD_BITS == word && s % WORD_BITS == LowestSet(ws[word]);
    forall r: nat | r < s && r / WORD_BITS == s / WORD_BITS ensures !Free(ws, r) {
      if Free(ws, r) { LowestSetIsLowest(ws[word], r % WORD_BITS); }
    }
  }

  /** The picked slot is free; taking it changes no other slot. */
  lemma PickIsFree(ws: seq<nat>, tid: nat)
    requires ValidWords(ws) && Pick(ws, tid).Some?
    ensures var s := Pick(ws, tid).value; s < WORD_BITS * |ws| && Free(ws, s)
  {
    var word := SweepFrom(ws, tid % |ws|, 0).value;
    BitBound(ws[word], WORD_BITS, LowestSet(ws[word]));
    var s := SlotOf(ws, word);
    assert s / WORD_BITS == word && s % WORD_BITS == LowestSet(ws[word]);
  }

  lemma TakeEffect(ws: seq<nat>, s: nat)
    requires ValidWords(ws) && s < WORD_BITS * |ws|
    ensures |Take(ws, s)| == |ws| && ValidWords(Take(ws, s))
    ensures forall t: nat :: Free(Take(ws, s), t) == (t != s && Free(ws, t))
    ensures forall t: nat :: Occupied(Take(ws, s), t) == (t == s || Occupied(ws, t))
  {
    WidthAfter(ws[s / WORD_BITS], WORD_BITS, s % WORD_BITS);
    forall t: nat | t < WORD_BITS * |ws|
      ensures Bit(Take(ws, s)[t / WORD_BITS], t % WORD_BITS) == (t != s && Bit(ws[t / WORD_BITS], t % WORD_BITS))
    {
      BitAfter(ws[s / WORD_BITS], s % WORD_BITS, t % WORD_BITS);
    }
  }

  lemma GiveBackEffect(ws: seq<nat>, s: nat)
    requires ValidWords(ws) && s < WORD_BITS * |ws|
    ensures |GiveBack(ws, s)| == |ws| && ValidWords(GiveBack(ws, s))
    ensures forall t: nat :: Free(GiveBack(ws, s), t) == (t == s || Free(ws, t))
    ensures forall t: nat :: Occupied(GiveBack(ws, s), t) == (t != s && Occupied(ws, t))
  {
    WidthAfter(ws[s / WORD_BITS], WORD_BITS, s % WORD_BITS);
    forall t: nat | t < WORD_BITS * |ws|
      ensures Bit(GiveBack(ws, s)[t / WORD_BITS], t % WORD_BITS) == (t == s || Bit(ws[t / WORD_BITS], t % WORD_BITS))
    {
      BitAfter(ws[s / WORD_BITS], s % WORD_BITS, t % WORD_BITS);
    }
  }

  /** The sum of the words' population counts is the number of free slots. */
  lemma {:induction false} FreeCountIsCardinality(ws: seq<nat>)
    requires forall i :: 0 <= i < |ws| ==> ws[i] < Pow2(WORD_BITS)
    ensures |FreeSlots(ws)| == FreeCount(ws)
  {
    hide Bit, Popcount, Pow2;
    if ws == [] {
      assert FreeSlots(ws) == {};
    } else {
      var init, last := ws[..|ws| - 1], ws[|ws| - 1];
      FreeCountIsCardinality(init);
      PopcountIsCardinality(last, WORD_BITS);
      var top := LastWordSlots(ws);
      assert |top| == |BitSet(last, WORD_BITS)| by {
        var n := WORD_BITS * |init|;
        forall s: nat ensures s in top <==> s >= n && s - n in BitSet(last, WORD_BITS) {
          if n <= s < n + WORD_BITS { assert s / WORD_BITS == |init| && s % WORD_BITS == s - n; }
        }
        ShiftKeepsSize(BitSet(last, WORD_BITS), top, n);
      }
      assert FreeSlots(ws) == FreeSlots(init) + top by { FreeSlotsSplit(ws); }
      assert FreeSlots(init) !! top;
    }
  }

  ghost function LastWordSlots(ws: seq<nat>): set<nat>
    requires ws != []
  {
    set s: nat | WORD_BITS * (|ws| - 1) <= s < WORD_BITS * |ws| && Free(ws, s)
  }

  lemma FreeSlotsSplit(ws: seq<nat>)
    requires ws != []
    ensures FreeSlots(ws) == FreeSlots(ws[..|ws| - 1]) + LastWordSlots(ws)
  {
    var init := ws[..|ws| - 1];
    forall s: nat ensures s in FreeSlots(ws) <==> s in FreeSlots(init) + LastWordSlots(ws) {
      if s < WORD_BITS * |init| { assert init[s / WORD_BITS] == ws[s / WORD_BITS]; }
      else if s < WORD_BITS * |ws| { assert s / WORD_BITS == |init| && s % WORD_BITS == s - WORD_BITS * |init|; }
    }
  }

  lemma {:induction false} ShiftKeepsSize(a: set<nat>, b: set<nat>, n: nat)
    requires forall s: nat :: s in b <==> s >= n && s - n in a
    ensures |a| == |b|
    decreases a
  {
    if a == {} {
      assert forall s: nat :: s !in b;
    } else {
      var x :| x in a;
      assert x + n in b by { assert (x + n) - n == x; }
      var b' := b - {x + n};
      forall s: nat ensures s in b' <==> s >= n && s - n in a - {x} { }
      ShiftKeepsSize(a - {x}, b', n);
      assert |b'| == |b| - 1;
    }
  }
}

module Selector {
  import opened BitWords
  import opened Common
  import opened SelectorSpec

  const NO_SLOT: int := -1

  class AxiomSelector {
    const words: array<nat>

    ghost predicate Valid()
      reads this, words
    {
      ValidWords(words[..])
    }

    /** Every slot starts free. */
    constructor (wordCount: nat)
      requires wordCount > 0
      ensures fresh(words) && Valid() && words.Length == wordCount
      ensures forall s: nat :: s < WORD_BITS * wordCount ==> Free(words[..], s)
    {
      hide Pow2, Bit;
      words := new nat[wordCount](_ => Pow2(WORD_BITS) - 1);
      new;
      FullWord(Pow2(WORD_BITS) - 1, WORD_BITS);
    }

    /** Two circular passes over the words.  Nobody interferes here, so the compare-exchange on a
        non-zero word lands at its first attempt; SelectorSteps has the bounded retries. */
    method Acquire(tid: nat) returns (slot: int)
      requires Valid()
      modifies words
      ensures Valid()
      ensures var picked := Pick(old(words[..]), tid);
              if picked.None? then slot == NO_SLOT && words[..] == old(words[..])
              else slot == picked.value && words[..] == Take(old(words[..]), picked.value)
    {
      var kWords := words.Length;
      var start := tid % kWords;
      var pass := 0;
      while pass < 2
        invariant words[..] == old(words[..])
        invariant pass > 0 ==> SweepFrom(words[..], start, 0).None?
      {
        var i := 0;
        while i < kWords
          invariant 0 <= i <= kWords && words[..] == old(words[..])
          invariant SweepFrom(words[..], start, 0) == SweepFrom(words[..], start, i)
        {
          AroundIsModulo(start, i, kWords);
          var word := (start + i) % kWords;
          var expected := words[word];
          if expected != 0 {
            var bit := LowestSet(expected);
            ghost var s := word * WORD_BITS + bit;
            PickIsFree(words[..], tid);
            TakeEffect(words[..], s);
            BitBound(expected, WORD_BITS, bit);
            assert s / WORD_BITS == word && s % WORD_BITS == bit;
            words[word] := ClearBit(expected, bit);
            return word * WORD_BITS + bit;
          }
          i := i + 1;
        }
        pass := pass + 1;
      }
      return NO_SLOT;
    }

    /** Out-of-range slots are ignored. */
    method Release(slot: nat)
      requires Valid()
      modifies words
      ensures Valid() && words[..] == GiveBack(old(words[..]), slot)
    {
      if slot >= WORD_BITS * words.Length { return; }
      var word, bit := slot / WORD_BITS, slot % WORD_BITS;
      WidthAfter(words[word], WORD_BITS, bit);
      words[word] := SetBit(words[word], bit);
    }

    function IsOccupied(slot: nat): (b: bool)
      reads this, words
      ensures b == Occupied(words[..], slot)
      ensures b <==> slot < WORD_BITS * words.Length && slot !in FreeSlots(words[..])
    {
      slot < WORD_BITS * words.Length && !Bit(words[slot / WORD_BITS], slot % WORD_BITS)
    }

    method CountFree() returns (total: nat)
      requires Valid()
      ensures total == FreeCount(words[..]) == |FreeSlots(words[..])|
    {
      total := 0;
      var i := 0;
      while i < words.Length
        invariant 0 <= i <= words.Length && total == FreeCount(words[..i])
      {
        assert words[..i + 1][..i] == words[..i];
        total := total + Popcount(words[i]);
        i := i + 1;
      }
      assert words[..i] == words[..];
      FreeCountIsCardinality(words[..]);
    }
  }
}
