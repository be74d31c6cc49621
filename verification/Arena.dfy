/** The slot arena (include/qtx/arena/fractal_arena.hpp): a selector, a 16-bit generation per
    slot and the slots' bytes.  The operations are given as functions on an arena value; the
    class in FractalArena.dfy is proved to compute them in place. */
module ArenaSpec {
  import opened Arithmetic
  import opened BitWords
  import opened Common
  import opened GenIds
  import opened SelectorSpec

  const CACHE_LINE: nat := 128
  const VERSION_MODULUS: nat := 0x1_0000

  datatype Arena = Arena(slotSize: nat, words: seq<nat>, versions: seq<nat>, die: seq<Bytes>)

  /** Shape only: what the template parameters fix. */
  predicate Valid(a: Arena) {
    && ValidWords(a.words)
    && |a.versions| == |a.die| == WORD_BITS * |a.words| <= MAX_ID + 1
    && a.slotSize >= CACHE_LINE && a.slotSize % CACHE_LINE == 0
    && (forall s :: 0 <= s < |a.versions| ==> a.versions[s] < VERSION_MODULUS)
    && (forall s :: 0 <= s < |a.die| ==> |a.die[s]| == a.slotSize)
  }

  predicate SameShape(a: Arena, b: Arena) {
    a.slotSize == b.slotSize && |a.words| == |b.words|
  }

  /** Between operations: occupied slots have odd versions, free slots hold only zero bytes. */
  predicate Inv(a: Arena) {
    && Valid(a)
    && (forall s :: 0 <= s < |a.versions| ==> (Occupied(a.words, s) <==> a.versions[s] % 2 == 1))
    && (forall s :: 0 <= s < |a.die| && !Occupied(a.words, s) ==> a.die[s] == Zeros(a.slotSize))
  }

  predicate IsPowerOfTwo(n: nat) {
    n != 0 && (n == 1 || (n % 2 == 0 && IsPowerOfTwo(n / 2)))
  }

  function Log2(n: nat): nat {
    if n <= 1 then 0 else 1 + Log2(n / 2)
  }

  predicate Acceptable(a: Arena, size: nat, align: nat) {
    0 < size <= a.slotSize && IsPowerOfTwo(align) && align <= a.slotSize && Log2(align) <= MAX_ALIGNMENT
  }

  predicate Validate(a: Arena, id: GenId)
    requires Valid(a)
  {
    && !id.IsNull()
    && id.slot < |a.versions|
    && a.versions[id.slot] == id.version
    && Occupied(a.words, id.slot)
  }

  function Bumped(v: nat): nat { (v + 1) % VERSION_MODULUS }

  lemma BumpFlipsParity(v: nat)
    requires v < VERSION_MODULUS
    ensures Bumped(v) < VERSION_MODULUS && Bumped(v) % 2 == 1 - v % 2
  {
    assert Bumped(v) == if v + 1 == VERSION_MODULUS then 0 else v + 1;
  }

  function Allocate(a: Arena, size: nat, align: nat, tid: nat): (r: (Arena, GenId))
    requires Valid(a)
    ensures Valid(r.0) && SameShape(a, r.0)
  {
    if !Acceptable(a, size, align) then (a, NULL_ID)
    else
      var picked := Pick(a.words, tid);
      if picked.None? then (a, NULL_ID)
      else
        PickIsFree(a.words, tid);
        var s := picked.value;
        TakeEffect(a.words, s);
        var v := Bumped(a.versions[s]);
        (a.(words := Take(a.words, s), versions := a.versions[s := v]),
         Make(s, v, Log2(align), FP32, ACTIVE))
  }

  function Release(a: Arena, id: GenId): (r: (Arena, bool))
    requires Valid(a)
    ensures Valid(r.0) && SameShape(a, r.0)
  {
    if !Validate(a, id) then (a, false)
    else
      var s := id.slot;
      GiveBackEffect(a.words, s);
      (a.(die := a.die[s := Zeros(a.slotSize)],
          versions := a.versions[s := Bumped(a.versions[s])],
          words := GiveBack(a.words, s)), true)
  }

  function SubSlotCount(slotSize: nat, subSize: nat): nat {
    if subSize == 0 || subSize > slotSize || slotSize % subSize != 0
       || subSize < CACHE_LINE || subSize % CACHE_LINE != 0 then 0
    else slotSize / subSize
  }

  predicate SubSlotValid(a: Arena, id: GenId, subSize: nat)
    requires Valid(a)
  {
    Validate(a, id) && id.sub < SubSlotCount(a.slotSize, subSize)
  }

  /** Bytes with `bytes` laid over them at `offset`; anything past the end is cut. */
  function Overlay(base: Bytes, offset: nat, bytes: Bytes): (r: Bytes)
    ensures |r| == |base|
    ensures forall k :: 0 <= k < |base| ==>
              r[k] == if offset <= k < offset + |bytes| then bytes[k - offset] else base[k]
  {
    seq(|base|, k requires 0 <= k < |base| => if offset <= k < offset + |bytes| then bytes[k - offset] else base[k])
  }

  function ZeroizeSub(a: Arena, id: GenId, subSize: nat): (r: (Arena, bool))
    requires Valid(a)
    ensures Valid(r.0) && SameShape(a, r.0)
  {
    if !SubSlotValid(a, id, subSize) then (a, false)
    else (Store(a, id.slot, id.sub * subSize, Zeros(subSize)), true)
  }

  /** A store through a view of the slot. */
  function Store(a: Arena, slot: nat, offset: nat, bytes: Bytes): (r: Arena)
    requires Valid(a) && slot < |a.die|
    ensures Valid(r) && SameShape(a, r)
  {
    a.(die := a.die[slot := Overlay(a.die[slot], offset, bytes)])
  }

  /* ---- what each operation does to the slots ---- */

  lemma AllocateEffect(a: Arena, size: nat, align: nat, tid: nat)
    requires Valid(a)
    ensures var (b, id) := Allocate(a, size, align, tid);
            if id.IsNull() then b == a && (!Acceptable(a, size, align) || forall s: nat :: s < |a.versions| ==> Occupied(a.words, s))
            else
              && Acceptable(a, size, align)
              && id.slot < |a.versions| && !Occupied(a.words, id.slot) && Validate(b, id) && id.sub == 0
              && id == Make(id.slot, b.versions[id.slot], Log2(align), FP32, ACTIVE)
              && b.die == a.die && b.versions == a.versions[id.slot := Bumped(a.versions[id.slot])]
              && forall t: nat :: Occupied(b.words, t) == (t == id.slot || Occupied(a.words, t))
  {
    if Acceptable(a, size, align) {
      var picked := Pick(a.words, tid);
      if picked.None? {
        PickFailsOnlyWhenFull(a.words, tid);
        forall s: nat | s < |a.versions| ensures Occupied(a.words, s) { ZeroWord(s % WORD_BITS); }
      } else {
        PickIsFree(a.words, tid);
        TakeEffect(a.words, picked.value);
      }
    }
  }

  lemma {:induction false} PowerIsAccepted(k: nat)
    ensures IsPowerOfTwo(Pow2(k)) && Log2(Pow2(k)) == k
  {
    if k > 0 {
      PowerIsAccepted(k - 1);
      assert Pow2(k) == 2 * Pow2(k - 1) && Pow2(k) / 2 == Pow2(k - 1);
    }
  }

  lemma {:induction false} AcceptedIsPower(n: nat)
    requires IsPowerOfTwo(n)
    ensures n == Pow2(Log2(n))
  {
    if n > 1 { AcceptedIsPower(n / 2); }
  }

  /** The alignments of allocate are the powers of two up to the slot size, 2 to the 127 at most. */
  ghost predicate Aligned(a: Arena, align: nat, k: nat) { align == Pow2(k) && align <= a.slotSize && k <= 127 }

  lemma AcceptableExactly(a: Arena, size: nat, align: nat)
    ensures Acceptable(a, size, align) <==> 0 < size <= a.slotSize && exists k: nat :: Aligned(a, align, k)
    ensures forall k: nat :: Aligned(a, align, k) ==> Log2(align) == k
  {
    hide IsPowerOfTwo, Log2, Pow2;
    forall k: nat | Aligned(a, align, k) ensures IsPowerOfTwo(align) && Log2(align) == k { PowerIsAccepted(k); }
    if Acceptable(a, size, align) {
      AcceptedIsPower(align);
      assert Aligned(a, align, Log2(align));
    }
  }

  /** allocate succeeds exactly for a size that fits, an alignment 2^k and a free slot; the handle carries the slot, its
      new version, k, the FP32 format code 0 and the active state code 1. */
  lemma AllocateExactly(a: Arena, size: nat, align: nat, tid: nat)
    requires Valid(a)
    ensures var (b, id) := Allocate(a, size, align, tid);
            && (!id.IsNull() <==> 0 < size <= a.slotSize && (exists k: nat :: Aligned(a, align, k))
                                  && exists s: nat :: s < |a.versions| && !Occupied(a.words, s))
            && (id.IsNull() ==> b == a)
            && (!id.IsNull() ==>
                  && id.slot < |a.versions| && !Occupied(a.words, id.slot)
                  && Aligned(a, align, id.alignment)
                  && id == GenId(id.slot, (a.versions[id.slot] + 1) % 0x1_0000, id.alignment, 0, 1, 0, 0))
  {
    hide Allocate, Acceptable, Log2, Pow2;
    AllocateEffect(a, size, align, tid);
    AcceptableExactly(a, size, align);
    if Acceptable(a, size, align) { AcceptedFits(a, size, align); }
  }

  lemma AcceptedFits(a: Arena, size: nat, align: nat)
    requires Acceptable(a, size, align)
    ensures Aligned(a, align, Log2(align))
  {
    AcceptedIsPower(align);
  }

  lemma AllocateKeepsInv(a: Arena, size: nat, align: nat, tid: nat)
    requires Inv(a)
    ensures Inv(Allocate(a, size, align, tid).0)
  {
    var (b, id) := Allocate(a, size, align, tid);
    AllocateEffect(a, size, align, tid);
    if !id.IsNull() {
      BumpFlipsParity(a.versions[id.slot]);
      assert a.versions[id.slot] % 2 == 0;
    }
  }

  lemma ReleaseEffect(a: Arena, id: GenId)
    requires Valid(a) && Validate(a, id)
    ensures var b := Release(a, id).0;
            && b.die == a.die[id.slot := Zeros(a.slotSize)]
            && b.versions == a.versions[id.slot := Bumped(a.versions[id.slot])]
            && forall t: nat :: Occupied(b.words, t) == (t != id.slot && Occupied(a.words, t))
  {
    GiveBackEffect(a.words, id.slot);
  }

  /** release succeeds exactly on a valid handle, and zeroizeSubSlot exactly on a valid handle whose sub-slot exists;
      refused, they change nothing. */
  lemma RefusedChangesNothing(a: Arena, id: GenId, subSize: nat)
    requires Valid(a)
    ensures Release(a, id).1 <==> Validate(a, id)
    ensures ZeroizeSub(a, id, subSize).1 <==> Validate(a, id) && exists k: nat :: id.sub < k && Tiles(k, subSize, a.slotSize)
    ensures !Release(a, id).1 ==> Release(a, id).0 == a
    ensures !ZeroizeSub(a, id, subSize).1 ==> ZeroizeSub(a, id, subSize).0 == a
  {
    hide SubSlotCount, Tiles;
    var n := SubSlotCount(a.slotSize, subSize);
    forall k: nat | k > 0 ensures n == k <==> Tiles(k, subSize, a.slotSize) { CountTiles(a.slotSize, subSize, k); }
    if n > 0 { assert Tiles(n, subSize, a.slotSize); }
  }

  lemma ReleaseKeepsInv(a: Arena, id: GenId)
    requires Inv(a)
    ensures Inv(Release(a, id).0)
  {
    if Validate(a, id) {
      ReleaseEffect(a, id);
      BumpFlipsParity(a.versions[id.slot]);
      assert a.versions[id.slot] % 2 == 1;
    }
  }

  /** Stores reach occupied slots only, so they keep the free slots zero. */
  lemma StoreKeepsInv(a: Arena, slot: nat, offset: nat, bytes: Bytes)
    requires Inv(a) && slot < |a.die| && Occupied(a.words, slot)
    ensures Inv(Store(a, slot, offset, bytes))
  {
  }

  /** A freshly allocated slot reads as zero, whoever used it before. */
  lemma AllocateYieldsZeros(a: Arena, size: nat, align: nat, tid: nat)
    requires Inv(a)
    ensures var (b, id) := Allocate(a, size, align, tid);
            !id.IsNull() ==> id.slot < |b.die| && b.die[id.slot] == Zeros(a.slotSize)
  {
    AllocateEffect(a, size, align, tid);
  }

  /** zeroizeSubSlot clears exactly its own range of its own slot, and neither a version nor an occupancy bit. */
  lemma ZeroizeSubIsLocal(a: Arena, id: GenId, subSize: nat)
    requires Valid(a) && SubSlotValid(a, id, subSize)
    ensures var b := ZeroizeSub(a, id, subSize).0;
            && b.words == a.words && b.versions == a.versions
            && (id.sub + 1) * subSize <= a.slotSize
            && (forall s :: 0 <= s < |a.die| && s != id.slot ==> b.die[s] == a.die[s])
            && (forall k :: 0 <= k < a.slotSize ==>
                  b.die[id.slot][k] == if id.sub * subSize <= k < (id.sub + 1) * subSize then 0 else a.die[id.slot][k])
  {
    SubRange(a.slotSize, subSize, id.sub);
  }

  /** k pieces of this size, each of whole cache lines, make up the slot. */
  predicate Tiles(k: nat, subSize: nat, slotSize: nat) {
    k > 0 && subSize > 0 && subSize % 128 == 0 && k * subSize == slotSize
  }

  /** The sub-slot count is the one number of pieces that tile the slot, and zero when no number does. */
  lemma CountTiles(slotSize: nat, subSize: nat, k: nat)
    requires k > 0
    ensures SubSlotCount(slotSize, subSize) == k <==> Tiles(k, subSize, slotSize)
  {
    if Tiles(k, subSize, slotSize) {
      assert k * subSize == subSize * k;
      QuotientIs(slotSize, subSize, k, 0);
      TimesMonotone(1, k, subSize);
    }
    if SubSlotCount(slotSize, subSize) == k {
      DivMod(slotSize, subSize);
      assert k * subSize == subSize * k;
    }
  }

  lemma SubRange(slotSize: nat, subSize: nat, sub: nat)
    requires sub < SubSlotCount(slotSize, subSize)
    ensures (sub + 1) * subSize <= slotSize && (sub + 1) * subSize == sub * subSize + subSize
  {
    var n := slotSize / subSize;
    assert slotSize == n * subSize;
    assert (sub + 1) * subSize <= n * subSize;
  }

  /** Views of different sub-slots never share a byte. */
  lemma SubSlotsDisjoint(slotSize: nat, subSize: nat, i: nat, j: nat)
    requires i < j < SubSlotCount(slotSize, subSize)
    ensures i * subSize + subSize <= j * subSize && j * subSize + subSize <= slotSize
  {
    SubRange(slotSize, subSize, j);
    assert (i + 1) * subSize <= j * subSize;
  }

  /* ---- generations over runs ---- */

  datatype Op =
    | DoAllocate(size: nat, align: nat, tid: nat)
    | DoRelease(id: GenId)
    | DoZeroizeSub(id: GenId, subSize: nat)
    | DoStore(id: GenId, offset: nat, bytes: Bytes)

  /** A store goes through a view, so it needs a handle that validates. */
  function Step(a: Arena, op: Op): (b: Arena)
    requires Valid(a)
    ensures Valid(b) && SameShape(a, b)
  {
    match op
    case DoAllocate(size, align, tid) => Allocate(a, size, align, tid).0
    case DoRelease(id) => Release(a, id).0
    case DoZeroizeSub(id, subSize) => ZeroizeSub(a, id, subSize).0
    case DoStore(id, offset, bytes) => if Validate(a, id) then Store(a, id.slot, offset, bytes) else a
  }

  function Run(a: Arena, ops: seq<Op>): (b: Arena)
    requires Valid(a)
    ensures Valid(b) && SameShape(a, b)
    decreases |ops|
  {
    if ops == [] then a else Run(Step(a, ops[0]), ops[1..])
  }

  /** How often slot s is handed out during the run. */
  function Reuses(a: Arena, ops: seq<Op>, s: nat): nat
    requires Valid(a)
    decreases |ops|
  {
    if ops == [] then 0
    else (if TakesSlot(a, ops[0], s) then 1 else 0) + Reuses(Step(a, ops[0]), ops[1..], s)
  }

  predicate TakesSlot(a: Arena, op: Op, s: nat)
    requires Valid(a)
  {
    op.DoAllocate? &&
    var id := Allocate(a, op.size, op.align, op.tid).1;
    !id.IsNull() && id.slot == s
  }

  lemma StepKeepsInv(a: Arena, op: Op)
    requires Inv(a)
    ensures Inv(Step(a, op))
  {
    match op
    case DoAllocate(size, align, tid) => AllocateKeepsInv(a, size, align, tid);
    case DoRelease(id) => ReleaseKeepsInv(a, id);
    case DoZeroizeSub(id, subSize) =>
    case DoStore(id, offset, bytes) =>
  }

  /** Parity of versions and zeroed free slots hold in every reachable state. */
  lemma {:induction false} RunKeepsInv(a: Arena, ops: seq<Op>)
    requires Inv(a)
    ensures Inv(Run(a, ops))
    decreases |ops|
  {
    if ops != [] {
      StepKeepsInv(a, ops[0]);
      RunKeepsInv(Step(a, ops[0]), ops[1..]);
    }
  }

  ghost function Held(a: Arena, s: nat): nat { if Occupied(a.words, s) then 1 else 0 }

  /** Two version bumps per completed cycle of the slot, modulo 2^16. */
  ghost predicate Moved(before: nat, heldBefore: nat, reuses: nat, after: nat, heldAfter: nat) {
    after == (before + 2 * reuses + heldBefore - heldAfter) % VERSION_MODULUS
  }

  lemma MovedTrans(v0: nat, h0: nat, n0: nat, v1: nat, h1: nat, n1: nat, v2: nat, h2: nat)
    requires Moved(v0, h0, n0, v1, h1) && Moved(v1, h1, n1, v2, h2)
    ensures Moved(v0, h0, n0 + n1, v2, h2)
  {
    ModuloSum(v0 + 2 * n0 + h0 - h1, v1, 2 * n1 + h1 - h2);
  }

  lemma ModuloSum(x: int, y: nat, z: int)
    requires y == x % VERSION_MODULUS
    ensures (y + z) % VERSION_MODULUS == (x + z) % VERSION_MODULUS
  {
  }

  lemma AllocateVersion(a: Arena, size: nat, align: nat, tid: nat, s: nat)
    requires Inv(a) && s < |a.versions|
    ensures var op := DoAllocate(size, align, tid);
            Moved(a.versions[s], Held(a, s), if TakesSlot(a, op, s) then 1 else 0, Step(a, op).versions[s], Held(Step(a, op), s))
  {
    hide Allocate, Acceptable, Validate, Moved;
    AllocateEffect(a, size, align, tid);
    var (b, id) := Allocate(a, size, align, tid);
    var taken := !id.IsNull() && id.slot == s;
    AllocateMoved(a.versions[s], Held(a, s), taken, b.versions[s], Held(b, s));
  }

  lemma AllocateMoved(v: nat, h: nat, taken: bool, v': nat, h': nat)
    requires v < VERSION_MODULUS && if taken then v' == Bumped(v) && h == 0 && h' == 1 else v' == v && h' == h
    ensures Moved(v, h, if taken then 1 else 0, v', h')
  {
  }

  lemma ReleaseVersion(a: Arena, id: GenId, s: nat)
    requires Inv(a) && s < |a.versions|
    ensures Moved(a.versions[s], Held(a, s), 0, Release(a, id).0.versions[s], Held(Release(a, id).0, s))
  {
    if Validate(a, id) { ReleaseEffect(a, id); }
  }

  lemma StepVersion(a: Arena, op: Op, s: nat)
    requires Inv(a) && s < |a.versions|
    ensures Moved(a.versions[s], Held(a, s), if TakesSlot(a, op, s) then 1 else 0, Step(a, op).versions[s], Held(Step(a, op), s))
  {
    match op
    case DoAllocate(size, align, tid) => AllocateVersion(a, size, align, tid, s);
    case DoRelease(id) => ReleaseVersion(a, id, s);
    case DoZeroizeSub(id, subSize) =>
    case DoStore(id, offset, bytes) =>
  }

  lemma StartVersion(a: Arena, s: nat)
    requires Inv(a) && s < |a.versions|
    ensures Moved(a.versions[s], Held(a, s), 0, a.versions[s], Held(a, s))
  {
  }

  lemma {:induction false} RunVersion(a: Arena, ops: seq<Op>, s: nat)
    requires Inv(a) && s < |a.versions|
    ensures Moved(a.versions[s], Held(a, s), Reuses(a, ops, s), Run(a, ops).versions[s], Held(Run(a, ops), s))
    decreases |ops|
  {
    hide Step, Allocate, Release, Moved, TakesSlot, Held, Validate;
    if ops == [] {
      StartVersion(a, s);
    } else {
      var b := Step(a, ops[0]);
      var c := Run(b, ops[1..]);
      StepVersion(a, ops[0], s);
      StepKeepsInv(a, ops[0]);
      RunVersion(b, ops[1..], s);
      MovedTrans(a.versions[s], Held(a, s), if TakesSlot(a, ops[0], s) then 1 else 0, b.versions[s], Held(b, s),
                 Reuses(b, ops[1..], s), c.versions[s], Held(c, s));
    }
  }

  /** ABA safety with its exact bound: after any run, an old handle validates iff its slot is
      occupied and was handed out again a multiple of 32768 times. */
  lemma OldHandleValidatesExactly(a: Arena, size: nat, align: nat, tid: nat, ops: seq<Op>)
    requires Inv(a)
    requires !Allocate(a, size, align, tid).1.IsNull()
    ensures var (b, id) := Allocate(a, size, align, tid);
            var c := Run(b, ops);
            Validate(c, id) <==> Occupied(c.words, id.slot) && Reuses(b, ops, id.slot) % 32768 == 0
  {
    var (b, id) := Allocate(a, size, align, tid);
    AllocateEffect(a, size, align, tid);
    AllocateKeepsInv(a, size, align, tid);
    HandleValidatesExactly(b, id, ops);
  }

  lemma HandleValidatesExactly(b: Arena, id: GenId, ops: seq<Op>)
    requires Inv(b) && Validate(b, id)
    ensures var c := Run(b, ops);
            Validate(c, id) <==> Occupied(c.words, id.slot) && Reuses(b, ops, id.slot) % 32768 == 0
  {
    hide Step, Allocate, Run, Reuses;
    RunVersion(b, ops, id.slot);
    SameVersion(id.version, Reuses(b, ops, id.slot));
  }

  lemma SameVersion(v: nat, n: nat)
    requires v < VERSION_MODULUS
    ensures (v + 2 * n) % VERSION_MODULUS == v <==> n % 32768 == 0
  {
  }
}
