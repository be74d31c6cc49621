/** The arena as the program keeps it: one flat byte buffer, a generation per slot, a selector
    (include/qtx/arena/fractal_arena.hpp).  Every method is proved to compute the operation of
    ArenaSpec of the same name on `Model()`. */
module FractalArenas {
  import opened BitWords
  import opened Common
  import opened GenIds
  import opened Selector
  import S = SelectorSpec
  import A = ArenaSpec

  /** A std::span into the die; empty when a view is refused. */
  datatype Span = Span(start: nat, length: nat)

  const NO_SPAN: Span := Span(0, 0)

  /** Where slot s starts. */
  function At(s: nat, size: nat): nat { s * size }

  lemma SlotFits(s: nat, n: nat, size: nat)
    requires s < n
    ensures At(s, size) + size <= At(n, size)
  {
    assert (s + 1) * size <= n * size;
  }

  ghost function SlotBytes(d: Bytes, size: nat, n: nat, s: nat): (r: Bytes)
    requires |d| == At(n, size) && s < n
    ensures |r| == size
  {
    SlotFits(s, n, size);
    d[At(s, size)..At(s, size) + size]
  }

  ghost function Slots(d: Bytes, size: nat, n: nat): (r: seq<Bytes>)
    requires |d| == At(n, size)
    ensures |r| == n && forall s :: 0 <= s < n ==> r[s] == SlotBytes(d, size, n, s)
  {
    seq(n, s requires 0 <= s < n => SlotBytes(d, size, n, s))
  }

  lemma SubSlotFits(size: nat, subSize: nat, sub: nat)
    requires sub < A.SubSlotCount(size, subSize)
    ensures subSize > 0 && At(sub, subSize) + subSize <= size
  {
    A.SubRange(size, subSize, sub);
  }

  lemma SliceOfSlot(d: Bytes, size: nat, n: nat, s: nat, offset: nat, length: nat)
    requires |d| == At(n, size) && s < n && offset + length <= size
    ensures At(s, size) + offset + length <= |d|
    ensures d[At(s, size) + offset..At(s, size) + offset + length] == SlotBytes(d, size, n, s)[offset..offset + length]
  {
    hide At;
    SlotFits(s, n, size);
    var whole := SlotBytes(d, size, n, s);
    forall k | offset <= k < offset + length ensures whole[k] == d[At(s, size) + k] { }
  }

  /** Overwriting part of one slot of the flat buffer. */
  lemma SlotsAfterStore(d: Bytes, d': Bytes, size: nat, n: nat, s: nat, offset: nat, bytes: Bytes)
    requires |d| == |d'| == At(n, size) && s < n
    requires forall k :: 0 <= k < |d| ==>
               d'[k] == if At(s, size) + offset <= k < At(s, size) + size && k < At(s, size) + offset + |bytes|
                        then bytes[k - At(s, size) - offset] else d[k]
    ensures Slots(d', size, n) == Slots(d, size, n)[s := A.Overlay(SlotBytes(d, size, n, s), offset, bytes)]
  {
    SlotFits(s, n, size);
    forall t: nat | t < n
      ensures SlotBytes(d', size, n, t) == if t == s then A.Overlay(SlotBytes(d, size, n, s), offset, bytes) else SlotBytes(d, size, n, t)
    {
      SlotFits(t, n, size);
      if t < s { SlotFits(t, s, size); } else if s < t { SlotFits(s, t, size); }
    }
  }

  lemma ZeroOverlay(d: Bytes)
    ensures A.Overlay(d, 0, Zeros(|d|)) == Zeros(|d|)
  {
  }

  lemma ZeroSlots(d: Bytes, size: nat, n: nat)
    requires |d| == At(n, size)
    requires forall k :: 0 <= k < |d| ==> d[k] == 0
    ensures forall s :: 0 <= s < n ==> Slots(d, size, n)[s] == Zeros(size)
  {
    forall s | 0 <= s < n ensures SlotBytes(d, size, n, s) == Zeros(size) {
      SlotFits(s, n, size);
      ZerosIsUnique(SlotBytes(d, size, n, s));
    }
  }

  class FractalArena {
    const slotSize: nat
    const selector: AxiomSelector
    const versions: array<nat>
    const die: array<bv8>

    /** The object is none of the arrays the operations write. */
    ghost predicate Apart(o: object) {
      o != selector.words as object && o != versions as object && o != die as object
    }

    ghost predicate Valid()
      reads selector.words, versions, die
    {
      && versions as object != die as object && selector.words as object != die as object
      && selector.words != versions
      && die.Length == At(versions.Length, slotSize) && A.Valid(Model())
    }

    ghost function Model(): A.Arena
      requires die.Length == At(versions.Length, slotSize)
      reads selector.words, versions, die
    {
      A.Arena(slotSize, selector.words[..], versions[..], Slots(die[..], slotSize, versions.Length))
    }

    constructor (wordCount: nat, slotSize: nat)
      requires 0 < wordCount && S.WORD_BITS * wordCount <= MAX_ID + 1
      requires slotSize >= A.CACHE_LINE && slotSize % A.CACHE_LINE == 0
      ensures this.slotSize == slotSize && versions.Length == S.WORD_BITS * wordCount
      ensures fresh(selector) && fresh(selector.words) && fresh(versions) && fresh(die)
      ensures Valid() && A.Inv(Model())
      ensures forall s: nat :: s < S.WORD_BITS * wordCount ==> S.Free(Model().words, s) && Model().versions[s] == 0
    {
      hide At, SlotBytes, Zeros;
      var n := S.WORD_BITS * wordCount;
      this.slotSize := slotSize;
      selector := new AxiomSelector(wordCount);
      versions := new nat[n](_ => 0);
      die := new bv8[At(n, slotSize)](_ => 0);
      new;
      ZeroSlots(die[..], slotSize, n);
      assert forall s: nat :: s < n ==> S.Free(Model().words, s) && !S.Occupied(Model().words, s);
    }

    predicate Validate(id: GenId)
      requires Valid()
      reads selector, selector.words, versions, die
      ensures Validate(id) == A.Validate(Model(), id)
    {
      if id.IsNull() then false
      else if id.slot >= versions.Length then false
      else if versions[id.slot] != id.version then false
      else selector.IsOccupied(id.slot)
    }

    method Allocate(size: nat, align: nat, tid: nat) returns (id: GenId)
      requires Valid()
      modifies selector.words, versions
      ensures Valid()
      ensures (Model(), id) == A.Allocate(old(Model()), size, align, tid)
    {
      hide At, Slots, SlotBytes, A.Log2, S.Pick, S.Take, Make;
      if size == 0 || size > slotSize { return NULL_ID; }
      if align == 0 || !A.IsPowerOfTwo(align) || align > slotSize { return NULL_ID; }
      var alignmentClass := A.Log2(align);
      if alignmentClass > MAX_ALIGNMENT { return NULL_ID; }
      var slot := selector.Acquire(tid);
      if slot == NO_SLOT { return NULL_ID; }
      S.PickIsFree(old(selector.words[..]), tid);
      versions[slot] := (versions[slot] + 1) % A.VERSION_MODULUS;
      assert versions[..] == old(versions[..])[slot := A.Bumped(old(versions[slot]))];
      assert die[..] == old(die[..]);
      return Make(slot, versions[slot], alignmentClass, FP32, ACTIVE);
    }

    /** The whole slot, or nothing. */
    method View(id: GenId) returns (v: Span)
      requires Valid()
      ensures if !A.Validate(Model(), id) then v == NO_SPAN
              else v.length == slotSize > 0 && id.slot < versions.Length
                   && v.start == At(id.slot, slotSize) && v.start + v.length <= die.Length
                   && die[v.start..v.start + v.length] == Model().die[id.slot]
    {
      if !Validate(id) { return NO_SPAN; }
      SlotFits(id.slot, versions.Length, slotSize);
      return Span(At(id.slot, slotSize), slotSize);
    }

    method SubSlotCount(subSize: nat) returns (n: nat)
      ensures n == A.SubSlotCount(slotSize, subSize)
      ensures forall k: nat {:trigger A.Tiles(k, subSize, slotSize)} :: k > 0 ==> (n == k <==> A.Tiles(k, subSize, slotSize))
    {
      forall k: nat | k > 0 ensures A.SubSlotCount(slotSize, subSize) == k <==> A.Tiles(k, subSize, slotSize) {
        A.CountTiles(slotSize, subSize, k);
      }
      hide A.Tiles;
      if subSize == 0 { return 0; }
      if subSize > slotSize { return 0; }
      if slotSize % subSize != 0 { return 0; }
      if subSize < A.CACHE_LINE { return 0; }
      if subSize % A.CACHE_LINE != 0 { return 0; }
      return slotSize / subSize;
    }

    /** One sub-slot's range, or nothing. */
    method ViewSubSlot(id: GenId, subSize: nat) returns (v: Span)
      requires Valid()
      ensures if !A.SubSlotValid(Model(), id, subSize) then v == NO_SPAN
              else v.length == subSize > 0 && v.start == At(id.slot, slotSize) + At(id.sub, subSize)
                   && At(id.sub, subSize) + subSize <= slotSize && v.start + v.length <= die.Length
                   && die[v.start..v.start + v.length] == Model().die[id.slot][At(id.sub, subSize)..At(id.sub, subSize) + subSize]
    {
      hide At, S.Occupied, A.Validate, A.SubSlotCount, SlotBytes;
      if !Validate(id) { return NO_SPAN; }
      var n := SubSlotCount(subSize);
      if n == 0 { return NO_SPAN; }
      if id.sub >= n { return NO_SPAN; }
      SlotFits(id.slot, versions.Length, slotSize);
      SubSlotFits(slotSize, subSize, id.sub);
      SliceOfSlot(die[..], slotSize, versions.Length, id.slot, At(id.sub, subSize), subSize);
      return Span(At(id.slot, slotSize) + At(id.sub, subSize), subSize);
    }

    /** Stores through a span: byte by byte from `start`, never past `limit`. */
    method Write(start: nat, limit: nat, bytes: Bytes)
      requires start <= limit <= die.Length
      modifies die
      ensures forall k :: 0 <= k < die.Length ==>
                die[k] == if start <= k < limit && k < start + |bytes| then bytes[k - start] else old(die[k])
    {
      var i := 0;
      while i < |bytes| && start + i < limit
        invariant 0 <= i <= |bytes| && start + i <= limit
        invariant forall k :: 0 <= k < die.Length ==>
                    die[k] == if start <= k < start + i then bytes[k - start] else old(die[k])
      {
        die[start + i] := bytes[i];
        i := i + 1;
      }
    }

    method Store(slot: nat, offset: nat, bytes: Bytes)
      requires Valid() && slot < versions.Length && offset <= slotSize
      modifies die
      ensures Valid() && Model() == A.Store(old(Model()), slot, offset, bytes)
    {
      hide At, SlotBytes, A.Overlay;
      SlotFits(slot, versions.Length, slotSize);
      assert versions[..] == old(versions[..]);
      assert selector.words[..] == old(selector.words[..]);
      ghost var before := die[..];
      Write(At(slot, slotSize) + offset, At(slot, slotSize) + slotSize, bytes);
      SlotsAfterStore(before, die[..], slotSize, versions.Length, slot, offset, bytes);
    }

    method ZeroizeSubSlot(id: GenId, subSize: nat) returns (ok: bool)
      requires Valid()
      modifies die
      ensures Valid() && (Model(), ok) == A.ZeroizeSub(old(Model()), id, subSize)
    {
      var v := ViewSubSlot(id, subSize);
      if v.length == 0 { return false; }
      Store(id.slot, id.sub * subSize, Zeros(subSize));
      return true;
    }

    /** Wipe, bump, then give the bit back. */
    method Release(id: GenId) returns (ok: bool)
      requires Valid()
      modifies selector.words, versions, die
      ensures Valid() && (Model(), ok) == A.Release(old(Model()), id)
    {
      hide At, Slots, SlotBytes, A.Validate, A.Overlay, S.Occupied, S.GiveBack, Zeros;
      if !Validate(id) { return false; }
      var slot := id.slot;
      ZeroOverlay(Model().die[slot]);
      Store(slot, 0, Zeros(slotSize));
      versions[slot] := (versions[slot] + 1) % A.VERSION_MODULUS;
      selector.Release(slot);
      assert versions[..] == old(versions[..])[slot := A.Bumped(old(versions[slot]))];
      return true;
    }

    method UsedSlots() returns (n: int)
      requires Valid()
      ensures n == versions.Length - |S.FreeSlots(Model().words)|
    {
      var total := selector.CountFree();
      n := versions.Length - total;
    }
  }
}
