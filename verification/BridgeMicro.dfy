/** Micro-tenants: the bitmap refines the set of live siblings, and the bytes handed out never overlap. */
module BridgeMicro {
  import opened BitWords
  import opened Common
  import opened GenIds
  import opened SelectorSpec
  import A = ArenaSpec
  import opened BridgeSpec
  import opened BridgeInvariant
  import opened BridgeOwnership
  import opened BridgeLookup
  import opened BridgeCounting

  /** The two range checks against a corrupted record never fire in a reachable state. */
  lemma GuardsNeverFire(c: Codec, b: Bridge, i: nat)
    requires Valid(c, b) && Owned(c, b) && i < |b.tenants| && b.tenants[i].inUse && b.tenants[i].kind == Micro
    ensures b.tenants[i].sharedIdx < |b.shared| && b.tenants[i].hotId.sub < SubSlots(b)
    ensures DestroyMicro(c, b, i).1
  {
    var l :| Inv(c, b, l) && AtRest(l);
    assert TenantOk(b, l, i);
  }

  /* ---- views ---- */

  lemma MicroSubCount(slotSize: nat)
    requires slotSize >= MICRO_SLOT && slotSize % MICRO_SLOT == 0
    ensures A.SubSlotCount(slotSize, MICRO_SLOT) == slotSize / MICRO_SLOT
  {
  }

  lemma EntryHandleValid(c: Codec, b: Bridge, l: Ledger, i: nat)
    requires Inv(c, b, l) && i < |b.tenants| && b.tenants[i].inUse && b.tenants[i].kind == Micro
    ensures var t := b.tenants[i];
            && t.sharedIdx < |b.shared| && t.hotId.sub < SubSlots(b) && Bit(b.shared[t.sharedIdx].bitmap, t.hotId.sub)
            && t.hotId.slot == b.shared[t.sharedIdx].hotId.slot && l.hot[t.hotId.slot] == OfEntry(t.sharedIdx)
            && A.Validate(b.hot, t.hotId) && A.SubSlotValid(b.hot, t.hotId, MICRO_SLOT)
            && l.bits[t.sharedIdx][t.hotId.sub] == i
  {
    hide A.Inv, CeilDiv, Pow2, Bit, HotSlotOk, ColdSlotOk;
    assert TenantOk(b, l, i);
    var t := b.tenants[i];
    assert EntryOk(b, l, t.sharedIdx);
    MicroSubCount(b.hot.slotSize);
    ZeroWord(t.hotId.sub);
  }

  /** The bytes a live, hot tenant may be handed: its whole slot, or its own sub-slot. */
  function Extent(b: Bridge, t: Tenant): View {
    if t.kind == Micro then View(t.hotId.slot, t.hotId.sub * MICRO_SLOT, MICRO_SLOT)
    else View(t.hotId.slot, 0, b.hot.slotSize)
  }

  predicate Disjoint(v: View, w: View)
    requires v.View? && w.View?
  {
    v.slot != w.slot || v.offset + v.length <= w.offset || w.offset + w.length <= v.offset
  }

  /** No two live tenants are ever handed a common byte, and every extent lies inside its slot. */
  lemma ExtentsDisjoint(c: Codec, b: Bridge, i: nat, j: nat)
    requires Valid(c, b) && Owned(c, b) && i < |b.tenants| && j < |b.tenants| && i != j
    requires b.tenants[i].inUse && b.tenants[i].state == InHot && b.tenants[j].inUse && b.tenants[j].state == InHot
    ensures Disjoint(Extent(b, b.tenants[i]), Extent(b, b.tenants[j]))
    ensures var v := Extent(b, b.tenants[i]); v.slot < |b.hot.die| && v.offset + v.length <= b.hot.slotSize
  {
    hide A.Inv, CeilDiv, Occupied, Bit, Pow2, ColdSlotOk;
    var l :| Inv(c, b, l) && AtRest(l);
    assert TenantOk(b, l, i) && TenantOk(b, l, j);
    if b.tenants[i].kind == Micro { EntryHandleValid(c, b, l, i); }
    if b.tenants[j].kind == Micro { EntryHandleValid(c, b, l, j); }
  }

  /** acquireMicroFP32 succeeds exactly on live micro-tenants under the pin limit, and returns their extent. */
  lemma AcquiredMicroViewIsExtent(c: Codec, b: Bridge, i: nat, id: nat)
    requires Valid(c, b) && Owned(c, b) && Holds(b, i, id)
    ensures var (b', v) := AcquireMicroFP32(c, b, id);
            && (v.View? <==> b.tenants[i].kind == Micro && b.tenants[i].pins < PIN_SOFT_MAX)
            && (v.View? ==> v == Extent(b', b'.tenants[i]))
  {
    FoundExactly(c, b, i, id);
    var l :| Inv(c, b, l) && AtRest(l);
    hide Inv, A.SubSlotCount, A.Valid, Bit;
    if b.tenants[i].kind == Micro {
      EntryHandleValid(c, b, l, i);
      LiveShape(c, b, l, i);
    }
  }

  /** The view acquireFP32 returns is the tenant's whole slot: a full tenant's extent, and for a micro-tenant the slot
      it shares with its siblings. */
  lemma AcquiredFullViewIsExtent(c: Codec, b: Bridge, i: nat, id: nat, tid: nat)
    requires Valid(c, b) && Owned(c, b) && Holds(b, i, id)
    ensures var (b', v) := AcquireFP32(c, b, id, tid);
            var t := b'.tenants[i];
            v.View? ==> v == View(t.hotId.slot, 0, b'.hot.slotSize) && (t.kind == FullSlot ==> v == Extent(b', t))
  {
    FoundExactly(c, b, i, id);
    hide Promote, A.Valid, Owned;
  }

  /** A micro-tenant's sub-slot lies inside what acquireFP32 hands out on its handle, and so do its siblings'. */
  lemma WholeSharedSlot(c: Codec, b: Bridge, i: nat, id: nat, tid: nat, j: nat)
    requires Valid(c, b) && Owned(c, b) && Holds(b, i, id) && b.tenants[i].kind == Micro && b.tenants[i].pins < PIN_SOFT_MAX
    requires j < |b.tenants| && b.tenants[j].inUse && b.tenants[j].kind == Micro && b.tenants[j].sharedIdx == b.tenants[i].sharedIdx
    ensures var v, w := AcquireFP32(c, b, id, tid).1, Extent(b, b.tenants[j]);
            v == View(b.tenants[i].hotId.slot, 0, b.hot.slotSize) && w.slot == v.slot && w.offset + w.length <= v.length
  {
    FoundExactly(c, b, i, id);
    var l :| Inv(c, b, l) && AtRest(l);
    hide Inv, A.SubSlotCount, A.Valid, Bit;
    EntryHandleValid(c, b, l, i);
    EntryHandleValid(c, b, l, j);
    LiveShape(c, b, l, i);
    LiveShape(c, b, l, j);
    SubSlotInside(c, b, l, j);
  }

  lemma SubSlotInside(c: Codec, b: Bridge, l: Ledger, j: nat)
    requires Inv(c, b, l) && j < |b.tenants| && b.tenants[j].inUse && b.tenants[j].kind == Micro
    ensures b.tenants[j].hotId.sub * MICRO_SLOT + MICRO_SLOT <= b.hot.slotSize
  {
    hide Occupied, Bit, Pow2;
    EntryHandleValid(c, b, l, j);
    MicroSubCount(b.hot.slotSize);
  }

  /* ---- creation ---- */

  /** The bytes of a view in an arena. */
  function Read(a: A.Arena, v: View): Bytes
    requires A.Valid(a) && v.View? && v.slot < |a.die| && v.offset + v.length <= a.slotSize
  {
    a.die[v.slot][v.offset..v.offset + v.length]
  }

  ghost predicate SomeRoom(b: Bridge) {
    exists e :: 0 <= e < |b.shared| && HasRoom(b.shared[e], SubSlots(b))
  }

  lemma RoomIsFound(shared: seq<Shared>, n: nat, start: nat, e: nat)
    requires start < |shared| && e < |shared| && HasRoom(shared[e], n)
    ensures EntryWithRoom(shared, n, start, 0).Some?
  {
    if EntryWithRoom(shared, n, start, 0).None? { NoRoomInEntry(shared, n, start, e); }
  }

  lemma BindMicroEffect(c: Codec, b: Bridge, i: nat, e: nat, k: nat)
    requires Valid(c, b) && i < |b.tenants| && e < |b.shared| && k <= MAX_SUB_SLOT
    ensures var (b', id) := BindMicro(c, b, i, e, k);
            && id == Some(NextId(b.lastId)) && b'.shared == b.shared && b'.cold == b.cold
            && b'.hot.words == b.hot.words && b'.hot.versions == b.hot.versions && b'.hot.slotSize == b.hot.slotSize
            && b'.tenants == b.tenants[i := Tenant(NextId(b.lastId), 0, InHot, b.clock, true, false,
                                                   b.shared[e].hotId.WithSubSlot(k), NULL_ID, Micro, e)]
  {
    hide A.SubSlotCount, A.Overlay, CeilDiv;
  }

  /** While some live shared slot has a hole, a new micro-tenant fills the lowest hole of one of them and
      no hot slot is allocated: neither occupancy nor any version moves. */
  lemma HoleBeforeFreshSlot(c: Codec, b: Bridge, tid: nat)
    requires Valid(c, b) && FreeRecord(b.tenants, 0).Some? && SomeRoom(b)
    ensures var (b', id) := CreateMicroTenant(c, b, tid);
            var t := b'.tenants[FreeRecord(b.tenants, 0).value];
            && id == Some(t.id) && t.inUse && t.kind == Micro
            && b'.hot.words == b.hot.words && b'.hot.versions == b.hot.versions && b'.cold == b.cold
            && t.sharedIdx < |b.shared| && t.hotId.slot == b.shared[t.sharedIdx].hotId.slot
            && !Bit(b.shared[t.sharedIdx].bitmap, t.hotId.sub)
            && (forall k: nat :: k < t.hotId.sub ==> Bit(b.shared[t.sharedIdx].bitmap, k))
            && b'.shared == b.shared[t.sharedIdx := b.shared[t.sharedIdx].(bitmap := SetBit(b.shared[t.sharedIdx].bitmap, t.hotId.sub))]
  {
    hide BindMicro, Pow2, SetBit, Bit, A.Valid, CeilDiv, FreshMicro;
    var e :| 0 <= e < |b.shared| && HasRoom(b.shared[e], SubSlots(b));
    RoomIsFound(b.shared, SubSlots(b), b.scanStart, e);
    var found := EntryWithRoom(b.shared, SubSlots(b), b.scanStart, 0).value;
    var bitmap := b.shared[found].bitmap;
    var k := LowestClear(bitmap);
    FullWord(bitmap, SubSlots(b));
    WidthAfter(bitmap, SubSlots(b), k);
    forall j: nat | j < k ensures Bit(bitmap, j) {
      if !Bit(bitmap, j) { LowestClearIsLowest(bitmap, j); }
    }
    var b1 := b.(scanStart := if b.scanStart + 1 == |b.shared| then 0 else b.scanStart + 1,
                 shared := b.shared[found := b.shared[found].(bitmap := SetBit(bitmap, k))]);
    BindMicroEffect(c, b1, FreeRecord(b.tenants, 0).value, found, k);
  }

  /** Both ways of creating a micro-tenant end in BindMicro. */
  lemma CreateMicroBinds(c: Codec, b: Bridge, tid: nat) returns (b1: Bridge, e: nat, k: nat)
    requires Valid(c, b) && CreateMicroTenant(c, b, tid).1.Some?
    ensures Valid(c, b1) && FreeRecord(b.tenants, 0).Some? && e < |b1.shared| && k <= MAX_SUB_SLOT
    ensures OnlyEvicted(b.tenants, b1.tenants, NO_TENANT_ID) && b1.clock == b.clock && b1.lastId == b.lastId
    ensures CreateMicroTenant(c, b, tid) == BindMicro(c, b1, FreeRecord(b.tenants, 0).value, e, k)
  {
    hide BindMicro, Pow2, SetBit, Bit, A.Valid, CeilDiv, AllocHot, A.Release;
    var i := FreeRecord(b.tenants, 0).value;
    var b0 := b.(scanStart := if b.scanStart + 1 == |b.shared| then 0 else b.scanStart + 1);
    var found := EntryWithRoom(b.shared, SubSlots(b), b.scanStart, 0);
    if found.Some? {
      e := found.value;
      var bitmap := b.shared[e].bitmap;
      k := LowestClear(bitmap);
      FullWord(bitmap, SubSlots(b));
      WidthAfter(bitmap, SubSlots(b), k);
      b1 := b0.(shared := b0.shared[e := b0.shared[e].(bitmap := SetBit(bitmap, k))]);
    } else {
      AllocHotFrame(c, b0, NO_TENANT_ID, tid, EVICT_RETRIES);
      var (b2, freshId) := AllocHot(c, b0, NO_TENANT_ID, tid, EVICT_RETRIES);
      e, k := EmptyEntry(b2.shared, 0).value, 0;
      OneFits(SubSlots(b2));
      b1 := b2.(shared := b2.shared[e := Shared(1, freshId)]);
    }
  }

  /** Whatever was there before, a new micro-tenant's first view is all zero. */
  lemma FirstMicroViewIsZero(c: Codec, b: Bridge, tid: nat)
    requires Valid(c, b) && Owned(c, b) && CreateMicroTenant(c, b, tid).1.Some?
    ensures FreeRecord(b.tenants, 0).Some?
    ensures var b' := CreateMicroTenant(c, b, tid).0;
            var v := Extent(b', b'.tenants[FreeRecord(b.tenants, 0).value]);
            v.slot < |b'.hot.die| && v.offset + v.length <= b'.hot.slotSize && Read(b'.hot, v) == Zeros(MICRO_SLOT)
  {
    var b1, e, k := CreateMicroBinds(c, b, tid);
    var i := FreeRecord(b.tenants, 0).value;
    var l :| Inv(c, b, l) && AtRest(l);
    var l' := CreateMicroTenantKeeps(c, b, l, tid);
    hide Inv, CreateMicroTenant, CeilDiv, Bit;
    BindMicroEffect(c, b1, i, e, k);
    var b' := BindMicro(c, b1, i, e, k).0;
    EntryHandleValid(c, b', l', i);
    ZeroizedRead(b1.hot, b'.tenants[i].hotId);
  }

  lemma ZeroizedRead(a: A.Arena, id: GenId)
    requires A.Valid(a) && A.SubSlotValid(a, id, MICRO_SLOT)
    ensures id.sub * MICRO_SLOT + MICRO_SLOT <= a.slotSize
    ensures Read(A.ZeroizeSub(a, id, MICRO_SLOT).0, View(id.slot, id.sub * MICRO_SLOT, MICRO_SLOT)) == Zeros(MICRO_SLOT)
  {
    hide A.Overlay;
    A.SubRange(a.slotSize, MICRO_SLOT, id.sub);
    A.ZeroizeSubIsLocal(a, id, MICRO_SLOT);
    var z := Read(A.ZeroizeSub(a, id, MICRO_SLOT).0, View(id.slot, id.sub * MICRO_SLOT, MICRO_SLOT));
    ZerosIsUnique(z);
  }

  /* ---- destruction ---- */

  /** Destroying a micro-tenant frees the shared hot slot exactly when it was the last sibling, and then
      empties the entry; otherwise the slot stays occupied under the same handle. */
  lemma SlotFreedWithLastSibling(c: Codec, b: Bridge, i: nat)
    requires Valid(c, b) && Owned(c, b) && i < |b.tenants| && b.tenants[i].inUse && b.tenants[i].kind == Micro
    ensures var t := b.tenants[i];
            var b' := DestroyMicro(c, b, i).0;
            && t.sharedIdx < |b.shared|
            && (Occupied(b'.hot.words, t.hotId.slot) <==> MicrosIn(b, t.sharedIdx) != {i})
            && (b'.shared[t.sharedIdx].hotId == if MicrosIn(b, t.sharedIdx) == {i} then NULL_ID else b.shared[t.sharedIdx].hotId)
            && forall s: nat :: s != t.hotId.slot ==> (Occupied(b'.hot.words, s) <==> Occupied(b.hot.words, s))
  {
    var l :| Inv(c, b, l) && AtRest(l);
    EntryHandleValid(c, b, l, i);
    var t := b.tenants[i];
    SiblingsAreBits(c, b, l, t.sharedIdx);
    LastBit(b.shared[t.sharedIdx].bitmap, t.hotId.sub);
    OnlyMember(MicrosIn(b, t.sharedIdx), i);
    DestroyMicroSlots(c, b, l, i);
  }

  lemma LastBit(w: nat, k: nat)
    requires Bit(w, k)
    ensures ClearBit(w, k) == 0 <==> Popcount(w) == 1
  {
    PopcountAfter(w, k);
    PopcountZero(ClearBit(w, k));
  }

  lemma {:induction false} PopcountZero(w: nat)
    ensures Popcount(w) == 0 <==> w == 0
  {
    if w != 0 { PopcountZero(w / 2); }
  }

  lemma OnlyMember(s: set<nat>, i: nat)
    requires i in s
    ensures s == {i} <==> |s| == 1
  {
    if |s| == 1 {
      assert |s - {i}| == 0;
    }
  }

  lemma DestroyMicroSlots(c: Codec, b: Bridge, l: Ledger, i: nat)
    requires Inv(c, b, l) && i < |b.tenants| && b.tenants[i].inUse && b.tenants[i].kind == Micro
    ensures var t := b.tenants[i];
            var b' := DestroyMicro(c, b, i).0;
            t.sharedIdx < |b.shared| &&
            var last := ClearBit(b.shared[t.sharedIdx].bitmap, t.hotId.sub) == 0;
            && b'.shared[t.sharedIdx].hotId == (if last then NULL_ID else b.shared[t.sharedIdx].hotId)
            && forall s: nat :: Occupied(b'.hot.words, s) <==> Occupied(b.hot.words, s) && !(last && s == t.hotId.slot)
  {
    hide CeilDiv, A.Inv, A.Release, Pow2, Bit, ClearBit, A.Overlay, HotSlotOk, ColdSlotOk;
    EntryHandleValid(c, b, l, i);
    var t := b.tenants[i];
    var hot := A.ZeroizeSub(b.hot, t.hotId, MICRO_SLOT).0;
    var entry := b.shared[t.sharedIdx];
    assert EntryOk(b, l, t.sharedIdx);
    assert entry.bitmap != 0 by { ZeroWord(t.hotId.sub); }
    assert entry.hotId.WithSubSlot(0) == entry.hotId;
    assert A.Validate(hot, entry.hotId);
    A.ReleaseEffect(hot, entry.hotId);
  }
}
