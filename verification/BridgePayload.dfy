/** The bridge refines a map from handles to bytes: over any run, a live tenant's bytes are the last bytes
    written to it, passed through compress-then-decompress once per eviction since that write. */
module BridgePayload {
  import opened BitWords
  import opened Common
  import opened GenIds
  import opened SelectorSpec
  import A = ArenaSpec
  import opened BridgeSpec
  import opened BridgeInvariant
  import opened BridgeOwnership
  import opened BridgeAllocation
  import opened BridgeCounting
  import opened BridgeMicro

  function RoundTrip(c: Codec, x: Bytes): Bytes { c.decompress(c.compress(x)) }

  /** What a caller reading the tenant would see: its hot bytes, or its cold bytes decompressed. */
  function Content(c: Codec, b: Bridge, i: nat): Bytes
    requires Valid(c, b) && i < |b.tenants|
  {
    var t := b.tenants[i];
    if t.state == InCold then
      if t.coldId.slot < |b.cold.die| then c.decompress(b.cold.die[t.coldId.slot][..c.bound]) else []
    else
      var v := Extent(b, t);
      if v.slot < |b.hot.die| && v.offset + v.length <= b.hot.slotSize then Read(b.hot, v) else []
  }

  predicate SamePlace(t: Tenant, t': Tenant) {
    t'.inUse && t'.id == t.id && t'.kind == t.kind && t'.state == t.state && t'.hotId == t.hotId && t'.coldId == t.coldId
  }

  ghost predicate Kept(c: Codec, b: Bridge, b': Bridge, i: nat)
    requires Valid(c, b) && Valid(c, b') && i < |b.tenants| && i < |b'.tenants|
  {
    SamePlace(b.tenants[i], b'.tenants[i]) && Content(c, b', i) == Content(c, b, i)
  }

  ghost predicate Aged(c: Codec, b: Bridge, b': Bridge, i: nat)
    requires Valid(c, b) && Valid(c, b') && i < |b.tenants| && i < |b'.tenants|
  {
    && b'.tenants[i].inUse && b'.tenants[i].id == b.tenants[i].id && b'.tenants[i].kind == b.tenants[i].kind
    && b.tenants[i].state == InHot && b'.tenants[i].state == InCold
    && Content(c, b', i) == RoundTrip(c, Content(c, b, i))
  }

  /** Promotion: the record moves to the hot tier, the bytes do not change. */
  ghost predicate Restored(c: Codec, b: Bridge, b': Bridge, i: nat)
    requires Valid(c, b) && Valid(c, b') && i < |b.tenants| && i < |b'.tenants|
  {
    && b'.tenants[i].inUse && b'.tenants[i].id == b.tenants[i].id && b'.tenants[i].kind == b.tenants[i].kind
    && b.tenants[i].state == InCold && b'.tenants[i].state == InHot
    && Content(c, b', i) == Content(c, b, i)
  }

  /** A tenant whose record and slot bytes are untouched keeps its content. */
  lemma ContentFrame(c: Codec, b: Bridge, b': Bridge, i: nat)
    requires Valid(c, b) && Valid(c, b') && SameShape(b, b') && i < |b.tenants| && SamePlace(b.tenants[i], b'.tenants[i])
    requires |b.hot.die| == |b'.hot.die| && |b.cold.die| == |b'.cold.die|
    requires var t := b.tenants[i];
             if t.state == InCold then t.coldId.slot < |b.cold.die| ==> b'.cold.die[t.coldId.slot] == b.cold.die[t.coldId.slot]
             else t.hotId.slot < |b.hot.die| ==> b'.hot.die[t.hotId.slot] == b.hot.die[t.hotId.slot]
    ensures Kept(c, b, b', i)
  {
    hide A.Valid, CeilDiv;
  }

  /* ---- eviction ---- */

  /** Evicting tenant v passes its bytes through the codec and keeps everybody else's. */
  lemma EvictTenantContent(c: Codec, b: Bridge, l: Ledger, v: nat, tid: nat, i: nat)
    requires Inv(c, b, l) && Evictable(b, v) && i < |b.tenants| && b.tenants[i].inUse && EvictTenant(c, b, v, tid).1
    ensures var b' := EvictTenant(c, b, v, tid).0;
            if i == v then Aged(c, b, b', i) else Kept(c, b, b', i)
  {
    hide EvictTenant, A.Allocate, A.Release, A.Inv, CeilDiv, Aged, Kept, Content, HotSlotOk, ColdSlotOk, TenantOk, EntryOk;
    EvictedTenantState(c, b, l, v, tid);
    SlotsApart(c, b, l, v, i);
    A.ReleaseEffect(b.hot, b.tenants[v].hotId);
    var b' := EvictTenant(c, b, v, tid).0;
    if i == v {
      VictimAged(c, b, b', i, A.Allocate(b.cold, c.bound, SLOT_ALIGN, tid).1);
    } else {
      ContentFrame(c, b, b', i);
    }
  }

  lemma EvictContent(c: Codec, b: Bridge, l: Ledger, skip: nat, tid: nat, i: nat)
    requires Inv(c, b, l) && i < |b.tenants| && b.tenants[i].inUse && Evict(c, b, skip, tid).1
    ensures var b' := Evict(c, b, skip, tid).0;
            if Victim(b.tenants, skip, |b.tenants|) == Some(i) then Aged(c, b, b', i) else Kept(c, b, b', i)
  {
    hide Evict, EvictTenant, A.Inv, A.Valid, CeilDiv, Aged, Kept, Content, HotSlotOk, ColdSlotOk, TenantOk, EntryOk, Victim;
    EvictIsOfVictim(c, b, skip, tid);
    EvictTenantContent(c, b, l, Victim(b.tenants, skip, |b.tenants|).value, tid, i);
  }

  lemma VictimAged(c: Codec, b: Bridge, b': Bridge, i: nat, coldId: GenId)
    requires Valid(c, b) && Valid(c, b') && SameShape(b, b') && i < |b.tenants| && FullIn(b.tenants[i], InHot)
    requires b'.tenants[i] == b.tenants[i].(hotId := NULL_ID, coldId := coldId, state := InCold)
    requires b.tenants[i].hotId.slot < |b.hot.die| && coldId.slot < |b'.cold.die|
    requires var bytes := c.compress(b.hot.die[b.tenants[i].hotId.slot]);
             |bytes| == c.bound && exists was :: |was| == b.cold.slotSize && b'.cold.die[coldId.slot] == A.Overlay(was, 0, bytes)
    ensures Aged(c, b, b', i)
  {
    hide CeilDiv;
    var bytes := c.compress(b.hot.die[b.tenants[i].hotId.slot]);
    assert b'.cold.die[coldId.slot][..c.bound] == bytes;
    assert Content(c, b, i) == b.hot.die[b.tenants[i].hotId.slot];
  }

  /** A hot full tenant's slot is used by no other live tenant; a cold tenant's slot is occupied. */
  lemma SlotsApart(c: Codec, b: Bridge, l: Ledger, v: nat, i: nat)
    requires Inv(c, b, l) && v < |b.tenants| && FullIn(b.tenants[v], InHot) && i < |b.tenants| && b.tenants[i].inUse
    ensures A.Validate(b.hot, b.tenants[v].hotId)
    ensures i != v && b.tenants[i].state == InHot ==> b.tenants[i].hotId.slot != b.tenants[v].hotId.slot
    ensures b.tenants[i].state == InCold ==> b.tenants[i].coldId.slot < |l.cold| && l.cold[b.tenants[i].coldId.slot] == OfTenant(i)
    ensures b.tenants[i].state != Dead
  {
    hide A.Inv, CeilDiv, HotSlotOk, ColdSlotOk, EntryOk;
    assert TenantOk(b, l, v) && TenantOk(b, l, i);
    if b.tenants[i].kind == Micro { EntryHandleValid(c, b, l, i); }
  }

  /** Allocating with eviction ages the evicted tenant, if any, and keeps all others. */
  lemma AllocHotContent(c: Codec, b: Bridge, l: Ledger, skip: nat, tid: nat, i: nat)
    requires Inv(c, b, l) && AtRest(l) && i < |b.tenants| && b.tenants[i].inUse
    ensures var b' := AllocHot(c, b, skip, tid, EVICT_RETRIES).0;
            Kept(c, b, b', i) || (Aged(c, b, b', i) && b.tenants[i].id != skip)
  {
    hide Evict, A.Allocate, A.Inv, CeilDiv, A.Valid, AllocHot, Content, Kept, Aged, HotSlotOk, ColdSlotOk, TenantOk, EntryOk;
    AllocHotIsAllocOnce(c, b, l, skip, tid);
    var (hot, id) := A.Allocate(b.hot, b.hot.slotSize, SLOT_ALIGN, tid);
    if !id.IsNull() {
      HotAllocationKept(c, b, tid, i);
    } else {
      var (b1, evicted) := Evict(c, b, skip, tid);
      if evicted {
        EvictContent(c, b, l, skip, tid, i);
        EvictAgesEligible(c, b, b1, l, skip, tid, i);
        HotAllocationKept(c, b1, tid, i);
        KeptAfter(c, b, b1, b1.(hot := A.Allocate(b1.hot, b1.hot.slotSize, SLOT_ALIGN, tid).0), i);
      } else {
        FailedEvictContent(c, b, l, skip, tid, i);
      }
    }
  }

  lemma EvictAgesEligible(c: Codec, b: Bridge, b1: Bridge, l: Ledger, skip: nat, tid: nat, i: nat)
    requires Inv(c, b, l) && i < |b.tenants| && b.tenants[i].inUse && Evict(c, b, skip, tid) == (b1, true)
    ensures b1.tenants[i].inUse
    ensures Victim(b.tenants, skip, |b.tenants|) == Some(i) ==> b.tenants[i].id != skip
  {
    hide A.Allocate, A.Inv, A.Release, A.Store, Inv;
  }

  /** Allocating a hot slot touches no bytes and no record. */
  lemma HotAllocationKept(c: Codec, b: Bridge, tid: nat, i: nat)
    requires Valid(c, b) && i < |b.tenants| && b.tenants[i].inUse
    ensures Kept(c, b, b.(hot := A.Allocate(b.hot, b.hot.slotSize, SLOT_ALIGN, tid).0), i)
  {
    hide A.Allocate, A.Valid, CeilDiv, Content, Kept;
    A.AllocateEffect(b.hot, b.hot.slotSize, SLOT_ALIGN, tid);
    ContentFrame(c, b, b.(hot := A.Allocate(b.hot, b.hot.slotSize, SLOT_ALIGN, tid).0), i);
  }

  lemma KeptAfter(c: Codec, b: Bridge, b1: Bridge, b2: Bridge, i: nat)
    requires Valid(c, b) && Valid(c, b1) && Valid(c, b2) && i < |b.tenants| && i < |b1.tenants| && i < |b2.tenants|
    requires (Kept(c, b, b1, i) || Aged(c, b, b1, i)) && Kept(c, b1, b2, i)
    ensures Kept(c, b, b1, i) ==> Kept(c, b, b2, i)
    ensures Aged(c, b, b1, i) ==> Aged(c, b, b2, i)
  {
    hide Valid, Content;
  }

  lemma ColdAllocationKept(c: Codec, b: Bridge, tid: nat, i: nat)
    requires Valid(c, b) && i < |b.tenants| && b.tenants[i].inUse
    ensures Kept(c, b, b.(cold := A.Allocate(b.cold, c.bound, SLOT_ALIGN, tid).0), i)
  {
    hide A.Allocate, A.Valid, CeilDiv, Content, Kept;
    A.AllocateEffect(b.cold, c.bound, SLOT_ALIGN, tid);
    ContentFrame(c, b, b.(cold := A.Allocate(b.cold, c.bound, SLOT_ALIGN, tid).0), i);
  }

  /** A failed eviction may have used a cold slot for a while, but no tenant's. */
  lemma FailedEvictTenantContent(c: Codec, b: Bridge, l: Ledger, v: nat, tid: nat, i: nat)
    requires Inv(c, b, l) && Evictable(b, v) && i < |b.tenants| && b.tenants[i].inUse && !EvictTenant(c, b, v, tid).1
    ensures Kept(c, b, EvictTenant(c, b, v, tid).0, i)
  {
    hide EvictInto, A.Allocate, A.Inv, A.Valid, CeilDiv, Content, HotSlotOk, TenantOk, EntryOk;
    ColdAllocationKept(c, b, tid, i);
    A.AllocateEffect(b.cold, c.bound, SLOT_ALIGN, tid);
    var (cold, coldId) := A.Allocate(b.cold, c.bound, SLOT_ALIGN, tid);
    if !coldId.IsNull() {
      SlotsApart(c, b, l, v, i);
      assert ColdSlotOk(b, l, coldId.slot);
      var b1 := b.(cold := cold);
      FailedEvictInto(c, b1, v, coldId, i);
      KeptAfter(c, b, b1, EvictInto(c, b1, v, coldId).0, i);
    }
  }

  lemma FailedEvictContent(c: Codec, b: Bridge, l: Ledger, skip: nat, tid: nat, i: nat)
    requires Inv(c, b, l) && i < |b.tenants| && b.tenants[i].inUse && !Evict(c, b, skip, tid).1
    ensures Kept(c, b, Evict(c, b, skip, tid).0, i)
  {
    hide Evict, EvictTenant, A.Inv, A.Valid, CeilDiv, Content, HotSlotOk, ColdSlotOk, TenantOk, EntryOk, Victim;
    EvictIsOfVictim(c, b, skip, tid);
    var v := Victim(b.tenants, skip, |b.tenants|);
    if v.Some? { FailedEvictTenantContent(c, b, l, v.value, tid, i); }
  }

  lemma FailedEvictInto(c: Codec, b: Bridge, v: nat, coldId: GenId, i: nat)
    requires Valid(c, b) && v < |b.tenants| && i < |b.tenants| && b.tenants[i].inUse && !EvictInto(c, b, v, coldId).1
    requires A.Validate(b.cold, coldId) && (b.tenants[i].state == InCold ==> b.tenants[i].coldId.slot != coldId.slot)
    ensures Kept(c, b, EvictInto(c, b, v, coldId).0, i)
  {
    var t := b.tenants[v];
    if !A.Validate(b.hot, t.hotId) {
      A.ReleaseEffect(b.cold, coldId);
    } else {
      var stored := A.Store(b.cold, coldId.slot, 0, c.compress(b.hot.die[t.hotId.slot]));
      A.ReleaseEffect(stored, coldId);
    }
  }

  /* ---- the other operations ---- */

  /** A store outside a tenant's extent does not change its content. */
  lemma StoreApart(c: Codec, b: Bridge, s: nat, offset: nat, bytes: Bytes, i: nat)
    requires Valid(c, b) && s < |b.hot.die| && i < |b.tenants| && b.tenants[i].inUse
    requires b.tenants[i].state != InCold ==> Disjoint(View(s, offset, |bytes|), Extent(b, b.tenants[i]))
    ensures Kept(c, b, b.(hot := A.Store(b.hot, s, offset, bytes)), i)
  {
    hide CeilDiv;
    var b' := b.(hot := A.Store(b.hot, s, offset, bytes));
    var v := Extent(b, b.tenants[i]);
    if b.tenants[i].state != InCold && v.slot < |b.hot.die| && v.offset + v.length <= b.hot.slotSize {
      assert Read(b'.hot, v) == Read(b.hot, v);
    }
  }

  /** Changing another, unused record, or counters, changes no content. */
  lemma RecordApart(c: Codec, b: Bridge, b': Bridge, i: nat)
    requires Valid(c, b) && Valid(c, b') && SameShape(b, b') && i < |b.tenants| && b'.hot == b.hot && b'.cold == b.cold
    requires SamePlace(b.tenants[i], b'.tenants[i])
    ensures Kept(c, b, b', i)
  {
  }

  lemma CreateContent(c: Codec, b: Bridge, l: Ledger, tid: nat, i: nat)
    requires Inv(c, b, l) && AtRest(l) && i < |b.tenants| && b.tenants[i].inUse
    ensures var b' := CreateTenant(c, b, tid).0;
            Kept(c, b, b', i) || Aged(c, b, b', i)
  {
    hide AllocHot, A.Inv, A.Valid, Content, CeilDiv, Kept, Aged, HotSlotOk, ColdSlotOk, TenantOk, EntryOk;
    var f := FreeRecord(b.tenants, 0);
    if f.Some? {
      AllocHotContent(c, b, l, NO_TENANT_ID, tid, i);
      AllocHotFrame(c, b, NO_TENANT_ID, tid, EVICT_RETRIES);
      var b1 := AllocHot(c, b, NO_TENANT_ID, tid, EVICT_RETRIES).0;
      RecordApart(c, b1, CreateTenant(c, b, tid).0, i);
      KeptAfter(c, b, b1, CreateTenant(c, b, tid).0, i);
    } else {
      RecordApart(c, b, b, i);
    }
  }

  lemma DestroyFullContent(c: Codec, b: Bridge, l: Ledger, f: nat, i: nat)
    requires Inv(c, b, l) && f < |b.tenants| && b.tenants[f].inUse && b.tenants[f].kind == FullSlot
    requires i < |b.tenants| && b.tenants[i].inUse && i != f
    ensures Kept(c, b, DestroyFull(c, b, f), i)
  {
    assert TenantOk(b, l, f) && TenantOk(b, l, i);
    if b.tenants[f].state == InHot {
      SlotsApart(c, b, l, f, i);
      A.ReleaseEffect(b.hot, b.tenants[f].hotId);
    } else {
      A.ReleaseEffect(b.cold, b.tenants[f].coldId);
    }
    hide A.Valid, Inv, A.Release, A.Validate, Content, CeilDiv, Kept;
    ContentFrame(c, b, DestroyFull(c, b, f), i);
  }

  /** The last sibling's slot holds no other live tenant. */
  lemma LastSiblingAlone(c: Codec, b: Bridge, l: Ledger, f: nat, i: nat)
    requires Inv(c, b, l) && f < |b.tenants| && b.tenants[f].inUse && b.tenants[f].kind == Micro
    requires i < |b.tenants| && b.tenants[i].inUse && b.tenants[i].state == InHot && i != f
    requires b.tenants[f].sharedIdx < |b.shared| && ClearBit(b.shared[b.tenants[f].sharedIdx].bitmap, b.tenants[f].hotId.sub) == 0
    ensures b.tenants[i].hotId.slot != b.tenants[f].hotId.slot
  {
    hide A.Inv, A.Valid, CeilDiv, HotSlotOk, ColdSlotOk, ClearBit, Bit;
    EntryHandleValid(c, b, l, f);
    if b.tenants[i].kind == Micro {
      EntryHandleValid(c, b, l, i);
      ClearedBits(b.shared[b.tenants[f].sharedIdx].bitmap, SubSlots(b), b.tenants[f].hotId.sub);
    } else {
      assert TenantOk(b, l, i);
    }
  }

  lemma DestroyMicroContent(c: Codec, b: Bridge, l: Ledger, f: nat, i: nat)
    requires Inv(c, b, l) && AtRest(l) && f < |b.tenants| && b.tenants[f].inUse && b.tenants[f].kind == Micro
    requires i < |b.tenants| && b.tenants[i].inUse && i != f
    ensures Kept(c, b, DestroyMicro(c, b, f).0, i)
  {
    var t := b.tenants[f];
    var hot := A.ZeroizeSub(b.hot, t.hotId, MICRO_SLOT).0;
    var b1 := b.(hot := hot);
    EntryHandleValid(c, b, l, f);
    LiveShape(c, b, l, i);
    LiveShape(c, b, l, f);
    if b.tenants[i].state == InHot { ExtentsDisjoint(c, b, f, i); }
    StoreApart(c, b, t.hotId.slot, t.hotId.sub * MICRO_SLOT, Zeros(MICRO_SLOT), i);
    assert Kept(c, b, b1, i);
    if ClearBit(b.shared[t.sharedIdx].bitmap, t.hotId.sub) == 0 {
      if b.tenants[i].state == InHot { LastSiblingAlone(c, b, l, f, i); }
      LeaveLast(c, b, l, f);
      assert A.Validate(hot, b.shared[t.sharedIdx].hotId);
      A.ReleaseEffect(hot, b.shared[t.sharedIdx].hotId);
    }
    hide A.Valid, Inv, A.Release, A.ZeroizeSub, Content, CeilDiv, ClearBit, Bit;
    ContentFrame(c, b1, DestroyMicro(c, b, f).0, i);
  }

  lemma PromoteIntoContent(c: Codec, b: Bridge, l: Ledger, f: nat, hotId: GenId, i: nat)
    requires Inv(c, b, l) && f < |b.tenants| && FullIn(b.tenants[f], InCold) && i < |b.tenants| && b.tenants[i].inUse
    requires A.Validate(b.hot, hotId) && l.hot[hotId.slot] == InFlight
    ensures var (b', ok) := PromoteInto(c, b, f, hotId);
            if i == f && ok then Restored(c, b, b', i) else Kept(c, b, b', i)
  {
    var t := b.tenants[f];
    ColdHandleValid(c, b, l, f);
    var bytes := c.decompress(b.cold.die[t.coldId.slot][..c.bound]);
    var stored := A.Store(b.hot, hotId.slot, 0, bytes);
    assert A.Validate(stored, hotId);
    A.ReleaseEffect(stored, hotId);
    A.ReleaseEffect(b.cold, t.coldId);
    InFlightApart(c, b, l, hotId.slot, i);
    assert TenantOk(b, l, f) && TenantOk(b, l, i);
    hide Inv, A.Release, A.Inv, CeilDiv, HotSlotOk, ColdSlotOk, EntryOk, TenantOk;
    var (b', ok) := PromoteInto(c, b, f, hotId);
    if i == f && ok {
      assert b'.hot.die[hotId.slot] == bytes;
    } else {
      ContentFrame(c, b, b', i);
    }
  }

  lemma InFlightApart(c: Codec, b: Bridge, l: Ledger, s: nat, i: nat)
    requires Inv(c, b, l) && s < |l.hot| && l.hot[s] == InFlight && i < |b.tenants| && b.tenants[i].inUse
    ensures b.tenants[i].state == InHot ==> b.tenants[i].hotId.slot != s
    ensures b.tenants[i].state != Dead
  {
    hide A.Inv, A.Valid, CeilDiv, HotSlotOk, ColdSlotOk, EntryOk;
    assert TenantOk(b, l, i);
    if b.tenants[i].kind == Micro { EntryHandleValid(c, b, l, i); }
  }

  /** Promoting f restores f, may age one other tenant, and keeps the rest; a failed promotion keeps f. */
  lemma PromoteContent(c: Codec, b: Bridge, l: Ledger, f: nat, tid: nat, i: nat)
    requires Inv(c, b, l) && AtRest(l) && f < |b.tenants| && FullIn(b.tenants[f], InCold) && i < |b.tenants| && b.tenants[i].inUse
    ensures var (b', ok) := Promote(c, b, f, tid);
            if i == f then (if ok then Restored(c, b, b', f) else Kept(c, b, b', f))
            else Kept(c, b, b', i) || Aged(c, b, b', i)
  {
    AllocHotContent(c, b, l, b.tenants[f].id, tid, i);
    AllocHotFrame(c, b, b.tenants[f].id, tid, EVICT_RETRIES);
    var l1 := AllocHotKeeps(c, b, l, b.tenants[f].id, tid, EVICT_RETRIES);
    hide AllocHot, A.Valid, Inv, Content, CeilDiv, PromoteInto, A.Validate;
    var (b1, hotId) := AllocHot(c, b, b.tenants[f].id, tid, EVICT_RETRIES);
    assert b1.tenants[f] == b.tenants[f];
    if !hotId.IsNull() { PromoteIntoContent(c, b1, l1, f, hotId, i); }
  }

  lemma BindMicroContent(c: Codec, b: Bridge, l': Ledger, f: nat, e: nat, k: nat, i: nat)
    requires Valid(c, b) && f < |b.tenants| && e < |b.shared| && k <= MAX_SUB_SLOT
    requires Inv(c, BindMicro(c, b, f, e, k).0, l') && AtRest(l')
    requires i < |b.tenants| && b.tenants[i].inUse && i != f
    ensures Kept(c, b, BindMicro(c, b, f, e, k).0, i)
  {
    BindMicroEffect(c, b, f, e, k);
    var b' := BindMicro(c, b, f, e, k).0;
    EntryHandleValid(c, b', l', f);
    LiveShape(c, b', l', i);
    if b.tenants[i].state == InHot { ExtentsDisjoint(c, b', f, i); }
    hide Inv, CeilDiv, BindMicro, Content, A.SubSlotCount;
    var hotId := b.shared[e].hotId.WithSubSlot(k);
    assert A.SubSlotValid(b.hot, hotId, MICRO_SLOT);
    StoreApart(c, b, hotId.slot, hotId.sub * MICRO_SLOT, Zeros(MICRO_SLOT), i);
    BoundHot(c, b, f, e, k);
    RecordApart(c, b.(hot := A.Store(b.hot, hotId.slot, hotId.sub * MICRO_SLOT, Zeros(MICRO_SLOT))), b', i);
  }

  lemma BoundHot(c: Codec, b: Bridge, f: nat, e: nat, k: nat)
    requires Valid(c, b) && f < |b.tenants| && e < |b.shared|
    requires A.SubSlotValid(b.hot, b.shared[e].hotId.WithSubSlot(k), MICRO_SLOT)
    ensures var id := b.shared[e].hotId.WithSubSlot(k);
            BindMicro(c, b, f, e, k).0.hot == A.Store(b.hot, id.slot, id.sub * MICRO_SLOT, Zeros(MICRO_SLOT))
  {
    hide A.SubSlotCount, A.Store, CeilDiv;
  }

  lemma FreshMicroContent(c: Codec, b: Bridge, l: Ledger, f: nat, tid: nat, i: nat)
    requires Inv(c, b, l) && AtRest(l) && f < |b.tenants| && !b.tenants[f].inUse && i < |b.tenants| && b.tenants[i].inUse
    requires FreeRecord(b.tenants, 0).Some? && EntryWithRoom(b.shared, SubSlots(b), b.scanStart, 0).None?
    ensures var b' := FreshMicro(c, b, f, tid).0;
            Kept(c, b, b', i) || Aged(c, b, b', i)
  {
    AllocHotContent(c, b, l, NO_TENANT_ID, tid, i);
    AllocHotFrame(c, b, NO_TENANT_ID, tid, EVICT_RETRIES);
    FailSafeBranchUnreachable(c, b, tid);
    var l' := FreshMicroKeeps(c, b, l, f, tid);
    hide AllocHot, Inv, A.Valid, Content, CeilDiv, BindMicro, A.Release;
    var (b1, freshId) := AllocHot(c, b, NO_TENANT_ID, tid, EVICT_RETRIES);
    if freshId.IsNull() {
      RecordApart(c, b1, ReleaseRecord(b1, f), i);
    } else {
      var e := EmptyEntry(b1.shared, 0).value;
      var b2 := OpenEntry(c, b1, e, freshId);
      RecordApart(c, b1, b2, i);
      BindMicroContent(c, b2, l', f, e, 0, i);
    }
  }

  lemma JoinMicroContent(c: Codec, b: Bridge, l': Ledger, f: nat, e: nat, i: nat)
    requires Valid(c, b) && f < |b.tenants| && e < |b.shared| && HasRoom(b.shared[e], SubSlots(b))
    requires i < |b.tenants| && b.tenants[i].inUse && i != f
    requires var k := LowestClear(b.shared[e].bitmap);
             var b1 := b.(shared := b.shared[e := b.shared[e].(bitmap := SetBit(b.shared[e].bitmap, k))]);
             Valid(c, b1) && Inv(c, BindMicro(c, b1, f, e, k).0, l') && AtRest(l')
    ensures var k := LowestClear(b.shared[e].bitmap);
            var b1 := b.(shared := b.shared[e := b.shared[e].(bitmap := SetBit(b.shared[e].bitmap, k))]);
            Kept(c, b, BindMicro(c, b1, f, e, k).0, i)
  {
    hide Inv, A.Valid, Content, CeilDiv, BindMicro, Pow2, SetBit, Bit;
    var bitmap := b.shared[e].bitmap;
    var k := LowestClear(bitmap);
    FullWord(bitmap, SubSlots(b));
    var b1 := b.(shared := b.shared[e := b.shared[e].(bitmap := SetBit(bitmap, k))]);
    RecordApart(c, b, b1, i);
    BindMicroContent(c, b1, l', f, e, k, i);
  }

  lemma CreateMicroContent(c: Codec, b: Bridge, l: Ledger, tid: nat, i: nat)
    requires Inv(c, b, l) && AtRest(l) && i < |b.tenants| && b.tenants[i].inUse
    ensures var b' := CreateMicroTenant(c, b, tid).0;
            Kept(c, b, b', i) || Aged(c, b, b', i)
  {
    hide Content, CeilDiv, BindMicro, FreshMicro, Pow2, SetBit, Bit, LowestClear, EntryWithRoom, A.Inv, A.Valid;
    var f := FreeRecord(b.tenants, 0);
    if f.Some? {
      var b0 := b.(scanStart := if b.scanStart + 1 == |b.shared| then 0 else b.scanStart + 1);
      AdvanceScanKeeps(c, b, l, b0.scanStart);
      var l' := CreateMicroTenantKeeps(c, b, l, tid);
      hide Inv, A.Valid;
      RecordApart(c, b, b0, i);
      var e := EntryWithRoom(b.shared, SubSlots(b), b.scanStart, 0);
      if e.None? {
        NoRoomKept(b.shared, SubSlots(b), b.scanStart, b0.scanStart);
        FreshMicroContent(c, b0, l, f.value, tid, i);
      } else {
        FullWord(b.shared[e.value].bitmap, SubSlots(b));
        WidthAfter(b.shared[e.value].bitmap, SubSlots(b), LowestClear(b.shared[e.value].bitmap));
        JoinMicroContent(c, b0, l', f.value, e.value, i);
      }
    }
  }

  /** Whether some entry has room does not depend on where the scan starts. */
  lemma NoRoomKept(shared: seq<Shared>, n: nat, start: nat, start': nat)
    requires start < |shared| && start' < |shared| && EntryWithRoom(shared, n, start, 0).None?
    ensures EntryWithRoom(shared, n, start', 0).None?
  {
    var e := EntryWithRoom(shared, n, start', 0);
    if e.Some? { NoRoomInEntry(shared, n, start, e.value); }
  }

  /** A store through one tenant's extent shows up there and nowhere else. */
  lemma WriteElsewhere(c: Codec, b: Bridge, l: Ledger, f: nat, bytes: Bytes, i: nat)
    requires Inv(c, b, l) && AtRest(l) && i < |b.tenants| && b.tenants[i].inUse && i != f
    requires f < |b.tenants| && b.tenants[f].inUse && MayWrite(b, b.tenants[f], bytes)
    ensures var v := Extent(b, b.tenants[f]);
            v.slot < |b.hot.die| && Kept(c, b, b.(hot := A.Store(b.hot, v.slot, v.offset, bytes)), i)
  {
    LiveShape(c, b, l, i);
    HotHandleValid(c, b, l, f);
    if b.tenants[f].kind == Micro { EntryHandleValid(c, b, l, f); A.SubRange(b.hot.slotSize, MICRO_SLOT, b.tenants[f].hotId.sub); }
    if b.tenants[i].state == InHot { ExtentsDisjoint(c, b, f, i); }
    hide Inv, CeilDiv, Content, A.Store;
    var v := Extent(b, b.tenants[f]);
    StoreApart(c, b, v.slot, v.offset, bytes, i);
  }

  lemma WriteHere(c: Codec, b: Bridge, l: Ledger, f: nat, bytes: Bytes)
    requires Inv(c, b, l) && AtRest(l)
    requires f < |b.tenants| && b.tenants[f].inUse && MayWrite(b, b.tenants[f], bytes)
    ensures var v := Extent(b, b.tenants[f]);
            v.slot < |b.hot.die| && Content(c, b.(hot := A.Store(b.hot, v.slot, v.offset, bytes)), f) == bytes
  {
    HotHandleValid(c, b, l, f);
    if b.tenants[f].kind == Micro { EntryHandleValid(c, b, l, f); A.SubRange(b.hot.slotSize, MICRO_SLOT, b.tenants[f].hotId.sub); }
    hide Inv, CeilDiv, A.Valid;
    var v := Extent(b, b.tenants[f]);
    assert Read(A.Store(b.hot, v.slot, v.offset, bytes), v) == bytes;
  }

  lemma WriteContent(c: Codec, b: Bridge, l: Ledger, id: nat, bytes: Bytes, i: nat)
    requires Inv(c, b, l) && AtRest(l) && i < |b.tenants| && b.tenants[i].inUse
    ensures var b' := Write(c, b, id, bytes);
            SamePlace(b.tenants[i], b'.tenants[i])
            && Content(c, b', i) == if Find(b.tenants, id) == Some(i) && MayWrite(b, b.tenants[i], bytes) then bytes else Content(c, b, i)
  {
    hide Content, A.Store, Read;
    var f := Find(b.tenants, id);
    if f.Some? && MayWrite(b, b.tenants[f.value], bytes) {
      HotHandleValid(c, b, l, f.value);
      if i != f.value { WriteElsewhere(c, b, l, f.value, bytes, i); } else { WriteHere(c, b, l, i, bytes); }
    }
  }
}
