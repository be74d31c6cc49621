/** When creation and promotion succeed, exactly, and which tenant is evicted for them. */
module BridgeAllocation {
  import opened BitWords
  import opened Common
  import opened GenIds
  import opened SelectorSpec
  import A = ArenaSpec
  import opened BridgeSpec
  import opened BridgeInvariant
  import opened BridgeOwnership
  import opened BridgeLookup

  ghost predicate HasFree(a: A.Arena) {
    exists s: nat :: s < |a.versions| && !Occupied(a.words, s)
  }

  lemma SlotAlignFits()
    ensures A.IsPowerOfTwo(SLOT_ALIGN) && A.Log2(SLOT_ALIGN) == 7
  {
    assert A.IsPowerOfTwo(8) && A.Log2(8) == 3;
    assert A.IsPowerOfTwo(32) && A.Log2(32) == 5 by { assert A.IsPowerOfTwo(16) && A.Log2(16) == 4; }
    assert A.IsPowerOfTwo(64) && A.Log2(64) == 6;
  }

  /** The bridge's allocations fail only on a full arena. */
  lemma AllocateExact(a: A.Arena, size: nat, tid: nat)
    requires A.Valid(a) && size <= a.slotSize
    ensures !A.Allocate(a, size, SLOT_ALIGN, tid).1.IsNull() <==> size > 0 && HasFree(a)
    ensures A.Allocate(a, size, SLOT_ALIGN, tid).1.IsNull() ==> A.Allocate(a, size, SLOT_ALIGN, tid).0 == a
  {
    SlotAlignFits();
    hide A.Allocate, A.IsPowerOfTwo, A.Log2;
    A.AllocateEffect(a, size, SLOT_ALIGN, tid);
    var (b, id) := A.Allocate(a, size, SLOT_ALIGN, tid);
    if !id.IsNull() { assert !Occupied(a.words, id.slot); }
  }

  /* ---- the victim ---- */

  /** The sweep returns the first of the eligible records with the least access time, and one exists
      as soon as any record is eligible. */
  lemma {:induction false} VictimIsOldest(ts: seq<Tenant>, skip: nat, n: nat, j: nat)
    requires n <= |ts| && j < n && Eligible(ts[j], skip)
    ensures Victim(ts, skip, n).Some? && ts[Victim(ts, skip, n).value].accessTime <= ts[j].accessTime
  {
    if j < n - 1 { VictimIsOldest(ts, skip, n - 1, j); }
  }

  /** In a reachable state no other eligible tenant is as old: the victim is unique. */
  lemma VictimIsUnique(c: Codec, b: Bridge, skip: nat, j: nat)
    requires Valid(c, b) && Owned(c, b) && j < |b.tenants| && Eligible(b.tenants[j], skip)
    ensures var v := Victim(b.tenants, skip, |b.tenants|);
            v.Some? && (j != v.value ==> b.tenants[v.value].accessTime < b.tenants[j].accessTime)
  {
    var l :| Inv(c, b, l) && AtRest(l);
    VictimIsOldest(b.tenants, skip, |b.tenants|, j);
  }

  /* ---- eviction ---- */

  /** The bytes of a record's hot slot compress to exactly the codec's bound. */
  ghost predicate Compressible(c: Codec, b: Bridge, i: nat)
    requires Valid(c, b) && i < |b.tenants|
  {
    b.tenants[i].hotId.slot < |b.hot.die| && |c.compress(b.hot.die[b.tenants[i].hotId.slot])| == c.bound
  }

  ghost predicate CanEvict(c: Codec, b: Bridge, skip: nat)
    requires Valid(c, b)
  {
    var v := Victim(b.tenants, skip, |b.tenants|);
    v.Some? && c.bound > 0 && HasFree(b.cold) && Compressible(c, b, v.value)
  }

  /** Evicting a given evictable tenant succeeds exactly when the cold tier has room and the codec fills its bound. */
  lemma EvictTenantSucceedsExactly(c: Codec, b: Bridge, l: Ledger, i: nat, tid: nat)
    requires Inv(c, b, l) && Evictable(b, i)
    ensures EvictTenant(c, b, i, tid).1 <==> c.bound > 0 && HasFree(b.cold) && Compressible(c, b, i)
  {
    hide A.Allocate, A.Inv, HotSlotOk, ColdSlotOk, EntryOk, CeilDiv, HasFree;
    assert TenantOk(b, l, i);
    AllocateExact(b.cold, c.bound, tid);
    A.AllocateEffect(b.cold, c.bound, SLOT_ALIGN, tid);
  }

  lemma EvictSucceedsExactly(c: Codec, b: Bridge, l: Ledger, skip: nat, tid: nat)
    requires Inv(c, b, l)
    ensures Evict(c, b, skip, tid).1 <==> CanEvict(c, b, skip)
  {
    hide EvictTenant, Inv, HasFree;
    var v := Victim(b.tenants, skip, |b.tenants|);
    if v.Some? { EvictTenantSucceedsExactly(c, b, l, v.value, tid); }
  }

  /** A successful eviction of tenant i changes exactly this: its record, its hot slot, one cold slot. */
  lemma EvictedTenantState(c: Codec, b: Bridge, l: Ledger, i: nat, tid: nat)
    requires Inv(c, b, l) && Evictable(b, i) && EvictTenant(c, b, i, tid).1
    ensures var b' := EvictTenant(c, b, i, tid).0;
            var t := b.tenants[i];
            var (cold, coldId) := A.Allocate(b.cold, c.bound, SLOT_ALIGN, tid);
            && A.Validate(b.hot, t.hotId) && coldId.slot < |b.cold.die| && l.cold[coldId.slot] == Nobody
            && |c.compress(b.hot.die[t.hotId.slot])| == c.bound
            && b'.tenants == b.tenants[i := t.(hotId := NULL_ID, coldId := coldId, state := InCold)]
            && b'.hot == A.Release(b.hot, t.hotId).0
            && b'.cold == A.Store(cold, coldId.slot, 0, c.compress(b.hot.die[t.hotId.slot]))
            && cold.die == b.cold.die
  {
    hide A.Allocate, A.Inv, A.Release, A.Store, HotSlotOk, EntryOk, CeilDiv, Occupied;
    assert TenantOk(b, l, i);
    A.AllocateEffect(b.cold, c.bound, SLOT_ALIGN, tid);
    var (cold, coldId) := A.Allocate(b.cold, c.bound, SLOT_ALIGN, tid);
    assert !coldId.IsNull();
    assert ColdSlotOk(b, l, coldId.slot);
  }

  lemma EvictIsOfVictim(c: Codec, b: Bridge, skip: nat, tid: nat)
    requires Valid(c, b)
    ensures var v := Victim(b.tenants, skip, |b.tenants|);
            if v.None? then Evict(c, b, skip, tid) == (b, false)
            else Evictable(b, v.value) && Evict(c, b, skip, tid) == EvictTenant(c, b, v.value, tid)
  {
    hide EvictTenant, A.Valid;
  }

  lemma EvictFreesHot(c: Codec, b: Bridge, l: Ledger, skip: nat, tid: nat)
    requires Inv(c, b, l) && Evict(c, b, skip, tid).1
    ensures HasFree(Evict(c, b, skip, tid).0.hot)
  {
    hide A.Allocate, A.Inv, A.Release, A.Store, HotSlotOk, ColdSlotOk, TenantOk, EntryOk, CeilDiv, Evict, EvictTenant;
    EvictIsOfVictim(c, b, skip, tid);
    var v := Victim(b.tenants, skip, |b.tenants|).value;
    EvictedTenantState(c, b, l, v, tid);
    var t := b.tenants[v];
    A.ReleaseEffect(b.hot, t.hotId);
    assert !Occupied(Evict(c, b, skip, tid).0.hot.words, t.hotId.slot);
  }

  /* ---- allocation with eviction ---- */

  /** In a reachable state one eviction is enough, so the loop behaves like this two-step rule. */
  function AllocOnce(c: Codec, b: Bridge, skip: nat, tid: nat): (Bridge, GenId)
    requires Valid(c, b)
  {
    var (hot, id) := A.Allocate(b.hot, b.hot.slotSize, SLOT_ALIGN, tid);
    if !id.IsNull() then (b.(hot := hot), id)
    else
      var (b1, evicted) := Evict(c, b, skip, tid);
      if !evicted then (b1, NULL_ID)
      else
        var (hot1, id1) := A.Allocate(b1.hot, b1.hot.slotSize, SLOT_ALIGN, tid);
        (b1.(hot := hot1), id1)
  }

  lemma AllocHotIsAllocOnce(c: Codec, b: Bridge, l: Ledger, skip: nat, tid: nat)
    requires Inv(c, b, l) && AtRest(l)
    ensures AllocHot(c, b, skip, tid, EVICT_RETRIES) == AllocOnce(c, b, skip, tid)
    ensures !AllocOnce(c, b, skip, tid).1.IsNull() <==> HasFree(b.hot) || CanEvict(c, b, skip)
  {
    hide A.Allocate, A.Inv, A.Valid, Evict, HotSlotOk, ColdSlotOk, TenantOk, EntryOk, CeilDiv, HasFree, CanEvict;
    AllocateExact(b.hot, b.hot.slotSize, tid);
    var (hot, id) := A.Allocate(b.hot, b.hot.slotSize, SLOT_ALIGN, tid);
    EvictSucceedsExactly(c, b, l, skip, tid);
    if id.IsNull() {
      assert b.(hot := hot) == b;
      var (b1, evicted) := Evict(c, b, skip, tid);
      if evicted {
        EvictFreesHot(c, b, l, skip, tid);
        AllocateExact(b1.hot, b1.hot.slotSize, tid);
        assert AllocHot(c, b1, skip, tid, 1) == (b1.(hot := A.Allocate(b1.hot, b1.hot.slotSize, SLOT_ALIGN, tid).0),
                                                 A.Allocate(b1.hot, b1.hot.slotSize, SLOT_ALIGN, tid).1);
      }
    }
  }

  /* ---- exact success conditions ---- */

  /** createTenant succeeds exactly when a record is free and hot has room or can be given room. */
  lemma CreateSucceedsExactly(c: Codec, b: Bridge, tid: nat)
    requires Valid(c, b) && Owned(c, b)
    ensures CreateTenant(c, b, tid).1.Some?
            <==> FreeRecord(b.tenants, 0).Some? && (HasFree(b.hot) || CanEvict(c, b, NO_TENANT_ID))
  {
    var l :| Inv(c, b, l) && AtRest(l);
    hide AllocHot, AllocOnce, Inv, HasFree, CanEvict, A.Valid;
    AllocHotIsAllocOnce(c, b, l, NO_TENANT_ID, tid);
  }

  ghost predicate Restorable(c: Codec, b: Bridge, i: nat)
    requires Valid(c, b) && i < |b.tenants|
  {
    var s := b.tenants[i].coldId.slot;
    s < |b.cold.die| && |c.decompress(b.cold.die[s][..c.bound])| == b.hot.slotSize
  }

  /** An eviction on behalf of a cold tenant leaves that tenant's record and cold bytes alone. */
  lemma EvictSparesCold(c: Codec, b: Bridge, l: Ledger, skip: nat, tid: nat, i: nat)
    requires Inv(c, b, l) && i < |b.tenants| && FullIn(b.tenants[i], InCold)
    ensures var b' := Evict(c, b, skip, tid).0;
            && b'.tenants[i] == b.tenants[i] && b.tenants[i].coldId.slot < |b.cold.die|
            && (Evict(c, b, skip, tid).1 ==> b'.cold.die[b.tenants[i].coldId.slot] == b.cold.die[b.tenants[i].coldId.slot])
  {
    hide A.Allocate, A.Inv, A.Release, HotSlotOk, ColdSlotOk, EntryOk, CeilDiv, Evict, EvictTenant;
    EvictFrame(c, b, skip, tid);
    assert TenantOk(b, l, i);
    EvictIsOfVictim(c, b, skip, tid);
    if Evict(c, b, skip, tid).1 { EvictedTenantState(c, b, l, Victim(b.tenants, skip, |b.tenants|).value, tid); }
  }

  /** Promotion obeys the same rule, and then only a failing decompression stops it. */
  lemma PromoteSucceedsExactly(c: Codec, b: Bridge, l: Ledger, i: nat, tid: nat)
    requires Inv(c, b, l) && AtRest(l) && i < |b.tenants| && FullIn(b.tenants[i], InCold)
    ensures Promote(c, b, i, tid).1 <==> (HasFree(b.hot) || CanEvict(c, b, b.tenants[i].id)) && Restorable(c, b, i)
    ensures var (b', ok) := Promote(c, b, i, tid);
            !ok ==> b'.tenants[i] == b.tenants[i]
  {
    hide A.Allocate, A.Inv, A.Release, A.Store, HotSlotOk, ColdSlotOk, EntryOk, TenantOk, CeilDiv, Evict, HasFree, CanEvict, AllocHot;
    var skip := b.tenants[i].id;
    AllocHotIsAllocOnce(c, b, l, skip, tid);
    var l' := AllocHotKeeps(c, b, l, skip, tid, EVICT_RETRIES);
    AllocHotFrame(c, b, skip, tid, EVICT_RETRIES);
    EvictSparesCold(c, b, l, skip, tid, i);
    var (b1, hotId) := AllocHot(c, b, skip, tid, EVICT_RETRIES);
    assert b1.tenants[i] == b.tenants[i];
    ColdHandleValid(c, b1, l', i);
    ColdHandleValid(c, b, l, i);
  }

  lemma ColdHandleValid(c: Codec, b: Bridge, l: Ledger, i: nat)
    requires Inv(c, b, l) && i < |b.tenants| && FullIn(b.tenants[i], InCold)
    ensures A.Validate(b.cold, b.tenants[i].coldId) && b.tenants[i].pins == 0 && b.tenants[i].id != NO_TENANT_ID && b.tenants[i].id != 0
  {
    assert TenantOk(b, l, i);
  }

  /** With both tiers full no cold tenant can be promoted. */
  lemma FullTiersBlockPromotion(c: Codec, b: Bridge, i: nat, tid: nat)
    requires Valid(c, b) && Owned(c, b) && i < |b.tenants| && FullIn(b.tenants[i], InCold)
    requires !HasFree(b.hot) && !HasFree(b.cold)
    ensures !Promote(c, b, i, tid).1
  {
    var l :| Inv(c, b, l) && AtRest(l);
    hide Promote, Inv, A.Valid;
    PromoteSucceedsExactly(c, b, l, i, tid);
  }

  /** acquireFP32 in a reachable state: a cold tenant is refused only when its promotion fails, a hot one
      only at the pin ceiling. */
  lemma AcquireSucceedsExactly(c: Codec, b: Bridge, i: nat, id: nat, tid: nat)
    requires Valid(c, b) && Owned(c, b) && Holds(b, i, id)
    ensures AcquireFP32(c, b, id, tid).1.View?
            <==> if b.tenants[i].state == InCold then (HasFree(b.hot) || CanEvict(c, b, id)) && Restorable(c, b, i)
                 else b.tenants[i].pins < PIN_SOFT_MAX
  {
    FoundExactly(c, b, i, id);
    var l :| Inv(c, b, l) && AtRest(l);
    LiveShape(c, b, l, i);
    hide Promote, Inv, A.Valid, HasFree, CanEvict, Restorable, A.Validate;
    if b.tenants[i].state == InCold {
      PromoteSucceedsExactly(c, b, l, i, tid);
      PromotedHandleValid(c, b, l, i, tid);
    } else {
      HotHandleValid(c, b, l, i);
    }
  }

  lemma PromotedHandleValid(c: Codec, b: Bridge, l: Ledger, i: nat, tid: nat)
    requires Inv(c, b, l) && AtRest(l) && i < |b.tenants| && FullIn(b.tenants[i], InCold)
    ensures var (b', ok) := Promote(c, b, i, tid);
            ok ==> b'.tenants[i].pins == 0 && A.Validate(b'.hot, b'.tenants[i].hotId)
  {
    ColdHandleValid(c, b, l, i);
    var l' := PromoteKeeps(c, b, l, i, tid);
    PromoteFrame(c, b, i, tid);
    hide Promote, Inv, A.Valid;
    var (b', ok) := Promote(c, b, i, tid);
    if ok { HotHandleValid(c, b', l', i); }
  }

  lemma HotHandleValid(c: Codec, b: Bridge, l: Ledger, i: nat)
    requires Inv(c, b, l) && i < |b.tenants| && b.tenants[i].inUse && b.tenants[i].state == InHot
    ensures A.Validate(b.hot, b.tenants[i].hotId)
  {
    assert TenantOk(b, l, i);
    var t := b.tenants[i];
    if t.kind == Micro {
      assert EntryOk(b, l, t.sharedIdx);
      ZeroWord(t.hotId.sub);
    }
  }
}
