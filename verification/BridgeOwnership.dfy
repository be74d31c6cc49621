/** Every bridge operation, on success and on every failure path, keeps the ownership invariant. */
module BridgeOwnership {
  import opened BitWords
  import opened Common
  import opened GenIds
  import opened SelectorSpec
  import A = ArenaSpec
  import opened BridgeSpec
  import opened BridgeInvariant

  /* ---- eviction ---- */

  /** The record of an evicted tenant moves to the cold slot; its hot slot is in flight. */
  lemma MoveToCold(c: Codec, b: Bridge, l: Ledger, i: nat, coldId: GenId)
    requires Inv(c, b, l) && i < |b.tenants| && FullIn(b.tenants[i], InHot) && b.tenants[i].pins == 0
    requires A.Validate(b.cold, coldId) && l.cold[coldId.slot] == InFlight
    ensures var t := b.tenants[i];
            Inv(c, b.(tenants := b.tenants[i := t.(hotId := NULL_ID, coldId := coldId, state := InCold)],
                      evictions := b.evictions + 1),
                l.(hot := l.hot[t.hotId.slot := InFlight], cold := l.cold[coldId.slot := OfTenant(i)]))
  {
    hide CeilDiv, A.Inv, A.Valid, Occupied;
  }

  ghost predicate Evictable(b: Bridge, i: nat) {
    i < |b.tenants| && FullIn(b.tenants[i], InHot) && b.tenants[i].pins == 0
  }

  lemma EvictIntoKeeps(c: Codec, b: Bridge, l: Ledger, i: nat, coldId: GenId) returns (l': Ledger)
    requires Inv(c, b, l) && Evictable(b, i)
    requires A.Validate(b.cold, coldId) && l.cold[coldId.slot] == InFlight && AtRestBut(l, -1, coldId.slot)
    ensures Inv(c, EvictInto(c, b, i, coldId).0, l') && AtRest(l')
  {
    hide A.Release, A.Inv, CeilDiv;
    var t := b.tenants[i];
    assert TenantOk(b, l, i);
    var bytes := c.compress(b.hot.die[t.hotId.slot]);
    var b1 := b.(cold := A.Store(b.cold, coldId.slot, 0, bytes));
    StoreCold(c, b, l, coldId.slot, bytes);
    assert A.Validate(b1.cold, coldId) && A.Validate(b1.hot, t.hotId);
    if |bytes| != c.bound {
      l' := l.(cold := l.cold[coldId.slot := Nobody]);
      DropCold(c, b1, l, coldId);
    } else {
      l' := CommitEvict(c, b1, l, i, coldId);
    }
  }

  /** The commit of an eviction: the record moves to its cold slot, then the hot slot goes back. */
  lemma CommitEvict(c: Codec, b: Bridge, l: Ledger, i: nat, coldId: GenId) returns (l': Ledger)
    requires Inv(c, b, l) && Evictable(b, i)
    requires A.Validate(b.cold, coldId) && l.cold[coldId.slot] == InFlight && AtRestBut(l, -1, coldId.slot)
    ensures var t := b.tenants[i];
            Inv(c, b.(hot := A.Release(b.hot, t.hotId).0,
                      tenants := b.tenants[i := t.(hotId := NULL_ID, coldId := coldId, state := InCold)],
                      evictions := b.evictions + 1), l') && AtRest(l')
  {
    hide A.Release, A.Inv, CeilDiv, Occupied;
    var t := b.tenants[i];
    assert TenantOk(b, l, i);
    MoveToCold(c, b, l, i, coldId);
    var b1 := b.(tenants := b.tenants[i := t.(hotId := NULL_ID, coldId := coldId, state := InCold)],
                 evictions := b.evictions + 1);
    var l1 := l.(hot := l.hot[t.hotId.slot := InFlight], cold := l.cold[coldId.slot := OfTenant(i)]);
    DropHot(c, b1, l1, t.hotId);
    l' := l1.(hot := l1.hot[t.hotId.slot := Nobody]);
  }

  lemma EvictTenantKeeps(c: Codec, b: Bridge, l: Ledger, i: nat, tid: nat) returns (l': Ledger)
    requires Inv(c, b, l) && AtRest(l) && Evictable(b, i)
    ensures Inv(c, EvictTenant(c, b, i, tid).0, l') && AtRest(l')
  {
    hide A.Release, A.Allocate, A.Store, EvictInto;
    var (cold, coldId) := A.Allocate(b.cold, c.bound, SLOT_ALIGN, tid);
    TakeCold(c, b, l, c.bound, SLOT_ALIGN, tid);
    if coldId.IsNull() { return l; }
    var l1 := l.(cold := l.cold[coldId.slot := InFlight]);
    l' := EvictIntoKeeps(c, b.(cold := cold), l1, i, coldId);
  }

  lemma EvictKeeps(c: Codec, b: Bridge, l: Ledger, skip: nat, tid: nat) returns (l': Ledger)
    requires Inv(c, b, l) && AtRest(l)
    ensures Inv(c, Evict(c, b, skip, tid).0, l') && AtRest(l')
  {
    hide EvictTenant, Inv;
    var v := Victim(b.tenants, skip, |b.tenants|);
    if v.None? { return l; }
    l' := EvictTenantKeeps(c, b, l, v.value, tid);
  }

  ghost predicate Allocated(c: Codec, b: Bridge, l: Ledger, id: GenId) {
    Inv(c, b, l) &&
    if id.IsNull() then AtRest(l)
    else A.Validate(b.hot, id) && id.sub == 0 && l.hot[id.slot] == InFlight && AtRestBut(l, id.slot, -1)
  }

  lemma AllocHotKeeps(c: Codec, b: Bridge, l: Ledger, skip: nat, tid: nat, retries: nat) returns (l': Ledger)
    requires Inv(c, b, l) && AtRest(l)
    ensures var (b', id) := AllocHot(c, b, skip, tid, retries); Allocated(c, b', l', id)
    decreases retries
  {
    hide A.Allocate, Evict, A.Inv;
    TakeHot(c, b, l, b.hot.slotSize, SLOT_ALIGN, tid);
    var (hot, id) := A.Allocate(b.hot, b.hot.slotSize, SLOT_ALIGN, tid);
    if !id.IsNull() {
      l' := l.(hot := l.hot[id.slot := InFlight]);
    } else if retries == 0 {
      l' := l;
    } else {
      assert b.(hot := hot) == b;
      l' := EvictKeeps(c, b, l, skip, tid);
      var (b2, evicted) := Evict(c, b, skip, tid);
      if evicted { l' := AllocHotKeeps(c, b2, l', skip, tid, retries - 1); }
    }
  }

  /* ---- what an allocation with eviction leaves alone ---- */

  /** Records either stay as they were or are eligible tenants that moved to the cold tier. */
  ghost predicate OnlyEvicted(ts: seq<Tenant>, ts': seq<Tenant>, skip: nat) {
    |ts'| == |ts| && forall j {:trigger ts[j]} {:trigger ts'[j]} :: 0 <= j < |ts| ==>
      ts'[j] == ts[j] || (Eligible(ts[j], skip) && ts'[j] == ts[j].(hotId := NULL_ID, coldId := ts'[j].coldId, state := InCold))
  }

  ghost predicate RestSame(b: Bridge, b': Bridge) {
    b'.shared == b.shared && b'.clock == b.clock && b'.lastId == b.lastId && b'.scanStart == b.scanStart
    && b'.promotions == b.promotions
  }

  lemma EvictFrame(c: Codec, b: Bridge, skip: nat, tid: nat)
    requires Valid(c, b)
    ensures var b' := Evict(c, b, skip, tid).0;
            OnlyEvicted(b.tenants, b'.tenants, skip) && RestSame(b, b') && (b'.hot == b.hot || Evict(c, b, skip, tid).1)
  {
    hide A.Release, A.Allocate, A.Store, Valid;
  }

  lemma AllocHotFrame(c: Codec, b: Bridge, skip: nat, tid: nat, retries: nat)
    requires Valid(c, b)
    ensures var b' := AllocHot(c, b, skip, tid, retries).0;
            OnlyEvicted(b.tenants, b'.tenants, skip) && RestSame(b, b')
    decreases retries
  {
    hide A.Allocate, Evict, A.Valid, CeilDiv;
    var (hot, id) := A.Allocate(b.hot, b.hot.slotSize, SLOT_ALIGN, tid);
    if id.IsNull() && retries > 0 {
      var b1 := b.(hot := hot);
      EvictFrame(c, b1, skip, tid);
      var (b2, evicted) := Evict(c, b1, skip, tid);
      if evicted { AllocHotFrame(c, b2, skip, tid, retries - 1); }
    }
  }

  /* ---- full tenants ---- */

  lemma BindFull(c: Codec, b: Bridge, l: Ledger, i: nat, hotId: GenId)
    requires Inv(c, b, l) && i < |b.tenants| && !b.tenants[i].inUse
    requires A.Validate(b.hot, hotId) && hotId.sub == 0 && l.hot[hotId.slot] == InFlight
    ensures var id := NextId(b.lastId);
            Inv(c, b.(tenants := b.tenants[i := Tenant(id, 0, InHot, b.clock, true, false, hotId, NULL_ID, FullSlot, 0)],
                      lastId := id, clock := b.clock + 1),
                l.(hot := l.hot[hotId.slot := OfTenant(i)]))
  {
    hide CeilDiv, A.Inv, A.Valid, Occupied;
  }

  lemma ReleaseRecordKeeps(c: Codec, b: Bridge, l: Ledger, i: nat)
    requires Inv(c, b, l) && i < |b.tenants| && !b.tenants[i].inUse
    ensures Inv(c, ReleaseRecord(b, i), l)
  {
    hide CeilDiv, A.Inv, A.Valid, Occupied;
  }

  lemma CreateTenantKeeps(c: Codec, b: Bridge, l: Ledger, tid: nat) returns (l': Ledger)
    requires Inv(c, b, l) && AtRest(l)
    ensures Inv(c, CreateTenant(c, b, tid).0, l') && AtRest(l')
  {
    hide AllocHot, A.Inv, A.Valid, HotSlotOk, ColdSlotOk, TenantOk, EntryOk;
    var i := FreeRecord(b.tenants, 0);
    if i.None? { return l; }
    l' := AllocHotKeeps(c, b, l, NO_TENANT_ID, tid, EVICT_RETRIES);
    AllocHotFrame(c, b, NO_TENANT_ID, tid, EVICT_RETRIES);
    var (b1, hotId) := AllocHot(c, b, NO_TENANT_ID, tid, EVICT_RETRIES);
    if hotId.IsNull() {
      ReleaseRecordKeeps(c, b1, l', i.value);
    } else {
      BindFull(c, b1, l', i.value, hotId);
      l' := l'.(hot := l'.hot[hotId.slot := OfTenant(i.value)]);
    }
  }

  /** A buried full tenant's slots are in flight until they are released. */
  lemma BuryHot(c: Codec, b: Bridge, l: Ledger, i: nat)
    requires Inv(c, b, l) && i < |b.tenants| && FullIn(b.tenants[i], InHot)
    ensures Inv(c, b.(tenants := b.tenants[i := Buried(b.tenants[i])]), l.(hot := l.hot[b.tenants[i].hotId.slot := InFlight]))
  {
    hide CeilDiv, A.Inv, A.Valid, Occupied;
  }

  lemma BuryCold(c: Codec, b: Bridge, l: Ledger, i: nat)
    requires Inv(c, b, l) && i < |b.tenants| && FullIn(b.tenants[i], InCold)
    ensures Inv(c, b.(tenants := b.tenants[i := Buried(b.tenants[i])]), l.(cold := l.cold[b.tenants[i].coldId.slot := InFlight]))
  {
    hide CeilDiv, A.Inv, A.Valid, Occupied;
  }

  lemma DestroyFullKeeps(c: Codec, b: Bridge, l: Ledger, i: nat) returns (l': Ledger)
    requires Inv(c, b, l) && AtRest(l) && i < |b.tenants| && b.tenants[i].inUse && b.tenants[i].kind == FullSlot
    ensures Inv(c, DestroyFull(c, b, i), l') && AtRest(l')
  {
    hide CeilDiv, A.Inv, A.Valid, Occupied, A.Release;
    var t := b.tenants[i];
    var b1 := b.(tenants := b.tenants[i := Buried(t)]);
    assert TenantOk(b, l, i);
    if t.state == InHot {
      BuryHot(c, b, l, i);
      DropHot(c, b1, l.(hot := l.hot[t.hotId.slot := InFlight]), t.hotId);
      l' := l.(hot := l.hot[t.hotId.slot := InFlight][t.hotId.slot := Nobody]);
    } else {
      BuryCold(c, b, l, i);
      DropCold(c, b1, l.(cold := l.cold[t.coldId.slot := InFlight]), t.coldId);
      l' := l.(cold := l.cold[t.coldId.slot := InFlight][t.coldId.slot := Nobody]);
    }
  }

  /** The promoted tenant's record moves to its hot slot; its cold slot is in flight. */
  lemma MoveToHot(c: Codec, b: Bridge, l: Ledger, i: nat, hotId: GenId)
    requires Inv(c, b, l) && i < |b.tenants| && FullIn(b.tenants[i], InCold)
    requires A.Validate(b.hot, hotId) && hotId.sub == 0 && l.hot[hotId.slot] == InFlight
    ensures var t := b.tenants[i];
            Inv(c, b.(tenants := b.tenants[i := t.(hotId := hotId, coldId := NULL_ID, state := InHot)],
                      promotions := b.promotions + 1),
                l.(cold := l.cold[t.coldId.slot := InFlight], hot := l.hot[hotId.slot := OfTenant(i)]))
  {
    hide CeilDiv, A.Inv, A.Valid, Occupied;
  }

  lemma CommitPromote(c: Codec, b: Bridge, l: Ledger, i: nat, hotId: GenId) returns (l': Ledger)
    requires Inv(c, b, l) && i < |b.tenants| && FullIn(b.tenants[i], InCold)
    requires A.Validate(b.hot, hotId) && hotId.sub == 0 && l.hot[hotId.slot] == InFlight && AtRestBut(l, hotId.slot, -1)
    ensures var t := b.tenants[i];
            Inv(c, b.(cold := A.Release(b.cold, t.coldId).0,
                      tenants := b.tenants[i := t.(hotId := hotId, coldId := NULL_ID, state := InHot)],
                      promotions := b.promotions + 1), l') && AtRest(l')
  {
    hide A.Release, A.Inv, CeilDiv, Occupied;
    var t := b.tenants[i];
    assert TenantOk(b, l, i);
    MoveToHot(c, b, l, i, hotId);
    var b1 := b.(tenants := b.tenants[i := t.(hotId := hotId, coldId := NULL_ID, state := InHot)], promotions := b.promotions + 1);
    var l1 := l.(cold := l.cold[t.coldId.slot := InFlight], hot := l.hot[hotId.slot := OfTenant(i)]);
    DropCold(c, b1, l1, t.coldId);
    l' := l1.(cold := l1.cold[t.coldId.slot := Nobody]);
  }

  lemma PromoteIntoKeeps(c: Codec, b: Bridge, l: Ledger, i: nat, hotId: GenId) returns (l': Ledger)
    requires Inv(c, b, l) && i < |b.tenants| && FullIn(b.tenants[i], InCold)
    requires A.Validate(b.hot, hotId) && hotId.sub == 0 && l.hot[hotId.slot] == InFlight && AtRestBut(l, hotId.slot, -1)
    ensures Inv(c, PromoteInto(c, b, i, hotId).0, l') && AtRest(l')
  {
    hide A.Release, A.Inv, CeilDiv;
    var t := b.tenants[i];
    assert TenantOk(b, l, i);
    var bytes := c.decompress(b.cold.die[t.coldId.slot][..c.bound]);
    var b1 := b.(hot := A.Store(b.hot, hotId.slot, 0, bytes));
    StoreHot(c, b, l, hotId.slot, 0, bytes);
    assert A.Validate(b1.hot, hotId) && A.Validate(b1.cold, t.coldId);
    if |bytes| != b.hot.slotSize {
      l' := l.(hot := l.hot[hotId.slot := Nobody]);
      DropHot(c, b1, l, hotId);
    } else {
      l' := CommitPromote(c, b1, l, i, hotId);
    }
  }

  lemma PromoteKeeps(c: Codec, b: Bridge, l: Ledger, i: nat, tid: nat) returns (l': Ledger)
    requires Inv(c, b, l) && AtRest(l) && i < |b.tenants| && FullIn(b.tenants[i], InCold)
    ensures Inv(c, Promote(c, b, i, tid).0, l') && AtRest(l')
  {
    hide AllocHot, A.Inv, A.Valid, HotSlotOk, ColdSlotOk, TenantOk, EntryOk, PromoteInto;
    l' := AllocHotKeeps(c, b, l, b.tenants[i].id, tid, EVICT_RETRIES);
    AllocHotFrame(c, b, b.tenants[i].id, tid, EVICT_RETRIES);
    var (b1, hotId) := AllocHot(c, b, b.tenants[i].id, tid, EVICT_RETRIES);
    assert b1.tenants[i] == b.tenants[i];
    if !hotId.IsNull() { l' := PromoteIntoKeeps(c, b1, l', i, hotId); }
  }

  /** Pins, seal and access time may change without touching ownership. */
  lemma TouchKeeps(c: Codec, b: Bridge, l: Ledger, i: nat, t: Tenant, clock: nat)
    requires Inv(c, b, l) && i < |b.tenants| && b.tenants[i].inUse
    requires t == b.tenants[i].(pins := t.pins, sealed := t.sealed, accessTime := t.accessTime)
    requires t.pins <= PIN_SOFT_MAX && (t.state == InCold ==> t.pins == 0) && b.clock <= clock
    requires t.accessTime == b.tenants[i].accessTime || b.clock == t.accessTime < clock
    ensures Inv(c, b.(tenants := b.tenants[i := t], clock := clock), l)
  {
    hide CeilDiv, A.Inv, A.Valid, Occupied;
    var b' := b.(tenants := b.tenants[i := t], clock := clock);
    assert TenantOk(b, l, i);
    assert Distinct(b'.tenants);
  }

  lemma PinTenantKeeps(c: Codec, b: Bridge, l: Ledger, i: nat)
    requires Inv(c, b, l) && i < |b.tenants| && b.tenants[i].inUse && b.tenants[i].state == InHot && b.tenants[i].pins < PIN_SOFT_MAX
    ensures Inv(c, PinTenant(b, i), l)
  {
    hide CeilDiv, A.Inv, A.Valid, HotSlotOk, ColdSlotOk, EntryOk, Distinct;
    assert TenantOk(b, l, i);
    TouchKeeps(c, b, l, i, PinTenant(b, i).tenants[i], b.clock + 1);
  }

  lemma AcquireFP32Keeps(c: Codec, b: Bridge, l: Ledger, id: nat, tid: nat) returns (l': Ledger)
    requires Inv(c, b, l) && AtRest(l)
    ensures Inv(c, AcquireFP32(c, b, id, tid).0, l') && AtRest(l')
  {
    hide A.Inv, A.Valid, Promote, HotSlotOk, ColdSlotOk, TenantOk, EntryOk;
    var f := Find(b.tenants, id);
    l' := l;
    if f.None? || b.tenants[f.value].state == Dead { return; }
    var i := f.value;
    LiveShape(c, b, l, i);
    if b.tenants[i].state == InCold {
      l' := PromoteKeeps(c, b, l, i, tid);
      PromoteFrame(c, b, i, tid);
    }
    var (b1, ready) := if b.tenants[i].state == InCold then Promote(c, b, i, tid) else (b, true);
    if ready && b1.tenants[i].pins < PIN_SOFT_MAX { PinTenantKeeps(c, b1, l', i); }
  }

  /** A tenant in the cold tier is a full one. */
  lemma LiveShape(c: Codec, b: Bridge, l: Ledger, i: nat)
    requires Inv(c, b, l) && i < |b.tenants| && b.tenants[i].inUse
    ensures b.tenants[i].state != Dead && (b.tenants[i].state == InCold ==> b.tenants[i].kind == FullSlot)
  {
    assert TenantOk(b, l, i);
  }

  lemma PromoteFrame(c: Codec, b: Bridge, i: nat, tid: nat)
    requires Valid(c, b) && i < |b.tenants| && b.tenants[i].state == InCold
    ensures var (b', ok) := Promote(c, b, i, tid);
            && b'.tenants[i] == (if ok then b.tenants[i].(hotId := b'.tenants[i].hotId, coldId := NULL_ID, state := InHot) else b.tenants[i])
            && OnlyEvicted(b.tenants, b'.tenants[i := b.tenants[i]], b.tenants[i].id)
            && b'.shared == b.shared && b'.clock == b.clock && b'.lastId == b.lastId && b'.scanStart == b.scanStart
  {
    hide AllocHot, A.Release, A.Store, Valid;
    AllocHotFrame(c, b, b.tenants[i].id, tid, EVICT_RETRIES);
  }

  lemma ReleaseKeeps(c: Codec, b: Bridge, l: Ledger, id: nat)
    requires Inv(c, b, l)
    ensures Inv(c, Release(b, id).0, l)
  {
    hide CeilDiv, A.Inv, A.Valid, HotSlotOk, ColdSlotOk, EntryOk, Distinct;
    var f := FindLive(b.tenants, id);
    if f.Some? && b.tenants[f.value].pins > 0 {
      assert TenantOk(b, l, f.value);
      TouchKeeps(c, b, l, f.value, b.tenants[f.value].(pins := b.tenants[f.value].pins - 1), b.clock);
    }
  }

  lemma SealTenantKeeps(c: Codec, b: Bridge, l: Ledger, id: nat)
    requires Inv(c, b, l)
    ensures Inv(c, SealTenant(b, id).0, l)
  {
    hide CeilDiv, A.Inv, A.Valid, HotSlotOk, ColdSlotOk, EntryOk, Distinct;
    var f := Find(b.tenants, id);
    if f.Some? && b.tenants[f.value].state != Dead {
      assert TenantOk(b, l, f.value);
      TouchKeeps(c, b, l, f.value, b.tenants[f.value].(sealed := true), b.clock);
    }
  }

  /* ---- micro-tenants ---- */

  lemma ClearedBits(w: nat, n: nat, i: nat)
    requires w < Pow2(n) && i < n && Bit(w, i)
    ensures ClearBit(w, i) < Pow2(n)
    ensures forall k: nat :: Bit(ClearBit(w, i), k) <==> k != i && Bit(w, k)
    ensures ClearBit(w, i) == 0 ==> forall k: nat :: k < n && Bit(w, k) ==> k == i
  {
    WidthAfter(w, n, i);
    var now := ClearBit(w, i);
    forall k: nat ensures Bit(now, k) <==> k != i && Bit(w, k) { BitAfter(w, i, k); }
    if now == 0 {
      forall k: nat | k < n && Bit(w, k) ensures k == i { ZeroWord(k); }
    }
  }

  /** A sibling leaves a shared slot that others still use. */
  lemma LeaveShared(c: Codec, b: Bridge, l: Ledger, i: nat)
    requires Inv(c, b, l) && i < |b.tenants| && b.tenants[i].inUse && b.tenants[i].kind == Micro
    ensures var t := b.tenants[i];
            t.sharedIdx < |b.shared| && t.hotId.sub < SubSlots(b) &&
            var entry := b.shared[t.sharedIdx];
            var now := ClearBit(entry.bitmap, t.hotId.sub);
            now != 0 ==>
              Inv(c, b.(shared := b.shared[t.sharedIdx := Shared(now, entry.hotId)], tenants := b.tenants[i := Buried(t)]), l)
  {
    hide CeilDiv, A.Inv, A.Valid, Occupied, ClearBit, Bit, Pow2;
    assert TenantOk(b, l, i);
    var t := b.tenants[i];
    ClearedBits(b.shared[t.sharedIdx].bitmap, SubSlots(b), t.hotId.sub);
    var entry := b.shared[t.sharedIdx];
    if ClearBit(entry.bitmap, t.hotId.sub) != 0 {
      assert entry.bitmap != 0 by { WidthAfter(entry.bitmap, SubSlots(b), t.hotId.sub); }
    }
  }

  /** The last sibling leaves: the entry empties and its slot is in flight. */
  lemma LeaveLast(c: Codec, b: Bridge, l: Ledger, i: nat)
    requires Inv(c, b, l) && i < |b.tenants| && b.tenants[i].inUse && b.tenants[i].kind == Micro
    requires b.tenants[i].sharedIdx < |b.shared| && ClearBit(b.shared[b.tenants[i].sharedIdx].bitmap, b.tenants[i].hotId.sub) == 0
    ensures var t := b.tenants[i];
            var entry := b.shared[t.sharedIdx];
            && A.Validate(b.hot, entry.hotId) && entry.hotId.WithSubSlot(0) == entry.hotId
            && Inv(c, b.(shared := b.shared[t.sharedIdx := Shared(0, NULL_ID)], tenants := b.tenants[i := Buried(t)]),
                   l.(hot := l.hot[entry.hotId.slot := InFlight]))
  {
    hide CeilDiv, A.Inv, A.Valid, Occupied, ClearBit, Bit, Pow2;
    assert TenantOk(b, l, i);
    var t := b.tenants[i];
    var entry := b.shared[t.sharedIdx];
    ClearedBits(entry.bitmap, SubSlots(b), t.hotId.sub);
    forall k: nat ensures !Bit(0, k) { ZeroWord(k); }
    assert entry.bitmap != 0;
  }

  lemma ZeroizeSubKeeps(c: Codec, b: Bridge, l: Ledger, id: GenId)
    requires Inv(c, b, l)
    ensures Inv(c, b.(hot := A.ZeroizeSub(b.hot, id, MICRO_SLOT).0), l)
  {
    hide CeilDiv, A.Overlay, A.SubSlotCount, HotSlotOk, ColdSlotOk, TenantOk, EntryOk;
    if A.SubSlotValid(b.hot, id, MICRO_SLOT) {
      StoreHot(c, b, l, id.slot, id.sub * MICRO_SLOT, Zeros(MICRO_SLOT));
    }
  }

  lemma DestroyMicroKeeps(c: Codec, b: Bridge, l: Ledger, i: nat) returns (l': Ledger)
    requires Inv(c, b, l) && AtRest(l) && i < |b.tenants| && b.tenants[i].inUse && b.tenants[i].kind == Micro
    ensures Inv(c, DestroyMicro(c, b, i).0, l') && AtRest(l')
  {
    hide CeilDiv, A.Inv, A.Valid, A.Release, A.ZeroizeSub, A.Validate, HotSlotOk, ColdSlotOk, TenantOk, EntryOk, ClearBit, Pow2;
    var t := b.tenants[i];
    ZeroizeSubKeeps(c, b, l, t.hotId);
    var b1 := b.(hot := A.ZeroizeSub(b.hot, t.hotId, MICRO_SLOT).0);
    LeaveShared(c, b1, l, i);
    l' := l;
    if ClearBit(b.shared[t.sharedIdx].bitmap, t.hotId.sub) == 0 {
      LeaveLast(c, b1, l, i);
      l' := LastOut(c, b1, l, i);
    }
  }

  lemma LastOut(c: Codec, b: Bridge, l: Ledger, i: nat) returns (l': Ledger)
    requires Inv(c, b, l) && AtRest(l) && i < |b.tenants| && b.tenants[i].inUse && b.tenants[i].kind == Micro
    requires b.tenants[i].sharedIdx < |b.shared| && ClearBit(b.shared[b.tenants[i].sharedIdx].bitmap, b.tenants[i].hotId.sub) == 0
    ensures var t := b.tenants[i];
            var entry := b.shared[t.sharedIdx];
            Inv(c, b.(hot := A.Release(b.hot, entry.hotId.WithSubSlot(0)).0,
                      shared := b.shared[t.sharedIdx := Shared(0, NULL_ID)], tenants := b.tenants[i := Buried(t)]), l') && AtRest(l')
  {
    hide CeilDiv, A.Inv, A.Valid, A.Release, HotSlotOk, ColdSlotOk, TenantOk, EntryOk, ClearBit, Pow2;
    LeaveLast(c, b, l, i);
    var t := b.tenants[i];
    var entry := b.shared[t.sharedIdx];
    var b1 := b.(shared := b.shared[t.sharedIdx := Shared(0, NULL_ID)], tenants := b.tenants[i := Buried(t)]);
    var l1 := l.(hot := l.hot[entry.hotId.slot := InFlight]);
    DropHot(c, b1, l1, entry.hotId);
    l' := l1.(hot := l1.hot[entry.hotId.slot := Nobody]);
  }

  /** A new sibling takes the lowest free bit of a live entry. */
  lemma JoinShared(c: Codec, b: Bridge, l: Ledger, i: nat, e: nat)
    requires Inv(c, b, l) && i < |b.tenants| && !b.tenants[i].inUse && e < |b.shared| && HasRoom(b.shared[e], SubSlots(b))
    ensures var entry := b.shared[e];
            var k := LowestClear(entry.bitmap);
            var id := NextId(b.lastId);
            var t := Tenant(id, 0, InHot, b.clock, true, false, entry.hotId.WithSubSlot(k), NULL_ID, Micro, e);
            k < SubSlots(b) &&
            Inv(c, b.(shared := b.shared[e := entry.(bitmap := SetBit(entry.bitmap, k))],
                      tenants := b.tenants[i := t], lastId := id, clock := b.clock + 1),
                WithBit(l, e, k, i))
  {
    hide CeilDiv, A.Inv, A.Valid, Occupied, SetBit, Bit, Pow2, LowestClear;
    var entry := b.shared[e];
    FullWord(entry.bitmap, SubSlots(b));
    var k := LowestClear(entry.bitmap);
    WidthAfter(entry.bitmap, SubSlots(b), k);
    forall j: nat ensures Bit(SetBit(entry.bitmap, k), j) <==> j == k || Bit(entry.bitmap, j) { BitAfter(entry.bitmap, k, j); }
    assert SetBit(entry.bitmap, k) != 0 by { ZeroWord(k); assert Bit(SetBit(entry.bitmap, k), k); }
    assert EntryOk(b, l, e);
  }

  /** The first sibling of a freshly allocated slot. */
  lemma OpenShared(c: Codec, b: Bridge, l: Ledger, i: nat, e: nat, hotId: GenId)
    requires Inv(c, b, l) && i < |b.tenants| && !b.tenants[i].inUse
    requires e < |b.shared| && b.shared[e].hotId.IsNull() && b.shared[e].bitmap == 0
    requires A.Validate(b.hot, hotId) && hotId.sub == 0 && l.hot[hotId.slot] == InFlight
    ensures var id := NextId(b.lastId);
            var t := Tenant(id, 0, InHot, b.clock, true, false, hotId.WithSubSlot(0), NULL_ID, Micro, e);
            Inv(c, b.(shared := b.shared[e := Shared(1, hotId)], tenants := b.tenants[i := t], lastId := id, clock := b.clock + 1),
                WithBit(l, e, 0, i).(hot := l.hot[hotId.slot := OfEntry(e)]))
  {
    hide CeilDiv, A.Inv, A.Valid, Occupied, Bit, Pow2;
    var n := SubSlots(b);
    assert 1 < Pow2(n) by { OneFits(n); }
    forall j: nat ensures Bit(1, j) <==> j == 0 { OnlyBitZero(j); }
    forall j: nat ensures !Bit(0, j) { ZeroWord(j); }
  }

  lemma OnlyBitZero(j: nat)
    ensures Bit(1, j) <==> j == 0
  {
    if j > 0 { ZeroWord(j - 1); }
  }

  lemma JoinKeeps(c: Codec, b: Bridge, l: Ledger, i: nat, e: nat) returns (l': Ledger)
    requires Inv(c, b, l) && AtRest(l) && i < |b.tenants| && !b.tenants[i].inUse && e < |b.shared| && HasRoom(b.shared[e], SubSlots(b))
    ensures var k := LowestClear(b.shared[e].bitmap);
            var b1 := b.(shared := b.shared[e := b.shared[e].(bitmap := SetBit(b.shared[e].bitmap, k))]);
            Valid(c, b1) && Inv(c, BindMicro(c, b1, i, e, k).0, l') && AtRest(l')
  {
    hide CeilDiv, A.Inv, A.ZeroizeSub, HotSlotOk, ColdSlotOk, TenantOk, EntryOk, SetBit, LowestClear, Pow2;
    JoinShared(c, b, l, i, e);
    var entry := b.shared[e];
    var k := LowestClear(entry.bitmap);
    WidthAfter(entry.bitmap, SubSlots(b), k);
    var id := NextId(b.lastId);
    var t := Tenant(id, 0, InHot, b.clock, true, false, entry.hotId.WithSubSlot(k), NULL_ID, Micro, e);
    l' := WithBit(l, e, k, i);
    ZeroizeSubKeeps(c, b.(shared := b.shared[e := entry.(bitmap := SetBit(entry.bitmap, k))],
                          tenants := b.tenants[i := t], lastId := id, clock := b.clock + 1), l', t.hotId);
  }

  lemma OpenKeeps(c: Codec, b: Bridge, l: Ledger, i: nat, e: nat, hotId: GenId) returns (l': Ledger)
    requires Inv(c, b, l) && AtRestBut(l, hotId.slot, -1) && i < |b.tenants| && !b.tenants[i].inUse
    requires e < |b.shared| && b.shared[e].hotId.IsNull() && b.shared[e].bitmap == 0
    requires A.Validate(b.hot, hotId) && hotId.sub == 0 && l.hot[hotId.slot] == InFlight
    ensures var b1 := b.(shared := b.shared[e := Shared(1, hotId)]);
            Valid(c, b1) && Inv(c, BindMicro(c, b1, i, e, 0).0, l') && AtRest(l')
  {
    hide CeilDiv, A.Inv, A.ZeroizeSub, HotSlotOk, ColdSlotOk, TenantOk, EntryOk, Pow2;
    OneFits(SubSlots(b));
    OpenShared(c, b, l, i, e, hotId);
    var id := NextId(b.lastId);
    var t := Tenant(id, 0, InHot, b.clock, true, false, hotId.WithSubSlot(0), NULL_ID, Micro, e);
    l' := WithBit(l, e, 0, i).(hot := l.hot[hotId.slot := OfEntry(e)]);
    ZeroizeSubKeeps(c, b.(shared := b.shared[e := Shared(1, hotId)], tenants := b.tenants[i := t], lastId := id, clock := b.clock + 1),
                    l', t.hotId);
  }

  lemma FreshMicroKeeps(c: Codec, b: Bridge, l: Ledger, i: nat, tid: nat) returns (l': Ledger)
    requires Inv(c, b, l) && AtRest(l) && i < |b.tenants| && !b.tenants[i].inUse
    ensures Inv(c, FreshMicro(c, b, i, tid).0, l') && AtRest(l')
  {
    hide AllocHot, CeilDiv, A.Inv, A.Valid, A.Release, A.ZeroizeSub, HotSlotOk, ColdSlotOk, TenantOk, EntryOk, Pow2, BindMicro;
    l' := AllocHotKeeps(c, b, l, NO_TENANT_ID, tid, EVICT_RETRIES);
    AllocHotFrame(c, b, NO_TENANT_ID, tid, EVICT_RETRIES);
    var (b1, freshId) := AllocHot(c, b, NO_TENANT_ID, tid, EVICT_RETRIES);
    if freshId.IsNull() {
      ReleaseRecordKeeps(c, b1, l', i);
    } else {
      var e := EmptyEntry(b1.shared, 0);
      if e.None? {
        DropHot(c, b1, l', freshId);
        l' := l'.(hot := l'.hot[freshId.slot := Nobody]);
        ReleaseRecordKeeps(c, b1.(hot := A.Release(b1.hot, freshId).0), l', i);
      } else {
        l' := OpenKeeps(c, b1, l', i, e.value, freshId);
      }
    }
  }

  lemma AdvanceScanKeeps(c: Codec, b: Bridge, l: Ledger, scan: nat)
    requires Inv(c, b, l) && scan < |b.shared|
    ensures Inv(c, b.(scanStart := scan), l)
  {
    hide CeilDiv, A.Inv, A.Valid, Occupied;
  }

  lemma CreateMicroTenantKeeps(c: Codec, b: Bridge, l: Ledger, tid: nat) returns (l': Ledger)
    requires Inv(c, b, l) && AtRest(l)
    ensures Inv(c, CreateMicroTenant(c, b, tid).0, l') && AtRest(l')
  {
    hide FreshMicro, CeilDiv, A.Inv, A.Valid, BindMicro, HotSlotOk, ColdSlotOk, TenantOk, EntryOk, Pow2, SetBit, LowestClear;
    var i := FreeRecord(b.tenants, 0);
    if i.None? { return l; }
    var b0 := b.(scanStart := if b.scanStart + 1 == |b.shared| then 0 else b.scanStart + 1);
    AdvanceScanKeeps(c, b, l, b0.scanStart);
    var e := EntryWithRoom(b.shared, SubSlots(b), b.scanStart, 0);
    if e.Some? {
      l' := JoinKeeps(c, b0, l, i.value, e.value);
    } else {
      l' := FreshMicroKeeps(c, b0, l, i.value, tid);
    }
  }

  lemma AcquireMicroKeeps(c: Codec, b: Bridge, l: Ledger, id: nat)
    requires Inv(c, b, l)
    ensures Inv(c, AcquireMicroFP32(c, b, id).0, l)
  {
    hide CeilDiv, A.Inv, A.Valid, HotSlotOk, ColdSlotOk, EntryOk, A.SubSlotCount, PinTenant;
    var f := Find(b.tenants, id);
    if f.Some? {
      assert TenantOk(b, l, f.value);
      if b.tenants[f.value].kind == Micro && b.tenants[f.value].pins < PIN_SOFT_MAX { PinTenantKeeps(c, b, l, f.value); }
    }
  }

  lemma WriteKeeps(c: Codec, b: Bridge, l: Ledger, id: nat, bytes: Bytes)
    requires Inv(c, b, l)
    ensures Inv(c, Write(c, b, id, bytes), l)
  {
    hide CeilDiv, A.Store, HotSlotOk, ColdSlotOk, TenantOk, EntryOk;
    var f := Find(b.tenants, id);
    if f.Some? && MayWrite(b, b.tenants[f.value], bytes) && A.Validate(b.hot, b.tenants[f.value].hotId) {
      var t := b.tenants[f.value];
      StoreHot(c, b, l, t.hotId.slot, if t.kind == Micro then t.hotId.sub * MICRO_SLOT else 0, bytes);
    }
  }

  lemma DestroyTenantKeeps(c: Codec, b: Bridge, l: Ledger, id: nat) returns (l': Ledger)
    requires Inv(c, b, l) && AtRest(l)
    ensures Inv(c, DestroyTenant(c, b, id).0, l') && AtRest(l')
  {
    hide Inv, DestroyFull, DestroyMicro;
    var f := Find(b.tenants, id);
    if f.None? || b.tenants[f.value].state == Dead { return l; }
    if b.tenants[f.value].kind == Micro { l' := DestroyMicroKeeps(c, b, l, f.value); }
    else { l' := DestroyFullKeeps(c, b, l, f.value); }
  }

  /* ---- every operation, every run ---- */

  lemma StepKeeps(c: Codec, b: Bridge, l: Ledger, op: Op) returns (l': Ledger)
    requires Inv(c, b, l) && AtRest(l)
    ensures Inv(c, Step(c, b, op), l') && AtRest(l')
  {
    hide Inv, CreateTenant, DestroyTenant, AcquireFP32, Release, SealTenant, CreateMicroTenant, AcquireMicroFP32, Write;
    l' := l;
    match op
    case DoCreate(tid) => l' := CreateTenantKeeps(c, b, l, tid);
    case DoDestroy(id) => l' := DestroyTenantKeeps(c, b, l, id);
    case DoAcquire(id, tid) => l' := AcquireFP32Keeps(c, b, l, id, tid);
    case DoRelease(id) => ReleaseKeeps(c, b, l, id);
    case DoSeal(id) => SealTenantKeeps(c, b, l, id);
    case DoCreateMicro(tid) => l' := CreateMicroTenantKeeps(c, b, l, tid);
    case DoAcquireMicro(id) => AcquireMicroKeeps(c, b, l, id);
    case DoWrite(id, bytes) => WriteKeeps(c, b, l, id, bytes);
  }

  /** The invariant without its witness. */
  ghost predicate Owned(c: Codec, b: Bridge) {
    exists l :: Inv(c, b, l) && AtRest(l)
  }

  /** Any sequence of operations keeps the invariant. */
  lemma {:induction false} RunKeepsOwned(c: Codec, b: Bridge, ops: seq<Op>)
    requires Valid(c, b) && Owned(c, b)
    ensures Owned(c, Run(c, b, ops))
    decreases |ops|
  {
    hide Inv, AtRest, Step;
    if ops != [] {
      var l :| Inv(c, b, l) && AtRest(l);
      var l' := StepKeeps(c, b, l, ops[0]);
      RunKeepsOwned(c, Step(c, b, ops[0]), ops[1..]);
    }
  }

  /** A bridge over two empty arenas. */
  ghost predicate Pristine(c: Codec, b: Bridge) {
    && Valid(c, b) && A.Inv(b.hot) && A.Inv(b.cold)
    && (forall s: nat :: s < |b.hot.versions| ==> !Occupied(b.hot.words, s))
    && (forall s: nat :: s < |b.cold.versions| ==> !Occupied(b.cold.words, s))
    && (forall i :: 0 <= i < |b.tenants| ==> !b.tenants[i].inUse)
    && (forall e :: 0 <= e < |b.shared| ==> b.shared[e] == Shared(0, NULL_ID))
  }

  lemma PristineOwned(c: Codec, b: Bridge)
    requires Pristine(c, b)
    ensures Owned(c, b)
  {
    hide CeilDiv, A.Inv;
    var l := Ledger(seq(|b.hot.versions|, _ => Nobody), seq(|b.cold.versions|, _ => Nobody),
                    seq(|b.shared|, _ => seq(SubSlots(b), _ => 0)));
    forall k: nat ensures !Bit(0, k) { ZeroWord(k); }
    assert Inv(c, b, l) && AtRest(l);
  }
}
