/** The tiered bridge as the program keeps it: two arenas, a fixed pool of tenant records, the shared-slot
    entries and a few counters, all updated in place under one mutex
    (include/qtx/tiered/tiered_bridge.hpp).  Every method is proved to compute the operation of BridgeSpec
    of the same name on `Model()`. */
module TieredBridge {
  import opened BitWords
  import opened Common
  import opened FractalArenas
  import opened GenIds
  import opened SelectorSpec
  import opened BridgeSpec
  import opened BridgeOwnership
  import opened BridgeLookup
  import opened BridgeCounting
  import A = ArenaSpec

  /** Where the allocate-and-evict loop stands once an allocation has returned `id`. */
  ghost function AfterAllocate(c: Codec, b: Bridge, id: GenId, skip: nat, tid: nat, retries: nat): (Bridge, GenId)
    requires BridgeSpec.Valid(c, b)
  {
    if !id.IsNull() || retries == 0 then (b, id)
    else
      var (b2, evicted) := Evict(c, b, skip, tid);
      if !evicted then (b2, NULL_ID) else AllocHot(c, b2, skip, tid, retries - 1)
  }

  lemma AtLeastOne(n: nat, d: nat)
    requires n > 0 && d > 0
    ensures CeilDiv(n, d) > 0
  {
    assert (n + d - 1) / d >= d / d;
  }

  class TieredArenaBridge {
    const codec: Codec
    const hot: FractalArena
    const cold: FractalArena
    const tenants: array<Tenant>
    const shared: array<Shared>
    var clock: nat
    var lastId: nat
    var scanStart: nat
    var evictions: nat
    var promotions: nat

    ghost predicate Separate() {
      && hot.Apart(tenants) && hot.Apart(shared) && cold.Apart(tenants) && cold.Apart(shared)
      && cold.Apart(hot.selector.words) && cold.Apart(hot.versions) && cold.Apart(hot.die)
      && tenants as object != shared as object
    }

    ghost predicate Valid()
      reads this, tenants, shared, hot.selector.words, hot.versions, hot.die, cold.selector.words, cold.versions, cold.die
    {
      Separate() && hot.Valid() && cold.Valid() && BridgeSpec.Valid(codec, Model())
    }

    ghost function Model(): Bridge
      requires hot.Valid() && cold.Valid()
      reads this, tenants, shared, hot.selector.words, hot.versions, hot.die, cold.selector.words, cold.versions, cold.die
    {
      Bridge(hot.Model(), cold.Model(), tenants[..], shared[..], clock, lastId, scanStart, evictions, promotions)
    }

    /** Every record free, no shared slot, every counter zero. */
    constructor (codec: Codec, hot: FractalArena, cold: FractalArena, maxTenants: nat)
      requires hot.Valid() && cold.Valid()
      requires cold.Apart(hot.selector.words) && cold.Apart(hot.versions) && cold.Apart(hot.die)
      requires codec.bound <= cold.slotSize && hot.slotSize / MICRO_SLOT <= MAX_SUB_SLOT + 1
      requires maxTenants > 0
      ensures Valid() && fresh(tenants) && fresh(shared)
      ensures this.codec == codec && this.hot == hot && this.cold == cold && tenants.Length == maxTenants
      ensures Model().hot == hot.Model() && Model().cold == cold.Model()
      ensures (A.Inv(hot.Model()) && A.Inv(cold.Model())
               && forall s: nat :: !Occupied(hot.Model().words, s) && !Occupied(cold.Model().words, s))
              ==> Pristine(codec, Model())
      ensures clock == lastId == evictions == promotions == 0
    {
      var n := hot.slotSize / MICRO_SLOT;
      this.codec, this.hot, this.cold := codec, hot, cold;
      tenants := new Tenant[maxTenants](_ => Tenant(0, 0, Dead, 0, false, false, NULL_ID, NULL_ID, FullSlot, 0));
      shared := new Shared[CeilDiv(maxTenants, n)](_ => Shared(0, NULL_ID));
      clock, lastId, scanStart, evictions, promotions := 0, 0, 0, 0, 0;
      new;
      AtLeastOne(maxTenants, n);
      OneFits(n);
    }

    method AcquireRecord() returns (i: int)
      ensures var f := FreeRecord(tenants[..], 0);
              if f.None? then i == -1 else i == f.value
    {
      for n := 0 to tenants.Length
        invariant FreeRecord(tenants[..], 0) == FreeRecord(tenants[..], n)
      {
        if !tenants[n].inUse { return n; }
      }
      return -1;
    }

    method FindTenantLocked(id: nat) returns (i: int)
      ensures var f := Find(tenants[..], id);
              if f.None? then i == -1 else i == f.value
      ensures i != -1 ==> 0 <= i < tenants.Length && tenants[i].inUse && tenants[i].id == id
      ensures i == -1 && id != 0 && id != NO_TENANT_ID ==>
                forall n :: 0 <= n < tenants.Length ==> !(tenants[n].inUse && tenants[n].id == id)
    {
      LookupExactly(tenants[..], id);
      if id == NO_TENANT_ID || id == 0 { return -1; }
      for n := 0 to tenants.Length
        invariant FindFrom(tenants[..], id, 0) == FindFrom(tenants[..], id, n)
      {
        if tenants[n].inUse && tenants[n].id == id { return n; }
      }
      return -1;
    }

    method FindTenantLockfree(id: nat) returns (i: int)
      ensures var f := FindLive(tenants[..], id);
              if f.None? then i == -1 else i == f.value
      ensures i != -1 ==> 0 <= i < tenants.Length && tenants[i].inUse && tenants[i].id == id && tenants[i].state != Dead
      ensures i == -1 && id != 0 && id != NO_TENANT_ID ==>
                forall n :: 0 <= n < tenants.Length ==> !(tenants[n].inUse && tenants[n].id == id && tenants[n].state != Dead)
    {
      LookupExactly(tenants[..], id);
      if id == NO_TENANT_ID || id == 0 { return -1; }
      for n := 0 to tenants.Length
        invariant FindLiveFrom(tenants[..], id, 0) == FindLiveFrom(tenants[..], id, n)
      {
        if tenants[n].inUse && tenants[n].id == id && tenants[n].state != Dead { return n; }
      }
      return -1;
    }

    /** The sweep of evictOldestToColdLocked. */
    method OldestEligible(skip: nat) returns (victim: int)
      ensures var v := Victim(tenants[..], skip, tenants.Length);
              if v.None? then victim == -1 else victim == v.value
    {
      victim := -1;
      var victimTime := 0;
      for n := 0 to tenants.Length
        invariant var v := Victim(tenants[..], skip, n);
                  if v.None? then victim == -1
                  else victim == v.value && victimTime == tenants[v.value].accessTime
      {
        var r := tenants[n];
        if !r.inUse { continue; }
        if r.state != InHot { continue; }
        if r.pins > 0 { continue; }
        if r.id == skip { continue; }
        if r.sealed { continue; }
        if r.kind == Micro { continue; }
        if victim == -1 || r.accessTime < victimTime {
          victim := n;
          victimTime := r.accessTime;
        }
      }
    }

    method EvictOldestToColdLocked(skip: nat, tid: nat) returns (ok: bool)
      requires Valid()
      modifies this, tenants, shared, hot.selector.words, hot.versions, hot.die, cold.selector.words, cold.versions, cold.die
      ensures Valid() && (Model(), ok) == Evict(codec, old(Model()), skip, tid)
    {
      hide A.Allocate, A.Valid, EvictInto, Victim, CeilDiv, A.Inv, Slots, Occupied;
      var victim := OldestEligible(skip);
      if victim == -1 { return false; }
      var coldId := cold.Allocate(codec.bound, SLOT_ALIGN, tid);
      assert Model() == old(Model()).(cold := A.Allocate(old(cold.Model()), codec.bound, SLOT_ALIGN, tid).0);
      if coldId.IsNull() { return false; }
      ok := CompressInto(victim, coldId);
    }

    /** The second half of the eviction: compress the victim's slot into the fresh cold slot. */
    method CompressInto(victim: nat, coldId: GenId) returns (ok: bool)
      requires Valid() && victim < tenants.Length
      modifies this, tenants, shared, hot.selector.words, hot.versions, hot.die, cold.selector.words, cold.versions, cold.die
      ensures Valid() && (Model(), ok) == EvictInto(codec, old(Model()), victim, coldId)
    {
      hide A.Release, A.Store, A.Valid, A.Validate, CeilDiv, A.Inv, Slots, Occupied;
      var hotId := tenants[victim].hotId;
      var hotView := hot.View(hotId);
      var coldView := cold.View(coldId);
      if hotView.length == 0 || coldView.length == 0 {
        var _ := cold.Release(coldId);
        assert Model() == old(Model()).(cold := A.Release(old(cold.Model()), coldId).0);
        return false;
      }
      var bytes := codec.compress(hot.die[hotView.start..hotView.start + hotView.length]);
      cold.Store(coldId.slot, 0, bytes);
      ghost var stored := A.Store(old(cold.Model()), coldId.slot, 0, bytes);
      assert Model() == old(Model()).(cold := stored);
      if |bytes| != codec.bound {
        var _ := cold.Release(coldId);
        assert Model() == old(Model()).(cold := A.Release(stored, coldId).0);
        return false;
      }
      var _ := hot.Release(hotId);
      assert Model() == old(Model()).(cold := stored, hot := A.Release(old(hot.Model()), hotId).0);
      tenants[victim] := tenants[victim].(hotId := NULL_ID, coldId := coldId, state := InCold);
      evictions := evictions + 1;
      return true;
    }

    /** The loop that createTenant, acquireFP32 and createMicroTenant share: allocate, evicting between attempts. */
    method AllocateHot(skip: nat, tid: nat) returns (hotId: GenId)
      requires Valid()
      modifies this, tenants, shared, hot.selector.words, hot.versions, hot.die, cold.selector.words, cold.versions, cold.die
      ensures Valid() && (Model(), hotId) == AllocHot(codec, old(Model()), skip, tid, EVICT_RETRIES)
    {
      hide A.Allocate, A.Valid, Evict, CeilDiv, A.Inv, Slots, Occupied;
      hotId := hot.Allocate(hot.slotSize, SLOT_ALIGN, tid);
      assert Model() == old(Model()).(hot := A.Allocate(old(hot.Model()), hot.slotSize, SLOT_ALIGN, tid).0);
      var r := 0;
      while r < EVICT_RETRIES && hotId.IsNull()
        invariant 0 <= r <= EVICT_RETRIES && Valid()
        invariant AllocHot(codec, old(Model()), skip, tid, EVICT_RETRIES)
               == AfterAllocate(codec, Model(), hotId, skip, tid, EVICT_RETRIES - r)
      {
        var evicted := EvictOldestToColdLocked(skip, tid);
        if !evicted { return NULL_ID; }
        label Evicted:
        hotId := hot.Allocate(hot.slotSize, SLOT_ALIGN, tid);
        assert Model() == old@Evicted(Model()).(hot := A.Allocate(old@Evicted(hot.Model()), hot.slotSize, SLOT_ALIGN, tid).0);
        r := r + 1;
      }
    }

    method ReleaseRecord(i: nat)
      requires Valid() && i < tenants.Length
      modifies tenants
      ensures Valid() && Model() == BridgeSpec.ReleaseRecord(old(Model()), i)
    {
      hide A.Valid, CeilDiv, Slots;
      tenants[i] := tenants[i].(state := Dead, inUse := false);
    }

    /** Stamps and counts a new tenant id: the least above every id given out that is not reserved. */
    method NextTenantId() returns (v: nat)
      modifies this`lastId
      ensures v == lastId == NextId(old(lastId))
      ensures old(lastId) < v && v != 0 && v != NO_TENANT_ID
      ensures v == old(lastId) + 1 || old(lastId) + 1 == NO_TENANT_ID == v - 1
    {
      lastId := lastId + 1;
      if lastId == 0 || lastId == NO_TENANT_ID { lastId := lastId + 1; }
      v := lastId;
    }

    /** The handle on success. */
    method CreateTenant(tid: nat) returns (h: Option<nat>)
      requires Valid()
      modifies this, tenants, shared, hot.selector.words, hot.versions, hot.die, cold.selector.words, cold.versions, cold.die
      ensures Valid() && (Model(), h) == BridgeSpec.CreateTenant(codec, old(Model()), tid)
    {
      hide AllocHot, A.Valid, CeilDiv, A.Inv, Slots, Occupied;
      var i := AcquireRecord();
      if i == -1 { return None; }
      var hotId := AllocateHot(NO_TENANT_ID, tid);
      if hotId.IsNull() {
        ReleaseRecord(i);
        return None;
      }
      var id := NextTenantId();
      tenants[i] := Tenant(id, 0, InHot, clock, true, false, hotId, NULL_ID, FullSlot, 0);
      clock := clock + 1;
      return Some(id);
    }

    method DestroyTenant(id: nat) returns (ok: bool)
      requires Valid()
      modifies this, tenants, shared, hot.selector.words, hot.versions, hot.die, cold.selector.words, cold.versions, cold.die
      ensures Valid() && (Model(), ok) == BridgeSpec.DestroyTenant(codec, old(Model()), id)
    {
      hide BridgeSpec.DestroyFull, BridgeSpec.DestroyMicro, A.Valid, CeilDiv, A.Inv, Slots;
      var i := FindTenantLocked(id);
      if i == -1 { return false; }
      if tenants[i].state == Dead { return false; }
      if tenants[i].kind == Micro {
        ok := DestroyMicro(i);
      } else {
        DestroyFull(i);
        ok := true;
      }
    }

    method DestroyFull(i: nat)
      requires Valid() && i < tenants.Length
      modifies this, tenants, shared, hot.selector.words, hot.versions, hot.die, cold.selector.words, cold.versions, cold.die
      ensures Valid() && Model() == BridgeSpec.DestroyFull(codec, old(Model()), i)
    {
      hide A.Release, A.Valid, A.Inv, CeilDiv, Slots, Occupied;
      var rec := tenants[i];
      if !rec.hotId.IsNull() { var _ := hot.Release(rec.hotId); }
      if !rec.coldId.IsNull() { var _ := cold.Release(rec.coldId); }
      tenants[i] := rec.(state := Dead, hotId := NULL_ID, coldId := NULL_ID, inUse := false);
    }

    method DestroyMicro(i: nat) returns (ok: bool)
      requires Valid() && i < tenants.Length
      modifies this, tenants, shared, hot.selector.words, hot.versions, hot.die, cold.selector.words, cold.versions, cold.die
      ensures Valid() && (Model(), ok) == BridgeSpec.DestroyMicro(codec, old(Model()), i)
    {
      hide A.Release, A.ZeroizeSub, A.Valid, A.Inv, CeilDiv, Slots, Occupied;
      var rec := tenants[i];
      var _ := hot.ZeroizeSubSlot(rec.hotId, MICRO_SLOT);
      ghost var wiped := A.ZeroizeSub(old(hot.Model()), rec.hotId, MICRO_SLOT).0;
      assert Model() == old(Model()).(hot := wiped);
      if rec.sharedIdx >= shared.Length || rec.hotId.sub >= hot.slotSize / MICRO_SLOT {
        tenants[i] := rec.(state := Dead, inUse := false);
        return false;
      }
      var e := rec.sharedIdx;
      var now := ClearBit(shared[e].bitmap, rec.hotId.sub);
      WidthAfter(shared[e].bitmap, SubSlots(Model()), rec.hotId.sub);
      var hotId := shared[e].hotId;
      shared[e] := shared[e].(bitmap := now);
      if now == 0 {
        var _ := hot.Release(hotId.WithSubSlot(0));
        shared[e] := shared[e].(hotId := NULL_ID);
      }
      assert hot.Model() == if now == 0 then A.Release(wiped, hotId.WithSubSlot(0)).0 else wiped;
      assert shared[..] == old(shared[..])[e := Shared(now, if now == 0 then NULL_ID else hotId)];
      tenants[i] := rec.(state := Dead, hotId := NULL_ID, coldId := NULL_ID, inUse := false);
      return true;
    }

    /** bumpAccessTime: a ticket from the clock, stored only if newer. */
    method BumpAccessTime(i: nat)
      requires i < tenants.Length
      modifies this`clock, tenants
      ensures clock == old(clock) + 1
      ensures tenants[..] == old(tenants[..])[i := old(tenants[i]).(accessTime :=
                if old(clock) > old(tenants[i]).accessTime then old(clock) else old(tenants[i]).accessTime)]
    {
      var ticket := clock;
      clock := clock + 1;
      if ticket > tenants[i].accessTime { tenants[i] := tenants[i].(accessTime := ticket); }
    }

    method AcquireFP32(id: nat, tid: nat) returns (v: Span)
      requires Valid()
      modifies this, tenants, shared, hot.selector.words, hot.versions, hot.die, cold.selector.words, cold.versions, cold.die
      ensures Valid()
      ensures var (b, view) := BridgeSpec.AcquireFP32(codec, old(Model()), id, tid);
              Model() == b && v == SpanOf(view)
    {
      hide A.Valid, CeilDiv, A.Inv, Slots, BridgeSpec.Promote, Occupied;
      var i := FindTenantLocked(id);
      if i == -1 { return NO_SPAN; }
      if tenants[i].state == Dead { return NO_SPAN; }
      if tenants[i].state == InCold {
        var ready := Promote(i, tid);
        if !ready { return NO_SPAN; }
      }
      if tenants[i].pins >= PIN_SOFT_MAX { return NO_SPAN; }
      Pin(i);
      v := hot.View(tenants[i].hotId);
    }

    method Pin(i: nat)
      requires Valid() && i < tenants.Length
      modifies this`clock, tenants
      ensures Valid() && Model() == PinTenant(old(Model()), i)
    {
      hide A.Valid, CeilDiv, Slots;
      tenants[i] := tenants[i].(pins := tenants[i].pins + 1);
      BumpAccessTime(i);
      assert tenants[..] == PinTenant(old(Model()), i).tenants;
    }

    ghost function SpanOf(view: BridgeSpec.View): Span {
      if view.NoView? then NO_SPAN else Span(At(view.slot, hot.slotSize) + view.offset, view.length)
    }

    /** The promotion inside acquireFP32. */
    method Promote(i: nat, tid: nat) returns (ok: bool)
      requires Valid() && i < tenants.Length
      modifies this, tenants, shared, hot.selector.words, hot.versions, hot.die, cold.selector.words, cold.versions, cold.die
      ensures Valid() && (Model(), ok) == BridgeSpec.Promote(codec, old(Model()), i, tid)
    {
      hide A.Valid, CeilDiv, A.Inv, Slots, AllocHot, PromoteInto, Occupied;
      var hotId := AllocateHot(tenants[i].id, tid);
      if hotId.IsNull() { return false; }
      ok := DecompressInto(i, hotId);
    }

    method DecompressInto(i: nat, hotId: GenId) returns (ok: bool)
      requires Valid() && i < tenants.Length
      modifies this, tenants, shared, hot.selector.words, hot.versions, hot.die, cold.selector.words, cold.versions, cold.die
      ensures Valid() && (Model(), ok) == PromoteInto(codec, old(Model()), i, hotId)
    {
      hide A.Release, A.Store, A.Valid, A.Validate, CeilDiv, A.Inv, Slots, Occupied;
      var coldId := tenants[i].coldId;
      var coldView := cold.View(coldId);
      var hotView := hot.View(hotId);
      if coldView.length == 0 || hotView.length == 0 {
        var _ := hot.Release(hotId);
        assert Model() == old(Model()).(hot := A.Release(old(hot.Model()), hotId).0);
        return false;
      }
      assert cold.die[coldView.start..coldView.start + codec.bound]
          == cold.die[coldView.start..coldView.start + coldView.length][..codec.bound];
      var bytes := codec.decompress(cold.die[coldView.start..coldView.start + codec.bound]);
      hot.Store(hotId.slot, 0, bytes);
      ghost var stored := A.Store(old(hot.Model()), hotId.slot, 0, bytes);
      assert Model() == old(Model()).(hot := stored);
      if |bytes| != hot.slotSize {
        var _ := hot.Release(hotId);
        assert Model() == old(Model()).(hot := A.Release(stored, hotId).0);
        return false;
      }
      var _ := cold.Release(coldId);
      assert Model() == old(Model()).(hot := stored, cold := A.Release(old(cold.Model()), coldId).0);
      tenants[i] := tenants[i].(coldId := NULL_ID, hotId := hotId, state := InHot);
      promotions := promotions + 1;
      return true;
    }

    /** Lock-free in the program; nobody interferes here, so the decrement lands at once. */
    method Release(id: nat) returns (ok: bool)
      requires Valid()
      modifies tenants
      ensures Valid() && (Model(), ok) == BridgeSpec.Release(old(Model()), id)
    {
      hide A.Valid, CeilDiv, Slots;
      var i := FindTenantLockfree(id);
      if i == -1 { return false; }
      if tenants[i].pins > 0 {
        tenants[i] := tenants[i].(pins := tenants[i].pins - 1);
        return true;
      }
      return false;
    }

    method SealTenant(id: nat) returns (ok: bool)
      requires Valid()
      modifies tenants
      ensures Valid() && (Model(), ok) == BridgeSpec.SealTenant(old(Model()), id)
    {
      hide A.Valid, CeilDiv, Slots;
      var i := FindTenantLocked(id);
      if i == -1 { return false; }
      if tenants[i].state == Dead { return false; }
      tenants[i] := tenants[i].(sealed := true);
      return true;
    }

    /** Step 2a of createMicroTenant: the circular scan for a live entry with a free bit, and the bit. */
    method TakeSubSlot(start: nat) returns (e: int, k: nat)
      requires Valid() && start < shared.Length
      modifies shared
      ensures Valid()
      ensures var r := EntryWithRoom(old(shared[..]), SubSlots(Model()), start, 0);
              if r.None? then e == -1 && shared[..] == old(shared[..])
              else
                e == r.value && k == LowestClear(old(shared[e]).bitmap)
                && shared[..] == old(shared[..])[e := old(shared[e]).(bitmap := SetBit(old(shared[e]).bitmap, k))]
    {
      hide A.Valid, CeilDiv, Slots;
      var width := hot.slotSize / MICRO_SLOT;
      var validBits := Pow2(width) - 1;
      e, k := -1, width;
      var n := 0;
      while n < shared.Length
        invariant 0 <= n <= shared.Length && shared[..] == old(shared[..])
        invariant EntryWithRoom(shared[..], width, start, 0) == EntryWithRoom(shared[..], width, start, n)
      {
        AroundIsModulo(start, n, shared.Length);
        var i := (start + n) % shared.Length;
        if !shared[i].hotId.IsNull() {
          var bm := shared[i].bitmap;
          assert bm < Pow2(SubSlots(Model()));
          if bm != validBits {
            InvertedLowest(bm, width);
            FullWord(bm, width);
            var freeBit := LowestSet(validBits - bm);
            WidthAfter(bm, width, freeBit);
            shared[i] := shared[i].(bitmap := SetBit(bm, freeBit));
            return i, freeBit;
          }
        }
        n := n + 1;
      }
    }

    /** The cursor this scan starts from; the next scan starts one entry later. */
    method AdvanceScan() returns (start: nat)
      requires scanStart < shared.Length
      modifies this`scanStart
      ensures start == old(scanStart)
      ensures scanStart == if start + 1 == shared.Length then 0 else start + 1
    {
      start := scanStart;
      if shared.Length > 1 { AroundIsModulo(start, 1, shared.Length); }
      scanStart := (start + 1) % shared.Length;
    }

    method CreateMicroTenant(tid: nat) returns (h: Option<nat>)
      requires Valid()
      modifies this, tenants, shared, hot.selector.words, hot.versions, hot.die, cold.selector.words, cold.versions, cold.die
      ensures Valid() && (Model(), h) == BridgeSpec.CreateMicroTenant(codec, old(Model()), tid)
    {
      hide BridgeSpec.FreshMicro, BridgeSpec.BindMicro, EntryWithRoom, A.Valid, CeilDiv, A.Inv, Slots, Occupied;
      var i := AcquireRecord();
      if i == -1 { return None; }
      var start := AdvanceScan();
      var e, k := TakeSubSlot(start);
      if e == -1 {
        h := FreshMicro(i, tid);
      } else {
        h := BindMicro(i, e, k);
      }
    }

    /** Step 2b: a fresh hot slot bound to the first empty entry. */
    method FreshMicro(i: nat, tid: nat) returns (h: Option<nat>)
      requires Valid() && i < tenants.Length
      modifies this, tenants, shared, hot.selector.words, hot.versions, hot.die, cold.selector.words, cold.versions, cold.die
      ensures Valid() && (Model(), h) == BridgeSpec.FreshMicro(codec, old(Model()), i, tid)
    {
      hide AllocHot, BridgeSpec.BindMicro, A.Release, A.Valid, CeilDiv, A.Inv, Slots, Occupied;
      var freshId := AllocateHot(NO_TENANT_ID, tid);
      if freshId.IsNull() {
        ReleaseRecord(i);
        return None;
      }
      var e := -1;
      var n := 0;
      while n < shared.Length && e == -1
        invariant 0 <= n <= shared.Length
        invariant EmptyEntry(shared[..], 0) == if e == -1 then EmptyEntry(shared[..], n) else Some(n - 1)
        invariant e == -1 || (n > 0 && e == n - 1)
      {
        if shared[n].hotId.IsNull() && shared[n].bitmap == 0 { e := n; }
        n := n + 1;
      }
      label Scanned:
      if e == -1 {
        var _ := hot.Release(freshId);
        assert Model() == old@Scanned(Model()).(hot := A.Release(old@Scanned(hot.Model()), freshId).0);
        ReleaseRecord(i);
        return None;
      }
      OneFits(SubSlots(Model()));
      shared[e] := Shared(1, freshId);
      assert Model() == OpenEntry(codec, old@Scanned(Model()), e, freshId);
      h := BindMicro(i, e, 0);
    }

    /** Steps 3 and 4: fill in the record, then wipe the sub-slot. */
    method BindMicro(i: nat, e: nat, k: nat) returns (h: Option<nat>)
      requires Valid() && i < tenants.Length && e < shared.Length
      modifies this, tenants, shared, hot.selector.words, hot.versions, hot.die, cold.selector.words, cold.versions, cold.die
      ensures Valid() && (Model(), h) == BridgeSpec.BindMicro(codec, old(Model()), i, e, k)
    {
      hide A.ZeroizeSub, A.Valid, CeilDiv, A.Inv, Slots, Occupied;
      var id := NextTenantId();
      tenants[i] := Tenant(id, 0, InHot, clock, true, false, shared[e].hotId.WithSubSlot(k), NULL_ID, Micro, e);
      clock := clock + 1;
      var _ := hot.ZeroizeSubSlot(tenants[i].hotId, MICRO_SLOT);
      return Some(id);
    }

    method AcquireMicroFP32(id: nat) returns (v: Span)
      requires Valid()
      modifies this`clock, tenants
      ensures Valid()
      ensures var (b, view) := BridgeSpec.AcquireMicroFP32(codec, old(Model()), id);
              Model() == b && v == SpanOf(view)
    {
      hide A.Valid, CeilDiv, A.Inv, Slots, Occupied;
      var i := FindTenantLocked(id);
      if i == -1 { return NO_SPAN; }
      if tenants[i].kind != Micro { return NO_SPAN; }
      if tenants[i].state == Dead { return NO_SPAN; }
      if tenants[i].pins >= PIN_SOFT_MAX { return NO_SPAN; }
      Pin(i);
      v := hot.ViewSubSlot(tenants[i].hotId, MICRO_SLOT);
    }

    method HotUsed() returns (n: int)
      requires Valid()
      ensures n == UsedSlots(Model().hot)
      ensures Owned(codec, Model()) ==> n == |FullTenants(Model(), InHot)| + |LiveEntries(Model())|
    {
      if Owned(codec, Model()) { HotUsedConserved(codec, Model()); }
      FreeCountIsCardinality(hot.selector.words[..]);
      n := hot.UsedSlots();
    }

    method ColdUsed() returns (n: int)
      requires Valid()
      ensures n == UsedSlots(Model().cold)
      ensures Owned(codec, Model()) ==> n == |FullTenants(Model(), InCold)|
    {
      if Owned(codec, Model()) { ColdUsedConserved(codec, Model()); }
      FreeCountIsCardinality(cold.selector.words[..]);
      n := cold.UsedSlots();
    }
  }
}
