/** What each operation of the bridge does, said of the records, slots and views alone
    (include/qtx/tiered/tiered_bridge.hpp:282-768), and how long an id names its tenant. */
module BridgeEffects {
  import opened BitWords
  import opened Common
  import opened GenIds
  import opened SelectorSpec
  import A = ArenaSpec
  import opened BridgeSpec
  import opened BridgeInvariant
  import opened BridgeOwnership
  import opened BridgeLookup
  import opened BridgeCounting
  import opened BridgeAllocation
  import opened BridgeMicro
  import opened BridgeRefinement
  import opened BridgeLru
  import opened BridgeHandles

  /* ---- how long an id names its record ---- */

  predicate Destroys(op: Op, id: nat) { op.DoDestroy? && op.id == id }

  /** A record in use leaves use exactly when it is destroyed by its id. */
  lemma StepDrops(c: Codec, b: Bridge, op: Op, j: nat)
    requires Valid(c, b) && Owned(c, b) && j < |b.tenants| && b.tenants[j].inUse
    ensures Step(c, b, op).tenants[j].inUse <==> !Destroys(op, b.tenants[j].id)
  {
    hide A.Valid, Owned, CreateTenant, CreateMicroTenant, DestroyTenant, AcquireFP32, AcquireMicroFP32, Write, Release, SealTenant;
    match op
    case DoCreate(tid) => CreateKeepsUse(c, b, tid, j);
    case DoCreateMicro(tid) => CreateMicroKeepsUse(c, b, tid, j);
    case DoAcquire(id, tid) => AcquireKeepsUse(c, b, id, tid, j);
    case DoDestroy(id) => DestroyDrops(c, b, id, j);
    case _ => OthersKeepUse(c, b, op, j);
  }

  lemma CreateKeepsUse(c: Codec, b: Bridge, tid: nat, j: nat)
    requires Valid(c, b) && j < |b.tenants| && b.tenants[j].inUse
    ensures CreateTenant(c, b, tid).0.tenants[j].inUse
  {
    hide AllocHot, A.Valid, CeilDiv;
    AllocHotFrame(c, b, NO_TENANT_ID, tid, EVICT_RETRIES);
  }

  lemma CreateMicroKeepsUse(c: Codec, b: Bridge, tid: nat, j: nat)
    requires Valid(c, b) && j < |b.tenants| && b.tenants[j].inUse
    ensures CreateMicroTenant(c, b, tid).0.tenants[j].inUse
  {
    hide CreateMicroTenant, FreshMicro, BindMicro, A.Valid, CeilDiv;
    var f := FreeRecord(b.tenants, 0);
    if CreateMicroTenant(c, b, tid).1.Some? {
      var b1, e, k := CreateMicroBinds(c, b, tid);
      BindMicroEffect(c, b1, f.value, e, k);
    } else {
      CreateMicroFails(c, b, tid);
      if f.Some? {
        FreshKeepsUse(c, b.(scanStart := if b.scanStart + 1 == |b.shared| then 0 else b.scanStart + 1), f.value, tid, j);
      }
    }
  }

  lemma FreshKeepsUse(c: Codec, b: Bridge, f: nat, tid: nat, j: nat)
    requires Valid(c, b) && f < |b.tenants| && j < |b.tenants| && j != f && b.tenants[j].inUse
    ensures FreshMicro(c, b, f, tid).0.tenants[j].inUse
  {
    hide AllocHot, A.Valid, CeilDiv, A.Release, A.ZeroizeSub;
    AllocHotFrame(c, b, NO_TENANT_ID, tid, EVICT_RETRIES);
  }

  lemma AcquireKeepsUse(c: Codec, b: Bridge, id: nat, tid: nat, j: nat)
    requires Valid(c, b) && j < |b.tenants| && b.tenants[j].inUse
    ensures AcquireFP32(c, b, id, tid).0.tenants[j].inUse
  {
    hide Promote, A.Valid, CeilDiv;
    var f := Find(b.tenants, id);
    if f.Some? && b.tenants[f.value].state == InCold {
      PromoteFrame(c, b, f.value, tid);
      var b1 := Promote(c, b, f.value, tid).0;
      assert b1.tenants[f.value := b.tenants[f.value]][j] == if j == f.value then b.tenants[j] else b1.tenants[j];
    }
  }

  lemma DestroyDrops(c: Codec, b: Bridge, id: nat, j: nat)
    requires Valid(c, b) && Owned(c, b) && j < |b.tenants| && b.tenants[j].inUse
    ensures DestroyTenant(c, b, id).0.tenants[j].inUse <==> id != b.tenants[j].id
  {
    FoundExactly(c, b, j, id);
    hide A.Valid, CeilDiv, A.Release, A.ZeroizeSub, Owned;
  }

  lemma OthersKeepUse(c: Codec, b: Bridge, op: Op, j: nat)
    requires Valid(c, b) && j < |b.tenants| && b.tenants[j].inUse
    requires op.DoRelease? || op.DoSeal? || op.DoWrite? || op.DoAcquireMicro?
    ensures Step(c, b, op).tenants[j].inUse
  {
    hide A.Valid, CeilDiv, A.Store, A.SubSlotValid, A.SubSlotCount;
  }

  lemma StepHolds(c: Codec, b: Bridge, op: Op, i: nat, id: nat)
    requires Valid(c, b) && Owned(c, b) && Holds(b, i, id)
    ensures Holds(Step(c, b, op), i, id) <==> !Destroys(op, id)
    ensures Destroys(op, id) ==> Spent(Step(c, b, op), id)
  {
    StepDrops(c, b, op, i);
    StepRecords(c, b, op, i);
    FoundExactly(c, b, i, id);
    if Destroys(op, id) {
      DestroySucceedsExactly(c, b, id);
      DestroySpends(c, b, id);
    }
    hide Step, Owned, Used, A.Valid, Spent;
  }

  /** Over any run a record keeps its id exactly until the run destroys it. */
  lemma {:induction false} RunHolds(c: Codec, b: Bridge, ops: seq<Op>, i: nat, id: nat)
    requires Valid(c, b) && Owned(c, b) && Holds(b, i, id)
    ensures Holds(Run(c, b, ops), i, id) <==> NeverDestroyed(ops, id)
    decreases |ops|
  {
    hide Owned, Step, Holds, Spent, A.Valid, CeilDiv;
    if ops != [] {
      StepHolds(c, b, ops[0], i, id);
      StepOwned(c, b, ops[0]);
      var b1 := Step(c, b, ops[0]);
      RunHead(c, b, ops);
      hide Run;
      if Destroys(ops[0], id) {
        RunKeepsSpent(c, b1, ops[1..], id);
        SpentHolds(Run(c, b1, ops[1..]), i, id);
      } else {
        RunHolds(c, b1, ops[1..], i, id);
        assert forall k :: 0 < k < |ops| ==> ops[k] == ops[1..][k - 1];
      }
    }
  }

  lemma RunHead(c: Codec, b: Bridge, ops: seq<Op>)
    requires Valid(c, b) && ops != []
    ensures Run(c, b, ops) == Run(c, Step(c, b, ops[0]), ops[1..])
  {
  }

  lemma SpentHolds(b: Bridge, i: nat, id: nat)
    requires Spent(b, id)
    ensures !Holds(b, i, id)
  {
  }

  /** An id that names nobody is refused by every operation, and nothing changes. */
  lemma UnknownIsRefused(c: Codec, b: Bridge, id: nat, tid: nat)
    requires Valid(c, b) && Owned(c, b) && !Known(b, id)
    ensures AcquireFP32(c, b, id, tid) == (b, NoView) && AcquireMicroFP32(c, b, id) == (b, NoView)
    ensures Release(b, id) == (b, false) && SealTenant(b, id) == (b, false) && DestroyTenant(c, b, id) == (b, false)
  {
    KnownIsFound(c, b, id);
    hide A.Valid, CeilDiv, Owned, Known, Find, FindLive;
  }

  /* ---- allocation with eviction ---- */

  /** What may be evicted to make room: a full tenant in the hot tier, neither pinned nor sealed nor the skipped one. */
  predicate MayGo(t: Tenant, skip: nat) {
    t.inUse && t.kind == FullSlot && t.state == InHot && t.pins == 0 && !t.sealed && t.id != skip
  }

  /** Record v is the one to go: the longest unused of those. */
  ghost predicate Goes(ts: seq<Tenant>, skip: nat, v: nat) {
    v < |ts| && MayGo(ts[v], skip) && forall j :: 0 <= j < |ts| && j != v && MayGo(ts[j], skip) ==> ts[v].accessTime < ts[j].accessTime
  }

  /** Its bytes can go to the cold tier. */
  ghost predicate CanGo(c: Codec, b: Bridge, skip: nat)
    requires Valid(c, b)
  {
    HasFree(b.cold) && c.bound > 0 && exists v: nat :: v < |b.tenants| && Goes(b.tenants, skip, v) && Compressible(c, b, v)
  }

  lemma VictimGoes(c: Codec, b: Bridge, skip: nat, v: nat)
    requires Valid(c, b) && Owned(c, b)
    ensures Victim(b.tenants, skip, |b.tenants|) == Some(v) <==> Goes(b.tenants, skip, v)
  {
    hide Owned, Valid, Victim;
    var w := Victim(b.tenants, skip, |b.tenants|);
    if w == Some(v) {
      forall j | 0 <= j < |b.tenants| && j != v && MayGo(b.tenants[j], skip)
        ensures b.tenants[v].accessTime < b.tenants[j].accessTime
      {
        VictimIsUnique(c, b, skip, j);
      }
    }
    if Goes(b.tenants, skip, v) { VictimIsUnique(c, b, skip, v); }
  }

  lemma CanGoExactly(c: Codec, b: Bridge, skip: nat)
    requires Valid(c, b) && Owned(c, b)
    ensures CanEvict(c, b, skip) <==> CanGo(c, b, skip)
  {
    hide Owned, Valid, Goes, Victim, Compressible, HasFree;
    var w := Victim(b.tenants, skip, |b.tenants|);
    if w.Some? { VictimGoes(c, b, skip, w.value); }
    if v: nat :| v < |b.tenants| && Goes(b.tenants, skip, v) && Compressible(c, b, v) { VictimGoes(c, b, skip, v); }
  }

  lemma FailedEvictFrame(c: Codec, b: Bridge, skip: nat, tid: nat)
    requires Valid(c, b) && !Evict(c, b, skip, tid).1
    ensures Evict(c, b, skip, tid).0 == b.(cold := Evict(c, b, skip, tid).0.cold)
  {
    hide A.Release, A.Allocate, A.Store, Valid, Victim;
  }

  /** Allocating a hot slot evicts nobody while one is free, and otherwise exactly the one to go; when it fails no
      tenant is touched. */
  lemma AllocHotEffect(c: Codec, b: Bridge, l: Ledger, skip: nat, tid: nat)
    requires Valid(c, b) && Inv(c, b, l) && AtRest(l)
    ensures var (b1, id) := AllocHot(c, b, skip, tid, EVICT_RETRIES);
            && (!id.IsNull() <==> HasFree(b.hot) || CanEvict(c, b, skip))
            && (id.IsNull() || HasFree(b.hot) ==> b1.tenants == b.tenants)
            && (!id.IsNull() && !HasFree(b.hot) ==>
                  && Victim(b.tenants, skip, |b.tenants|).Some?
                  && var v := Victim(b.tenants, skip, |b.tenants|).value;
                     b1.tenants == b.tenants[v := b.tenants[v].(hotId := NULL_ID, coldId := b1.tenants[v].coldId, state := InCold)])
  {
    hide A.Allocate, A.Inv, A.Valid, Evict, HotSlotOk, ColdSlotOk, TenantOk, EntryOk, CeilDiv, HasFree, CanEvict, AllocHot, Victim;
    AllocHotIsAllocOnce(c, b, l, skip, tid);
    AllocateExact(b.hot, b.hot.slotSize, tid);
    EvictSucceedsExactly(c, b, l, skip, tid);
    if !HasFree(b.hot) {
      if Evict(c, b, skip, tid).1 {
        EvictIsOfVictim(c, b, skip, tid);
        EvictFreesHot(c, b, l, skip, tid);
        var v := Victim(b.tenants, skip, |b.tenants|).value;
        hide EvictTenant;
        EvictedTenantState(c, b, l, v, tid);
        var b1 := Evict(c, b, skip, tid).0;
        AllocateExact(b1.hot, b1.hot.slotSize, tid);
      } else {
        FailedEvictFrame(c, b, skip, tid);
      }
    }
  }

  /* ---- createTenant ---- */

  /** createTenant succeeds exactly when a record is free and a hot slot is free or can be made free; it then fills the
      first free record with a new tenant under the id it returns, and the only other tenant it touches is the one
      to go, if no slot was free.  Failing, it touches no tenant. */
  lemma CreateEffect(c: Codec, b: Bridge, tid: nat)
    requires Valid(c, b) && Owned(c, b)
    ensures var (b', h) := CreateTenant(c, b, tid);
            && (h.Some? <==> (exists i :: 0 <= i < |b.tenants| && !b.tenants[i].inUse) && (HasFree(b.hot) || CanGo(c, b, NO_TENANT_ID)))
            && (h.None? ==> b'.lastId == b.lastId && b'.clock == b.clock
                            && forall j :: 0 <= j < |b.tenants| && b.tenants[j].inUse ==> b'.tenants[j] == b.tenants[j])
            && (h.Some? ==>
                  && FreeRecord(b.tenants, 0).Some?
                  && var i := FreeRecord(b.tenants, 0).value;
                     var hotId := b'.tenants[i].hotId;
                     && b'.tenants[i] == Tenant(h.value, 0, InHot, b.clock, true, false, hotId, NULL_ID, FullSlot, 0)
                     && b.lastId < h.value == b'.lastId && b'.clock == b.clock + 1 && b'.shared == b.shared
                     && forall j :: 0 <= j < |b.tenants| && j != i ==>
                          if HasFree(b.hot) || !Goes(b.tenants, NO_TENANT_ID, j) then b'.tenants[j] == b.tenants[j]
                          else b'.tenants[j] == b.tenants[j].(hotId := NULL_ID, coldId := b'.tenants[j].coldId, state := InCold))
  {
    hide CreateTenant, AllocHot, A.Valid, CeilDiv, Owned, HasFree, CanGo, Goes, Victim;
    CreateByVictim(c, b, tid);
    CanGoExactly(c, b, NO_TENANT_ID);
    forall j: nat | j < |b.tenants|
      ensures Victim(b.tenants, NO_TENANT_ID, |b.tenants|) == Some(j) <==> Goes(b.tenants, NO_TENANT_ID, j)
    {
      VictimGoes(c, b, NO_TENANT_ID, j);
    }
  }

  lemma CreateByVictim(c: Codec, b: Bridge, tid: nat)
    requires Valid(c, b) && Owned(c, b)
    ensures var (b', h) := CreateTenant(c, b, tid);
            && (h.Some? <==> FreeRecord(b.tenants, 0).Some? && (HasFree(b.hot) || CanEvict(c, b, NO_TENANT_ID)))
            && (h.None? ==> b'.lastId == b.lastId && b'.clock == b.clock
                            && forall j :: 0 <= j < |b.tenants| && b.tenants[j].inUse ==> b'.tenants[j] == b.tenants[j])
            && (h.Some? ==>
                  && var i := FreeRecord(b.tenants, 0).value;
                     var hotId := b'.tenants[i].hotId;
                     && b'.tenants[i] == Tenant(h.value, 0, InHot, b.clock, true, false, hotId, NULL_ID, FullSlot, 0)
                     && b.lastId < h.value == b'.lastId && b'.clock == b.clock + 1 && b'.shared == b.shared
                     && forall j :: 0 <= j < |b.tenants| && j != i ==>
                          if HasFree(b.hot) || Victim(b.tenants, NO_TENANT_ID, |b.tenants|) != Some(j) then b'.tenants[j] == b.tenants[j]
                          else b'.tenants[j] == b.tenants[j].(hotId := NULL_ID, coldId := b'.tenants[j].coldId, state := InCold))
  {
    hide AllocHot, A.Valid, CeilDiv, Inv, HasFree, CanEvict, Victim;
    var l :| Inv(c, b, l) && AtRest(l);
    AllocHotEffect(c, b, l, NO_TENANT_ID, tid);
    AllocHotFrame(c, b, NO_TENANT_ID, tid, EVICT_RETRIES);
  }

  /** The id createTenant returned names its record over any run, exactly until it is destroyed. */
  lemma CreatedIsFound(c: Codec, b: Bridge, tid: nat, ops: seq<Op>)
    requires Valid(c, b) && Owned(c, b) && CreateTenant(c, b, tid).1.Some?
    ensures FreeRecord(b.tenants, 0).Some?
    ensures var (b', h) := CreateTenant(c, b, tid);
            Holds(Run(c, b', ops), FreeRecord(b.tenants, 0).value, h.value) <==> NeverDestroyed(ops, h.value)
  {
    var l :| Inv(c, b, l) && AtRest(l);
    CreateEffect(c, b, tid);
    var l' := CreateTenantKeeps(c, b, l, tid);
    var b' := CreateTenant(c, b, tid).0;
    hide Inv, CreateTenant, AtRest, CanGo, Goes;
    RunHolds(c, b', ops, FreeRecord(b.tenants, 0).value, CreateTenant(c, b, tid).1.value);
  }

  /* ---- createMicroTenant ---- */

  /** Sub-slot k of shared entry e is a hole: the entry owns a slot and bit k is clear. */
  predicate Hole(b: Bridge, e: nat, k: nat) {
    e < |b.shared| && k < SubSlots(b) && !b.shared[e].hotId.IsNull() && !Bit(b.shared[e].bitmap, k)
  }

  ghost predicate HoleIn(b: Bridge, e: nat) { exists k: nat :: Hole(b, e, k) }

  ghost predicate SomeHole(b: Bridge) { exists e: nat :: e < |b.shared| && HoleIn(b, e) }

  /** How far entry e is from the scan's start, going round. */
  function Ahead(b: Bridge, e: nat): int { if e >= b.scanStart then e - b.scanStart else e + |b.shared| - b.scanStart }

  /** The lowest hole of the first entry that has one, going round from the scan's start. */
  ghost predicate NextHole(b: Bridge, e: nat, k: nat) {
    && Hole(b, e, k) && (forall j: nat :: j < k ==> !Hole(b, e, j))
    && forall d: nat :: d < |b.shared| && Ahead(b, d) < Ahead(b, e) ==> !HoleIn(b, d)
  }

  lemma RoomIsHole(c: Codec, b: Bridge, e: nat)
    requires Valid(c, b) && e < |b.shared|
    ensures HasRoom(b.shared[e], SubSlots(b)) <==> HoleIn(b, e)
  {
    hide A.Valid, CeilDiv, Pow2, Bit;
    var w, n := b.shared[e].bitmap, SubSlots(b);
    FullWord(w, n);
    if HasRoom(b.shared[e], n) { assert Hole(b, e, LowestClear(w)); }
    if HoleIn(b, e) {
      var k: nat :| Hole(b, e, k);
      assert !Bit(w, k);
    }
  }

  /** The rotating scan stops at the first entry with room. */
  lemma {:induction false} ScanIsFirst(shared: seq<Shared>, n: nat, start: nat, k: nat)
    requires start < |shared| && k <= |shared|
    ensures var r := EntryWithRoom(shared, n, start, k);
            if r.None? then forall j :: k <= j < |shared| ==> !HasRoom(shared[Around(start, j, |shared|)], n)
            else exists j :: k <= j < |shared| && r.value == Around(start, j, |shared|)
                             && forall i :: k <= i < j ==> !HasRoom(shared[Around(start, i, |shared|)], n)
    decreases |shared| - k
  {
    if k < |shared| {
      if HasRoom(shared[Around(start, k, |shared|)], n) {
      } else {
        ScanIsFirst(shared, n, start, k + 1);
        var r := EntryWithRoom(shared, n, start, k + 1);
        if r.Some? {
          var j :| k + 1 <= j < |shared| && r.value == Around(start, j, |shared|)
                   && forall i :: k + 1 <= i < j ==> !HasRoom(shared[Around(start, i, |shared|)], n);
          assert forall i :: k <= i < j ==> !HasRoom(shared[Around(start, i, |shared|)], n);
        }
      }
    }
  }

  /** So it finds the entry of the next hole, and the lowest clear bit is that hole. */
  lemma ScanFindsHole(c: Codec, b: Bridge)
    requires Valid(c, b)
    ensures var r := EntryWithRoom(b.shared, SubSlots(b), b.scanStart, 0);
            && (r.Some? <==> SomeHole(b))
            && (r.Some? ==> NextHole(b, r.value, LowestClear(b.shared[r.value].bitmap)))
  {
    hide A.Valid, CeilDiv, Pow2, Bit, HasRoom, EntryWithRoom, HoleIn;
    var r := EntryWithRoom(b.shared, SubSlots(b), b.scanStart, 0);
    forall e: nat | e < |b.shared| ensures HasRoom(b.shared[e], SubSlots(b)) <==> HoleIn(b, e) { RoomIsHole(c, b, e); }
    if r.None? {
      forall e: nat | e < |b.shared| ensures !HoleIn(b, e) { NoRoomInEntry(b.shared, SubSlots(b), b.scanStart, e); }
    } else {
      FirstHole(c, b, r.value);
      ScannedBefore(c, b, r.value);
    }
  }

  lemma FirstHole(c: Codec, b: Bridge, e: nat)
    requires Valid(c, b) && e < |b.shared| && HasRoom(b.shared[e], SubSlots(b))
    ensures var k := LowestClear(b.shared[e].bitmap); Hole(b, e, k) && forall j: nat :: j < k ==> !Hole(b, e, j)
  {
    hide A.Valid, CeilDiv, Pow2, Bit;
    var w := b.shared[e].bitmap;
    FullWord(w, SubSlots(b));
    forall j: nat | j < LowestClear(w) ensures Bit(w, j) { if !Bit(w, j) { LowestClearIsLowest(w, j); } }
  }

  lemma ScannedBefore(c: Codec, b: Bridge, e: nat)
    requires Valid(c, b) && EntryWithRoom(b.shared, SubSlots(b), b.scanStart, 0) == Some(e)
    ensures forall d: nat :: d < |b.shared| && Ahead(b, d) < Ahead(b, e) ==> !HoleIn(b, d)
  {
    hide A.Valid, CeilDiv, HasRoom, EntryWithRoom, HoleIn;
    ScanIsFirst(b.shared, SubSlots(b), b.scanStart, 0);
    var n := |b.shared|;
    var j :| 0 <= j < n && e == Around(b.scanStart, j, n) && forall i :: 0 <= i < j ==> !HasRoom(b.shared[Around(b.scanStart, i, n)], SubSlots(b));
    forall d: nat | d < n && Ahead(b, d) < Ahead(b, e) ensures !HoleIn(b, d) {
      var i := Ahead(b, d);
      assert Around(b.scanStart, i, n) == d && i < j;
      RoomIsHole(c, b, d);
    }
  }

  /** The record and the entry of a micro-tenant put into a hole. */
  lemma JoinEffect(c: Codec, b: Bridge, tid: nat)
    requires Valid(c, b) && FreeRecord(b.tenants, 0).Some? && EntryWithRoom(b.shared, SubSlots(b), b.scanStart, 0).Some?
    ensures var (b', h) := CreateMicroTenant(c, b, tid);
            var i, e := FreeRecord(b.tenants, 0).value, EntryWithRoom(b.shared, SubSlots(b), b.scanStart, 0).value;
            var k := LowestClear(b.shared[e].bitmap);
            && h == Some(NextId(b.lastId)) && b'.lastId == NextId(b.lastId)
            && b'.tenants == b.tenants[i := Tenant(NextId(b.lastId), 0, InHot, b.clock, true, false,
                                                   b.shared[e].hotId.WithSubSlot(k), NULL_ID, Micro, e)]
            && b'.shared == b.shared[e := b.shared[e].(bitmap := SetBit(b.shared[e].bitmap, k))]
            && b'.hot.words == b.hot.words && b'.hot.versions == b.hot.versions && b'.cold == b.cold
  {
    hide BindMicro, Pow2, SetBit, Bit, A.Valid, CeilDiv, FreshMicro, EntryWithRoom;
    var i, e := FreeRecord(b.tenants, 0).value, EntryWithRoom(b.shared, SubSlots(b), b.scanStart, 0).value;
    var w := b.shared[e].bitmap;
    var k := LowestClear(w);
    FullWord(w, SubSlots(b));
    WidthAfter(w, SubSlots(b), k);
    var b1 := b.(scanStart := if b.scanStart + 1 == |b.shared| then 0 else b.scanStart + 1,
                 shared := b.shared[e := b.shared[e].(bitmap := SetBit(w, k))]);
    BindMicroEffect(c, b1, i, e, k);
    BindMicroId(c, b1, i, e, k);
  }

  /** The cursor moves; nobody's ownership depends on it. */
  function Turned(b: Bridge): Bridge { b.(scanStart := if b.scanStart + 1 == |b.shared| then 0 else b.scanStart + 1) }

  lemma TurnedKeeps(c: Codec, b: Bridge, l: Ledger)
    requires Valid(c, b) && Inv(c, b, l)
    ensures Valid(c, Turned(b)) && Inv(c, Turned(b), l)
    ensures forall skip: nat :: CanEvict(c, Turned(b), skip) == CanEvict(c, b, skip)
  {
    hide CeilDiv, A.Inv, A.Valid, Occupied, Victim, HasFree;
    var b' := Turned(b);
    forall s: nat | s < |l.hot| ensures HotSlotOk(b', l, s) { assert HotSlotOk(b, l, s); }
    forall s: nat | s < |l.cold| ensures ColdSlotOk(b', l, s) { assert ColdSlotOk(b, l, s); }
    forall i: nat | i < |b.tenants| ensures TenantOk(b', l, i) { assert TenantOk(b, l, i); }
    forall e: nat | e < |b.shared| ensures EntryOk(b', l, e) { assert EntryOk(b, l, e); }
  }

  lemma FreshUnfolds(c: Codec, b: Bridge, tid: nat)
    requires Valid(c, b) && FreeRecord(b.tenants, 0).Some? && EntryWithRoom(b.shared, SubSlots(b), b.scanStart, 0).None?
    ensures Valid(c, Turned(b)) && CreateMicroTenant(c, b, tid) == FreshMicro(c, Turned(b), FreeRecord(b.tenants, 0).value, tid)
  {
    hide FreshMicro, BindMicro, A.Valid, CeilDiv, EntryWithRoom, Pow2, SetBit, Bit;
  }

  /** The record and the entry of a micro-tenant that opens a slot. */
  lemma OpenEffect(c: Codec, b: Bridge, i: nat, tid: nat)
    requires Valid(c, b) && i < |b.tenants|
    requires EmptyEntry(AllocHot(c, b, NO_TENANT_ID, tid, EVICT_RETRIES).0.shared, 0).Some?
    ensures var (b1, hotId) := AllocHot(c, b, NO_TENANT_ID, tid, EVICT_RETRIES);
            var (b', h) := FreshMicro(c, b, i, tid);
            && (h.None? <==> hotId.IsNull())
            && (h.None? ==> b' == ReleaseRecord(b1, i))
            && (h.Some? ==>
                  && var e := EmptyEntry(b1.shared, 0).value;
                     && h == Some(NextId(b1.lastId)) && b'.lastId == NextId(b1.lastId)
                     && b'.tenants == b1.tenants[i := Tenant(NextId(b1.lastId), 0, InHot, b1.clock, true, false,
                                                             hotId.WithSubSlot(0), NULL_ID, Micro, e)]
                     && b'.shared == b1.shared[e := Shared(1, hotId)])
  {
    hide BindMicro, A.Valid, CeilDiv, AllocHot, A.Release, OpenEntry;
    var (b1, hotId) := AllocHot(c, b, NO_TENANT_ID, tid, EVICT_RETRIES);
    if !hotId.IsNull() {
      var e := EmptyEntry(b1.shared, 0).value;
      OpenEntryIs(c, b1, e, hotId);
      BindMicroEffect(c, OpenEntry(c, b1, e, hotId), i, e, 0);
      BindMicroId(c, OpenEntry(c, b1, e, hotId), i, e, 0);
    }
  }

  lemma CreateMicroByScan(c: Codec, b: Bridge, tid: nat)
    requires Valid(c, b) && Owned(c, b)
    ensures var (b', h) := CreateMicroTenant(c, b, tid);
            var f, r := FreeRecord(b.tenants, 0), EntryWithRoom(b.shared, SubSlots(b), b.scanStart, 0);
            && (h.Some? <==> f.Some? && (r.Some? || HasFree(b.hot) || CanEvict(c, b, NO_TENANT_ID)))
            && (h.None? ==> b'.lastId == b.lastId && b'.clock == b.clock
                            && forall j :: 0 <= j < |b.tenants| && b.tenants[j].inUse ==> b'.tenants[j] == b.tenants[j])
            && (h.Some? && r.None? ==>
                  && var t := b'.tenants[f.value];
                     && t == Tenant(h.value, 0, InHot, b.clock, true, false, t.hotId, NULL_ID, Micro, t.sharedIdx)
                     && t.hotId.sub == 0 && t.sharedIdx < |b.shared| && b.shared[t.sharedIdx] == Shared(0, NULL_ID)
                     && b'.shared == b.shared[t.sharedIdx := Shared(1, b'.shared[t.sharedIdx].hotId)]
                     && b.lastId < h.value == b'.lastId
                     && forall j :: 0 <= j < |b.tenants| && j != f.value ==>
                          if HasFree(b.hot) || Victim(b.tenants, NO_TENANT_ID, |b.tenants|) != Some(j) then b'.tenants[j] == b.tenants[j]
                          else b'.tenants[j] == b.tenants[j].(hotId := NULL_ID, coldId := b'.tenants[j].coldId, state := InCold))
  {
    hide AllocHot, A.Valid, CeilDiv, Inv, HasFree, CanEvict, Victim, CreateMicroTenant, FreshMicro, EntryWithRoom, EmptyEntry;
    var l :| Inv(c, b, l) && AtRest(l);
    var f, r := FreeRecord(b.tenants, 0), EntryWithRoom(b.shared, SubSlots(b), b.scanStart, 0);
    if f.None? {
      NoRecordNoMicro(c, b, tid);
    } else if r.Some? {
      JoinEffect(c, b, tid);
    } else {
      FreshUnfolds(c, b, tid);
      TurnedKeeps(c, b, l);
      EmptyEntryExists(c, b);
      AllocHotFrame(c, Turned(b), NO_TENANT_ID, tid, EVICT_RETRIES);
      AllocHotEffect(c, Turned(b), l, NO_TENANT_ID, tid);
      OpenEffect(c, Turned(b), f.value, tid);
    }
  }

  lemma NoRecordNoMicro(c: Codec, b: Bridge, tid: nat)
    requires Valid(c, b) && FreeRecord(b.tenants, 0).None?
    ensures CreateMicroTenant(c, b, tid) == (b, None)
  {
    hide FreshMicro, BindMicro, A.Valid, CeilDiv, EntryWithRoom, Pow2, SetBit, Bit;
  }

  /** createMicroTenant succeeds exactly when a record is free and there is a hole, a free hot slot, or a tenant that can
      go.  With a hole it takes the next one and allocates nothing; otherwise it opens an empty entry at sub-slot 0,
      and the only other tenant it touches is the one to go, if no slot was free.  Failing, it touches no tenant. */
  lemma CreateMicroEffect(c: Codec, b: Bridge, tid: nat)
    requires Valid(c, b) && Owned(c, b)
    ensures var (b', h) := CreateMicroTenant(c, b, tid);
            && (h.Some? <==> (exists i :: 0 <= i < |b.tenants| && !b.tenants[i].inUse)
                             && (SomeHole(b) || HasFree(b.hot) || CanGo(c, b, NO_TENANT_ID)))
            && (h.None? ==> b'.lastId == b.lastId && b'.clock == b.clock
                            && forall j :: 0 <= j < |b.tenants| && b.tenants[j].inUse ==> b'.tenants[j] == b.tenants[j])
            && (h.Some? ==>
                  && FreeRecord(b.tenants, 0).Some?
                  && var i := FreeRecord(b.tenants, 0).value;
                     var t := b'.tenants[i];
                     && t == Tenant(h.value, 0, InHot, b.clock, true, false, t.hotId, NULL_ID, Micro, t.sharedIdx)
                     && b.lastId < h.value == b'.lastId && t.sharedIdx < |b.shared|
                     && var s := b.shared[t.sharedIdx];
                        if SomeHole(b) then
                          && NextHole(b, t.sharedIdx, t.hotId.sub) && t.hotId == s.hotId.WithSubSlot(t.hotId.sub)
                          && b'.shared == b.shared[t.sharedIdx := s.(bitmap := SetBit(s.bitmap, t.hotId.sub))]
                          && b'.hot.words == b.hot.words && b'.hot.versions == b.hot.versions && b'.cold == b.cold
                          && b'.tenants == b.tenants[i := t]
                        else
                          && s == Shared(0, NULL_ID) && t.hotId.sub == 0
                          && b'.shared == b.shared[t.sharedIdx := Shared(1, b'.shared[t.sharedIdx].hotId)]
                          && forall j :: 0 <= j < |b.tenants| && j != i ==>
                               if HasFree(b.hot) || !Goes(b.tenants, NO_TENANT_ID, j) then b'.tenants[j] == b.tenants[j]
                               else b'.tenants[j] == b.tenants[j].(hotId := NULL_ID, coldId := b'.tenants[j].coldId, state := InCold))
  {
    hide CreateMicroTenant, A.Valid, CeilDiv, Owned, HasFree, CanGo, CanEvict, Goes, Victim, SomeHole, NextHole, EntryWithRoom, SetBit, LowestClear;
    CreateMicroByScan(c, b, tid);
    CanGoExactly(c, b, NO_TENANT_ID);
    ScanFindsHole(c, b);
    forall j: nat | j < |b.tenants|
      ensures Victim(b.tenants, NO_TENANT_ID, |b.tenants|) == Some(j) <==> Goes(b.tenants, NO_TENANT_ID, j)
    {
      VictimGoes(c, b, NO_TENANT_ID, j);
    }
    var r := EntryWithRoom(b.shared, SubSlots(b), b.scanStart, 0);
    if r.Some? && FreeRecord(b.tenants, 0).Some? {
      JoinEffect(c, b, tid);
      SubSlotFits(c, b, r.value);
    }
  }

  lemma SubSlotFits(c: Codec, b: Bridge, e: nat)
    requires Valid(c, b) && e < |b.shared| && NextHole(b, e, LowestClear(b.shared[e].bitmap))
    ensures var k := LowestClear(b.shared[e].bitmap); b.shared[e].hotId.WithSubSlot(k).sub == k
  {
    hide A.Valid, CeilDiv;
  }

  /** The same of the id createMicroTenant returned. */
  lemma MicroCreatedIsFound(c: Codec, b: Bridge, tid: nat, ops: seq<Op>)
    requires Valid(c, b) && Owned(c, b) && CreateMicroTenant(c, b, tid).1.Some?
    ensures FreeRecord(b.tenants, 0).Some?
    ensures var (b', h) := CreateMicroTenant(c, b, tid);
            Holds(Run(c, b', ops), FreeRecord(b.tenants, 0).value, h.value) <==> NeverDestroyed(ops, h.value)
  {
    var l :| Inv(c, b, l) && AtRest(l);
    CreateMicroEffect(c, b, tid);
    var l' := CreateMicroTenantKeeps(c, b, l, tid);
    var b' := CreateMicroTenant(c, b, tid).0;
    hide Inv, CreateMicroTenant, AtRest, CanGo, Goes, SomeHole, NextHole;
    RunHolds(c, b', ops, FreeRecord(b.tenants, 0).value, CreateMicroTenant(c, b, tid).1.value);
  }

  /* ---- acquire ---- */

  function Pinned(b: Bridge, i: nat): Bridge
    requires i < |b.tenants|
  {
    var t := b.tenants[i];
    b.(tenants := b.tenants[i := t.(pins := t.pins + 1, accessTime := b.clock)], clock := b.clock + 1)
  }

  /** acquireFP32 on a tenant in the hot tier, sealed or not: one pin more, the newest access time, the tenant's whole
      slot; refused only at the pin limit, and then nothing changes. */
  lemma AcquireHotEffect(c: Codec, b: Bridge, i: nat, id: nat, tid: nat)
    requires Valid(c, b) && Owned(c, b) && Holds(b, i, id) && b.tenants[i].state == InHot
    ensures AcquireFP32(c, b, id, tid) == if b.tenants[i].pins < 0x8000_0000
              then (Pinned(b, i), View(b.tenants[i].hotId.slot, 0, b.hot.slotSize)) else (b, NoView)
  {
    FoundExactly(c, b, i, id);
    var l :| Inv(c, b, l) && AtRest(l);
    hide A.Inv, A.Valid, CeilDiv, HotSlotOk, ColdSlotOk, EntryOk, A.Validate, Promote;
    assert TenantOk(b, l, i);
    HotHandleValid(c, b, l, i);
  }

  /** acquireMicroFP32 on a micro-tenant: the same, and its own sub-slot. */
  lemma AcquireMicroEffect(c: Codec, b: Bridge, i: nat, id: nat)
    requires Valid(c, b) && Owned(c, b) && Holds(b, i, id)
    ensures AcquireMicroFP32(c, b, id) == if b.tenants[i].kind == Micro && b.tenants[i].pins < 0x8000_0000
              then (Pinned(b, i), View(b.tenants[i].hotId.slot, b.tenants[i].hotId.sub * 128, 128)) else (b, NoView)
  {
    FoundExactly(c, b, i, id);
    AcquiredMicroViewIsExtent(c, b, i, id);
    var l :| Inv(c, b, l) && AtRest(l);
    hide A.Inv, A.Valid, CeilDiv, HotSlotOk, ColdSlotOk, EntryOk, A.SubSlotValid, A.SubSlotCount;
    assert TenantOk(b, l, i);
  }

  /** acquireFP32 on a tenant in the cold tier succeeds exactly when a hot slot is free or can be made free by evicting
      another tenant, and its bytes decompress to a whole slot; it is then hot with one pin, and the only other tenant
      touched is the one to go, if no slot was free.  Failing, it leaves the tenant as it was. */
  lemma AcquireColdEffect(c: Codec, b: Bridge, i: nat, id: nat, tid: nat)
    requires Valid(c, b) && Owned(c, b) && Holds(b, i, id) && b.tenants[i].state == InCold
    ensures var (b', v) := AcquireFP32(c, b, id, tid);
            var t, t' := b.tenants[i], b'.tenants[i];
            && (v.View? <==> (HasFree(b.hot) || CanGo(c, b, id)) && Restorable(c, b, i))
            && (!v.View? ==> t' == t)
            && (v.View? ==> t' == t.(pins := 1, state := InHot, hotId := t'.hotId, coldId := NULL_ID, accessTime := b.clock)
                            && v == View(t'.hotId.slot, 0, b.hot.slotSize) && b'.clock == b.clock + 1)
            && (forall j :: 0 <= j < |b.tenants| && j != i ==>
                  b'.tenants[j] == b.tenants[j]
                  || (!HasFree(b.hot) && Goes(b.tenants, id, j)
                      && b'.tenants[j] == b.tenants[j].(hotId := NULL_ID, coldId := b'.tenants[j].coldId, state := InCold)))
  {
    hide AcquireFP32, A.Valid, CeilDiv, Owned, Promote, HasFree, CanGo, CanEvict, Goes, Restorable;
    AcquireSucceedsExactly(c, b, i, id, tid);
    CanGoExactly(c, b, id);
    AcquirePromotes(c, b, i, id, tid);
  }

  lemma AcquirePromotes(c: Codec, b: Bridge, i: nat, id: nat, tid: nat)
    requires Valid(c, b) && Owned(c, b) && Holds(b, i, id) && b.tenants[i].state == InCold
    ensures var (b', v) := AcquireFP32(c, b, id, tid);
            var t, t' := b.tenants[i], b'.tenants[i];
            && (!v.View? ==> t' == t)
            && (v.View? ==> t' == t.(pins := 1, state := InHot, hotId := t'.hotId, coldId := NULL_ID, accessTime := b.clock)
                            && v == View(t'.hotId.slot, 0, b.hot.slotSize) && b'.clock == b.clock + 1)
            && (forall j :: 0 <= j < |b.tenants| && j != i ==>
                  b'.tenants[j] == b.tenants[j]
                  || (!HasFree(b.hot) && Goes(b.tenants, id, j)
                      && b'.tenants[j] == b.tenants[j].(hotId := NULL_ID, coldId := b'.tenants[j].coldId, state := InCold)))
  {
    hide AcquireFP32, A.Valid, CeilDiv, Inv, Promote, HasFree, Goes;
    var l :| Inv(c, b, l) && AtRest(l);
    ColdShape(c, b, l, i);
    PromoteTouches(c, b, l, i, tid);
    AcquireColdIs(c, b, i, id, tid);
  }

  /** Promotion, then the pin. */
  lemma AcquireColdIs(c: Codec, b: Bridge, i: nat, id: nat, tid: nat)
    requires Valid(c, b) && Owned(c, b) && Holds(b, i, id) && b.tenants[i].state == InCold
    ensures var (b1, ok) := Promote(c, b, i, tid);
            AcquireFP32(c, b, id, tid)
            == if ok then (PinTenant(b1, i), View(b1.tenants[i].hotId.slot, 0, b1.hot.slotSize)) else (b1, NoView)
  {
    FoundExactly(c, b, i, id);
    hide A.Valid, CeilDiv, Inv, Promote, A.Validate, PinTenant;
    var l :| Inv(c, b, l) && AtRest(l);
    ColdShape(c, b, l, i);
    PromotedHandleValid(c, b, l, i, tid);
  }

  lemma ColdShape(c: Codec, b: Bridge, l: Ledger, i: nat)
    requires Inv(c, b, l) && i < |b.tenants| && b.tenants[i].inUse && b.tenants[i].state == InCold
    ensures FullIn(b.tenants[i], InCold) && b.tenants[i].pins == 0 && b.tenants[i].accessTime < b.clock
  {
    assert TenantOk(b, l, i);
  }

  lemma PromoteTouches(c: Codec, b: Bridge, l: Ledger, i: nat, tid: nat)
    requires Valid(c, b) && Inv(c, b, l) && AtRest(l) && Owned(c, b) && i < |b.tenants| && b.tenants[i].inUse && b.tenants[i].state == InCold
    ensures var (b', ok) := Promote(c, b, i, tid);
            && SameShape(b, b') && b'.clock == b.clock
            && b'.tenants[i] == (if ok then b.tenants[i].(hotId := b'.tenants[i].hotId, coldId := NULL_ID, state := InHot) else b.tenants[i])
            && (forall j :: 0 <= j < |b.tenants| && j != i ==>
                  b'.tenants[j] == b.tenants[j]
                  || (!HasFree(b.hot) && Goes(b.tenants, b.tenants[i].id, j)
                      && b'.tenants[j] == b.tenants[j].(hotId := NULL_ID, coldId := b'.tenants[j].coldId, state := InCold)))
  {
    hide AllocHot, A.Valid, CeilDiv, Inv, HasFree, CanEvict, Goes, Victim, A.Release, A.Store, A.Validate;
    var skip := b.tenants[i].id;
    AllocHotEffect(c, b, l, skip, tid);
    AllocHotFrame(c, b, skip, tid, EVICT_RETRIES);
    forall j: nat | j < |b.tenants|
      ensures Victim(b.tenants, skip, |b.tenants|) == Some(j) <==> Goes(b.tenants, skip, j)
    {
      VictimGoes(c, b, skip, j);
    }
  }

  /* ---- destroyTenant ---- */

  /** destroyTenant takes exactly that record out of use.  A full tenant's one slot becomes free, wiped, in the tier it
      is in; a micro-tenant's bit is cleared and an emptied entry gives up its slot. */
  lemma DestroyEffect(c: Codec, b: Bridge, i: nat, id: nat)
    requires Valid(c, b) && Owned(c, b) && Holds(b, i, id)
    ensures var (b', ok) := DestroyTenant(c, b, id);
            var t := b.tenants[i];
            && ok && !b'.tenants[i].inUse && b'.tenants == b.tenants[i := b'.tenants[i]]
            && b'.clock == b.clock && b'.lastId == b.lastId && b'.scanStart == b.scanStart
            && (t.kind == FullSlot ==> b'.shared == b.shared)
            && (t.kind == FullSlot && t.state == InHot ==> b'.cold == b.cold && Emptied(b.hot, b'.hot, t.hotId.slot))
            && (t.kind == FullSlot && t.state == InCold ==> b'.hot == b.hot && Emptied(b.cold, b'.cold, t.coldId.slot))
            && (t.kind == Micro ==>
                  && b'.cold == b.cold && t.sharedIdx < |b.shared|
                  && var s := b.shared[t.sharedIdx];
                     var w := ClearBit(s.bitmap, t.hotId.sub);
                     b'.shared == b.shared[t.sharedIdx := Shared(w, if w == 0 then NULL_ID else s.hotId)])
  {
    FoundExactly(c, b, i, id);
    var l :| Inv(c, b, l) && AtRest(l);
    LiveShape(c, b, l, i);
    if b.tenants[i].kind == Micro { DestroyMicroEffect(c, b, l, i); } else { DestroyFullEffect(c, b, l, i); }
    hide Inv, A.Valid, CeilDiv, DestroyFull, DestroyMicro, ClearBit, Emptied;
  }

  /** Slot s was taken; now it is free and wiped, and every other slot is as it was. */
  ghost predicate Emptied(a: A.Arena, a': A.Arena, s: nat) {
    && s < |a.die| && Occupied(a.words, s) && a'.die == a.die[s := Zeros(a.slotSize)]
    && forall r: nat {:trigger Occupied(a'.words, r)} :: Occupied(a'.words, r) == (r != s && Occupied(a.words, r))
  }

  lemma DestroyFullEffect(c: Codec, b: Bridge, l: Ledger, i: nat)
    requires Valid(c, b) && Inv(c, b, l) && i < |b.tenants| && b.tenants[i].inUse && b.tenants[i].kind == FullSlot
    ensures var b' := DestroyFull(c, b, i);
            var t := b.tenants[i];
            && !b'.tenants[i].inUse && b'.tenants == b.tenants[i := b'.tenants[i]] && b'.shared == b.shared
            && b'.clock == b.clock && b'.lastId == b.lastId && b'.scanStart == b.scanStart
            && (t.state == InHot ==> b'.cold == b.cold && Emptied(b.hot, b'.hot, t.hotId.slot))
            && (t.state == InCold ==> b'.hot == b.hot && Emptied(b.cold, b'.cold, t.coldId.slot))
  {
    hide A.Inv, CeilDiv, HotSlotOk, ColdSlotOk, EntryOk, A.Release, Occupied;
    assert TenantOk(b, l, i);
    var t := b.tenants[i];
    if t.state == InHot { A.ReleaseEffect(b.hot, t.hotId); }
    if t.state == InCold { A.ReleaseEffect(b.cold, t.coldId); }
  }

  lemma DestroyMicroEffect(c: Codec, b: Bridge, l: Ledger, i: nat)
    requires Valid(c, b) && Inv(c, b, l) && i < |b.tenants| && b.tenants[i].inUse && b.tenants[i].kind == Micro
    ensures var (b', ok) := DestroyMicro(c, b, i);
            var t := b.tenants[i];
            && ok && !b'.tenants[i].inUse && b'.tenants == b.tenants[i := b'.tenants[i]] && b'.cold == b.cold
            && b'.clock == b.clock && b'.lastId == b.lastId && b'.scanStart == b.scanStart && t.sharedIdx < |b.shared|
            && var s := b.shared[t.sharedIdx];
               var w := ClearBit(s.bitmap, t.hotId.sub);
               b'.shared == b.shared[t.sharedIdx := Shared(w, if w == 0 then NULL_ID else s.hotId)]
  {
    hide A.Inv, A.Valid, CeilDiv, HotSlotOk, ColdSlotOk, EntryOk, A.Release, A.ZeroizeSub, ClearBit, Bit;
    assert TenantOk(b, l, i);
  }

  /* ---- pins ---- */

  function Releases(id: nat, n: nat): (r: seq<Op>)
    ensures |r| == n
  {
    seq(n, _ => DoRelease(id))
  }

  function Acquires(id: nat, tid: nat, n: nat): (r: seq<Op>)
    ensures |r| == n
  {
    seq(n, _ => DoAcquire(id, tid))
  }

  function WithPins(b: Bridge, i: nat, pins: nat): Bridge
    requires i < |b.tenants|
  {
    b.(tenants := b.tenants[i := b.tenants[i].(pins := pins)])
  }

  lemma ReleaseStep(c: Codec, b: Bridge, i: nat, id: nat)
    requires Valid(c, b) && Owned(c, b) && Holds(b, i, id) && b.tenants[i].pins > 0
    ensures var b1 := Step(c, b, DoRelease(id));
            b1 == WithPins(b, i, b.tenants[i].pins - 1) && Owned(c, b1) && Holds(b1, i, id)
  {
    ReleaseExactly(c, b, id);
    StepOwned(c, b, DoRelease(id));
    hide Owned, Valid, Release;
  }

  /** n releases take n pins, the last one included, and change nothing else. */
  lemma {:induction false} ReleasesTakePins(c: Codec, b: Bridge, i: nat, id: nat, n: nat)
    requires Valid(c, b) && Owned(c, b) && Holds(b, i, id) && n <= b.tenants[i].pins
    ensures Run(c, b, Releases(id, n)) == WithPins(b, i, b.tenants[i].pins - n)
    decreases n
  {
    hide Owned, Step, A.Valid, CeilDiv;
    if n == 0 {
      assert WithPins(b, i, b.tenants[i].pins).tenants == b.tenants;
    } else {
      ReleaseStep(c, b, i, id);
      var ops := Releases(id, n);
      assert ops[0] == DoRelease(id) && ops[1..] == Releases(id, n - 1);
      RunHead(c, b, ops);
      hide Run, Releases;
      ReleasesTakePins(c, Step(c, b, DoRelease(id)), i, id, n - 1);
    }
  }

  lemma StepOwned(c: Codec, b: Bridge, op: Op)
    requires Valid(c, b) && Owned(c, b)
    ensures Owned(c, Step(c, b, op))
  {
    hide Step, A.Valid, CeilDiv;
    var l :| Inv(c, b, l) && AtRest(l);
    var l' := StepKeeps(c, b, l, op);
  }

  lemma AcquireStep(c: Codec, b: Bridge, i: nat, id: nat, tid: nat)
    requires Valid(c, b) && Owned(c, b) && Holds(b, i, id) && b.tenants[i].state == InHot && b.tenants[i].pins < PIN_SOFT_MAX
    ensures var b1 := Step(c, b, DoAcquire(id, tid));
            b1 == Pinned(b, i) && Owned(c, b1) && Holds(b1, i, id)
  {
    AcquireHotEffect(c, b, i, id, tid);
    StepOwned(c, b, DoAcquire(id, tid));
    hide Owned, Valid, AcquireFP32;
  }

  /** n acquires of a hot tenant put n pins on it. */
  lemma {:induction false} AcquiresAddPins(c: Codec, b: Bridge, i: nat, id: nat, tid: nat, n: nat)
    requires Valid(c, b) && Owned(c, b) && Holds(b, i, id) && b.tenants[i].state == InHot && b.tenants[i].pins + n <= PIN_SOFT_MAX
    ensures var b' := Run(c, b, Acquires(id, tid, n));
            && Owned(c, b') && Holds(b', i, id) && b'.tenants[i].state == InHot
            && b'.tenants[i].pins == b.tenants[i].pins + n && b'.tenants[i].sealed == b.tenants[i].sealed
    decreases n
  {
    hide Owned, Step, A.Valid, CeilDiv;
    if n > 0 {
      AcquireStep(c, b, i, id, tid);
      var ops := Acquires(id, tid, n);
      assert ops[0] == DoAcquire(id, tid) && ops[1..] == Acquires(id, tid, n - 1);
      RunHead(c, b, ops);
      hide Run, Acquires;
      AcquiresAddPins(c, Step(c, b, DoAcquire(id, tid)), i, id, tid, n - 1);
    }
  }

  /** As many releases as acquires bring the pins back: to none, and so within reach of the sweep, if there were none. */
  lemma PinsComeBack(c: Codec, b: Bridge, i: nat, id: nat, tid: nat, n: nat)
    requires Valid(c, b) && Owned(c, b) && Holds(b, i, id) && b.tenants[i].state == InHot && b.tenants[i].pins + n <= PIN_SOFT_MAX
    ensures var b' := Run(c, Run(c, b, Acquires(id, tid, n)), Releases(id, n));
            && Holds(b', i, id) && b'.tenants[i].pins == b.tenants[i].pins
            && (b.tenants[i].pins == 0 && !b.tenants[i].sealed && b.tenants[i].kind == FullSlot ==> MayGo(b'.tenants[i], NO_TENANT_ID))
  {
    AcquiresAddPins(c, b, i, id, tid, n);
    var b1 := Run(c, b, Acquires(id, tid, n));
    ReleasesTakePins(c, b1, i, id, n);
    KindStays(c, b, Acquires(id, tid, n), i);
    FoundExactly(c, b1, i, id);
    hide Owned, Run, Valid;
  }

  lemma {:induction false} KindStays(c: Codec, b: Bridge, ops: seq<Op>, i: nat)
    requires Valid(c, b) && Owned(c, b) && i < |b.tenants| && b.tenants[i].inUse && NeverDestroyed(ops, b.tenants[i].id)
    ensures Run(c, b, ops).tenants[i].inUse && Run(c, b, ops).tenants[i].kind == b.tenants[i].kind
    decreases |ops|
  {
    if ops != [] {
      StepDrops(c, b, ops[0], i);
      StepRecords(c, b, ops[0], i);
      StepOwned(c, b, ops[0]);
      hide Owned, Step, Valid, Used;
      KindStays(c, Step(c, b, ops[0]), ops[1..], i);
    }
  }

  /* ---- seal ---- */

  /** Sealing a hot tenant, pinned or not, keeps it in its slot over any run that does not destroy it. */
  lemma SealKeepsHot(c: Codec, b: Bridge, i: nat, id: nat, ops: seq<Op>)
    requires Valid(c, b) && Owned(c, b) && Holds(b, i, id) && b.tenants[i].state == InHot && NeverDestroyed(ops, id)
    ensures SealTenant(b, id).1 && Valid(c, SealTenant(b, id).0) && |SealTenant(b, id).0.tenants| == |b.tenants|
    ensures var t' := Run(c, SealTenant(b, id).0, ops).tenants[i];
            t'.inUse && t'.id == id && t'.state == InHot && t'.hotId == b.tenants[i].hotId && t'.sealed
  {
    SealExactly(c, b, id);
    assert Known(b, id);
    StepOwned(c, b, DoSeal(id));
    assert Step(c, b, DoSeal(id)) == SealTenant(b, id).0;
    hide Owned, SealTenant, Valid, Known;
    SealedStays(c, SealTenant(b, id).0, ops, i);
  }
}
