/** The tiered bridge (include/qtx/tiered/tiered_bridge.hpp) as functions on a bridge value.

    Every function follows the program branch by branch, failure paths included, and is total:
    it assumes only the shape that the template parameters fix, not the invariant.  The class in
    TieredBridge.dfy is proved to compute these functions in place; the other Bridge*.dfy files
    prove what they guarantee. */
module BridgeSpec {
  import opened BitWords
  import opened Common
  import opened GenIds
  import opened SelectorSpec
  import A = ArenaSpec

  const MICRO_SLOT: nat := 128
  const SLOT_ALIGN: nat := 128
  const EVICT_RETRIES: nat := 2
  const NO_TENANT_ID: nat := 0xFFFF_FFFF_FFFF_FFFF
  const PIN_SOFT_MAX: nat := 0x8000_0000

  /** A cold codec: compressed size, and the bytes each direction writes.  A direction reports
      success by writing exactly the expected number of bytes. */
  datatype Codec = Codec(bound: nat, compress: Bytes -> Bytes, decompress: Bytes -> Bytes)

  datatype TenantState = InHot | InCold | Dead
  datatype Kind = FullSlot | Micro

  datatype Tenant = Tenant(id: nat, pins: nat, state: TenantState, accessTime: nat, inUse: bool, sealed: bool,
                           hotId: GenId, coldId: GenId, kind: Kind, sharedIdx: nat)

  datatype Shared = Shared(bitmap: nat, hotId: GenId)

  datatype Bridge = Bridge(hot: A.Arena, cold: A.Arena, tenants: seq<Tenant>, shared: seq<Shared>,
                           clock: nat, lastId: nat, scanStart: nat, evictions: nat, promotions: nat)

  /** What an acquire hands to the caller: a range of the hot arena's bytes, or nothing. */
  datatype View = NoView | View(slot: nat, offset: nat, length: nat)

  function CeilDiv(n: nat, d: nat): nat
    requires d > 0
  {
    (n + d - 1) / d
  }

  function SubSlots(b: Bridge): nat { b.hot.slotSize / MICRO_SLOT }

  /** The shape fixed at compile time. */
  predicate Valid(c: Codec, b: Bridge) {
    && A.Valid(b.hot) && A.Valid(b.cold)
    && c.bound <= b.cold.slotSize
    && 1 <= SubSlots(b) <= MAX_SUB_SLOT + 1
    && |b.tenants| > 0
    && |b.shared| == CeilDiv(|b.tenants|, SubSlots(b)) && b.scanStart < |b.shared|
    && forall e :: 0 <= e < |b.shared| ==> b.shared[e].bitmap < Pow2(SubSlots(b))
  }

  predicate SameShape(b: Bridge, b': Bridge) {
    A.SameShape(b.hot, b'.hot) && A.SameShape(b.cold, b'.cold)
    && |b.tenants| == |b'.tenants| && |b.shared| == |b'.shared|
  }

  /* ---- the record pool ---- */

  /** acquireRecord: the first record not in use, from index i on. */
  function FreeRecord(ts: seq<Tenant>, i: nat): (r: Option<nat>)
    requires i <= |ts|
    ensures r.Some? ==> i <= r.value < |ts| && !ts[r.value].inUse
    ensures forall j :: i <= j < (if r.Some? then r.value else |ts|) ==> ts[j].inUse
    decreases |ts| - i
  {
    if i == |ts| then None else if !ts[i].inUse then Some(i) else FreeRecord(ts, i + 1)
  }

  function Cleared(t: Tenant): Tenant { t.(state := Dead, inUse := false) }

  function ReleaseRecord(b: Bridge, i: nat): Bridge
    requires i < |b.tenants|
  {
    b.(tenants := b.tenants[i := Cleared(b.tenants[i])])
  }

  function NextId(lastId: nat): nat {
    if lastId + 1 == NO_TENANT_ID then lastId + 2 else lastId + 1
  }

  function FindFrom(ts: seq<Tenant>, id: nat, i: nat): (r: Option<nat>)
    requires i <= |ts|
    ensures r.Some? ==> i <= r.value < |ts| && ts[r.value].inUse && ts[r.value].id == id
    ensures r.None? ==> forall j :: i <= j < |ts| ==> !(ts[j].inUse && ts[j].id == id)
    decreases |ts| - i
  {
    if i == |ts| then None
    else if ts[i].inUse && ts[i].id == id then Some(i)
    else FindFrom(ts, id, i + 1)
  }

  /** findTenantLocked */
  function Find(ts: seq<Tenant>, id: nat): (r: Option<nat>)
    ensures r.Some? ==> r.value < |ts| && ts[r.value].inUse && ts[r.value].id == id
  {
    if id == NO_TENANT_ID || id == 0 then None else FindFrom(ts, id, 0)
  }

  function FindLiveFrom(ts: seq<Tenant>, id: nat, i: nat): (r: Option<nat>)
    requires i <= |ts|
    ensures r.Some? ==> i <= r.value < |ts| && ts[r.value].inUse && ts[r.value].id == id && ts[r.value].state != Dead
    ensures r.None? ==> forall j :: i <= j < |ts| ==> !(ts[j].inUse && ts[j].id == id && ts[j].state != Dead)
    decreases |ts| - i
  {
    if i == |ts| then None
    else if ts[i].inUse && ts[i].id == id && ts[i].state != Dead then Some(i)
    else FindLiveFrom(ts, id, i + 1)
  }

  /** findTenantLockfree */
  function FindLive(ts: seq<Tenant>, id: nat): (r: Option<nat>)
    ensures r.Some? ==> r.value < |ts| && ts[r.value].inUse && ts[r.value].id == id && ts[r.value].state != Dead
  {
    if id == NO_TENANT_ID || id == 0 then None else FindLiveFrom(ts, id, 0)
  }

  /* ---- eviction ---- */

  predicate Eligible(t: Tenant, skip: nat) {
    t.inUse && t.state == InHot && t.pins == 0 && t.id != skip && !t.sealed && t.kind != Micro
  }

  /** The sweep's victim after looking at the first n records. */
  function Victim(ts: seq<Tenant>, skip: nat, n: nat): (r: Option<nat>)
    requires n <= |ts|
    ensures r.Some? ==> r.value < n && Eligible(ts[r.value], skip)
  {
    if n == 0 then None
    else
      var best := Victim(ts, skip, n - 1);
      if Eligible(ts[n - 1], skip) && (best.None? || ts[n - 1].accessTime < ts[best.value].accessTime)
      then Some(n - 1) else best
  }

  /** evictOldestToColdLocked */
  function Evict(c: Codec, b: Bridge, skip: nat, tid: nat): (r: (Bridge, bool))
    requires Valid(c, b)
    ensures Valid(c, r.0) && SameShape(b, r.0)
  {
    var v := Victim(b.tenants, skip, |b.tenants|);
    if v.None? then (b, false) else EvictTenant(c, b, v.value, tid)
  }

  function EvictTenant(c: Codec, b: Bridge, i: nat, tid: nat): (r: (Bridge, bool))
    requires Valid(c, b) && i < |b.tenants|
    ensures Valid(c, r.0) && SameShape(b, r.0)
  {
    var (cold, coldId) := A.Allocate(b.cold, c.bound, SLOT_ALIGN, tid);
    if coldId.IsNull() then (b.(cold := cold), false) else EvictInto(c, b.(cold := cold), i, coldId)
  }

  function EvictInto(c: Codec, b: Bridge, i: nat, coldId: GenId): (r: (Bridge, bool))
    requires Valid(c, b) && i < |b.tenants|
    ensures Valid(c, r.0) && SameShape(b, r.0)
  {
    var t := b.tenants[i];
    if !A.Validate(b.hot, t.hotId) || !A.Validate(b.cold, coldId) then
      (b.(cold := A.Release(b.cold, coldId).0), false)
    else
      var bytes := c.compress(b.hot.die[t.hotId.slot]);
      var stored := A.Store(b.cold, coldId.slot, 0, bytes);
      if |bytes| != c.bound then (b.(cold := A.Release(stored, coldId).0), false)
      else
        (b.(hot := A.Release(b.hot, t.hotId).0, cold := stored,
            tenants := b.tenants[i := t.(hotId := NULL_ID, coldId := coldId, state := InCold)],
            evictions := b.evictions + 1), true)
  }

  /** allocate(hot), evicting between attempts; the null handle on failure. */
  function AllocHot(c: Codec, b: Bridge, skip: nat, tid: nat, retries: nat): (r: (Bridge, GenId))
    requires Valid(c, b)
    ensures Valid(c, r.0) && SameShape(b, r.0)
    decreases retries
  {
    var (hot, id) := A.Allocate(b.hot, b.hot.slotSize, SLOT_ALIGN, tid);
    var b1 := b.(hot := hot);
    if !id.IsNull() || retries == 0 then (b1, id)
    else
      var (b2, evicted) := Evict(c, b1, skip, tid);
      if !evicted then (b2, NULL_ID) else AllocHot(c, b2, skip, tid, retries - 1)
  }

  /* ---- full tenants ---- */

  function CreateTenant(c: Codec, b: Bridge, tid: nat): (r: (Bridge, Option<nat>))
    requires Valid(c, b)
    ensures Valid(c, r.0) && SameShape(b, r.0)
  {
    var i := FreeRecord(b.tenants, 0);
    if i.None? then (b, None)
    else
      var (b1, hotId) := AllocHot(c, b, NO_TENANT_ID, tid, EVICT_RETRIES);
      if hotId.IsNull() then (ReleaseRecord(b1, i.value), None)
      else
        var id := NextId(b1.lastId);
        (b1.(tenants := b1.tenants[i.value :=
               Tenant(id, 0, InHot, b1.clock, true, false, hotId, NULL_ID, FullSlot, 0)],
             lastId := id, clock := b1.clock + 1), Some(id))
  }

  function DestroyTenant(c: Codec, b: Bridge, id: nat): (r: (Bridge, bool))
    requires Valid(c, b)
    ensures Valid(c, r.0) && SameShape(b, r.0)
  {
    var f := Find(b.tenants, id);
    if f.None? || b.tenants[f.value].state == Dead then (b, false)
    else if b.tenants[f.value].kind == Micro then DestroyMicro(c, b, f.value)
    else (DestroyFull(c, b, f.value), true)
  }

  function Buried(t: Tenant): Tenant { Cleared(t).(hotId := NULL_ID, coldId := NULL_ID) }

  function DestroyFull(c: Codec, b: Bridge, i: nat): (r: Bridge)
    requires Valid(c, b) && i < |b.tenants|
    ensures Valid(c, r) && SameShape(b, r)
  {
    var t := b.tenants[i];
    b.(hot := if t.hotId.IsNull() then b.hot else A.Release(b.hot, t.hotId).0,
       cold := if t.coldId.IsNull() then b.cold else A.Release(b.cold, t.coldId).0,
       tenants := b.tenants[i := Buried(t)])
  }

  /** The two range checks are the program's guards against a corrupted record. */
  function DestroyMicro(c: Codec, b: Bridge, i: nat): (r: (Bridge, bool))
    requires Valid(c, b) && i < |b.tenants|
    ensures Valid(c, r.0) && SameShape(b, r.0)
  {
    var t := b.tenants[i];
    var hot := A.ZeroizeSub(b.hot, t.hotId, MICRO_SLOT).0;
    if t.sharedIdx >= |b.shared| || t.hotId.sub >= SubSlots(b) then
      (b.(hot := hot, tenants := b.tenants[i := Cleared(t)]), false)
    else
      var entry := b.shared[t.sharedIdx];
      var now := ClearBit(entry.bitmap, t.hotId.sub);
      WidthAfter(entry.bitmap, SubSlots(b), t.hotId.sub);
      (b.(hot := if now == 0 then A.Release(hot, entry.hotId.WithSubSlot(0)).0 else hot,
          shared := b.shared[t.sharedIdx := Shared(now, if now == 0 then NULL_ID else entry.hotId)],
          tenants := b.tenants[i := Buried(t)]), true)
  }

  /** The pin guard, the pin, the access-time bump and the view: the tail of both acquires. */
  function PinTenant(b: Bridge, i: nat): Bridge
    requires i < |b.tenants|
  {
    var t := b.tenants[i];
    b.(tenants := b.tenants[i := t.(pins := t.pins + 1,
                                    accessTime := if b.clock > t.accessTime then b.clock else t.accessTime)],
       clock := b.clock + 1)
  }

  function AcquireFP32(c: Codec, b: Bridge, id: nat, tid: nat): (r: (Bridge, View))
    requires Valid(c, b)
    ensures Valid(c, r.0) && SameShape(b, r.0)
  {
    var f := Find(b.tenants, id);
    if f.None? || b.tenants[f.value].state == Dead then (b, NoView)
    else
      var i := f.value;
      var (b1, ready) := if b.tenants[i].state == InCold then Promote(c, b, i, tid) else (b, true);
      if !ready || b1.tenants[i].pins >= PIN_SOFT_MAX then (b1, NoView)
      else
        (PinTenant(b1, i),
         if A.Validate(b1.hot, b1.tenants[i].hotId) then View(b1.tenants[i].hotId.slot, 0, b1.hot.slotSize) else NoView)
  }

  function Promote(c: Codec, b: Bridge, i: nat, tid: nat): (r: (Bridge, bool))
    requires Valid(c, b) && i < |b.tenants|
    ensures Valid(c, r.0) && SameShape(b, r.0)
  {
    var (b1, hotId) := AllocHot(c, b, b.tenants[i].id, tid, EVICT_RETRIES);
    if hotId.IsNull() then (b1, false) else PromoteInto(c, b1, i, hotId)
  }

  function PromoteInto(c: Codec, b: Bridge, i: nat, hotId: GenId): (r: (Bridge, bool))
    requires Valid(c, b) && i < |b.tenants|
    ensures Valid(c, r.0) && SameShape(b, r.0)
  {
    var t := b.tenants[i];
    if !A.Validate(b.cold, t.coldId) || !A.Validate(b.hot, hotId) then
      (b.(hot := A.Release(b.hot, hotId).0), false)
    else
      var bytes := c.decompress(b.cold.die[t.coldId.slot][..c.bound]);
      var stored := A.Store(b.hot, hotId.slot, 0, bytes);
      if |bytes| != b.hot.slotSize then (b.(hot := A.Release(stored, hotId).0), false)
      else
        (b.(hot := stored, cold := A.Release(b.cold, t.coldId).0,
            tenants := b.tenants[i := t.(hotId := hotId, coldId := NULL_ID, state := InHot)],
            promotions := b.promotions + 1), true)
  }

  function Release(b: Bridge, id: nat): (Bridge, bool) {
    var f := FindLive(b.tenants, id);
    if f.None? || b.tenants[f.value].pins == 0 then (b, false)
    else
      var t := b.tenants[f.value];
      (b.(tenants := b.tenants[f.value := t.(pins := t.pins - 1)]), true)
  }

  function SealTenant(b: Bridge, id: nat): (Bridge, bool) {
    var f := Find(b.tenants, id);
    if f.None? || b.tenants[f.value].state == Dead then (b, false)
    else (b.(tenants := b.tenants[f.value := b.tenants[f.value].(sealed := true)]), true)
  }

  /* ---- micro-tenants ---- */

  predicate HasRoom(s: Shared, subSlots: nat) {
    !s.hotId.IsNull() && s.bitmap != Pow2(subSlots) - 1
  }

  /** Step 2a: the first live entry with a free bit, circularly from `start`. */
  function EntryWithRoom(shared: seq<Shared>, subSlots: nat, start: nat, k: nat): (r: Option<nat>)
    requires start < |shared| && k <= |shared|
    ensures r.Some? ==> r.value < |shared| && HasRoom(shared[r.value], subSlots)
    decreases |shared| - k
  {
    if k == |shared| then None
    else if HasRoom(shared[Around(start, k, |shared|)], subSlots) then Some(Around(start, k, |shared|))
    else EntryWithRoom(shared, subSlots, start, k + 1)
  }

  /** Step 2b: the first entry that owns no slot and has no bit set. */
  function EmptyEntry(shared: seq<Shared>, i: nat): (r: Option<nat>)
    requires i <= |shared|
    ensures r.Some? ==> i <= r.value < |shared| && shared[r.value].hotId.IsNull() && shared[r.value].bitmap == 0
    ensures r.None? ==> forall e :: i <= e < |shared| ==> !(shared[e].hotId.IsNull() && shared[e].bitmap == 0)
    decreases |shared| - i
  {
    if i == |shared| then None
    else if shared[i].hotId.IsNull() && shared[i].bitmap == 0 then Some(i)
    else EmptyEntry(shared, i + 1)
  }

  function CreateMicroTenant(c: Codec, b: Bridge, tid: nat): (r: (Bridge, Option<nat>))
    requires Valid(c, b)
    ensures Valid(c, r.0) && SameShape(b, r.0)
  {
    var i := FreeRecord(b.tenants, 0);
    if i.None? then (b, None)
    else
      var b0 := b.(scanStart := if b.scanStart + 1 == |b.shared| then 0 else b.scanStart + 1);
      var e := EntryWithRoom(b.shared, SubSlots(b), b.scanStart, 0);
      if e.Some? then
        var bitmap := b.shared[e.value].bitmap;
        FullWord(bitmap, SubSlots(b));
        WidthAfter(bitmap, SubSlots(b), LowestClear(bitmap));
        var b1 := b0.(shared := b0.shared[e.value := b0.shared[e.value].(bitmap := SetBit(bitmap, LowestClear(bitmap)))]);
        BindMicro(c, b1, i.value, e.value, LowestClear(bitmap))
      else FreshMicro(c, b0, i.value, tid)
  }

  function FreshMicro(c: Codec, b: Bridge, i: nat, tid: nat): (r: (Bridge, Option<nat>))
    requires Valid(c, b) && i < |b.tenants|
    ensures Valid(c, r.0) && SameShape(b, r.0)
  {
    var (b1, freshId) := AllocHot(c, b, NO_TENANT_ID, tid, EVICT_RETRIES);
    if freshId.IsNull() then (ReleaseRecord(b1, i), None)
    else
      var e := EmptyEntry(b1.shared, 0);
      if e.None? then (ReleaseRecord(b1.(hot := A.Release(b1.hot, freshId).0), i), None)
      else
        BindMicro(c, OpenEntry(c, b1, e.value, freshId), i, e.value, 0)
  }

  function OpenEntry(c: Codec, b: Bridge, e: nat, hotId: GenId): (r: Bridge)
    requires Valid(c, b) && e < |b.shared|
    ensures Valid(c, r) && SameShape(b, r)
  {
    OneFits(SubSlots(b));
    b.(shared := b.shared[e := Shared(1, hotId)])
  }

  /** Steps 3 and 4: fill the record and zero the sub-slot. */
  function BindMicro(c: Codec, b: Bridge, i: nat, e: nat, k: nat): (r: (Bridge, Option<nat>))
    requires Valid(c, b) && i < |b.tenants| && e < |b.shared|
    ensures Valid(c, r.0) && SameShape(b, r.0) && r.1.Some?
  {
    var id := NextId(b.lastId);
    var hotId := b.shared[e].hotId.WithSubSlot(k);
    (b.(tenants := b.tenants[i := Tenant(id, 0, InHot, b.clock, true, false, hotId, NULL_ID, Micro, e)],
        hot := A.ZeroizeSub(b.hot, hotId, MICRO_SLOT).0,
        lastId := id, clock := b.clock + 1), Some(id))
  }

  function AcquireMicroFP32(c: Codec, b: Bridge, id: nat): (r: (Bridge, View))
    requires Valid(c, b)
    ensures Valid(c, r.0) && SameShape(b, r.0)
  {
    var f := Find(b.tenants, id);
    if f.None? || b.tenants[f.value].kind != Micro || b.tenants[f.value].state == Dead
       || b.tenants[f.value].pins >= PIN_SOFT_MAX then (b, NoView)
    else
      var hotId := b.tenants[f.value].hotId;
      (PinTenant(b, f.value),
       if A.SubSlotValid(b.hot, hotId, MICRO_SLOT) then View(hotId.slot, hotId.sub * MICRO_SLOT, MICRO_SLOT) else NoView)
  }

  /* ---- runs ---- */

  /** One mutex-held operation, one lock-free release, or one store by a client through its view.
      A client stores only while it holds a pin on a live tenant: all of a full tenant's slot, or
      its own sub-slot. */
  datatype Op =
    | DoCreate(tid: nat)
    | DoDestroy(id: nat)
    | DoAcquire(id: nat, tid: nat)
    | DoRelease(id: nat)
    | DoSeal(id: nat)
    | DoCreateMicro(tid: nat)
    | DoAcquireMicro(id: nat)
    | DoWrite(id: nat, bytes: Bytes)

  predicate MayWrite(b: Bridge, t: Tenant, bytes: Bytes) {
    t.inUse && t.state == InHot && t.pins > 0
    && |bytes| == (if t.kind == Micro then MICRO_SLOT else b.hot.slotSize)
  }

  function Write(c: Codec, b: Bridge, id: nat, bytes: Bytes): (r: Bridge)
    requires Valid(c, b)
    ensures Valid(c, r) && SameShape(b, r)
  {
    var f := Find(b.tenants, id);
    if f.None? || !MayWrite(b, b.tenants[f.value], bytes) || !A.Validate(b.hot, b.tenants[f.value].hotId) then b
    else
      var hotId := b.tenants[f.value].hotId;
      b.(hot := A.Store(b.hot, hotId.slot, if b.tenants[f.value].kind == Micro then hotId.sub * MICRO_SLOT else 0, bytes))
  }

  function Step(c: Codec, b: Bridge, op: Op): (r: Bridge)
    requires Valid(c, b)
    ensures Valid(c, r) && SameShape(b, r)
  {
    match op
    case DoCreate(tid) => CreateTenant(c, b, tid).0
    case DoDestroy(id) => DestroyTenant(c, b, id).0
    case DoAcquire(id, tid) => AcquireFP32(c, b, id, tid).0
    case DoRelease(id) => Release(b, id).0
    case DoSeal(id) => SealTenant(b, id).0
    case DoCreateMicro(tid) => CreateMicroTenant(c, b, tid).0
    case DoAcquireMicro(id) => AcquireMicroFP32(c, b, id).0
    case DoWrite(id, bytes) => Write(c, b, id, bytes)
  }

  function Run(c: Codec, b: Bridge, ops: seq<Op>): (r: Bridge)
    requires Valid(c, b)
    ensures Valid(c, r) && SameShape(b, r)
    decreases |ops|
  {
    if ops == [] then b else Run(c, Step(c, b, ops[0]), ops[1..])
  }
}
