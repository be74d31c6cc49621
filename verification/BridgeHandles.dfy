/** Handles and pins over whole runs: ids are never reused, a destroyed handle never finds a tenant again, and
    a tenant's pin count is the number of its successful acquires less its successful releases. */
module BridgeHandles {
  import opened BitWords
  import opened Common
  import opened GenIds
  import opened SelectorSpec
  import A = ArenaSpec
  import opened BridgeSpec
  import opened BridgeInvariant
  import opened BridgeOwnership
  import opened BridgeLookup
  import opened BridgeAllocation
  import opened BridgeMicro
  import opened BridgeRefinement
  import opened BridgeLru

  /** A release takes a pin off record j: it names a record in use that has one. */
  predicate Released(b: Bridge, op: Op, j: nat) { op.DoRelease? && Holds(b, j, op.id) && b.tenants[j].pins > 0 }

  /** A seal falls on record j: it names it. */
  predicate Sealing(b: Bridge, op: Op, j: nat) { op.DoSeal? && Holds(b, j, op.id) }

  function One(o: Option<nat>, j: nat): int { if o == Some(j) then 1 else 0 }

  /** What a step may do to the identity, the pins and the seal of record j. */
  ghost predicate RecordStep(b: Bridge, b': Bridge, used: Option<nat>, released: bool, sealing: bool, j: nat)
    requires j < |b.tenants| && j < |b'.tenants|
  {
    var t, t' := b.tenants[j], b'.tenants[j];
    && b.lastId <= b'.lastId
    && (t.inUse && t'.inUse ==>
          t'.id == t.id && t'.kind == t.kind && t'.pins == t.pins + One(used, j) - (if released then 1 else 0)
          && t'.sealed == (t.sealed || sealing))
    && (!t.inUse && t'.inUse ==>
          used == Some(j) && b.lastId < t'.id == b'.lastId && t'.pins == 0 && !t'.sealed)
  }

  lemma CreateRecords(c: Codec, b: Bridge, tid: nat, j: nat)
    requires Valid(c, b) && j < |b.tenants|
    ensures RecordStep(b, CreateTenant(c, b, tid).0, Used(c, b, DoCreate(tid)), false, false, j)
  {
    hide AllocHot, A.Valid, CeilDiv;
    AllocHotFrame(c, b, NO_TENANT_ID, tid, EVICT_RETRIES);
  }

  lemma CreateMicroRecords(c: Codec, b: Bridge, tid: nat, j: nat)
    requires Valid(c, b) && j < |b.tenants|
    ensures RecordStep(b, CreateMicroTenant(c, b, tid).0, Used(c, b, DoCreateMicro(tid)), false, false, j)
  {
    hide CreateMicroTenant, FreshMicro, BindMicro, A.Valid, CeilDiv;
    var f := FreeRecord(b.tenants, 0);
    if CreateMicroTenant(c, b, tid).1.Some? {
      var b1, e, k := CreateMicroBinds(c, b, tid);
      BindMicroEffect(c, b1, f.value, e, k);
      BindMicroId(c, b1, f.value, e, k);
    } else {
      CreateMicroFails(c, b, tid);
      if f.Some? {
        FreshMicroRecords(c, b.(scanStart := if b.scanStart + 1 == |b.shared| then 0 else b.scanStart + 1), f.value, tid, j);
      }
    }
  }

  lemma BindMicroId(c: Codec, b: Bridge, i: nat, e: nat, k: nat)
    requires Valid(c, b) && i < |b.tenants| && e < |b.shared|
    ensures BindMicro(c, b, i, e, k).0.lastId == NextId(b.lastId) > b.lastId
  {
    hide A.ZeroizeSub, CeilDiv;
  }

  lemma FreshMicroRecords(c: Codec, b: Bridge, f: nat, tid: nat, j: nat)
    requires Valid(c, b) && f < |b.tenants| && !b.tenants[f].inUse && j < |b.tenants| && FreshMicro(c, b, f, tid).1.None?
    ensures RecordStep(b, FreshMicro(c, b, f, tid).0, None, false, false, j)
  {
    hide AllocHot, A.Valid, CeilDiv, BindMicro, A.Release;
    AllocHotFrame(c, b, NO_TENANT_ID, tid, EVICT_RETRIES);
  }

  lemma AcquireRecords(c: Codec, b: Bridge, l: Ledger, id: nat, tid: nat, j: nat)
    requires Valid(c, b) && Inv(c, b, l) && AtRest(l) && j < |b.tenants|
    ensures RecordStep(b, AcquireFP32(c, b, id, tid).0, Used(c, b, DoAcquire(id, tid)), false, false, j)
  {
    hide A.Inv, A.Valid, CeilDiv, HotSlotOk, ColdSlotOk, EntryOk, Promote;
    var f := Find(b.tenants, id);
    if f.Some? {
      LiveShape(c, b, l, f.value);
      assert TenantOk(b, l, f.value);
      if b.tenants[f.value].state == InCold {
        PromoteFrame(c, b, f.value, tid);
        PromotedHandleValid(c, b, l, f.value, tid);
        var b1 := Promote(c, b, f.value, tid).0;
        assert b1.tenants[f.value := b.tenants[f.value]][j] == if j == f.value then b.tenants[j] else b1.tenants[j];
      } else {
        HotHandleValid(c, b, l, f.value);
      }
    }
  }

  lemma AcquireMicroRecords(c: Codec, b: Bridge, l: Ledger, id: nat, j: nat)
    requires Valid(c, b) && Inv(c, b, l) && j < |b.tenants|
    ensures RecordStep(b, AcquireMicroFP32(c, b, id).0, Used(c, b, DoAcquireMicro(id)), false, false, j)
  {
    hide A.Inv, A.Valid, CeilDiv, HotSlotOk, ColdSlotOk, EntryOk, A.SubSlotCount, A.SubSlotValid;
    var f := Find(b.tenants, id);
    if f.Some? {
      assert TenantOk(b, l, f.value);
      if b.tenants[f.value].kind == Micro { EntryHandleValid(c, b, l, f.value); }
    }
  }

  lemma DestroyRecords(c: Codec, b: Bridge, id: nat, j: nat)
    requires Valid(c, b) && j < |b.tenants|
    ensures RecordStep(b, DestroyTenant(c, b, id).0, None, false, false, j)
  {
    hide A.Valid, CeilDiv, A.Release, A.ZeroizeSub;
  }

  lemma OtherRecords(c: Codec, b: Bridge, op: Op, j: nat)
    requires Valid(c, b) && Owned(c, b) && j < |b.tenants|
    requires op.DoRelease? || op.DoSeal? || op.DoWrite?
    ensures RecordStep(b, Step(c, b, op), Used(c, b, op), Released(b, op, j), Sealing(b, op, j), j)
  {
    hide A.Valid, CeilDiv, A.Store, Owned;
    if op.DoRelease? || op.DoSeal? { FoundExactly(c, b, j, op.id); }
  }

  lemma StepRecords(c: Codec, b: Bridge, op: Op, j: nat)
    requires Valid(c, b) && Owned(c, b) && j < |b.tenants|
    ensures RecordStep(b, Step(c, b, op), Used(c, b, op), Released(b, op, j), Sealing(b, op, j), j)
  {
    var l :| Inv(c, b, l) && AtRest(l);
    hide CreateTenant, DestroyTenant, AcquireFP32, CreateMicroTenant, AcquireMicroFP32, Release, SealTenant, Write, Inv, A.Valid;
    match op
    case DoCreate(tid) => CreateRecords(c, b, tid, j);
    case DoAcquire(id, tid) => AcquireRecords(c, b, l, id, tid, j);
    case DoCreateMicro(tid) => CreateMicroRecords(c, b, tid, j);
    case DoAcquireMicro(id) => AcquireMicroRecords(c, b, l, id, j);
    case DoDestroy(id) => DestroyRecords(c, b, id, j);
    case _ => OtherRecords(c, b, op, j);
  }

  /* ---- handles ---- */

  /** The id has been given out and belongs to no live tenant. */
  ghost predicate Spent(b: Bridge, id: nat) {
    id <= b.lastId && forall j :: 0 <= j < |b.tenants| && b.tenants[j].inUse ==> b.tenants[j].id != id
  }

  /** The next id belongs to no live tenant and is not one that was spent. */
  lemma NextIdIsFresh(c: Codec, b: Bridge, spent: nat)
    requires Valid(c, b) && Owned(c, b) && Spent(b, spent)
    ensures var id := NextId(b.lastId);
            id != 0 && id != NO_TENANT_ID && id != spent && Find(b.tenants, id).None? && FindLive(b.tenants, id).None?
  {
    hide A.Inv, A.Valid, CeilDiv, HotSlotOk, ColdSlotOk, EntryOk;
    var l :| Inv(c, b, l) && AtRest(l);
    forall i | 0 <= i < |b.tenants| && b.tenants[i].inUse ensures b.tenants[i].id <= b.lastId { assert TenantOk(b, l, i); }
  }

  lemma StepKeepsSpent(c: Codec, b: Bridge, op: Op, id: nat)
    requires Valid(c, b) && Owned(c, b) && Spent(b, id)
    ensures Spent(Step(c, b, op), id)
  {
    hide Step, Owned, Used, Released, Sealing, A.Valid;
    var b' := Step(c, b, op);
    StepRecords(c, b, op, 0);
    forall j | 0 <= j < |b'.tenants| && b'.tenants[j].inUse ensures b'.tenants[j].id != id { StepRecords(c, b, op, j); }
  }

  lemma {:induction false} RunKeepsSpent(c: Codec, b: Bridge, ops: seq<Op>, id: nat)
    requires Valid(c, b) && Owned(c, b) && Spent(b, id)
    ensures Spent(Run(c, b, ops), id)
    decreases |ops|
  {
    if ops != [] {
      StepKeepsSpent(c, b, ops[0], id);
      var l :| Inv(c, b, l) && AtRest(l);
      var l' := StepKeeps(c, b, l, ops[0]);
      hide Inv, AtRest, Step, Spent;
      RunKeepsSpent(c, Step(c, b, ops[0]), ops[1..], id);
    }
  }

  /** Once destroyed, a handle finds no tenant after any further run: not by lookup, and so not by acquire,
      release, seal or another destroy. */
  lemma DestroyedNeverReturns(c: Codec, b: Bridge, id: nat, ops: seq<Op>)
    requires Valid(c, b) && Owned(c, b) && DestroyTenant(c, b, id).1
    ensures var b' := Run(c, DestroyTenant(c, b, id).0, ops);
            !Known(b', id) && Find(b'.tenants, id).None? && FindLive(b'.tenants, id).None?
  {
    var b1 := DestroyTenant(c, b, id).0;
    DestroySpends(c, b, id);
    var l :| Inv(c, b, l) && AtRest(l);
    var l' := DestroyTenantKeeps(c, b, l, id);
    hide Inv, DestroyTenant, A.Valid;
    RunKeepsSpent(c, b1, ops, id);
    var b' := Run(c, b1, ops);
  }

  lemma DestroySpends(c: Codec, b: Bridge, id: nat)
    requires Valid(c, b) && Owned(c, b) && DestroyTenant(c, b, id).1
    ensures Spent(DestroyTenant(c, b, id).0, id)
  {
    hide A.Inv, A.Valid, CeilDiv, HotSlotOk, ColdSlotOk, EntryOk, A.Release, A.ZeroizeSub;
    var l :| Inv(c, b, l) && AtRest(l);
    var f := Find(b.tenants, id).value;
    assert TenantOk(b, l, f);
  }

  /* ---- pins ---- */

  /** A client's own count for record j: zero at creation, up with every acquire that returned a view, down with
      every release that returned true. */
  function NextPins(c: Codec, b: Bridge, op: Op, pins: seq<int>): (r: seq<int>)
    requires Valid(c, b) && |pins| == |b.tenants|
    ensures |r| == |pins|
  {
    seq(|pins|, j requires 0 <= j < |pins| =>
      if b.tenants[j].inUse then pins[j] + One(Used(c, b, op), j) - (if Released(b, op, j) then 1 else 0) else 0)
  }

  function RunPins(c: Codec, b: Bridge, ops: seq<Op>, pins: seq<int>): (r: seq<int>)
    requires Valid(c, b) && |pins| == |b.tenants|
    ensures |r| == |pins|
    decreases |ops|
  {
    if ops == [] then pins else RunPins(c, Step(c, b, ops[0]), ops[1..], NextPins(c, b, ops[0], pins))
  }

  ghost predicate PinsAgree(b: Bridge, pins: seq<int>) {
    |pins| == |b.tenants| && forall j :: 0 <= j < |pins| && b.tenants[j].inUse ==> b.tenants[j].pins == pins[j]
  }

  lemma StepKeepsPins(c: Codec, b: Bridge, op: Op, pins: seq<int>)
    requires Valid(c, b) && Owned(c, b) && PinsAgree(b, pins)
    ensures PinsAgree(Step(c, b, op), NextPins(c, b, op, pins))
  {
    hide Step, Owned, Used, Released, Sealing, A.Valid;
    var b' := Step(c, b, op);
    forall j | 0 <= j < |pins| && b'.tenants[j].inUse ensures b'.tenants[j].pins == NextPins(c, b, op, pins)[j] {
      StepRecords(c, b, op, j);
    }
  }

  /** Over any run every live tenant's pin count is its acquires less its releases. */
  lemma {:induction false} RunKeepsPins(c: Codec, b: Bridge, ops: seq<Op>, pins: seq<int>)
    requires Valid(c, b) && Owned(c, b) && PinsAgree(b, pins)
    ensures PinsAgree(Run(c, b, ops), RunPins(c, b, ops, pins))
    decreases |ops|
  {
    if ops != [] {
      StepKeepsPins(c, b, ops[0], pins);
      var l :| Inv(c, b, l) && AtRest(l);
      var l' := StepKeeps(c, b, l, ops[0]);
      hide Inv, AtRest, Step, PinsAgree, NextPins;
      RunKeepsPins(c, Step(c, b, ops[0]), ops[1..], NextPins(c, b, ops[0], pins));
    }
  }

  /* ---- how long a view lasts ---- */

  /** The tenant is hot in the same slot, under the same id: its bytes are where they were. */
  predicate StillThere(t: Tenant, t': Tenant) {
    t'.inUse && t'.id == t.id && t'.kind == t.kind && t'.state == InHot && t'.hotId == t.hotId
  }

  ghost predicate NeverDestroyed(ops: seq<Op>, id: nat) {
    forall k :: 0 <= k < |ops| ==> !(ops[k].DoDestroy? && ops[k].id == id)
  }

  lemma PrefixRun(c: Codec, b: Bridge, ops: seq<Op>, k: nat)
    requires Valid(c, b) && k < |ops|
    ensures Run(c, b, ops[..k + 1]) == Run(c, Step(c, b, ops[0]), ops[1..][..k])
  {
    hide Step;
    assert ops[..k + 1][1..] == ops[1..][..k] && ops[..k + 1][0] == ops[0];
  }

  lemma PrefixPins(c: Codec, b: Bridge, ops: seq<Op>, pins: seq<int>, k: nat)
    requires Valid(c, b) && |pins| == |b.tenants| && k < |ops|
    ensures RunPins(c, b, ops[..k + 1], pins) == RunPins(c, Step(c, b, ops[0]), ops[1..][..k], NextPins(c, b, ops[0], pins))
  {
    hide Step, NextPins;
    assert ops[..k + 1][1..] == ops[1..][..k] && ops[..k + 1][0] == ops[0];
  }

  /** A hot tenant on which a client holds a pin before every operation of a run, by the client's own count, and
      which the run does not destroy, keeps its slot: the view the client holds is still that tenant's extent. */
  lemma {:induction false} PinnedStays(c: Codec, b: Bridge, ops: seq<Op>, pins: seq<int>, i: nat)
    requires Valid(c, b) && Owned(c, b) && PinsAgree(b, pins) && i < |b.tenants|
    requires b.tenants[i].inUse && b.tenants[i].state == InHot && NeverDestroyed(ops, b.tenants[i].id)
    requires forall k {:trigger ops[..k]} :: 0 <= k < |ops| ==> RunPins(c, b, ops[..k], pins)[i] > 0
    ensures var b' := Run(c, b, ops);
            StillThere(b.tenants[i], b'.tenants[i]) && Extent(b', b'.tenants[i]) == Extent(b, b.tenants[i])
    decreases |ops|
  {
    if ops != [] {
      var b1 := Step(c, b, ops[0]);
      assert ops[..0] == [];
      ProtectedKeepsSlot(c, b, ops[0], i);
      StepKeepsPins(c, b, ops[0], pins);
      var l :| Inv(c, b, l) && AtRest(l);
      var l' := StepKeeps(c, b, l, ops[0]);
      hide Inv, AtRest, Step, PinsAgree, NextPins, Extent;
      forall k | 0 <= k < |ops| - 1 ensures RunPins(c, b1, ops[1..][..k], NextPins(c, b, ops[0], pins))[i] > 0 {
        PrefixPins(c, b, ops, pins, k);
      }
      PinnedStays(c, b1, ops[1..], NextPins(c, b, ops[0], pins), i);
    }
  }

  /** The same for any mix of protections: pinned, sealed or micro before every operation. */
  lemma {:induction false} ProtectedStays(c: Codec, b: Bridge, ops: seq<Op>, i: nat)
    requires Valid(c, b) && Owned(c, b) && i < |b.tenants|
    requires b.tenants[i].inUse && b.tenants[i].state == InHot && NeverDestroyed(ops, b.tenants[i].id)
    requires forall k {:trigger ops[..k]} :: 0 <= k < |ops| ==> Protected(Run(c, b, ops[..k]).tenants[i])
    ensures var b' := Run(c, b, ops);
            StillThere(b.tenants[i], b'.tenants[i]) && Extent(b', b'.tenants[i]) == Extent(b, b.tenants[i])
    decreases |ops|
  {
    if ops != [] {
      var b1 := Step(c, b, ops[0]);
      assert ops[..0] == [];
      ProtectedKeepsSlot(c, b, ops[0], i);
      var l :| Inv(c, b, l) && AtRest(l);
      var l' := StepKeeps(c, b, l, ops[0]);
      hide Inv, AtRest, Step, Protected, Extent;
      forall k | 0 <= k < |ops| - 1 ensures Protected(Run(c, b1, ops[1..][..k]).tenants[i]) {
        PrefixRun(c, b, ops, k);
      }
      ProtectedStays(c, b1, ops[1..], i);
    }
  }

  /** destroyTenant succeeds exactly on the ids of live tenants, however many pins are on them. */
  lemma DestroySucceedsExactly(c: Codec, b: Bridge, id: nat)
    requires Valid(c, b) && Owned(c, b)
    ensures DestroyTenant(c, b, id).1 <==> Known(b, id)
  {
    KnownIsFound(c, b, id);
    hide Known;
    var f := Find(b.tenants, id);
    var l :| Inv(c, b, l) && AtRest(l);
    if f.Some? {
      LiveShape(c, b, l, f.value);
      if b.tenants[f.value].kind == Micro { GuardsNeverFire(c, b, f.value); }
    }
  }

  /** So a pin does not keep a view alive: a hot full tenant that is destroyed gives its slot back wiped, free for
      the next allocation, whatever views of it are still held. */
  lemma DestroyEndsViews(c: Codec, b: Bridge, i: nat, id: nat)
    requires Valid(c, b) && Owned(c, b) && Holds(b, i, id) && FullIn(b.tenants[i], InHot)
    ensures var (b', ok) := DestroyTenant(c, b, id);
            var hotId := b.tenants[i].hotId;
            && ok && hotId.slot < |b.hot.die|
            && Free(b'.hot.words, hotId.slot) && b'.hot.die[hotId.slot] == Zeros(b.hot.slotSize)
            && !A.Validate(b'.hot, hotId) && !Known(b', id)
  {
    FoundExactly(c, b, i, id);
    var l :| Inv(c, b, l) && AtRest(l);
    assert TenantOk(b, l, i);
    A.ReleaseEffect(b.hot, b.tenants[i].hotId);
    DestroySpends(c, b, id);
    SpentUnknown(DestroyTenant(c, b, id).0, id);
  }

  lemma SpentUnknown(b: Bridge, id: nat)
    requires Spent(b, id)
    ensures !Known(b, id)
  {
  }

  /** An input at which that happens: the first tenant of an empty bridge, acquired and then destroyed. */
  lemma DestroyWhilePinned(c: Codec, b: Bridge, tid: nat) returns (id: nat)
    requires Pristine(c, b) && HasFree(b.hot)
    ensures CreateTenant(c, b, tid).1 == Some(id)
    ensures var (b1, v) := AcquireFP32(c, CreateTenant(c, b, tid).0, id, tid);
            var (b2, ok) := DestroyTenant(c, b1, id);
            v.View? && b1.tenants[0].id == id && b1.tenants[0].pins == 1 && ok && Free(b2.hot.words, v.slot)
  {
    hide CreateTenant, DestroyTenant, AcquireFP32, A.Valid, CeilDiv, HasFree;
    var b0, l0 := FirstIsOwned(c, b, tid);
    id := CreateTenant(c, b, tid).1.value;
    FirstAcquired(c, b0, l0, id, tid);
    DestroyEndsViews(c, AcquireFP32(c, b0, id, tid).0, 0, id);
  }

  lemma FirstIsOwned(c: Codec, b: Bridge, tid: nat) returns (b0: Bridge, l0: Ledger)
    requires Pristine(c, b) && HasFree(b.hot)
    ensures b0 == CreateTenant(c, b, tid).0 && CreateTenant(c, b, tid).1.Some? && Valid(c, b0) && Inv(c, b0, l0) && AtRest(l0)
    ensures Find(b0.tenants, CreateTenant(c, b, tid).1.value) == Some(0) && FullIn(b0.tenants[0], InHot) && b0.tenants[0].pins == 0
  {
    hide CreateTenant, CeilDiv, Inv;
    PristineOwned(c, b);
    assert FreeRecord(b.tenants, 0).Some?;
    CreateSucceedsExactly(c, b, tid);
    b0 := CreateTenant(c, b, tid).0;
    var l :| Inv(c, b, l) && AtRest(l);
    l0 := CreateTenantKeeps(c, b, l, tid);
    FirstCreated(c, b, tid);
  }

  lemma FirstAcquired(c: Codec, b: Bridge, l: Ledger, id: nat, tid: nat)
    requires Valid(c, b) && Inv(c, b, l) && AtRest(l) && Find(b.tenants, id) == Some(0) && FullIn(b.tenants[0], InHot) && b.tenants[0].pins == 0
    ensures var (b1, v) := AcquireFP32(c, b, id, tid);
            && v.View? && Owned(c, b1) && Find(b1.tenants, id) == Some(0) && FullIn(b1.tenants[0], InHot)
            && b1.tenants[0].pins == 1 && b1.tenants[0].id == id && b1.tenants[0].hotId.slot == v.slot
  {
    HotHandleValid(c, b, l, 0);
    var l1 := AcquireFP32Keeps(c, b, l, id, tid);
    hide Inv, A.Valid, CeilDiv, A.Validate;
  }

  lemma FirstCreated(c: Codec, b: Bridge, tid: nat)
    requires Pristine(c, b) && CreateTenant(c, b, tid).1.Some?
    ensures var (b', id) := CreateTenant(c, b, tid);
            Find(b'.tenants, id.value) == Some(0) && FullIn(b'.tenants[0], InHot) && b'.tenants[0].pins == 0
            && 0 < id.value != NO_TENANT_ID
  {
    hide AllocHot, A.Valid, CeilDiv;
    AllocHotFrame(c, b, NO_TENANT_ID, tid, EVICT_RETRIES);
  }

  /** The same of a micro-tenant: its bytes are wiped and its bit is cleared, whatever views of it are held. */
  lemma DestroyEndsMicroViews(c: Codec, b: Bridge, i: nat, id: nat)
    requires Valid(c, b) && Owned(c, b) && Holds(b, i, id) && b.tenants[i].kind == Micro
    ensures var (b', ok) := DestroyTenant(c, b, id);
            var t := b.tenants[i];
            var v := Extent(b, t);
            && ok && !Known(b', id)
            && v.slot < |b'.hot.die| && v.offset + v.length <= b'.hot.slotSize && Read(b'.hot, v) == Zeros(MICRO_SLOT)
            && t.sharedIdx < |b.shared|
            && b'.shared[t.sharedIdx].bitmap == ClearBit(b.shared[t.sharedIdx].bitmap, t.hotId.sub)
            && !Bit(b'.shared[t.sharedIdx].bitmap, t.hotId.sub)
  {
    FoundExactly(c, b, i, id);
    var l :| Inv(c, b, l) && AtRest(l);
    DestroySpends(c, b, id);
    SpentUnknown(DestroyTenant(c, b, id).0, id);
    LiveShape(c, b, l, i);
    EntryHandleValid(c, b, l, i);
    GuardsNeverFire(c, b, i);
    DestroyedSubIsZero(c, b, l, i);
    BitAfter(b.shared[b.tenants[i].sharedIdx].bitmap, b.tenants[i].hotId.sub, b.tenants[i].hotId.sub);
    hide Inv, A.Valid, CeilDiv, ClearBit, Bit, A.Release, A.ZeroizeSub, Known;
  }

  lemma DestroyedSubIsZero(c: Codec, b: Bridge, l: Ledger, i: nat)
    requires Inv(c, b, l) && i < |b.tenants| && b.tenants[i].inUse && b.tenants[i].kind == Micro
    ensures var v := Extent(b, b.tenants[i]);
            var hot := DestroyMicro(c, b, i).0.hot;
            v.slot < |hot.die| && v.offset + v.length <= hot.slotSize && Read(hot, v) == Zeros(MICRO_SLOT)
  {
    hide CeilDiv, A.Inv, Pow2, Bit, ClearBit, HotSlotOk, ColdSlotOk;
    EntryHandleValid(c, b, l, i);
    var t := b.tenants[i];
    var hot := A.ZeroizeSub(b.hot, t.hotId, MICRO_SLOT).0;
    ZeroizedRead(b.hot, t.hotId);
    var entry := b.shared[t.sharedIdx];
    assert EntryOk(b, l, t.sharedIdx);
    assert entry.bitmap != 0 by { ZeroWord(t.hotId.sub); }
    assert entry.hotId.WithSubSlot(0) == entry.hotId;
    assert A.Validate(hot, entry.hotId);
    A.ReleaseEffect(hot, entry.hotId);
    hide A.ZeroizeSub, A.Release;
    assert Zeros(hot.slotSize)[t.hotId.sub * MICRO_SLOT..t.hotId.sub * MICRO_SLOT + MICRO_SLOT] == Zeros(MICRO_SLOT);
  }

  /** And those bytes may go straight to somebody else: if siblings remain, the freed sub-slot is the lowest hole of its
      entry and no other entry has one, the next micro-tenant gets exactly the range the old views still name. */
  lemma SubSlotHandedOn(c: Codec, b: Bridge, i: nat, id: nat, tid: nat)
    requires Valid(c, b) && Owned(c, b) && Holds(b, i, id) && b.tenants[i].kind == Micro
    requires b.tenants[i].sharedIdx < |b.shared|
    requires var t := b.tenants[i];
             var w := b.shared[t.sharedIdx].bitmap;
             && ClearBit(w, t.hotId.sub) != 0 && (forall k: nat :: k < t.hotId.sub ==> Bit(w, k))
             && (forall e :: 0 <= e < |b.shared| && e != t.sharedIdx ==> !HasRoom(b.shared[e], SubSlots(b)))
    ensures var b1 := DestroyTenant(c, b, id).0;
            var (b2, h) := CreateMicroTenant(c, b1, tid);
            && FreeRecord(b1.tenants, 0).Some?
            && var t2 := b2.tenants[FreeRecord(b1.tenants, 0).value];
               h == Some(t2.id) && t2.id != id && t2.inUse && Extent(b2, t2) == Extent(b, b.tenants[i])
  {
    hide DestroyTenant, CreateMicroTenant, A.Valid, CeilDiv, ClearBit, Bit, HasRoom;
    DestroyLeavesHole(c, b, i, id);
    var t := b.tenants[i];
    FillsHole(c, DestroyTenant(c, b, id).0, t.sharedIdx, t.hotId.sub, tid);
  }

  lemma DestroyLeavesHole(c: Codec, b: Bridge, i: nat, id: nat)
    requires Valid(c, b) && Owned(c, b) && Holds(b, i, id) && b.tenants[i].kind == Micro
    requires b.tenants[i].sharedIdx < |b.shared|
    requires var t := b.tenants[i]; ClearBit(b.shared[t.sharedIdx].bitmap, t.hotId.sub) != 0
    ensures var b1 := DestroyTenant(c, b, id).0;
            var t := b.tenants[i];
            var e := t.sharedIdx;
            && FreeRecord(b1.tenants, 0).Some? && id <= b1.lastId && |b1.shared| == |b.shared|
            && HasRoom(b1.shared[e], SubSlots(b1)) && b1.shared[e].hotId.slot == t.hotId.slot
            && (forall k: nat :: Bit(b1.shared[e].bitmap, k) == (k != t.hotId.sub && Bit(b.shared[e].bitmap, k)))
            && (forall d :: 0 <= d < |b.shared| && d != e ==> b1.shared[d] == b.shared[d])
  {
    hide A.Valid, CeilDiv, ClearBit, Bit, A.Release, A.ZeroizeSub, HotSlotOk, ColdSlotOk, EntryOk;
    FoundExactly(c, b, i, id);
    var l :| Inv(c, b, l) && AtRest(l);
    LiveShape(c, b, l, i);
    EntryHandleValid(c, b, l, i);
    HoleLeft(c, b, l, i);
    assert TenantOk(b, l, i);
  }

  /** With one hole in one entry, the next micro-tenant is put there. */
  lemma FillsHole(c: Codec, b: Bridge, e: nat, sub: nat, tid: nat)
    requires Valid(c, b) && FreeRecord(b.tenants, 0).Some? && e < |b.shared| && HasRoom(b.shared[e], SubSlots(b))
    requires forall d :: 0 <= d < |b.shared| && d != e ==> !HasRoom(b.shared[d], SubSlots(b))
    requires !Bit(b.shared[e].bitmap, sub) && forall k: nat :: k < sub ==> Bit(b.shared[e].bitmap, k)
    ensures var (b2, h) := CreateMicroTenant(c, b, tid);
            var t2 := b2.tenants[FreeRecord(b.tenants, 0).value];
            h == Some(t2.id) && t2.id > b.lastId && t2.inUse && Extent(b2, t2) == View(b.shared[e].hotId.slot, sub * MICRO_SLOT, MICRO_SLOT)
  {
    hide A.Valid, CeilDiv, Bit, CreateMicroTenant;
    NextIsLarger(c, b, tid);
    HoleBeforeFreshSlot(c, b, tid);
    var t2 := CreateMicroTenant(c, b, tid).0.tenants[FreeRecord(b.tenants, 0).value];
    RoomWhereFilled(c, b, tid);
    assert t2.sharedIdx == e;
  }

  lemma RoomWhereFilled(c: Codec, b: Bridge, tid: nat)
    requires Valid(c, b) && FreeRecord(b.tenants, 0).Some? && SomeRoom(b)
    ensures var t := CreateMicroTenant(c, b, tid).0.tenants[FreeRecord(b.tenants, 0).value];
            t.sharedIdx < |b.shared| && HasRoom(b.shared[t.sharedIdx], SubSlots(b))
  {
    hide BindMicro, Pow2, SetBit, Bit, A.Valid, CeilDiv, FreshMicro;
    var e :| 0 <= e < |b.shared| && HasRoom(b.shared[e], SubSlots(b));
    RoomIsFound(b.shared, SubSlots(b), b.scanStart, e);
    var found := EntryWithRoom(b.shared, SubSlots(b), b.scanStart, 0).value;
    var bitmap := b.shared[found].bitmap;
    FullWord(bitmap, SubSlots(b));
    WidthAfter(bitmap, SubSlots(b), LowestClear(bitmap));
    var b1 := b.(scanStart := if b.scanStart + 1 == |b.shared| then 0 else b.scanStart + 1,
                 shared := b.shared[found := b.shared[found].(bitmap := SetBit(bitmap, LowestClear(bitmap)))]);
    BindMicroEffect(c, b1, FreeRecord(b.tenants, 0).value, found, LowestClear(bitmap));
  }

  lemma HoleLeft(c: Codec, b: Bridge, l: Ledger, i: nat)
    requires Inv(c, b, l) && i < |b.tenants| && b.tenants[i].inUse && b.tenants[i].kind == Micro && b.tenants[i].sharedIdx < |b.shared|
    requires ClearBit(b.shared[b.tenants[i].sharedIdx].bitmap, b.tenants[i].hotId.sub) != 0
    ensures var t := b.tenants[i];
            var b1 := DestroyMicro(c, b, i).0;
            && HasRoom(b1.shared[t.sharedIdx], SubSlots(b)) && !b1.tenants[i].inUse
            && b1.shared == b.shared[t.sharedIdx := Shared(ClearBit(b.shared[t.sharedIdx].bitmap, t.hotId.sub), b.shared[t.sharedIdx].hotId)]
            && (forall k: nat :: Bit(b1.shared[t.sharedIdx].bitmap, k) == (k != t.hotId.sub && Bit(b.shared[t.sharedIdx].bitmap, k)))
  {
    hide CeilDiv, A.Inv, A.ZeroizeSub, A.Release, HotSlotOk, ColdSlotOk;
    EntryHandleValid(c, b, l, i);
    var t := b.tenants[i];
    var w := b.shared[t.sharedIdx].bitmap;
    assert EntryOk(b, l, t.sharedIdx);
    forall k: nat ensures Bit(ClearBit(w, t.hotId.sub), k) == (k != t.hotId.sub && Bit(w, k)) { BitAfter(w, t.hotId.sub, k); }
    WidthAfter(w, SubSlots(b), t.hotId.sub);
    FullWord(ClearBit(w, t.hotId.sub), SubSlots(b));
  }

  lemma NextIsLarger(c: Codec, b: Bridge, tid: nat)
    requires Valid(c, b)
    ensures CreateMicroTenant(c, b, tid).1.Some? ==> CreateMicroTenant(c, b, tid).1.value > b.lastId
  {
    hide CreateMicroTenant, BindMicro, A.Valid, CeilDiv;
    if CreateMicroTenant(c, b, tid).1.Some? {
      var b1, e, k := CreateMicroBinds(c, b, tid);
      BindMicroEffect(c, b1, FreeRecord(b.tenants, 0).value, e, k);
    }
  }

  /** The first micro-tenant of an empty bridge opens entry 0 at sub-slot 0. */
  lemma FirstMicro(c: Codec, b: Bridge, tid: nat)
    requires Pristine(c, b) && HasFree(b.hot)
    ensures var (b1, h) := CreateMicroTenant(c, b, tid);
            && h.Some? && b1.tenants[0] == Tenant(h.value, 0, InHot, b.clock, true, false, b1.tenants[0].hotId, NULL_ID, Micro, 0)
            && b1.tenants[0].hotId.sub == 0 && b1.lastId == h.value && h.value == NextId(b.lastId)
            && |b1.shared| == |b.shared| > 0 && b1.shared[0].bitmap == 1 && !b1.shared[0].hotId.IsNull()
            && (forall e :: 1 <= e < |b1.shared| ==> b1.shared[e] == Shared(0, NULL_ID))
            && (forall j :: 1 <= j < |b1.tenants| ==> !b1.tenants[j].inUse)
  {
    hide FreshMicro, BindMicro, OpenEntry, A.Valid, CeilDiv;
    var b1, freshId := FirstIsBound(c, b, tid);
    OpenEntryIs(c, b1, 0, freshId);
    BindMicroEffect(c, OpenEntry(c, b1, 0, freshId), 0, 0, 0);
    BindMicroId(c, OpenEntry(c, b1, 0, freshId), 0, 0, 0);
  }

  lemma OpenEntryIs(c: Codec, b: Bridge, e: nat, hotId: GenId)
    requires Valid(c, b) && e < |b.shared|
    ensures OpenEntry(c, b, e, hotId) == b.(shared := b.shared[e := Shared(1, hotId)])
  {
  }

  lemma FirstIsBound(c: Codec, b: Bridge, tid: nat) returns (b1: Bridge, freshId: GenId)
    requires Pristine(c, b) && HasFree(b.hot)
    ensures Valid(c, b1) && |b1.tenants| == |b.tenants| && |b1.shared| == |b.shared| > 0 && !freshId.IsNull()
    ensures b1.shared == b.shared && b1.clock == b.clock && b1.lastId == b.lastId
    ensures forall j :: 0 <= j < |b1.tenants| ==> !b1.tenants[j].inUse
    ensures CreateMicroTenant(c, b, tid) == BindMicro(c, OpenEntry(c, b1, 0, freshId), 0, 0, 0)
  {
    hide AllocHot, A.Valid, CeilDiv, BindMicro, OpenEntry, HasRoom, Pow2, SetBit;
    var b0 := b.(scanStart := if b.scanStart + 1 == |b.shared| then 0 else b.scanStart + 1);
    NothingOpen(b.shared, SubSlots(b), b.scanStart, 0);
    FirstAllocation(c, b0, tid);
    AllocHotFrame(c, b0, NO_TENANT_ID, tid, EVICT_RETRIES);
    b1, freshId := AllocHot(c, b0, NO_TENANT_ID, tid, EVICT_RETRIES).0, AllocHot(c, b0, NO_TENANT_ID, tid, EVICT_RETRIES).1;
    assert b1.shared[0] == Shared(0, NULL_ID);
    assert FreeRecord(b.tenants, 0) == Some(0) && EmptyEntry(b1.shared, 0) == Some(0);
  }

  lemma FirstAllocation(c: Codec, b: Bridge, tid: nat)
    requires Pristine(c, b) && HasFree(b.hot)
    ensures !AllocHot(c, b, NO_TENANT_ID, tid, EVICT_RETRIES).1.IsNull()
  {
    PristineOwned(c, b);
    var l :| Inv(c, b, l) && AtRest(l);
    hide AllocHot, AllocOnce, A.Valid, CeilDiv, Inv, HasFree, CanEvict;
    AllocHotIsAllocOnce(c, b, l, NO_TENANT_ID, tid);
  }

  lemma {:induction false} NothingOpen(shared: seq<Shared>, n: nat, start: nat, k: nat)
    requires start < |shared| && k <= |shared| && forall e :: 0 <= e < |shared| ==> shared[e].hotId.IsNull()
    ensures EntryWithRoom(shared, n, start, k).None?
    decreases |shared| - k
  {
    if k < |shared| { NothingOpen(shared, n, start, k + 1); }
  }

  /** One micro-tenant at sub-slot 0 of the only open entry. */
  predicate OneMicro(b: Bridge, id: nat, w: nat) {
    && |b.tenants| > 0 && |b.shared| > 0 && Find(b.tenants, id) == Some(0) && 0 < id <= b.lastId
    && b.tenants[0].kind == Micro && b.tenants[0].state == InHot && b.tenants[0].sharedIdx == 0 && b.tenants[0].hotId.sub == 0
    && b.shared[0].bitmap == w && !b.shared[0].hotId.IsNull()
    && (forall e :: 1 <= e < |b.shared| ==> b.shared[e].hotId.IsNull())
  }

  /** A second micro-tenant shares its slot, at sub-slot 1. */
  lemma SecondMicro(c: Codec, b: Bridge, id: nat, tid: nat)
    requires Valid(c, b) && OneMicro(b, id, 1) && FreeRecord(b.tenants, 0).Some? && SubSlots(b) >= 2
    ensures OneMicro(CreateMicroTenant(c, b, tid).0, id, 3)
    ensures CreateMicroTenant(c, b, tid).0.tenants[0] == b.tenants[0]
  {
    hide A.Valid, CeilDiv, CreateMicroTenant, BindMicro, SetBit, Bit, Pow2;
    TwoBits(SubSlots(b));
    assert HasRoom(b.shared[0], SubSlots(b));
    HoleBeforeFreshSlot(c, b, tid);
    RoomWhereFilled(c, b, tid);
    var f := FreeRecord(b.tenants, 0).value;
    var t := CreateMicroTenant(c, b, tid).0.tenants[f];
    assert t.sharedIdx == 0 && !Bit(b.shared[0].bitmap, 1) && t.hotId.sub == 1;
    var b1, e, k := CreateMicroBinds(c, b, tid);
    BindMicroEffect(c, b1, f, e, k);
    BindMicroId(c, b1, f, e, k);
    assert b1.tenants[0] == b.tenants[0];
  }

  /** The word 1 has bit 0 and no other, and does not fill two bits or more. */
  lemma TwoBits(n: nat)
    requires n >= 2
    ensures 1 != Pow2(n) - 1 && SetBit(1, 1) == 3 && ClearBit(3, 0) == 2
    ensures forall k: nat :: Bit(1, k) <==> k == 0
  {
    assert Pow2(n) == 4 * Pow2(n - 2);
    forall k: nat ensures Bit(1, k) <==> k == 0 { if k > 0 { ZeroWord(k - 1); } }
  }

  /** An input at which that happens: in an empty bridge two micro-tenants are created, the first is acquired and then
      destroyed, and the next micro-tenant gets exactly the bytes of the view that is still held. */
  lemma MicroViewHandedOn(c: Codec, b: Bridge, tid: nat)
    requires Pristine(c, b) && HasFree(b.hot) && SubSlots(b) >= 2 && |b.tenants| >= 2
    ensures var (b1, h) := CreateMicroTenant(c, b, tid);
            && h.Some?
            && var (b3, v) := AcquireMicroFP32(c, CreateMicroTenant(c, b1, tid).0, h.value);
               var b4 := DestroyTenant(c, b3, h.value).0;
               var (b5, g) := CreateMicroTenant(c, b4, tid);
               && v.View? && Find(b3.tenants, h.value) == Some(0) && b3.tenants[0].pins == 1
               && FreeRecord(b4.tenants, 0).Some?
               && var t := b5.tenants[FreeRecord(b4.tenants, 0).value];
                  g == Some(t.id) && t.id != h.value && t.inUse && Extent(b5, t) == v
  {
    hide A.Valid, CeilDiv, CreateMicroTenant, DestroyTenant, Inv, SetBit, ClearBit, Bit, Pow2, AcquireMicroFP32, HasFree;
    PristineOwned(c, b);
    FirstMicro(c, b, tid);
    var (b1, h) := CreateMicroTenant(c, b, tid);
    var id := h.value;
    assert OneMicro(b1, id, 1);
    assert !b1.tenants[1].inUse && FreeRecord(b1.tenants, 0).Some?;
    SecondMicro(c, b1, id, tid);
    var b2 := CreateMicroTenant(c, b1, tid).0;
    TwoCreates(c, b, tid);
    AcquiredFirst(c, b2, id, 3);
    var b3 := AcquireMicroFP32(c, b2, id).0;
    TwoBits(2);
    SubSlotHandedOn(c, b3, 0, id, tid);
  }

  lemma TwoCreates(c: Codec, b: Bridge, tid: nat)
    requires Valid(c, b) && Owned(c, b)
    ensures Owned(c, CreateMicroTenant(c, CreateMicroTenant(c, b, tid).0, tid).0)
  {
    hide CreateMicroTenant, A.Valid, CeilDiv;
    var l :| Inv(c, b, l) && AtRest(l);
    var l1 := CreateMicroTenantKeeps(c, b, l, tid);
    var l2 := CreateMicroTenantKeeps(c, CreateMicroTenant(c, b, tid).0, l1, tid);
  }

  lemma AcquiredFirst(c: Codec, b: Bridge, id: nat, w: nat)
    requires Valid(c, b) && Owned(c, b) && OneMicro(b, id, w) && b.tenants[0].pins == 0
    ensures var (b3, v) := AcquireMicroFP32(c, b, id);
            v.View? && Owned(c, b3) && OneMicro(b3, id, w) && b3.tenants[0].pins == 1 && v == Extent(b3, b3.tenants[0])
            && SubSlots(b3) == SubSlots(b)
  {
    hide Owned, A.Valid, CeilDiv, A.SubSlotValid;
    AcquiredMicroViewIsExtent(c, b, 0, id);
    AcquireMicroOwned(c, b, id);
  }

  lemma AcquireMicroOwned(c: Codec, b: Bridge, id: nat)
    requires Valid(c, b) && Owned(c, b)
    ensures Owned(c, AcquireMicroFP32(c, b, id).0)
  {
    hide AcquireMicroFP32, A.Valid, CeilDiv;
    var l :| Inv(c, b, l) && AtRest(l);
    var l' := StepKeeps(c, b, l, DoAcquireMicro(id));
  }
}
