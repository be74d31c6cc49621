/** Eviction order and protection: the victim is the least recently created-or-acquired eligible tenant,
    and a pinned or sealed tenant keeps its hot slot. */
module BridgeLru {
  import opened BitWords
  import opened Common
  import opened GenIds
  import opened SelectorSpec
  import A = ArenaSpec
  import opened BridgeSpec
  import opened BridgeInvariant
  import opened BridgeOwnership
  import opened BridgeAllocation
  import opened BridgeMicro
  import opened BridgePayload
  import opened BridgeRefinement

  /* ---- the recency list ---- */

  /** The record an operation creates or successfully acquires. */
  function Used(c: Codec, b: Bridge, op: Op): Option<nat>
    requires Valid(c, b)
  {
    match op
    case DoCreate(tid) => if CreateTenant(c, b, tid).1.Some? then FreeRecord(b.tenants, 0) else None
    case DoCreateMicro(tid) => if CreateMicroTenant(c, b, tid).1.Some? then FreeRecord(b.tenants, 0) else None
    case DoAcquire(id, tid) => if AcquireFP32(c, b, id, tid).1.View? then Find(b.tenants, id) else None
    case DoAcquireMicro(id) => if AcquireMicroFP32(c, b, id).1.View? then Find(b.tenants, id) else None
    case _ => None
  }

  /** The record an operation destroys. */
  function Gone(c: Codec, b: Bridge, op: Op): Option<nat>
    requires Valid(c, b)
  {
    if op.DoDestroy? && DestroyTenant(c, b, op.id).1 then Find(b.tenants, op.id) else None
  }

  function IndexOf(r: seq<nat>, i: nat): (k: nat)
    requires i in r
    ensures k < |r| && r[k] == i
  {
    if r[0] == i then 0 else 1 + IndexOf(r[1..], i)
  }

  function Without(r: seq<nat>, i: nat): seq<nat> {
    if i in r then r[..IndexOf(r, i)] + r[IndexOf(r, i) + 1..] else r
  }

  /** Creation and acquisition move a record to the back of the list; destruction removes it. */
  function NextOrder(c: Codec, b: Bridge, op: Op, r: seq<nat>): seq<nat>
    requires Valid(c, b)
  {
    var u, g := Used(c, b, op), Gone(c, b, op);
    if u.Some? then Without(r, u.value) + [u.value]
    else if g.Some? then Without(r, g.value) else r
  }

  /** Strictly increasing access times along the list. */
  ghost predicate Sorted(ts: seq<Tenant>, r: seq<nat>) {
    && (forall k :: 0 <= k < |r| ==> r[k] < |ts|)
    && (forall j, k :: 0 <= j < k < |r| ==> ts[r[j]].accessTime < ts[r[k]].accessTime)
  }

  /** The list holds exactly the records in use, least recently used first. */
  ghost predicate Ordered(ts: seq<Tenant>, r: seq<nat>) {
    Sorted(ts, r) && forall i: nat :: i in r <==> i < |ts| && ts[i].inUse
  }

  lemma WithoutAt(r: seq<nat>, i: nat, k: nat)
    requires i in r && k < |Without(r, i)|
    ensures var n := IndexOf(r, i); Without(r, i)[k] == r[if k < n then k else k + 1]
  {
    hide IndexOf;
    var n := IndexOf(r, i);
    assert Without(r, i) == r[..n] + r[n + 1..];
  }

  lemma WithoutSorted(ts: seq<Tenant>, r: seq<nat>, i: nat)
    requires Sorted(ts, r)
    ensures Sorted(ts, Without(r, i))
  {
    hide Without;
    var w := Without(r, i);
    if i in r {
      var n := IndexOf(r, i);
      WithoutLength(r, i);
      forall k | 0 <= k < |w| ensures w[k] < |ts| { WithoutAt(r, i, k); }
      forall j, k | 0 <= j < k < |w| ensures ts[w[j]].accessTime < ts[w[k]].accessTime {
        WithoutAt(r, i, j);
        WithoutAt(r, i, k);
      }
    } else {
      WithoutAbsent(r, i);
    }
  }

  lemma WithoutLength(r: seq<nat>, i: nat)
    requires i in r
    ensures |Without(r, i)| == |r| - 1
  {
  }

  lemma WithoutAbsent(r: seq<nat>, i: nat)
    requires i !in r
    ensures Without(r, i) == r
  {
  }

  lemma WithoutMember(ts: seq<Tenant>, r: seq<nat>, i: nat, x: nat)
    requires Sorted(ts, r)
    ensures x in Without(r, i) <==> x in r && x != i
  {
    if i in r {
      var n, w := IndexOf(r, i), Without(r, i);
      if x in w {
        var k :| 0 <= k < |w| && w[k] == x;
        var m := if k < n then k else k + 1;
        WithoutAt(r, i, k);
        assert if m < n then ts[r[m]].accessTime < ts[r[n]].accessTime else ts[r[n]].accessTime < ts[r[m]].accessTime;
      }
    }
  }

  /** What a step does to the in-use flags and access times. */
  ghost predicate TimeStep(b: Bridge, b': Bridge, u: Option<nat>, g: Option<nat>) {
    && |b'.tenants| == |b.tenants|
    && (u.Some? ==> u.value < |b.tenants| && g.None?)
    && (g.Some? ==> g.value < |b.tenants|)
    && forall j {:trigger b'.tenants[j]} :: 0 <= j < |b.tenants| ==>
         && (b'.tenants[j].inUse <==> (b.tenants[j].inUse && g != Some(j)) || u == Some(j))
         && (b'.tenants[j].inUse ==> b'.tenants[j].accessTime == if u == Some(j) then b.clock else b.tenants[j].accessTime)
  }

  lemma OrderAfter(b: Bridge, b': Bridge, u: Option<nat>, g: Option<nat>, r: seq<nat>)
    requires TimeStep(b, b', u, g) && Ordered(b.tenants, r)
    requires forall i :: 0 <= i < |b.tenants| && b.tenants[i].inUse ==> b.tenants[i].accessTime < b.clock
    ensures Ordered(b'.tenants, if u.Some? then Without(r, u.value) + [u.value] else if g.Some? then Without(r, g.value) else r)
  {
    hide Without, IndexOf, Sorted, TimeStep;
    var x := if u.Some? then u.value else if g.Some? then g.value else |b.tenants|;
    var w := Without(r, x);
    WithoutSorted(b.tenants, r, x);
    forall i: nat ensures i in w <==> i in r && i != x { WithoutMember(b.tenants, r, x, i); }
    UsedAndGone(b, b', u, g);
    SameTimesSorted(b, b', u, g, w);
    if u.Some? {
      forall i: nat ensures i in w + [x] <==> i in w || i == x { InAppend(w, x, i); }
      AppendSorted(b'.tenants, w, x, b.clock);
    } else if g.None? {
      WithoutAbsent(r, x);
    }
  }

  lemma InAppend(w: seq<nat>, x: nat, i: nat)
    ensures i in w + [x] <==> i in w || i == x
  {
  }

  lemma UsedAndGone(b: Bridge, b': Bridge, u: Option<nat>, g: Option<nat>)
    requires TimeStep(b, b', u, g)
    ensures |b'.tenants| == |b.tenants| && (u.Some? ==> u.value < |b.tenants| && g.None?) && (g.Some? ==> g.value < |b.tenants|)
    ensures forall i: nat :: i < |b.tenants| ==> (b'.tenants[i].inUse <==> (b.tenants[i].inUse && g != Some(i)) || u == Some(i))
    ensures u.Some? ==> b'.tenants[u.value].accessTime == b.clock
  {
  }

  lemma SameTimesSorted(b: Bridge, b': Bridge, u: Option<nat>, g: Option<nat>, w: seq<nat>)
    requires TimeStep(b, b', u, g) && Sorted(b.tenants, w)
    requires forall i :: 0 <= i < |b.tenants| && b.tenants[i].inUse ==> b.tenants[i].accessTime < b.clock
    requires forall i: nat :: i in w ==> i < |b.tenants| && b.tenants[i].inUse && u != Some(i) && g != Some(i)
    ensures Sorted(b'.tenants, w) && forall k :: 0 <= k < |w| ==> b'.tenants[w[k]].accessTime < b.clock
  {
    forall k | 0 <= k < |w| ensures w[k] < |b.tenants| && b'.tenants[w[k]].accessTime == b.tenants[w[k]].accessTime < b.clock {
      assert w[k] in w;
    }
  }

  lemma AppendSorted(ts: seq<Tenant>, w: seq<nat>, x: nat, clock: nat)
    requires Sorted(ts, w) && x < |ts| && ts[x].accessTime == clock && forall k :: 0 <= k < |w| ==> ts[w[k]].accessTime < clock
    ensures Sorted(ts, w + [x])
  {
  }

  /* ---- each operation steps the access times ---- */

  lemma CreateTimes(c: Codec, b: Bridge, tid: nat)
    requires Valid(c, b)
    ensures TimeStep(b, CreateTenant(c, b, tid).0, Used(c, b, DoCreate(tid)), None)
  {
    hide AllocHot, A.Valid, CeilDiv;
    AllocHotFrame(c, b, NO_TENANT_ID, tid, EVICT_RETRIES);
  }

  lemma CreateMicroTimes(c: Codec, b: Bridge, tid: nat)
    requires Valid(c, b)
    ensures TimeStep(b, CreateMicroTenant(c, b, tid).0, Used(c, b, DoCreateMicro(tid)), None)
  {
    hide CreateMicroTenant, FreshMicro, BindMicro, A.Valid, CeilDiv;
    var f := FreeRecord(b.tenants, 0);
    if CreateMicroTenant(c, b, tid).1.Some? {
      var b1, e, k := CreateMicroBinds(c, b, tid);
      BindMicroEffect(c, b1, f.value, e, k);
    } else {
      CreateMicroFails(c, b, tid);
      if f.Some? {
        FreshMicroTimes(c, b.(scanStart := if b.scanStart + 1 == |b.shared| then 0 else b.scanStart + 1), f.value, tid);
      }
    }
  }

  lemma FreshMicroTimes(c: Codec, b: Bridge, f: nat, tid: nat)
    requires Valid(c, b) && f < |b.tenants| && !b.tenants[f].inUse && FreshMicro(c, b, f, tid).1.None?
    ensures TimeStep(b, FreshMicro(c, b, f, tid).0, None, None)
  {
    hide AllocHot, A.Valid, CeilDiv, BindMicro, A.Release;
    AllocHotFrame(c, b, NO_TENANT_ID, tid, EVICT_RETRIES);
  }

  lemma AcquireTimes(c: Codec, b: Bridge, l: Ledger, id: nat, tid: nat)
    requires Valid(c, b) && Inv(c, b, l) && AtRest(l)
    ensures TimeStep(b, AcquireFP32(c, b, id, tid).0, Used(c, b, DoAcquire(id, tid)), None)
  {
    hide A.Inv, A.Valid, CeilDiv, HotSlotOk, ColdSlotOk, EntryOk, Promote;
    var f := Find(b.tenants, id);
    if f.Some? {
      LiveShape(c, b, l, f.value);
      assert TenantOk(b, l, f.value);
      if b.tenants[f.value].state == InCold {
        PromoteFrame(c, b, f.value, tid);
        PromotedHandleValid(c, b, l, f.value, tid);
        OthersKeepTime(b.tenants, Promote(c, b, f.value, tid).0.tenants, b.tenants[f.value].id, f.value);
      } else {
        HotHandleValid(c, b, l, f.value);
      }
    }
  }

  lemma OthersKeepTime(ts: seq<Tenant>, ts': seq<Tenant>, skip: nat, i: nat)
    requires i < |ts| && |ts'| == |ts| && OnlyEvicted(ts, ts'[i := ts[i]], skip)
    requires ts'[i].inUse == ts[i].inUse && ts'[i].accessTime == ts[i].accessTime
    ensures forall j :: 0 <= j < |ts| ==> ts'[j].inUse == ts[j].inUse && ts'[j].accessTime == ts[j].accessTime
  {
    forall j | 0 <= j < |ts| ensures ts'[j].inUse == ts[j].inUse && ts'[j].accessTime == ts[j].accessTime {
      assert j != i ==> ts'[i := ts[i]][j] == ts'[j];
    }
  }

  lemma OtherTimes(c: Codec, b: Bridge, l: Ledger, op: Op)
    requires Valid(c, b) && Inv(c, b, l) && (op.DoRelease? || op.DoSeal? || op.DoWrite? || op.DoAcquireMicro?)
    ensures TimeStep(b, Step(c, b, op), Used(c, b, op), None)
  {
    hide A.Inv, A.Valid, CeilDiv, HotSlotOk, ColdSlotOk, EntryOk, A.SubSlotCount, A.Store, A.SubSlotValid;
    if op.DoAcquireMicro? {
      var f := Find(b.tenants, op.id);
      if f.Some? {
        assert TenantOk(b, l, f.value);
        if b.tenants[f.value].kind == Micro { EntryHandleValid(c, b, l, f.value); }
      }
    }
  }

  lemma DestroyTimes(c: Codec, b: Bridge, l: Ledger, id: nat)
    requires Valid(c, b) && Inv(c, b, l) && AtRest(l)
    ensures TimeStep(b, DestroyTenant(c, b, id).0, None, Gone(c, b, DoDestroy(id)))
  {
    hide A.Inv, A.Valid, CeilDiv, HotSlotOk, ColdSlotOk, EntryOk, A.Release, A.ZeroizeSub, ClearBit, Pow2;
    var f := Find(b.tenants, id);
    if f.Some? {
      assert TenantOk(b, l, f.value);
    }
  }

  lemma StepTimes(c: Codec, b: Bridge, l: Ledger, op: Op)
    requires Valid(c, b) && Inv(c, b, l) && AtRest(l)
    ensures TimeStep(b, Step(c, b, op), Used(c, b, op), Gone(c, b, op))
  {
    hide CreateTenant, DestroyTenant, AcquireFP32, CreateMicroTenant, AcquireMicroFP32, Release, SealTenant, Write, Inv, A.Valid;
    match op
    case DoCreate(tid) => CreateTimes(c, b, tid);
    case DoDestroy(id) => DestroyTimes(c, b, l, id);
    case DoAcquire(id, tid) => AcquireTimes(c, b, l, id, tid);
    case DoCreateMicro(tid) => CreateMicroTimes(c, b, tid);
    case _ => OtherTimes(c, b, l, op);
  }

  /* ---- exact LRU ---- */

  lemma StepKeepsOrder(c: Codec, b: Bridge, op: Op, r: seq<nat>)
    requires Valid(c, b) && Owned(c, b) && Ordered(b.tenants, r)
    ensures Ordered(Step(c, b, op).tenants, NextOrder(c, b, op, r))
  {
    var l :| Inv(c, b, l) && AtRest(l);
    StepTimes(c, b, l, op);
    forall i | 0 <= i < |b.tenants| && b.tenants[i].inUse ensures b.tenants[i].accessTime < b.clock { assert TenantOk(b, l, i); }
    hide Step, Used, Gone, Inv, A.Valid;
    OrderAfter(b, Step(c, b, op), Used(c, b, op), Gone(c, b, op), r);
  }

  function RunOrder(c: Codec, b: Bridge, ops: seq<Op>, r: seq<nat>): seq<nat>
    requires Valid(c, b)
    decreases |ops|
  {
    if ops == [] then r else RunOrder(c, Step(c, b, ops[0]), ops[1..], NextOrder(c, b, ops[0], r))
  }

  /** Over any run, the recency list kept by "created or acquired goes to the back" is the access-time order. */
  lemma {:induction false} RunKeepsOrder(c: Codec, b: Bridge, ops: seq<Op>, r: seq<nat>)
    requires Valid(c, b) && Owned(c, b) && Ordered(b.tenants, r)
    ensures Ordered(Run(c, b, ops).tenants, RunOrder(c, b, ops, r))
    decreases |ops|
  {
    if ops != [] {
      StepKeepsOrder(c, b, ops[0], r);
      var l :| Inv(c, b, l) && AtRest(l);
      var l' := StepKeeps(c, b, l, ops[0]);
      hide Inv, AtRest, Step, Ordered, NextOrder;
      RunKeepsOrder(c, Step(c, b, ops[0]), ops[1..], NextOrder(c, b, ops[0], r));
    }
  }

  /** The first eligible record of a recency list. */
  function FirstEligible(ts: seq<Tenant>, skip: nat, r: seq<nat>): Option<nat> {
    if r == [] then None
    else if r[0] < |ts| && Eligible(ts[r[0]], skip) then Some(r[0])
    else FirstEligible(ts, skip, r[1..])
  }

  lemma {:induction false} FirstEligibleIsOldest(ts: seq<Tenant>, skip: nat, r: seq<nat>, i: nat)
    requires i in r && i < |ts| && Eligible(ts[i], skip) && Sorted(ts, r)
    ensures var f := FirstEligible(ts, skip, r);
            f.Some? && f.value < |ts| && Eligible(ts[f.value], skip) && ts[f.value].accessTime <= ts[i].accessTime
  {
    if !(r[0] < |ts| && Eligible(ts[r[0]], skip)) {
      FirstEligibleIsOldest(ts, skip, r[1..], i);
    } else if i != r[0] {
      var k :| 0 <= k < |r| && r[k] == i;
      assert ts[r[0]].accessTime < ts[r[k]].accessTime;
    }
  }

  /** The sweep evicts exactly the first eligible record of the recency list, and none iff none is eligible. */
  lemma VictimIsLeastRecent(c: Codec, b: Bridge, skip: nat, r: seq<nat>)
    requires Valid(c, b) && Owned(c, b) && Ordered(b.tenants, r)
    ensures Victim(b.tenants, skip, |b.tenants|) == FirstEligible(b.tenants, skip, r)
  {
    var v := Victim(b.tenants, skip, |b.tenants|);
    var f := FirstEligible(b.tenants, skip, r);
    if v.Some? {
      FirstEligibleIsOldest(b.tenants, skip, r, v.value);
      VictimIsUnique(c, b, skip, f.value);
    } else if f.Some? {
      FirstEligibleMeans(b.tenants, skip, r);
      VictimIsOldest(b.tenants, skip, |b.tenants|, f.value);
    }
  }

  lemma {:induction false} FirstEligibleMeans(ts: seq<Tenant>, skip: nat, r: seq<nat>)
    ensures var f := FirstEligible(ts, skip, r); f.Some? ==> f.value < |ts| && Eligible(ts[f.value], skip)
  {
    if r != [] { FirstEligibleMeans(ts, skip, r[1..]); }
  }

  /* ---- protection ---- */

  predicate Protected(t: Tenant) {
    t.inUse && t.state == InHot && (t.pins > 0 || t.sealed || t.kind == Micro)
  }

  /** Until it is destroyed, a pinned, sealed or micro tenant that is hot keeps its hot slot across any
      operation on any tenant, and its seal. */
  lemma ProtectedKeepsSlot(c: Codec, b: Bridge, op: Op, i: nat)
    requires Valid(c, b) && Owned(c, b) && i < |b.tenants| && Protected(b.tenants[i])
    requires !(op.DoDestroy? && op.id == b.tenants[i].id)
    ensures var t, t' := b.tenants[i], Step(c, b, op).tenants[i];
            t'.inUse && t'.id == t.id && t'.kind == t.kind && t'.state == InHot && t'.hotId == t.hotId && (t.sealed ==> t'.sealed)
  {
    var l :| Inv(c, b, l) && AtRest(l);
    ProtectedStep(c, b, l, op, i);
  }

  lemma ProtectedStep(c: Codec, b: Bridge, l: Ledger, op: Op, i: nat)
    requires Valid(c, b) && Inv(c, b, l) && AtRest(l) && i < |b.tenants| && Protected(b.tenants[i])
    requires !(op.DoDestroy? && op.id == b.tenants[i].id)
    ensures var t, t' := b.tenants[i], Step(c, b, op).tenants[i];
            t'.inUse && t'.id == t.id && t'.kind == t.kind && t'.state == InHot && t'.hotId == t.hotId && (t.sealed ==> t'.sealed)
  {
    hide A.Valid, Inv, AllocHot, A.Release, A.Store, A.ZeroizeSub, CreateMicroTenant, BindMicro, FreshMicro, Promote, CeilDiv;
    match op
    case DoCreate(tid) => AllocHotFrame(c, b, NO_TENANT_ID, tid, EVICT_RETRIES);
    case DoCreateMicro(tid) => ProtectedFromMicro(c, b, tid, i);
    case DoAcquire(id, tid) =>
      var f := Find(b.tenants, id);
      if f.Some? && b.tenants[f.value].state == InCold {
        PromoteFrame(c, b, f.value, tid);
        assert Promote(c, b, f.value, tid).0.tenants[f.value := b.tenants[f.value]][i] == Promote(c, b, f.value, tid).0.tenants[i];
      }
    case _ =>
  }

  lemma ProtectedFromMicro(c: Codec, b: Bridge, tid: nat, i: nat)
    requires Valid(c, b) && i < |b.tenants| && Protected(b.tenants[i])
    ensures CreateMicroTenant(c, b, tid).0.tenants[i] == b.tenants[i]
  {
    hide CreateMicroTenant, FreshMicro, BindMicro, A.Valid, CeilDiv;
    var f := FreeRecord(b.tenants, 0);
    if CreateMicroTenant(c, b, tid).1.Some? {
      var b1, e, k := CreateMicroBinds(c, b, tid);
      BindMicroEffect(c, b1, f.value, e, k);
    } else {
      CreateMicroFails(c, b, tid);
      if f.Some? {
        FreshMicroProtects(c, b.(scanStart := if b.scanStart + 1 == |b.shared| then 0 else b.scanStart + 1), f.value, tid, i);
      }
    }
  }

  lemma FreshMicroProtects(c: Codec, b: Bridge, f: nat, tid: nat, i: nat)
    requires Valid(c, b) && f < |b.tenants| && i < |b.tenants| && i != f && Protected(b.tenants[i]) && FreshMicro(c, b, f, tid).1.None?
    ensures FreshMicro(c, b, f, tid).0.tenants[i] == b.tenants[i]
  {
    hide AllocHot, A.Valid, CeilDiv, BindMicro, A.Release;
    AllocHotFrame(c, b, NO_TENANT_ID, tid, EVICT_RETRIES);
  }

  /** A sealed hot tenant stays in its slot over any run that does not destroy it. */
  lemma {:induction false} SealedStays(c: Codec, b: Bridge, ops: seq<Op>, i: nat)
    requires Valid(c, b) && Owned(c, b) && i < |b.tenants| && b.tenants[i].inUse && b.tenants[i].state == InHot && b.tenants[i].sealed
    requires forall k :: 0 <= k < |ops| ==> !(ops[k].DoDestroy? && ops[k].id == b.tenants[i].id)
    ensures var t, t' := b.tenants[i], Run(c, b, ops).tenants[i];
            t'.inUse && t'.id == t.id && t'.state == InHot && t'.hotId == t.hotId && t'.sealed
    decreases |ops|
  {
    if ops != [] {
      ProtectedKeepsSlot(c, b, ops[0], i);
      var l :| Inv(c, b, l) && AtRest(l);
      var l' := StepKeeps(c, b, l, ops[0]);
      hide Inv, AtRest, Step;
      SealedStays(c, Step(c, b, ops[0]), ops[1..], i);
    }
  }
}
