/** The bridge's own statistics: over any run `evictions` counts the tenants that moved to the cold tier and
    `promotions` those that came back. */
module BridgeStats {
  import opened Arithmetic
  import opened BitWords
  import opened Common
  import opened GenIds
  import A = ArenaSpec
  import opened BridgeSpec
  import opened BridgeInvariant
  import opened BridgeOwnership
  import opened BridgeAllocation

  ghost function Moved(b: Bridge, b': Bridge, from: TenantState, to: TenantState): set<nat> {
    set i: nat | i < |b.tenants| && i < |b'.tenants| && b.tenants[i].inUse && b.tenants[i].state == from
                 && b'.tenants[i].inUse && b'.tenants[i].state == to
  }

  /** The counters moved by as much as the tenants did. */
  ghost predicate Counts(b: Bridge, b': Bridge) {
    && |b'.tenants| == |b.tenants|
    && b'.evictions == b.evictions + |Moved(b, b', InHot, InCold)|
    && b'.promotions == b.promotions + |Moved(b, b', InCold, InHot)|
  }

  /** Record i apart, the same tenants are in the same tiers, and the counters agree. */
  ghost predicate SameTiersBut(b: Bridge, b': Bridge, i: nat) {
    && |b'.tenants| == |b.tenants| && b'.evictions == b.evictions && b'.promotions == b.promotions
    && forall j {:trigger b.tenants[j]} {:trigger b'.tenants[j]} :: 0 <= j < |b.tenants| && j != i ==>
         b'.tenants[j].inUse == b.tenants[j].inUse && b'.tenants[j].state == b.tenants[j].state
  }

  /** A record that was not, or is no longer, in use does not count as moved. */
  lemma CountsThenSame(b: Bridge, b1: Bridge, b2: Bridge, i: nat)
    requires Counts(b, b1) && SameTiersBut(b1, b2, i)
    requires i < |b.tenants| ==> (!b.tenants[i].inUse || (b2.tenants[i].inUse == b1.tenants[i].inUse && b2.tenants[i].state == b1.tenants[i].state))
    ensures Counts(b, b2)
  {
    assert Moved(b, b2, InHot, InCold) == Moved(b, b1, InHot, InCold);
    assert Moved(b, b2, InCold, InHot) == Moved(b, b1, InCold, InHot);
  }

  lemma SameCounts(b: Bridge, b': Bridge, i: nat)
    requires SameTiersBut(b, b', i)
    requires i < |b.tenants| ==> !b.tenants[i].inUse || !b'.tenants[i].inUse || b'.tenants[i].state == b.tenants[i].state
    ensures Counts(b, b')
  {
    assert Moved(b, b', InHot, InCold) == {} && Moved(b, b', InCold, InHot) == {};
  }

  lemma EvictCounts(c: Codec, b: Bridge, skip: nat, tid: nat)
    requires Valid(c, b)
    ensures var b' := Evict(c, b, skip, tid).0;
            Counts(b, b') && Moved(b, b', InCold, InHot) == {}
  {
    hide A.Allocate, A.Release, A.Store, A.Validate, CeilDiv;
    var v := Victim(b.tenants, skip, |b.tenants|);
    var (b', ok) := Evict(c, b, skip, tid);
    if ok {
      assert Moved(b, b', InHot, InCold) == {v.value};
    } else {
      assert b'.tenants == b.tenants;
      assert Moved(b, b', InHot, InCold) == {};
    }
  }

  lemma {:induction false} AllocHotCounts(c: Codec, b: Bridge, skip: nat, tid: nat, retries: nat)
    requires Valid(c, b)
    ensures var b' := AllocHot(c, b, skip, tid, retries).0;
            Counts(b, b') && Moved(b, b', InCold, InHot) == {}
    decreases retries
  {
    hide A.Allocate, Evict, A.Valid, CeilDiv;
    var (hot, id) := A.Allocate(b.hot, b.hot.slotSize, SLOT_ALIGN, tid);
    var b1 := b.(hot := hot);
    assert Moved(b, b1, InHot, InCold) == {} && Moved(b, b1, InCold, InHot) == {};
    if id.IsNull() && retries > 0 {
      EvictCounts(c, b1, skip, tid);
      EvictFrame(c, b1, skip, tid);
      var (b2, evicted) := Evict(c, b1, skip, tid);
      assert Moved(b, b2, InHot, InCold) == Moved(b1, b2, InHot, InCold) && Moved(b, b2, InCold, InHot) == {};
      if evicted {
        AllocHotCounts(c, b2, skip, tid, retries - 1);
        AllocHotFrame(c, b2, skip, tid, retries - 1);
        var b3 := AllocHot(c, b2, skip, tid, retries - 1).0;
        TwoEvictions(b, b2, b3, skip);
      }
    }
  }

  lemma TwoEvictions(b: Bridge, b1: Bridge, b2: Bridge, skip: nat)
    requires OnlyEvicted(b.tenants, b1.tenants, skip) && OnlyEvicted(b1.tenants, b2.tenants, skip)
    requires Counts(b, b1) && Counts(b1, b2) && b1.promotions == b.promotions && b2.promotions == b1.promotions
    ensures Counts(b, b2) && Moved(b, b2, InCold, InHot) == {}
  {
    var first, second := Moved(b, b1, InHot, InCold), Moved(b1, b2, InHot, InCold);
    assert Moved(b, b2, InHot, InCold) == first + second;
    assert first !! second;
    assert Moved(b, b2, InCold, InHot) == {};
  }

  lemma CreateCounts(c: Codec, b: Bridge, tid: nat)
    requires Valid(c, b)
    ensures Counts(b, CreateTenant(c, b, tid).0)
  {
    hide AllocHot, A.Valid, CeilDiv, Counts;
    var i := FreeRecord(b.tenants, 0);
    if i.None? {
      SameCounts(b, b, |b.tenants|);
    } else {
      AllocHotCounts(c, b, NO_TENANT_ID, tid, EVICT_RETRIES);
      CountsThenSame(b, AllocHot(c, b, NO_TENANT_ID, tid, EVICT_RETRIES).0, CreateTenant(c, b, tid).0, i.value);
    }
  }

  lemma CreateMicroCounts(c: Codec, b: Bridge, tid: nat)
    requires Valid(c, b)
    ensures Counts(b, CreateMicroTenant(c, b, tid).0)
  {
    hide FreshMicro, A.Valid, CeilDiv, Counts, A.ZeroizeSub, SetBit, Pow2, Bit;
    var i := FreeRecord(b.tenants, 0);
    if i.None? {
      SameCounts(b, b, |b.tenants|);
    } else {
      var b0 := b.(scanStart := if b.scanStart + 1 == |b.shared| then 0 else b.scanStart + 1);
      var e := EntryWithRoom(b.shared, SubSlots(b), b.scanStart, 0);
      if e.Some? {
        SameCounts(b, CreateMicroTenant(c, b, tid).0, i.value);
      } else {
        FreshMicroCounts(c, b0, i.value, tid);
        ScanCounts(b, b0, CreateMicroTenant(c, b, tid).0);
      }
    }
  }

  lemma ScanCounts(b: Bridge, b0: Bridge, b': Bridge)
    requires Counts(b0, b') && b0 == b.(scanStart := b0.scanStart)
    ensures Counts(b, b')
  {
    assert Moved(b, b', InHot, InCold) == Moved(b0, b', InHot, InCold);
    assert Moved(b, b', InCold, InHot) == Moved(b0, b', InCold, InHot);
  }

  lemma FreshMicroCounts(c: Codec, b: Bridge, i: nat, tid: nat)
    requires Valid(c, b) && i < |b.tenants| && !b.tenants[i].inUse
    ensures Counts(b, FreshMicro(c, b, i, tid).0)
  {
    hide AllocHot, A.Valid, CeilDiv, Counts, A.ZeroizeSub, A.Release;
    AllocHotCounts(c, b, NO_TENANT_ID, tid, EVICT_RETRIES);
    CountsThenSame(b, AllocHot(c, b, NO_TENANT_ID, tid, EVICT_RETRIES).0, FreshMicro(c, b, i, tid).0, i);
  }

  lemma PromoteCounts(c: Codec, b: Bridge, i: nat, tid: nat)
    requires Valid(c, b) && i < |b.tenants| && b.tenants[i].inUse && b.tenants[i].state == InCold
    ensures Counts(b, Promote(c, b, i, tid).0)
  {
    hide AllocHot, A.Valid, CeilDiv, A.Release, A.Store, A.Validate;
    AllocHotCounts(c, b, b.tenants[i].id, tid, EVICT_RETRIES);
    AllocHotFrame(c, b, b.tenants[i].id, tid, EVICT_RETRIES);
    var b1 := AllocHot(c, b, b.tenants[i].id, tid, EVICT_RETRIES).0;
    var (b', ok) := Promote(c, b, i, tid);
    assert b1.tenants[i] == b.tenants[i];
    if ok {
      assert Moved(b, b', InCold, InHot) == {i};
      assert Moved(b, b', InHot, InCold) == Moved(b, b1, InHot, InCold);
    } else {
      assert b'.tenants == b1.tenants;
      assert Moved(b, b', InCold, InHot) == {} && Moved(b, b', InHot, InCold) == Moved(b, b1, InHot, InCold);
    }
  }

  lemma AcquireCounts(c: Codec, b: Bridge, id: nat, tid: nat)
    requires Valid(c, b)
    ensures Counts(b, AcquireFP32(c, b, id, tid).0)
  {
    hide Promote, A.Valid, CeilDiv, Counts, A.Validate;
    var f := Find(b.tenants, id);
    SameCounts(b, b, |b.tenants|);
    if f.Some? {
      var b1 := if b.tenants[f.value].state == InCold then Promote(c, b, f.value, tid).0 else b;
      if b.tenants[f.value].state == InCold { PromoteCounts(c, b, f.value, tid); }
      CountsThenSame(b, b1, AcquireFP32(c, b, id, tid).0, f.value);
    }
  }

  lemma OtherCounts(c: Codec, b: Bridge, op: Op)
    requires Valid(c, b) && (op.DoRelease? || op.DoSeal? || op.DoWrite? || op.DoAcquireMicro? || op.DoDestroy?)
    ensures Counts(b, Step(c, b, op))
  {
    hide A.Valid, CeilDiv, A.Store, A.SubSlotValid, A.Release, A.ZeroizeSub, Counts;
    var f := if op.DoRelease? then FindLive(b.tenants, op.id) else Find(b.tenants, op.id);
    SameCounts(b, Step(c, b, op), if f.Some? then f.value else |b.tenants|);
  }

  lemma StepCounts(c: Codec, b: Bridge, op: Op)
    requires Valid(c, b)
    ensures Counts(b, Step(c, b, op))
  {
    hide Counts, CreateTenant, CreateMicroTenant, AcquireFP32, DestroyTenant, A.Valid;
    match op
    case DoCreate(tid) => CreateCounts(c, b, tid);
    case DoCreateMicro(tid) => CreateMicroCounts(c, b, tid);
    case DoAcquire(id, tid) => AcquireCounts(c, b, id, tid);
    case _ => OtherCounts(c, b, op);
  }

  /** How many tenants changed tier during the run. */
  ghost function Moves(c: Codec, b: Bridge, ops: seq<Op>, from: TenantState, to: TenantState): nat
    requires Valid(c, b)
    decreases |ops|
  {
    if ops == [] then 0
    else |Moved(b, Step(c, b, ops[0]), from, to)| + Moves(c, Step(c, b, ops[0]), ops[1..], from, to)
  }

  lemma {:induction false} RunCounts(c: Codec, b: Bridge, ops: seq<Op>)
    requires Valid(c, b)
    ensures var b' := Run(c, b, ops);
            && b'.evictions == b.evictions + Moves(c, b, ops, InHot, InCold)
            && b'.promotions == b.promotions + Moves(c, b, ops, InCold, InHot)
    decreases |ops|
  {
    if ops != [] {
      hide Step;
      StepCounts(c, b, ops[0]);
      RunCounts(c, Step(c, b, ops[0]), ops[1..]);
    }
  }

  /* ---- the rotating scan ---- */

  predicate Scans(b: Bridge, op: Op) { op.DoCreateMicro? && FreeRecord(b.tenants, 0).Some? }

  /** Only a createMicroTenant that found a record advances the cursor, by one entry. */
  lemma StepScans(c: Codec, b: Bridge, op: Op)
    requires Valid(c, b)
    ensures Step(c, b, op).scanStart
         == if !Scans(b, op) then b.scanStart else if b.scanStart + 1 == |b.shared| then 0 else b.scanStart + 1
  {
    hide AllocHot, Promote, A.Valid, CeilDiv, A.Store, A.SubSlotValid, A.Release, A.ZeroizeSub, EntryWithRoom, SetBit, Pow2, Bit;
    match op
    case DoCreate(tid) => AllocHotFrame(c, b, NO_TENANT_ID, tid, EVICT_RETRIES);
    case DoAcquire(id, tid) =>
      var f := Find(b.tenants, id);
      if f.Some? && b.tenants[f.value].state == InCold { PromoteFrame(c, b, f.value, tid); }
    case DoCreateMicro(tid) =>
      var b0 := b.(scanStart := if b.scanStart + 1 == |b.shared| then 0 else b.scanStart + 1);
      AllocHotFrame(c, b0, NO_TENANT_ID, tid, EVICT_RETRIES);
    case _ =>
  }

  function ScanCount(c: Codec, b: Bridge, ops: seq<Op>): nat
    requires Valid(c, b)
    decreases |ops|
  {
    if ops == [] then 0 else (if Scans(b, ops[0]) then 1 else 0) + ScanCount(c, Step(c, b, ops[0]), ops[1..])
  }

  /** Over any run the scans start at consecutive entries, round and round, so every entry gets its turn first. */
  lemma {:induction false} RunScans(c: Codec, b: Bridge, ops: seq<Op>)
    requires Valid(c, b)
    ensures Run(c, b, ops).scanStart == (b.scanStart + ScanCount(c, b, ops)) % |b.shared|
    decreases |ops|
  {
    hide Step, A.Valid, CeilDiv;
    if ops == [] {
      QuotientIs(b.scanStart, |b.shared|, 0, b.scanStart);
    } else {
      var b1 := Step(c, b, ops[0]);
      StepScans(c, b, ops[0]);
      RunScans(c, b1, ops[1..]);
      var k := ScanCount(c, b1, ops[1..]);
      if Scans(b, ops[0]) && b.scanStart + 1 == |b.shared| { DropLap(k, |b.shared|); }
    }
  }

  lemma DropLap(k: nat, n: nat)
    requires n > 0
    ensures (n + k) % n == k % n
  {
    DivMod(k, n);
    assert n * (k / n) + n == n * (k / n + 1);
    QuotientIs(n + k, n, k / n + 1, k % n);
  }
}
