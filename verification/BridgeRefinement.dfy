/** Payload refinement over whole runs. */
module BridgeRefinement {
  import opened BitWords
  import opened Common
  import opened GenIds
  import opened SelectorSpec
  import A = ArenaSpec
  import opened BridgeSpec
  import opened BridgeInvariant
  import opened BridgeOwnership
  import opened BridgeLookup
  import opened BridgeAllocation
  import opened BridgeMicro
  import opened BridgePayload

  /** The abstract store: for each record in use, the last bytes written through its views (zeros before
      the first write) and how often it has been evicted since. */
  datatype Cell = Cell(written: Bytes, evictions: nat)

  function Iterate(c: Codec, n: nat, x: Bytes): Bytes {
    if n == 0 then x else RoundTrip(c, Iterate(c, n - 1, x))
  }

  function Capacity(b: Bridge, t: Tenant): nat {
    if t.kind == Micro then MICRO_SLOT else b.hot.slotSize
  }

  predicate Writes(b: Bridge, op: Op, i: nat)
    requires i < |b.tenants|
  {
    op.DoWrite? && Find(b.tenants, op.id) == Some(i) && MayWrite(b, b.tenants[i], op.bytes)
  }

  /** What one operation does to one cell, seen from outside: creation, a write, an eviction, or nothing. */
  function NextCell(c: Codec, b: Bridge, op: Op, cell: Cell, i: nat): Cell
    requires Valid(c, b) && i < |b.tenants|
  {
    var b' := Step(c, b, op);
    if !b'.tenants[i].inUse then cell
    else if !b.tenants[i].inUse then Cell(Zeros(Capacity(b', b'.tenants[i])), 0)
    else if Writes(b, op, i) then Cell(op.bytes, 0)
    else if b.tenants[i].state == InHot && b'.tenants[i].state == InCold then cell.(evictions := cell.evictions + 1)
    else cell
  }

  function NextCells(c: Codec, b: Bridge, op: Op, cells: seq<Cell>): (r: seq<Cell>)
    requires Valid(c, b) && |cells| == |b.tenants|
    ensures |r| == |cells|
  {
    seq(|cells|, i requires 0 <= i < |cells| => NextCell(c, b, op, cells[i], i))
  }

  function RunCells(c: Codec, b: Bridge, ops: seq<Op>, cells: seq<Cell>): (r: seq<Cell>)
    requires Valid(c, b) && |cells| == |b.tenants|
    ensures |r| == |cells|
    decreases |ops|
  {
    if ops == [] then cells else RunCells(c, Step(c, b, ops[0]), ops[1..], NextCells(c, b, ops[0], cells))
  }

  ghost predicate CellAgrees(c: Codec, b: Bridge, cell: Cell, i: nat)
    requires Valid(c, b) && i < |b.tenants|
  {
    b.tenants[i].inUse ==>
      && |cell.written| == Capacity(b, b.tenants[i]) && Content(c, b, i) == Iterate(c, cell.evictions, cell.written)
      && (b.tenants[i].kind == Micro ==> cell.evictions == 0)
  }

  ghost predicate Agrees(c: Codec, b: Bridge, cells: seq<Cell>)
    requires Valid(c, b)
  {
    |cells| == |b.tenants| && forall i :: 0 <= i < |cells| ==> CellAgrees(c, b, cells[i], i)
  }

  /* ---- one step ---- */

  /** What may happen to the content of a record that was in use. */
  ghost predicate Moved(c: Codec, b: Bridge, b': Bridge, i: nat)
    requires Valid(c, b) && Valid(c, b') && i < |b.tenants| && i < |b'.tenants|
  {
    !b'.tenants[i].inUse || Kept(c, b, b', i) || Aged(c, b, b', i) || Restored(c, b, b', i)
  }

  lemma MovedThenKept(c: Codec, b: Bridge, b1: Bridge, b2: Bridge, i: nat)
    requires Valid(c, b) && Valid(c, b1) && Valid(c, b2) && i < |b.tenants| && i < |b1.tenants| && i < |b2.tenants|
    requires Moved(c, b, b1, i) && b1.tenants[i].inUse && Kept(c, b1, b2, i)
    ensures Moved(c, b, b2, i)
  {
    hide Valid, Content;
  }

  lemma AcquireContent(c: Codec, b: Bridge, l: Ledger, id: nat, tid: nat, i: nat)
    requires Inv(c, b, l) && AtRest(l) && i < |b.tenants| && b.tenants[i].inUse
    ensures Moved(c, b, AcquireFP32(c, b, id, tid).0, i)
  {
    hide A.SubSlotCount, CeilDiv, Content;
    var f := Find(b.tenants, id);
    if f.Some? {
      LiveShape(c, b, l, f.value);
      var b1 := b;
      if b.tenants[f.value].state == InCold {
        PromoteContent(c, b, l, f.value, tid, i);
        b1 := Promote(c, b, f.value, tid).0;
      }
      PinContent(c, b1, f.value, i);
      hide Promote, Inv, A.Valid, Content, CeilDiv, PinTenant, A.Validate;
      assert Moved(c, b, b1, i);
      MovedThenKept(c, b, b1, PinTenant(b1, f.value), i);
    }
  }

  lemma PinContent(c: Codec, b: Bridge, f: nat, i: nat)
    requires Valid(c, b) && f < |b.tenants| && i < |b.tenants| && b.tenants[i].inUse
    ensures Kept(c, b, PinTenant(b, f), i)
  {
    hide Content, A.Valid;
    RecordApart(c, b, PinTenant(b, f), i);
  }

  lemma DestroyContent(c: Codec, b: Bridge, l: Ledger, id: nat, i: nat)
    requires Inv(c, b, l) && AtRest(l) && i < |b.tenants| && b.tenants[i].inUse
    ensures Moved(c, b, DestroyTenant(c, b, id).0, i)
  {
    var f := Find(b.tenants, id);
    if f.Some? {
      LiveShape(c, b, l, f.value);
      if b.tenants[f.value].kind == Micro {
        if i != f.value { DestroyMicroContent(c, b, l, f.value, i); } else { GuardsNeverFire(c, b, i); }
      } else {
        if i != f.value { DestroyFullContent(c, b, l, f.value, i); }
      }
    }
  }

  lemma StepContent(c: Codec, b: Bridge, l: Ledger, op: Op, i: nat)
    requires Valid(c, b) && Inv(c, b, l) && AtRest(l) && i < |b.tenants| && b.tenants[i].inUse && !op.DoWrite?
    ensures Moved(c, b, Step(c, b, op), i)
  {
    hide Inv, CreateTenant, DestroyTenant, AcquireFP32, CreateMicroTenant, Content, CeilDiv, A.Valid;
    match op
    case DoCreate(tid) => CreateContent(c, b, l, tid, i);
    case DoDestroy(id) => DestroyContent(c, b, l, id, i);
    case DoAcquire(id, tid) => AcquireContent(c, b, l, id, tid, i);
    case DoRelease(id) => TouchContent(c, b, op, i);
    case DoSeal(id) => TouchContent(c, b, op, i);
    case DoCreateMicro(tid) => CreateMicroContent(c, b, l, tid, i);
    case DoAcquireMicro(id) => TouchContent(c, b, op, i);
  }

  lemma TouchContent(c: Codec, b: Bridge, op: Op, i: nat)
    requires Valid(c, b) && i < |b.tenants| && b.tenants[i].inUse && (op.DoRelease? || op.DoSeal? || op.DoAcquireMicro?)
    ensures Kept(c, b, Step(c, b, op), i)
  {
    hide Content, Kept, A.SubSlotCount;
    RecordApart(c, b, Step(c, b, op), i);
  }

  /** Only the two creating operations bring a record into use, and its first content is all zero. */
  lemma NewContent(c: Codec, b: Bridge, l: Ledger, op: Op, i: nat)
    requires Inv(c, b, l) && AtRest(l) && i < |b.tenants| && !b.tenants[i].inUse && Step(c, b, op).tenants[i].inUse
    ensures var b' := Step(c, b, op); Content(c, b', i) == Zeros(Capacity(b', b'.tenants[i]))
  {
    hide Content, CreateTenant, AcquireFP32, CreateMicroTenant, A.Inv, A.Valid, CeilDiv, A.Release, A.ZeroizeSub, A.Store;
    match op
    case DoCreate(tid) => NewFullContent(c, b, l, tid, i);
    case DoDestroy(id) =>
    case DoAcquire(id, tid) => AcquireUsesNoRecord(c, b, l, id, tid, i);
    case DoRelease(id) =>
    case DoSeal(id) =>
    case DoCreateMicro(tid) => NewMicroContent(c, b, l, tid, i);
    case DoAcquireMicro(id) =>
    case DoWrite(id, bytes) =>
  }

  lemma AcquireUsesNoRecord(c: Codec, b: Bridge, l: Ledger, id: nat, tid: nat, i: nat)
    requires Inv(c, b, l) && i < |b.tenants| && !b.tenants[i].inUse
    ensures !AcquireFP32(c, b, id, tid).0.tenants[i].inUse
  {
    var f := Find(b.tenants, id);
    if f.Some? && b.tenants[f.value].state == InCold { PromoteFrame(c, b, f.value, tid); }
    hide Promote, Inv, A.Valid;
  }

  lemma NewFullContent(c: Codec, b: Bridge, l: Ledger, tid: nat, i: nat)
    requires Inv(c, b, l) && AtRest(l) && i < |b.tenants| && !b.tenants[i].inUse && CreateTenant(c, b, tid).0.tenants[i].inUse
    ensures var b' := CreateTenant(c, b, tid).0;
            b'.tenants[i].kind == FullSlot && Content(c, b', i) == Zeros(b'.hot.slotSize)
  {
    var f := FreeRecord(b.tenants, 0);
    AllocHotFrame(c, b, NO_TENANT_ID, tid, EVICT_RETRIES);
    AllocHotZero(c, b, l, NO_TENANT_ID, tid);
    hide AllocHot, Inv, A.Valid;
    assert f == Some(i);
    var (b1, hotId) := AllocHot(c, b, NO_TENANT_ID, tid, EVICT_RETRIES);
    var b' := CreateTenant(c, b, tid).0;
    assert b'.tenants[i].hotId == hotId && b'.hot == b1.hot;
    assert Extent(b', b'.tenants[i]) == View(hotId.slot, 0, b1.hot.slotSize);
  }

  lemma AllocHotZero(c: Codec, b: Bridge, l: Ledger, skip: nat, tid: nat)
    requires Inv(c, b, l) && AtRest(l)
    ensures var (b', id) := AllocHot(c, b, skip, tid, EVICT_RETRIES);
            !id.IsNull() ==> id.slot < |b'.hot.die| && b'.hot.die[id.slot] == Zeros(b'.hot.slotSize)
  {
    AllocHotIsAllocOnce(c, b, l, skip, tid);
    A.AllocateYieldsZeros(b.hot, b.hot.slotSize, SLOT_ALIGN, tid);
    var l1 := EvictKeeps(c, b, l, skip, tid);
    var b1 := Evict(c, b, skip, tid).0;
    A.AllocateYieldsZeros(b1.hot, b1.hot.slotSize, SLOT_ALIGN, tid);
  }

  lemma NewMicroContent(c: Codec, b: Bridge, l: Ledger, tid: nat, i: nat)
    requires Inv(c, b, l) && AtRest(l) && i < |b.tenants| && !b.tenants[i].inUse && CreateMicroTenant(c, b, tid).0.tenants[i].inUse
    ensures var b' := CreateMicroTenant(c, b, tid).0;
            b'.tenants[i].kind == Micro && Content(c, b', i) == Zeros(MICRO_SLOT)
  {
    CreateMicroFrame(c, b, tid, i);
    FirstMicroViewIsZero(c, b, tid);
    hide Inv, A.Valid, CreateMicroTenant;
  }

  lemma CreateMicroFails(c: Codec, b: Bridge, tid: nat)
    requires Valid(c, b) && CreateMicroTenant(c, b, tid).1.None?
    ensures var f := FreeRecord(b.tenants, 0);
            var b0 := b.(scanStart := if b.scanStart + 1 == |b.shared| then 0 else b.scanStart + 1);
            CreateMicroTenant(c, b, tid) == if f.None? then (b, None) else FreshMicro(c, b0, f.value, tid)
  {
    hide FreshMicro, A.Valid, CeilDiv, BindMicro, Pow2, SetBit, Bit;
  }

  /** createMicroTenant brings into use only the first free record, and only when it succeeds. */
  lemma CreateMicroFrame(c: Codec, b: Bridge, tid: nat, i: nat)
    requires Valid(c, b) && i < |b.tenants| && !b.tenants[i].inUse
    ensures var (b', id) := CreateMicroTenant(c, b, tid);
            b'.tenants[i].inUse ==> id.Some? && FreeRecord(b.tenants, 0) == Some(i)
                                    && b'.tenants[i].kind == Micro && b'.tenants[i].state == InHot
  {
    hide CreateMicroTenant, FreshMicro, BindMicro, A.Valid, CeilDiv;
    var f := FreeRecord(b.tenants, 0);
    if CreateMicroTenant(c, b, tid).1.Some? {
      var b1, e, k := CreateMicroBinds(c, b, tid);
      BindMicroEffect(c, b1, f.value, e, k);
    } else {
      CreateMicroFails(c, b, tid);
      if f.Some? {
        var b0 := b.(scanStart := if b.scanStart + 1 == |b.shared| then 0 else b.scanStart + 1);
        FreshMicroFrame(c, b0, f.value, tid, i);
      }
    }
  }

  lemma FreshMicroFrame(c: Codec, b: Bridge, f: nat, tid: nat, i: nat)
    requires Valid(c, b) && i < |b.tenants| && !b.tenants[i].inUse && f < |b.tenants|
    ensures var (b', id) := FreshMicro(c, b, f, tid);
            b'.tenants[i].inUse ==> id.Some? && i == f && b'.tenants[i].kind == Micro && b'.tenants[i].state == InHot
  {
    AllocHotFrame(c, b, NO_TENANT_ID, tid, EVICT_RETRIES);
    hide AllocHot, A.Valid, CeilDiv, A.ZeroizeSub, A.Release;
  }

  /* ---- the refinement ---- */

  lemma CellStep(c: Codec, b: Bridge, l: Ledger, op: Op, cell: Cell, i: nat)
    requires Valid(c, b) && Inv(c, b, l) && AtRest(l) && i < |b.tenants| && CellAgrees(c, b, cell, i)
    ensures CellAgrees(c, Step(c, b, op), NextCell(c, b, op, cell, i), i)
  {
    hide Content, Step, Inv, A.Valid;
    var b' := Step(c, b, op);
    if b'.tenants[i].inUse {
      if !b.tenants[i].inUse { NewContent(c, b, l, op, i); }
      else if op.DoWrite? { WriteStep(c, b, l, op.id, op.bytes, i); }
      else {
        LiveShape(c, b, l, i);
        StepContent(c, b, l, op, i);
        var l' := StepKeeps(c, b, l, op);
        LiveShape(c, b', l', i);
      }
    }
  }

  lemma WriteStep(c: Codec, b: Bridge, l: Ledger, id: nat, bytes: Bytes, i: nat)
    requires Inv(c, b, l) && AtRest(l) && i < |b.tenants| && b.tenants[i].inUse
    ensures var op := DoWrite(id, bytes);
            var b' := Step(c, b, op);
            SamePlace(b.tenants[i], b'.tenants[i])
            && Content(c, b', i) == if Writes(b, op, i) then bytes else Content(c, b, i)
  {
    WriteContent(c, b, l, id, bytes, i);
  }

  lemma StepRefines(c: Codec, b: Bridge, op: Op, cells: seq<Cell>)
    requires Valid(c, b) && Owned(c, b) && Agrees(c, b, cells)
    ensures Agrees(c, Step(c, b, op), NextCells(c, b, op, cells))
  {
    var l :| Inv(c, b, l) && AtRest(l);
    hide Inv, Step, NextCell, CellAgrees;
    forall i | 0 <= i < |cells| ensures CellAgrees(c, Step(c, b, op), NextCell(c, b, op, cells[i], i), i) {
      CellStep(c, b, l, op, cells[i], i);
    }
  }

  /** Over any run, every live tenant's content is its last written bytes, aged once per eviction since. */
  lemma {:induction false} RunRefines(c: Codec, b: Bridge, ops: seq<Op>, cells: seq<Cell>)
    requires Valid(c, b) && Owned(c, b) && Agrees(c, b, cells)
    ensures Agrees(c, Run(c, b, ops), RunCells(c, b, ops, cells))
    decreases |ops|
  {
    if ops != [] {
      StepRefines(c, b, ops[0], cells);
      var l :| Inv(c, b, l) && AtRest(l);
      var l' := StepKeeps(c, b, l, ops[0]);
      hide Inv, Step, NextCells, CellAgrees, Agrees, AtRest;
      RunRefines(c, Step(c, b, ops[0]), ops[1..], NextCells(c, b, ops[0], cells));
    }
  }

  /** A successful acquireFP32 on a full tenant shows exactly what the abstract store holds for it. */
  lemma AcquireShowsCell(c: Codec, b: Bridge, i: nat, id: nat, tid: nat, cells: seq<Cell>)
    requires Valid(c, b) && Owned(c, b) && Agrees(c, b, cells) && Holds(b, i, id) && b.tenants[i].kind == FullSlot
    ensures var (b', v) := AcquireFP32(c, b, id, tid);
            v.View? ==> v.slot < |b'.hot.die| && v.offset + v.length <= b'.hot.slotSize
                        && Read(b'.hot, v) == Iterate(c, cells[i].evictions, cells[i].written)
  {
    FoundExactly(c, b, i, id);
    var l :| Inv(c, b, l) && AtRest(l);
    assert CellAgrees(c, b, cells[i], i);
    AcquireContent(c, b, l, id, tid, i);
    AcquiredFullViewIsExtent(c, b, i, id, tid);
    AcquiredIsHot(c, b, l, id, tid);
    hide AcquireFP32, Inv, A.Valid, CeilDiv, Iterate, Content, RoundTrip;
    var (b', v) := AcquireFP32(c, b, id, tid);
    if v.View? { HotContentIsRead(c, b', i); }
  }

  lemma HotContentIsRead(c: Codec, b: Bridge, i: nat)
    requires Valid(c, b) && i < |b.tenants| && FullIn(b.tenants[i], InHot) && b.tenants[i].hotId.slot < |b.hot.die|
    ensures Content(c, b, i) == Read(b.hot, Extent(b, b.tenants[i]))
  {
  }

  lemma AcquiredIsHot(c: Codec, b: Bridge, l: Ledger, id: nat, tid: nat)
    requires Inv(c, b, l) && AtRest(l) && Find(b.tenants, id).Some?
    ensures var (b', v) := AcquireFP32(c, b, id, tid);
            var t := b'.tenants[Find(b.tenants, id).value];
            v.View? ==> t.inUse && t.state == InHot && t.kind == b.tenants[Find(b.tenants, id).value].kind && t.hotId.slot < |b'.hot.die|
  {
    var i := Find(b.tenants, id).value;
    LiveShape(c, b, l, i);
    if b.tenants[i].state == InCold { PromoteFrame(c, b, i, tid); }
    hide Promote, Inv, CeilDiv;
  }

  /** A successful acquireMicroFP32 shows it too; a micro-tenant's cell never counts an eviction. */
  lemma AcquireMicroShowsCell(c: Codec, b: Bridge, i: nat, id: nat, cells: seq<Cell>)
    requires Valid(c, b) && Owned(c, b) && Agrees(c, b, cells) && Holds(b, i, id)
    ensures var (b', v) := AcquireMicroFP32(c, b, id);
            v.View? ==> v.slot < |b'.hot.die| && v.offset + v.length <= b'.hot.slotSize
                        && Read(b'.hot, v) == cells[i].written && cells[i].evictions == 0
  {
    FoundExactly(c, b, i, id);
    var l :| Inv(c, b, l) && AtRest(l);
    assert CellAgrees(c, b, cells[i], i);
    AcquiredMicroViewIsExtent(c, b, i, id);
    var (b', v) := AcquireMicroFP32(c, b, id);
    if v.View? {
      EntryHandleValid(c, b, l, i);
      ExtentInside(c, b, l, i);
      LiveShape(c, b, l, i);
      hide Inv, A.Valid, CeilDiv, RoundTrip, A.SubSlotValid;
      assert b'.hot == b.hot && Extent(b', b'.tenants[i]) == Extent(b, b.tenants[i]);
    }
  }

  lemma ExtentInside(c: Codec, b: Bridge, l: Ledger, i: nat)
    requires Inv(c, b, l) && i < |b.tenants| && b.tenants[i].inUse && b.tenants[i].kind == Micro
    ensures var v := Extent(b, b.tenants[i]); v.slot < |b.hot.die| && v.offset + v.length <= b.hot.slotSize
  {
    hide Occupied, Bit, Pow2, A.SubSlotCount;
    EntryHandleValid(c, b, l, i);
  }

  /* ---- what the codec makes of it ---- */

  lemma {:induction false} LosslessIterate(c: Codec, n: nat, x: Bytes)
    requires forall y :: |y| == |x| ==> RoundTrip(c, y) == y
    ensures Iterate(c, n, x) == x
  {
    if n > 0 { LosslessIterate(c, n - 1, x); }
  }

  lemma {:induction false} IdempotentIterate(c: Codec, n: nat, x: Bytes)
    requires RoundTrip(c, RoundTrip(c, x)) == RoundTrip(c, x)
    ensures Iterate(c, n, x) == if n == 0 then x else RoundTrip(c, x)
  {
    if n > 1 { IdempotentIterate(c, n - 1, x); }
  }

  /** After any run the view of a successful acquireFP32 on a full tenant reads the last bytes written,
      through the codec once per eviction since: what tiering costs in general. */
  lemma RunShowsCell(c: Codec, b: Bridge, ops: seq<Op>, cells: seq<Cell>, i: nat, id: nat, tid: nat)
    requires Valid(c, b) && Owned(c, b) && Agrees(c, b, cells)
    ensures var b1 := Run(c, b, ops);
            var (b2, v) := AcquireFP32(c, b1, id, tid);
            Holds(b1, i, id) && b1.tenants[i].kind == FullSlot && v.View? ==>
              && v.slot < |b2.hot.die| && v.offset + v.length <= b2.hot.slotSize
              && var cell := RunCells(c, b, ops, cells)[i];
                 Read(b2.hot, v) == Iterate(c, cell.evictions, cell.written) && |cell.written| == b.hot.slotSize
  {
    RunRefines(c, b, ops, cells);
    var b1 := Run(c, b, ops);
    assert Owned(c, b1) by { RunKeepsOwned(c, b, ops); }
    hide Run, RunCells, AcquireFP32, Owned, Iterate;
    if Holds(b1, i, id) && b1.tenants[i].kind == FullSlot {
      assert CellAgrees(c, b1, RunCells(c, b, ops, cells)[i], i);
      AcquireShowsCell(c, b1, i, id, tid, RunCells(c, b, ops, cells));
    }
  }

  /** With a codec that loses nothing of a slot, tiering is invisible: after any run, however often a
      tenant was evicted and promoted, its view reads the last bytes written. */
  lemma LosslessIsInvisible(c: Codec, b: Bridge, ops: seq<Op>, cells: seq<Cell>, i: nat, id: nat, tid: nat)
    requires Valid(c, b) && Owned(c, b) && Agrees(c, b, cells)
    requires forall y: Bytes {:trigger RoundTrip(c, y)} :: |y| == b.hot.slotSize ==> RoundTrip(c, y) == y
    ensures var b1 := Run(c, b, ops);
            var (b2, v) := AcquireFP32(c, b1, id, tid);
            Holds(b1, i, id) && b1.tenants[i].kind == FullSlot && v.View? ==>
              && v.slot < |b2.hot.die| && v.offset + v.length <= b2.hot.slotSize
              && Read(b2.hot, v) == RunCells(c, b, ops, cells)[i].written
  {
    RunShowsCell(c, b, ops, cells, i, id, tid);
    hide Run, RunCells, AcquireFP32, Owned, Iterate, RoundTrip;
    if i < |cells| {
      var cell := RunCells(c, b, ops, cells)[i];
      if |cell.written| == b.hot.slotSize { LosslessIterate(c, cell.evictions, cell.written); }
    }
  }

  /** With a codec that changes nothing the second time, data is lost at most once between writes, however
      many evictions there were. */
  lemma IdempotentLosesOnce(c: Codec, b: Bridge, ops: seq<Op>, cells: seq<Cell>, i: nat, id: nat, tid: nat)
    requires Valid(c, b) && Owned(c, b) && Agrees(c, b, cells)
    requires forall y: Bytes {:trigger RoundTrip(c, y)} :: |y| == b.hot.slotSize ==> RoundTrip(c, RoundTrip(c, y)) == RoundTrip(c, y)
    ensures var b1 := Run(c, b, ops);
            var (b2, v) := AcquireFP32(c, b1, id, tid);
            Holds(b1, i, id) && b1.tenants[i].kind == FullSlot && v.View? ==>
              && v.slot < |b2.hot.die| && v.offset + v.length <= b2.hot.slotSize
              && var cell := RunCells(c, b, ops, cells)[i];
                 Read(b2.hot, v) == if cell.evictions == 0 then cell.written else RoundTrip(c, cell.written)
  {
    RunShowsCell(c, b, ops, cells, i, id, tid);
    hide Run, RunCells, AcquireFP32, Owned, Iterate, RoundTrip;
    if i < |cells| {
      var cell := RunCells(c, b, ops, cells)[i];
      if |cell.written| == b.hot.slotSize { IdempotentIterate(c, cell.evictions, cell.written); }
    }
  }

  /** A micro-tenant's view reads its last bytes written after any run, whatever the codec. */
  lemma MicroNeverAges(c: Codec, b: Bridge, ops: seq<Op>, cells: seq<Cell>, i: nat, id: nat)
    requires Valid(c, b) && Owned(c, b) && Agrees(c, b, cells)
    ensures var b1 := Run(c, b, ops);
            var (b2, v) := AcquireMicroFP32(c, b1, id);
            Holds(b1, i, id) && v.View? ==>
              && v.slot < |b2.hot.die| && v.offset + v.length <= b2.hot.slotSize
              && Read(b2.hot, v) == RunCells(c, b, ops, cells)[i].written
  {
    RunRefines(c, b, ops, cells);
    var b1 := Run(c, b, ops);
    assert Owned(c, b1) by { RunKeepsOwned(c, b, ops); }
    hide Run, RunCells, AcquireMicroFP32, Owned;
    if Holds(b1, i, id) { AcquireMicroShowsCell(c, b1, i, id, RunCells(c, b, ops, cells)); }
  }

  /** A bridge over empty arenas agrees with any cells, so all of the above holds of its runs. */
  lemma PristineAgrees(c: Codec, b: Bridge, cells: seq<Cell>)
    requires Pristine(c, b) && |cells| == |b.tenants|
    ensures Owned(c, b) && Agrees(c, b, cells)
  {
    PristineOwned(c, b);
  }

  /** From empty arenas, whatever is run: a lossless codec gives every tenant back the bytes it last wrote. */
  lemma LosslessFromEmpty(c: Codec, b: Bridge, ops: seq<Op>, cells: seq<Cell>, i: nat, id: nat, tid: nat)
    requires Pristine(c, b) && |cells| == |b.tenants|
    requires forall y: Bytes {:trigger RoundTrip(c, y)} :: |y| == b.hot.slotSize ==> RoundTrip(c, y) == y
    ensures var b1 := Run(c, b, ops);
            var (b2, v) := AcquireFP32(c, b1, id, tid);
            Holds(b1, i, id) && b1.tenants[i].kind == FullSlot && v.View? ==>
              && v.slot < |b2.hot.die| && v.offset + v.length <= b2.hot.slotSize
              && Read(b2.hot, v) == RunCells(c, b, ops, cells)[i].written
  {
    PristineAgrees(c, b, cells);
    LosslessIsInvisible(c, b, ops, cells, i, id, tid);
  }
}
