/** Who owns what in the bridge: the ownership invariant and its preservation by the primitive moves. */
module BridgeInvariant {
  import opened BitWords
  import opened Common
  import opened GenIds
  import opened SelectorSpec
  import A = ArenaSpec
  import opened BridgeSpec

  /** A slot belongs to nobody (free), to the operation in progress, to a full tenant's record,
      or to a shared entry. */
  datatype Owner = Nobody | InFlight | OfTenant(i: nat) | OfEntry(e: nat)

  /** Owner of every hot and cold slot, and the micro record behind every bitmap bit. */
  datatype Ledger = Ledger(hot: seq<Owner>, cold: seq<Owner>, bits: seq<seq<nat>>)

  ghost function WithBit(l: Ledger, e: nat, k: nat, i: nat): Ledger
    requires e < |l.bits| && k < |l.bits[e]|
  {
    var row: seq<nat> := l.bits[e][k := i];
    l.(bits := l.bits[e := row])
  }

  predicate FullIn(t: Tenant, state: TenantState) {
    t.inUse && t.kind == FullSlot && t.state == state
  }

  ghost predicate HotSlotOk(b: Bridge, l: Ledger, s: nat)
    requires s < |l.hot|
  {
    && (l.hot[s] != Nobody <==> Occupied(b.hot.words, s))
    && (l.hot[s].OfTenant? ==> var i := l.hot[s].i; i < |b.tenants| && FullIn(b.tenants[i], InHot) && b.tenants[i].hotId.slot == s)
    && (l.hot[s].OfEntry? ==> var e := l.hot[s].e; e < |b.shared| && b.shared[e].bitmap != 0 && b.shared[e].hotId.slot == s)
  }

  ghost predicate ColdSlotOk(b: Bridge, l: Ledger, s: nat)
    requires s < |l.cold|
  {
    && (l.cold[s] != Nobody <==> Occupied(b.cold.words, s))
    && (l.cold[s].OfTenant? ==> var i := l.cold[s].i; i < |b.tenants| && FullIn(b.tenants[i], InCold) && b.tenants[i].coldId.slot == s)
    && !l.cold[s].OfEntry?
  }

  ghost predicate HoldsHot(b: Bridge, l: Ledger, i: nat)
    requires A.Valid(b.hot) && |l.hot| == |b.hot.versions| && i < |b.tenants|
  {
    var t := b.tenants[i];
    A.Validate(b.hot, t.hotId) && t.hotId.sub == 0 && t.coldId.IsNull() && l.hot[t.hotId.slot] == OfTenant(i)
  }

  ghost predicate HoldsCold(b: Bridge, l: Ledger, i: nat)
    requires A.Valid(b.cold) && |l.cold| == |b.cold.versions| && i < |b.tenants|
  {
    var t := b.tenants[i];
    A.Validate(b.cold, t.coldId) && t.hotId.IsNull() && t.pins == 0 && l.cold[t.coldId.slot] == OfTenant(i)
  }

  ghost predicate HoldsBit(b: Bridge, l: Ledger, i: nat)
    requires i < |b.tenants| && |l.bits| == |b.shared| && forall e :: 0 <= e < |l.bits| ==> |l.bits[e]| == SubSlots(b)
  {
    var t := b.tenants[i];
    && t.state == InHot && t.coldId.IsNull() && t.sharedIdx < |b.shared| && t.hotId.sub < SubSlots(b)
    && Bit(b.shared[t.sharedIdx].bitmap, t.hotId.sub)
    && t.hotId == b.shared[t.sharedIdx].hotId.WithSubSlot(t.hotId.sub)
    && l.bits[t.sharedIdx][t.hotId.sub] == i
  }

  ghost predicate LedgerShape(b: Bridge, l: Ledger) {
    && |l.hot| == |b.hot.versions| && |l.cold| == |b.cold.versions| && |l.bits| == |b.shared|
    && forall e :: 0 <= e < |l.bits| ==> |l.bits[e]| == SubSlots(b)
  }

  predicate Counted(b: Bridge, t: Tenant) {
    0 < t.id <= b.lastId && t.id != NO_TENANT_ID && t.state != Dead && t.pins <= PIN_SOFT_MAX && t.accessTime < b.clock
  }

  ghost predicate TenantOk(b: Bridge, l: Ledger, i: nat)
    requires A.Valid(b.hot) && A.Valid(b.cold) && LedgerShape(b, l) && i < |b.tenants|
  {
    var t := b.tenants[i];
    t.inUse ==>
      && Counted(b, t)
      && (t.kind == Micro ==> HoldsBit(b, l, i))
      && (t.kind == FullSlot && t.state == InHot ==> HoldsHot(b, l, i))
      && (t.kind == FullSlot && t.state == InCold ==> HoldsCold(b, l, i))
  }

  predicate MicroAt(b: Bridge, i: nat, e: nat, k: nat) {
    i < |b.tenants| && b.tenants[i].inUse && b.tenants[i].kind == Micro
    && b.tenants[i].sharedIdx == e && b.tenants[i].hotId.sub == k
  }

  ghost predicate EntryOk(b: Bridge, l: Ledger, e: nat)
    requires A.Valid(b.hot) && LedgerShape(b, l) && e < |b.shared|
  {
    var s := b.shared[e];
    && (s.bitmap == 0 ==> s.hotId.IsNull())
    && (s.bitmap != 0 ==> A.Validate(b.hot, s.hotId) && s.hotId.sub == 0 && l.hot[s.hotId.slot] == OfEntry(e))
    && (forall k: nat :: k < SubSlots(b) && Bit(s.bitmap, k) ==> MicroAt(b, l.bits[e][k], e, k))
  }

  predicate Distinct(ts: seq<Tenant>) {
    forall i, j :: 0 <= i < j < |ts| && ts[i].inUse && ts[j].inUse ==>
      ts[i].id != ts[j].id && ts[i].accessTime != ts[j].accessTime
  }

  /** The ownership invariant, witnessed by a ledger; InFlight entries belong to the operation that
      is running and are absent between operations (AtRest). */
  ghost predicate Inv(c: Codec, b: Bridge, l: Ledger) {
    && Valid(c, b) && A.Inv(b.hot) && A.Inv(b.cold) && LedgerShape(b, l)
    && (forall s: nat {:trigger l.hot[s]} {:trigger HotSlotOk(b, l, s)} :: s < |l.hot| ==> HotSlotOk(b, l, s))
    && (forall s: nat {:trigger l.cold[s]} {:trigger ColdSlotOk(b, l, s)} :: s < |l.cold| ==> ColdSlotOk(b, l, s))
    && (forall i: nat {:trigger b.tenants[i]} {:trigger TenantOk(b, l, i)} :: i < |b.tenants| ==> TenantOk(b, l, i))
    && (forall e: nat {:trigger b.shared[e]} {:trigger EntryOk(b, l, e)} :: e < |b.shared| ==> EntryOk(b, l, e))
    && Distinct(b.tenants)
  }

  /** Nothing is in flight, except possibly one named hot slot and one named cold slot. */
  ghost predicate AtRestBut(l: Ledger, hotSlot: int, coldSlot: int) {
    && (forall s :: 0 <= s < |l.hot| && s != hotSlot ==> l.hot[s] != InFlight)
    && (forall s :: 0 <= s < |l.cold| && s != coldSlot ==> l.cold[s] != InFlight)
  }

  ghost predicate AtRest(l: Ledger) { AtRestBut(l, -1, -1) }

  /* ---- primitive moves ---- */

  lemma TakeHot(c: Codec, b: Bridge, l: Ledger, size: nat, align: nat, tid: nat)
    requires Inv(c, b, l)
    ensures var (hot, id) := A.Allocate(b.hot, size, align, tid);
            if id.IsNull() then hot == b.hot
            else
              && id.slot < |l.hot| && l.hot[id.slot] == Nobody && A.Validate(hot, id) && id.sub == 0
              && Inv(c, b.(hot := hot), l.(hot := l.hot[id.slot := InFlight]))
  {
    hide A.Allocate, FreeCount, CeilDiv;
    A.AllocateEffect(b.hot, size, align, tid);
    A.AllocateKeepsInv(b.hot, size, align, tid);
  }

  lemma DropHot(c: Codec, b: Bridge, l: Ledger, id: GenId)
    requires Inv(c, b, l) && A.Validate(b.hot, id) && l.hot[id.slot] == InFlight
    ensures Inv(c, b.(hot := A.Release(b.hot, id).0), l.(hot := l.hot[id.slot := Nobody]))
  {
    hide A.Release, CeilDiv;
    A.ReleaseEffect(b.hot, id);
    A.ReleaseKeepsInv(b.hot, id);
  }

  lemma StoreHot(c: Codec, b: Bridge, l: Ledger, s: nat, offset: nat, bytes: Bytes)
    requires Inv(c, b, l) && s < |b.hot.die| && Occupied(b.hot.words, s)
    ensures Inv(c, b.(hot := A.Store(b.hot, s, offset, bytes)), l)
  {
    hide CeilDiv, A.Overlay;
    A.StoreKeepsInv(b.hot, s, offset, bytes);
  }

  lemma TakeCold(c: Codec, b: Bridge, l: Ledger, size: nat, align: nat, tid: nat)
    requires Inv(c, b, l)
    ensures var (cold, id) := A.Allocate(b.cold, size, align, tid);
            if id.IsNull() then cold == b.cold
            else
              && id.slot < |l.cold| && l.cold[id.slot] == Nobody && A.Validate(cold, id)
              && Inv(c, b.(cold := cold), l.(cold := l.cold[id.slot := InFlight]))
  {
    hide A.Allocate, CeilDiv;
    A.AllocateEffect(b.cold, size, align, tid);
    A.AllocateKeepsInv(b.cold, size, align, tid);
  }

  lemma DropCold(c: Codec, b: Bridge, l: Ledger, id: GenId)
    requires Inv(c, b, l) && A.Validate(b.cold, id) && l.cold[id.slot] == InFlight
    ensures Inv(c, b.(cold := A.Release(b.cold, id).0), l.(cold := l.cold[id.slot := Nobody]))
  {
    hide A.Release, CeilDiv;
    A.ReleaseEffect(b.cold, id);
    A.ReleaseKeepsInv(b.cold, id);
  }

  lemma StoreCold(c: Codec, b: Bridge, l: Ledger, s: nat, bytes: Bytes)
    requires Inv(c, b, l) && s < |b.cold.die| && Occupied(b.cold.words, s)
    ensures Inv(c, b.(cold := A.Store(b.cold, s, 0, bytes)), l)
  {
    hide CeilDiv, A.Overlay;
    A.StoreKeepsInv(b.cold, s, 0, bytes);
  }
}
