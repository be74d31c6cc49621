/** Which record an id names, and what release() and sealTenant() do to it, said of the records themselves
    (include/qtx/tiered/tiered_bridge.hpp:494-542, 1002-1026). */
module BridgeLookup {
  import opened Common
  import opened GenIds
  import A = ArenaSpec
  import opened BridgeSpec
  import opened BridgeInvariant
  import opened BridgeOwnership

  /** Record i is in use under this id. */
  predicate Holds(b: Bridge, i: nat, id: nat) {
    i < |b.tenants| && b.tenants[i].inUse && b.tenants[i].id == id
  }

  /** Some record is. */
  predicate Known(b: Bridge, id: nat) {
    exists i: nat :: i < |b.tenants| && Holds(b, i, id)
  }

  /** On any records: the lookups fail exactly when no record in use carries the id, whatever else the records
      say, and always for the two reserved ids. */
  lemma LookupExactly(ts: seq<Tenant>, id: nat)
    ensures Find(ts, id).None? <==> id == 0 || id == 0xFFFF_FFFF_FFFF_FFFF || forall j :: 0 <= j < |ts| ==> !(ts[j].inUse && ts[j].id == id)
    ensures FindLive(ts, id).None?
            <==> id == 0 || id == 0xFFFF_FFFF_FFFF_FFFF || forall j :: 0 <= j < |ts| ==> !(ts[j].inUse && ts[j].id == id && ts[j].state != Dead)
  {
  }

  /** In a reachable state both lookups find record i exactly when it is in use under the id: one record does. */
  lemma FoundExactly(c: Codec, b: Bridge, i: nat, id: nat)
    requires Valid(c, b) && Owned(c, b)
    ensures Find(b.tenants, id) == Some(i) <==> Holds(b, i, id)
    ensures FindLive(b.tenants, id) == Some(i) <==> Holds(b, i, id)
    ensures Holds(b, i, id) ==> 0 < id <= b.lastId && id != NO_TENANT_ID && b.tenants[i].state != Dead
    ensures forall j: nat {:trigger Holds(b, j, id)} :: Holds(b, i, id) && Holds(b, j, id) ==> j == i
  {
    hide A.Inv, A.Valid, CeilDiv, HotSlotOk, ColdSlotOk, EntryOk;
    var l :| Inv(c, b, l) && AtRest(l);
    if Holds(b, i, id) {
      assert TenantOk(b, l, i);
      LookupExactly(b.tenants, id);
    }
  }

  lemma KnownIsFound(c: Codec, b: Bridge, id: nat)
    requires Valid(c, b) && Owned(c, b)
    ensures Known(b, id) <==> Find(b.tenants, id).Some?
    ensures Known(b, id) <==> FindLive(b.tenants, id).Some?
  {
    hide Owned, Find, FindLive, Valid;
    if Known(b, id) {
      var i: nat :| i < |b.tenants| && Holds(b, i, id);
      FoundExactly(c, b, i, id);
    }
    if Find(b.tenants, id).Some? { assert Holds(b, Find(b.tenants, id).value, id); }
    if FindLive(b.tenants, id).Some? { assert Holds(b, FindLive(b.tenants, id).value, id); }
  }

  /** release() succeeds exactly on a tenant with a pin, of any tier, kind or seal; then exactly that record's pin
      count drops by one, and otherwise nothing happens. */
  lemma ReleaseExactly(c: Codec, b: Bridge, id: nat)
    requires Valid(c, b) && Owned(c, b)
    ensures var (b', ok) := Release(b, id);
            && (ok <==> exists i: nat :: i < |b.tenants| && Holds(b, i, id) && b.tenants[i].pins > 0)
            && (!ok ==> b' == b)
            && (forall i: nat {:trigger Holds(b, i, id)} :: Holds(b, i, id) && b.tenants[i].pins > 0 ==>
                  b' == b.(tenants := b.tenants[i := b.tenants[i].(pins := b.tenants[i].pins - 1)]))
  {
    hide Owned, Find, FindLive, Valid;
    KnownIsFound(c, b, id);
    forall i: nat | Holds(b, i, id) ensures FindLive(b.tenants, id) == Some(i) { FoundExactly(c, b, i, id); }
    var f := FindLive(b.tenants, id);
    if f.Some? { assert Holds(b, f.value, id); }
  }

  /** sealTenant() succeeds exactly on the ids of live tenants, whatever their pins, tier and kind; then that record
      is sealed and nothing else changes. */
  lemma SealExactly(c: Codec, b: Bridge, id: nat)
    requires Valid(c, b) && Owned(c, b)
    ensures var (b', ok) := SealTenant(b, id);
            && (ok <==> Known(b, id))
            && (!ok ==> b' == b)
            && (forall i: nat {:trigger Holds(b, i, id)} :: Holds(b, i, id) ==>
                  b' == b.(tenants := b.tenants[i := b.tenants[i].(sealed := true)]))
  {
    hide Owned, Find, FindLive, Valid;
    KnownIsFound(c, b, id);
    forall i: nat | Holds(b, i, id) ensures Find(b.tenants, id) == Some(i) && b.tenants[i].state != Dead { FoundExactly(c, b, i, id); }
    var f := Find(b.tenants, id);
    if f.Some? { assert Holds(b, f.value, id); }
  }
}
