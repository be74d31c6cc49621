/** Eviction with lock-free releases in between (include/qtx/tiered/tiered_bridge.hpp:1071-1123): the sweep of
    BridgeSweep ends on a victim that need not be the one any atomic sweep would pick, and committing it is
    still a safe eviction of the bridge. */
module BridgeCommit {
  import opened Common
  import opened GenIds
  import opened SelectorSpec
  import A = ArenaSpec
  import opened BridgeSpec
  import opened BridgeInvariant
  import opened BridgeOwnership
  import opened BridgeLookup
  import opened BridgeAllocation
  import opened BridgeMicro
  import opened BridgePayload
  import opened BridgeLru
  import S = BridgeSweep

  /** The bridge as the releases during the sweep left it. */
  function After(b: Bridge, s: S.Sweep): Bridge { b.(tenants := s.ts) }

  /** A step of the sweep in which a release lands is what release() does to the records. */
  lemma UnpinIsRelease(c: Codec, b: Bridge, n: nat, victim: Option<nat>, skip: nat, j: nat, id: nat)
    requires Valid(c, b) && Owned(c, b) && Holds(b, j, id)
    ensures S.Apply(S.Sweep(b.tenants, n, victim), skip, S.Unpin(j)) == S.Sweep(Release(b, id).0.tenants, n, victim)
  {
    ReleaseExactly(c, b, id);
    FoundExactly(c, b, j, id);
    hide Owned, Valid;
  }

  /** Lower pin counts change nobody's ownership. */
  lemma UnpinnedKeeps(c: Codec, b: Bridge, l: Ledger, ts: seq<Tenant>)
    requires Inv(c, b, l) && |ts| == |b.tenants|
    requires forall j {:trigger ts[j]} :: 0 <= j < |ts| ==> S.OnlyUnpinned(b.tenants[j], ts[j])
    ensures Valid(c, b.(tenants := ts)) && Inv(c, b.(tenants := ts), l)
  {
    hide CeilDiv, A.Inv, A.Valid, Occupied;
    var b' := b.(tenants := ts);
    forall i: nat | i < |ts| ensures TenantOk(b', l, i) {
      assert TenantOk(b, l, i) && S.OnlyUnpinned(b.tenants[i], ts[i]);
    }
    forall e: nat | e < |b'.shared| ensures EntryOk(b', l, e) {
      assert EntryOk(b, l, e);
      UnpinnedEntry(c, b, l, ts, e);
    }
  }

  lemma UnpinnedEntry(c: Codec, b: Bridge, l: Ledger, ts: seq<Tenant>, e: nat)
    requires Inv(c, b, l) && |ts| == |b.tenants| && e < |b.shared|
    requires forall j {:trigger ts[j]} :: 0 <= j < |ts| ==> S.OnlyUnpinned(b.tenants[j], ts[j])
    ensures EntryOk(b.(tenants := ts), l, e)
  {
    hide CeilDiv, A.Inv, A.Valid, Occupied, HotSlotOk, ColdSlotOk, TenantOk;
    var b' := b.(tenants := ts);
    assert EntryOk(b, l, e);
    forall i: nat, k: nat | MicroAt(b, i, e, k) ensures MicroAt(b', i, e, k) { assert S.OnlyUnpinned(b.tenants[i], ts[i]); }
  }

  /** The state at the commit, and its victim. */
  ghost predicate Swept(b: Bridge, skip: nat, events: seq<S.Event>, b1: Bridge, v: nat) {
    var s := S.ApplyAll(S.Start(b.tenants), skip, events);
    S.Finished(s) && s.victim == Some(v) && b1 == After(b, s)
  }

  lemma AtCommit(c: Codec, b: Bridge, l: Ledger, skip: nat, events: seq<S.Event>, b1: Bridge, v: nat)
    requires Inv(c, b, l) && Swept(b, skip, events, b1, v)
    ensures Valid(c, b1) && Inv(c, b1, l) && SameShape(b, b1) && b1.hot == b.hot && b1.cold == b.cold
    ensures v < |b.tenants| && Eligible(b1.tenants[v], skip) && Evictable(b1, v)
    ensures forall j {:trigger b1.tenants[j]} :: 0 <= j < |b.tenants| ==> S.OnlyUnpinned(b.tenants[j], b1.tenants[j])
    ensures forall j {:trigger b.tenants[j]} :: 0 <= j < |b.tenants| && Eligible(b.tenants[j], skip) ==>
              b.tenants[v].accessTime <= b.tenants[j].accessTime
  {
    hide Inv, S.ApplyAll;
    S.SweepIsSafe(b.tenants, skip, events);
    UnpinnedKeeps(c, b, l, b1.tenants);
  }

  lemma KeptThen(c: Codec, b: Bridge, b1: Bridge, b2: Bridge, i: nat)
    requires Valid(c, b) && Valid(c, b1) && Valid(c, b2) && i < |b.tenants| && i < |b1.tenants| && i < |b2.tenants|
    requires Kept(c, b, b1, i)
    ensures Kept(c, b1, b2, i) ==> Kept(c, b, b2, i)
    ensures Aged(c, b1, b2, i) ==> Aged(c, b, b2, i)
  {
    hide Valid, Content;
  }

  /** Committing an interleaved sweep keeps the ownership invariant, whether the codec succeeds or not. */
  lemma CommitKeeps(c: Codec, b: Bridge, l: Ledger, skip: nat, events: seq<S.Event>, b1: Bridge, v: nat, tid: nat) returns (l': Ledger)
    requires Inv(c, b, l) && AtRest(l) && Swept(b, skip, events, b1, v)
    ensures Valid(c, b1) && v < |b1.tenants| && Inv(c, EvictTenant(c, b1, v, tid).0, l') && AtRest(l')
  {
    AtCommit(c, b, l, skip, events, b1, v);
    l' := EvictTenantKeeps(c, b1, l, v, tid);
  }

  /** It succeeds exactly when the cold tier has room and the victim's bytes compress to the bound. */
  lemma CommitSucceedsExactly(c: Codec, b: Bridge, l: Ledger, skip: nat, events: seq<S.Event>, b1: Bridge, v: nat, tid: nat)
    requires Valid(c, b) && Inv(c, b, l) && Swept(b, skip, events, b1, v)
    ensures Valid(c, b1) && v < |b1.tenants| && v < |b.tenants|
    ensures EvictTenant(c, b1, v, tid).1 <==> c.bound > 0 && HasFree(b.cold) && Compressible(c, b, v)
  {
    AtCommit(c, b, l, skip, events, b1, v);
    hide EvictTenant, S.ApplyAll;
    EvictTenantSucceedsExactly(c, b1, l, v, tid);
    assert S.OnlyUnpinned(b.tenants[v], b1.tenants[v]);
  }

  lemma EvictAfter(c: Codec, b: Bridge, b1: Bridge, l: Ledger, v: nat, tid: nat, i: nat)
    requires Valid(c, b) && Valid(c, b1) && Inv(c, b1, l) && Evictable(b1, v)
    requires i < |b.tenants| && i < |b1.tenants| && b1.tenants[i].inUse && Kept(c, b, b1, i)
    ensures var (b', ok) := EvictTenant(c, b1, v, tid);
            i < |b'.tenants| && if ok && i == v then Aged(c, b, b', i) else Kept(c, b, b', i)
  {
    hide EvictTenant, Inv, A.Valid, CeilDiv, Kept, Aged, Content;
    var (b', ok) := EvictTenant(c, b1, v, tid);
    if ok { EvictTenantContent(c, b1, l, v, tid, i); } else { FailedEvictTenantContent(c, b1, l, v, tid, i); }
    KeptThen(c, b, b1, b', i);
  }

  /** It passes the victim's bytes through the codec once and keeps every other tenant's: everyone's if it fails. */
  lemma CommitContent(c: Codec, b: Bridge, l: Ledger, skip: nat, events: seq<S.Event>, b1: Bridge, v: nat, tid: nat, i: nat)
    requires Valid(c, b) && Inv(c, b, l) && Swept(b, skip, events, b1, v) && i < |b.tenants| && b.tenants[i].inUse
    ensures Valid(c, b1) && v < |b1.tenants| == |b.tenants|
    ensures var (b', ok) := EvictTenant(c, b1, v, tid);
            if ok && i == v then Aged(c, b, b', i) else Kept(c, b, b', i)
  {
    hide EvictTenant, Inv, Swept, A.Valid, CeilDiv, Content, Kept, Aged, Evictable, Eligible;
    AtCommit(c, b, l, skip, events, b1, v);
    assert S.OnlyUnpinned(b.tenants[i], b1.tenants[i]);
    RecordApart(c, b, b1, i);
    EvictAfter(c, b, b1, l, v, tid, i);
  }

  lemma EvictTenantFrame(c: Codec, b: Bridge, v: nat, tid: nat)
    requires Valid(c, b) && v < |b.tenants|
    ensures var b' := EvictTenant(c, b, v, tid).0;
            forall j {:trigger b'.tenants[j]} :: 0 <= j < |b.tenants| && j != v ==> b'.tenants[j] == b.tenants[j]
  {
    hide A.Release, A.Allocate, A.Store, Valid;
  }

  /** Whatever was released meanwhile: a tenant that is pinned, sealed, micro or the skipped one when the eviction
      commits stays exactly where it is, and the record that moves was at least as old as everyone who could have
      been evicted when the sweep began. */
  lemma InterleavedEviction(c: Codec, b: Bridge, skip: nat, events: seq<S.Event>, b1: Bridge, v: nat, tid: nat)
    requires Valid(c, b) && Owned(c, b) && Swept(b, skip, events, b1, v)
    ensures Valid(c, b1) && v < |b1.tenants| == |b.tenants|
    ensures Owned(c, EvictTenant(c, b1, v, tid).0)
    ensures var (b', ok) := EvictTenant(c, b1, v, tid);
            && (ok <==> c.bound > 0 && HasFree(b.cold) && Compressible(c, b, v))
            && (forall i {:trigger b'.tenants[i]} :: 0 <= i < |b.tenants| ==>
                  && (Protected(b1.tenants[i]) || b1.tenants[i].id == skip ==> b'.tenants[i] == b1.tenants[i])
                  && (b.tenants[i].inUse ==> if ok && i == v then Aged(c, b, b', i) else Kept(c, b, b', i))
                  && (Eligible(b.tenants[i], skip) ==> b.tenants[v].accessTime <= b.tenants[i].accessTime))
  {
    var l :| Inv(c, b, l) && AtRest(l);
    AtCommit(c, b, l, skip, events, b1, v);
    var l' := CommitKeeps(c, b, l, skip, events, b1, v, tid);
    CommitSucceedsExactly(c, b, l, skip, events, b1, v, tid);
    EvictTenantFrame(c, b1, v, tid);
    hide EvictTenant, Swept, Inv, AtRest, A.Valid, Kept, Aged, Compressible, HasFree;
    var b' := EvictTenant(c, b1, v, tid).0;
    forall i | 0 <= i < |b.tenants| && b.tenants[i].inUse
      ensures if EvictTenant(c, b1, v, tid).1 && i == v then Aged(c, b, b', i) else Kept(c, b, b', i)
    {
      CommitContent(c, b, l, skip, events, b1, v, tid, i);
    }
  }
}
