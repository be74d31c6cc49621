/** Counting arguments about the bridge: conservation of slots and bits, and the pigeonhole that makes
    createMicroTenant's "should not happen given the sizing" branch unreachable. */
module BridgeCounting {
  import opened BitWords
  import opened Common
  import opened GenIds
  import opened SelectorSpec
  import A = ArenaSpec
  import opened BridgeSpec
  import opened BridgeInvariant
  import opened BridgeOwnership

  /* ---- finite sets of indices ---- */

  ghost function Below(n: nat): (r: set<nat>)
    ensures forall i: nat :: i in r <==> i < n
  {
    if n == 0 then {} else Below(n - 1) + {n - 1}
  }

  lemma {:induction false} BelowSize(n: nat)
    ensures |Below(n)| == n
  {
    if n > 0 {
      BelowSize(n - 1);
      assert Below(n) == Below(n - 1) + {n - 1};
    }
  }

  ghost predicate InjectiveOn(dom: set<nat>, f: nat -> nat) {
    forall i, j :: i in dom && j in dom && f(i) == f(j) ==> i == j
  }

  lemma {:induction false} ImageSize(dom: set<nat>, f: nat -> nat, image: set<nat>)
    requires InjectiveOn(dom, f)
    requires forall i :: i in dom ==> f(i) in image
    requires forall s :: s in image ==> exists i :: i in dom && f(i) == s
    ensures |image| == |dom|
    decreases dom
  {
    if dom == {} {
      assert image == {};
    } else {
      var i :| i in dom;
      forall s | s in image - {f(i)} ensures exists j :: j in dom - {i} && f(j) == s {
        var j :| j in dom && f(j) == s;
        assert j in dom - {i};
      }
      ImageSize(dom - {i}, f, image - {f(i)});
    }
  }

  /* ---- conservation of slots ---- */

  /** usedSlots() */
  function UsedSlots(a: A.Arena): int { |a.versions| - FreeCount(a.words) }

  ghost function OccupiedSlots(a: A.Arena): set<nat> {
    set s: nat | s < |a.versions| && Occupied(a.words, s)
  }

  lemma UsedSlotsIsCardinality(a: A.Arena)
    requires A.Valid(a)
    ensures UsedSlots(a) == |OccupiedSlots(a)|
  {
    FreeCountIsCardinality(a.words);
    BelowSize(|a.versions|);
    assert Below(|a.versions|) == FreeSlots(a.words) + OccupiedSlots(a);
    assert FreeSlots(a.words) !! OccupiedSlots(a);
  }

  ghost function FullTenants(b: Bridge, state: TenantState): set<nat> {
    set i: nat | i < |b.tenants| && FullIn(b.tenants[i], state)
  }

  ghost function LiveEntries(b: Bridge): set<nat> {
    set e: nat | e < |b.shared| && b.shared[e].bitmap != 0
  }

  ghost function HotSlotsOf(b: Bridge, l: Ledger, tenants: bool): set<nat> {
    set s: nat | s < |l.hot| && (if tenants then l.hot[s].OfTenant? else l.hot[s].OfEntry?)
  }

  lemma TenantSlots(c: Codec, b: Bridge, l: Ledger)
    requires Inv(c, b, l)
    ensures |HotSlotsOf(b, l, true)| == |FullTenants(b, InHot)|
  {
    hide A.Inv, A.Valid, Occupied, CeilDiv, EntryOk, ColdSlotOk;
    var f := (i: nat) => if i < |b.tenants| then b.tenants[i].hotId.slot else 0;
    forall i | i in FullTenants(b, InHot) ensures f(i) in HotSlotsOf(b, l, true) && l.hot[f(i)] == OfTenant(i) {
      assert TenantOk(b, l, i);
    }
    forall s | s in HotSlotsOf(b, l, true) ensures exists i :: i in FullTenants(b, InHot) && f(i) == s {
      assert HotSlotOk(b, l, s);
      assert l.hot[s].i in FullTenants(b, InHot) && f(l.hot[s].i) == s;
    }
    ImageSize(FullTenants(b, InHot), f, HotSlotsOf(b, l, true));
  }

  lemma EntrySlots(c: Codec, b: Bridge, l: Ledger)
    requires Inv(c, b, l)
    ensures |HotSlotsOf(b, l, false)| == |LiveEntries(b)|
  {
    hide A.Inv, A.Valid, Occupied, CeilDiv, TenantOk, ColdSlotOk;
    var f := (e: nat) => if e < |b.shared| then b.shared[e].hotId.slot else 0;
    forall e | e in LiveEntries(b) ensures f(e) in HotSlotsOf(b, l, false) && l.hot[f(e)] == OfEntry(e) {
      assert EntryOk(b, l, e);
    }
    forall s | s in HotSlotsOf(b, l, false) ensures exists e :: e in LiveEntries(b) && f(e) == s {
      assert HotSlotOk(b, l, s);
      assert l.hot[s].e in LiveEntries(b) && f(l.hot[s].e) == s;
    }
    ImageSize(LiveEntries(b), f, HotSlotsOf(b, l, false));
  }

  /** Between operations the used hot slots are the hot full tenants plus the non-empty shared entries. */
  lemma HotUsedConserved(c: Codec, b: Bridge)
    requires Valid(c, b) && Owned(c, b)
    ensures UsedSlots(b.hot) == |FullTenants(b, InHot)| + |LiveEntries(b)|
  {
    var l :| Inv(c, b, l) && AtRest(l);
    UsedSlotsIsCardinality(b.hot);
    TenantSlots(c, b, l);
    EntrySlots(c, b, l);
    hide A.Inv, A.Valid, Occupied, CeilDiv, TenantOk, ColdSlotOk, EntryOk;
    forall s: nat ensures s in OccupiedSlots(b.hot) <==> s in HotSlotsOf(b, l, true) + HotSlotsOf(b, l, false) {
      if s < |l.hot| { assert HotSlotOk(b, l, s); }
    }
    assert OccupiedSlots(b.hot) == HotSlotsOf(b, l, true) + HotSlotsOf(b, l, false);
    assert HotSlotsOf(b, l, true) !! HotSlotsOf(b, l, false);
  }

  /** ... and the used cold slots are the cold tenants. */
  lemma ColdUsedConserved(c: Codec, b: Bridge)
    requires Valid(c, b) && Owned(c, b)
    ensures UsedSlots(b.cold) == |FullTenants(b, InCold)|
  {
    var l :| Inv(c, b, l) && AtRest(l);
    UsedSlotsIsCardinality(b.cold);
    hide A.Inv, A.Valid, Occupied, CeilDiv, EntryOk, HotSlotOk;
    var f := (i: nat) => if i < |b.tenants| then b.tenants[i].coldId.slot else 0;
    forall i | i in FullTenants(b, InCold) ensures f(i) in OccupiedSlots(b.cold) && l.cold[f(i)] == OfTenant(i) {
      assert TenantOk(b, l, i);
      assert ColdSlotOk(b, l, f(i));
    }
    forall s | s in OccupiedSlots(b.cold) ensures exists i :: i in FullTenants(b, InCold) && f(i) == s {
      assert ColdSlotOk(b, l, s);
      assert l.cold[s].i in FullTenants(b, InCold) && f(l.cold[s].i) == s;
    }
    ImageSize(FullTenants(b, InCold), f, OccupiedSlots(b.cold));
  }

  /* ---- conservation of bits ---- */

  function BitTotal(shared: seq<Shared>): nat {
    if shared == [] then 0 else BitTotal(shared[..|shared| - 1]) + Popcount(shared[|shared| - 1].bitmap)
  }

  /** Live micro records in the first n shared entries. */
  ghost function MicrosBelow(b: Bridge, n: nat): set<nat> {
    set i: nat | i < |b.tenants| && b.tenants[i].inUse && b.tenants[i].kind == Micro && b.tenants[i].sharedIdx < n
  }

  ghost function MicrosIn(b: Bridge, e: nat): set<nat> {
    set i: nat | i < |b.tenants| && b.tenants[i].inUse && b.tenants[i].kind == Micro && b.tenants[i].sharedIdx == e
  }

  /** A shared entry has as many set bits as live siblings. */
  lemma SiblingsAreBits(c: Codec, b: Bridge, l: Ledger, e: nat)
    requires Inv(c, b, l) && e < |b.shared|
    ensures |MicrosIn(b, e)| == Popcount(b.shared[e].bitmap)
  {
    hide A.Inv, A.Valid, Occupied, CeilDiv, HotSlotOk, ColdSlotOk, Pow2, Popcount, Bit;
    var n := SubSlots(b);
    PopcountIsCardinality(b.shared[e].bitmap, n);
    var f := (i: nat) => if i < |b.tenants| then b.tenants[i].hotId.sub else 0;
    var bits := BitSet(b.shared[e].bitmap, n);
    forall i | i in MicrosIn(b, e) ensures f(i) in bits && l.bits[e][f(i)] == i { assert TenantOk(b, l, i); }
    assert EntryOk(b, l, e);
    forall k | k in bits ensures exists i :: i in MicrosIn(b, e) && f(i) == k {
      assert MicroAt(b, l.bits[e][k], e, k);
      assert l.bits[e][k] in MicrosIn(b, e) && f(l.bits[e][k]) == k;
    }
    ImageSize(MicrosIn(b, e), f, bits);
  }

  lemma {:induction false} MicrosBelowCounted(c: Codec, b: Bridge, l: Ledger, n: nat)
    requires Inv(c, b, l) && n <= |b.shared|
    ensures |MicrosBelow(b, n)| == BitTotal(b.shared[..n])
  {
    hide Inv, Popcount;
    if n == 0 {
      assert MicrosBelow(b, 0) == {};
    } else {
      MicrosBelowCounted(c, b, l, n - 1);
      SiblingsAreBits(c, b, l, n - 1);
      assert MicrosBelow(b, n) == MicrosBelow(b, n - 1) + MicrosIn(b, n - 1);
      assert MicrosBelow(b, n - 1) !! MicrosIn(b, n - 1);
      assert b.shared[..n][..n - 1] == b.shared[..n - 1];
    }
  }

  /** The bits set over all shared entries are exactly the live micro-tenants. */
  lemma MicrosConserved(c: Codec, b: Bridge)
    requires Valid(c, b) && Owned(c, b)
    ensures |MicrosBelow(b, |b.shared|)| == BitTotal(b.shared)
  {
    var l :| Inv(c, b, l) && AtRest(l);
    hide Inv;
    MicrosBelowCounted(c, b, l, |b.shared|);
    assert b.shared[..|b.shared|] == b.shared;
  }

  /* ---- the pigeonhole ---- */

  lemma {:induction false} FullPopcount(n: nat)
    ensures Popcount(Pow2(n) - 1) == n
  {
    if n > 0 {
      FullPopcount(n - 1);
      HalfOfFull(Pow2(n - 1));
    }
  }

  lemma HalfOfFull(p: nat)
    requires p > 0
    ensures (2 * p - 1) / 2 == p - 1 && (2 * p - 1) % 2 == 1
  {
  }

  lemma {:induction false} AllFullTotal(shared: seq<Shared>, n: nat)
    requires forall e :: 0 <= e < |shared| ==> shared[e].bitmap == Pow2(n) - 1
    ensures BitTotal(shared) == |shared| * n
  {
    if shared != [] {
      hide Popcount, Pow2;
      AllFullTotal(shared[..|shared| - 1], n);
      FullPopcount(n);
      assert (|shared| - 1) * n + n == |shared| * n;
    }
  }

  lemma CeilDivCovers(n: nat, d: nat)
    requires d > 0
    ensures CeilDiv(n, d) * d >= n
  {
    var m := n + d - 1;
    assert m == (m / d) * d + m % d;
  }

  lemma {:induction false} NoRoomAnywhere(shared: seq<Shared>, n: nat, start: nat, k: nat)
    requires start < |shared| && k <= |shared| && EntryWithRoom(shared, n, start, k).None?
    ensures forall j :: k <= j < |shared| ==> !HasRoom(shared[Around(start, j, |shared|)], n)
    decreases |shared| - k
  {
    if k < |shared| { NoRoomAnywhere(shared, n, start, k + 1); }
  }

  lemma NoRoomInEntry(shared: seq<Shared>, n: nat, start: nat, e: nat)
    requires start < |shared| && e < |shared| && EntryWithRoom(shared, n, start, 0).None?
    ensures !HasRoom(shared[e], n)
  {
    NoRoomAnywhere(shared, n, start, 0);
    var j := if e >= start then e - start else e + |shared| - start;
    assert Around(start, j, |shared|) == e;
  }

  /** If a record is free and no live shared entry has room, some shared entry is empty. */
  lemma EmptyEntryExists(c: Codec, b: Bridge)
    requires Valid(c, b) && Owned(c, b)
    requires FreeRecord(b.tenants, 0).Some? && EntryWithRoom(b.shared, SubSlots(b), b.scanStart, 0).None?
    ensures EmptyEntry(b.shared, 0).Some?
  {
    var l :| Inv(c, b, l) && AtRest(l);
    var n := SubSlots(b);
    if EmptyEntry(b.shared, 0).None? {
      forall e | 0 <= e < |b.shared| ensures b.shared[e].bitmap == Pow2(n) - 1 {
        NoRoomInEntry(b.shared, n, b.scanStart, e);
        assert EntryOk(b, l, e);
      }
      MicrosConserved(c, b);
      AllFullTotal(b.shared, n);
      CeilDivCovers(|b.tenants|, n);
      FewerMicrosThanRecords(b, FreeRecord(b.tenants, 0).value);
      assert false;
    }
  }

  lemma FewerMicrosThanRecords(b: Bridge, i: nat)
    requires i < |b.tenants| && !b.tenants[i].inUse
    ensures |MicrosBelow(b, |b.shared|)| < |b.tenants|
  {
    BelowSize(|b.tenants|);
    var micros := MicrosBelow(b, |b.shared|);
    assert micros <= Below(|b.tenants|) - {i};
    SubsetSize(micros, Below(|b.tenants|) - {i});
  }

  lemma {:induction false} SubsetSize(a: set<nat>, b: set<nat>)
    requires a <= b
    ensures |a| <= |b|
    decreases a
  {
    if a != {} {
      var x :| x in a;
      SubsetSize(a - {x}, b - {x});
    }
  }

  /** createMicroTenant never takes its "should not happen given the sizing" branch: once a fresh slot
      has been allocated, an entry to bind it to is found. */
  lemma FailSafeBranchUnreachable(c: Codec, b: Bridge, tid: nat)
    requires Valid(c, b) && Owned(c, b)
    requires FreeRecord(b.tenants, 0).Some? && EntryWithRoom(b.shared, SubSlots(b), b.scanStart, 0).None?
    ensures EmptyEntry(AllocHot(c, b, NO_TENANT_ID, tid, EVICT_RETRIES).0.shared, 0).Some?
  {
    hide AllocHot, Inv, A.Valid;
    AllocHotFrame(c, b, NO_TENANT_ID, tid, EVICT_RETRIES);
    EmptyEntryExists(c, b);
  }
}
