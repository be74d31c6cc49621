# A verified model of the QTX memory engine

This project models three parts of the QTX library and proves what they promise.

**The tiered memory engine.** `AxiomSelector` hands out slots from a bitmap, `FractalArena` puts generations and
zeroed bytes on top of it, and `TieredArenaBridge` keeps tenants in a hot and a cold arena: it creates, pins,
evicts through a codec, promotes, seals and destroys them, and packs micro-tenants into shared hot slots. Slot
counts, the number of tenants, the hot slot size and the codec are parameters.

- `GenId.dfy`, `Selector.dfy`, `Arena.dfy`, `BridgeSpec.dfy` give the handles and the operations as functions,
  branch by branch, failure paths included. `Selector.dfy`, `FractalArena.dfy` and `TieredBridge.dfy` hold the
  classes, with the program's arrays and loops; each method is proved to compute its function.
- `BridgeLookup.dfy` and `BridgeEffects.dfy` say what each operation does to the records, slots and entries, and when it
  succeeds, in terms of which record is in use under which id, and that an id names its record until it is destroyed.
- `BridgeInvariant.dfy` and `BridgeOwnership.dfy` state who owns every slot and bit, and prove that every operation
  keeps it. `BridgeCounting.dfy`, `BridgeMicro.dfy`, `BridgeAllocation.dfy`, `BridgePayload.dfy`,
  `BridgeRefinement.dfy`, `BridgeLru.dfy`, `BridgeHandles.dfy` and `BridgeStats.dfy` prove conservation, the
  unreachable branch of `createMicroTenant`, view disjointness, exact success conditions, refinement to a map from
  tenants to bytes, exact LRU, the life of handles and pins, and the counters, all over whole runs.
- `BridgeSweep.dfy` takes the eviction sweep one record at a time, with lock-free `release()` calls in between, and
  `BridgeCommit.dfy` commits its victim in the bridge.

**The lock-free pieces as step systems.** `SelectorSteps.dfy` interleaves any number of threads at the grain of one
load, compare-exchange or fetch_or; `SelectorAlone.dfy` says when a thread that nobody disturbs is refused, and
`SelectorRefusal.dfy` what a refusal means under contention. `SpscRing.dfy` interleaves the two threads of the ring at
the grain of one counter load, half a cell copy, or one publication, with counters that wrap at 2^64, and has the ring
as a class.

**The codecs.** `FloatFormats.dfy`, `FloatEncoders.dfy`, `FloatRounding.dfy` and `FloatDecoders.dfy` treat BF16, FP16,
E4M3 and E5M2 bit by bit against an exact integer value. `KQuants.dfy` and `KQuantsHighBits.dfy` treat the
Q6_K, Q5_K and Q3_K layouts and the twelve-byte scale field, `SignCodes.dfy` the IQ2_XXS signs, `Mxfp4.dfy` and
`IntBlocks.dfy` the MXFP4 and INT8/INT4 block codecs, `LroundFast.dfy` the rounding to integers the latter use, and
`SimdLanes.dfy` the AVX-512 BF16 lane and nibble networks.
`Bits.dfy`, `Arithmetic.dfy` and `Common.dfy` are shared.

`dafny verify dfyconfig.toml` checks the whole project.

## How the model reads the program

- Operations that hold the bridge's mutex are methods; `release` is also a step that interleaves with the sweep. A
  client stores only through a view of a live tenant it has pinned.
- `acquireFP32` has no kind check: on a micro-tenant's handle it returns the whole shared slot. Disjointness of views is
  stated for full handles and for `acquireMicroFP32`, and a client stores to a micro-tenant only within its sub-slot.
- A slot is released only by its owner, and a handle is not destroyed while it is being released: the program's
  validate-then-bump and lookup-then-exchange pairs rely on it.
- `Inv` in `BridgeInvariant.dfy` names an owner for every slot in a ledger; slots an operation has allocated and not
  yet bound are in flight, and none are between operations.
- `FtzDazGuard` makes arithmetic read denormals as zeros on x86-64 and ARM64 and does nothing elsewhere. The MXFP4
  encoder and the IQ2_XXS sign loop take this as a parameter. Where denormals are flushed, half the scale no longer bounds
  the error of one above 2^-127 in a block whose exponent is clamped from below (`GuardedErrorBound`, with an input in
  `FlushedBlock`).
- Where an operation is interrupted by a failing codec the cold slot it took is given back, so its version has moved by
  two; the model keeps that.
- Shifts and masks of the float code are divisions and remainders by powers of two on natural numbers; the handle
  word, the K-quant bytes and the sign codes are bit-vectors.

## Where the code and its comments differ

The model follows the code.

- `fp32ToFP16Safe`: 0x33000000 is 2^-25, not 2^-24 as the comment says, and 0x32800000 is 2^-26. Magnitudes in
  [2^-26, 2^-25) therefore get the least subnormal, though zero is nearest (`FP16IsOffByOne`), and the order of codes
  inverts against 2^-25 itself (`FP16IsMonotoneExactly`). The saturation threshold 0x47800000 is 65536, not 65520.
- `fp32ToFP8_E5M2_Safe`: 0x477F0000 is 65280, not 61440, and in `fp32ToFP8_E4M3_Safe` the exponent field reaches 15, not
  14. Both are harmless: the rounding branch saturates what the threshold lets through.
- `acquire` is said to make starvation impossible. A lone caller is refused with slots free if and only if its first 4 * k
  `compare_exchange_weak` calls fail spuriously, k being the number of non-zero words (`RefusedExactly`);
  `RefusedWithFreeSlots` gives such a schedule for every number of words. Under contention no spurious failure is needed
  (`RefusedUnderContention`); `RefusalMeans` says what the answer is worth.
- `acquireMicroFP32` says that destroyTenant checks the pin count; it does not. It succeeds on every live tenant
  (`DestroySucceedsExactly`) and gives a pinned tenant's slot back (`DestroyEndsViews`, with an input in
  `DestroyWhilePinned`); a pinned micro-tenant's bytes can be handed to the next one while its view is held
  (`DestroyEndsMicroViews`, `SubSlotHandedOn`, `MicroViewHandedOn`). A view lasts while the tenant is pinned, sealed or
  micro and is not destroyed (`PinnedStays`, `ProtectedStays`).
- `lroundHalfAwayFast` is said to match `std::lround` bit for bit on every finite input. For 0x3EFFFFFF, just under one
  half, the sum with 0.5f rounds to 1 and so does the answer; the same tie is met by the odd integers from 2^23 to 2^24,
  and by nothing else that fits an int32 (`FastIsHalfAwayExactly`, `WhereItFails`).
- The comment on `kMaxSharedSlots` speaks of rounding up to MaxTenants; the value is ceil(MaxTenants / kSubSlotsPerSlot),
  and `EmptyEntryExists` shows that it suffices.

## Model

| member | source | states |
|---|---|---|
| GenIds.FieldsDetermineWord | include/qtx/arena/gen_id.hpp:208-243 | two 64-bit handles with equal fields are equal: the seven bit fields cover the word without overlap |
| GenIds.WordFromFields | include/qtx/arena/gen_id.hpp:208-243 | the seven accessors' values, shifted back to their positions, rebuild the word |
| GenIds.MakeRoundTrip | include/qtx/arena/gen_id.hpp:185-204 | every in-range field given to make comes back from its accessor, quantisation and state cut to their widths, sub-slot and metadata zero; an out-of-range slot, version or alignment gives the null handle |
| GenIds.SettersTouchOneField | include/qtx/arena/gen_id.hpp:251-315 | each with-setter changes its own field and no other; out-of-range sub-slot, metadata and alignment values leave the handle as it was |
| GenIds.BumpVersionWraps | include/qtx/arena/gen_id.hpp:309-315 | bumpVersion adds one modulo 2^16 to the version and touches no other field |
| SelectorSpec.PickFailsOnlyWhenFull | include/qtx/selector/axiom_selector.hpp:192-265 | an undisturbed acquire answers kNoSlot exactly when every word is zero, whatever word the thread starts at |
| SelectorSpec.PickIsFree | include/qtx/selector/axiom_selector.hpp:212-248 | the slot handed out was free |
| SelectorSpec.PickIsFirst | include/qtx/selector/axiom_selector.hpp:192-248 | it is the lowest free slot of the first word that has one, going round from word tid % kWords |
| SelectorSpec.TakeEffect | include/qtx/selector/axiom_selector.hpp:226-241 | taking a slot occupies that slot and changes no other |
| SelectorSpec.GiveBackEffect | include/qtx/selector/axiom_selector.hpp:272-281 | releasing a slot frees that slot and changes no other |
| SelectorSpec.FreeCountIsCardinality | include/qtx/selector/axiom_selector.hpp:299-306 | the summed popcounts are the number of free slots |
| Selector.AxiomSelector.constructor | include/qtx/selector/axiom_selector.hpp:142-156 | every slot of a new selector is free |
| Selector.AxiomSelector.Acquire | include/qtx/selector/axiom_selector.hpp:192-265 | the two-pass loop returns the specified slot or kNoSlot, and changes exactly that bit |
| Selector.AxiomSelector.Release | include/qtx/selector/axiom_selector.hpp:272-281 | frees the slot; out-of-range slots are ignored |
| Selector.AxiomSelector.CountFree | include/qtx/selector/axiom_selector.hpp:299-306 | the loop returns the number of free slots |
| SelectorSteps.StepKeepsInv | include/qtx/selector/axiom_selector.hpp:192-281 | every load, compare-exchange (spurious failures included), return and release of any thread keeps: a held slot is occupied, no slot has two holders, an occupied slot has a holder, and the retry budget |
| SelectorSteps.SelectorIsSafe | include/qtx/selector/axiom_selector.hpp:192-281 | over every schedule of every number of threads: no slot is held twice, a slot is free exactly when nobody holds it, free plus held slots is the capacity, and no acquire makes more than 4 * kWords compare-exchanges |
| SelectorSteps.FreePlusHeldIsCapacity | include/qtx/selector/axiom_selector.hpp:299-306 | freeCount plus the slots held by all threads is the capacity |
| SelectorSteps.OccupiedMeansHeld | include/qtx/selector/axiom_selector.hpp:290-297 | after any schedule of any number of threads isOccupied answers true exactly of the slots some thread holds |
| SelectorAlone.RefusedExactly | include/qtx/selector/axiom_selector.hpp:192-265 | on any number of words, from any start word, with any pattern of spurious failures: an acquire nobody disturbs is refused if and only if its first 4 * k compare-exchanges all fail spuriously, k being the number of non-zero words; refused it has changed nothing, otherwise it holds one more slot, which was free |
| SelectorAlone.FewFailuresSucceed | include/qtx/selector/axiom_selector.hpp:192-265 | so with fewer than 4 * k spurious failures, whenever they strike, the caller gets a slot; with a slot free three are never too many |
| SelectorAlone.UndisturbedAcquire | include/qtx/selector/axiom_selector.hpp:192-265 | if its first compare-exchange does not fail spuriously, it takes the slot the sequential selector takes, and is refused only when every word is zero |
| SelectorAlone.RefusedWithFreeSlots | include/qtx/selector/axiom_selector.hpp:192-265 | for any number of words with a free slot there is a schedule of one thread alone that ends refused with every free slot still there |
| SelectorAlone.ScheduleIsAlone | include/qtx/selector/axiom_selector.hpp:192-265 | every schedule of loads and compare-exchanges by one thread is covered by these theorems, for the failures it contains |
| SelectorAlone.LapMeetsAll | include/qtx/selector/axiom_selector.hpp:202-208 | a circular pass meets every non-zero word once, whatever word it starts at |
| SelectorRefusal.RefusalMeans | include/qtx/selector/axiom_selector.hpp:192-265 | whatever any number of other threads do, a refused acquire found every word zero or lost two compare-exchanges on it, to another thread's change or to a spurious failure, in each of its two passes |
| SelectorRefusal.RefusedUnderContention | include/qtx/selector/axiom_selector.hpp:192-265 | a schedule of two threads with no spurious failure in which one is refused and every slot that was free is free at the end |
| ArenaSpec.AllocateEffect | include/qtx/arena/fractal_arena.hpp:120-159 | a refused allocation changes nothing and means unacceptable arguments or a full arena; otherwise one free slot becomes occupied, its version moves by one, the handle validates and no byte changes |
| ArenaSpec.AllocateExactly | include/qtx/arena/fractal_arena.hpp:120-159 | allocate succeeds exactly for a size that fits, an alignment 2^k up to the slot size and a free slot; the handle carries the slot, its new version, k, format code 0 and state code 1 |
| ArenaSpec.RefusedChangesNothing | include/qtx/arena/fractal_arena.hpp:263-295 | release succeeds exactly on a valid handle, zeroizeSubSlot exactly on one whose sub-slot exists; refused, they change nothing |
| ArenaSpec.AllocateYieldsZeros | include/qtx/arena/fractal_arena.hpp:120-159 | a freshly allocated slot reads as zero, whoever used it before |
| ArenaSpec.ReleaseEffect | include/qtx/arena/fractal_arena.hpp:276-295 | release zeroes the slot, moves its version by one, frees it, and touches no other slot |
| ArenaSpec.ZeroizeSubIsLocal | include/qtx/arena/fractal_arena.hpp:263-268 | zeroizeSubSlot clears exactly its own range, and neither a version nor an occupancy bit |
| ArenaSpec.SubRange | include/qtx/arena/fractal_arena.hpp:202-240 | every sub-slot index below subSlotCount names a range inside the slot |
| ArenaSpec.SubSlotsDisjoint | include/qtx/arena/fractal_arena.hpp:227-240 | different sub-slots of a slot share no byte |
| ArenaSpec.StepKeepsInv | include/qtx/arena/fractal_arena.hpp:120-312 | every operation keeps: occupied exactly when the version is odd, and every free slot is all zero |
| ArenaSpec.RunKeepsInv | include/qtx/arena/fractal_arena.hpp:120-312 | the same in every reachable state |
| ArenaSpec.RunVersion | include/qtx/arena/fractal_arena.hpp:143-158 | over any run a slot's version moves by two per completed cycle, modulo 2^16 |
| ArenaSpec.OldHandleValidatesExactly | include/qtx/arena/fractal_arena.hpp:300-312 | after any run an old handle validates if and only if its slot is occupied and was handed out again a multiple of 32768 times |
| FractalArenas.FractalArena.constructor | include/qtx/arena/fractal_arena.hpp:102-110 | a new arena has every slot free, version zero and zero bytes |
| FractalArenas.FractalArena.Validate | include/qtx/arena/fractal_arena.hpp:300-312 | agrees with the specification on every handle |
| FractalArenas.FractalArena.Allocate | include/qtx/arena/fractal_arena.hpp:120-159 | computes the specified allocation on the flat buffer, the version array and the selector |
| FractalArenas.FractalArena.View | include/qtx/arena/fractal_arena.hpp:164-171 | the slot's whole range for a valid handle, the empty span otherwise |
| FractalArenas.FractalArena.SubSlotCount | include/qtx/arena/fractal_arena.hpp:202-225 | the one number of pieces of the given size, in whole 128-byte lines, that tile the slot exactly, and zero when no number does |
| ArenaSpec.CountTiles | include/qtx/arena/fractal_arena.hpp:202-225 | the same of the specification |
| FractalArenas.FractalArena.ViewSubSlot | include/qtx/arena/fractal_arena.hpp:227-240 | the sub-slot's range for a valid handle and index, the empty span otherwise |
| FractalArenas.FractalArena.ZeroizeSubSlot | include/qtx/arena/fractal_arena.hpp:263-268 | computes the specified wipe on the flat buffer |
| FractalArenas.FractalArena.Release | include/qtx/arena/fractal_arena.hpp:276-295 | computes the specified release: wipe, bump, give back |
| FractalArenas.FractalArena.UsedSlots | include/qtx/arena/fractal_arena.hpp:320-322 | capacity less the number of free slots |
| FractalArenas.SlotsAfterStore | include/qtx/arena/fractal_arena.hpp:164-171 | a store inside one slot's range of the flat buffer changes that slot's bytes and no other slot |
| TieredBridge.TieredArenaBridge.constructor | include/qtx/tiered/tiered_bridge.hpp:267-268 | a bridge over empty arenas starts in the state from which everything below holds |
| TieredBridge.TieredArenaBridge.AcquireRecord | include/qtx/tiered/tiered_bridge.hpp:960-968 | the first record not in use, if any |
| TieredBridge.TieredArenaBridge.FindTenantLocked | include/qtx/tiered/tiered_bridge.hpp:1002-1011 | the first in-use record with the id, and -1 only if no record in use carries it or the id is reserved |
| TieredBridge.TieredArenaBridge.FindTenantLockfree | include/qtx/tiered/tiered_bridge.hpp:1016-1026 | the same, skipping dead records |
| TieredBridge.TieredArenaBridge.NextTenantId | include/qtx/tiered/tiered_bridge.hpp:985-1000 | the least number above every id given out before that is not a reserved one |
| TieredBridge.TieredArenaBridge.BumpAccessTime | include/qtx/tiered/tiered_bridge.hpp:1047-1063 | takes a ticket and stores it if newer, touching nothing else |
| TieredBridge.TieredArenaBridge.OldestEligible | include/qtx/tiered/tiered_bridge.hpp:1071-1098 | the sweep loop finds the specified victim |
| TieredBridge.TieredArenaBridge.EvictOldestToColdLocked | include/qtx/tiered/tiered_bridge.hpp:1071-1123 | the new state of both arenas, every record and every counter, on success and on every failure path |
| TieredBridge.TieredArenaBridge.AllocateHot | include/qtx/tiered/tiered_bridge.hpp:290-303 | the allocate-and-evict retry loop, with the state it leaves on failure |
| TieredBridge.TieredArenaBridge.CreateTenant | include/qtx/tiered/tiered_bridge.hpp:282-325 | the whole new state and the handle, on success and on every failure path |
| TieredBridge.TieredArenaBridge.DestroyTenant | include/qtx/tiered/tiered_bridge.hpp:327-426 | the whole new state and the answer, for full and micro tenants and the guarded paths |
| TieredBridge.TieredArenaBridge.AcquireFP32 | include/qtx/tiered/tiered_bridge.hpp:432-490 | the whole new state and the span handed out, promotion and its failures included |
| TieredBridge.TieredArenaBridge.Release | include/qtx/tiered/tiered_bridge.hpp:494-510 | takes one pin off a live tenant that has one, and changes nothing else |
| TieredBridge.TieredArenaBridge.SealTenant | include/qtx/tiered/tiered_bridge.hpp:528-542 | seals a live tenant and changes nothing else |
| TieredBridge.TieredArenaBridge.TakeSubSlot | include/qtx/tiered/tiered_bridge.hpp:632-668 | the rotating scan finds the specified entry and sets its lowest clear bit |
| TieredBridge.TieredArenaBridge.CreateMicroTenant | include/qtx/tiered/tiered_bridge.hpp:567-729 | the whole new state and the handle, on success and on every failure path |
| TieredBridge.TieredArenaBridge.AcquireMicroFP32 | include/qtx/tiered/tiered_bridge.hpp:731-768 | the whole new state and the span handed out |
| TieredBridge.TieredArenaBridge.HotUsed | include/qtx/tiered/tiered_bridge.hpp:774-774 | full tenants in the hot tier plus shared entries that hold a slot |
| TieredBridge.TieredArenaBridge.ColdUsed | include/qtx/tiered/tiered_bridge.hpp:775-775 | tenants in the cold tier |
| BridgeLookup.LookupExactly | include/qtx/tiered/tiered_bridge.hpp:1002-1026 | on any records the lookups fail exactly when no record in use (and not dead, for the lock-free one) carries the id, and for the two reserved ids |
| BridgeLookup.FoundExactly | include/qtx/tiered/tiered_bridge.hpp:1002-1026 | in a reachable state both find record i exactly when it is in use under the id, and one record at most is |
| BridgeLookup.ReleaseExactly | include/qtx/tiered/tiered_bridge.hpp:494-510 | release succeeds exactly on a tenant with a pin, then exactly that record's pins drop by one; otherwise nothing changes |
| BridgeLookup.SealExactly | include/qtx/tiered/tiered_bridge.hpp:528-542 | sealTenant succeeds exactly on the ids of live tenants, whatever their pins, tier and kind, then that record is sealed and nothing else changes |
| BridgeEffects.RunHolds | include/qtx/tiered/tiered_bridge.hpp:282-768 | over any run a record keeps its id exactly until the run destroys it |
| BridgeEffects.CreatedIsFound | include/qtx/tiered/tiered_bridge.hpp:282-325 | the id createTenant returned names its record over any run exactly until it is destroyed |
| BridgeEffects.MicroCreatedIsFound | include/qtx/tiered/tiered_bridge.hpp:567-729 | the same of createMicroTenant |
| BridgeEffects.UnknownIsRefused | include/qtx/tiered/tiered_bridge.hpp:327-768 | an id that names nobody is refused by every operation and nothing changes |
| BridgeEffects.CreateEffect | include/qtx/tiered/tiered_bridge.hpp:282-325 | createTenant succeeds exactly when a record is free and a hot slot is free or the longest unused unpinned unsealed full hot tenant can go; the first free record is filled under the id returned, and only that tenant is touched, if no slot was free; failing, it touches no tenant |
| BridgeEffects.CreateMicroEffect | include/qtx/tiered/tiered_bridge.hpp:567-729 | createMicroTenant succeeds exactly when a record is free and there is a hole, a free hot slot or that tenant can go; it fills the lowest hole of the first entry that has one, going round from the scan's start, or opens an empty entry at sub-slot 0; failing, it touches no tenant |
| BridgeEffects.ScanFindsHole | include/qtx/tiered/tiered_bridge.hpp:615-668 | the rotating scan finds the first entry with a clear bit, going round from its start, and its lowest one |
| BridgeEffects.AcquireHotEffect | include/qtx/tiered/tiered_bridge.hpp:432-490 | on a hot tenant, sealed or not, one pin more, the newest access time and the whole slot, or a refusal at 2^31 pins that changes nothing |
| BridgeEffects.AcquireColdEffect | include/qtx/tiered/tiered_bridge.hpp:432-490 | on a cold tenant the exact condition, the record made hot with one pin, and the one tenant evicted for it; failing, the tenant is as it was |
| BridgeEffects.AcquireMicroEffect | include/qtx/tiered/tiered_bridge.hpp:731-768 | the same state change on a micro-tenant, and its own 128 bytes |
| BridgeEffects.DestroyEffect | include/qtx/tiered/tiered_bridge.hpp:327-426 | exactly that record leaves use; a full tenant's slot is freed and wiped in its tier and no other slot changes; a micro-tenant's bit is cleared and an emptied entry gives up its slot |
| BridgeEffects.ReleasesTakePins | include/qtx/tiered/tiered_bridge.hpp:494-510 | n releases take n pins, the last one included, and change nothing else |
| BridgeEffects.PinsComeBack | include/qtx/tiered/tiered_bridge.hpp:474-510 | as many releases as acquires bring the pins back, to none and within reach of the sweep if there were none |
| BridgeEffects.SealKeepsHot | include/qtx/tiered/tiered_bridge.hpp:528-542 | sealing a hot tenant, pinned or not, keeps it in its slot over any run that does not destroy it |
| BridgeInvariant.TakeHot | include/qtx/arena/fractal_arena.hpp:120-159 | allocating a hot slot keeps the ownership invariant with the slot in flight |
| BridgeInvariant.DropHot | include/qtx/arena/fractal_arena.hpp:276-295 | releasing an in-flight hot slot keeps the ownership invariant |
| BridgeOwnership.EvictKeeps | include/qtx/tiered/tiered_bridge.hpp:1071-1123 | eviction, succeeding or failing anywhere, keeps the ownership invariant |
| BridgeOwnership.CreateTenantKeeps | include/qtx/tiered/tiered_bridge.hpp:282-325 | createTenant keeps it on every path |
| BridgeOwnership.DestroyTenantKeeps | include/qtx/tiered/tiered_bridge.hpp:327-426 | destroyTenant keeps it on every path, for pinned tenants too |
| BridgeOwnership.AcquireFP32Keeps | include/qtx/tiered/tiered_bridge.hpp:432-490 | acquireFP32 keeps it, promotion and failed promotion included |
| BridgeOwnership.CreateMicroTenantKeeps | include/qtx/tiered/tiered_bridge.hpp:567-729 | createMicroTenant keeps it on every path |
| BridgeOwnership.StepKeeps | include/qtx/tiered/tiered_bridge.hpp:282-768 | every operation, release and client store keeps it: each full tenant holds one valid slot in the tier its state names, each non-empty shared entry one valid hot slot, each set bit belongs to one live micro record, no slot has two owners, live ids and access times are pairwise distinct |
| BridgeOwnership.RunKeepsOwned | include/qtx/tiered/tiered_bridge.hpp:282-768 | the same in every reachable state |
| BridgeOwnership.PristineOwned | include/qtx/tiered/tiered_bridge.hpp:267-268 | a bridge over empty arenas satisfies it |
| BridgeOwnership.EvictFrame | include/qtx/tiered/tiered_bridge.hpp:1071-1123 | eviction changes at most eligible records, and only their tier and handles |
| BridgeCounting.HotUsedConserved | include/qtx/tiered/tiered_bridge.hpp:774-774 | in every reachable state hotUsed is full hot tenants plus non-empty shared entries |
| BridgeCounting.ColdUsedConserved | include/qtx/tiered/tiered_bridge.hpp:775-775 | in every reachable state coldUsed is the tenants in the cold tier |
| BridgeCounting.SiblingsAreBits | include/qtx/tiered/tiered_bridge.hpp:362-415 | a shared entry has as many set bits as live siblings |
| BridgeCounting.MicrosConserved | include/qtx/tiered/tiered_bridge.hpp:905-906 | the set bits of all entries are the live micro-tenants |
| BridgeCounting.EmptyEntryExists | include/qtx/tiered/tiered_bridge.hpp:687-704 | if a record is free and every live entry is full, an empty entry exists, by counting against ceil(MaxTenants / kSubSlotsPerSlot) |
| BridgeCounting.FailSafeBranchUnreachable | include/qtx/tiered/tiered_bridge.hpp:699-704 | the "should not happen" branch of createMicroTenant is never taken from a reachable state |
| BridgeMicro.GuardsNeverFire | include/qtx/tiered/tiered_bridge.hpp:378-401 | the corrupted-index guards of destroyTenant never fire from a reachable state |
| BridgeMicro.ExtentsDisjoint | include/qtx/arena/fractal_arena.hpp:227-240 | no two live tenants are handed a common byte, and every view lies inside its slot |
| BridgeMicro.AcquiredMicroViewIsExtent | include/qtx/tiered/tiered_bridge.hpp:731-768 | on the record with the id acquireMicroFP32 succeeds exactly if it is a micro-tenant under the pin limit, and returns that tenant's own bytes |
| BridgeMicro.AcquiredFullViewIsExtent | include/qtx/tiered/tiered_bridge.hpp:485-489 | the view acquireFP32 returns is the whole slot of the record with the id: a full tenant's own bytes |
| BridgeMicro.WholeSharedSlot | include/qtx/tiered/tiered_bridge.hpp:485-489 | on a micro-tenant's id it is the whole shared slot, its siblings' sub-slots included |
| BridgeMicro.HoleBeforeFreshSlot | include/qtx/tiered/tiered_bridge.hpp:622-668 | while some live entry has a hole a new micro-tenant fills the lowest hole of one and no slot is allocated |
| BridgeMicro.FirstMicroViewIsZero | include/qtx/tiered/tiered_bridge.hpp:723-728 | a new micro-tenant's first view is all zero |
| BridgeMicro.SlotFreedWithLastSibling | include/qtx/tiered/tiered_bridge.hpp:402-415 | the shared slot is released exactly when the destroyed micro-tenant was the last sibling |
| BridgeAllocation.VictimIsOldest | include/qtx/tiered/tiered_bridge.hpp:1071-1098 | the victim is eligible and no eligible tenant is older |
| BridgeAllocation.VictimIsUnique | include/qtx/tiered/tiered_bridge.hpp:1071-1098 | in a reachable state the victim is the one eligible tenant with the least access time |
| BridgeAllocation.EvictSucceedsExactly | include/qtx/tiered/tiered_bridge.hpp:1071-1123 | eviction succeeds if and only if an eligible victim exists, the cold tier has a free slot and the codec fills its bound |
| BridgeAllocation.AllocHotIsAllocOnce | include/qtx/tiered/tiered_bridge.hpp:290-303 | the retry loop never needs a second eviction |
| BridgeAllocation.CreateSucceedsExactly | include/qtx/tiered/tiered_bridge.hpp:282-325 | createTenant succeeds if and only if a record is free and the hot tier has a free slot or can evict |
| BridgeAllocation.PromoteSucceedsExactly | include/qtx/tiered/tiered_bridge.hpp:443-472 | promotion succeeds if and only if the hot tier has room or can evict another tenant and decompression fills the slot; a failed one leaves the tenant's record as it was |
| BridgeAllocation.FullTiersBlockPromotion | include/qtx/tiered/tiered_bridge.hpp:443-472 | with both tiers full no cold tenant can be promoted |
| BridgeAllocation.AcquireSucceedsExactly | include/qtx/tiered/tiered_bridge.hpp:432-490 | on any record in use with the id acquireFP32 returns a view if and only if it is hot and not over-pinned, or cold and promotable |
| BridgePayload.EvictContent | include/qtx/tiered/tiered_bridge.hpp:1100-1122 | an eviction passes the victim's bytes through the codec once and keeps every other tenant's |
| BridgePayload.AllocHotContent | include/qtx/tiered/tiered_bridge.hpp:290-303 | allocating with eviction keeps every other tenant's bytes, but for the one evicted |
| BridgePayload.PromoteContent | include/qtx/tiered/tiered_bridge.hpp:443-472 | promotion restores the decompressed bytes of the tenant, a failed one leaves them, and other tenants' are kept but for one evicted |
| BridgePayload.CreateMicroContent | include/qtx/tiered/tiered_bridge.hpp:567-729 | creating a micro-tenant disturbs no sibling's and no other tenant's bytes |
| BridgePayload.WriteContent | include/qtx/tiered/tiered_bridge.hpp:485-489 | a store through a view changes that tenant's bytes and nobody else's |
| BridgeRefinement.StepRefines | include/qtx/tiered/tiered_bridge.hpp:282-768 | one operation of the bridge is one operation of a map from records to last-written bytes and evictions since |
| BridgeRefinement.RunRefines | include/qtx/tiered/tiered_bridge.hpp:282-768 | over any run every tenant's bytes are the last written ones with decompress after compress applied once per eviction since |
| BridgeRefinement.AcquireShowsCell | include/qtx/tiered/tiered_bridge.hpp:432-490 | the view acquireFP32 returns reads exactly that |
| BridgeRefinement.AcquireMicroShowsCell | include/qtx/tiered/tiered_bridge.hpp:731-768 | the view acquireMicroFP32 returns reads the last bytes written, with no eviction counted |
| BridgeRefinement.RunShowsCell | include/qtx/tiered/tiered_bridge.hpp:282-768 | after any run the view of a full tenant reads its last written bytes, through the codec once per eviction since |
| BridgeRefinement.LosslessIsInvisible | include/qtx/tiered/cold_codec.hpp:56-88 | after any run, with a codec lossless on whole slots, the view of a full tenant reads the last bytes written, however often it was evicted |
| BridgeRefinement.LosslessFromEmpty | include/qtx/tiered/tiered_bridge.hpp:267-768 | the same of every run from empty arenas |
| BridgeRefinement.IdempotentLosesOnce | include/qtx/tiered/cold_codec.hpp:56-88 | after any run, with an idempotent codec, the view reads the last bytes written if the tenant was not evicted since, and one round trip of them otherwise |
| BridgeRefinement.MicroNeverAges | include/qtx/tiered/tiered_bridge.hpp:731-768 | after any run the view of a micro-tenant reads its last bytes written, whatever the codec |
| BridgeStats.RunCounts | include/qtx/tiered/tiered_bridge.hpp:1121-1121 | over any run the evictions and promotions counters move by the number of tenants that changed tier |
| BridgeStats.RunScans | include/qtx/tiered/tiered_bridge.hpp:615-626 | over any run the micro-tenant scans start at consecutive entries, round and round |
| BridgeHandles.StepRecords | include/qtx/tiered/tiered_bridge.hpp:282-768 | a step moves a surviving record's pins by one up for an acquire that returned a view and by one down for a release naming a pinned record, seals it when a seal names it, and never changes its id or kind; a new record starts unpinned and unsealed under an id never given out before |
| BridgeHandles.NextIdIsFresh | include/qtx/tiered/tiered_bridge.hpp:985-1000 | the next id is not reserved, belongs to no live tenant and was never given out and destroyed |
| BridgeHandles.DestroyedNeverReturns | include/qtx/tiered/tiered_bridge.hpp:327-426 | once destroyed, a handle finds no tenant after any further run |
| BridgeHandles.RunKeepsPins | include/qtx/tiered/tiered_bridge.hpp:474-510 | a live tenant's pin count is its acquires that returned a view less the releases that named it while it had a pin |
| BridgeHandles.PinnedStays | include/qtx/tiered/tiered_bridge.hpp:1074-1091 | a hot tenant on which a client holds a pin before every operation of a run, by the client's own count of acquires and releases, and which is not destroyed, keeps its slot: the view held is still that tenant's extent |
| BridgeHandles.ProtectedStays | include/qtx/tiered/tiered_bridge.hpp:1074-1091 | the same of a tenant that is pinned, sealed or micro before every operation |
| BridgeHandles.DestroySucceedsExactly | include/qtx/tiered/tiered_bridge.hpp:327-426 | destroyTenant succeeds if and only if some record in use carries the id, whatever its pins |
| BridgeHandles.DestroyEndsViews | include/qtx/tiered/tiered_bridge.hpp:327-426 | destroying a hot full tenant, pinned or not, leaves its slot zeroed and free and its handle invalid |
| BridgeHandles.DestroyWhilePinned | include/qtx/tiered/tiered_bridge.hpp:282-490 | an input: the first tenant of an empty bridge, acquired and destroyed, ends with its view on a free slot |
| BridgeHandles.DestroyEndsMicroViews | include/qtx/tiered/tiered_bridge.hpp:359-426 | destroying a micro-tenant, pinned or not, zeroes its bytes and clears its bit |
| BridgeHandles.SubSlotHandedOn | include/qtx/tiered/tiered_bridge.hpp:567-729 | if siblings remain, the freed sub-slot is the lowest hole of its entry and no other entry has one, the next micro-tenant gets exactly the bytes the old views name |
| BridgeHandles.MicroViewHandedOn | include/qtx/tiered/tiered_bridge.hpp:567-768 | an input: of two micro-tenants in an empty bridge the first is acquired and destroyed, and the next one is handed the bytes of the view still held |
| BridgeLru.StepKeepsOrder | include/qtx/tiered/tiered_bridge.hpp:1047-1063 | sorting live tenants by access time is a list in which creation and acquire move a tenant to the back and destruction removes it |
| BridgeLru.RunKeepsOrder | include/qtx/tiered/tiered_bridge.hpp:1047-1063 | the same over any run |
| BridgeLru.VictimIsLeastRecent | include/qtx/tiered/tiered_bridge.hpp:1071-1098 | the sweep's victim is the first eligible tenant of that list |
| BridgeLru.ProtectedKeepsSlot | include/qtx/tiered/tiered_bridge.hpp:1074-1091 | a hot tenant that is pinned, sealed or micro keeps its hot slot across any operation but its own destruction |
| BridgeLru.SealedStays | include/qtx/tiered/tiered_bridge.hpp:528-542 | a sealed hot tenant stays sealed in its slot over any run that does not destroy it |
| BridgeSweep.SweepIsSafe | include/qtx/tiered/tiered_bridge.hpp:1071-1098 | with lock-free releases between its steps the sweep ends on an eligible tenant at least as old as every tenant eligible at the start, and on none only if none was |
| BridgeSweep.VictimStaysEligible | include/qtx/tiered/tiered_bridge.hpp:1098-1122 | releases after the sweep leave the victim eligible |
| BridgeSweep.QuietSweep | include/qtx/tiered/tiered_bridge.hpp:1071-1098 | without interference the steps compute the victim of the sequential sweep |
| BridgeSweep.VictimIsFinalExactly | include/qtx/tiered/tiered_bridge.hpp:1071-1098 | the interleaved victim is the one an atomic sweep of the final records picks if and only if no record found ineligible became eligible behind the sweep and is older |
| BridgeSweep.NeitherStartNorEnd | include/qtx/tiered/tiered_bridge.hpp:1071-1098 | an input: three records and two releases for which the victim is neither the one of the start nor the one of the end |
| BridgeCommit.InterleavedEviction | include/qtx/tiered/tiered_bridge.hpp:1071-1123 | committing the victim of any interleaved sweep keeps the ownership invariant, succeeds exactly when the cold tier has room and the bytes compress to the bound, ages that tenant's bytes alone, leaves every tenant pinned, sealed, micro or skipped at the commit where it is, and moves no tenant younger than one eligible when the sweep began |
| BridgeCommit.UnpinIsRelease | include/qtx/tiered/tiered_bridge.hpp:494-510 | a step of the sweep in which a release lands is what release does to the records |
| BridgeCommit.CommitKeeps | include/qtx/tiered/tiered_bridge.hpp:1100-1122 | the commit keeps the ownership invariant whether the codec succeeds or not |
| BridgeCommit.CommitContent | include/qtx/tiered/tiered_bridge.hpp:1100-1122 | the commit passes the victim's bytes through the codec once and keeps everybody else's; a failed one keeps everybody's |
| SpscRing.CellsDiffer | include/qtx/ipc/spsc_ring_buffer.hpp:127-143 | positions less than a lap apart are different cells |
| SpscRing.StoreHitsNoUnreadCell | include/qtx/ipc/spsc_ring_buffer.hpp:127-143 | the cell being stored holds no unread value |
| SpscRing.StepKeepsInv | include/qtx/ipc/spsc_ring_buffer.hpp:127-199 | every load, half-copy and publication of either thread keeps the ring's invariant |
| SpscRing.AnswersAreTrue | include/qtx/ipc/spsc_ring_buffer.hpp:129-134 | a refused push saw a full ring and a refused pop an empty one at the step that loaded the other side's counter |
| SpscRing.MaskIsModulo | include/qtx/ipc/spsc_ring_buffer.hpp:139-139 | masking with a power-of-two capacity less one is the remainder |
| SpscRing.WrapRefines | include/qtx/ipc/spsc_ring_buffer.hpp:127-199 | a step with counters modulo 2^64 is the step with unbounded counters, because the capacity divides 2^64 |
| SpscRing.RingIsFifo | include/qtx/ipc/spsc_ring_buffer.hpp:127-212 | over every interleaving the popped values are the pushed ones, whole, in order and at most the capacity apart, and full and empty answers are true |
| SpscRing.SPSCRingBuffer.constructor | include/qtx/ipc/spsc_ring_buffer.hpp:97-100 | a new ring is empty |
| SpscRing.SPSCRingBuffer.TryPush | include/qtx/ipc/spsc_ring_buffer.hpp:127-143 | appends exactly when the ring is not full, whatever the cached counters |
| SpscRing.SPSCRingBuffer.TryPop | include/qtx/ipc/spsc_ring_buffer.hpp:189-199 | removes the oldest value exactly when the ring is not empty |
| FloatFormats.NearestMonotone | include/qtx/core/fpe_guard.hpp:226-240 | rounding to nearest even never reverses an order |
| FloatFormats.NearestUnique | include/qtx/core/fpe_guard.hpp:226-240 | the nearest code, ties to even, is unique |
| FloatFormats.NearestExists | include/qtx/core/fpe_guard.hpp:226-240 | every value has one |
| FloatEncoders.RoundsUpMeans | include/qtx/core/fpe_guard.hpp:350-356 | the round bit and the sticky bit decide as the dropped bits against half a step, ties to even |
| FloatRounding.BF16IsNearest | include/qtx/core/fpe_guard.hpp:242-274 | fp32ToBF16Safe rounds every finite magnitude to nearest even and saturates at the largest finite value |
| FloatRounding.FP16IsNearest | include/qtx/core/fpe_guard.hpp:298-389 | fp32ToFP16Safe does so for every finite magnitude outside [2^-26, 2^-25) |
| FloatRounding.FP16IsOffByOne | include/qtx/core/fpe_guard.hpp:319-328 | inside that interval it returns the least subnormal where the nearest code is zero |
| FloatRounding.E4M3IsNearest | include/qtx/core/fpe_guard.hpp:469-546 | fp32ToFP8_E4M3_Safe rounds every finite magnitude to nearest even and saturates at 448 |
| FloatRounding.E5M2IsNearest | include/qtx/core/fpe_guard.hpp:609-675 | fp32ToFP8_E5M2_Safe rounds every finite magnitude to nearest even and saturates at 57344 |
| FloatRounding.SignsApart | include/qtx/core/fpe_guard.hpp:242-274 | the encoders carry the sign bit over and treat the magnitude alone, NaNs and infinities included |
| FloatRounding.NonFiniteCodes | include/qtx/core/fpe_guard.hpp:242-625 | NaNs become quiet NaNs and infinities infinities of the format, signs kept; in E4M3, which has no infinity, 0x7E |
| FloatRounding.EncodersRoundToNearestEven | include/qtx/core/fpe_guard.hpp:242-675 | with signs: BF16, E4M3 and E5M2 are correct on every finite input, FP16 if and only if the magnitude is outside that interval |
| FloatRounding.EncodersAreMonotone | include/qtx/core/fpe_guard.hpp:242-675 | BF16, E4M3 and E5M2 never give a larger number a smaller code, nor does FP16 to two numbers outside the interval |
| FloatRounding.FP16InvertsExactlyAtHalf | include/qtx/core/fpe_guard.hpp:319-328 | FP16 codes of magnitudes are out of order exactly when the smaller is in the interval and the larger is 2^-25 |
| FloatRounding.FP16IsMonotoneExactly | include/qtx/core/fpe_guard.hpp:298-389 | with signs: FP16 reverses the order of two numbers if and only if they have one sign, the larger magnitude is 2^-25 and the smaller is in the interval |
| FloatDecoders.Normalise | include/qtx/core/fpe_guard.hpp:415-420 | the loop that normalises a subnormal ends with its leading one in place and counts the shifts |
| FloatDecoders.DecodeFP16 | include/qtx/core/fpe_guard.hpp:394-439 | the decoder with its loop computes the specified pattern on every code |
| FloatDecoders.DecodeE4M3 | include/qtx/core/fpe_guard.hpp:548-584 | the same |
| FloatDecoders.DecodeE5M2 | include/qtx/core/fpe_guard.hpp:677-712 | the same |
| FloatDecoders.NormalisedIsExact | include/qtx/core/fpe_guard.hpp:400-424 | the normalised FP32 number has the subnormal's value |
| FloatDecoders.DecodeIsExact | include/qtx/core/fpe_guard.hpp:390-439 | every finite code of every format decodes to an FP32 number of the same value |
| FloatDecoders.DecodeEncode | include/qtx/core/fpe_guard.hpp:394-712 | decode then encode is the identity on every code that is not a NaN |
| FloatDecoders.DecodeInRange | include/qtx/core/fpe_guard.hpp:424-433 | NaN codes decode to FP32 NaNs of the same sign |
| FloatDecoders.StreamRoundTrip | include/qtx/quantize/quantizer.hpp:389-453 | the same for streams of any length |
| FloatDecoders.CompressStream | include/qtx/quantize/quantizer.hpp:362-371 | the loop encodes every element and writes nothing beyond them |
| FloatDecoders.DecompressStream | include/qtx/quantize/quantizer.hpp:401-410 | the loop decodes every element, and without NaNs the result encodes back to the input |
| SimdBF16.LaneIsScalar | include/qtx/quantize/quantizer_simd.hpp:368-425 | an AVX-512 lane equals the scalar code if and only if the input is not a negative NaN |
| SimdBF16.CompressBF16 | include/qtx/quantize/quantizer_simd.hpp:427-439 | chunks of sixteen plus the scalar tail encode streams of any length, equal to the scalar stream when it has no negative NaN |
| ScalesK4.PackScalesMins | include/qtx/quantize/quantizer.hpp:1794-1827 | the twelve bytes of the format, shift by shift, from which unpackScaleMinK4 reads every 6-bit scale and minimum back |
| Q6K.PackBlock | include/qtx/quantize/quantizer.hpp:1673-1699 | the 210 bytes of the format, offset by offset: low nibbles at 0, high pairs at 128, scales at 192, factor at 208; the decoder reads all of it back |
| Q6K.UnpackQuants | include/qtx/quantize/quantizer.hpp:1729-1764 | the decoder's loops read every element by the specified expression |
| Q6K.PackStream | include/qtx/quantize/quantizer.hpp:1673-1699 | the same for any number of blocks, one after the other |
| Q5K.PackBlock | include/qtx/quantize/quantizer.hpp:1972-2002 | the 176 bytes of the format: factors at 0, scales and minimums at 4, mask at 16, low nibbles at 48; the decoder reads all of it back |
| Q5K.UnpackQuants | include/qtx/quantize/quantizer.hpp:2036-2060 | the decoder's loops with their moving masks read every element by the specified expression |
| Q5K.PackStream | include/qtx/quantize/quantizer.hpp:1972-2002 | the same for any number of blocks, one after the other |
| Q3K.PackScales | include/qtx/quantize/quantizer.hpp:2327-2346 | the twelve bytes of the format, shift by shift, from which the decoder reads every 6-bit scale back |
| Q3K.PackBlock | include/qtx/quantize/quantizer.hpp:2372-2398 | the 110 bytes of the format: mask at 0, low pairs at 32, scales at 96, factor at 108; the decoder reads all of it back |
| Q3K.UnpackQuants | include/qtx/quantize/quantizer.hpp:2445-2472 | the decoder's loops with their moving mask read every element by the specified expression |
| Q3K.PackStream | include/qtx/quantize/quantizer.hpp:2372-2398 | the same for any number of blocks, one after the other |
| SignCodes.TableIsEven | src/iq_codebooks.cpp:14-23 | every entry of ksigns_iq2xs keeps its index in the seven low bits and has even parity |
| SignCodes.TableRestores | include/qtx/quantize/quantizer.hpp:3319-3328 | an eight-bit mask of even parity comes back from its seven low bits |
| SignCodes.CodeSigns | include/qtx/quantize/quantizer.hpp:3211-3226 | the decoded signs are those the comparisons see, denormals reading as zero under the guard, but for one position of least magnitude when the minus signs seen are odd in number; a true sign is wrong exactly there or at a hidden negative denormal, unless both meet; the fitted values times the decoded signs are the input |
| SignCodes.WordRoundTrip | include/qtx/quantize/quantizer.hpp:3275-3282 | four sign codes and the scale come back from the packed 32-bit word |
| Mxfp4.EncodeMagnitude | include/qtx/core/fpe_guard.hpp:774-822 | the midpoint search computes the specified codepoint |
| Mxfp4.PointIsNearest | include/qtx/core/fpe_guard.hpp:774-822 | that codepoint is the nearest E2M1 magnitude, ties to even, saturating at 6 |
| Mxfp4.FieldIsExponent | include/qtx/quantize/quantizer.hpp:934-935 | the exponent field the encoder reads is the floor of the base-2 logarithm |
| Mxfp4.NibbleMeans | include/qtx/quantize/quantizer.hpp:984-1009 | bit 3 of a nibble is the sign and its low bits choose 0, 0.5, 1, 1.5, 2, 3, 4 or 6 times 2^(e - 127); exponent byte 0 stands for zeros and 255 is rejected |
| Mxfp4.BytesMean | include/qtx/quantize/quantizer.hpp:920-963 | the encoder writes the sign in bit 3, exponent byte 0 for zeros, 1 below 2^-124, and otherwise the e with the largest magnitude in [4, 8) times 2^(e - 127) |
| Mxfp4.ExponentInRange | include/qtx/quantize/quantizer.hpp:939-942 | the shared exponent is never the reserved byte and never clamped from above |
| Mxfp4.BlockErrorBound | include/qtx/quantize/quantizer.hpp:895-1012 | against the numbers as the arithmetic reads them: every number keeps its sign and errs by at most a quarter of the block's largest magnitude, or half the scale where the exponent is clamped from below |
| Mxfp4.BlockIsIdempotent | include/qtx/quantize/quantizer.hpp:895-1012 | a decoded block does not change when encoded and decoded again, no denormal being flushed |
| Mxfp4.GuardedErrorBound | include/qtx/quantize/quantizer.hpp:895-1012 | against the true numbers, with or without a processor that flushes denormals: the quarter bound holds; in a block clamped from below half the scale bounds the error if and only if the element is no flushed denormal above 2^-127, and the error is always under 2^-126 |
| Mxfp4.GuardedIdempotent | include/qtx/quantize/quantizer.hpp:895-1012 | a decoded block does not change when encoded and decoded again, with the guard too |
| Mxfp4.NoHalfUnderOne | include/qtx/quantize/quantizer.hpp:939-962 | under the guard no element of a block with exponent byte 1 is stored as half the scale |
| Mxfp4.FlushedBlock | include/qtx/quantize/quantizer.hpp:908-962 | an input: in a block whose largest word is 2^-126 the guard turns 0x00600000 into zero, more than half the scale off |
| Mxfp4.UnderflowIsZero | include/qtx/quantize/quantizer.hpp:956-959 | a product under a quarter, and so one that underflows, encodes to zero, which is nearest |
| Mxfp4.WordsAreBounded | include/qtx/quantize/quantizer.hpp:895-1012 | signs, fixed point and error bounds, the exact condition included, for every block of FP32 words, NaNs and infinities counting as zero |
| Mxfp4.BlockAbsMax | include/qtx/quantize/quantizer.hpp:915-919 | the loop finds the largest magnitude its comparisons see, denormals reading as zero under the guard |
| Mxfp4.EncodeBlock | include/qtx/quantize/quantizer.hpp:908-963 | the loops write the specified exponent and nibbles, two to a byte, of the numbers the arithmetic sees |
| IntBlocks.EncodeBlock | include/qtx/quantize/quantizer.hpp:219-251 | in exact reals the two loops compute the specified scale and quants |
| IntBlocks.RoundsHalfAway | include/qtx/core/fpe_guard.hpp:223-226 | in exact reals rounding sends ties away from zero, on both sides alike |
| IntBlocks.RoundingError | include/qtx/core/fpe_guard.hpp:223-226 | in exact reals rounding is off by at most a half |
| LroundFast.FastIsHalfAwayExactly | include/qtx/core/fpe_guard.hpp:216-226 | with the sum rounded as FP32 rounds it, lroundHalfAwayFast is rounding half away from zero on a magnitude below 2^31 if and only if it is neither the largest number under one half nor an odd integer from 2^23 to 2^24; there it answers one more |
| LroundFast.SumExists | include/qtx/core/fpe_guard.hpp:223-226 | that sum exists for every magnitude and is one code |
| LroundFast.WhereItFails | include/qtx/core/fpe_guard.hpp:216-226 | two such inputs: 0x3EFFFFFF gives 1 for 0, and 2^23 + 1 gives 2^23 + 2 |
| IntBlocks.ClampedBlock | include/qtx/quantize/quantizer.hpp:215-318 | in exact rationals over the clamp limit the limit sets the scale; numbers up to it come back within half a step and those beyond it take the outermost level of their sign |
| IntBlocks.LargestStored | include/qtx/quantize/quantizer.hpp:215-318 | in exact rationals a number of the largest magnitude of a block under the clamp is stored as 127 or -127 in INT8 and 7 or -7 in INT4 |
| IntBlocks.Int8BlockStored | include/qtx/quantize/quantizer.hpp:249-271 | a quant's byte is the quant modulo 256, and every quant is read back from it |
| IntBlocks.Int4BlockStored | include/qtx/quantize/quantizer.hpp:298-351 | byte k of a block is quant 2k modulo 16 plus 16 times quant 2k + 1 modulo 16, and every quant is read back |
| IntBlocks.QuantInRange | include/qtx/quantize/quantizer.hpp:247-249 | no quant leaves the symmetric range, clamped block or not |
| IntBlocks.ErrorBound | include/qtx/quantize/quantizer.hpp:215-318 | in exact rationals a number under the clamp limit comes back within half a scale step |
| IntBlocks.Reencodes | include/qtx/quantize/quantizer.hpp:215-359 | in exact rationals encoding a decoded block gives the same scale and quants |
| NibblePacking.BlockRoundTrip | include/qtx/quantize/quantizer.hpp:312-351 | 32 signed nibbles survive packing, and every 16 bytes survive unpacking |
| NibblePacking.PackVectorIsScalar | include/qtx/quantize/quantizer_simd.hpp:283-306 | the AVX-512 packing network writes the scalar packing's bytes |
| NibblePacking.UnpackVectorIsScalar | include/qtx/quantize/quantizer_simd.hpp:332-346 | the AVX-512 unpacking network reads the scalar unpacking's nibbles |

## Left out

- The ggml C bridge (`bridge.cpp`, `safety.hpp`): raw pointers, abort handlers and foreign allocation; its slot
  accounting is a weaker copy of the tiered bridge.
- Memory orders, fences, padding, pause and yield hints: steps are sequentially consistent.
- Thread-id hashing: a thread's start word is an arbitrary parameter.
- Wrap-around of the bridge's 64-bit clock and tenant-id counter after 2^64 operations.
- A bridge built on null arenas, whose operations all answer failure.
- Codecs that read or write anything but their byte ranges; a codec here is a pair of functions on bytes, and reports
  success by writing the expected number of them.
- `size()` and `full()` of the ring and `stats()` of the bridge while other threads run: unsynchronised telemetry.
- The back-off loops `wait_push` and `wait_pop`, which repeat the modelled calls.
- The FP control registers. What they do to denormals is modelled in the MXFP4 encoder and the IQ2_XXS sign loop; the
  other floating-point encoders under FtzDazGuard, INT8 and INT4 among them, are not modelled with it.
- EncodeBlock: the INT8 and INT4 encoder in exact reals; the FP32 rounding of its products and the replacement of NaNs
  and infinities by zero are not modelled.
- RoundingError: exact reals; the FP32 sum is off by one where `FastIsHalfAwayExactly` says.
- ErrorBound: exact rationals; the rounding FP32 makes of the scale, its inverse and the products is not modelled.
- Reencodes: exact rationals, as above.
- BlockErrorBound: against the numbers after flushing; `GuardedErrorBound` has the true ones. Products with the inverse
  scale, a power of two, are taken as exact; those that underflow encode to zero either way (`UnderflowIsZero`).
- How the K- and I-quant encoders choose scales and quants, the I-quant grids, and the Q4_K and Q2_K layouts, which use the
  same packing expressions as those modelled.
- The byte order of multi-byte fields; streams are sequences of 32-bit words and codes.
- Equality of scalar and vector INT8 and INT4 quantised values, whose ties round differently.
- INT8 dot products, the runtime codec registry, size helpers and configuration clamping.
