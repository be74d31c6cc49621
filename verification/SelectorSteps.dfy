/** The selector under any interleaving (include/qtx/selector/axiom_selector.hpp): every load, every
    compare-exchange (which may fail spuriously) and every fetch_or is one step of one thread, in
    sequentially consistent order.  A thread releases only slots it holds. */
module SelectorSteps {
  import opened BitWords
  import opened Common
  import opened SelectorSpec

  const MAX_RETRIES: nat := 2
  const PASSES: nat := 2

  /** Where a thread stands: outside acquire(), having just been refused, about to load word number
      `i` of its lap, or about to compare-exchange that word against `expected`. */
  datatype Pc =
    | Idle
    | Refused
    | Scan(pass: nat, i: nat)
    | Try(pass: nat, i: nat, expected: nat, retries: nat)

  /** `attempts` counts the compare-exchanges of the current acquire(). */
  datatype Thread = Thread(start: nat, held: set<nat>, pc: Pc, attempts: nat)

  datatype System = System(words: seq<nat>, threads: seq<Thread>)

  datatype Event =
    | Begin(t: nat)
    | Load(t: nat)
    | Cas(t: nat, spurious: bool)
    | GiveUp(t: nat, slot: nat)

  predicate Valid(s: System) {
    ValidWords(s.words) && forall t :: 0 <= t < |s.threads| ==> s.threads[t].start < |s.words|
  }

  /** The word loop's step to the next word, the next pass, or kNoSlot. */
  function NextPc(pass: nat, i: nat, kWords: nat): Pc {
    if i + 1 < kWords then Scan(pass, i + 1) else if pass + 1 < PASSES then Scan(pass + 1, 0) else Refused
  }

  function WordIndex(s: System, t: nat): (w: nat)
    requires Valid(s) && t < |s.threads|
    requires (s.threads[t].pc.Scan? || s.threads[t].pc.Try?) && s.threads[t].pc.i < |s.words|
    ensures w < |s.words|
  {
    Around(s.threads[t].start, s.threads[t].pc.i, |s.words|)
  }

  predicate Enabled(s: System, e: Event)
    requires Valid(s)
  {
    e.t < |s.threads| &&
    var pc := s.threads[e.t].pc;
    match e
    case Begin(_) => pc.Idle? || pc.Refused?
    case Load(_) => pc.Scan? && pc.i < |s.words|
    case Cas(_, _) => pc.Try? && pc.i < |s.words| && pc.expected != 0
    case GiveUp(_, slot) => (pc.Idle? || pc.Refused?) && slot in s.threads[e.t].held
  }

  function Step(s: System, e: Event): System
    requires Valid(s) && Enabled(s, e)
  {
    var th := s.threads[e.t];
    match e
    case Begin(t) => s.(threads := s.threads[t := th.(pc := Scan(0, 0), attempts := 0)])
    case Load(t) =>
      var seen := s.words[WordIndex(s, t)];
      s.(threads := s.threads[t := th.(pc := if seen == 0 then NextPc(th.pc.pass, th.pc.i, |s.words|)
                                             else Try(th.pc.pass, th.pc.i, seen, 0))])
    case Cas(t, spurious) =>
      var w := WordIndex(s, t);
      var bit := LowestSet(th.pc.expected);
      if s.words[w] == th.pc.expected && !spurious then
        s.(words := s.words[w := ClearBit(th.pc.expected, bit)],
           threads := s.threads[t := th.(pc := Idle, held := th.held + {w * WORD_BITS + bit}, attempts := th.attempts + 1)])
      else
        var retries := th.pc.retries + 1;
        s.(threads := s.threads[t := th.(
             pc := if retries >= MAX_RETRIES || s.words[w] == 0 then NextPc(th.pc.pass, th.pc.i, |s.words|)
                   else Try(th.pc.pass, th.pc.i, s.words[w], retries),
             attempts := th.attempts + 1)])
    case GiveUp(t, slot) =>
      s.(words := GiveBack(s.words, slot), threads := s.threads[t := th.(held := th.held - {slot})])
  }

  ghost predicate HeldBy(s: System, slot: nat, t: nat) {
    t < |s.threads| && slot in s.threads[t].held
  }

  /** Most compare-exchanges a thread standing at pc can have made. */
  function Budget(pc: Pc, kWords: nat): nat {
    match pc
    case Idle => MAX_RETRIES * PASSES * kWords
    case Refused => MAX_RETRIES * PASSES * kWords
    case Scan(pass, i) => MAX_RETRIES * ((if pass == 0 then 0 else kWords) + i)
    case Try(pass, i, _, retries) => MAX_RETRIES * ((if pass == 0 then 0 else kWords) + i) + retries
  }

  predicate PcOk(pc: Pc, kWords: nat) {
    match pc
    case Idle => true
    case Refused => true
    case Scan(pass, i) => pass < PASSES && i < kWords
    case Try(pass, i, expected, retries) => pass < PASSES && i < kWords && expected != 0 && retries < MAX_RETRIES
  }

  /** No slot is held by two threads. */
  ghost predicate NoSharing(s: System) {
    forall slot: nat, t: nat, u: nat {:trigger HeldBy(s, slot, t), HeldBy(s, slot, u)} ::
      HeldBy(s, slot, t) && HeldBy(s, slot, u) ==> t == u
  }

  /** What every interleaving keeps. */
  ghost predicate Inv(s: System) {
    && Valid(s)
    && (forall slot: nat, t: nat {:trigger HeldBy(s, slot, t)} :: HeldBy(s, slot, t) ==> Occupied(s.words, slot))
    && NoSharing(s)
    && (forall slot: nat {:trigger Occupied(s.words, slot)} :: Occupied(s.words, slot) ==> exists t: nat :: HeldBy(s, slot, t))
    && (forall t :: 0 <= t < |s.threads| ==>
          PcOk(s.threads[t].pc, |s.words|) && s.threads[t].attempts <= Budget(s.threads[t].pc, |s.words|))
  }

  lemma QuietStepKeepsInv(s: System, e: Event)
    requires Inv(s) && Enabled(s, e) && Step(s, e).words == s.words && Step(s, e).threads[e.t].held == s.threads[e.t].held
    ensures Inv(Step(s, e))
  {
    hide Bit, SetBit, ClearBit, LowestSet, Occupied, GiveBack;
    var r := Step(s, e);
    forall slot: nat, t: nat ensures HeldBy(r, slot, t) == HeldBy(s, slot, t) { }
    forall slot: nat | Occupied(r.words, slot) ensures exists t: nat :: HeldBy(r, slot, t) {
      var t: nat :| HeldBy(s, slot, t);
      assert HeldBy(r, slot, t);
    }
  }

  /** The slot a compare-exchange of thread t is after. */
  function Target(s: System, t: nat): nat
    requires Valid(s) && Enabled(s, Cas(t, false))
  {
    WordIndex(s, t) * WORD_BITS + LowestSet(s.threads[t].pc.expected)
  }

  function WithWin(s: System, t: nat, slot: nat): System
    requires t < |s.threads|
  {
    var th := s.threads[t];
    System(Take(s.words, slot), s.threads[t := Thread(th.start, th.held + {slot}, Idle, th.attempts + 1)])
  }

  lemma WinStep(s: System, t: nat)
    requires Valid(s) && Enabled(s, Cas(t, false)) && s.words[WordIndex(s, t)] == s.threads[t].pc.expected
    ensures var slot := Target(s, t);
            slot < WORD_BITS * |s.words| && Free(s.words, slot) && Step(s, Cas(t, false)) == WithWin(s, t, slot)
  {
    hide Bit, SetBit, ClearBit;
    var w := WordIndex(s, t);
    var bit := LowestSet(s.words[w]);
    BitBound(s.words[w], WORD_BITS, bit);
    assert Target(s, t) / WORD_BITS == w && Target(s, t) % WORD_BITS == bit;
  }

  lemma WinKeepsInv(s: System, t: nat, slot: nat)
    requires Inv(s) && t < |s.threads| && s.threads[t].pc.Try?
    requires slot < WORD_BITS * |s.words| && Free(s.words, slot)
    ensures Inv(WithWin(s, t, slot))
  {
    var r := WithWin(s, t, slot);
    assert !Occupied(s.words, slot);
    TakeEffect(s.words, slot);
    hide Bit, SetBit, ClearBit, Take, Occupied, Free;
    forall x: nat, u: nat ensures HeldBy(r, x, u) == ((x == slot && u == t) || HeldBy(s, x, u)) { }
    forall x: nat | Occupied(r.words, x) ensures exists u: nat :: HeldBy(r, x, u) {
      if x == slot {
        assert HeldBy(r, x, t);
      } else {
        assert Occupied(s.words, x);
        var u: nat :| HeldBy(s, x, u);
        assert HeldBy(r, x, u);
      }
    }
  }

  lemma GiveUpKeepsInv(s: System, t: nat, slot: nat)
    requires Inv(s) && Enabled(s, GiveUp(t, slot))
    ensures Inv(Step(s, GiveUp(t, slot)))
  {
    hide Bit, SetBit, ClearBit;
    var r := Step(s, GiveUp(t, slot));
    assert HeldBy(s, slot, t);
    GiveBackEffect(s.words, slot);
    forall x: nat, u: nat ensures HeldBy(r, x, u) == (x != slot && HeldBy(s, x, u)) {
      if HeldBy(s, slot, u) { assert u == t; }
    }
    forall x: nat | Occupied(r.words, x) ensures exists u: nat :: HeldBy(r, x, u) {
      var u: nat :| HeldBy(s, x, u);
      assert HeldBy(r, x, u);
    }
  }

  lemma StepKeepsInv(s: System, e: Event)
    requires Inv(s) && Enabled(s, e)
    ensures Inv(Step(s, e))
  {
    match e
    case Begin(t) => QuietStepKeepsInv(s, e);
    case Load(t) => QuietStepKeepsInv(s, e);
    case Cas(t, spurious) =>
      if s.words[WordIndex(s, t)] == s.threads[t].pc.expected && !spurious {
        WinStep(s, t);
        WinKeepsInv(s, t, Target(s, t));
      } else {
        QuietStepKeepsInv(s, e);
      }
    case GiveUp(t, slot) => GiveUpKeepsInv(s, t, slot);
  }

  /* ---- whole runs ---- */

  /** Any schedule: an event that is not enabled where it comes up is skipped. */
  function Run(s: System, events: seq<Event>): (r: System)
    requires Valid(s)
    ensures Valid(r) && |r.words| == |s.words| && |r.threads| == |s.threads|
    decreases |events|
  {
    if events == [] then s
    else if Enabled(s, events[0]) then
      StepKeepsValid(s, events[0]);
      Run(Step(s, events[0]), events[1..])
    else Run(s, events[1..])
  }

  lemma StepKeepsValid(s: System, e: Event)
    requires Valid(s) && Enabled(s, e)
    ensures Valid(Step(s, e)) && |Step(s, e).words| == |s.words| && |Step(s, e).threads| == |s.threads|
  {
    hide SetBit, ClearBit, Bit, LowestSet, GiveBack;
    match e
    case Cas(t, _) => WidthAfter(s.words[WordIndex(s, t)], WORD_BITS, LowestSet(s.threads[t].pc.expected));
    case GiveUp(t, slot) => GiveBackValid(s.words, slot);
    case _ =>
  }

  lemma GiveBackValid(ws: seq<nat>, slot: nat)
    requires ValidWords(ws)
    ensures ValidWords(GiveBack(ws, slot)) && |GiveBack(ws, slot)| == |ws|
  {
    if slot < WORD_BITS * |ws| { GiveBackEffect(ws, slot); }
  }

  lemma {:induction false} RunKeepsInv(s: System, events: seq<Event>)
    requires Valid(s) && Inv(s)
    ensures Inv(Run(s, events))
    decreases |events|
  {
    hide Inv, Step, Enabled;
    if events != [] {
      if Enabled(s, events[0]) {
        StepKeepsValid(s, events[0]);
        StepKeepsInv(s, events[0]);
        RunKeepsInv(Step(s, events[0]), events[1..]);
      } else {
        RunKeepsInv(s, events[1..]);
      }
    }
  }

  ghost predicate Fresh(s: System) {
    Valid(s) && (forall slot: nat :: !Occupied(s.words, slot))
    && forall t :: 0 <= t < |s.threads| ==> s.threads[t] == Thread(s.threads[t].start, {}, Idle, 0)
  }

  function HeldCount(ts: seq<Thread>): nat {
    if ts == [] then 0 else HeldCount(ts[..|ts| - 1]) + |ts[|ts| - 1].held|
  }

  ghost function OwnedBelow(s: System, n: nat): set<nat>
    requires n <= |s.threads|
  {
    set t: nat, slot | t < n && slot in s.threads[t].held :: slot
  }

  lemma {:induction false} HeldCountIsCardinality(s: System, n: nat)
    requires NoSharing(s) && n <= |s.threads|
    ensures HeldCount(s.threads[..n]) == |OwnedBelow(s, n)|
  {
    if n == 0 {
      assert OwnedBelow(s, n) == {};
    } else {
      hide OwnedBelow, NoSharing;
      HeldCountIsCardinality(s, n - 1);
      assert s.threads[..n][..n - 1] == s.threads[..n - 1];
      OwnedSplits(s, n);
    }
  }

  lemma OwnedSplits(s: System, n: nat)
    requires NoSharing(s) && 0 < n <= |s.threads|
    ensures OwnedBelow(s, n) == OwnedBelow(s, n - 1) + s.threads[n - 1].held
    ensures OwnedBelow(s, n - 1) !! s.threads[n - 1].held
  {
    var last := s.threads[n - 1].held;
    forall slot | slot in OwnedBelow(s, n - 1) ensures slot !in last {
      var t: nat :| t < n - 1 && slot in s.threads[t].held;
      assert HeldBy(s, slot, t);
      assert HeldBy(s, slot, n - 1) == (slot in last);
    }
  }

  /** Free slots and held slots partition the capacity. */
  lemma FreePlusHeldIsCapacity(s: System)
    requires Valid(s) && Inv(s)
    ensures FreeCount(s.words) + HeldCount(s.threads) == WORD_BITS * |s.words|
  {
    hide Inv, Bit, Popcount, FreeCount, OwnedBelow;
    var n := |s.threads|;
    assert NoSharing(s) by { HasNoSharing(s); }
    HeldCountIsCardinality(s, n);
    assert s.threads[..n] == s.threads;
    FreeCountIsCardinality(s.words);
    OwnedIsOccupied(s);
    var free, owned := FreeSlots(s.words), OwnedBelow(s, n);
    assert free !! owned;
    assert free + owned == Below(WORD_BITS * |s.words|);
  }

  lemma HasNoSharing(s: System)
    requires Inv(s)
    ensures NoSharing(s)
  {
  }

  lemma OwnedIsOccupied(s: System)
    requires Inv(s)
    ensures forall slot: nat :: slot in OwnedBelow(s, |s.threads|) <==> Occupied(s.words, slot)
  {
    hide Occupied;
    forall slot: nat ensures slot in OwnedBelow(s, |s.threads|) <==> Occupied(s.words, slot) {
      if slot in OwnedBelow(s, |s.threads|) {
        var t: nat :| t < |s.threads| && slot in s.threads[t].held;
        assert HeldBy(s, slot, t);
      }
      if Occupied(s.words, slot) {
        var t: nat :| HeldBy(s, slot, t);
      }
    }
  }

  /** The first n slot numbers. */
  ghost function Below(n: nat): (r: set<nat>)
    ensures |r| == n && forall i: nat :: i in r <==> i < n
  {
    if n == 0 then {} else Below(n - 1) + {n - 1}
  }

  /** Safety of the selector over every schedule of every number of threads: no slot is held twice, a slot
      is free exactly when nobody holds it, free and held slots add up, and no acquire makes more than
      4 * kWords compare-exchanges. */
  lemma SelectorIsSafe(s: System, events: seq<Event>)
    requires Fresh(s)
    ensures var r := Run(s, events);
            && NoSharing(r)
            && (forall slot: nat {:trigger Free(r.words, slot)} :: slot < WORD_BITS * |s.words| ==>
                  (Free(r.words, slot) <==> forall t: nat :: !HeldBy(r, slot, t)))
            && FreeCount(r.words) + HeldCount(r.threads) == WORD_BITS * |s.words|
            && (forall t :: 0 <= t < |r.threads| ==> r.threads[t].attempts <= 4 * |s.words|)
  {
    hide Bit, Popcount, Run;
    assert Inv(s);
    RunKeepsInv(s, events);
    var r := Run(s, events);
    FreePlusHeldIsCapacity(r);
    forall slot: nat | slot < WORD_BITS * |s.words|
      ensures Free(r.words, slot) <==> forall t: nat :: !HeldBy(r, slot, t)
    {
      assert Free(r.words, slot) == !Occupied(r.words, slot);
    }
    forall t | 0 <= t < |r.threads| ensures r.threads[t].attempts <= 4 * |s.words| {
      BudgetFits(r.threads[t].pc, |s.words|);
    }
  }

  /** What isOccupied tells a caller, after any schedule: some thread holds the slot. */
  lemma OccupiedMeansHeld(s: System, events: seq<Event>, slot: nat)
    requires Fresh(s)
    ensures Occupied(Run(s, events).words, slot) <==> exists t: nat :: HeldBy(Run(s, events), slot, t)
  {
    hide Bit, Run;
    assert Inv(s);
    RunKeepsInv(s, events);
  }

  lemma BudgetFits(pc: Pc, kWords: nat)
    requires PcOk(pc, kWords)
    ensures Budget(pc, kWords) <= 4 * kWords
  {
  }
}
