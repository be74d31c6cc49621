/** One caller of the selector that nobody disturbs (include/qtx/selector/axiom_selector.hpp:192-265),
    with every pattern of spurious compare-exchange failures: when it is refused, and what it gets. */
module SelectorAlone {
  import opened BitWords
  import opened Common
  import opened SelectorSpec
  import opened SelectorSteps

  /** An upper bound on the steps left. */
  function Distance(pc: Pc, kWords: nat): int {
    match pc
    case Scan(pass, i) => 3 * ((if pass == 0 then 2 * kWords else kWords) - i)
    case Try(pass, i, _, retries) => 3 * ((if pass == 0 then 2 * kWords else kWords) - i) - 1 - retries
    case _ => 0
  }

  /** The rest of thread t's acquire with nobody else moving.  Compare-exchange number j of the acquire
      fails spuriously exactly when `spurious(j)`. */
  ghost function Alone(s: System, t: nat, spurious: nat -> bool): System
    requires Inv(s) && t < |s.threads|
    decreases Distance(s.threads[t].pc, |s.words|)
  {
    match s.threads[t].pc
    case Scan(_, _) =>
      StepKeepsInv(s, Load(t));
      LoadAdvances(s, t);
      Alone(Step(s, Load(t)), t, spurious)
    case Try(_, _, _, _) =>
      var e := Cas(t, spurious(s.threads[t].attempts));
      StepKeepsInv(s, e);
      CasAdvances(s, e);
      Alone(Step(s, e), t, spurious)
    case _ => s
  }

  lemma LoadAdvances(s: System, t: nat)
    requires Inv(s) && t < |s.threads| && s.threads[t].pc.Scan?
    ensures Enabled(s, Load(t)) && t < |Step(s, Load(t)).threads|
    ensures |Step(s, Load(t)).words| == |s.words|
    ensures var k := |s.words|;
            0 <= Distance(Step(s, Load(t)).threads[t].pc, k) < Distance(s.threads[t].pc, k)
  {
  }

  lemma CasAdvances(s: System, e: Event)
    requires Inv(s) && e.Cas? && e.t < |s.threads| && s.threads[e.t].pc.Try?
    ensures Enabled(s, e) && e.t < |Step(s, e).threads|
    ensures |Step(s, e).words| == |s.words|
    ensures var k := |s.words|;
            0 <= Distance(Step(s, e).threads[e.t].pc, k) < Distance(s.threads[e.t].pc, k)
  {
    hide Bit, LowestSet, ClearBit;
  }

  /** How many words are not zero. */
  function NonZero(ws: seq<nat>): nat {
    if ws == [] then 0 else (if ws[0] != 0 then 1 else 0) + NonZero(ws[1..])
  }

  /** The same, over the circular sweep from `start` at offsets k and up. */
  function NonZeroFrom(ws: seq<nat>, start: nat, k: nat): nat
    requires start < |ws| && k <= |ws|
    decreases |ws| - k
  {
    if k == |ws| then 0 else (if ws[Around(start, k, |ws|)] != 0 then 1 else 0) + NonZeroFrom(ws, start, k + 1)
  }

  lemma {:induction false} NonZeroConcat(a: seq<nat>, b: seq<nat>)
    ensures NonZero(a + b) == NonZero(a) + NonZero(b)
  {
    if a == [] {
      assert a + b == b;
    } else {
      assert (a + b)[1..] == a[1..] + b;
      NonZeroConcat(a[1..], b);
    }
  }

  lemma {:induction false} SweepOrder(ws: seq<nat>, start: nat, k: nat)
    requires start < |ws| && k <= |ws|
    ensures NonZeroFrom(ws, start, k) == NonZero((ws[start..] + ws[..start])[k..])
    decreases |ws| - k
  {
    var lap := ws[start..] + ws[..start];
    if k < |ws| {
      assert lap[k..][0] == lap[k] == ws[Around(start, k, |ws|)];
      assert lap[k..][1..] == lap[k + 1..];
      SweepOrder(ws, start, k + 1);
    }
  }

  /** A lap meets every non-zero word, wherever it starts. */
  lemma LapMeetsAll(ws: seq<nat>, start: nat)
    requires start < |ws|
    ensures NonZeroFrom(ws, start, 0) == NonZero(ws)
  {
    SweepOrder(ws, start, 0);
    var a, b := ws[..start], ws[start..];
    assert (b + a)[0..] == b + a && a + b == ws;
    NonZeroConcat(a, b);
    NonZeroConcat(b, a);
  }

  /** The compare-exchanges a scanning thread still makes if all of them fail. */
  ghost function Tries(s: System, t: nat): nat
    requires Inv(s) && t < |s.threads| && s.threads[t].pc.Scan?
  {
    var th := s.threads[t];
    MAX_RETRIES * (NonZeroFrom(s.words, th.start, th.pc.i) + if th.pc.pass == 0 then NonZeroFrom(s.words, th.start, 0) else 0)
  }

  ghost predicate AllFail(spurious: nat -> bool, from: nat, to: nat) {
    forall j: nat {:trigger spurious(j)} :: from <= j < to ==> spurious(j)
  }

  /** The words and the holdings after an acquire of thread t that took this slot. */
  ghost predicate Got(s: System, t: nat, r: System, slot: nat)
    requires t < |s.threads|
  {
    && slot < WORD_BITS * |s.words| && Free(s.words, slot) && r.words == Take(s.words, slot)
    && |r.threads| == |s.threads| && r.threads[t].pc == Idle && r.threads[t].held == s.threads[t].held + {slot}
  }

  /** What an acquire in progress comes to. */
  ghost predicate Ends(s: System, t: nat, spurious: nat -> bool, r: System)
    requires Inv(s) && t < |s.threads| && s.threads[t].pc.Scan?
  {
    && |r.threads| == |s.threads|
    && var th := s.threads[t];
       var a := th.attempts;
       if AllFail(spurious, a, a + Tries(s, t)) then
         r.words == s.words && r.threads[t].pc == Refused && r.threads[t].held == th.held
       else
         && (exists slot: nat :: Got(s, t, r, slot))
         && (!spurious(a) ==> var word := SweepFrom(s.words, th.start, th.pc.i);
                              word.Some? ==> Got(s, t, r, SlotOf(s.words, word.value)))
  }

  function At(s: System, t: nat, pc: Pc, attempts: nat): System
    requires t < |s.threads|
  {
    s.(threads := s.threads[t := s.threads[t].(pc := pc, attempts := attempts)])
  }

  /** A load of a zero word moves on. */
  lemma PassZero(s: System, t: nat)
    requires Inv(s) && t < |s.threads| && s.threads[t].pc.Scan? && s.words[WordIndex(s, t)] == 0
    ensures var th := s.threads[t]; var r := At(s, t, NextPc(th.pc.pass, th.pc.i, |s.words|), th.attempts);
            Inv(r) && forall f: nat -> bool :: Alone(s, t, f) == Alone(r, t, f)
  {
    StepKeepsInv(s, Load(t));
  }

  /** A load of a non-zero word goes on to the compare-exchange. */
  lemma LoadWord(s: System, t: nat)
    requires Inv(s) && t < |s.threads| && s.threads[t].pc.Scan? && s.words[WordIndex(s, t)] != 0
    ensures var th := s.threads[t]; var r := At(s, t, Try(th.pc.pass, th.pc.i, s.words[WordIndex(s, t)], 0), th.attempts);
            Inv(r) && forall f: nat -> bool :: Alone(s, t, f) == Alone(r, t, f)
  {
    StepKeepsInv(s, Load(t));
  }

  /** A spurious failure leaves the words as they are and uses up one attempt. */
  lemma Lose(s: System, t: nat, f: nat -> bool)
    requires Inv(s) && t < |s.threads| && s.threads[t].pc.Try? && s.words[WordIndex(s, t)] == s.threads[t].pc.expected
    requires f(s.threads[t].attempts)
    ensures var th := s.threads[t];
            var pc := if th.pc.retries + 1 >= MAX_RETRIES then NextPc(th.pc.pass, th.pc.i, |s.words|)
                      else th.pc.(retries := th.pc.retries + 1);
            var r := At(s, t, pc, th.attempts + 1);
            Inv(r) && Alone(s, t, f) == Alone(r, t, f)
  {
    StepKeepsInv(s, Cas(t, true));
  }

  /** A compare-exchange that does not fail takes the lowest free slot of its word. */
  lemma Land(s: System, t: nat, f: nat -> bool)
    requires Inv(s) && t < |s.threads| && s.threads[t].pc.Try? && s.words[WordIndex(s, t)] == s.threads[t].pc.expected
    requires !f(s.threads[t].attempts)
    ensures Got(s, t, Alone(s, t, f), SlotOf(s.words, WordIndex(s, t)))
  {
    hide Bit, LowestSet, SetBit, ClearBit, Take;
    StepKeepsInv(s, Cas(t, false));
    WinStep(s, t);
  }

  lemma TriesLeft(s: System, t: nat, later: System)
    requires Inv(s) && t < |s.threads| && s.threads[t].pc.Scan? && Inv(later) && t < |later.threads|
    requires later.words == s.words && later.threads[t].start == s.threads[t].start
    requires later.threads[t].pc == NextPc(s.threads[t].pc.pass, s.threads[t].pc.i, |s.words|)
    ensures Tries(s, t) == (if s.words[WordIndex(s, t)] != 0 then MAX_RETRIES else 0)
                         + if later.threads[t].pc.Scan? then Tries(later, t) else 0
  {
    hide Occupied, NoSharing;
    var start, i, n := s.threads[t].start, s.threads[t].pc.i, |s.words|;
    assert WordIndex(s, t) == Around(start, i, n);
    assert NonZeroFrom(s.words, start, i)
        == (if s.words[WordIndex(s, t)] != 0 then 1 else 0) + NonZeroFrom(s.words, start, i + 1);
    assert NonZeroFrom(s.words, start, n) == 0;
  }

  /** Two states of one acquire, the later one `used` failed attempts on, with nothing won or lost between. */
  lemma EndsEarlier(s: System, t: nat, f: nat -> bool, later: System, used: nat, q: System)
    requires Inv(s) && t < |s.threads| && s.threads[t].pc.Scan? && Inv(later) && t < |later.threads|
    requires later == At(s, t, NextPc(s.threads[t].pc.pass, s.threads[t].pc.i, |s.words|), s.threads[t].attempts + used)
    requires used == if s.words[WordIndex(s, t)] != 0 then MAX_RETRIES else 0
    requires AllFail(f, s.threads[t].attempts, s.threads[t].attempts + used)
    requires if later.threads[t].pc.Scan? then Ends(later, t, f, q) else q == later
    ensures Ends(s, t, f, q)
  {
    hide Free, Take, SlotOf, Occupied;
    var a := s.threads[t].attempts;
    TriesLeft(s, t, later);
    if later.threads[t].pc.Scan? {
      assert AllFail(f, a, a + Tries(s, t)) == AllFail(f, a + used, a + used + Tries(later, t));
      forall slot: nat ensures Got(s, t, q, slot) == Got(later, t, q, slot) { }
      if used == 0 {
        assert SweepFrom(s.words, s.threads[t].start, s.threads[t].pc.i)
            == SweepFrom(s.words, s.threads[t].start, s.threads[t].pc.i + 1);
      } else {
        assert f(a);
      }
    } else {
    }
  }

  /** A landed compare-exchange on the word just loaded. */
  lemma EndsHere(s: System, t: nat, f: nat -> bool, failed: nat, q: System)
    requires Inv(s) && t < |s.threads| && s.threads[t].pc.Scan? && s.words[WordIndex(s, t)] != 0
    requires failed < MAX_RETRIES && !f(s.threads[t].attempts + failed)
    requires AllFail(f, s.threads[t].attempts, s.threads[t].attempts + failed)
    requires Got(s, t, q, SlotOf(s.words, WordIndex(s, t)))
    ensures Ends(s, t, f, q)
  {
    hide Free, Take, SlotOf, Occupied;
    var a := s.threads[t].attempts;
    assert Tries(s, t) >= MAX_RETRIES;
    assert !AllFail(f, a, a + Tries(s, t));
  }

  /** At a non-zero word the acquire either takes a slot of it or uses up both attempts. */
  lemma TryWord(s: System, t: nat, f: nat -> bool) returns (failed: nat)
    requires Inv(s) && t < |s.threads| && s.threads[t].pc.Scan? && s.words[WordIndex(s, t)] != 0
    ensures failed <= MAX_RETRIES && AllFail(f, s.threads[t].attempts, s.threads[t].attempts + failed)
    ensures failed < MAX_RETRIES ==>
              !f(s.threads[t].attempts + failed) && Got(s, t, Alone(s, t, f), SlotOf(s.words, WordIndex(s, t)))
    ensures failed == MAX_RETRIES ==>
              var th := s.threads[t];
              var later := At(s, t, NextPc(th.pc.pass, th.pc.i, |s.words|), th.attempts + failed);
              Inv(later) && Alone(s, t, f) == Alone(later, t, f)
  {
    hide Alone, Got, SlotOf, Occupied;
    var th := s.threads[t];
    var word := WordIndex(s, t);
    LoadWord(s, t);
    var first := At(s, t, Try(th.pc.pass, th.pc.i, s.words[word], 0), th.attempts);
    assert WordIndex(first, t) == word;
    if !f(th.attempts) {
      Land(first, t, f);
      GotAgain(s, t, first, Alone(s, t, f), SlotOf(s.words, word));
      return 0;
    }
    Lose(first, t, f);
    var second := At(s, t, Try(th.pc.pass, th.pc.i, s.words[word], 1), th.attempts + 1);
    assert second == At(first, t, first.threads[t].pc.(retries := 1), th.attempts + 1);
    assert WordIndex(second, t) == word;
    if !f(th.attempts + 1) {
      Land(second, t, f);
      GotAgain(s, t, second, Alone(s, t, f), SlotOf(s.words, word));
      return 1;
    }
    Lose(second, t, f);
    var later := At(s, t, NextPc(th.pc.pass, th.pc.i, |s.words|), th.attempts + 2);
    assert later == At(second, t, NextPc(th.pc.pass, th.pc.i, |s.words|), th.attempts + 2);
    return 2;
  }

  lemma {:induction false} AloneEnds(s: System, t: nat, f: nat -> bool)
    requires Inv(s) && t < |s.threads| && s.threads[t].pc.Scan?
    ensures Ends(s, t, f, Alone(s, t, f))
    decreases Distance(s.threads[t].pc, |s.words|)
  {
    hide Alone, Ends, Got, NonZeroFrom, SlotOf, AllFail;
    var th := s.threads[t];
    var failed := 0;
    if s.words[WordIndex(s, t)] == 0 {
      PassZero(s, t);
      assert AllFail(f, th.attempts, th.attempts) by { NoneFail(f, th.attempts); }
    } else {
      failed := TryWord(s, t, f);
    }
    if s.words[WordIndex(s, t)] != 0 && failed < MAX_RETRIES {
      EndsHere(s, t, f, failed, Alone(s, t, f));
    } else {
      var later := At(s, t, NextPc(th.pc.pass, th.pc.i, |s.words|), th.attempts + failed);
      if later.threads[t].pc.Scan? { AloneEnds(later, t, f); } else { AloneStops(later, t, f); }
      EndsEarlier(s, t, f, later, failed, Alone(s, t, f));
    }
  }

  lemma NoneFail(f: nat -> bool, a: nat)
    ensures AllFail(f, a, a)
  {
  }

  lemma AloneStops(s: System, t: nat, f: nat -> bool)
    requires Inv(s) && t < |s.threads| && s.threads[t].pc == Refused
    ensures Alone(s, t, f) == s
  {
  }

  lemma GotAgain(s: System, t: nat, r: System, q: System, slot: nat)
    requires t < |s.threads| && |r.threads| == |s.threads|
    requires r.words == s.words && r.threads[t].held == s.threads[t].held
    requires Got(r, t, q, slot)
    ensures Got(s, t, q, slot)
  {
  }

  /** An acquire that nobody disturbs is refused if and only if its first 4 * k compare-exchanges fail
      spuriously, k being the number of non-zero words, wherever it starts.  Refused, it has changed
      nothing; otherwise it has taken one free slot. */
  lemma RefusedExactly(s: System, t: nat, f: nat -> bool)
    requires Inv(s) && Enabled(s, Begin(t))
    ensures Inv(Step(s, Begin(t)))
    ensures var r := Alone(Step(s, Begin(t)), t, f);
            && |r.threads| == |s.threads|
            && (r.threads[t].pc == Refused <==> AllFail(f, 0, 4 * NonZero(s.words)))
            && (if r.threads[t].pc == Refused then r.words == s.words && r.threads[t].held == s.threads[t].held
                else exists slot: nat :: Got(s, t, r, slot))
  {
    hide Alone, NonZero, NonZeroFrom;
    StepKeepsInv(s, Begin(t));
    var begun := Step(s, Begin(t));
    AloneEnds(begun, t, f);
    LapMeetsAll(s.words, s.threads[t].start);
    var r := Alone(begun, t, f);
    if slot: nat :| Got(begun, t, r, slot) { GotAgain(s, t, begun, r, slot); }
  }

  /** What the sequential selector answers. */
  ghost predicate Acquired(s: System, t: nat, r: System)
    requires Valid(s) && t < |s.threads|
  {
    |r.threads| == |s.threads| &&
    var picked := Pick(s.words, s.threads[t].start);
    if picked.None? then r.words == s.words && r.threads[t].pc == Refused && r.threads[t].held == s.threads[t].held
    else Got(s, t, r, picked.value)
  }

  /** If its first compare-exchange does not fail spuriously, it takes exactly the slot the sequential
      selector takes, and is refused only when every word is zero. */
  lemma UndisturbedAcquire(s: System, t: nat, f: nat -> bool)
    requires Valid(s) && Inv(s) && Enabled(s, Begin(t)) && !f(0)
    ensures Inv(Step(s, Begin(t)))
    ensures var r := Alone(Step(s, Begin(t)), t, f);
            Acquired(s, t, r) && (r.threads[t].pc == Refused <==> forall i :: 0 <= i < |s.words| ==> s.words[i] == 0)
  {
    hide Inv, Step, Alone, NonZero, NonZeroFrom, Got, SlotOf, Pick, SweepFrom;
    RefusedExactly(s, t, f);
    FirstLands(s, t, f);
    PickFailsOnlyWhenFull(s.words, s.threads[t].start);
    NoneIsZero(s.words);
    PickIsSwept(s, t);
  }

  lemma PickIsSwept(s: System, t: nat)
    requires Valid(s) && t < |s.threads|
    ensures var word := SweepFrom(s.words, s.threads[t].start, 0);
            Pick(s.words, s.threads[t].start) == if word.None? then None else Some(SlotOf(s.words, word.value))
  {
    assert s.threads[t].start % |s.words| == s.threads[t].start;
  }

  lemma FirstLands(s: System, t: nat, f: nat -> bool)
    requires Inv(s) && Enabled(s, Begin(t)) && !f(0)
    ensures Inv(Step(s, Begin(t)))
    ensures var word := SweepFrom(s.words, s.threads[t].start, 0);
            var r := Alone(Step(s, Begin(t)), t, f);
            word.Some? ==> Got(s, t, r, SlotOf(s.words, word.value)) && t < |r.threads| && r.threads[t].pc == Idle
  {
    hide Alone, NonZero, NonZeroFrom, SlotOf, Take, Free, Occupied;
    StepKeepsInv(s, Begin(t));
    var begun := Step(s, Begin(t));
    AloneEnds(begun, t, f);
    var word := SweepFrom(s.words, s.threads[t].start, 0);
    if word.Some? { SomeNonZero(s.words, s.threads[t].start, 0); }
  }

  lemma {:induction false} SomeNonZero(ws: seq<nat>, start: nat, k: nat)
    requires start < |ws| && k <= |ws| && SweepFrom(ws, start, k).Some?
    ensures NonZeroFrom(ws, start, k) > 0
    decreases |ws| - k
  {
    if ws[Around(start, k, |ws|)] == 0 { SomeNonZero(ws, start, k + 1); }
  }

  lemma {:induction false} NoneIsZero(ws: seq<nat>)
    ensures NonZero(ws) == 0 <==> forall i :: 0 <= i < |ws| ==> ws[i] == 0
  {
    if ws != [] {
      NoneIsZero(ws[1..]);
      assert forall i :: 0 < i < |ws| ==> ws[i] == ws[1..][i - 1];
    }
  }

  /** Some word is not zero exactly when some slot is free. */
  lemma {:induction false} NonZeroMeansFree(ws: seq<nat>)
    ensures NonZero(ws) > 0 <==> FreeCount(ws) > 0
  {
    if ws != [] {
      var init, last := ws[..|ws| - 1], ws[|ws| - 1];
      NonZeroMeansFree(init);
      assert init + [last] == ws;
      NonZeroConcat(init, [last]);
      if last != 0 { PositivePopcount(last); }
    }
  }

  lemma {:induction false} PositivePopcount(w: nat)
    requires w != 0
    ensures Popcount(w) > 0
  {
    if w % 2 == 0 { PositivePopcount(w / 2); }
  }

  /** The compare-exchanges with these numbers fail spuriously. */
  ghost function FailAt(fails: set<nat>): nat -> bool {
    j => j in fails
  }

  /** With fewer than 4 * k spurious failures, whenever they strike, a lone caller gets a slot; with a
      slot free three of them are never too many. */
  lemma FewFailuresSucceed(s: System, t: nat, fails: set<nat>) returns (slot: nat)
    requires Valid(s) && Inv(s) && Enabled(s, Begin(t))
    requires |fails| < 4 * NonZero(s.words) || (|fails| < 4 && FreeCount(s.words) > 0)
    ensures Inv(Step(s, Begin(t)))
    ensures Got(s, t, Alone(Step(s, Begin(t)), t, FailAt(fails)), slot)
  {
    hide Alone, NonZero, FreeCount, Got, Inv;
    NonZeroMeansFree(s.words);
    var f := FailAt(fails);
    RefusedExactly(s, t, f);
    var n := 4 * NonZero(s.words);
    if AllFail(f, 0, n) {
      forall j: nat | j in Below(n) ensures j in fails { assert f(j); }
      SubsetSize(Below(n), fails);
    }
    slot :| Got(s, t, Alone(Step(s, Begin(t)), t, f), slot);
  }

  lemma {:induction false} SubsetSize(a: set<nat>, b: set<nat>)
    requires a <= b
    ensures |a| <= |b|
  {
    if a != {} {
      var x :| x in a;
      SubsetSize(a - {x}, b - {x});
    }
  }

  /** So "no slot" is no evidence of exhaustion: on any number of words, every one of them possibly free,
      enough spurious failures refuse a caller who is alone. */
  lemma RefusedWithFreeSlots(s: System, t: nat) returns (events: seq<Event>)
    requires Inv(s) && Enabled(s, Begin(t)) && FreeCount(s.words) > 0
    ensures OnlyBy(t, events)
    ensures var r := Run(s, [Begin(t)] + events);
            r.threads[t].pc == Refused && r.words == s.words && FreeCount(r.words) > 0
  {
    var f: nat -> bool := j => true;
    RefusedExactly(s, t, f);
    StepKeepsValid(s, Begin(t));
    events := AloneIsRun(Step(s, Begin(t)), t, f);
    assert ([Begin(t)] + events)[1..] == events;
    hide Run, Alone, Inv;
    RunHead(s, Begin(t), events);
  }

  /* ---- lone schedules are schedules ---- */

  /** Loads and compare-exchanges of thread t. */
  ghost predicate OnlyBy(t: nat, events: seq<Event>) {
    forall e :: e in events ==> e.t == t && (e.Load? || e.Cas?)
  }

  lemma RunHead(s: System, e: Event, events: seq<Event>)
    requires Valid(s) && Enabled(s, e)
    ensures Valid(Step(s, e)) && Run(s, [e] + events) == Run(Step(s, e), events)
  {
    StepKeepsValid(s, e);
    assert ([e] + events)[1..] == events;
  }

  lemma {:induction false} AloneIsRun(s: System, t: nat, f: nat -> bool) returns (events: seq<Event>)
    requires Inv(s) && t < |s.threads|
    ensures OnlyBy(t, events) && Run(s, events) == Alone(s, t, f)
    decreases Distance(s.threads[t].pc, |s.words|)
  {
    hide Step, Run;
    events := [];
    if s.threads[t].pc.Scan? || s.threads[t].pc.Try? {
      var e := if s.threads[t].pc.Scan? then Load(t) else Cas(t, f(s.threads[t].attempts));
      if s.threads[t].pc.Scan? { LoadAdvances(s, t); } else { CasAdvances(s, e); }
      StepKeepsInv(s, e);
      var rest := AloneIsRun(Step(s, e), t, f);
      RunHead(s, e, rest);
      events := [e] + rest;
    } else {
      RunNothing(s);
    }
  }

  lemma RunNothing(s: System)
    requires Valid(s)
    ensures Run(s, []) == s
  {
  }

  lemma {:induction false} AloneAgrees(s: System, t: nat, f: nat -> bool, g: nat -> bool)
    requires Inv(s) && t < |s.threads| && forall j: nat {:trigger f(j)} :: j >= s.threads[t].attempts ==> f(j) == g(j)
    ensures Alone(s, t, f) == Alone(s, t, g)
    decreases Distance(s.threads[t].pc, |s.words|)
  {
    if s.threads[t].pc.Scan? || s.threads[t].pc.Try? {
      var e := if s.threads[t].pc.Scan? then Load(t) else Cas(t, f(s.threads[t].attempts));
      if s.threads[t].pc.Scan? { LoadAdvances(s, t); } else { CasAdvances(s, e); }
      StepKeepsInv(s, e);
      AttemptsAfter(s, e);
      hide Inv, Step, Enabled;
      AloneAgrees(Step(s, e), t, f, g);
    }
  }

  lemma AttemptsAfter(s: System, e: Event)
    requires Valid(s) && Enabled(s, e) && (e.Load? || e.Cas?)
    ensures e.t < |s.threads| == |Step(s, e).threads|
    ensures Step(s, e).threads[e.t].attempts == s.threads[e.t].attempts + if e.Cas? then 1 else 0
  {
    hide Bit, LowestSet, ClearBit;
  }

  /** Every schedule of thread t alone is a beginning of `Alone` for some pattern of failures, and all
      of it once the thread has stopped: the theorems above miss no lone schedule. */
  lemma ScheduleIsAlone(s: System, t: nat, events: seq<Event>) returns (f: nat -> bool)
    requires Inv(s) && t < |s.threads| && OnlyBy(t, events)
    ensures var r := Run(s, events);
            Inv(r) && Alone(s, t, f) == Alone(r, t, f) && (!r.threads[t].pc.Scan? && !r.threads[t].pc.Try? ==> r == Alone(s, t, f))
  {
    f := ScheduleFrom(s, t, events);
  }

  lemma {:induction false} ScheduleFrom(s: System, t: nat, events: seq<Event>) returns (f: nat -> bool)
    requires Valid(s) && Inv(s) && t < |s.threads| && OnlyBy(t, events)
    ensures var r := Run(s, events);
            Inv(r) && Alone(s, t, f) == Alone(r, t, f) && r.threads[t].attempts >= s.threads[t].attempts
    decreases |events|
  {
    hide Inv, Step, Enabled, Alone;
    if events == [] {
      f := j => true;
      RunNothing(s);
    } else if !Enabled(s, events[0]) {
      f := ScheduleFrom(s, t, events[1..]);
      RunSkips(s, events);
    } else {
      var e := events[0];
      assert e in events;
      StepKeepsInv(s, e);
      AttemptsAfter(s, e);
      StepKeepsValid(s, e);
      var g := ScheduleFrom(Step(s, e), t, events[1..]);
      RunHead(s, e, events[1..]);
      assert [e] + events[1..] == events;
      var a := s.threads[t].attempts;
      f := if e.Cas? then ((j: nat) => if j == a then e.spurious else g(j)) else g;
      AloneAgrees(Step(s, e), t, f, g);
      AloneAgrees(Run(s, events), t, f, g);
      AloneHead(s, t, f, e);
    }
  }

  lemma RunSkips(s: System, events: seq<Event>)
    requires Valid(s) && events != [] && !Enabled(s, events[0])
    ensures Run(s, events) == Run(s, events[1..])
  {
  }

  lemma AloneHead(s: System, t: nat, f: nat -> bool, e: Event)
    requires Inv(s) && Enabled(s, e) && e.t == t && (e.Load? || (e.Cas? && e.spurious == f(s.threads[t].attempts)))
    ensures Inv(Step(s, e)) && t < |Step(s, e).threads| && Alone(s, t, f) == Alone(Step(s, e), t, f)
  {
    StepKeepsInv(s, e);
    hide Step;
  }
}
