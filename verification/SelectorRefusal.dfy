/** What a refusal by acquire() means under any interleaving (include/qtx/selector/axiom_selector.hpp:192-265): it is
    no evidence that all slots were ever taken at once, but each pass met every word either at zero or at a moment
    when the word was lost to somebody else or to spurious failures, twice. */
module SelectorRefusal {
  import opened BitWords
  import opened SelectorSpec
  import opened SelectorSteps

  predicate At(s: System, t: nat, pass: nat, i: nat) {
    t < |s.threads| && (s.threads[t].pc.Scan? || s.threads[t].pc.Try?)
    && s.threads[t].pc.pass == pass && s.threads[t].pc.i == i && i < |s.words|
  }

  /** Event e is thread t finding the word zero: by its load, or when it looks again after a lost compare-exchange. */
  predicate FindsZero(s: System, e: Event, t: nat, pass: nat, i: nat)
    requires Valid(s)
  {
    Enabled(s, e) && e.t == t && At(s, t, pass, i) && s.words[WordIndex(s, t)] == 0 && (e.Load? || e.Cas?)
  }

  /** Event e is thread t losing its compare-exchange number r on a word that is not zero: the word is no longer
      what the thread expects, or the failure is spurious. */
  predicate Loses(s: System, e: Event, t: nat, pass: nat, i: nat, r: nat)
    requires Valid(s)
  {
    Enabled(s, e) && e.Cas? && e.t == t && At(s, t, pass, i) && s.threads[t].pc.retries == r
    && s.words[WordIndex(s, t)] != 0 && (s.words[WordIndex(s, t)] != s.threads[t].pc.expected || e.spurious)
  }

  /** How many words thread t has left behind in this acquire. */
  function Progress(pc: Pc, kWords: nat): int {
    match pc
    case Scan(pass, i) => Position(pass, i, kWords)
    case Try(pass, i, _, _) => Position(pass, i, kWords)
    case _ => 2 * kWords
  }

  function Position(pass: nat, i: nat, kWords: nat): nat { if pass == 0 then i else kWords + i }

  predicate Working(pc: Pc) { pc.Scan? || pc.Try? }

  predicate NoBegin(t: nat, events: seq<Event>) { forall j :: 0 <= j < |events| ==> events[j] != Begin(t) }

  /** The state before event number k. */
  function Before(s: System, events: seq<Event>, k: nat): (r: System)
    requires Valid(s) && k <= |events|
    ensures Valid(r) && |r.words| == |s.words| && |r.threads| == |s.threads|
  {
    Run(s, events[..k])
  }

  /** The state after one event, enabled or not. */
  function Next(s: System, e: Event): (r: System)
    requires Valid(s)
    ensures Valid(r) && |r.words| == |s.words| && |r.threads| == |s.threads|
  {
    if Enabled(s, e) then StepKeepsValid(s, e); Step(s, e) else s
  }

  lemma RunNext(s: System, events: seq<Event>)
    requires Valid(s) && events != []
    ensures Run(s, events) == Run(Next(s, events[0]), events[1..])
  {
  }

  lemma BeforeNext(s: System, events: seq<Event>, k: nat)
    requires Valid(s) && k < |events|
    ensures Before(s, events, k + 1) == Before(Next(s, events[0]), events[1..], k)
  {
    assert events[..k + 1][1..] == events[1..][..k] && events[..k + 1][0] == events[0];
    RunNext(s, events[..k + 1]);
  }

  /** An event either leaves the thread's word behind, having found it zero or lost it a second time, or leaves the
      thread where it is, or ends the acquire with a slot. */
  lemma NextProgress(s: System, e: Event, t: nat)
    requires Valid(s) && Inv(s) && t < |s.threads| && Working(s.threads[t].pc)
    ensures var pc, pc' := s.threads[t].pc, Next(s, e).threads[t].pc;
            var k := |s.words|;
            && Inv(Next(s, e)) && PcOk(pc, k) && PcOk(pc', k)
            && (pc'.Idle?
                || (Working(pc') && pc'.pass == pc.pass && pc'.i == pc.i)
                || (Progress(pc', k) == Progress(pc, k) + 1 && (Working(pc') || pc'.Refused?)
                    && (FindsZero(s, e, t, pc.pass, pc.i) || Loses(s, e, t, pc.pass, pc.i, 1))))
  {
    if Enabled(s, e) { StepKeepsInv(s, e); }
  }

  /** Outside an acquire the thread stays outside until it begins one. */
  lemma {:induction false} StaysOut(s: System, t: nat, events: seq<Event>)
    requires Valid(s) && t < |s.threads| && !Working(s.threads[t].pc) && NoBegin(t, events)
    ensures Run(s, events).threads[t].pc == s.threads[t].pc
    decreases |events|
  {
    if events != [] {
      OutNext(s, events[0], t);
      RunNext(s, events);
      hide Next, Run;
      StaysOut(Next(s, events[0]), t, events[1..]);
    }
  }

  lemma OutNext(s: System, e: Event, t: nat)
    requires Valid(s) && t < |s.threads| && !Working(s.threads[t].pc) && e != Begin(t)
    ensures Next(s, e).threads[t].pc == s.threads[t].pc
  {
  }

  /** Event number k leaves word i of the pass behind. */
  predicate LeftAt(s: System, events: seq<Event>, t: nat, pass: nat, i: nat, k: nat)
    requires Valid(s)
  {
    k < |events| && (FindsZero(Before(s, events, k), events[k], t, pass, i) || Loses(Before(s, events, k), events[k], t, pass, i, 1))
  }

  lemma {:induction false} LeftBehind(s: System, t: nat, events: seq<Event>, pass: nat, i: nat) returns (k: nat)
    requires Valid(s) && Inv(s) && t < |s.threads| && Working(s.threads[t].pc) && NoBegin(t, events)
    requires Run(s, events).threads[t].pc == Refused
    requires pass < PASSES && i < |s.words| && Position(pass, i, |s.words|) >= Progress(s.threads[t].pc, |s.words|)
    ensures LeftAt(s, events, t, pass, i, k)
    decreases |events|
  {
    RunNothing(s);
    var e := events[0];
    var pc := s.threads[t].pc;
    var s1 := Next(s, e);
    NextProgress(s, e, t);
    RunNext(s, events);
    assert events[..0] == [];
    hide Run, Next, FindsZero, Loses, Inv;
    if FindsZero(s, e, t, pass, i) || Loses(s, e, t, pass, i, 1) {
      k := 0;
    } else {
      if !Working(s1.threads[t].pc) { StaysOut(s1, t, events[1..]); }
      k := LeftBehind(s1, t, events[1..], pass, i);
      BeforeNext(s, events, k);
      k := k + 1;
    }
  }

  lemma RunNothing(s: System)
    requires Valid(s)
    ensures Run(s, []) == s
  {
  }

  lemma {:induction false} RunAppend(s: System, events: seq<Event>, e: Event)
    requires Valid(s)
    ensures Run(s, events + [e]) == Next(Run(s, events), e)
    decreases |events|
  {
    RunNext(s, events + [e]);
    if events == [] {
      RunNothing(s);
      RunNothing(Next(s, e));
    } else {
      RunNext(s, events);
      assert (events + [e])[1..] == events[1..] + [e];
      RunAppend(Next(s, events[0]), events[1..], e);
    }
  }

  lemma BeforeLast(s: System, events: seq<Event>, k: nat)
    requires Valid(s) && 0 < k <= |events|
    ensures Before(s, events, k) == Next(Before(s, events, k - 1), events[k - 1])
  {
    assert events[..k] == events[..k - 1] + [events[k - 1]];
    RunAppend(s, events[..k - 1], events[k - 1]);
  }

  /** A thread on its second attempt at a word lost the first one. */
  lemma {:induction false} FirstLoss(s: System, t: nat, events: seq<Event>, k: nat) returns (k0: nat)
    requires Valid(s) && t < |s.threads| && !s.threads[t].pc.Try? && k <= |events|
    requires var pc := Before(s, events, k).threads[t].pc; pc.Try? && pc.retries == 1
    ensures var pc := Before(s, events, k).threads[t].pc;
            k0 < k && Loses(Before(s, events, k0), events[k0], t, pc.pass, pc.i, 0)
    decreases k
  {
    RunNothing(s);
    assert events[..0] == [];
    BeforeLast(s, events, k);
    SecondTry(Before(s, events, k - 1), events[k - 1], t);
    hide Run, Next, Loses, Before;
    if Before(s, events, k - 1).threads[t].pc == Before(s, events, k).threads[t].pc {
      k0 := FirstLoss(s, t, events, k - 1);
    } else {
      k0 := k - 1;
    }
  }

  lemma SecondTry(s: System, e: Event, t: nat)
    requires Valid(s) && t < |s.threads|
    requires var pc := Next(s, e).threads[t].pc; pc.Try? && pc.retries == 1
    ensures var pc := Next(s, e).threads[t].pc;
            s.threads[t].pc == pc || Loses(s, e, t, pc.pass, pc.i, 0)
  {
    hide LowestSet, Bit, ClearBit, GiveBack;
  }

  ghost predicate ZeroAt(s: System, events: seq<Event>, t: nat, pass: nat, i: nat, k: nat)
    requires Valid(s)
  {
    k < |events| && FindsZero(Before(s, events, k), events[k], t, pass, i)
  }

  ghost predicate LossAt(s: System, events: seq<Event>, t: nat, pass: nat, i: nat, r: nat, k: nat)
    requires Valid(s)
  {
    k < |events| && Loses(Before(s, events, k), events[k], t, pass, i, r)
  }

  /** In this pass the thread found the word at offset i zero, or lost two compare-exchanges on it. */
  ghost predicate PassedOver(s: System, events: seq<Event>, t: nat, pass: nat, i: nat)
    requires Valid(s)
  {
    || (exists k: nat :: ZeroAt(s, events, t, pass, i, k))
    || (exists k: nat, k': nat :: k < k' && LossAt(s, events, t, pass, i, 0, k) && LossAt(s, events, t, pass, i, 1, k'))
  }

  /** What a refusal means, whatever the other threads did: in each of the two passes every word was found zero,
      or two compare-exchanges on it were lost. */
  lemma RefusalMeans(s: System, t: nat, events: seq<Event>)
    requires Valid(s) && Inv(s) && Enabled(s, Begin(t)) && NoBegin(t, events)
    requires Run(s, [Begin(t)] + events).threads[t].pc == Refused
    ensures var begun := Next(s, Begin(t));
            forall pass: nat, i: nat {:trigger PassedOver(begun, events, t, pass, i)} ::
              pass < PASSES && i < |s.words| ==> PassedOver(begun, events, t, pass, i)
  {
    var begun := Next(s, Begin(t));
    StepKeepsInv(s, Begin(t));
    RunNext(s, [Begin(t)] + events);
    assert ([Begin(t)] + events)[1..] == events;
    hide Run, Next, FindsZero, Loses, Inv, Before;
    forall pass: nat, i: nat | pass < PASSES && i < |s.words| ensures PassedOver(begun, events, t, pass, i) {
      var k := LeftBehind(begun, t, events, pass, i);
      if FindsZero(Before(begun, events, k), events[k], t, pass, i) {
        assert ZeroAt(begun, events, t, pass, i, k);
      } else {
        assert LossAt(begun, events, t, pass, i, 1, k);
        LosesWhere(Before(begun, events, k), events[k], t, pass, i, 1);
        var k0 := FirstLoss(begun, t, events, k);
        assert LossAt(begun, events, t, pass, i, 0, k0);
      }
    }
  }

  lemma LosesWhere(s: System, e: Event, t: nat, pass: nat, i: nat, r: nat)
    requires Valid(s) && Loses(s, e, t, pass, i, r)
    ensures t < |s.threads| && s.threads[t].pc.Try? && s.threads[t].pc.pass == pass && s.threads[t].pc.i == i && s.threads[t].pc.retries == r
  {
  }

  /* ---- refused while slots are free, with no spurious failure ---- */

  /** Thread u takes the lowest free slot of the only word between t's load and t's compare-exchange, and gives it
      back before t's second attempt. */
  function Interference(t: nat, u: nat, slot: nat): seq<Event> {
    [Load(t), Begin(u), Load(u), Cas(u, false), Cas(t, false), GiveUp(u, slot), Cas(t, false)]
  }

  predicate Contended(s: System, t: nat, u: nat) {
    Valid(s) && |s.words| == 1 && t < |s.threads| && u < |s.threads| && t != u && s.words[0] != 0
    && ClearBit(s.words[0], LowestSet(s.words[0])) != 0 && LowestSet(s.words[0]) !in s.threads[u].held
    && s.threads[t].pc.Scan? && s.threads[t].pc.i == 0 && !Working(s.threads[u].pc)
  }

  lemma RunCons(s: System, e: Event, rest: seq<Event>)
    requires Valid(s)
    ensures Run(s, [e] + rest) == Run(Next(s, e), rest)
  {
    RunNext(s, [e] + rest);
    assert ([e] + rest)[1..] == rest;
  }

  lemma RunThree(s: System, e1: Event, e2: Event, e3: Event, rest: seq<Event>)
    requires Valid(s)
    ensures Run(s, [e1, e2, e3] + rest) == Run(Next(Next(Next(s, e1), e2), e3), rest)
  {
    hide Run, Next;
    RunCons(s, e1, [e2, e3] + rest);
    RunCons(Next(s, e1), e2, [e3] + rest);
    RunCons(Next(Next(s, e1), e2), e3, rest);
    assert [e1, e2, e3] + rest == [e1] + ([e2, e3] + rest);
    assert [e2, e3] + rest == [e2] + ([e3] + rest);
  }

  lemma RunFour(s: System, e1: Event, e2: Event, e3: Event, e4: Event, rest: seq<Event>)
    requires Valid(s)
    ensures Run(s, [e1, e2, e3, e4] + rest) == Run(Next(Next(Next(Next(s, e1), e2), e3), e4), rest)
  {
    hide Run, Next;
    RunCons(s, e1, [e2, e3, e4] + rest);
    RunThree(Next(s, e1), e2, e3, e4, rest);
    assert [e1, e2, e3, e4] + rest == [e1] + ([e2, e3, e4] + rest);
  }

  lemma TakeAndReturn(w: nat)
    requires w != 0 && w < Pow2(WORD_BITS)
    ensures var b := LowestSet(w);
            b < WORD_BITS && ClearBit(w, b) != w && SetBit(ClearBit(w, b), b) == w && ClearBit(w, b) < Pow2(WORD_BITS)
  {
    var b := LowestSet(w);
    BitBound(w, WORD_BITS, b);
    MaskArithmetic(w, b);
    BitAfter(w, b, b);
    MaskArithmetic(ClearBit(w, b), b);
    WidthAfter(w, WORD_BITS, b);
  }

  function WithThread(s: System, t: nat, th: Thread): System
    requires t < |s.threads|
  {
    s.(threads := s.threads[t := th])
  }

  /** The first four events: u holds the slot t is after. */
  lemma Snatched(s: System, t: nat, u: nat, rest: seq<Event>) returns (r: System)
    requires Contended(s, t, u)
    ensures var w := s.words[0]; var b := LowestSet(w); var tt, uu := s.threads[t], s.threads[u];
            r == WithThread(WithThread(s, t, tt.(pc := Try(tt.pc.pass, 0, w, 0))), u, uu.(pc := Idle, held := uu.held + {b}, attempts := 1))
                 .(words := [ClearBit(w, b)])
    ensures Valid(r) && Run(s, [Load(t), Begin(u), Load(u), Cas(u, false)] + rest) == Run(r, rest)
  {
    hide Run, LowestSet, ClearBit, Bit, SetBit, GiveBack;
    var w := s.words[0];
    TakeAndReturn(w);
    var tt, uu := s.threads[t], s.threads[u];
    var a := WithThread(s, t, tt.(pc := Try(tt.pc.pass, 0, w, 0)));
    var b := WithThread(a, u, uu.(pc := Scan(0, 0), attempts := 0));
    var c := WithThread(a, u, uu.(pc := Try(0, 0, w, 0), attempts := 0));
    r := WithThread(a, u, uu.(pc := Idle, held := uu.held + {LowestSet(w)}, attempts := 1)).(words := [ClearBit(w, LowestSet(w))]);
    assert Next(s, Load(t)) == a && Next(a, Begin(u)) == b && Next(b, Load(u)) == c;
    WinOnOne(c, u);
    hide Next;
    assert Next(c, Cas(u, false)) == r;
    RunFour(s, Load(t), Begin(u), Load(u), Cas(u, false), rest);
  }

  lemma LoseStep(s: System, t: nat)
    requires Valid(s) && |s.words| == 1 && t < |s.threads| && s.threads[t].pc.Try? && s.threads[t].pc.i == 0
    requires s.words[0] != 0 && s.threads[t].pc.expected != 0 && s.words[0] != s.threads[t].pc.expected
    ensures var th := s.threads[t]; var pc := th.pc;
            Next(s, Cas(t, false)) == WithThread(s, t, th.(
              pc := if pc.retries + 1 >= MAX_RETRIES then NextPc(pc.pass, 0, 1) else Try(pc.pass, 0, s.words[0], pc.retries + 1),
              attempts := th.attempts + 1))
  {
    hide LowestSet, ClearBit, Bit, SetBit;
  }

  lemma GiveUpStep(s: System, u: nat, b: nat)
    requires Valid(s) && |s.words| == 1 && u < |s.threads| && s.threads[u].pc == Idle && b in s.threads[u].held && b < WORD_BITS
    ensures Next(s, GiveUp(u, b)) == WithThread(s, u, s.threads[u].(held := s.threads[u].held - {b})).(words := [SetBit(s.words[0], b)])
  {
    hide LowestSet, ClearBit, Bit, SetBit;
    assert b / WORD_BITS == 0 && b % WORD_BITS == b;
  }

  lemma WinOnOne(s: System, u: nat)
    requires Valid(s) && |s.words| == 1 && u < |s.threads| && s.threads[u].pc.Try? && s.threads[u].pc.i == 0
    requires s.words[0] == s.threads[u].pc.expected != 0
    ensures var th := s.threads[u]; var b := LowestSet(s.words[0]);
            Next(s, Cas(u, false)) == WithThread(s, u, th.(pc := Idle, held := th.held + {b}, attempts := th.attempts + 1))
                                        .(words := [ClearBit(s.words[0], b)])
  {
    hide LowestSet, ClearBit, Bit, SetBit;
  }

  /** The last three: t loses, u gives the slot back, t loses again. */
  lemma LostTwice(s: System, t: nat, u: nat, w: nat, rest: seq<Event>) returns (r: System)
    requires Valid(s) && |s.words| == 1 && t < |s.threads| && u < |s.threads| && t != u && w != 0 && w < Pow2(WORD_BITS)
    requires s.words == [ClearBit(w, LowestSet(w))] && s.words[0] != 0
    requires s.threads[t].pc.Try? && s.threads[t].pc == Try(s.threads[t].pc.pass, 0, w, 0)
    requires s.threads[u].pc == Idle && LowestSet(w) in s.threads[u].held
    ensures var b := LowestSet(w); var tt, uu := s.threads[t], s.threads[u];
            r == WithThread(WithThread(s, t, tt.(pc := NextPc(tt.pc.pass, 0, 1), attempts := tt.attempts + 2)), u, uu.(held := uu.held - {b}))
                 .(words := [w])
    ensures Valid(r) && Run(s, [Cas(t, false), GiveUp(u, LowestSet(w)), Cas(t, false)] + rest) == Run(r, rest)
  {
    hide Run, Next, NextPc;
    var b := LowestSet(w);
    r := Next(Next(Next(s, Cas(t, false)), GiveUp(u, b)), Cas(t, false));
    AfterBoth(s, t, u, w);
    RunThree(s, Cas(t, false), GiveUp(u, b), Cas(t, false), rest);
  }

  lemma AfterBoth(s: System, t: nat, u: nat, w: nat)
    requires Valid(s) && |s.words| == 1 && t < |s.threads| && u < |s.threads| && t != u && w != 0 && w < Pow2(WORD_BITS)
    requires s.words == [ClearBit(w, LowestSet(w))] && s.words[0] != 0
    requires s.threads[t].pc.Try? && s.threads[t].pc == Try(s.threads[t].pc.pass, 0, w, 0)
    requires s.threads[u].pc == Idle && LowestSet(w) in s.threads[u].held
    ensures var b := LowestSet(w); var tt, uu := s.threads[t], s.threads[u];
            Next(Next(Next(s, Cas(t, false)), GiveUp(u, b)), Cas(t, false))
            == WithThread(WithThread(s, t, tt.(pc := NextPc(tt.pc.pass, 0, 1), attempts := tt.attempts + 2)), u, uu.(held := uu.held - {b}))
                 .(words := [w])
  {
    hide LowestSet, ClearBit, Bit, SetBit, Next, NextPc;
    TakeAndReturn(w);
    var b := LowestSet(w);
    LoseStep(s, t);
    var c := Next(s, Cas(t, false));
    GiveUpStep(c, u, b);
    var d := Next(c, GiveUp(u, b));
    assert d.words == [w];
    LoseStep(d, t);
  }

  /** One pass of t under that interference. */
  lemma ContendedPass(s: System, t: nat, u: nat, rest: seq<Event>) returns (r: System)
    requires Contended(s, t, u)
    ensures var tt, uu := s.threads[t], s.threads[u];
            r == WithThread(WithThread(s, t, tt.(pc := NextPc(tt.pc.pass, 0, 1), attempts := tt.attempts + 2)), u, uu.(pc := Idle, attempts := 1))
    ensures Valid(r) && Run(s, Interference(t, u, LowestSet(s.words[0])) + rest) == Run(r, rest)
  {
    hide Run, LowestSet, ClearBit, Bit, SetBit;
    var w := s.words[0];
    var last := [Cas(t, false), GiveUp(u, LowestSet(w)), Cas(t, false)] + rest;
    var m := Snatched(s, t, u, last);
    r := LostTwice(m, t, u, w, rest);
    assert [w] == s.words;
    assert Interference(t, u, LowestSet(w)) + rest == [Load(t), Begin(u), Load(u), Cas(u, false)] + last;
  }

  lemma TwoPasses(s: System, t: nat, u: nat)
    requires Contended(s, t, u) && s.threads[t].pc == Scan(0, 0)
    ensures var again := Interference(t, u, LowestSet(s.words[0]));
            var r := Run(s, again + again);
            r.threads[t].pc == Refused && r.words == s.words && r.threads[t].held == s.threads[t].held
  {
    hide Run, LowestSet, ClearBit;
    var again := Interference(t, u, LowestSet(s.words[0]));
    var s1 := ContendedPass(s, t, u, again);
    var s2 := ContendedPass(s1, t, u, []);
    assert again + [] == again;
    RunNothing(s2);
  }

  lemma Begun(s: System, t: nat, u: nat)
    requires Valid(s) && Inv(s) && |s.words| == 1 && t < |s.threads| && u < |s.threads| && t != u
    requires !Working(s.threads[t].pc) && !Working(s.threads[u].pc)
    requires s.words[0] != 0 && ClearBit(s.words[0], LowestSet(s.words[0])) != 0
    ensures var s1 := Next(s, Begin(t));
            Contended(s1, t, u) && s1.threads[t].pc == Scan(0, 0) && s1.words == s.words && s1.threads[t].held == s.threads[t].held
  {
    LowestIsFree(s, u);
    hide LowestSet, ClearBit, Bit, SetBit;
  }

  /** Two threads and one word with two free slots: t is refused although no compare-exchange fails spuriously and
      every slot that was free is free again at the end. */
  lemma RefusedUnderContention(s: System, t: nat, u: nat)
    requires Valid(s) && Inv(s) && |s.words| == 1 && t < |s.threads| && u < |s.threads| && t != u
    requires !Working(s.threads[t].pc) && !Working(s.threads[u].pc)
    requires s.words[0] != 0 && ClearBit(s.words[0], LowestSet(s.words[0])) != 0
    ensures var again := Interference(t, u, LowestSet(s.words[0]));
            var r := Run(s, [Begin(t)] + (again + again));
            r.threads[t].pc == Refused && r.words == s.words && r.threads[t].held == s.threads[t].held
  {
    hide Run, Next, LowestSet, ClearBit, Inv, Contended;
    var again := Interference(t, u, LowestSet(s.words[0]));
    Begun(s, t, u);
    TwoPasses(Next(s, Begin(t)), t, u);
    RunCons(s, Begin(t), again + again);
  }

  lemma LowestIsFree(s: System, u: nat)
    requires Valid(s) && Inv(s) && |s.words| == 1 && s.words[0] != 0 && u < |s.threads|
    ensures LowestSet(s.words[0]) !in s.threads[u].held
  {
    hide Bit;
    var b := LowestSet(s.words[0]);
    TakeAndReturn(s.words[0]);
    assert b / WORD_BITS == 0 && b % WORD_BITS == b;
    assert HeldBy(s, b, u) == (b in s.threads[u].held);
  }
}
