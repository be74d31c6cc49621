/** The eviction sweep as a step system: the mutex holder looks at one record per step while other threads'
    lock-free release() calls lower pin counts in between.  Pins rise only under the mutex, so nothing else
    in a record can change during the sweep. */
module BridgeSweep {
  import opened Common
  import opened BridgeSpec
  import opened BridgeAllocation

  datatype Sweep = Sweep(ts: seq<Tenant>, n: nat, victim: Option<nat>)

  /** One record examined by the sweep, or one compare-exchange of a release landing on record j. */
  datatype Event = Look | Unpin(j: nat)

  function Start(ts: seq<Tenant>): Sweep { Sweep(ts, 0, None) }

  predicate Finished(s: Sweep) { s.n == |s.ts| }

  function Apply(s: Sweep, skip: nat, e: Event): Sweep {
    match e
    case Look =>
      if s.n >= |s.ts| then s
      else if Eligible(s.ts[s.n], skip)
              && (s.victim.None? || s.victim.value >= |s.ts| || s.ts[s.n].accessTime < s.ts[s.victim.value].accessTime)
      then Sweep(s.ts, s.n + 1, Some(s.n))
      else Sweep(s.ts, s.n + 1, s.victim)
    case Unpin(j) =>
      if j < |s.ts| && s.ts[j].pins > 0 then s.(ts := s.ts[j := s.ts[j].(pins := s.ts[j].pins - 1)]) else s
  }

  function ApplyAll(s: Sweep, skip: nat, events: seq<Event>): Sweep
    decreases |events|
  {
    if events == [] then s else ApplyAll(Apply(s, skip, events[0]), skip, events[1..])
  }

  predicate OnlyUnpinned(t: Tenant, t': Tenant) {
    t' == t.(pins := t'.pins) && t'.pins <= t.pins
  }

  /** What holds throughout the sweep, relative to the records it started from. */
  ghost predicate SweepInv(was: seq<Tenant>, s: Sweep, skip: nat) {
    && |s.ts| == |was| && s.n <= |s.ts|
    && (forall j {:trigger s.ts[j]} :: 0 <= j < |was| ==> OnlyUnpinned(was[j], s.ts[j]))
    && (s.victim.Some? ==> s.victim.value < s.n && Eligible(s.ts[s.victim.value], skip))
    && (forall j :: 0 <= j < s.n && Eligible(was[j], skip) ==>
          s.victim.Some? && was[s.victim.value].accessTime <= was[j].accessTime)
  }

  lemma ApplyKeepsInv(was: seq<Tenant>, s: Sweep, skip: nat, e: Event)
    requires SweepInv(was, s, skip)
    ensures SweepInv(was, Apply(s, skip, e), skip)
  {
    if e.Look? && s.n < |s.ts| { assert OnlyUnpinned(was[s.n], s.ts[s.n]); }
  }

  lemma {:induction false} ApplyAllKeepsInv(was: seq<Tenant>, s: Sweep, skip: nat, events: seq<Event>)
    requires SweepInv(was, s, skip)
    ensures SweepInv(was, ApplyAll(s, skip, events), skip)
    decreases |events|
  {
    if events != [] {
      ApplyKeepsInv(was, s, skip, events[0]);
      ApplyAllKeepsInv(was, Apply(s, skip, events[0]), skip, events[1..]);
    }
  }

  /** However releases interleave with the sweep: the chosen victim is eligible when the sweep ends (never
      pinned, sealed, micro or the skipped tenant), it is at least as old as every tenant that was eligible
      when the sweep began, and no victim means nobody was eligible then. */
  lemma SweepIsSafe(was: seq<Tenant>, skip: nat, events: seq<Event>)
    requires Finished(ApplyAll(Start(was), skip, events))
    ensures var s := ApplyAll(Start(was), skip, events);
            && |s.ts| == |was|
            && (forall j {:trigger s.ts[j]} :: 0 <= j < |was| ==> OnlyUnpinned(was[j], s.ts[j]))
            && (s.victim.Some? ==> s.victim.value < |was| && Eligible(s.ts[s.victim.value], skip))
            && (forall j :: 0 <= j < |was| && Eligible(was[j], skip) ==>
                  s.victim.Some? && was[s.victim.value].accessTime <= was[j].accessTime)
  {
    ApplyAllKeepsInv(was, Start(was), skip, events);
  }

  /** Releases that land between the end of the sweep and the commit leave the victim eligible. */
  lemma {:induction false} VictimStaysEligible(s: Sweep, skip: nat, events: seq<Event>, v: nat)
    requires Finished(s) && v < |s.ts| && Eligible(s.ts[v], skip)
    ensures var s' := ApplyAll(s, skip, events);
            v < |s'.ts| && Eligible(s'.ts[v], skip) && s'.ts[v] == s.ts[v] && s'.victim == s.victim
    decreases |events|
  {
    if events != [] { VictimStaysEligible(Apply(s, skip, events[0]), skip, events[1..], v); }
  }

  /** Without interference the sweep computes the bridge's Victim. */
  lemma {:induction false} QuietSweep(was: seq<Tenant>, skip: nat, n: nat)
    requires n <= |was|
    ensures ApplyAll(Start(was), skip, seq(n, _ => Look)) == Sweep(was, n, Victim(was, skip, n))
  {
    if n > 0 {
      QuietSweep(was, skip, n - 1);
      var events := seq(n, _ => Look);
      assert events == seq(n - 1, _ => Look) + [Look];
      ApplyAppend(Start(was), skip, seq(n - 1, _ => Look), Look);
    }
  }

  lemma {:induction false} ApplyAppend(s: Sweep, skip: nat, events: seq<Event>, e: Event)
    ensures ApplyAll(s, skip, events + [e]) == Apply(ApplyAll(s, skip, events), skip, e)
    decreases |events|
  {
    if events != [] {
      assert (events + [e])[1..] == events[1..] + [e];
      ApplyAppend(Apply(s, skip, events[0]), skip, events[1..], e);
    }
  }

  /* ---- against the sequential sweep ---- */

  /** The records the sweep finds ineligible when it looks at them. */
  ghost function Missed(s: Sweep, skip: nat, events: seq<Event>): set<nat>
    decreases |events|
  {
    if events == [] then {}
    else (if events[0] == Look && s.n < |s.ts| && !Eligible(s.ts[s.n], skip) then {s.n} else {})
         + Missed(Apply(s, skip, events[0]), skip, events[1..])
  }

  /** The victim is the oldest of the records examined, missed ones aside. */
  ghost predicate OldestSeen(s: Sweep, skip: nat, missed: set<nat>) {
    && s.n <= |s.ts|
    && (s.victim.Some? ==> s.victim.value < s.n && Eligible(s.ts[s.victim.value], skip) && s.victim.value !in missed)
    && (forall j :: 0 <= j < s.n && j !in missed ==>
          s.victim.Some? && s.ts[s.victim.value].accessTime <= s.ts[j].accessTime)
    && (forall j: nat :: j in missed ==> j < s.n)
  }

  lemma ApplyKeepsOldest(s: Sweep, skip: nat, e: Event, missed: set<nat>)
    requires OldestSeen(s, skip, missed)
    ensures OldestSeen(Apply(s, skip, e), skip,
                       missed + if e == Look && s.n < |s.ts| && !Eligible(s.ts[s.n], skip) then {s.n} else {})
  {
  }

  lemma {:induction false} SweepFindsOldest(s: Sweep, skip: nat, events: seq<Event>, missed: set<nat>)
    requires OldestSeen(s, skip, missed)
    ensures OldestSeen(ApplyAll(s, skip, events), skip, missed + Missed(s, skip, events))
    decreases |events|
  {
    if events == [] {
      assert missed + {} == missed;
    } else {
      ApplyKeepsOldest(s, skip, events[0], missed);
      var here := if events[0] == Look && s.n < |s.ts| && !Eligible(s.ts[s.n], skip) then {s.n} else {};
      SweepFindsOldest(Apply(s, skip, events[0]), skip, events[1..], missed + here);
      assert missed + Missed(s, skip, events) == (missed + here) + Missed(Apply(s, skip, events[0]), skip, events[1..]);
    }
  }

  /** The interleaved sweep's victim is the one an atomic sweep of the final records picks if and only if no record
      it found ineligible became eligible behind it and is older. */
  lemma VictimIsFinalExactly(was: seq<Tenant>, skip: nat, events: seq<Event>)
    requires Finished(ApplyAll(Start(was), skip, events))
    requires forall i, j :: 0 <= i < j < |was| && was[i].inUse && was[j].inUse ==> was[i].accessTime != was[j].accessTime
    ensures var s := ApplyAll(Start(was), skip, events);
            s.victim == Victim(s.ts, skip, |s.ts|)
            <==> forall j: nat :: j in Missed(Start(was), skip, events) && j < |s.ts| && Eligible(s.ts[j], skip) ==>
                   s.victim.Some? && s.victim.value < |s.ts| && s.ts[s.victim.value].accessTime < s.ts[j].accessTime
  {
    var s := ApplyAll(Start(was), skip, events);
    var missed := Missed(Start(was), skip, events);
    SweepFindsOldest(Start(was), skip, events, {});
    assert {} + missed == missed;
    SweepIsSafe(was, skip, events);
    hide ApplyAll, Missed, Victim;
    var v := Victim(s.ts, skip, |s.ts|);
    forall j: nat | j < |s.ts| && Eligible(s.ts[j], skip)
      ensures v.Some? && s.ts[v.value].accessTime <= s.ts[j].accessTime
    {
      VictimIsOldest(s.ts, skip, |s.ts|, j);
    }
    forall i, j | 0 <= i < j < |was| && s.ts[i].inUse && s.ts[j].inUse ensures s.ts[i].accessTime != s.ts[j].accessTime {
      assert OnlyUnpinned(was[i], s.ts[i]) && OnlyUnpinned(was[j], s.ts[j]);
    }
  }

  /** Three hot records of ages 1, 2, 3, the first two pinned once: the sweep passes the first, both are released, and
      it ends on the second, where an atomic sweep picks the third before the releases and the first after them. */
  lemma NeitherStartNorEnd(a: Tenant, b: Tenant, c: Tenant, skip: nat)
    requires a.accessTime == 1 && b.accessTime == 2 && c.accessTime == 3 && a.pins == 1 && b.pins == 1
    requires Eligible(a.(pins := 0), skip) && Eligible(b.(pins := 0), skip) && Eligible(c, skip)
    ensures var s := ApplyAll(Start([a, b, c]), skip, [Look, Unpin(0), Unpin(1), Look, Look]);
            Finished(s) && s.victim == Some(1) && Victim([a, b, c], skip, 3) == Some(2) && Victim(s.ts, skip, 3) == Some(0)
  {
    var ts, end := [a, b, c], [a.(pins := 0), b.(pins := 0), c];
    assert ApplyAll(Sweep(end, 1, None), skip, [Look, Look]) == Sweep(end, 3, Some(1)) by {
      assert Apply(Sweep(end, 1, None), skip, Look) == Sweep(end, 2, Some(1));
      assert Apply(Sweep(end, 2, Some(1)), skip, Look) == Sweep(end, 3, Some(1));
      assert [Look, Look][1..] == [Look];
    }
    var s1 := Sweep(ts, 1, None);
    assert Apply(Start(ts), skip, Look) == s1;
    var s2 := Apply(s1, skip, Unpin(0));
    assert Apply(s2, skip, Unpin(1)) == Sweep(end, 1, None);
    var e := [Look, Unpin(0), Unpin(1), Look, Look];
    assert e[1..] == [Unpin(0), Unpin(1), Look, Look] && e[1..][1..] == [Unpin(1), Look, Look] && e[1..][1..][1..] == [Look, Look];
    assert ApplyAll(Start(ts), skip, e) == ApplyAll(s1, skip, e[1..]) == ApplyAll(s2, skip, e[1..][1..]);
    assert Victim(ts, skip, 2) == None by { assert Victim(ts, skip, 1) == None; }
    assert Victim(end, skip, 2) == Some(0) by { assert Victim(end, skip, 1) == Some(0); }
  }
}
