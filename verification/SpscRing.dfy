/** The single-producer single-consumer ring (include/qtx/ipc/spsc_ring_buffer.hpp) as a step system: each
    load or store of a shared counter is a step, and copying a cell takes two steps in between which the
    cell holds no value.  `Step` is the machine with unbounded counters; the program's machine, whose
    counters wrap at 2^64, is `WrappedStep` and is shown to behave identically. */
module SpscRing {
  import opened Arithmetic
  import opened BitWords
  import opened Common

  const COUNTER_BITS: nat := 64

  /** Producer: outside try_push, about to refresh its copy of head, about to start and to finish storing
      the cell, about to publish tail. */
  datatype Producer<T> = Ready | Refreshing(value: T) | Storing(value: T) | HalfStored(value: T) | Publishing(value: T)

  /** Consumer: outside try_pop, about to refresh its copy of tail, about to start and to finish copying the
      cell (`seen` is what the first half saw), about to publish head.  None is a torn copy. */
  datatype Consumer<T> = Rested | Looking | Copying | HalfCopied(seen: Option<T>) | Leaving(got: Option<T>)

  /** `pushed` and `popped` are the histories of the published operations. */
  datatype Ring<T> = Ring(head: nat, tail: nat, cachedHead: nat, cachedTail: nat, cells: seq<Option<T>>,
                          p: Producer<T>, c: Consumer<T>, pushed: seq<T>, popped: seq<Option<T>>)

  datatype Event<T> =
    | StartPush(value: T)
    | RefreshHead
    | BeginStore
    | EndStore
    | PublishTail
    | StartPop
    | RefreshTail
    | BeginCopy
    | EndCopy
    | PublishHead

  predicate Enabled<T>(r: Ring<T>, e: Event<T>) {
    match e
    case StartPush(_) => r.p.Ready?
    case RefreshHead => r.p.Refreshing?
    case BeginStore => r.p.Storing?
    case EndStore => r.p.HalfStored?
    case PublishTail => r.p.Publishing?
    case StartPop => r.c.Rested?
    case RefreshTail => r.c.Looking?
    case BeginCopy => r.c.Copying?
    case EndCopy => r.c.HalfCopied?
    case PublishHead => r.c.Leaving?
  }

  /** The arithmetic the two machines differ in. */
  datatype Counters = Counters(add: (nat, nat) -> nat, minus: (nat, nat) -> int, cell: nat -> nat)

  function StepWith<T(==)>(k: Counters, cap: nat, r: Ring<T>, e: Event<T>): Ring<T>
    requires Enabled(r, e) && k.cell(r.tail) < |r.cells| && k.cell(r.head) < |r.cells|
  {
    match e
    case StartPush(v) =>
      r.(p := if k.minus(r.tail, r.cachedHead) >= cap then Refreshing(v) else Storing(v))
    case RefreshHead =>
      r.(cachedHead := r.head, p := if k.minus(r.tail, r.head) >= cap then Ready else Storing(r.p.value))
    case BeginStore => r.(cells := r.cells[k.cell(r.tail) := None], p := HalfStored(r.p.value))
    case EndStore => r.(cells := r.cells[k.cell(r.tail) := Some(r.p.value)], p := Publishing(r.p.value))
    case PublishTail => r.(tail := k.add(r.tail, 1), p := Ready, pushed := r.pushed + [r.p.value])
    case StartPop => r.(c := if r.head == r.cachedTail then Looking else Copying)
    case RefreshTail => r.(cachedTail := r.tail, c := if r.head == r.tail then Rested else Copying)
    case BeginCopy => r.(c := HalfCopied(r.cells[k.cell(r.head)]))
    case EndCopy => r.(c := Leaving(if r.cells[k.cell(r.head)] == r.c.seen then r.c.seen else None))
    case PublishHead => r.(head := k.add(r.head, 1), c := Rested, popped := r.popped + [r.c.got])
  }

  /* ---- unbounded counters ---- */

  function CellOf(x: nat, cap: nat): (i: nat)
    requires cap > 0
    ensures i < cap
  {
    x % cap
  }

  function Plain(cap: nat): Counters
    requires cap > 0
  {
    Counters((a: nat, b: nat) => a + b, (a: nat, b: nat) => a - b, (a: nat) => CellOf(a, cap))
  }

  function Step<T(==)>(cap: nat, r: Ring<T>, e: Event<T>): (s: Ring<T>)
    requires cap > 0 && |r.cells| == cap && Enabled(r, e)
    ensures |s.cells| == cap
  {
    StepWith(Plain(cap), cap, r, e)
  }

  ghost predicate Inv<T>(cap: nat, r: Ring<T>) {
    && 0 < cap == |r.cells|
    && r.tail == |r.pushed| && r.head == |r.popped|
    && r.cachedHead <= r.head <= r.cachedTail <= r.tail <= r.cachedHead + cap
    && (forall k :: r.head <= k < r.tail ==> r.cells[CellOf(k, cap)] == Some(r.pushed[k]))
    && (forall k :: 0 <= k < r.head ==> r.popped[k] == Some(r.pushed[k]))
    && (r.p.Storing? || r.p.HalfStored? || r.p.Publishing? ==> r.tail < r.cachedHead + cap)
    && (r.p.Publishing? ==> r.cells[CellOf(r.tail, cap)] == Some(r.p.value))
    && (r.c.Copying? || r.c.HalfCopied? || r.c.Leaving? ==> r.head < r.cachedTail)
    && (r.c.HalfCopied? ==> r.c.seen == Some(r.pushed[r.head]))
    && (r.c.Leaving? ==> r.c.got == Some(r.pushed[r.head]))
  }

  /** Distinct positions less than a lap apart are distinct cells. */
  lemma CellsDiffer(a: nat, b: nat, cap: nat)
    requires a < b < a + cap
    ensures CellOf(a, cap) != CellOf(b, cap)
  {
    var d := b / cap - a / cap;
    assert b - a == cap * d + (b % cap - a % cap);
    assert d >= 1 ==> cap * d >= cap;
    assert d <= 0 ==> cap * d <= 0;
  }

  /** The cell about to be stored holds no unread value. */
  lemma StoreHitsNoUnreadCell<T>(cap: nat, r: Ring<T>, k: nat)
    requires Inv(cap, r) && (r.p.Storing? || r.p.HalfStored?) && r.head <= k < r.tail
    ensures CellOf(r.tail, cap) != CellOf(k, cap)
  {
    CellsDiffer(k, r.tail, cap);
  }

  lemma StepKeepsInv<T>(cap: nat, r: Ring<T>, e: Event<T>)
    requires Inv(cap, r) && Enabled(r, e)
    ensures Inv(cap, Step(cap, r, e))
  {
    hide CellOf;
    if e.BeginStore? || e.EndStore? {
      var s := Step(cap, r, e);
      forall k | r.head <= k < r.tail ensures s.cells[CellOf(k, cap)] == Some(r.pushed[k]) {
        StoreHitsNoUnreadCell(cap, r, k);
      }
    }
  }

  /** Any schedule of the two threads: an event that is not enabled where it comes up is skipped. */
  function Run<T(==)>(cap: nat, r: Ring<T>, events: seq<Event<T>>): (s: Ring<T>)
    requires 0 < cap == |r.cells|
    ensures |s.cells| == cap
    decreases |events|
  {
    if events == [] then r
    else Run(cap, if Enabled(r, events[0]) then Step(cap, r, events[0]) else r, events[1..])
  }

  function Empty<T>(cap: nat): Ring<T> {
    Ring(0, 0, 0, 0, seq(cap, _ => None), Ready, Rested, [], [])
  }

  lemma {:induction false} RunKeepsInv<T>(cap: nat, r: Ring<T>, events: seq<Event<T>>)
    requires 0 < cap == |r.cells| && Inv(cap, r)
    ensures Inv(cap, Run(cap, r, events))
    decreases |events|
  {
    hide Inv, Step;
    if events != [] {
      if Enabled(r, events[0]) { StepKeepsInv(cap, r, events[0]); }
      RunKeepsInv(cap, if Enabled(r, events[0]) then Step(cap, r, events[0]) else r, events[1..]);
    }
  }

  /** The popped values are the pushed ones, whole and in order, and nothing is popped before it is pushed. */
  ghost predicate Fifo<T>(r: Ring<T>) {
    |r.popped| <= |r.pushed| && forall k :: 0 <= k < |r.popped| ==> r.popped[k] == Some(r.pushed[k])
  }

  /** What the answers mean: a refused push saw the ring full and a refused pop saw it empty, at the step
      that loaded the other side's counter. */
  lemma AnswersAreTrue<T>(cap: nat, r: Ring<T>)
    requires Inv(cap, r)
    ensures Enabled(r, RefreshHead) ==> (Step(cap, r, RefreshHead).p.Ready? <==> |r.pushed| - |r.popped| == cap)
    ensures Enabled(r, RefreshTail) ==> (Step(cap, r, RefreshTail).c.Rested? <==> |r.pushed| == |r.popped|)
  {
  }

  /* ---- counters that wrap ---- */

  const WRAP: nat := Pow2(COUNTER_BITS)

  function Mod(x: int): (r: nat)
    ensures r < WRAP
  {
    x % WRAP
  }

  /** Bitwise and of two words. */
  function And(a: nat, b: nat): nat {
    if a == 0 || b == 0 then 0 else 2 * And(a / 2, b / 2) + a % 2 * (b % 2)
  }

  /** `& kMask` keeps the remainder modulo the power-of-two capacity. */
  lemma {:induction false} MaskIsModulo(x: nat, bits: nat)
    ensures And(x, Pow2(bits) - 1) == x % Pow2(bits)
  {
    hide And;
    if x == 0 {
      AndZero(x, Pow2(bits) - 1);
      QuotientIs(x, Pow2(bits), 0, 0);
    } else if bits == 0 {
      AndZero(x, Pow2(bits) - 1);
      QuotientIs(x, 1, x, 0);
    } else {
      var half := Pow2(bits - 1);
      assert Pow2(bits) == 2 * half;
      MaskIsModulo(x / 2, bits - 1);
      AndStep(x, half);
      DoubleModulo(x, half);
    }
  }

  lemma AndZero(a: nat, b: nat)
    requires a == 0 || b == 0
    ensures And(a, b) == 0
  {
  }

  lemma AndStep(x: nat, half: nat)
    requires half > 0 && x > 0
    ensures And(x, 2 * half - 1) == 2 * And(x / 2, half - 1) + x % 2
  {
    var m := 2 * half - 1;
    assert m / 2 == half - 1 && m % 2 == 1;
  }

  lemma DoubleModulo(x: nat, half: nat)
    requires half > 0
    ensures x % (2 * half) == 2 * (x / 2 % half) + x % 2
  {
    var q, m := x / 2 / half, x / 2 % half;
    assert x / 2 == half * q + m;
    assert 2 * (half * q) == 2 * half * q;
    QuotientIs(x, 2 * half, q, 2 * m + x % 2);
  }

  function Wrapped(bits: nat): Counters {
    Counters((a: nat, b: nat) => Mod(a + b), (a: nat, b: nat) => Mod(a - b), (a: nat) => And(a, Pow2(bits) - 1))
  }

  function WrappedStep<T(==)>(bits: nat, r: Ring<T>, e: Event<T>): (s: Ring<T>)
    requires |r.cells| == Pow2(bits) && Enabled(r, e)
    ensures |s.cells| == Pow2(bits)
  {
    MaskIsModulo(r.tail, bits);
    MaskIsModulo(r.head, bits);
    StepWith(Wrapped(bits), Pow2(bits), r, e)
  }

  function WrappedRun<T(==)>(bits: nat, r: Ring<T>, events: seq<Event<T>>): (s: Ring<T>)
    requires |r.cells| == Pow2(bits)
    decreases |events|
  {
    if events == [] then r
    else WrappedRun(bits, if Enabled(r, events[0]) then WrappedStep(bits, r, events[0]) else r, events[1..])
  }

  function Wrap<T>(r: Ring<T>): Ring<T> {
    r.(head := Mod(r.head), tail := Mod(r.tail), cachedHead := Mod(r.cachedHead), cachedTail := Mod(r.cachedTail))
  }

  lemma DividesWrap(bits: nat)
    requires bits < COUNTER_BITS
    ensures Pow2(bits) * Pow2(COUNTER_BITS - bits) == WRAP && Pow2(bits) < WRAP
  {
    hide Pow2;
    Pow2Add(bits, COUNTER_BITS - bits);
    OneFits(COUNTER_BITS - bits);
    AtLeastDouble(Pow2(bits), Pow2(COUNTER_BITS - bits));
  }

  lemma AtLeastDouble(a: nat, b: nat)
    requires a >= 1 && b >= 2
    ensures a < a * b
  {
  }

  /** Because the capacity divides 2^64, wrapping a counter does not change its cell. */
  lemma SameCell(bits: nat, x: nat)
    requires bits < COUNTER_BITS
    ensures And(Mod(x), Pow2(bits) - 1) == CellOf(x, Pow2(bits))
  {
    hide And, Pow2;
    MaskIsModulo(Mod(x), bits);
    DividesWrap(bits);
    ModuloOfModulo(x, Pow2(bits), Pow2(COUNTER_BITS - bits));
  }

  lemma ModuloOfModulo(x: nat, a: nat, b: nat)
    requires a > 0 && b > 0 && a * b > 0
    ensures x % (a * b) % a == x % a
  {
    var n := a * b;
    DivMod(x, n);
    DivMod(x % n, a);
    Nested(x, a, b, x / n, x % n / a, x % n % a);
  }

  lemma Nested(x: nat, a: nat, b: nat, q: nat, i: nat, j: nat)
    requires j < a && x == a * b * q + (a * i + j)
    ensures x % a == j
  {
    assert a * b * q == a * (b * q);
    assert a * (b * q) + a * i == a * (b * q + i);
    QuotientIs(x, a, b * q + i, j);
  }

  /** Differences shorter than a lap of the counter survive wrapping. */
  lemma SameDistance(a: nat, b: nat)
    requires a <= b < a + WRAP
    ensures Mod(Mod(b) - Mod(a)) == b - a && (Mod(a) == Mod(b) <==> a == b)
  {
    hide Pow2;
    DistanceModulo(a, b, WRAP);
  }

  lemma DistanceModulo(a: nat, b: nat, n: nat)
    requires a <= b < a + n
    ensures (b % n - a % n) % n == b - a && (a % n == b % n <==> a == b)
  {
    DivMod(a, n);
    DivMod(b, n);
    var d := b % n - a % n;
    Laps(n, a / n, b / n, d, b - a);
    ShortModulo(d, n);
  }

  lemma ShortModulo(d: int, n: nat)
    requires n > 0 && -(n as int) < d < n
    ensures d % n == if d >= 0 then d else d + n
  {
    if d >= 0 {
      QuotientIs(d, n, 0, d);
    } else {
      ShiftedModulo(d, n);
      QuotientIs(d + n, n, 0, d + n);
    }
  }

  lemma ShiftedModulo(d: int, n: nat)
    requires n > 0 && -(n as int) < d < 0
    ensures d % n == (d + n) % n
  {
  }

  lemma Laps(n: nat, qa: nat, qb: nat, d: int, distance: nat)
    requires distance < n && -(n as int) < d < n && distance == n * qb - n * qa + d
    ensures distance == if d >= 0 then d else d + n
  {
    var laps := qb - qa;
    assert n * qb - n * qa == n * laps;
    LapBound(n, laps, distance - d);
  }

  lemma LapBound(n: nat, laps: int, x: int)
    requires x == n * laps && -(n as int) < x < 2 * n
    ensures x == 0 || x == n
  {
    assert laps >= 2 ==> n * laps >= n * 2;
    assert laps <= -1 ==> n * laps <= n * -1;
    assert laps == 0 || laps == 1;
  }

  lemma SameSuccessor(a: nat)
    ensures Mod(Mod(a) + 1) == Mod(a + 1)
  {
    hide Pow2;
    SuccessorModulo(a, WRAP);
  }

  lemma SuccessorModulo(a: nat, n: nat)
    requires n > 0
    ensures (a % n + 1) % n == (a + 1) % n
  {
    DivMod(a, n);
    Successor(a, n, a / n, a % n);
  }

  lemma Successor(a: nat, n: nat, q: nat, m: nat)
    requires m < n && a == n * q + m
    ensures (m + 1) % n == (a + 1) % n
  {
    if m + 1 < n {
      QuotientIs(m + 1, n, 0, m + 1);
      QuotientIs(a + 1, n, q, m + 1);
    } else {
      assert n * q + n == n * (q + 1);
      QuotientIs(n, n, 1, 0);
      QuotientIs(a + 1, n, q + 1, 0);
    }
  }

  lemma CountersClose<T>(cap: nat, r: Ring<T>)
    requires Inv(cap, r)
    ensures 0 < cap == |r.cells| && r.cachedHead <= r.head <= r.cachedTail <= r.tail <= r.cachedHead + cap
  {
  }

  /** One step of the wrapping machine is one step of the unbounded one. */
  lemma WrapRefines<T>(bits: nat, r: Ring<T>, e: Event<T>)
    requires bits < COUNTER_BITS && Inv(Pow2(bits), r) && Enabled(r, e)
    ensures WrappedStep(bits, Wrap(r), e) == Wrap(Step(Pow2(bits), r, e))
  {
    if e.StartPush? || e.RefreshHead? || e.BeginStore? || e.EndStore? || e.PublishTail? {
      ProducerRefines(bits, r, e);
    } else {
      ConsumerRefines(bits, r, e);
    }
  }

  lemma ProducerRefines<T>(bits: nat, r: Ring<T>, e: Event<T>)
    requires bits < COUNTER_BITS && Inv(Pow2(bits), r) && Enabled(r, e)
    requires e.StartPush? || e.RefreshHead? || e.BeginStore? || e.EndStore? || e.PublishTail?
    ensures WrappedStep(bits, Wrap(r), e) == Wrap(Step(Pow2(bits), r, e))
  {
    hide And, Pow2, Mod, CellOf, Inv;
    CountersClose(Pow2(bits), r);
    DividesWrap(bits);
    SameCell(bits, r.tail);
    SameDistance(r.cachedHead, r.tail);
    SameDistance(r.head, r.tail);
    SameSuccessor(r.tail);
  }

  lemma ConsumerRefines<T>(bits: nat, r: Ring<T>, e: Event<T>)
    requires bits < COUNTER_BITS && Inv(Pow2(bits), r) && Enabled(r, e)
    requires e.StartPop? || e.RefreshTail? || e.BeginCopy? || e.EndCopy? || e.PublishHead?
    ensures WrappedStep(bits, Wrap(r), e) == Wrap(Step(Pow2(bits), r, e))
  {
    hide And, Pow2, Mod, CellOf, Inv;
    CountersClose(Pow2(bits), r);
    DividesWrap(bits);
    SameCell(bits, r.head);
    SameDistance(r.head, r.tail);
    SameDistance(r.head, r.cachedTail);
    SameSuccessor(r.head);
  }

  lemma {:induction false} WrappedRunRefines<T>(bits: nat, r: Ring<T>, events: seq<Event<T>>)
    requires bits < COUNTER_BITS && |r.cells| == Pow2(bits) && Inv(Pow2(bits), r)
    ensures WrappedRun(bits, Wrap(r), events) == Wrap(Run(Pow2(bits), r, events))
    decreases |events|
  {
    hide Inv, Step, WrappedStep, Pow2;
    if events != [] {
      var e := events[0];
      if Enabled(r, e) {
        StepKeepsInv(Pow2(bits), r, e);
        WrapRefines(bits, r, e);
      }
      WrappedRunRefines(bits, if Enabled(r, e) then Step(Pow2(bits), r, e) else r, events[1..]);
    }
  }

  /** The program's ring, with counters that wrap, over every interleaving of loads, half-copies and
      publications: first in first out, no value lost, duplicated or torn, never more than the capacity
      in flight; a refused push met a full ring and a refused pop an empty one. */
  lemma RingIsFifo<T>(bits: nat, events: seq<Event<T>>)
    requires bits < COUNTER_BITS
    ensures var r := WrappedRun(bits, Empty<T>(Pow2(bits)), events);
            && |r.cells| == Pow2(bits) && Fifo(r) && |r.pushed| - |r.popped| <= Pow2(bits)
            && (Enabled(r, RefreshHead) ==>
                  (WrappedStep(bits, r, RefreshHead).p.Ready? <==> |r.pushed| - |r.popped| == Pow2(bits)))
            && (Enabled(r, RefreshTail) ==> (WrappedStep(bits, r, RefreshTail).c.Rested? <==> |r.pushed| == |r.popped|))
  {
    hide Pow2, WrappedStep;
    var r := Empty<T>(Pow2(bits));
    QuotientIs(0, WRAP, 0, 0);
    assert Wrap(r) == r;
    RunKeepsInv(Pow2(bits), r, events);
    WrappedRunRefines(bits, r, events);
    var s := Run(Pow2(bits), r, events);
    AnswersAreTrue(Pow2(bits), s);
    if Enabled(s, RefreshHead) { WrapRefines(bits, s, RefreshHead); }
    if Enabled(s, RefreshTail) { WrapRefines(bits, s, RefreshTail); }
  }

  /* ---- the buffer as an object, one call at a time ---- */

  /** The cells at positions from, from + 1, ..., upTo - 1. */
  ghost function Live<T>(cells: seq<T>, from: nat, upTo: nat): (r: seq<T>)
    requires from <= upTo && |cells| > 0
    ensures |r| == upTo - from
  {
    seq(upTo - from, k requires 0 <= k < upTo - from => cells[CellOf(from + k, |cells|)])
  }

  lemma LiveAfterPush<T>(cells: seq<T>, from: nat, upTo: nat, value: T)
    requires from <= upTo < from + |cells|
    ensures Live(cells[CellOf(upTo, |cells|) := value], from, upTo + 1) == Live(cells, from, upTo) + [value]
  {
    hide CellOf;
    forall k | from <= k < upTo ensures CellOf(k, |cells|) != CellOf(upTo, |cells|) { CellsDiffer(k, upTo, |cells|); }
  }

  lemma LiveAfterPop<T>(cells: seq<T>, from: nat, upTo: nat)
    requires from < upTo && |cells| > 0
    ensures Live(cells, from, upTo) == [cells[CellOf(from, |cells|)]] + Live(cells, from + 1, upTo)
  {
    hide CellOf;
  }

  class SPSCRingBuffer<T(0)> {
    const bits: nat
    const buffer: array<T>
    var head: nat
    var tail: nat
    var cachedHead: nat
    var cachedTail: nat

    /** The counters as they would be without wrapping. */
    ghost var pops: nat
    ghost var pushes: nat
    ghost var popsSeen: nat
    ghost var pushesSeen: nat

    ghost predicate Valid()
      reads this
    {
      && bits < COUNTER_BITS && buffer.Length == Pow2(bits)
      && head == Mod(pops) && tail == Mod(pushes) && cachedHead == Mod(popsSeen) && cachedTail == Mod(pushesSeen)
      && popsSeen <= pops <= pushesSeen <= pushes <= popsSeen + buffer.Length
    }

    /** The values pushed and not yet popped, oldest first. */
    ghost function Contents(): seq<T>
      requires Valid()
      reads this, buffer
    {
      Live(buffer[..], pops, pushes)
    }

    constructor (bits: nat)
      requires bits < COUNTER_BITS
      ensures Valid() && this.bits == bits && Contents() == [] && fresh(buffer)
    {
      hide Pow2;
      this.bits := bits;
      buffer := new T[Pow2(bits)];
      head, tail, cachedHead, cachedTail := 0, 0, 0, 0;
      pops, pushes, popsSeen, pushesSeen := 0, 0, 0, 0;
      QuotientIs(0, WRAP, 0, 0);
    }

    /** Fails exactly when the ring is full. */
    method TryPush(value: T) returns (ok: bool)
      requires Valid()
      modifies this`tail, this`cachedHead, this`pushes, this`popsSeen, buffer
      ensures Valid() && ok == (|old(Contents())| < Pow2(bits))
      ensures Contents() == if ok then old(Contents()) + [value] else old(Contents())
    {
      hide Pow2, And, Mod, CellOf, Live;
      DividesWrap(bits);
      SameDistance(popsSeen, pushes);
      SameDistance(pops, pushes);
      if Mod(tail - cachedHead) >= buffer.Length {
        cachedHead, popsSeen := head, pops;
        if Mod(tail - cachedHead) >= buffer.Length { return false; }
      }
      SameCell(bits, pushes);
      var cell := And(tail, buffer.Length - 1);
      LiveAfterPush(buffer[..], pops, pushes, value);
      buffer[cell] := value;
      assert buffer[..] == old(buffer[..])[cell := value];
      SameSuccessor(pushes);
      tail, pushes := Mod(tail + 1), pushes + 1;
      return true;
    }

    /** Fails exactly when the ring is empty. */
    method TryPop() returns (r: Option<T>)
      requires Valid()
      modifies this`head, this`cachedTail, this`pops, this`pushesSeen
      ensures Valid()
      ensures if old(Contents()) == [] then r == None && Contents() == []
              else r == Some(old(Contents())[0]) && Contents() == old(Contents())[1..]
    {
      hide Pow2, And, Mod, CellOf, Live;
      DividesWrap(bits);
      SameDistance(pops, pushesSeen);
      SameDistance(pops, pushes);
      if head == cachedTail {
        cachedTail, pushesSeen := tail, pushes;
        if head == cachedTail { return None; }
      }
      SameCell(bits, pops);
      LiveAfterPop(buffer[..], pops, pushes);
      var value := buffer[And(head, buffer.Length - 1)];
      SameSuccessor(pops);
      head, pops := Mod(head + 1), pops + 1;
      return Some(value);
    }
  }
}
