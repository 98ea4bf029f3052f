/** Whole runs of the timing wheel: how early and how late an event can fire.

    `drift` says how much the clock is trusted. With drift 0 every tick reads at least one second
    more than any reading before it; with drift 1 a tick reads at least one second more than the
    previous tick, but possibly the same second as an event armed in between, which is what
    re-arming a one-second timer from Start gives. */
module TimerRuns {
  import opened TimerSpec

  datatype Wheel = Wheel(pos: nat, entries: set<Entry>, arrive: map<EventId, int>)

  const EMPTY: Wheel := Wheel(0, {}, map[])

  /** Arm sets an event's deadline and adds it to the wheel: a new session's event, or the refresh
      that follows a request. Tick carries the clock readings of its cascade, none above `hi`. */
  datatype Op =
    | Arm(event: EventId, deadline: int, now: int)
    | Tick(clock: EventId -> int, hi: int)

  /** The handler can reach the event: it is new, or its weak pointer has not expired. */
  predicate Reachable(w: Wheel, e: EventId) {
    e !in w.arrive || Live(w.entries, e)
  }

  function Armed(w: Wheel, e: EventId, deadline: int, now: int): Wheel {
    if Reachable(w, e)
    then Wheel(w.pos, Added(w.pos, w.entries, e, deadline, now), w.arrive[e := deadline])
    else w
  }

  function Ticked(w: Wheel, clock: EventId -> int): Wheel {
    Wheel(NextPos(w.pos), AfterTick(NextPos(w.pos), w.entries, w.arrive, clock), w.arrive)
  }

  function Apply(w: Wheel, op: Op): Wheel {
    match op
    case Arm(e, deadline, now) => Armed(w, e, deadline, now)
    case Tick(clock, _) => Ticked(w, clock)
  }

  // ---- bookkeeping of a run: the earliest reading of the next tick, and each event's last tick ----

  /** `next` bounds the readings of the next tick from below; `limit[e]` is the position by which
      every add of `e` so far lets it go: the largest `pos + interval + drift`. */
  datatype Run = Run(w: Wheel, next: int, limit: map<EventId, int>)

  function Max(a: int, b: int): int {
    if a < b then b else a
  }

  function LimitOf(r: Run, e: EventId): int {
    if e in r.limit then r.limit[e] else 0
  }

  ghost predicate Legal(r: Run, op: Op) {
    match op
    case Arm(e, deadline, now) => deadline - now <= DAY
    case Tick(clock, hi) => r.next <= hi && forall e :: r.next <= clock(e) <= hi
  }

  function Step(r: Run, op: Op, drift: nat): Run {
    match op
    case Arm(e, deadline, now) =>
      if Reachable(r.w, e)
      then Run(Apply(r.w, op), Max(r.next, now + 1 - drift),
               r.limit[e := Max(LimitOf(r, e), r.w.pos + deadline - now + drift)])
      else r
    case Tick(_, hi) => Run(Apply(r.w, op), hi + 1, r.limit)
  }

  /** `e` has never been added so late in the day that its limit passes midnight. */
  predicate WithinDay(r: Run, e: EventId) {
    LimitOf(r, e) < DAY
  }

  /** The slot of `x` is still to be emptied, and no later than `limit`. */
  ghost predicate Ahead(pos: nat, x: Entry, limit: int) {
    pos < BlockStart(pos, x) <= limit
  }

  /** No entry of `e` outlives its limit, and some entry keeps it until its deadline. */
  ghost predicate Tracked(r: Run, e: EventId, drift: nat) {
    && (forall x :: x in r.w.entries && x.event == e ==> Ahead(r.w.pos, x, LimitOf(r, e)))
    && (Live(r.w.entries, e) ==>
          && LimitOf(r, e) >= r.w.pos + Deadline(r.w.arrive, e) - r.next + 1
          && exists x :: x in r.w.entries && x.event == e && Keeps(r, x, drift))
  }

  ghost predicate Keeps(r: Run, x: Entry, drift: nat) {
    x.wheel > 0 || r.next + BlockStart(r.w.pos, x) - r.w.pos >= Deadline(r.w.arrive, x.event) + 1 - drift
  }

  ghost predicate WellFormed(w: Wheel) {
    && w.pos < DAY
    && (forall x :: x in w.entries ==> InRange(x) && x.event in w.arrive)
  }

  ghost predicate Inv(r: Run, drift: nat) {
    && drift <= 1
    && WellFormed(r.w)
    && (forall e :: e in r.w.arrive ==> e in r.limit && r.w.arrive[e] - r.next <= DAY)
    && (forall e :: WithinDay(r, e) ==> Tracked(r, e, drift))
  }

  lemma ArmKeepsTracked(r: Run, op: Op, drift: nat, e: EventId)
    requires Inv(r, drift) && op.Arm? && Legal(r, op) && WithinDay(Step(r, op, drift), e)
    ensures Tracked(Step(r, op, drift), e, drift)
  {
    var r' := Step(r, op, drift);
    if op.event != e || !Reachable(r.w, e) {
      assert Tracked(r, e, drift);
      forall x | x in r'.w.entries && x.event == e ensures x in r.w.entries {}
      if Live(r'.w.entries, e) {
        var k :| k in r.w.entries && k.event == e && Keeps(r, k, drift);
        assert k in r'.w.entries && Keeps(r', k, drift);
      }
    } else {
      var interval := op.deadline - op.now;
      if WithinDay(r, e) {
        assert Tracked(r, e, drift);
      }
      if interval > 0 {
        PlaceAhead(e, r.w.pos, interval);
        var y := Place(e, r.w.pos, interval);
        assert y in r'.w.entries && Keeps(r', y, drift);
      }
    }
  }

  /** What one tick makes of one entry of a tracked event. */
  lemma TickEntry(r: Run, clock: EventId -> int, hi: int, drift: nat, x: Entry)
    requires WellFormed(r.w) && Legal(r, Tick(clock, hi)) && drift <= 1
    requires x in r.w.entries && WithinDay(r, x.event) && Tracked(r, x.event, drift)
    ensures var p := NextPos(r.w.pos);
            && p == r.w.pos + 1
            && (if Due(p, x) then BlockStart(r.w.pos, x) == p
                else Ahead(p, x, LimitOf(r, x.event)) && BlockStart(p, x) == BlockStart(r.w.pos, x))
            && LimitOf(r, x.event) >= p + Deadline(r.w.arrive, x.event) - clock(x.event)
  {
    assert Live(r.w.entries, x.event) && Ahead(r.w.pos, x, LimitOf(r, x.event));
    BlockStartStable(r.w.pos, x);
  }

  /** Where the cascade puts an entry of a tracked event. */
  lemma TickCascade(r: Run, clock: EventId -> int, hi: int, drift: nat, x: Entry)
    requires WellFormed(r.w) && Legal(r, Tick(clock, hi)) && drift <= 1
    requires x in r.w.entries && WithinDay(r, x.event) && Tracked(r, x.event, drift)
    requires Cascades(NextPos(r.w.pos), x, r.w.arrive, clock)
    ensures var p := NextPos(r.w.pos);
            var y := Replaced(p, x, r.w.arrive, clock);
            && Ahead(p, y, LimitOf(r, x.event)) && y.event == x.event
            && (y.wheel == 0 ==> BlockStart(p, y) == p + Deadline(r.w.arrive, x.event) - clock(x.event))
  {
    TickEntry(r, clock, hi, drift, x);
    PlaceAhead(x.event, NextPos(r.w.pos), Deadline(r.w.arrive, x.event) - clock(x.event));
  }

  /** Where an entry of a tracked event can come from. */
  lemma TickOrigin(r: Run, clock: EventId -> int, hi: int, drift: nat, y: Entry)
    requires WellFormed(r.w) && Legal(r, Tick(clock, hi)) && drift <= 1
    requires WithinDay(r, y.event) && Tracked(r, y.event, drift)
    requires y in Ticked(r.w, clock).entries
    ensures Live(r.w.entries, y.event) && NextPos(r.w.pos) == r.w.pos + 1
    ensures Ahead(NextPos(r.w.pos), y, LimitOf(r, y.event))
  {
    var x := TickSource(NextPos(r.w.pos), r.w.entries, r.w.arrive, clock, y);
    TickEntry(r, clock, hi, drift, x);
    if Due(NextPos(r.w.pos), x) {
      TickCascade(r, clock, hi, drift, x);
    }
  }

  /** While an event's deadline, less the drift, is not yet reached, its keeper survives the tick. */
  lemma TickKeeper(r: Run, clock: EventId -> int, hi: int, drift: nat, k: Entry) returns (y: Entry)
    requires WellFormed(r.w) && Legal(r, Tick(clock, hi)) && drift <= 1
    requires WithinDay(r, k.event) && Tracked(r, k.event, drift)
    requires k in r.w.entries && Keeps(r, k, drift)
    requires hi < Deadline(r.w.arrive, k.event) - drift
    ensures y in Ticked(r.w, clock).entries && y.event == k.event
    ensures Keeps(Step(r, Tick(clock, hi), drift), y, drift)
  {
    TickEntry(r, clock, hi, drift, k);
    var p := NextPos(r.w.pos);
    y := k;
    if Due(p, k) {
      TickCascade(r, clock, hi, drift, k);
      y := Replaced(p, k, r.w.arrive, clock);
    }
  }

  lemma TickKept(r: Run, clock: EventId -> int, hi: int, drift: nat, e: EventId)
    requires WellFormed(r.w) && Legal(r, Tick(clock, hi)) && drift <= 1
    requires WithinDay(r, e) && Tracked(r, e, drift) && Live(r.w.entries, e)
    requires hi < Deadline(r.w.arrive, e) - drift
    ensures exists y :: y in Ticked(r.w, clock).entries && y.event == e
                        && Keeps(Step(r, Tick(clock, hi), drift), y, drift)
  {
    var k :| k in r.w.entries && k.event == e && Keeps(r, k, drift);
    var y := TickKeeper(r, clock, hi, drift, k);
  }

  /** What a tick has to establish, in terms of the state after it. */
  lemma TrackedAgain(r': Run, e: EventId, drift: nat)
    requires forall y :: y in r'.w.entries && y.event == e ==> Ahead(r'.w.pos, y, LimitOf(r', e))
    requires Live(r'.w.entries, e) ==> LimitOf(r', e) >= r'.w.pos + Deadline(r'.w.arrive, e) - r'.next + 1
    requires Live(r'.w.entries, e) ==>
               || r'.next > Deadline(r'.w.arrive, e) - drift
               || exists y :: y in r'.w.entries && y.event == e && Keeps(r', y, drift)
    ensures Tracked(r', e, drift)
  {
    if Live(r'.w.entries, e) && r'.next > Deadline(r'.w.arrive, e) - drift {
      var y :| y in r'.w.entries && y.event == e;
      assert Keeps(r', y, drift);
    }
  }

  /** A tick keeps the bounds of every tracked event, and releases one only when the clock has
      come within `drift` of its deadline. */
  lemma TickKeepsTracked(r: Run, clock: EventId -> int, hi: int, drift: nat, e: EventId)
    requires WellFormed(r.w) && Legal(r, Tick(clock, hi)) && drift <= 1
    requires WithinDay(r, e) && Tracked(r, e, drift)
    ensures Tracked(Step(r, Tick(clock, hi), drift), e, drift)
    ensures Live(r.w.entries, e) && hi < Deadline(r.w.arrive, e) - drift ==> Live(Ticked(r.w, clock).entries, e)
  {
    var r' := Step(r, Tick(clock, hi), drift);
    if Live(r.w.entries, e) && hi < Deadline(r.w.arrive, e) - drift {
      TickKept(r, clock, hi, drift, e);
    }
    TickBounds(r, clock, hi, drift, e);
    TrackedAgain(r', e, drift);
  }

  lemma TickBounds(r: Run, clock: EventId -> int, hi: int, drift: nat, e: EventId)
    requires WellFormed(r.w) && Legal(r, Tick(clock, hi)) && drift <= 1
    requires WithinDay(r, e) && Tracked(r, e, drift)
    ensures var w' := Ticked(r.w, clock);
            && (forall y :: y in w'.entries && y.event == e ==> Ahead(w'.pos, y, LimitOf(r, e)))
            && (Live(w'.entries, e) ==> Live(r.w.entries, e) && w'.pos == r.w.pos + 1)
  {
    forall y | y in Ticked(r.w, clock).entries && y.event == e
      ensures Ahead(NextPos(r.w.pos), y, LimitOf(r, e))
      ensures NextPos(r.w.pos) == r.w.pos + 1 && Live(r.w.entries, e)
    {
      TickOrigin(r, clock, hi, drift, y);
    }
  }

  /** A tick keeps every entry in an existing slot, wherever in the day it comes. */
  lemma TickWellFormed(w: Wheel, clock: EventId -> int)
    requires WellFormed(w) && forall e :: e in w.arrive ==> w.arrive[e] - clock(e) <= DAY
    ensures WellFormed(Ticked(w, clock))
  {
    var p := NextPos(w.pos);
    forall y | y in Ticked(w, clock).entries ensures InRange(y) && y.event in w.arrive {
      var x := TickSource(p, w.entries, w.arrive, clock, y);
      if Due(p, x) {
        PlaceInRange(x.event, p, Deadline(w.arrive, x.event) - clock(x.event));
      }
    }
  }

  lemma StepKeepsInv(r: Run, op: Op, drift: nat)
    requires Inv(r, drift) && Legal(r, op)
    ensures Inv(Step(r, op, drift), drift)
  {
    match op
    case Arm(e, deadline, now) =>
      if Reachable(r.w, e) && deadline > now {
        PlaceInRange(e, r.w.pos, deadline - now);
      }
      forall e | WithinDay(Step(r, op, drift), e) ensures Tracked(Step(r, op, drift), e, drift) {
        ArmKeepsTracked(r, op, drift, e);
      }
    case Tick(clock, hi) =>
      TickWellFormed(r.w, clock);
      forall e | WithinDay(Step(r, op, drift), e) ensures Tracked(Step(r, op, drift), e, drift) {
        TickKeepsTracked(r, clock, hi, drift, e);
      }
  }

  // ---- runs ----

  /** The wheel as constructed; the first tick comes no earlier than clock reading `start`. */
  function Start(start: int): Run {
    Run(EMPTY, start, map[])
  }

  function After(r: Run, ops: seq<Op>, drift: nat): Run
    decreases |ops|
  {
    if ops == [] then r else After(Step(r, ops[0], drift), ops[1..], drift)
  }

  ghost predicate LegalRun(r: Run, ops: seq<Op>, drift: nat)
    decreases |ops|
  {
    ops != [] ==> Legal(r, ops[0]) && LegalRun(Step(r, ops[0], drift), ops[1..], drift)
  }

  lemma {:induction false} RunKeepsInv(r: Run, ops: seq<Op>, drift: nat)
    requires Inv(r, drift) && LegalRun(r, ops, drift)
    ensures Inv(After(r, ops, drift), drift)
    decreases |ops|
  {
    if ops != [] {
      StepKeepsInv(r, ops[0], drift);
      RunKeepsInv(Step(r, ops[0], drift), ops[1..], drift);
    }
  }

  /** After any run of arms and ticks the indices are in range and every entry sits in an existing
      slot other than slot 0, whether or not an add crossed the end of the day. */
  lemma SlotsAlwaysInRange(start: int, ops: seq<Op>, drift: nat)
    requires drift <= 1 && LegalRun(Start(start), ops, drift)
    ensures var w := After(Start(start), ops, drift).w;
            w.pos < DAY && forall x :: x in w.entries ==> InRange(x)
  {
    RunKeepsInv(Start(start), ops, drift);
  }

  function Ticks(ops: seq<Op>): nat {
    if ops == [] then 0 else (if ops[0].Tick? then 1 else 0) + Ticks(ops[1..])
  }

  predicate NeverArmed(ops: seq<Op>, e: EventId) {
    forall i :: 0 <= i < |ops| ==> ops[i].Arm? ==> ops[i].event != e
  }

  /** The position counts ticks modulo a day. */
  lemma {:induction false} PosCountsTicks(r: Run, ops: seq<Op>, drift: nat)
    requires r.w.pos < DAY
    ensures After(r, ops, drift).w.pos == (r.w.pos + Ticks(ops)) % DAY
    decreases |ops|
  {
    if ops != [] {
      StepMovesPos(r, ops[0], drift);
      PosCountsTicks(Step(r, ops[0], drift), ops[1..], drift);
      OneOn(r.w.pos, Ticks(ops[1..]));
    }
  }

  lemma StepMovesPos(r: Run, op: Op, drift: nat)
    ensures Step(r, op, drift).w.pos == if op.Tick? then NextPos(r.w.pos) else r.w.pos
  {
  }

  lemma OneOn(pos: nat, more: nat)
    ensures (NextPos(pos) + more) % DAY == (pos + 1 + more) % DAY
  {
    var q := (pos + 1) / DAY;
    assert pos + 1 + more == NextPos(pos) + more + DAY * q;
  }

  lemma {:induction false} DeadStaysDead(r: Run, ops: seq<Op>, drift: nat, e: EventId)
    requires e in r.w.arrive && !Live(r.w.entries, e)
    ensures !Live(After(r, ops, drift).w.entries, e)
    decreases |ops|
  {
    if ops != [] {
      var r' := Step(r, ops[0], drift);
      forall y | y in r'.w.entries ensures y.event != e {
        assert y in r.w.entries || (ops[0].Tick? && exists x :: x in r.w.entries && x.event == y.event)
            || (ops[0].Arm? && y.event == ops[0].event && Reachable(r.w, y.event));
      }
      DeadStaysDead(r', ops[1..], drift, e);
    }
  }

  lemma LiveIsEarly(r: Run, e: EventId, drift: nat)
    requires Tracked(r, e, drift) && Live(r.w.entries, e)
    ensures r.w.pos < LimitOf(r, e)
  {
    var x :| x in r.w.entries && x.event == e;
    assert Ahead(r.w.pos, x, LimitOf(r, e));
  }

  /** An event is out of the wheel once as many ticks have passed as its latest-running add allows. */
  lemma {:induction false} LateBound(r: Run, ops: seq<Op>, drift: nat, e: EventId)
    requires Inv(r, drift) && LegalRun(r, ops, drift)
    requires e in r.w.arrive && WithinDay(r, e) && NeverArmed(ops, e)
    requires r.w.pos + Ticks(ops) >= LimitOf(r, e)
    ensures !Live(After(r, ops, drift).w.entries, e)
    decreases |ops|
  {
    if !Live(r.w.entries, e) {
      DeadStaysDead(r, ops, drift, e);
    } else {
      LiveIsEarly(r, e, drift);
      LateBoundStep(r, ops[0], drift, e);
      LateBound(Step(r, ops[0], drift), ops[1..], drift, e);
    }
  }

  lemma LateBoundStep(r: Run, op: Op, drift: nat, e: EventId)
    requires Inv(r, drift) && Legal(r, op) && (op.Arm? ==> op.event != e)
    requires WithinDay(r, e) && r.w.pos < LimitOf(r, e)
    ensures var r' := Step(r, op, drift);
            && Inv(r', drift) && LimitOf(r', e) == LimitOf(r, e)
            && r'.w.pos == r.w.pos + (if op.Tick? then 1 else 0)
  {
    StepKeepsInv(r, op, drift);
  }

  lemma {:induction false} UnarmedKeepsDeadline(r: Run, ops: seq<Op>, drift: nat, e: EventId)
    requires NeverArmed(ops, e)
    ensures Deadline(After(r, ops, drift).w.arrive, e) == Deadline(r.w.arrive, e)
    ensures LimitOf(After(r, ops, drift), e) == LimitOf(r, e)
    decreases |ops|
  {
    if ops != [] {
      UnarmedKeepsDeadline(Step(r, ops[0], drift), ops[1..], drift, e);
    }
  }

  /** In any run, with any refreshes, a tick that releases an event has read the clock at its
      latest deadline, less the drift. */
  lemma NeverEarly(start: int, ops: seq<Op>, drift: nat, clock: EventId -> int, hi: int, e: EventId)
    requires drift <= 1 && LegalRun(Start(start), ops, drift)
    requires var r := After(Start(start), ops, drift);
             && Legal(r, Tick(clock, hi)) && WithinDay(r, e)
             && e in Released(r.w.entries, Ticked(r.w, clock).entries)
    ensures hi >= Deadline(After(Start(start), ops, drift).w.arrive, e) - drift
  {
    RunKeepsInv(Start(start), ops, drift);
    TickKeepsTracked(After(Start(start), ops, drift), clock, hi, drift, e);
  }

  /** A new event placed with a positive interval, away from midnight and never refreshed, leaves
      the wheel within `interval + drift` ticks, and not before its deadline less the drift. */
  lemma ResidenceBounds(start: int, before: seq<Op>, arm: Op, later: seq<Op>, drift: nat,
                        clock: EventId -> int, hi: int)
    requires drift <= 1 && LegalRun(Start(start), before + [arm], drift) && arm.Arm?
    requires var r := After(Start(start), before, drift);
             && arm.event !in r.w.arrive && arm.now < arm.deadline
             && r.w.pos + arm.deadline - arm.now + drift < DAY
    requires var r := After(Start(start), before + [arm], drift);
             LegalRun(r, later, drift) && NeverArmed(later, arm.event)
             && Legal(After(r, later, drift), Tick(clock, hi))
    ensures var r := After(After(Start(start), before + [arm], drift), later, drift);
            && (Live(r.w.entries, arm.event) ==> Ticks(later) < arm.deadline - arm.now + drift)
            && (arm.event in Released(r.w.entries, Ticked(r.w, clock).entries) ==> hi >= arm.deadline - drift)
  {
    var e := arm.event;
    var r0 := After(Start(start), before, drift);
    AfterAppend(Start(start), before, arm, drift);
    RunKeepsInv(Start(start), before + [arm], drift);
    RunKeepsInv(Start(start), before, drift);
    assert LimitOf(r0, e) == 0 by {
      LimitOnlyOfKnown(Start(start), before, drift);
    }
    var r1 := Step(r0, arm, drift);
    var r2 := After(r1, later, drift);
    UnarmedKeepsDeadline(r1, later, drift, e);
    RunKeepsInv(r1, later, drift);
    if Ticks(later) >= arm.deadline - arm.now + drift {
      LateBound(r1, later, drift, e);
    }
    TickKeepsTracked(r2, clock, hi, drift, e);
  }

  lemma {:induction false} AfterAppend(r: Run, ops: seq<Op>, op: Op, drift: nat)
    requires LegalRun(r, ops + [op], drift)
    ensures After(r, ops + [op], drift) == Step(After(r, ops, drift), op, drift)
    ensures LegalRun(r, ops, drift) && Legal(After(r, ops, drift), op)
    decreases |ops|
  {
    if ops == [] {
      assert After(Step(r, op, drift), [], drift) == Step(r, op, drift);
    } else {
      assert (ops + [op])[0] == ops[0] && (ops + [op])[1..] == ops[1..] + [op];
      AfterAppend(Step(r, ops[0], drift), ops[1..], op, drift);
    }
  }

  lemma {:induction false} LimitOnlyOfKnown(r: Run, ops: seq<Op>, drift: nat)
    requires forall e :: e in r.limit <==> e in r.w.arrive
    ensures forall e :: e in After(r, ops, drift).limit <==> e in After(r, ops, drift).w.arrive
    decreases |ops|
  {
    if ops != [] {
      LimitOnlyOfKnown(Step(r, ops[0], drift), ops[1..], drift);
    }
  }
}
