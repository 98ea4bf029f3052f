/** With a clock that advances one second per tick, the wheel is a flat map from events to deadlines. */
module TimerFlat {
  import opened TimerSpec
  import opened TimerRuns

  /** What the io_context of a session does to its wheel: arm or refresh an event so that it is due
      `timeout` seconds from now, or let a second pass. */
  datatype Call = Set(event: EventId, timeout: int) | Second

  // ---- the specification ----

  datatype Flat = Flat(now: int, due: map<EventId, int>, known: set<EventId>)

  predicate Expired(f: Flat, e: EventId) {
    e in f.known && e !in f.due
  }

  function FlatStep(f: Flat, c: Call): Flat {
    match c
    case Set(e, timeout) =>
      if Expired(f, e) then f
      else if timeout > 0 then Flat(f.now, f.due[e := f.now + timeout], f.known + {e})
      else Flat(f.now, f.due, f.known + {e})
    case Second =>
      Flat(f.now + 1, map e | e in f.due && f.due[e] > f.now + 1 :: f.due[e], f.known)
  }

  /** The events that fire during one call. */
  function FlatFired(f: Flat, c: Call): set<EventId> {
    match c
    case Set(e, timeout) => if !Expired(f, e) && e !in f.due && timeout <= 0 then {e} else {}
    case Second => set e | e in f.due && f.due[e] <= f.now + 1
  }

  function FlatTrace(f: Flat, calls: seq<Call>): seq<set<EventId>>
    decreases |calls|
  {
    if calls == [] then [] else [FlatFired(f, calls[0])] + FlatTrace(FlatStep(f, calls[0]), calls[1..])
  }

  // ---- the wheel under the same calls ----

  function Steady(t: int): EventId -> int {
    (e: EventId) => t
  }

  function OpOf(c: Call, now: int): Op {
    match c
    case Set(e, timeout) => Arm(e, now + timeout, now)
    case Second => Tick(Steady(now + 1), now + 1)
  }

  function NowAfter(c: Call, now: int): int {
    if c.Second? then now + 1 else now
  }

  function WheelStep(r: Run, now: int, c: Call): Run {
    Step(r, OpOf(c, now), 0)
  }

  /** The events whose last reference goes during one call; a new event that is already due is
      never inserted, and goes when the handler that made it returns. */
  function WheelFired(r: Run, now: int, c: Call): set<EventId> {
    var after := WheelStep(r, now, c).w.entries;
    match c
    case Set(e, _) => if Reachable(r.w, e) && !Live(after, e) then {e} else {}
    case Second => Released(r.w.entries, after)
  }

  function WheelTrace(r: Run, now: int, calls: seq<Call>): seq<set<EventId>>
    decreases |calls|
  {
    if calls == [] then []
    else [WheelFired(r, now, calls[0])] + WheelTrace(WheelStep(r, now, calls[0]), NowAfter(calls[0], now), calls[1..])
  }

  function WheelEnd(r: Run, now: int, calls: seq<Call>): Run
    decreases |calls|
  {
    if calls == [] then r else WheelEnd(WheelStep(r, now, calls[0]), NowAfter(calls[0], now), calls[1..])
  }

  /** Timeouts are at most a day, and a refresh never lowers a deadline. */
  predicate LegalCall(r: Run, now: int, c: Call) {
    c.Set? ==>
      && c.timeout <= DAY
      && (Live(r.w.entries, c.event) ==> now + c.timeout >= Deadline(r.w.arrive, c.event))
  }

  predicate LegalCalls(r: Run, now: int, calls: seq<Call>)
    decreases |calls|
  {
    calls != [] ==>
      LegalCall(r, now, calls[0]) && LegalCalls(WheelStep(r, now, calls[0]), NowAfter(calls[0], now), calls[1..])
  }

  // ---- refinement ----

  /** The wheel and the flat map agree on `e`. */
  ghost predicate Agrees(r: Run, f: Flat, e: EventId) {
    && (e in f.known <==> e in r.w.arrive)
    && (e in f.due <==> Live(r.w.entries, e))
    && (e in f.due ==>
          && f.due[e] == Deadline(r.w.arrive, e) > f.now
          && LimitOf(r, e) == r.w.pos + f.due[e] - f.now)
  }

  ghost predicate Refines(r: Run, f: Flat) {
    && Inv(r, 0)
    && r.next == f.now + 1
    && (forall e :: e in r.limit <==> e in r.w.arrive)
    && (forall e :: WithinDay(r, e) ==> Agrees(r, f, e))
  }

  lemma SetRefines(r: Run, f: Flat, e: EventId, timeout: int, g: EventId)
    requires Refines(r, f) && LegalCall(r, f.now, Set(e, timeout))
    requires WithinDay(WheelStep(r, f.now, Set(e, timeout)), g)
    ensures WithinDay(r, g)
    ensures Agrees(WheelStep(r, f.now, Set(e, timeout)), FlatStep(f, Set(e, timeout)), g)
    ensures g in WheelFired(r, f.now, Set(e, timeout)) <==> g in FlatFired(f, Set(e, timeout))
  {
    assert WithinDay(r, g) && Agrees(r, f, g);
    var r' := WheelStep(r, f.now, Set(e, timeout));
    if Reachable(r.w, e) && timeout > 0 {
      var y := Place(e, r.w.pos, timeout);
      assert y in r'.w.entries && y.event == e;
    }
    if g != e {
      forall x | x in r'.w.entries && x.event == g ensures x in r.w.entries {}
      forall x | x in r.w.entries && x.event == g ensures x in r'.w.entries {}
    }
  }

  lemma SecondRefines(r: Run, f: Flat, g: EventId)
    requires Refines(r, f) && WithinDay(r, g)
    ensures Agrees(WheelStep(r, f.now, Second), FlatStep(f, Second), g)
    ensures g in WheelFired(r, f.now, Second) <==> g in FlatFired(f, Second)
  {
    var now := f.now + 1;
    assert Agrees(r, f, g) && Tracked(r, g, 0);
    TickKeepsTracked(r, Steady(now), now, 0, g);
    TickBounds(r, Steady(now), now, 0, g);
    var r' := WheelStep(r, f.now, Second);
    if Live(r'.w.entries, g) {
      LiveIsEarly(r', g, 0);
    }
  }

  lemma StepRefines(r: Run, f: Flat, c: Call)
    requires Refines(r, f) && LegalCall(r, f.now, c)
    ensures Refines(WheelStep(r, f.now, c), FlatStep(f, c))
    ensures NowAfter(c, f.now) == FlatStep(f, c).now
    ensures forall g :: WithinDay(WheelStep(r, f.now, c), g) ==>
                          WithinDay(r, g) && (g in WheelFired(r, f.now, c) <==> g in FlatFired(f, c))
  {
    StepKeepsInv(r, OpOf(c, f.now), 0);
    var r' := WheelStep(r, f.now, c);
    forall g | WithinDay(r', g)
      ensures WithinDay(r, g) && Agrees(r', FlatStep(f, c), g)
      ensures g in WheelFired(r, f.now, c) <==> g in FlatFired(f, c)
    {
      match c
      case Set(e, timeout) => SetRefines(r, f, e, timeout, g);
      case Second => SecondRefines(r, f, g);
    }
  }

  lemma {:induction false} TraceRefines(r: Run, f: Flat, calls: seq<Call>)
    requires Refines(r, f) && LegalCalls(r, f.now, calls)
    ensures |WheelTrace(r, f.now, calls)| == |FlatTrace(f, calls)| == |calls|
    ensures forall i, g :: 0 <= i < |calls| && WithinDay(WheelEnd(r, f.now, calls), g) ==>
              (g in WheelTrace(r, f.now, calls)[i] <==> g in FlatTrace(f, calls)[i])
    ensures forall g :: WithinDay(WheelEnd(r, f.now, calls), g) ==> WithinDay(r, g)
    decreases |calls|
  {
    if calls != [] {
      StepRefines(r, f, calls[0]);
      TraceRefines(WheelStep(r, f.now, calls[0]), FlatStep(f, calls[0]), calls[1..]);
    }
  }

  /** Main theorem. For every interleaving of arms, refreshes and seconds, the wheel fires, call by
      call, exactly the events the flat map fires, for every event none of whose adds reached past
      midnight, however many stale references its refreshes left behind. */
  lemma WheelRefinesFlat(now: int, calls: seq<Call>)
    requires LegalCalls(Start(now + 1), now, calls)
    ensures |WheelTrace(Start(now + 1), now, calls)| == |FlatTrace(Flat(now, map[], {}), calls)| == |calls|
    ensures forall i, g :: 0 <= i < |calls| && WithinDay(WheelEnd(Start(now + 1), now, calls), g) ==>
              (g in WheelTrace(Start(now + 1), now, calls)[i] <==> g in FlatTrace(Flat(now, map[], {}), calls)[i])
  {
    TraceRefines(Start(now + 1), Flat(now, map[], {}), calls);
  }

  // ---- what the flat map promises ----

  function FlatEnd(f: Flat, calls: seq<Call>): Flat
    decreases |calls|
  {
    if calls == [] then f else FlatEnd(FlatStep(f, calls[0]), calls[1..])
  }

  lemma {:induction false} EndRefines(r: Run, f: Flat, calls: seq<Call>)
    requires Refines(r, f) && LegalCalls(r, f.now, calls)
    ensures Refines(WheelEnd(r, f.now, calls), FlatEnd(f, calls))
    decreases |calls|
  {
    if calls != [] {
      StepRefines(r, f, calls[0]);
      EndRefines(WheelStep(r, f.now, calls[0]), FlatStep(f, calls[0]), calls[1..]);
    }
  }

  lemma {:induction false} EndClock(f: Flat, calls: seq<Call>)
    ensures FlatEnd(f, calls).now == f.now + Seconds(calls)
    decreases |calls|
  {
    if calls != [] {
      EndClock(FlatStep(f, calls[0]), calls[1..]);
    }
  }

  function Seconds(calls: seq<Call>): nat {
    if calls == [] then 0 else (if calls[0].Second? then 1 else 0) + Seconds(calls[1..])
  }

  /** After any run, the second that fires an event is the one equal to its latest deadline, and an
      event still in the wheel has its deadline ahead. */
  lemma FiresAtLatestDeadline(now: int, calls: seq<Call>, g: EventId)
    requires LegalCalls(Start(now + 1), now, calls)
    requires WithinDay(WheelEnd(Start(now + 1), now, calls), g)
    ensures var r := WheelEnd(Start(now + 1), now, calls);
            var t := now + Seconds(calls);
            && (g in WheelFired(r, t, Second) <==> Live(r.w.entries, g) && Deadline(r.w.arrive, g) == t + 1)
            && (Live(r.w.entries, g) ==> Deadline(r.w.arrive, g) > t)
  {
    var f := Flat(now, map[], {});
    EndRefines(Start(now + 1), f, calls);
    EndClock(f, calls);
    SecondRefines(WheelEnd(Start(now + 1), now, calls), FlatEnd(f, calls), g);
  }

  lemma {:induction false} ExpiredStaysExpired(f: Flat, calls: seq<Call>, g: EventId)
    requires Expired(f, g)
    ensures forall i :: 0 <= i < |FlatTrace(f, calls)| ==> g !in FlatTrace(f, calls)[i]
    decreases |calls|
  {
    if calls != [] {
      ExpiredStaysExpired(FlatStep(f, calls[0]), calls[1..], g);
    }
  }

  /** An event fires at most once. */
  lemma {:induction false} FiresOnce(f: Flat, calls: seq<Call>, i: nat, j: nat, g: EventId)
    requires f.due.Keys <= f.known
    requires i < j < |FlatTrace(f, calls)| && g in FlatTrace(f, calls)[i]
    ensures g !in FlatTrace(f, calls)[j]
    decreases |calls|
  {
    if calls != [] {
      if i == 0 {
        ExpiredStaysExpired(FlatStep(f, calls[0]), calls[1..], g);
      } else {
        FiresOnce(FlatStep(f, calls[0]), calls[1..], i - 1, j - 1, g);
      }
    }
  }

  /** The wheel runs the callback of such an event at most once in any run. */
  lemma WheelFiresOnce(now: int, calls: seq<Call>, i: nat, j: nat, g: EventId)
    requires LegalCalls(Start(now + 1), now, calls) && i < j < |calls|
    requires WithinDay(WheelEnd(Start(now + 1), now, calls), g)
    ensures |WheelTrace(Start(now + 1), now, calls)| == |calls|
    ensures !(g in WheelTrace(Start(now + 1), now, calls)[i] && g in WheelTrace(Start(now + 1), now, calls)[j])
  {
    WheelRefinesFlat(now, calls);
    var f := Flat(now, map[], {});
    if g in FlatTrace(f, calls)[i] {
      FiresOnce(f, calls, i, j, g);
    }
  }
}
