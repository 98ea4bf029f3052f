/** How early and how late the timer can close an idle session when adds may reach past the end of the
    day: no sooner than the 25th tick after its last request, and by the 90th, at any position. */
module IdleAnywhere {
  import opened PbCoder
  import opened Bytes
  import opened TimerSpec
  import opened IdleTimeout
  import F = TimerFlat
  import R = TimerResidence
  import S = Session
  import T = TimerRuns
  import Safety = SessionSafety

  // ---- no entry outlives its deadline by more than a minute ----

  /** Ticks that leave a slot of wheel 0 alone before the one that empties it. */
  function Left(pos: nat, slot: nat): nat {
    (slot - pos - 1) % 60
  }

  /** An entry of a higher wheel comes up by the deadline, one of wheel 0 within a minute of it. */
  ghost predicate Within(pos: nat, now: int, x: Entry, deadline: int) {
    if x.wheel == 0 then x.slot < 60 && now + Left(pos, x.slot) < deadline + 60
    else InRange(x) && pos < BlockStart(pos, x) < DAY && now + BlockStart(pos, x) - pos <= deadline
  }

  lemma PlacedWithin(e: EventId, pos: nat, now: int, deadline: int)
    requires pos < DAY && 0 < deadline - now <= DAY
    ensures Within(pos, now, Place(e, pos, deadline - now), deadline)
  {
    if pos + (deadline - now) < DAY {
      PlaceAhead(e, pos, deadline - now);
    } else {
      PlaceWrapped(e, pos, deadline - now);
    }
  }

  lemma TickedWithin(pos: nat, now: int, x: Entry, deadline: int)
    requires pos < DAY && Within(pos, now, x, deadline) && !Due(NextPos(pos), x)
    ensures Within(NextPos(pos), now + 1, x, deadline)
  {
    if x.wheel == 0 {
      R.BottomDistance(pos, x.slot);
    } else {
      BlockStartStable(pos, x);
    }
  }

  ghost predicate AllWithin(w: T.Wheel, now: int, e: EventId, deadline: int) {
    forall x :: x in w.entries && x.event == e ==> Within(w.pos, now, x, deadline)
  }

  lemma SecondKeepsWithin(r: T.Run, now: int, e: EventId, deadline: int)
    requires T.WellFormed(r.w) && AllWithin(r.w, now, e, deadline)
    requires e in r.w.arrive && r.w.arrive[e] == deadline && deadline - now <= DAY
    ensures AllWithin(F.WheelStep(r, now, F.Second).w, now + 1, e, deadline)
  {
    R.SecondTicks(r, now);
    var w := F.WheelStep(r, now, F.Second).w;
    forall y | y in w.entries && y.event == e ensures Within(w.pos, now + 1, y, deadline) {
      CarriedWithin(r.w, now, e, deadline, y);
    }
  }

  lemma CarriedWithin(w: T.Wheel, now: int, e: EventId, deadline: int, y: Entry)
    requires T.WellFormed(w) && AllWithin(w, now, e, deadline)
    requires e in w.arrive && w.arrive[e] == deadline && deadline - now <= DAY
    requires y in AfterTick(NextPos(w.pos), w.entries, w.arrive, F.Steady(now + 1)) && y.event == e
    ensures Within(NextPos(w.pos), now + 1, y, deadline)
  {
    var x := TickSource(NextPos(w.pos), w.entries, w.arrive, F.Steady(now + 1), y);
    if Due(NextPos(w.pos), x) {
      PlacedWithin(e, NextPos(w.pos), now + 1, deadline);
    } else {
      TickedWithin(w.pos, now, x, deadline);
    }
  }

  // ---- some entry lasts for 24 ticks ----

  /** An entry that keeps the event until 24 seconds after `last`: the canonical one for the deadline, or
      the one in the slot an add near the end of the day falls into. */
  ghost predicate Kept(w: T.Wheel, now: int, e: EventId, last: int) {
    || now - last >= 25
    || (now <= last + 30 && R.Holds(w, now, e, w.pos + (last + 30 - now)))
    || (Entry(e, 0, 24) in w.entries && now + Left(w.pos, 24) >= last + 24)
  }

  lemma SetKept(r: T.Run, now: int, e: EventId)
    requires T.WellFormed(r.w) && T.Reachable(r.w, e)
    ensures Kept(F.WheelStep(r, now, F.Set(e, 30)).w, now, e, now)
  {
    R.SetAdds(r, now, e, 30);
    R.ThirtySeconds(r.w.pos);
  }

  lemma SecondKept(r: T.Run, now: int, e: EventId, last: int)
    requires T.WellFormed(r.w) && Kept(r.w, now, e, last)
    ensures Kept(F.WheelStep(r, now, F.Second).w, now + 1, e, last)
  {
    if now + 1 - last < 25 {
      if now <= last + 30 && R.Holds(r.w, now, e, r.w.pos + (last + 30 - now)) {
        R.SecondKeepsHolds(r, now, e, r.w.pos + (last + 30 - now));
      } else {
        R.SecondKeepsBottom(r, now, e, 24);
      }
    }
  }

  lemma KeptIsLive(w: T.Wheel, now: int, e: EventId, last: int)
    requires Kept(w, now, e, last) && now - last < 25
    ensures Live(w.entries, e)
  {
    if now <= last + 30 && R.Holds(w, now, e, w.pos + (last + 30 - now)) {
      assert Place(e, w.pos, last + 30 - now).event == e;
    } else {
      assert Entry(e, 0, 24).event == e;
    }
  }

  lemma OtherKept(r: T.Run, now: int, c: F.Call, e: EventId, last: int)
    requires c.Set? && c.event != e && Kept(r.w, now, e, last)
    ensures Kept(F.WheelStep(r, now, c).w, now, e, last)
  {
    if now <= last + 30 && R.Holds(r.w, now, e, r.w.pos + (last + 30 - now)) {
      R.SetKeepsHolds(r, now, c, e, r.w.pos + (last + 30 - now));
    } else if Entry(e, 0, 24) in r.w.entries {
      R.SetKeepsEntry(r, now, c, Entry(e, 0, 24));
    }
  }

  // ---- over runs of session and wheel ----

  /** As long as the session is open some slot holds its event, and its entries are bounded both ways. */
  ghost predicate Bounded(g: Guarded, e: EventId) {
    g.session.active ==>
      && Live(g.wheel.w.entries, e) && e in g.wheel.w.arrive && g.wheel.w.arrive[e] == g.last + 30
      && g.last <= g.now && AllWithin(g.wheel.w, g.now, e, g.last + 30) && Kept(g.wheel.w, g.now, e, g.last)
  }

  lemma RefreshBounds(r: T.Run, now: int, e: EventId, last: int)
    requires T.WellFormed(r.w) && T.Reachable(r.w, e) && last <= now && AllWithin(r.w, now, e, last + 30)
    ensures var w := F.WheelStep(r, now, F.Set(e, 30)).w;
            && Live(w.entries, e) && e in w.arrive && w.arrive[e] == now + 30
            && AllWithin(w, now, e, now + 30) && Kept(w, now, e, now)
  {
    SetKept(r, now, e);
    R.SetAdds(r, now, e, 30);
    PlacedWithin(e, r.w.pos, now, now + 30);
    var w := F.WheelStep(r, now, F.Set(e, 30)).w;
    assert Place(e, r.w.pos, 30) in w.entries && Place(e, r.w.pos, 30).event == e;
  }

  lemma HandlerKeepsBounded(g: Guarded, step: S.Step, f: F.Flat, e: EventId, reply: Request -> bytes)
    requires Guards(g, f, e, reply) && Bounded(g, e) && Enabled(g, Handler(step), e)
    ensures Bounded(Next(g, Handler(step), e, reply), e)
  {
    if g.session.active {
      if Dispatches(g.session, step, reply) {
        RefreshBounds(g.wheel, g.now, e, g.last);
      }
    } else {
      Safety.ClosedStep(g.session, step, reply);
    }
  }

  lemma OtherKeepsBounded(g: Guarded, event: EventId, timeout: int, e: EventId, reply: Request -> bytes)
    requires Bounded(g, e) && event != e
    ensures Bounded(Next(g, Other(event, timeout), e, reply), e)
  {
    if g.session.active {
      var c := F.Set(event, timeout);
      R.OtherSetKeeps(g.wheel, g.now, c, e);
      OtherKept(g.wheel, g.now, c, e, g.last);
      SameEntries(g.wheel.w, F.WheelStep(g.wheel, g.now, c).w, g.now, e, g.last + 30);
    }
  }

  lemma SameEntries(w: T.Wheel, w': T.Wheel, now: int, e: EventId, deadline: int)
    requires R.EntriesOf(w'.entries, e) == R.EntriesOf(w.entries, e) && w'.pos == w.pos
    ensures AllWithin(w, now, e, deadline) ==> AllWithin(w', now, e, deadline)
    ensures Live(w.entries, e) ==> Live(w'.entries, e)
  {
    R.LiveIff(w.entries, e);
    R.LiveIff(w'.entries, e);
    forall x | x in w'.entries && x.event == e ensures x in w.entries {
      assert x in R.EntriesOf(w'.entries, e);
    }
  }

  lemma SecondKeepsBounded(g: Guarded, f: F.Flat, e: EventId, reply: Request -> bytes)
    requires Guards(g, f, e, reply) && Bounded(g, e)
    ensures Bounded(Next(g, Second, e, reply), e)
  {
    if g.session.active {
      SecondKept(g.wheel, g.now, e, g.last);
      SecondKeepsWithin(g.wheel, g.now, e, g.last + 30);
      R.SecondTicks(g.wheel, g.now);
    }
  }

  lemma {:induction false} RunKeepsBounded(g: Guarded, evs: seq<Event>, f: F.Flat, e: EventId, reply: Request -> bytes)
    returns (f': F.Flat)
    requires Guards(g, f, e, reply) && Bounded(g, e) && Run(g, evs, e, reply)
    ensures Guards(After(g, evs, e, reply), f', e, reply) && Bounded(After(g, evs, e, reply), e)
    decreases |evs|
  {
    if evs == [] {
      return f;
    }
    var f1 := f;
    match evs[0] {
      case Handler(step) =>
        HandlerKeepsBounded(g, step, f, e, reply);
        f1 := HandlerKeepsGuards(g, step, f, e, reply);
      case Other(event, timeout) =>
        OtherKeepsBounded(g, event, timeout, e, reply);
        OtherKeepsGuards(g, event, timeout, f, e, reply);
        f1 := F.FlatStep(f, F.Set(event, timeout));
      case Second =>
        SecondKeepsBounded(g, f, e, reply);
        SecondKeepsGuards(g, f, e, reply);
        f1 := F.FlatStep(f, F.Second);
    }
    f' := RunKeepsBounded(Next(g, evs[0], e, reply), evs[1..], f1, e, reply);
  }

  lemma AcceptedBounded(wheel: T.Run, now: int, e: EventId)
    requires T.WellFormed(wheel.w) && e !in wheel.w.arrive
    ensures Bounded(Accepted(wheel, now, e), e)
  {
    RefreshBounds(wheel, now, e, now);
  }

  lemma OpenIsBounded(g: Guarded, e: EventId)
    requires Bounded(g, e) && g.session.active
    ensures g.now - g.last < 90
  {
    var x :| x in g.wheel.w.entries && x.event == e;
    assert Within(g.wheel.w.pos, g.now, x, g.last + 30);
  }

  lemma TickClosesLate(g: Guarded, f: F.Flat, e: EventId, reply: Request -> bytes)
    requires Guards(g, f, e, reply) && Bounded(g, e) && g.session.active
    ensures g.now + 1 - g.last < 25 ==> Next(g, Second, e, reply).session.active
  {
    SecondKept(g.wheel, g.now, e, g.last);
    if g.now + 1 - g.last < 25 {
      KeptIsLive(F.WheelStep(g.wheel, g.now, F.Second).w, g.now + 1, e, g.last);
    }
  }

  /** Any history of the wheel, then a session with a new event, then any run of the session, of the other
      sessions and of the clock, anywhere in the day: an open session had its last request less than 90
      seconds ago, and no tick closes one whose last request was less than 25 seconds ago. */
  lemma IdleBoundsAnywhere(wheel: T.Run, now: int, begin: int, history: seq<F.Call>, evs: seq<Event>,
                           e: EventId, reply: Request -> bytes)
    requires Reached(wheel, now, begin, history) && e !in wheel.w.arrive
    requires Run(Accepted(wheel, now, e), evs, e, reply)
    ensures var g := After(Accepted(wheel, now, e), evs, e, reply);
            g.session.active ==>
              && g.now - g.last < 90
              && (g.now + 1 - g.last < 25 ==> Next(g, Second, e, reply).session.active)
  {
    var f := ReachedRefines(wheel, now, begin, history);
    AcceptedGuards(wheel, f, e, reply);
    AcceptedBounded(wheel, now, e);
    var f' := RunKeepsBounded(Accepted(wheel, now, e), evs, F.FlatStep(f, F.Set(e, TIMEOUT)), e, reply);
    var g := After(Accepted(wheel, now, e), evs, e, reply);
    if g.session.active {
      OpenIsBounded(g, e);
      TickClosesLate(g, f', e, reply);
    }
  }
}
