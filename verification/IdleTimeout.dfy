/** A session together with the timing wheel of its io_context: requests refresh the session's event,
    and the event's callback closes the session. */
module IdleTimeout {
  import opened PbCoder
  import opened Bytes
  import opened TimerSpec
  import F = TimerFlat
  import T = TimerRuns
  import S = Session
  import Safety = SessionSafety

  /** The timeout of a new session, and of every refresh. */
  const TIMEOUT: nat := 30

  /** `last` is the clock reading of the last request, or of the accept when there was none. */
  datatype Guarded = Guarded(session: S.State, wheel: T.Run, now: int, last: int)

  datatype Event =
    | Handler(step: S.Step)                // a step of the session other than the timer's callback
    | Other(event: EventId, timeout: int)  // another session of the same io_context arms its event
    | Second                               // a tick

  /** PbServer::OnSessionRead has been handed a request. */
  predicate Dispatches(s: S.State, step: S.Step, reply: Request -> bytes)
    requires S.Enabled(s, step)
  {
    S.Apply(s, step, reply).requests != s.requests
  }

  ghost predicate Enabled(g: Guarded, ev: Event, e: EventId) {
    match ev
    case Handler(step) => S.Enabled(g.session, step) && !step.Timeout?
    case Other(event, timeout) => event != e && F.LegalCall(g.wheel, g.now, F.Set(event, timeout))
    case Second => true
  }

  /** The event's destructor closes the session. */
  function Fired(s: S.State, gone: set<EventId>, e: EventId): S.State {
    if e in gone then S.Close(s) else s
  }

  function Next(g: Guarded, ev: Event, e: EventId, reply: Request -> bytes): Guarded
    requires ev.Handler? ==> S.Enabled(g.session, ev.step)
  {
    match ev
    case Handler(step) =>
      var session := S.Apply(g.session, step, reply);
      if Dispatches(g.session, step, reply)
      then Guarded(session, F.WheelStep(g.wheel, g.now, F.Set(e, TIMEOUT)), g.now, g.now)
      else g.(session := session)
    case Other(event, timeout) => g.(wheel := F.WheelStep(g.wheel, g.now, F.Set(event, timeout)))
    case Second =>
      Guarded(Fired(g.session, F.WheelFired(g.wheel, g.now, F.Second), e),
              F.WheelStep(g.wheel, g.now, F.Second), g.now + 1, g.last)
  }

  /** A session accepted while the wheel is in some state: its event is armed before its first read. */
  function Accepted(wheel: T.Run, now: int, e: EventId): Guarded {
    Guarded(S.ACCEPTED, F.WheelStep(wheel, now, F.Set(e, TIMEOUT)), now, now)
  }

  ghost predicate Run(g: Guarded, evs: seq<Event>, e: EventId, reply: Request -> bytes)
    decreases |evs|
  {
    evs != [] ==> Enabled(g, evs[0], e) && Run(Next(g, evs[0], e, reply), evs[1..], e, reply)
  }

  ghost function After(g: Guarded, evs: seq<Event>, e: EventId, reply: Request -> bytes): Guarded
    requires Run(g, evs, e, reply)
    decreases |evs|
  {
    if evs == [] then g else After(Next(g, evs[0], e, reply), evs[1..], e, reply)
  }

  /** The clock when the run last handed the server a request, `start` if it never did. */
  ghost function LastRequest(g: Guarded, evs: seq<Event>, start: int, e: EventId, reply: Request -> bytes): int
    requires Run(g, evs, e, reply)
    decreases |evs|
  {
    if evs == [] then start
    else
      var g' := Next(g, evs[0], e, reply);
      LastRequest(g', evs[1..], if g'.session.requests != g.session.requests then g.now else start, e, reply)
  }

  /** `last` is that clock reading: nothing but a request refreshes the event. */
  lemma {:induction false} LastIsLastRequest(g: Guarded, evs: seq<Event>, e: EventId, reply: Request -> bytes)
    requires Run(g, evs, e, reply)
    ensures After(g, evs, e, reply).last == LastRequest(g, evs, g.last, e, reply)
    decreases |evs|
  {
    if evs != [] {
      LastIsLastRequest(Next(g, evs[0], e, reply), evs[1..], e, reply);
    }
  }

  // ---- the invariant ----

  /** The flat map holds the session's event as long as the session is open, due TIMEOUT seconds after
      the last request. */
  ghost predicate Guards(g: Guarded, f: F.Flat, e: EventId, reply: Request -> bytes) {
    && Safety.Inv(g.session, reply)
    && F.Refines(g.wheel, f) && f.now == g.now
    && e in g.wheel.w.arrive && g.wheel.w.arrive[e] <= g.now + TIMEOUT
    && (g.session.active && T.WithinDay(g.wheel, e) ==> e in f.due && f.due[e] == g.last + TIMEOUT)
  }

  lemma ArmedDeadline(r: T.Run, now: int, event: EventId, timeout: int, e: EventId)
    ensures var w := F.WheelStep(r, now, F.Set(event, timeout)).w;
            && (e in r.w.arrive ==> e in w.arrive)
            && (e in w.arrive ==>
                  || (e == event && w.arrive[e] == now + timeout)
                  || (e in r.w.arrive && w.arrive[e] == r.w.arrive[e]))
  {
  }

  lemma HandlerKeepsGuards(g: Guarded, step: S.Step, f: F.Flat, e: EventId, reply: Request -> bytes)
    returns (f': F.Flat)
    requires Guards(g, f, e, reply) && Enabled(g, Handler(step), e)
    ensures Guards(Next(g, Handler(step), e, reply), f', e, reply)
  {
    Safety.StepKeepsInv(g.session, step, reply);
    if !g.session.active {
      Safety.ClosedStep(g.session, step, reply);
    }
    if Dispatches(g.session, step, reply) {
      var c := F.Set(e, TIMEOUT);
      F.StepRefines(g.wheel, f, c);
      ArmedDeadline(g.wheel, g.now, e, TIMEOUT, e);
      f' := F.FlatStep(f, c);
    } else {
      f' := f;
    }
  }

  lemma OtherKeepsGuards(g: Guarded, event: EventId, timeout: int, f: F.Flat, e: EventId, reply: Request -> bytes)
    requires Guards(g, f, e, reply) && Enabled(g, Other(event, timeout), e)
    ensures Guards(Next(g, Other(event, timeout), e, reply), F.FlatStep(f, F.Set(event, timeout)), e, reply)
  {
    F.StepRefines(g.wheel, f, F.Set(event, timeout));
    ArmedDeadline(g.wheel, g.now, event, timeout, e);
  }

  lemma CloseKeepsInv(s: S.State, reply: Request -> bytes)
    requires Safety.Inv(s, reply)
    ensures Safety.Inv(S.Close(s), reply)
  {
  }

  lemma SecondKeepsGuards(g: Guarded, f: F.Flat, e: EventId, reply: Request -> bytes)
    requires Guards(g, f, e, reply)
    ensures Guards(Next(g, Second, e, reply), F.FlatStep(f, F.Second), e, reply)
  {
    F.StepRefines(g.wheel, f, F.Second);
    CloseKeepsInv(g.session, reply);
  }

  lemma {:induction false} RunKeepsGuards(g: Guarded, evs: seq<Event>, f: F.Flat, e: EventId, reply: Request -> bytes)
    returns (f': F.Flat)
    requires Guards(g, f, e, reply) && Run(g, evs, e, reply)
    ensures Guards(After(g, evs, e, reply), f', e, reply)
    decreases |evs|
  {
    if evs == [] {
      return f;
    }
    var f1 := f;
    match evs[0] {
      case Handler(step) =>
        f1 := HandlerKeepsGuards(g, step, f, e, reply);
      case Other(event, timeout) =>
        OtherKeepsGuards(g, event, timeout, f, e, reply);
        f1 := F.FlatStep(f, F.Set(event, timeout));
      case Second =>
        SecondKeepsGuards(g, f, e, reply);
        f1 := F.FlatStep(f, F.Second);
    }
    f' := RunKeepsGuards(Next(g, evs[0], e, reply), evs[1..], f1, e, reply);
  }

  lemma AcceptedGuards(wheel: T.Run, f: F.Flat, e: EventId, reply: Request -> bytes)
    requires F.Refines(wheel, f) && e !in wheel.w.arrive
    ensures Guards(Accepted(wheel, f.now, e), F.FlatStep(f, F.Set(e, TIMEOUT)), e, reply)
  {
    Safety.AcceptedInv(reply);
    F.StepRefines(wheel, f, F.Set(e, TIMEOUT));
    ArmedDeadline(wheel, f.now, e, TIMEOUT, e);
    assert T.WithinDay(F.WheelStep(wheel, f.now, F.Set(e, TIMEOUT)), e) ==> F.Agrees(wheel, f, e);
  }

  /** The state of a wheel after some history, and the clock then. */
  ghost predicate Reached(wheel: T.Run, now: int, begin: int, history: seq<F.Call>) {
    && F.LegalCalls(T.Start(begin + 1), begin, history)
    && wheel == F.WheelEnd(T.Start(begin + 1), begin, history) && now == begin + F.Seconds(history)
  }

  lemma ReachedRefines(wheel: T.Run, now: int, begin: int, history: seq<F.Call>) returns (f: F.Flat)
    requires Reached(wheel, now, begin, history)
    ensures F.Refines(wheel, f) && f.now == now
  {
    f := F.Flat(begin, map[], {});
    F.EndRefines(T.Start(begin + 1), f, history);
    F.EndClock(f, history);
    f := F.FlatEnd(f, history);
  }

  /** Any history of the wheel, then a session with a new event, then any run of the session, of the other
      sessions and of the clock, none of the event's adds reaching past the end of the day: while the
      session is open fewer than 30 seconds have passed since its last request, and the tick that comes
      next closes it if and only if it is the 30th. */
  lemma IdleSessionClosesAtTimeout(wheel: T.Run, now: int, begin: int, history: seq<F.Call>, evs: seq<Event>,
                                   e: EventId, reply: Request -> bytes)
    requires Reached(wheel, now, begin, history) && e !in wheel.w.arrive
    requires Run(Accepted(wheel, now, e), evs, e, reply)
    requires T.WithinDay(After(Accepted(wheel, now, e), evs, e, reply).wheel, e)
    ensures var g := After(Accepted(wheel, now, e), evs, e, reply);
            g.session.active ==>
              && g.now - g.last < 30
              && (Next(g, Second, e, reply).session.active <==> g.now + 1 - g.last < 30)
  {
    var f := ReachedRefines(wheel, now, begin, history);
    AcceptedGuards(wheel, f, e, reply);
    var f' := RunKeepsGuards(Accepted(wheel, now, e), evs, F.FlatStep(f, F.Set(e, TIMEOUT)), e, reply);
    var g := After(Accepted(wheel, now, e), evs, e, reply);
    if g.session.active {
      NextTickCloses(g, f', e, reply);
    }
  }

  lemma NextTickCloses(g: Guarded, f: F.Flat, e: EventId, reply: Request -> bytes)
    requires Guards(g, f, e, reply) && g.session.active && T.WithinDay(g.wheel, e)
    ensures g.now - g.last < TIMEOUT
    ensures Next(g, Second, e, reply).session.active <==> g.now + 1 - g.last < TIMEOUT
  {
    assert F.Agrees(g.wheel, f, e);
    F.SecondRefines(g.wheel, f, e);
  }
}
