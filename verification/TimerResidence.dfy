/** How long an event that is never refreshed stays in the wheel, at every position and for every
    interval, including intervals that reach past the end of the day. */
module TimerResidence {
  import opened TimerSpec
  import opened TimerRuns
  import opened TimerFlat

  function EntriesOf(entries: set<Entry>, e: EventId): set<Entry> {
    set x | x in entries && x.event == e
  }

  lemma LiveIff(entries: set<Entry>, e: EventId)
    ensures Live(entries, e) <==> EntriesOf(entries, e) != {}
  {
    if Live(entries, e) {
      var x :| x in entries && x.event == e;
      assert x in EntriesOf(entries, e);
    }
  }

  // ---- one tick ----

  /** The one canonical slot until the target, and none from then on. */
  function Spot(e: EventId, pos: nat, target: nat): set<Entry> {
    if pos < target then {Place(e, pos, target - pos)} else {}
  }

  /** In step with the clock, an event away from midnight is always in exactly one slot: the
      canonical one for its deadline. A cascade moves it to a strictly lower wheel, and the tick
      that reaches its deadline drops it. */
  lemma CanonicalTick(pos: nat, entries: set<Entry>, arrive: map<EventId, int>, now: int, e: EventId, target: nat)
    requires pos < target < DAY && EntriesOf(entries, e) == Spot(e, pos, target)
    requires Deadline(arrive, e) - now == target - (pos + 1)
    ensures EntriesOf(AfterTick(pos + 1, entries, arrive, Steady(now)), e) == Spot(e, pos + 1, target)
    ensures Due(pos + 1, Place(e, pos, target - pos)) && target > pos + 1 ==>
              Place(e, pos + 1, target - (pos + 1)).wheel < Place(e, pos, target - pos).wheel
  {
    CanonicalMove(e, pos, target);
    OnlyEntryMoves(pos + 1, entries, arrive, now, Place(e, pos, target - pos), target);
  }

  lemma OnlyEntryMoves(pos: nat, entries: set<Entry>, arrive: map<EventId, int>, now: int, x: Entry, target: nat)
    requires pos <= target && EntriesOf(entries, x.event) == {x} && x.wheel < 3
    requires Deadline(arrive, x.event) - now == target - pos
    requires target == pos ==> Due(pos, x)
    requires target > pos ==> Due(pos, x) || Place(x.event, pos, target - pos) == x
    requires target > pos && Due(pos, x) ==> x.wheel > 0
    ensures EntriesOf(AfterTick(pos, entries, arrive, Steady(now)), x.event) == Spot(x.event, pos, target)
  {
    OneEntryTick(pos, entries, arrive, Steady(now), x);
  }

  /** What a tick makes of an event's only entry. */
  function Carried(pos: nat, x: Entry, arrive: map<EventId, int>, clock: EventId -> int): set<Entry> {
    if !Due(pos, x) then {x} else if Cascades(pos, x, arrive, clock) then {Replaced(pos, x, arrive, clock)} else {}
  }

  lemma OneEntryTick(pos: nat, entries: set<Entry>, arrive: map<EventId, int>, clock: EventId -> int, x: Entry)
    requires EntriesOf(entries, x.event) == {x} && x.wheel < 3
    ensures EntriesOf(AfterTick(pos, entries, arrive, clock), x.event) == Carried(pos, x, arrive, clock)
  {
    var after := AfterTick(pos, entries, arrive, clock);
    assert x in EntriesOf(entries, x.event);
    forall y | y in after && y.event == x.event ensures y in Carried(pos, x, arrive, clock) {
      var z := TickSource(pos, entries, arrive, clock, y);
      assert z in EntriesOf(entries, x.event);
    }
    forall y | y in Carried(pos, x, arrive, clock) ensures y in after && y.event == x.event {
      CarriedStays(pos, entries, arrive, clock, x, y);
    }
  }

  lemma CarriedStays(pos: nat, entries: set<Entry>, arrive: map<EventId, int>, clock: EventId -> int, x: Entry,
                     y: Entry)
    requires x in entries && x.wheel < 3 && y in Carried(pos, x, arrive, clock)
    ensures y in AfterTick(pos, entries, arrive, clock) && y.event == x.event
  {
    if Due(pos, x) {
      assert Cascades(pos, x, arrive, clock) && y == Replaced(pos, x, arrive, clock);
    }
  }

  /** The canonical slot of a target, seen from one position and from the next. */
  lemma CanonicalMove(e: EventId, pos: nat, target: nat)
    requires pos < target < DAY
    ensures var x := Place(e, pos, target - pos);
            && (target == pos + 1 ==> Due(pos + 1, x))
            && (target > pos + 1 && !Due(pos + 1, x) ==> Place(e, pos + 1, target - (pos + 1)) == x)
            && (target > pos + 1 && Due(pos + 1, x) ==> Place(e, pos + 1, target - (pos + 1)).wheel < x.wheel)
  {
    var p := pos + 1;
    assert target / 60 % 60 == target / 60 - target / 3600 * 60;
    assert p / 60 % 60 == p / 60 - p / 3600 * 60;
    assert target / 3600 <= 23;
  }

  /** An entry of wheel 0 only waits for its slot to come round. */
  lemma BottomTick(pos: nat, entries: set<Entry>, arrive: map<EventId, int>, clock: EventId -> int,
                   e: EventId, slot: nat)
    requires EntriesOf(entries, e) == {Entry(e, 0, slot)}
    ensures EntriesOf(AfterTick(pos, entries, arrive, clock), e) == if slot == pos % 60 then {} else {Entry(e, 0, slot)}
  {
    OneEntryTick(pos, entries, arrive, clock, Entry(e, 0, slot));
  }

  // ---- whole residences ----

  /** Ticks from the add to the one that drops the event. */
  function ResidenceTicks(pos: nat, interval: nat): nat {
    if pos + interval < DAY then interval
    else 1 + ((pos + interval) / 3600 - pos - 1) % 60
  }

  predicate Untouched(calls: seq<Call>, e: EventId) {
    forall i :: 0 <= i < |calls| && calls[i].Set? ==> calls[i].event != e
  }

  lemma OtherSetKeeps(r: Run, now: int, c: Call, e: EventId)
    requires c.Set? && c.event != e
    ensures var w := WheelStep(r, now, c).w;
            && EntriesOf(w.entries, e) == EntriesOf(r.w.entries, e) && w.pos == r.w.pos
            && (e in r.w.arrive ==> e in w.arrive && w.arrive[e] == r.w.arrive[e])
  {
  }

  lemma SecondTicks(r: Run, now: int)
    ensures var w := WheelStep(r, now, Second).w;
            && w.pos == NextPos(r.w.pos) && w.arrive == r.w.arrive
            && w.entries == AfterTick(NextPos(r.w.pos), r.w.entries, r.w.arrive, Steady(now + 1))
  {
  }

  /** A wheel in which `e`, due at position `target` today, is in that slot. */
  ghost predicate InSpot(w: Wheel, now: int, e: EventId, target: nat) {
    && w.pos < target < DAY && EntriesOf(w.entries, e) == Spot(e, w.pos, target)
    && e in w.arrive && w.arrive[e] - now == target - w.pos
  }

  lemma NextToday(pos: nat, target: nat)
    requires pos < target < DAY
    ensures NextPos(pos) == pos + 1
  {
  }

  lemma SpotMoves(w: Wheel, w': Wheel, now: int, e: EventId, target: nat)
    requires InSpot(w, now, e, target) && w'.pos == w.pos + 1 && w'.arrive == w.arrive
    requires w'.entries == AfterTick(w.pos + 1, w.entries, w.arrive, Steady(now + 1))
    ensures EntriesOf(w'.entries, e) == Spot(e, w'.pos, target)
    ensures w'.pos < target ==> InSpot(w', now + 1, e, target)
  {
    CanonicalTick(w.pos, w.entries, w.arrive, now + 1, e, target);
  }

  lemma CanonicalSecond(r: Run, now: int, e: EventId, target: nat)
    requires InSpot(r.w, now, e, target)
    ensures var w' := WheelStep(r, now, Second).w;
            && w'.pos == r.w.pos + 1 && EntriesOf(w'.entries, e) == Spot(e, w'.pos, target)
            && (w'.pos < target ==> InSpot(w', now + 1, e, target))
  {
    NextToday(r.w.pos, target);
    SecondTicks(r, now);
    SpotMoves(r.w, WheelStep(r, now, Second).w, now, e, target);
  }

  lemma BottomSecond(r: Run, now: int, e: EventId, slot: nat)
    requires r.w.pos < DAY && slot < 60
    requires EntriesOf(r.w.entries, e) == {Entry(e, 0, slot)}
    ensures var r' := WheelStep(r, now, Second);
            && r'.w.pos < DAY && r'.w.arrive == r.w.arrive
            && (if (slot - r.w.pos - 1) % 60 == 0 then EntriesOf(r'.w.entries, e) == {}
                else EntriesOf(r'.w.entries, e) == {Entry(e, 0, slot)}
                     && (slot - r'.w.pos - 1) % 60 == (slot - r.w.pos - 1) % 60 - 1)
  {
    var p := NextPos(r.w.pos);
    SecondTicks(r, now);
    BottomTick(p, r.w.entries, r.w.arrive, Steady(now + 1), e, slot);
    BottomDistance(r.w.pos, slot);
  }

  lemma BottomDistance(pos: nat, slot: nat)
    requires pos < DAY && slot < 60
    ensures slot == NextPos(pos) % 60 <==> (slot - pos - 1) % 60 == 0
    ensures slot != NextPos(pos) % 60 ==> (slot - NextPos(pos) - 1) % 60 == (slot - pos - 1) % 60 - 1
  {
    assert NextPos(pos) % 60 == (pos + 1) % 60;
  }

  /** In step with the clock, an event that is never refreshed and does not reach midnight is at
      every moment in exactly one slot, the canonical one, until its deadline empties it. */
  lemma {:induction false} CanonicalResidence(r: Run, now: int, calls: seq<Call>, e: EventId, target: nat)
    requires InSpot(r.w, now, e, target) && Untouched(calls, e)
    ensures EntriesOf(WheelEnd(r, now, calls).w.entries, e) == Spot(e, r.w.pos + Seconds(calls), target)
    decreases |calls|, 1
  {
    if calls != [] {
      if calls[0].Set? {
        CanonicalAfterSet(r, now, calls, e, target);
      } else {
        CanonicalAfterSecond(r, now, calls, e, target);
      }
    }
  }

  lemma {:induction false} CanonicalAfterSet(r: Run, now: int, calls: seq<Call>, e: EventId, target: nat)
    requires InSpot(r.w, now, e, target) && Untouched(calls, e) && calls != [] && calls[0].Set?
    ensures EntriesOf(WheelEnd(r, now, calls).w.entries, e) == Spot(e, r.w.pos + Seconds(calls), target)
    decreases |calls|, 0
  {
    EndAfterFirst(r, now, calls);
    CanonicalSet(r, now, calls[0], e, target);
    CanonicalResidence(WheelStep(r, now, calls[0]), now, calls[1..], e, target);
  }

  lemma {:induction false} CanonicalAfterSecond(r: Run, now: int, calls: seq<Call>, e: EventId, target: nat)
    requires InSpot(r.w, now, e, target) && Untouched(calls, e) && calls != [] && calls[0].Second?
    ensures EntriesOf(WheelEnd(r, now, calls).w.entries, e) == Spot(e, r.w.pos + Seconds(calls), target)
    decreases |calls|, 0
  {
    EndAfterFirst(r, now, calls);
    CanonicalSecond(r, now, e, target);
    CanonicalOrGone(WheelStep(r, now, Second), now + 1, calls[1..], e, target);
  }

  lemma {:induction false} CanonicalOrGone(r: Run, now: int, calls: seq<Call>, e: EventId, target: nat)
    requires EntriesOf(r.w.entries, e) == Spot(e, r.w.pos, target) && Untouched(calls, e)
    requires r.w.pos < target ==> InSpot(r.w, now, e, target)
    ensures EntriesOf(WheelEnd(r, now, calls).w.entries, e) == Spot(e, r.w.pos + Seconds(calls), target)
    decreases |calls|, 2
  {
    if r.w.pos < target {
      CanonicalResidence(r, now, calls, e, target);
    } else {
      GoneStaysGone(r, now, calls, e);
    }
  }

  lemma CanonicalSet(r: Run, now: int, c: Call, e: EventId, target: nat)
    requires InSpot(r.w, now, e, target) && c.Set? && c.event != e
    ensures InSpot(WheelStep(r, now, c).w, now, e, target) && WheelStep(r, now, c).w.pos == r.w.pos
  {
    OtherSetKeeps(r, now, c, e);
  }

  lemma EndAfterFirst(r: Run, now: int, calls: seq<Call>)
    requires calls != []
    ensures WheelEnd(r, now, calls)
         == WheelEnd(WheelStep(r, now, calls[0]), if calls[0].Second? then now + 1 else now, calls[1..])
    ensures Seconds(calls) == Seconds(calls[1..]) + if calls[0].Second? then 1 else 0
  {
  }

  lemma {:induction false} BottomResidence(r: Run, now: int, calls: seq<Call>, e: EventId, slot: nat, left: nat)
    requires slot < 60 && Untouched(calls, e) && e in r.w.arrive && r.w.pos < DAY
    requires EntriesOf(r.w.entries, e) == {Entry(e, 0, slot)} && left == (slot - r.w.pos - 1) % 60
    ensures EntriesOf(WheelEnd(r, now, calls).w.entries, e)
         == if Seconds(calls) <= left then {Entry(e, 0, slot)} else {}
    decreases |calls|
  {
    if calls != [] {
      var r' := WheelStep(r, now, calls[0]);
      if calls[0].Set? {
        OtherSetKeeps(r, now, calls[0], e);
        BottomResidence(r', now, calls[1..], e, slot, left);
      } else {
        BottomSecond(r, now, e, slot);
        if left == 0 {
          GoneStaysGone(r', now + 1, calls[1..], e);
        } else {
          BottomResidence(r', now + 1, calls[1..], e, slot, left - 1);
        }
      }
    }
  }

  lemma {:induction false} GoneStaysGone(r: Run, now: int, calls: seq<Call>, e: EventId)
    requires Untouched(calls, e) && EntriesOf(r.w.entries, e) == {}
    ensures EntriesOf(WheelEnd(r, now, calls).w.entries, e) == {}
    decreases |calls|
  {
    if calls != [] {
      var r' := WheelStep(r, now, calls[0]);
      assert EntriesOf(r'.w.entries, e) == {} by {
        if calls[0].Set? {
          OtherSetKeeps(r, now, calls[0], e);
        } else {
          forall y | y in r'.w.entries ensures y.event != e {
            var z := TickSource(NextPos(r.w.pos), r.w.entries, r.w.arrive, Steady(now + 1), y);
            assert z.event == e ==> z in EntriesOf(r.w.entries, e);
          }
        }
      }
      GoneStaysGone(r', NowAfter(calls[0], now), calls[1..], e);
    }
  }

  /** A new event armed for `interval` seconds in any state of the wheel, and not refreshed, is in
      the wheel for exactly `ResidenceTicks` ticks, whatever happens to other events. */
  lemma Residence(r: Run, now: int, e: EventId, interval: nat, calls: seq<Call>)
    requires WellFormed(r.w) && e !in r.w.arrive && 0 < interval <= DAY && Untouched(calls, e)
    ensures var r' := WheelStep(r, now, Set(e, interval));
            Live(WheelEnd(r', now, calls).w.entries, e) <==> Seconds(calls) < ResidenceTicks(r.w.pos, interval)
  {
    var r' := WheelStep(r, now, Set(e, interval));
    var x := Place(e, r.w.pos, interval);
    assert EntriesOf(r'.w.entries, e) == {x} by {
      assert x in r'.w.entries;
    }
    if r.w.pos + interval < DAY {
      CanonicalResidence(r', now, calls, e, r.w.pos + interval);
    } else {
      PlaceWrapped(e, r.w.pos, interval);
      BottomResidence(r', now, calls, e, x.slot, (x.slot - r.w.pos - 1) % 60);
    }
    LiveIff(WheelEnd(r', now, calls).w.entries, e);
  }

  // ---- refreshed events too ----

  /** A wheel that holds `e` in the canonical slot for `target`, whatever other slots hold it besides. */
  ghost predicate Holds(w: Wheel, now: int, e: EventId, target: nat) {
    && w.pos < target < DAY && Place(e, w.pos, target - w.pos) in w.entries
    && e in w.arrive && w.arrive[e] - now == target - w.pos
  }

  lemma HoldsStays(w: Wheel, w': Wheel, now: int, e: EventId, target: nat)
    requires Holds(w, now, e, target) && w.pos + 1 < target && w'.pos == w.pos + 1 && w'.arrive == w.arrive
    requires w'.entries == AfterTick(w.pos + 1, w.entries, w.arrive, Steady(now + 1))
    ensures Holds(w', now + 1, e, target)
  {
    SpotKept(w.pos, w.entries, w.arrive, now + 1, e, target);
  }

  lemma SpotKept(pos: nat, entries: set<Entry>, arrive: map<EventId, int>, now: int, e: EventId, target: nat)
    requires pos + 1 < target < DAY && Place(e, pos, target - pos) in entries
    requires Deadline(arrive, e) - now == target - (pos + 1)
    ensures Place(e, pos + 1, target - (pos + 1)) in AfterTick(pos + 1, entries, arrive, Steady(now))
  {
    CanonicalMove(e, pos, target);
    MoveKept(pos + 1, entries, arrive, now, Place(e, pos, target - pos), target);
  }

  lemma MoveKept(pos: nat, entries: set<Entry>, arrive: map<EventId, int>, now: int, x: Entry, target: nat)
    requires pos < target && x in entries && x.wheel < 3
    requires Deadline(arrive, x.event) - now == target - pos
    requires Due(pos, x) || Place(x.event, pos, target - pos) == x
    requires Due(pos, x) ==> x.wheel > 0
    ensures Place(x.event, pos, target - pos) in AfterTick(pos, entries, arrive, Steady(now))
  {
    CarriedStays(pos, entries, arrive, Steady(now), x, Place(x.event, pos, target - pos));
  }

  lemma SecondKeepsHolds(r: Run, now: int, e: EventId, target: nat)
    requires Holds(r.w, now, e, target) && r.w.pos + 1 < target
    ensures Holds(WheelStep(r, now, Second).w, now + 1, e, target)
    ensures WheelStep(r, now, Second).w.pos == r.w.pos + 1
  {
    NextToday(r.w.pos, target);
    SecondTicks(r, now);
    HoldsStays(r.w, WheelStep(r, now, Second).w, now, e, target);
  }

  lemma SetKeepsEntry(r: Run, now: int, c: Call, x: Entry)
    requires c.Set? && c.event != x.event && x in r.w.entries
    ensures x in WheelStep(r, now, c).w.entries && WheelStep(r, now, c).w.pos == r.w.pos
    ensures x.event in r.w.arrive ==>
              && x.event in WheelStep(r, now, c).w.arrive
              && WheelStep(r, now, c).w.arrive[x.event] == r.w.arrive[x.event]
  {
  }

  lemma SetKeepsHolds(r: Run, now: int, c: Call, e: EventId, target: nat)
    requires Holds(r.w, now, e, target) && c.Set? && c.event != e
    ensures Holds(WheelStep(r, now, c).w, now, e, target) && WheelStep(r, now, c).w.pos == r.w.pos
  {
    SetKeepsEntry(r, now, c, Place(e, r.w.pos, target - r.w.pos));
  }

  lemma {:induction false} HoldsUntilTarget(r: Run, now: int, calls: seq<Call>, e: EventId, target: nat)
    requires Holds(r.w, now, e, target) && Untouched(calls, e) && Seconds(calls) < target - r.w.pos
    ensures Live(WheelEnd(r, now, calls).w.entries, e)
    decreases |calls|
  {
    if calls == [] {
      assert Place(e, r.w.pos, target - r.w.pos).event == e;
    } else {
      EndAfterFirst(r, now, calls);
      if calls[0].Set? {
        SetKeepsHolds(r, now, calls[0], e, target);
        HoldsUntilTarget(WheelStep(r, now, calls[0]), now, calls[1..], e, target);
      } else {
        SecondKeepsHolds(r, now, e, target);
        HoldsUntilTarget(WheelStep(r, now, Second), now + 1, calls[1..], e, target);
      }
    }
  }

  lemma SecondKeepsBottom(r: Run, now: int, e: EventId, slot: nat)
    requires r.w.pos < DAY && slot < 60 && Entry(e, 0, slot) in r.w.entries && (slot - r.w.pos - 1) % 60 > 0
    ensures var w := WheelStep(r, now, Second).w;
            && Entry(e, 0, slot) in w.entries && w.pos < DAY
            && (slot - w.pos - 1) % 60 == (slot - r.w.pos - 1) % 60 - 1
  {
    SecondTicks(r, now);
    BottomDistance(r.w.pos, slot);
    CarriedStays(NextPos(r.w.pos), r.w.entries, r.w.arrive, Steady(now + 1), Entry(e, 0, slot), Entry(e, 0, slot));
  }

  lemma {:induction false} BottomUntilSlot(r: Run, now: int, calls: seq<Call>, e: EventId, slot: nat)
    requires slot < 60 && Untouched(calls, e) && r.w.pos < DAY && Entry(e, 0, slot) in r.w.entries
    requires Seconds(calls) <= (slot - r.w.pos - 1) % 60
    ensures Live(WheelEnd(r, now, calls).w.entries, e)
    decreases |calls|
  {
    if calls == [] {
      assert Entry(e, 0, slot).event == e;
    } else {
      EndAfterFirst(r, now, calls);
      if calls[0].Set? {
        SetKeepsEntry(r, now, calls[0], Entry(e, 0, slot));
        BottomUntilSlot(WheelStep(r, now, calls[0]), now, calls[1..], e, slot);
      } else {
        SecondKeepsBottom(r, now, e, slot);
        BottomUntilSlot(WheelStep(r, now, Second), now + 1, calls[1..], e, slot);
      }
    }
  }

  /** What a Set leaves: the new entry, and the new deadline, besides every older entry. */
  lemma SetAdds(r: Run, now: int, e: EventId, interval: nat)
    requires Reachable(r.w, e) && interval > 0
    ensures var w := WheelStep(r, now, Set(e, interval)).w;
            && w.pos == r.w.pos && w.entries == r.w.entries + {Place(e, r.w.pos, interval)}
            && e in w.arrive && w.arrive[e] == now + interval
  {
  }

  /** Any event that its handler can reach, new or refreshed, at any position and with any slots holding it
      already: for `ResidenceTicks` ticks after the add it keeps a reference, the day wrap included. */
  lemma StaysAtLeast(r: Run, now: int, e: EventId, interval: nat, calls: seq<Call>)
    requires r.w.pos < DAY && Reachable(r.w, e) && 0 < interval <= DAY && Untouched(calls, e)
    requires Seconds(calls) < ResidenceTicks(r.w.pos, interval)
    ensures Live(WheelEnd(WheelStep(r, now, Set(e, interval)), now, calls).w.entries, e)
  {
    var r' := WheelStep(r, now, Set(e, interval));
    SetAdds(r, now, e, interval);
    if r.w.pos + interval < DAY {
      HoldsUntilTarget(r', now, calls, e, r.w.pos + interval);
    } else {
      PlaceWrapped(e, r.w.pos, interval);
      BottomUntilSlot(r', now, calls, e, Place(e, r.w.pos, interval).slot);
    }
  }

  /** A 30-second timeout lasts 30 ticks, or, added in the last 30 seconds of the day, 25 to 54. */
  lemma ThirtySeconds(pos: nat)
    requires pos < DAY
    ensures pos + 30 < DAY ==> ResidenceTicks(pos, 30) == 30
    ensures pos + 30 >= DAY ==> ResidenceTicks(pos, 30) == 86424 - pos && 25 <= 86424 - pos <= 54
  {
  }

  /** No interval is overstayed by more than one turn of the lowest wheel. */
  lemma ResidenceAtMost(pos: nat, interval: nat)
    requires pos < DAY && 0 < interval <= DAY
    ensures 0 < ResidenceTicks(pos, interval) <= Max(interval, 60)
  {
  }

  /** An event leaves exactly on time if and only if its deadline is before midnight, or it happens
      to fall 24 seconds past it within the next minute; every other add near midnight fires early
      or late. */
  lemma OnTimeIff(pos: nat, interval: nat)
    requires pos < DAY && 0 < interval <= DAY
    ensures ResidenceTicks(pos, interval) == interval <==>
              pos + interval < DAY || (pos + interval == DAY + 24 && interval <= 60)
  {
    if pos + interval >= DAY && interval <= 60 {
      assert (pos + interval) / 3600 == 24;
      assert pos % 60 == pos - 86340;
    }
  }

  /** One second before midnight, a one-day timeout fires after 48 seconds. */
  lemma OneDayTimeoutFiresEarly(r: Run, now: int, e: EventId, calls: seq<Call>)
    requires WellFormed(r.w) && r.w.pos == DAY - 1 && e !in r.w.arrive && Untouched(calls, e) && Seconds(calls) == 48
    ensures !Live(WheelEnd(WheelStep(r, now, Set(e, DAY)), now, calls).w.entries, e)
  {
    Residence(r, now, e, DAY, calls);
  }
}
