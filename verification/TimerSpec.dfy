/** The timing wheel seen as a set of slot entries, and what one placement and one tick do to it.

    The three wheels (60, 60 and 24 slots) are described by the set of entries they hold:
    an entry says that a given event is referenced from a given slot of a given wheel.
    The three indices form one odometer, `pos = idx0 + 60 * idx1 + 3600 * idx2`. */
module TimerSpec {

  /** Identity of a TimerEvent, standing for the pointer the slots are ordered by. */
  type EventId = nat

  const DAY: nat := 86400

  datatype Entry = Entry(event: EventId, wheel: nat, slot: nat)

  function WheelSize(w: nat): nat {
    if w == 2 then 24 else 60
  }

  ghost predicate InRange(x: Entry) {
    x.wheel < 3 && 1 <= x.slot < WheelSize(x.wheel)
  }

  /** Where an event due `interval` seconds after `pos` belongs: in the wheel of the highest
      mixed-radix digit in which `pos` and the target differ, at the target's digit. Past the end
      of the day there is no such digit, and the target's hour count is used as a slot of wheel 0. */
  function Place(e: EventId, pos: nat, interval: nat): Entry {
    var target := pos + interval;
    if target >= DAY then Entry(e, 0, target / 3600)
    else if target / 60 == pos / 60 then Entry(e, 0, target % 60)
    else if target / 3600 == pos / 3600 then Entry(e, 1, target / 60 % 60)
    else Entry(e, 2, target / 3600)
  }

  /** The position at which the slot of `x` will be emptied, for an entry ahead of `pos`. */
  function BlockStart(pos: nat, x: Entry): nat {
    if x.wheel == 0 then pos / 60 * 60 + x.slot
    else if x.wheel == 1 then pos / 3600 * 3600 + x.slot * 60
    else x.slot * 3600
  }

  function NextPos(pos: nat): nat {
    (pos + 1) % DAY
  }

  /** The slot of `x` is emptied by the tick that arrives at `pos`. */
  predicate Due(pos: nat, x: Entry) {
    || (x.wheel == 0 && x.slot == pos % 60)
    || (x.wheel == 1 && pos % 60 == 0 && x.slot == pos / 60 % 60)
    || (x.wheel == 2 && pos % 3600 == 0 && x.slot == pos / 3600 % 24)
  }

  function Deadline(arrive: map<EventId, int>, e: EventId): int {
    if e in arrive then arrive[e] else 0
  }

  /** One AddTimerEventUnSafe call that reads the clock as `now`. */
  function Added(pos: nat, entries: set<Entry>, e: EventId, deadline: int, now: int): set<Entry> {
    if deadline - now <= 0 then entries else entries + {Place(e, pos, deadline - now)}
  }

  /** `x` was emptied out of wheel 1 or 2 by the tick arriving at `pos` and is not yet due. */
  predicate Cascades(pos: nat, x: Entry, arrive: map<EventId, int>, clock: EventId -> int) {
    Due(pos, x) && x.wheel > 0 && Deadline(arrive, x.event) - clock(x.event) > 0
  }

  function Replaced(pos: nat, x: Entry, arrive: map<EventId, int>, clock: EventId -> int): Entry
    requires Cascades(pos, x, arrive, clock)
  {
    Place(x.event, pos, Deadline(arrive, x.event) - clock(x.event))
  }

  /** The entries after the tick arriving at `pos`, when only wheels below `upto` are handled;
      `clock(e)` is what the clock reads when the cascade places `e` again. */
  function TickUpTo(pos: nat, entries: set<Entry>, arrive: map<EventId, int>, clock: EventId -> int, upto: nat)
    : set<Entry>
  {
    (set x | x in entries && !(Due(pos, x) && x.wheel < upto)) +
    (set x | x in entries && x.wheel < upto && Cascades(pos, x, arrive, clock) :: Replaced(pos, x, arrive, clock))
  }

  function AfterTick(pos: nat, entries: set<Entry>, arrive: map<EventId, int>, clock: EventId -> int): set<Entry> {
    TickUpTo(pos, entries, arrive, clock, 3)
  }

  /** Every entry after a tick was left alone by it or comes from an emptied slot of a higher wheel. */
  lemma TickSource(pos: nat, entries: set<Entry>, arrive: map<EventId, int>, clock: EventId -> int, y: Entry)
    returns (x: Entry)
    requires y in AfterTick(pos, entries, arrive, clock)
    ensures x in entries && x.event == y.event
    ensures if Due(pos, x) then Cascades(pos, x, arrive, clock) && y == Replaced(pos, x, arrive, clock) else y == x
  {
    if y in entries && !Due(pos, y) {
      x := y;
    } else {
      var z :| z in entries && z.wheel < 3 && Cascades(pos, z, arrive, clock) && y == Replaced(pos, z, arrive, clock);
      x := z;
    }
  }

  /** Some slot still holds a reference to `e`. */
  predicate Live(entries: set<Entry>, e: EventId) {
    exists x :: x in entries && x.event == e
  }

  /** The events whose last reference disappears when `before` becomes `after`. */
  function Released(before: set<Entry>, after: set<Entry>): (gone: set<EventId>)
    ensures forall e :: e in gone <==> Live(before, e) && !Live(after, e)
  {
    set x | x in before && !Live(after, x.event) :: x.event
  }

  // ---- the arithmetic of placement ----

  /** Away from the day's end, a placed entry lies ahead of `pos`, no later than its target, in
      range; and in wheel 0 exactly at its target. */
  lemma PlaceAhead(e: EventId, pos: nat, interval: nat)
    requires 0 < interval && pos + interval < DAY
    ensures var x := Place(e, pos, interval);
            && InRange(x) && x.event == e
            && pos < BlockStart(pos, x) <= pos + interval
            && (x.wheel == 0 ==> BlockStart(pos, x) == pos + interval)
  {
    var target := pos + interval;
    assert target / 3600 <= 23;
    if target / 60 != pos / 60 && target / 3600 == pos / 3600 {
      assert target / 60 % 60 == target / 60 - target / 3600 * 60;
      assert pos / 60 < target / 60;
    }
  }

  /** Past the day's end the slot is still inside wheel 0. */
  lemma PlaceWrapped(e: EventId, pos: nat, interval: nat)
    requires 0 < interval <= DAY && pos < DAY <= pos + interval
    ensures var x := Place(e, pos, interval);
            x.wheel == 0 && 24 <= x.slot <= 47 && InRange(x)
  {
  }

  /** For every position and every allowed interval the chosen slot exists and is not slot 0. */
  lemma PlaceInRange(e: EventId, pos: nat, interval: nat)
    requires 0 < interval <= DAY && pos < DAY
    ensures InRange(Place(e, pos, interval))
  {
    if pos + interval < DAY {
      PlaceAhead(e, pos, interval);
    } else {
      PlaceWrapped(e, pos, interval);
    }
  }

  /** For any positive interval, however long, the chosen slot exists if and only if the deadline's hour
      count is below the size of wheel 0, in which placement past the end of the day looks for a slot. */
  lemma PlaceInRangeIff(e: EventId, pos: nat, interval: nat)
    requires 0 < interval && pos < DAY
    ensures InRange(Place(e, pos, interval)) <==> pos + interval < 60 * 3600
  {
    if pos + interval < DAY {
      PlaceAhead(e, pos, interval);
    } else {
      assert (pos + interval) / 3600 < 60 <==> pos + interval < 60 * 3600;
    }
  }

  /** One tick leaves an entry that it does not empty at the same distance, and empties exactly the
      entries whose block starts at the new position. */
  lemma BlockStartStable(pos: nat, x: Entry)
    requires pos + 1 < DAY && InRange(x) && pos < BlockStart(pos, x)
    ensures BlockStart(pos + 1, x) == BlockStart(pos, x)
    ensures Due(pos + 1, x) <==> BlockStart(pos, x) == pos + 1
  {
    var p := pos + 1;
    if x.wheel == 0 {
      assert pos % 60 < x.slot;
      assert p / 60 == pos / 60;
    } else if x.wheel == 1 {
      assert pos % 3600 < x.slot * 60;
      assert p / 3600 == pos / 3600;
      assert p / 60 % 60 == p / 60 - p / 3600 * 60;
    }
  }
}
