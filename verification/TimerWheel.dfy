/** The timing wheel as it is programmed: three vectors of slots, three indices, a placement loop
    that carries, and a tick that swaps slots out and cascades them downwards. */
module TimerWheel {
  import opened TimerSpec
  import TimerRuns

  type Slot = set<EventId>

  /** The entries held by the slots of `wheels`. */
  ghost function EntriesIn(wheels: seq<seq<Slot>>): set<Entry> {
    set w, s, e | 0 <= w < |wheels| && 0 <= s < |wheels[w]| && e in wheels[w][s] :: Entry(e, w, s)
  }

  ghost predicate Shape(wheels: seq<seq<Slot>>) {
    |wheels| == 3 && forall w :: 0 <= w < 3 ==> |wheels[w]| == WheelSize(w)
  }

  lemma EntryIn(wheels: seq<seq<Slot>>, x: Entry)
    ensures x in EntriesIn(wheels)
            <==> x.wheel < |wheels| && x.slot < |wheels[x.wheel]| && x.event in wheels[x.wheel][x.slot]
  {
    if x.wheel < |wheels| && x.slot < |wheels[x.wheel]| && x.event in wheels[x.wheel][x.slot] {
      assert Entry(x.event, x.wheel, x.slot) in EntriesIn(wheels);
    }
  }

  function Inserted(wheels: seq<seq<Slot>>, w: nat, s: nat, e: EventId): seq<seq<Slot>>
    requires w < |wheels| && s < |wheels[w]|
  {
    wheels[w := wheels[w][s := wheels[w][s] + {e}]]
  }

  function Emptied(wheels: seq<seq<Slot>>, w: nat, s: nat): seq<seq<Slot>>
    requires w < |wheels| && s < |wheels[w]|
  {
    wheels[w := wheels[w][s := {}]]
  }

  lemma InsertEntry(wheels: seq<seq<Slot>>, w: nat, s: nat, e: EventId)
    requires w < |wheels| && s < |wheels[w]|
    ensures EntriesIn(Inserted(wheels, w, s, e)) == EntriesIn(wheels) + {Entry(e, w, s)}
    ensures Shape(wheels) ==> Shape(Inserted(wheels, w, s, e))
  {
    forall x: Entry ensures x in EntriesIn(Inserted(wheels, w, s, e)) <==> x in EntriesIn(wheels) + {Entry(e, w, s)} {
      EntryIn(wheels, x);
      EntryIn(Inserted(wheels, w, s, e), x);
    }
  }

  lemma EmptySlot(wheels: seq<seq<Slot>>, w: nat, s: nat)
    requires w < |wheels| && s < |wheels[w]|
    ensures Shape(wheels) ==> Shape(Emptied(wheels, w, s))
    ensures EntriesIn(Emptied(wheels, w, s)) == set x | x in EntriesIn(wheels) && !(x.wheel == w && x.slot == s)
  {
    forall x: Entry
      ensures x in EntriesIn(Emptied(wheels, w, s)) <==> x in EntriesIn(wheels) && !(x.wheel == w && x.slot == s)
    {
      EntryIn(wheels, x);
      EntryIn(Emptied(wheels, w, s), x);
    }
  }

  // ---- one round of the cascade, on entries ----

  /** The slot of wheel `i` that the tick arriving at `pos` empties, when it empties one. */
  function DueSlot(pos: nat, i: nat): nat {
    if i == 0 then pos % 60 else if i == 1 then pos / 60 % 60 else pos / 3600 % 24
  }

  /** Wheel `i` turns at `pos`: every lower wheel has come back to slot 0. */
  predicate Turns(pos: nat, i: nat) {
    i == 0 || (i == 1 && pos % 60 == 0) || (i == 2 && pos % 3600 == 0)
  }

  /** The entries left in place when the due slot of wheel `i` is swapped out. */
  function SwappedOut(pos: nat, entries: set<Entry>, i: nat): set<Entry> {
    set x | x in entries && !(x.wheel == i && x.slot == DueSlot(pos, i))
  }

  /** The events swapped out of the due slot of wheel `i`. */
  function InDueSlot(pos: nat, entries: set<Entry>, i: nat): Slot {
    set x | x in entries && x.wheel == i && x.slot == DueSlot(pos, i) :: x.event
  }

  /** Adding every event of `moved` again. */
  function AddedAll(pos: nat, entries: set<Entry>, moved: Slot, arrive: map<EventId, int>, clock: EventId -> int)
    : set<Entry>
  {
    entries + set e | e in moved && Deadline(arrive, e) - clock(e) > 0 :: Place(e, pos, Deadline(arrive, e) - clock(e))
  }

  lemma AddedAllGrows(pos: nat, entries: set<Entry>, moved: Slot, e: EventId,
                      arrive: map<EventId, int>, clock: EventId -> int)
    requires e in arrive
    ensures AddedAll(pos, entries, moved + {e}, arrive, clock) ==
            Added(pos, AddedAll(pos, entries, moved, arrive, clock), e, arrive[e], clock(e))
  {
    if arrive[e] - clock(e) > 0 {
      assert e in moved + {e} && Place(e, pos, Deadline(arrive, e) - clock(e)) == Place(e, pos, arrive[e] - clock(e));
    }
  }

  /** When wheel 2 turns, the due slot of wheel 1 is its empty slot 0. */
  lemma NoEarlierCascade(pos: nat, x: Entry, i: nat)
    requires InRange(x) && 1 <= i < 3 && Turns(pos, i) && 0 < x.wheel < i
    ensures !Due(pos, x)
  {
    assert pos % 3600 == 0 ==> pos / 60 % 60 == 0;
  }

  lemma MovedIsNotZero(pos: nat, entries: set<Entry>, i: nat)
    requires forall x :: x in entries ==> InRange(x)
    ensures InDueSlot(pos, entries, i) != {} ==> DueSlot(pos, i) != 0
  {
  }

  /** Without events to add the position does not matter. */
  lemma NoneAdded(pos: nat, pos': nat, entries: set<Entry>, moved: Slot,
                  arrive: map<EventId, int>, clock: EventId -> int)
    requires moved != {} ==> pos == pos'
    ensures AddedAll(pos, entries, moved, arrive, clock) == AddedAll(pos', entries, moved, arrive, clock)
  {
  }

  lemma DueIffInDueSlot(pos: nat, x: Entry, i: nat)
    requires 1 <= i < 3 && Turns(pos, i) && x.wheel == i
    ensures Due(pos, x) <==> x.slot == DueSlot(pos, i)
  {
  }

  /** Before round `i` the cascade has not placed anything again. */
  lemma BeforeRound(pos: nat, entries: set<Entry>, arrive: map<EventId, int>, clock: EventId -> int, i: nat)
    requires (forall x :: x in entries ==> InRange(x)) && 1 <= i < 3 && Turns(pos, i)
    ensures TickUpTo(pos, entries, arrive, clock, i) == set x | x in entries && !(Due(pos, x) && x.wheel < i)
  {
    forall x | x in entries && x.wheel < i ensures !Cascades(pos, x, arrive, clock) {
      if x.wheel > 0 {
        NoEarlierCascade(pos, x, i);
      }
    }
  }

  /** Swapping out the due slot of wheel `i` and adding its events again extends the tick from the
      wheels below `i` to wheel `i`. */
  lemma CascadeRound(pos: nat, entries: set<Entry>, arrive: map<EventId, int>, clock: EventId -> int, i: nat)
    requires (forall x :: x in entries ==> InRange(x)) && 1 <= i < 3 && Turns(pos, i)
    ensures var before := TickUpTo(pos, entries, arrive, clock, i);
            && InDueSlot(pos, before, i) == InDueSlot(pos, entries, i)
            && TickUpTo(pos, entries, arrive, clock, i + 1) ==
               AddedAll(pos, SwappedOut(pos, before, i), InDueSlot(pos, entries, i), arrive, clock)
  {
    BeforeRound(pos, entries, arrive, clock, i);
    var before := set x | x in entries && !(Due(pos, x) && x.wheel < i);
    RoundKeeps(pos, entries, i, before);
    RoundMoves(pos, entries, arrive, clock, i);
  }

  lemma RoundKeeps(pos: nat, entries: set<Entry>, i: nat, before: set<Entry>)
    requires 1 <= i < 3 && Turns(pos, i)
    requires before == set x | x in entries && !(Due(pos, x) && x.wheel < i)
    ensures InDueSlot(pos, before, i) == InDueSlot(pos, entries, i)
    ensures SwappedOut(pos, before, i) == set x | x in entries && !(Due(pos, x) && x.wheel < i + 1)
  {
    forall x | x in entries && x.wheel == i ensures Due(pos, x) <==> x.slot == DueSlot(pos, i) {
      DueIffInDueSlot(pos, x, i);
    }
    var slot := DueSlot(pos, i);
    assert forall x :: x in entries && x.wheel == i ==> x in before;
  }

  lemma RoundMoves(pos: nat, entries: set<Entry>, arrive: map<EventId, int>, clock: EventId -> int, i: nat)
    requires (forall x :: x in entries ==> InRange(x)) && 1 <= i < 3 && Turns(pos, i)
    ensures (set x | x in entries && x.wheel < i + 1 && Cascades(pos, x, arrive, clock)
               :: Replaced(pos, x, arrive, clock)) ==
            (set e | e in InDueSlot(pos, entries, i) && Deadline(arrive, e) - clock(e) > 0
               :: Place(e, pos, Deadline(arrive, e) - clock(e)))
  {
    var moved := InDueSlot(pos, entries, i);
    forall x | x in entries && x.wheel < i + 1 && Cascades(pos, x, arrive, clock)
      ensures x.wheel == i && x.event in moved
    {
      if x.wheel < i {
        NoEarlierCascade(pos, x, i);
      } else {
        DueIffInDueSlot(pos, x, i);
      }
    }
    forall e | e in moved && Deadline(arrive, e) - clock(e) > 0
      ensures exists x :: x in entries && x.event == e && x.wheel == i && Cascades(pos, x, arrive, clock)
    {
      var x := Entry(e, i, DueSlot(pos, i));
      DueIffInDueSlot(pos, x, i);
    }
  }

  /** Indices during a tick, before round `i`: the wheels below it have come back to slot 0. */
  ghost predicate Progress(start: seq<nat>, idx: seq<nat>, i: nat)
    requires |start| == 3
  {
    || (i == 1 && idx == [start[0] + 1, start[1], start[2]])
    || (i == 2 && start[0] == 59 && idx == [0, start[1] + 1, start[2]])
    || (i == 3 && start[0] == 59 && start[1] == 59 && idx == [0, 0, start[2] + 1])
  }

  ghost function PosOf(idx: seq<nat>): nat
    requires |idx| == 3
  {
    idx[0] + 60 * idx[1] + 3600 * idx[2]
  }

  ghost predicate InRangeIdx(idx: seq<nat>) {
    |idx| == 3 && idx[0] < 60 && idx[1] < 60 && idx[2] < 24
  }

  /** The slot that round `i` swaps out is the one due at the new position, and the round runs
      exactly when its wheel turns. */
  lemma RoundIsDue(start: seq<nat>, idx: seq<nat>, i: nat)
    requires InRangeIdx(start) && Progress(start, idx, i)
    ensures var p := NextPos(PosOf(start));
            && p < DAY
            && (i < 3 ==>
                  && (Turns(p, i) <==> idx[i - 1] == WheelSize(i - 1))
                  && (Turns(p, i) ==>
                        && DueSlot(p, i) == (idx[i] + 1) % WheelSize(i)
                        && Progress(start, idx[i - 1 := 0][i := idx[i] + 1], i + 1)
                        && (DueSlot(p, i) != 0 ==> var now := idx[i - 1 := 0][i := idx[i] + 1];
                                                   InRangeIdx(now) && PosOf(now) == p)))
            && (i == 3 || !Turns(p, i) ==>
                  var end := if idx[2] == 24 then idx[2 := 0] else idx;
                  InRangeIdx(end) && PosOf(end) == p)
  {
    NextCounts(start[0], start[1], start[2]);
    if i == 1 {
      assert idx == [start[0] + 1, start[1], start[2]];
    } else if i == 2 {
      assert idx == [0, start[1] + 1, start[2]];
    } else {
      assert idx == [0, 0, start[2] + 1];
    }
  }

  /** The three indices are the digits of the position. */
  lemma IndicesAreDigits(idx: seq<nat>)
    requires InRangeIdx(idx)
    ensures PosOf(idx) < DAY
    ensures idx == [PosOf(idx) % 60, PosOf(idx) / 60 % 60, PosOf(idx) / 3600]
  {
    Remainder(60 * idx[2] + idx[1], 60, idx[0]);
    Remainder(idx[2], 60, idx[1]);
    var low := 60 * idx[1] + idx[0];
    Remainder(idx[2], 3600, low);
  }

  /** A round whose lower wheel is full, and the indices it leaves. */
  lemma RoundTurns(start: seq<nat>, idx: seq<nat>, i: nat)
    requires InRangeIdx(start) && Progress(start, idx, i) && 1 <= i < 3 && idx[i - 1] == WheelSize(i - 1)
    ensures var p := NextPos(PosOf(start));
            var now := idx[i - 1 := 0][i := idx[i] + 1];
            && p < DAY && Turns(p, i) && DueSlot(p, i) == (idx[i] + 1) % WheelSize(i) && Progress(start, now, i + 1)
            && (DueSlot(p, i) != 0 ==> InRangeIdx(now) && PosOf(now) == p)
  {
    RoundIsDue(start, idx, i);
  }

  /** Counting one second up by hand. */
  lemma NextCounts(a: nat, b: nat, c: nat)
    requires a < 60 && b < 60 && c < 24
    ensures var p := NextPos(a + 60 * b + 3600 * c);
            && (a < 59 ==> p == a + 1 + 60 * b + 3600 * c && p % 60 == a + 1 && p % 3600 != 0)
            && (a == 59 && b < 59 ==>
                  p == 60 * (b + 1) + 3600 * c && p % 60 == 0 && p % 3600 != 0 && p / 60 % 60 == b + 1)
            && (a == 59 && b == 59 && c < 23 ==> p == 3600 * (c + 1))
            && (a == 59 && b == 59 && c == 23 ==> p == 0)
            && (a == 59 && b == 59 ==>
                  p % 60 == 0 && p % 3600 == 0 && p / 60 % 60 == 0 && p / 3600 % 24 == (c + 1) % 24)
  {
    var p := a + 1 + 60 * b + 3600 * c;
    assert NextPos(a + 60 * b + 3600 * c) == if p == DAY then 0 else p;
    if a < 59 {
      WithinMinute(a, b, c);
    } else if b < 59 {
      NextMinute(b, c);
    } else if c < 23 {
      WholeHours(c + 1);
    }
  }

  lemma WithinMinute(a: nat, b: nat, c: nat)
    requires a < 59 && b < 60
    ensures var p := a + 1 + 60 * b + 3600 * c; p % 60 == a + 1 && p % 3600 != 0
  {
    var q, r := 60 * c + b, 60 * b + a + 1;
    Remainder(q, 60, a + 1);
    Remainder(c, 3600, r);
    assert 60 * q + (a + 1) == 3600 * c + r;
  }

  lemma NextMinute(b: nat, c: nat)
    requires b < 59
    ensures var p := 60 * (b + 1) + 3600 * c; p % 60 == 0 && p % 3600 != 0 && p / 60 % 60 == b + 1
  {
    var q, r := 60 * c + (b + 1), 60 * (b + 1);
    Remainder(q, 60, 0);
    Remainder(c, 3600, r);
    Remainder(c, 60, b + 1);
    assert 60 * q + 0 == 3600 * c + r;
  }

  lemma Remainder(q: nat, n: nat, r: nat)
    requires r < n && (n == 60 || n == 3600)
    ensures (n * q + r) % n == r && (n * q + r) / n == q
  {
  }

  lemma WholeHours(c: nat)
    requires c < 24
    ensures var p := 3600 * c;
            p % 60 == 0 && p % 3600 == 0 && p / 60 % 60 == 0 && p / 3600 % 24 == c
  {
  }

  /** The first slot of a tick. */
  lemma FirstIsDue(start: seq<nat>, before: set<Entry>, arrive: map<EventId, int>, clock: EventId -> int)
    requires InRangeIdx(start)
    ensures var p := NextPos(PosOf(start));
            var s := (start[0] + 1) % 60;
            && Progress(start, start[0 := start[0] + 1], 1)
            && TickUpTo(p, before, arrive, clock, 1) == (set x | x in before && !(x.wheel == 0 && x.slot == s))
            && DueBelow(p, before, 1) == (set x | x in before && x.wheel == 0 && x.slot == s :: x.event)
  {
    var p := NextPos(PosOf(start));
    assert p % 60 == (start[0] + 1) % 60;
    forall x | x in before && x.wheel == 0 ensures Due(p, x) <==> x.slot == (start[0] + 1) % 60 {}
  }

  /** The events of the slots that rounds below `i` empty. */
  function DueBelow(pos: nat, entries: set<Entry>, i: nat): Slot {
    set x | x in entries && Due(pos, x) && x.wheel < i :: x.event
  }

  lemma DueBelowGrows(pos: nat, entries: set<Entry>, start: seq<nat>, idx: seq<nat>, i: nat)
    requires InRangeIdx(start) && Progress(start, idx, i) && 1 <= i < 3 && idx[i - 1] == WheelSize(i - 1)
    requires pos == NextPos(PosOf(start))
    ensures DueBelow(pos, entries, i + 1) == DueBelow(pos, entries, i) + InDueSlot(pos, entries, i)
  {
    RoundIsDue(start, idx, i);
    forall x | x in entries && x.wheel == i ensures Due(pos, x) <==> x.slot == DueSlot(pos, i) {
      DueIffInDueSlot(pos, x, i);
    }
  }

  /** A wheel that does not turn has nothing due, and neither have the wheels above it. */
  lemma NothingMoreDue(pos: nat, entries: set<Entry>, arrive: map<EventId, int>, clock: EventId -> int, i: nat)
    requires 1 <= i <= 3 && (i < 3 ==> !Turns(pos, i))
    ensures TickUpTo(pos, entries, arrive, clock, i) == AfterTick(pos, entries, arrive, clock)
    ensures DueBelow(pos, entries, i) == DueBelow(pos, entries, 3)
  {
    forall x | x in entries && x.wheel >= i ensures !Due(pos, x) {
      if i == 1 && x.wheel == 2 {
        assert pos % 60 != 0 ==> pos % 3600 != 0;
      }
    }
  }

  /** Of the events dropped by a tick, those without a reference are the ones released by it. */
  lemma DroppedAndGone(pos: nat, before: set<Entry>, arrive: map<EventId, int>, clock: EventId -> int)
    ensures var after := AfterTick(pos, before, arrive, clock);
            (set e | e in DueBelow(pos, before, 3) && !Live(after, e)) == Released(before, after)
  {
    var after := AfterTick(pos, before, arrive, clock);
    forall x | x in before && !Live(after, x.event) ensures Due(pos, x) {
      assert x !in after;
    }
  }

  class TimerWheel {
    var wheels: seq<seq<Slot>>
    var wheelIdx: seq<nat>
    var arrive: map<EventId, int>  // arrive_time of every TimerEvent made so far
    var fired: set<EventId>        // the events whose callback has run

    ghost function Pos(): nat
      requires |wheelIdx| == 3
      reads this`wheelIdx
    {
      PosOf(wheelIdx)
    }

    ghost function Entries(): set<Entry>
      reads this`wheels
    {
      EntriesIn(wheels)
    }

    ghost predicate IndicesInRange()
      reads this`wheelIdx
    {
      InRangeIdx(wheelIdx)
    }

    /** The abstract state is a well-formed wheel: every reference sits in a slot other than slot 0. */
    ghost predicate Valid()
      reads this
    {
      && Shape(wheels) && IndicesInRange()
      && TimerRuns.WellFormed(State())
    }

    ghost function State(): TimerRuns.Wheel
      requires |wheelIdx| == 3
      reads this
    {
      TimerRuns.Wheel(Pos(), Entries(), arrive)
    }

    constructor ()
      ensures Valid() && State() == TimerRuns.EMPTY && fired == {}
    {
      wheels := [seq(60, _ => {}), seq(60, _ => {}), seq(24, _ => {})];
      wheelIdx := [0, 0, 0];
      arrive := map[];
      fired := {};
    }

    /** Places `e` in the wheel and slot found by carrying its interval through the indices; an
        event already due is not inserted. The slot the loop arrives at has to exist: by
        PlaceInRangeIff it does for every interval of up to a day, and beyond that for some. */
    method AddTimerEventUnSafe(e: EventId, now: int)
      requires Shape(wheels) && IndicesInRange() && e in arrive
      requires arrive[e] > now ==> Pos() + (arrive[e] - now) < 60 * 3600
      modifies this`wheels
      ensures Shape(wheels) && Entries() == Added(Pos(), old(Entries()), e, arrive[e], now)
    {
      var interval := arrive[e] - now;
      if interval <= 0 {
        return;
      }
      var wheel, slot := FindSlot(wheels, wheelIdx, interval, e);
      PlaceInRangeIff(e, Pos(), interval);
      InsertEntry(wheels, wheel, slot, e);
      wheels := Inserted(wheels, wheel, slot, e);
    }

    /** The loop of AddTimerEventUnSafe. */
    static method FindSlot(wheels: seq<seq<Slot>>, idx: seq<nat>, interval: nat, ghost e: EventId)
      returns (wheel: nat, slot: nat)
      requires Shape(wheels) && |idx| == 3 && idx[0] < 60 && idx[1] < 60 && idx[2] < 24 && 0 < interval
      ensures Entry(e, wheel, slot) == Place(e, idx[0] + 60 * idx[1] + 3600 * idx[2], interval)
    {
      ghost var pos := idx[0] + 60 * idx[1] + 3600 * idx[2];
      ghost var place := Place(e, pos, interval);
      var left := interval;
      wheel, slot := 0, left + idx[0];
      var i := 0;
      while i < |wheels|
        invariant 0 <= i <= 3 && wheel == 0 && 0 < left == Left(pos, pos + interval, i)
        invariant i == 3 ==> place == Entry(e, 0, slot)
      {
        assert |wheels[i]| == WheelSize(i);
        Carry(idx, i, pos + interval, e);
        slot := left + idx[i];
        left := (left + idx[i]) / |wheels[i]|;
        if left == 0 {
          wheel := i;
          break;
        }
        i := i + 1;
      }
    }

    /** A new session's event: its deadline is the session's timeout, at most a day, after the clock
        reading `born` of the constructor. Unless some slot takes a reference, it fires at once. */
    method PostTimerEvent(e: EventId, sessionTimeout: nat, born: int, now: int)
      requires Valid() && e !in arrive && born <= now
      modifies this
      ensures Valid()
      ensures State()
           == TimerRuns.Armed(old(State()), e, born + if sessionTimeout < DAY then sessionTimeout else DAY, now)
      ensures fired == old(fired) + if Live(Entries(), e) then {} else {e}
    {
      var timeout := DAY;
      if sessionTimeout < DAY {
        timeout := sessionTimeout;
      }
      arrive := arrive[e := born + timeout];
      Arm(e, now);
      ReferencedIsLive(wheels, e);
      if !Referenced(wheels, e) {
        fired := fired + {e};
      }
    }

    /** The refresh that follows a request: if the event still has a reference, its deadline is
        overwritten and it is added again, leaving its older references where they are. */
    method Refresh(e: EventId, timeout: nat, read: int, now: int)
      requires Valid() && e in arrive && read <= now && timeout <= DAY
      modifies this`wheels, this`arrive
      ensures Valid()
      ensures State() == TimerRuns.Armed(old(State()), e, read + timeout, now)
    {
      ReferencedIsLive(wheels, e);
      if Referenced(wheels, e) {
        arrive := arrive[e := read + timeout];
        Arm(e, now);
      }
    }

    /** AddTimerEvent for an event whose deadline has just been set. */
    method Arm(e: EventId, now: int)
      requires Valid() && e in arrive && arrive[e] - now <= DAY
      modifies this`wheels
      ensures Valid() && Entries() == Added(Pos(), old(Entries()), e, arrive[e], now)
    {
      if arrive[e] > now {
        PlaceInRange(e, Pos(), arrive[e] - now);
      }
      AddTimerEventUnSafe(e, now);
    }

    /** Adds every event of a swapped-out slot again; `clock(e)` is the reading for `e`. */
    method Cascade(moved: Slot, clock: EventId -> int)
      requires Shape(wheels) && |wheelIdx| == 3 && (moved != {} ==> IndicesInRange())
      requires forall e :: e in moved ==> e in arrive && arrive[e] - clock(e) <= DAY
      modifies this`wheels
      ensures Shape(wheels) && Entries() == AddedAll(Pos(), old(Entries()), moved, arrive, clock)
    {
      var rest := moved;
      while rest != {}
        invariant rest <= moved && Shape(wheels)
        invariant Entries() == AddedAll(Pos(), old(Entries()), moved - rest, arrive, clock)
        decreases rest
      {
        var e :| e in rest;
        AddedAllGrows(Pos(), old(Entries()), moved - rest, e, arrive, clock);
        assert moved - (rest - {e}) == (moved - rest) + {e};
        AddTimerEventUnSafe(e, clock(e));
        rest := rest - {e};
      }
    }

    /** Moves index `i` on by one and swaps the slot it comes to with an empty one. */
    method SwapOut(i: nat) returns (slot: Slot)
      requires Shape(wheels) && |wheelIdx| == 3 && i < 3
      modifies this`wheels, this`wheelIdx
      ensures Shape(wheels) && wheelIdx == old(wheelIdx[i := wheelIdx[i] + 1])
      ensures var s := (old(wheelIdx[i]) + 1) % WheelSize(i);
              && Entries() == (set x | x in old(Entries()) && !(x.wheel == i && x.slot == s))
              && slot == set x | x in old(Entries()) && x.wheel == i && x.slot == s :: x.event
    {
      wheelIdx := wheelIdx[i := wheelIdx[i] + 1];
      assert |wheels[i]| == WheelSize(i);
      var s := wheelIdx[i] % |wheels[i]|;
      slot := wheels[i][s];
      EmptySlot(wheels, i, s);
      forall e | e in slot ensures Entry(e, i, s) in Entries() {}
      wheels := Emptied(wheels, i, s);
    }

    /** One round of the cascade, when the wheel below has gone all the way round: its index comes
        back to 0, wheel `i` moves on, and the events of its new slot are added again. */
    method Round(i: nat, clock: EventId -> int, ghost start: seq<nat>, ghost before: set<Entry>) returns (moved: Slot)
      requires Shape(wheels) && |wheelIdx| == 3 && 1 <= i < 3
      requires InRangeIdx(start) && Progress(start, wheelIdx, i) && wheelIdx[i - 1] == WheelSize(i - 1)
      requires forall x :: x in before ==> InRange(x) && x.event in arrive
      requires forall e :: e in arrive ==> arrive[e] - clock(e) <= DAY
      requires Entries() == TickUpTo(NextPos(PosOf(start)), before, arrive, clock, i)
      modifies this`wheels, this`wheelIdx
      ensures Shape(wheels) && |wheelIdx| == 3 && Progress(start, wheelIdx, i + 1)
      ensures Entries() == TickUpTo(NextPos(PosOf(start)), before, arrive, clock, i + 1)
      ensures moved == InDueSlot(NextPos(PosOf(start)), before, i)
    {
      ghost var p, all := NextPos(PosOf(start)), Entries();
      RoundTurns(start, wheelIdx, i);
      CascadeRound(p, before, arrive, clock, i);
      MovedIsNotZero(p, before, i);
      moved := Turn(i, start);
      Cascade(moved, clock);
      NoneAdded(Pos(), p, SwappedOut(p, all, i), moved, arrive, clock);
    }

    /** The indices and the slot swapped out in a round. */
    method Turn(i: nat, ghost start: seq<nat>) returns (moved: Slot)
      requires Shape(wheels) && |wheelIdx| == 3 && 1 <= i < 3
      requires InRangeIdx(start) && Progress(start, wheelIdx, i) && wheelIdx[i - 1] == WheelSize(i - 1)
      modifies this`wheels, this`wheelIdx
      ensures Shape(wheels) && |wheelIdx| == 3 && Progress(start, wheelIdx, i + 1)
      ensures var p := NextPos(PosOf(start));
              && Entries() == SwappedOut(p, old(Entries()), i) && moved == InDueSlot(p, old(Entries()), i)
              && (DueSlot(p, i) != 0 ==> IndicesInRange() && Pos() == p)
    {
      RoundTurns(start, wheelIdx, i);
      wheelIdx := wheelIdx[i - 1 := 0];
      moved := SwapOut(i);
    }

    /** Drops the swapped-out references: the callback of an event that no slot holds any more runs. */
    method Release(dropped: Slot, ghost p: nat, ghost before: set<Entry>, ghost clock: EventId -> int)
      requires Entries() == AfterTick(p, before, arrive, clock) && dropped == DueBelow(p, before, 3)
      modifies this`fired
      ensures fired == old(fired) + Released(before, Entries())
    {
      DroppedAndGone(p, before, arrive, clock);
      forall e ensures Referenced(wheels, e) <==> Live(Entries(), e) {
        ReferencedIsLive(wheels, e);
      }
      var gone := set e | e in dropped && !Referenced(wheels, e);
      assert gone == Released(before, Entries());
      fired := fired + gone;
    }

    static predicate Referenced(wheels: seq<seq<Slot>>, e: EventId) {
      exists w :: 0 <= w < |wheels| && exists s :: 0 <= s < |wheels[w]| && e in wheels[w][s]
    }

    static lemma ReferencedIsLive(wheels: seq<seq<Slot>>, e: EventId)
      ensures Referenced(wheels, e) <==> Live(EntriesIn(wheels), e)
    {
      if Referenced(wheels, e) {
        var w :| 0 <= w < |wheels| && exists s :: 0 <= s < |wheels[w]| && e in wheels[w][s];
        var s :| 0 <= s < |wheels[w]| && e in wheels[w][s];
        assert Entry(e, w, s) in EntriesIn(wheels);
      }
      if Live(EntriesIn(wheels), e) {
        var x :| x in EntriesIn(wheels) && x.event == e;
        EntryIn(wheels, x);
      }
    }

    /** Advances the indices by one second, swaps out the slots that come up, adds the events of the
        higher wheels again, and drops the rest: an event no slot refers to any more fires. */
    method Tick(clock: EventId -> int)
      requires Valid() && forall e :: e in arrive ==> arrive[e] - clock(e) <= DAY
      modifies this`wheels, this`wheelIdx, this`fired
      ensures Valid() && State() == TimerRuns.Ticked(old(State()), clock)
      ensures fired == old(fired) + Released(old(Entries()), Entries())
    {
      ghost var start, before := wheelIdx, Entries();
      ghost var p := NextPos(PosOf(start));
      TimerRuns.TickWellFormed(State(), clock);
      var dropped := FirstSwap(clock);
      var i := 1;
      while i < |wheels| && wheelIdx[i - 1] == |wheels[i - 1]|
        invariant 1 <= i <= 3 && Shape(wheels) && |wheelIdx| == 3 && Progress(start, wheelIdx, i)
        invariant Entries() == TickUpTo(p, before, arrive, clock, i)
        invariant dropped == DueBelow(p, before, i)
        modifies this`wheels, this`wheelIdx
      {
        DueBelowGrows(p, before, start, wheelIdx, i);
        var moved := Round(i, clock, start, before);
        dropped := dropped + moved;
        i := i + 1;
      }
      assert i < 3 ==> |wheels[i - 1]| == WheelSize(i - 1);
      RoundIsDue(start, wheelIdx, i);
      NothingMoreDue(p, before, arrive, clock, i);
      if wheelIdx[2] == |wheels[2]| {
        wheelIdx := wheelIdx[2 := 0];
      }
      Release(dropped, p, before, clock);
    }

    /** The first step of a tick: the index of wheel 0 moves on and its slot is swapped out. */
    method FirstSwap(ghost clock: EventId -> int) returns (slot: Slot)
      requires Shape(wheels) && IndicesInRange()
      modifies this`wheels, this`wheelIdx
      ensures Shape(wheels) && Progress(old(wheelIdx), wheelIdx, 1)
      ensures Entries() == TickUpTo(NextPos(old(Pos())), old(Entries()), arrive, clock, 1)
      ensures slot == DueBelow(NextPos(old(Pos())), old(Entries()), 1)
    {
      FirstIsDue(wheelIdx, Entries(), arrive, clock);
      slot := SwapOut(0);
    }

    /** What is left of the interval, in units of wheel `i`, when the placement loop reaches it. */
    static ghost function Left(pos: nat, target: nat, i: nat): int {
      if i == 0 then target - pos
      else if i == 1 then target / 60 - pos / 60
      else if i == 2 then target / 3600 - pos / 3600
      else target / DAY
    }

    /** One round of the placement loop: the carry into the next wheel, and the slot if there is none. */
    static lemma Carry(idx: seq<nat>, i: nat, target: nat, e: EventId)
      requires |idx| == 3 && idx[0] < 60 && idx[1] < 60 && idx[2] < 24 && i < 3
      requires idx[0] + 60 * idx[1] + 3600 * idx[2] < target
      ensures var pos := idx[0] + 60 * idx[1] + 3600 * idx[2];
              var place := Place(e, pos, target - pos);
              && (Left(pos, target, i) + idx[i]) / WheelSize(i) == Left(pos, target, i + 1) >= 0
              && (Left(pos, target, i) > 0 == Left(pos, target, i + 1) ==>
                    place == Entry(e, i, Left(pos, target, i) + idx[i]))
              && (i == 2 && Left(pos, target, 3) > 0 ==> place == Entry(e, 0, Left(pos, target, 2) + idx[2]))
    {
      IndicesAreDigits(idx);
      var a, b, c := idx[0], idx[1], idx[2];
      Remainder(60 * c + b, 60, a);
      Quotients(target);
      if i == 0 {
        DivShift(target, 60, b + 60 * c);
      } else if i == 1 {
        DivShift(target / 60, 60, c);
      }
    }
  }

  lemma DivShift(t: nat, n: nat, q: nat)
    requires n == 60 && n * q <= t
    ensures (t - n * q) / n == t / n - q && (t / n == q ==> t - n * q == t % n)
  {
  }

  lemma Quotients(t: nat)
    ensures t / 60 / 60 == t / 3600 && t / 3600 / 24 == t / DAY
  {
  }
}
