/** The server's map of sessions: filled when a connection is accepted, emptied by erases that a closing
    session posts to the main context. */
module PbServer {

  type Key = nat
  type SessionRef = nat

  /** An erase posted for a session; the closure itself knows only the key. */
  datatype Erase = Erase(key: Key, session: SessionRef)

  /** `live` are the accepted sessions whose erase has not run, with their keys; `closed` those among
      them that have announced their end. */
  datatype State = State(table: map<Key, SessionRef>, posted: seq<Erase>,
                         live: map<SessionRef, Key>, closed: set<SessionRef>)

  datatype Event = Accept(session: SessionRef, key: Key) | Close(session: SessionRef) | RunErase

  const EMPTY: State := State(map[], [], map[], {})

  /** emplace keeps what is there. */
  function Emplaced(table: map<Key, SessionRef>, key: Key, session: SessionRef): map<Key, SessionRef> {
    if key in table then table else table[key := session]
  }

  /** A session is new when accepted and closes once. */
  predicate Enabled(s: State, e: Event) {
    match e
    case Accept(session, _) => session !in s.live
    case Close(session) => session in s.live && session !in s.closed
    case RunErase => s.posted != []
  }

  function Step(s: State, e: Event): State
    requires Enabled(s, e)
  {
    match e
    case Accept(session, key) =>
      s.(table := Emplaced(s.table, key, session), live := s.live[session := key])
    case Close(session) =>
      s.(posted := s.posted + [Erase(s.live[session], session)], closed := s.closed + {session})
    case RunErase =>
      var e := s.posted[0];
      State(s.table - {e.key}, s.posted[1..], s.live - {e.session}, s.closed - {e.session})
  }

  /** The map holds exactly the live sessions, each under its own key. */
  ghost predicate Retained(s: State) {
    && (forall r :: r in s.live ==> s.live[r] in s.table && s.table[s.live[r]] == r)
    && (forall k :: k in s.table ==> s.table[k] in s.live && s.live[s.table[k]] == k)
  }

  /** Exactly the closed sessions have an erase posted, one each, with their key. */
  ghost predicate ErasesPosted(s: State) {
    && (forall i :: 0 <= i < |s.posted| ==>
          s.posted[i].session in s.closed && s.posted[i].session in s.live
          && s.live[s.posted[i].session] == s.posted[i].key)
    && (forall i, j :: 0 <= i < j < |s.posted| ==> s.posted[i].session != s.posted[j].session)
    && (forall r :: r in s.closed ==> exists i :: 0 <= i < |s.posted| && s.posted[i].session == r)
  }

  ghost predicate Agrees(s: State) {
    Retained(s) && ErasesPosted(s)
  }

  lemma CloseKeeps(s: State, session: SessionRef)
    requires Agrees(s) && Enabled(s, Close(session))
    ensures Agrees(Step(s, Close(session)))
  {
    var s' := Step(s, Close(session));
    assert s'.posted[|s.posted|].session == session;
    forall r | r in s'.closed ensures exists i :: 0 <= i < |s'.posted| && s'.posted[i].session == r {
      if r != session {
        var i :| 0 <= i < |s.posted| && s.posted[i].session == r;
        assert s'.posted[i].session == r;
      }
    }
  }

  lemma EraseKeeps(s: State)
    requires Agrees(s) && s.posted != []
    ensures Agrees(Step(s, RunErase)) && s.posted[0].key in s.table
  {
    var s' := Step(s, RunErase);
    forall r | r in s'.closed ensures exists i :: 0 <= i < |s'.posted| && s'.posted[i].session == r {
      var i :| 0 <= i < |s.posted| && s.posted[i].session == r;
      assert s'.posted[i - 1].session == r;
    }
  }

  /** Accepting a connection keeps the map right if and only if its key is free, that is, no session
      with this key is live: not even a closed one whose erase is still to run. */
  lemma AcceptKeepsIff(s: State, session: SessionRef, key: Key)
    requires Agrees(s) && Enabled(s, Accept(session, key))
    ensures Agrees(Step(s, Accept(session, key))) <==> key !in s.table
    ensures key in s.table <==> exists r :: r in s.live && s.live[r] == key
  {
    var s' := Step(s, Accept(session, key));
    if key in s.table {
      assert s'.live[session] == key && s'.table[key] == s.table[key] && s.table[key] in s.live;
      assert !Retained(s');
      assert s.live[s.table[key]] == key;
    } else {
      assert s'.posted == s.posted;
    }
  }

  ghost predicate Legal(s: State, es: seq<Event>)
    decreases |es|
  {
    es != [] ==> Enabled(s, es[0]) && Legal(Step(s, es[0]), es[1..])
  }

  ghost function After(s: State, es: seq<Event>): State
    requires Legal(s, es)
    decreases |es|
  {
    if es == [] then s else After(Step(s, es[0]), es[1..])
  }

  /** Every accepted connection finds its key free. */
  ghost predicate DistinctKeys(s: State, es: seq<Event>)
    requires Legal(s, es)
    decreases |es|
  {
    es != [] ==> (es[0].Accept? ==> es[0].key !in s.table) && DistinctKeys(Step(s, es[0]), es[1..])
  }

  lemma {:induction false} RunAgrees(s: State, es: seq<Event>)
    requires Agrees(s) && Legal(s, es) && DistinctKeys(s, es)
    ensures Agrees(After(s, es))
    decreases |es|
  {
    if es != [] {
      match es[0] {
        case Accept(session, key) => AcceptKeepsIff(s, session, key);
        case Close(session) => CloseKeeps(s, session);
        case RunErase => EraseKeeps(s);
      }
      RunAgrees(Step(s, es[0]), es[1..]);
    }
  }

  // ---- when the main context drains ----

  function Drain(s: State): State
    decreases |s.posted|
  {
    if s.posted == [] then s else Drain(Step(s, RunErase))
  }

  lemma NoneClosed(s: State)
    requires ErasesPosted(s) && s.posted == []
    ensures s.closed == {} && s.live == s.live - s.closed
  {
    assert forall r :: r in s.closed ==> false;
  }

  lemma SameActive(live: map<SessionRef, Key>, closed: set<SessionRef>, r: SessionRef)
    requires r in closed
    ensures live - closed == (live - {r}) - (closed - {r})
  {
  }

  /** Draining erases every closed session and no other: what stays are the active ones, and each erase
      found its session in the map. */
  lemma {:induction false} DrainLeavesActive(s: State)
    requires Agrees(s)
    ensures Agrees(Drain(s)) && Drain(s).posted == [] && Drain(s).closed == {}
    ensures Drain(s).live == s.live - s.closed && |Drain(s).table| == |s.table| - |s.posted|
    decreases |s.posted|
  {
    if s.posted == [] {
      NoneClosed(s);
    } else {
      EraseKeeps(s);
      DrainLeavesActive(Step(s, RunErase));
      SameActive(s.live, s.closed, s.posted[0].session);
      OneErased(s.table, s.posted[0].key);
    }
  }

  lemma OneErased(table: map<Key, SessionRef>, key: Key)
    requires key in table
    ensures |table - {key}| == |table| - 1
  {
    var rest := table - {key};
    assert rest.Keys == table.Keys - {key};
    assert |rest| == |rest.Keys| && |table| == |table.Keys|;
  }

  /** From the start: at every moment of a run whose accepts find their keys free the map holds exactly
      the accepted sessions not yet erased, and once the posted erases have run exactly the active ones. */
  lemma MapTracksSessions(es: seq<Event>)
    requires Legal(EMPTY, es) && DistinctKeys(EMPTY, es)
    ensures Agrees(After(EMPTY, es))
    ensures var s := After(EMPTY, es);
            var d := Drain(s);
            d.posted == [] && d.live == s.live - s.closed && Retained(d)
  {
    RunAgrees(EMPTY, es);
    DrainLeavesActive(After(EMPTY, es));
  }

  /** A key taken stays with the session that has it until an erase for it runs, whatever is accepted and
      closed in between. */
  lemma {:induction false} HeldUntilErase(s: State, es: seq<Event>, key: Key)
    requires Legal(s, es) && key in s.table && forall i :: 0 <= i < |es| ==> !es[i].RunErase?
    ensures key in After(s, es).table && After(s, es).table[key] == s.table[key]
    decreases |es|
  {
    if es != [] {
      HeldUntilErase(Step(s, es[0]), es[1..], key);
    }
  }

  /** In particular a session accepted under a taken key is nowhere in the map, and the earlier one is. */
  lemma TakenKeyStays(s: State, session: SessionRef, key: Key)
    requires Agrees(s) && Enabled(s, Accept(session, key)) && key in s.table
    ensures var t := Step(s, Accept(session, key));
            t.table == s.table && t.table[key] != session && (forall k :: k in t.table ==> t.table[k] != session)
  {
    forall k | k in s.table ensures s.table[k] != session {
      assert s.table[k] in s.live;
    }
  }

  /** A connection that comes back under its old key before the old session's erase has run is not
      retained: the erase leaves nothing under its key. */
  lemma ReusedKeyIsLost(s: State, gone: SessionRef, session: SessionRef)
    requires Agrees(s) && s.posted == [] && gone in s.live && session !in s.live
    ensures var s1 := Step(s, Close(gone));
            var s2 := Step(s1, Accept(session, s.live[gone]));
            var s3 := Step(s2, RunErase);
            session in s3.live && session !in s3.closed && s.live[gone] !in s3.table
  {
  }

  /** And when such a session closes later, its erase takes out whoever has the key by then: a session that
      is open and was accepted under a free key. */
  lemma LostSessionErasesAnother(a: SessionRef, b: SessionRef, c: SessionRef, key: Key)
    requires a != b && b != c && a != c
    ensures var es := [Accept(a, key), Accept(b, key), Close(a), RunErase, Accept(c, key), Close(b), RunErase];
            && Legal(EMPTY, es)
            && c in After(EMPTY, es).live && c !in After(EMPTY, es).closed && After(EMPTY, es).table == map[]
  {
    var s1, s2 := Step(EMPTY, Accept(a, key)), Step(Step(EMPTY, Accept(a, key)), Accept(b, key));
    var s3 := Step(s2, Close(a));
    var s4 := Step(s3, RunErase);
    assert s4.table == map[] && s4.posted == [];
    var s5 := Step(s4, Accept(c, key));
    assert s5.table == map[key := c];
    var s6 := Step(s5, Close(b));
    var s7 := Step(s6, RunErase);
    assert s7.table == map[];
    var es := [Accept(a, key), Accept(b, key), Close(a), RunErase, Accept(c, key), Close(b), RunErase];
    AfterOne(s6, es[6..]);
    AfterFirst(s5, es[5..]);
    AfterFirst(s4, es[4..]);
    AfterFirst(s3, es[3..]);
    AfterFirst(s2, es[2..]);
    AfterFirst(s1, es[1..]);
    AfterFirst(EMPTY, es);
  }

  lemma AfterOne(s: State, es: seq<Event>)
    requires |es| == 1 && Enabled(s, es[0])
    ensures Legal(s, es) && After(s, es) == Step(s, es[0])
  {
    assert es[1..] == [];
  }

  lemma AfterFirst(s: State, es: seq<Event>)
    requires es != [] && Enabled(s, es[0]) && Legal(Step(s, es[0]), es[1..])
    ensures Legal(s, es) && After(s, es) == After(Step(s, es[0]), es[1..])
  {
  }

  class PbServer {
    var sessionMap: map<Key, SessionRef>
    var posted: seq<Erase>
    ghost var live: map<SessionRef, Key>
    ghost var closed: set<SessionRef>

    ghost function Value(): State
      reads this
    {
      State(sessionMap, posted, live, closed)
    }

    constructor ()
      ensures Value() == EMPTY
    {
      sessionMap, posted, live, closed := map[], [], map[], {};
    }

    /** The accept callback. */
    method OnAccept(session: SessionRef, key: Key)
      requires Enabled(Value(), Accept(session, key))
      modifies this
      ensures Value() == Step(old(Value()), Accept(session, key))
    {
      if key !in sessionMap {
        sessionMap := sessionMap[key := session];
      }
      live := live[session := key];
    }

    /** The close callback, on the session's own thread. */
    method OnSessionClose(session: SessionRef, key: Key)
      requires Enabled(Value(), Close(session)) && live[session] == key
      modifies this
      ensures Value() == Step(old(Value()), Close(session))
    {
      posted := posted + [Erase(key, session)];
      closed := closed + {session};
    }

    /** The main context runs the next posted erase. */
    method RunPosted()
      requires Enabled(Value(), RunErase)
      modifies this
      ensures Value() == Step(old(Value()), RunErase)
    {
      var e := posted[0];
      posted := posted[1..];
      if e.key in sessionMap {
        sessionMap := sessionMap - {e.key};
      }
      live, closed := live - {e.session}, closed - {e.session};
    }
  }
}
