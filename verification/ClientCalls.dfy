/** The client inside an end-to-end run is PbClient: whatever chunks its two reads arrive in, an answered
    call is one ReadResponse over them. */
module ClientCalls {
  import opened Bytes
  import opened PbCoder
  import opened Frames
  import opened EndToEnd
  import S = SyncConnection
  import P = PbClient

  /** The events of one read: everything but its completion. */
  ghost predicate OneRead(es: seq<Event>) {
    forall i :: 0 <= i < |es| ==> !es[i].ClientDone?
  }

  /** During a read the client only takes bytes, all of them into its buffer. */
  lemma {:induction false} ReadCollects(w: World, es: seq<Event>, dispatch: Request -> Response)
    requires Waiting(w) && Run(w, es, dispatch) && OneRead(es)
    ensures var v := After(w, es, dispatch);
            && v.mode == w.mode && v.responses == w.responses && v.called == w.called
            && w.buffer <= v.buffer && v.received == w.received + v.buffer[|w.buffer|..]
    decreases |es|
  {
    if es == [] {
      assert w.received + w.buffer[|w.buffer|..] == w.received;
    } else {
      var m := Next(w, es[0], dispatch);
      EventCollects(w, es[0], dispatch);
      ReadCollects(m, es[1..], dispatch);
      var v := After(m, es[1..], dispatch);
      Collected(w.received, w.buffer, m.buffer, v.buffer);
    }
  }

  lemma Collected(received: bytes, a: bytes, b: bytes, c: bytes)
    requires a <= b <= c
    ensures received + b[|a|..] + c[|b|..] == received + c[|a|..]
  {
  }

  lemma EventCollects(w: World, e: Event, dispatch: Request -> Response)
    requires Waiting(w) && Possible(w, e) && !e.ClientDone?
    ensures var v := Next(w, e, dispatch);
            && v.mode == w.mode && v.responses == w.responses && v.called == w.called
            && w.buffer <= v.buffer && v.received == w.received + v.buffer[|w.buffer|..]
  {
    assert w.buffer[|w.buffer|..] == [] && w.received + [] == w.received;
  }

  /** A read that ended well and delivered these bytes. */
  function Delivered(chunk: bytes): P.Outcome {
    S.Outcome(chunk, S.NoError)
  }

  /** A prefix that asks for a body of `n` bytes. */
  predicate Announces(prefix: bytes, n: nat) {
    |prefix| == PREFIX_SIZE && BodyLength(prefix) == n
  }

  /** A completed prefix read has the length of the answer's frame. */
  lemma PrefixRead(v: World, dispatch: Request -> Response)
    requires Good(v, dispatch) && v.mode.WaitPrefix? && Possible(v, ClientDone)
    ensures Announces(v.buffer, |ResponseBody(Current(v, dispatch))|)
    ensures var m := Next(v, ClientDone, dispatch);
            && m == v.(buffer := [], mode := WaitBody(|ResponseBody(Current(v, dispatch))|))
  {
    PartialOfAnswer(v, dispatch);
    PrefixOfFrame(v.buffer, ResponseBody(Current(v, dispatch)));
  }

  /** A completed body read has the answer's body. */
  lemma BodyRead(v: World, dispatch: Request -> Response)
    requires Good(v, dispatch) && v.mode.WaitBody? && Possible(v, ClientDone)
    ensures v.buffer == ResponseBody(Current(v, dispatch))
    ensures var w := Next(v, ClientDone, dispatch);
            w.mode.Idle? && w.responses == v.responses + [Current(v, dispatch)] && w.received == v.received
  {
    var p := Current(v, dispatch);
    PartialOfAnswer(v, dispatch);
    RestOfFrame(LE32(PrefixOf(v.mode.want)), v.buffer, ResponseBody(p));
    ResponseRoundTrip(p);
    BodyTaken(v, p);
  }

  /** PbClient's ReadResponse over two outcomes: it is possible, leaves nothing behind and returns `p`. */
  ghost predicate OneResponse(buffer: bytes, o: P.Outcome, o': P.Outcome, p: Response) {
    && P.ReadsPossible(buffer, o, o')
    && P.ReadOf(buffer, o, o') == P.Read.Response(p)
    && P.LeftBy(buffer, o, o') == []
  }

  /** A read from `w` to its completion in `v`: no errors, any chunks, any steps of the server between. */
  ghost predicate ReadFrom(w: World, es: seq<Event>, v: World, dispatch: Request -> Response) {
    w.buffer == [] && Run(w, es, dispatch) && OneRead(es) && v == After(w, es, dispatch) && Possible(v, ClientDone)
  }

  /** From the moment a call waits for its answer: if its two reads complete in `v` and `v'`, in whatever
      chunks and among whatever steps of the server, then PbClient's ReadResponse over what they
      collected returns exactly the response that the call added, which is the one local dispatch gives. */
  lemma AnsweredCallIsReadResponse(w: World, es: seq<Event>, v: World, es': seq<Event>, v': World,
                                   dispatch: Request -> Response)
    requires Good(w, dispatch) && Planned(w, dispatch) && w.mode.WaitPrefix?
    requires ReadFrom(w, es, v, dispatch) && ReadFrom(Next(v, ClientDone, dispatch), es', v', dispatch)
    ensures OneResponse([], Delivered(v.buffer), Delivered(v'.buffer), Current(w, dispatch))
    ensures Next(v', ClientDone, dispatch).responses == w.responses + [Current(w, dispatch)]
    ensures v'.received == w.received + v.buffer + v'.buffer
  {
    var m := Next(v, ClientDone, dispatch);
    PrefixHalf(w, es, v, dispatch);
    BodyHalf(m, es', v', dispatch);
    TwoReads([], Delivered(v.buffer), Delivered(v'.buffer), Current(w, dispatch));
  }

  lemma PrefixHalf(w: World, es: seq<Event>, v: World, dispatch: Request -> Response)
    requires Good(w, dispatch) && Planned(w, dispatch) && w.mode.WaitPrefix? && ReadFrom(w, es, v, dispatch)
    ensures Announces(v.buffer, |ResponseBody(Current(w, dispatch))|)
    ensures var m := Next(v, ClientDone, dispatch);
            && Good(m, dispatch) && Planned(m, dispatch) && m.mode.WaitBody?
            && m.called == w.called && m.responses == w.responses && m.received == w.received + v.buffer
            && Current(m, dispatch) == Current(w, dispatch)
  {
    ReadKeeps(w, es, v, dispatch);
    PrefixRead(v, dispatch);
    EventKeepsGood(v, ClientDone, dispatch);
  }

  lemma BodyHalf(m: World, es: seq<Event>, v: World, dispatch: Request -> Response)
    requires Good(m, dispatch) && Planned(m, dispatch) && m.mode.WaitBody? && ReadFrom(m, es, v, dispatch)
    ensures v.buffer == ResponseBody(Current(m, dispatch)) && v.received == m.received + v.buffer
    ensures Next(v, ClientDone, dispatch).responses == m.responses + [Current(m, dispatch)]
  {
    ReadKeeps(m, es, v, dispatch);
    BodyRead(v, dispatch);
  }

  lemma ReadKeeps(w: World, es: seq<Event>, v: World, dispatch: Request -> Response)
    requires Good(w, dispatch) && Planned(w, dispatch) && Waiting(w) && ReadFrom(w, es, v, dispatch)
    ensures Good(v, dispatch) && Planned(v, dispatch)
    ensures v.mode == w.mode && v.responses == w.responses && v.called == w.called
    ensures v.received == w.received + v.buffer
    ensures Current(v, dispatch) == Current(w, dispatch)
  {
    RunKeepsGood(w, es, dispatch);
    ReadCollects(w, es, dispatch);
    assert v.buffer[|w.buffer|..] == v.buffer;
  }

  /** A whole read into an empty buffer. */
  lemma FreshRead(none: bytes, n: nat, o: P.Outcome)
    requires none == [] && o.ec.NoError? && |o.chunk| == n <= BUFFER_SIZE
    ensures S.LenPossible(none, n, o) && S.LenCode(none, n, o).NoError? && S.LenResult(none, n, o) == o.chunk
    ensures S.Left(none, S.ReadLen(n, o)) == []
  {
    assert none + o.chunk == o.chunk;
    assert S.Result(none, S.ReadLen(n, o)) == S.LenResult(none, n, o) == o.chunk;
  }

  lemma TwoReads(none: bytes, o: P.Outcome, o': P.Outcome, p: Response)
    requires none == [] && o.ec.NoError? && o'.ec.NoError?
    requires ResponseFits(p) && o'.chunk == ResponseBody(p) && |o'.chunk| <= MAX_RESPONSE_SIZE
    requires Announces(o.chunk, |o'.chunk|)
    ensures OneResponse(none, o, o', p)
  {
    FreshRead(none, PREFIX_SIZE, o);
    FreshRead(P.AfterPrefix(none, o), |o'.chunk|, o');
    ResponseRoundTrip(p);
    BothWhole(none, o, o', p);
  }

  lemma BothWhole(buffer: bytes, o: P.Outcome, o': P.Outcome, p: Response)
    requires P.PrefixPossible(buffer, o) && S.LenCode(buffer, PREFIX_SIZE, o).NoError?
    requires var rest, n := P.AfterPrefix(buffer, o), P.BodyLength(buffer, o);
             && S.LenPossible(rest, n, o') && S.LenCode(rest, n, o').NoError?
             && DecodedResponse(S.LenResult(rest, n, o')) == Ok(p) && S.Left(rest, S.ReadLen(n, o')) == []
    ensures OneResponse(buffer, o, o', p)
  {
  }
}
