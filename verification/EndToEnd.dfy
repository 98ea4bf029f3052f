/** A client making one call at a time against a server session, over two byte streams that deliver
    in any chunks: remote calls give what local dispatch gives. */
module EndToEnd {
  import opened Wrappers
  import opened Bytes
  import opened PbCoder
  import opened Frames
  import opened Session
  import opened SessionSafety
  import D = PbDispatcher

  /** Where the client is in PbRpcChannel's call: writing the request, or in one of ReadResponse's
      two reads. */
  datatype Mode = Idle | Sending(rest: bytes) | WaitPrefix | WaitBody(want: nat) | Failed

  datatype World = World(
    server: State,
    toServer: bytes,            // in flight
    toClient: bytes,
    todo: seq<Request>,         // calls still to make
    called: seq<Request>,       // calls made, the last perhaps unanswered
    mode: Mode,
    buffer: bytes,              // the client's read_buffer_
    received: bytes,            // everything the client took from its socket
    responses: seq<Response>
  )

  datatype Event = Call | ClientWrite(n: nat) | ClientRead(n: nat) | ClientDone | Server(step: Step)

  function Opening(todo: seq<Request>): World {
    World(ACCEPTED, [], [], todo, [], Idle, [], [], [])
  }

  /** What the server writes for a request. */
  function Written(p: Response): bytes {
    if ResponseFits(p) then Frame(ResponseBody(p)) else []
  }

  function Answering(dispatch: Request -> Response): Request -> bytes {
    r => Written(dispatch(r))
  }

  predicate Waiting(w: World) {
    w.mode.WaitPrefix? || w.mode.WaitBody?
  }

  function Want(w: World): nat {
    if w.mode.WaitPrefix? then PREFIX_SIZE else if w.mode.WaitBody? then w.mode.want else 0
  }

  /** No errors and no timeouts; a step of the server that delivers takes what is in flight. */
  predicate Possible(w: World, e: Event) {
    match e
    case Call => w.mode.Idle? && w.todo != []
    case ClientWrite(n) => w.mode.Sending? && 0 < n <= |w.mode.rest|
    case ClientRead(n) =>
      Waiting(w) && 0 < n <= |w.toClient| && |w.buffer| + n <= Want(w) && |w.buffer| + n <= BUFFER_SIZE
    case ClientDone => Waiting(w) && (|w.buffer| == Want(w) || |w.buffer| == BUFFER_SIZE)
    case Server(step) =>
      && Enabled(w.server, step)
      && !step.ReadFail? && !step.WriteFail? && !step.Timeout?
      && (step.Deliver? ==> step.chunk <= w.toServer)
  }

  /** ReadResponse, when the read it waits for is complete. */
  function ReadResponse(w: World): World {
    if w.mode.WaitPrefix? && |w.buffer| >= PREFIX_SIZE then
      var n := BodyLength(w.buffer);
      w.(buffer := [], mode := if n == 0 then Failed else WaitBody(n))
    else
      match DecodedResponse(w.buffer)
      case Ok(p) => w.(buffer := [], responses := w.responses + [p], mode := Idle)
      case _ => w.(buffer := [], mode := Failed)
  }

  function Next(w: World, e: Event, dispatch: Request -> Response): World
    requires Possible(w, e)
  {
    match e
    case Call =>
      var r := w.todo[0];
      w.(todo := w.todo[1..], called := w.called + [r],
         mode := Sending(if RequestFits(r) then Frame(RequestBody(r)) else []))
    case ClientWrite(n) =>
      w.(toServer := w.toServer + w.mode.rest[..n],
         mode := if n == |w.mode.rest| then WaitPrefix else Sending(w.mode.rest[n..]))
    case ClientRead(n) =>
      w.(buffer := w.buffer + w.toClient[..n], received := w.received + w.toClient[..n], toClient := w.toClient[n..])
    case ClientDone => ReadResponse(w)
    case Server(step) =>
      var after := Apply(w.server, step, Answering(dispatch));
      w.(server := after,
         toServer := if step.Deliver? then w.toServer[|step.chunk|..] else w.toServer,
         toClient := w.toClient + Output(w.server, step))
  }

  // ---- the invariant ----

  function Rest(m: Mode): bytes {
    if m.Sending? then m.rest else []
  }

  ghost predicate Answerable(requests: seq<Request>, dispatch: Request -> Response) {
    forall i :: 0 <= i < |requests| ==>
      ResponseFits(dispatch(requests[i])) && |ResponseBody(dispatch(requests[i]))| <= MAX_RESPONSE_SIZE
  }

  function Answers(requests: seq<Request>, dispatch: Request -> Response): seq<Response> {
    seq(|requests|, i requires 0 <= i < |requests| => dispatch(requests[i]))
  }

  /** The calls already answered. */
  ghost function Done(w: World): seq<Request>
    requires w.mode.Idle? || w.called != []
  {
    if w.mode.Idle? then w.called else w.called[..|w.called| - 1]
  }

  /** The part of the current answer's frame the client has taken. */
  ghost function Partial(w: World): bytes {
    if w.mode.WaitPrefix? then w.buffer
    else if w.mode.WaitBody? then LE32(PrefixOf(w.mode.want)) + w.buffer
    else []
  }

  function PrefixOf(n: nat): int32 {
    if n <= BUFFER_SIZE then n + 4 else 0
  }

  /** Upstream: what the server has taken, what is in flight and what is still to be written make
      the encoded calls. */
  ghost predicate Up(w: World, dispatch: Request -> Response) {
    && Sendable(w.called)
    && Inv(w.server, Answering(dispatch)) && w.server.active
    && (w.mode.Sending? ==> w.mode.rest != [])
    && w.server.taken + w.toServer + Rest(w.mode) == Stream(Bodies(w.called))
  }

  /** Downstream: the client has taken the answers to the calls it has made, and part of the next. */
  ghost predicate Down(w: World, dispatch: Request -> Response) {
    && Answerable(w.called, dispatch)
    && !w.mode.Failed? && (!w.mode.Idle? ==> w.called != [])
    && w.responses == Answers(Done(w), dispatch)
    && w.received == Concat(Replies(Done(w), Answering(dispatch))) + Partial(w)
    && (if Waiting(w) then |w.buffer| <= Want(w) else w.buffer == [])
    && (w.mode.WaitBody? ==> w.mode.want == |ResponseBody(Current(w, dispatch))|)
  }

  ghost predicate Good(w: World, dispatch: Request -> Response) {
    Up(w, dispatch) && Down(w, dispatch) && w.server.wire == w.received + w.toClient
  }

  /** The answer the client is waiting for. */
  ghost function Current(w: World, dispatch: Request -> Response): (p: Response)
    requires w.called != [] && Answerable(w.called, dispatch)
    ensures ResponseFits(p) && |ResponseBody(p)| <= MAX_RESPONSE_SIZE
  {
    dispatch(w.called[|w.called| - 1])
  }

  // ---- every event keeps it ----

  lemma StreamGrows(called: seq<Request>, r: Request)
    requires Sendable(called + [r])
    ensures Sendable(called) && RequestFits(r)
    ensures Stream(Bodies(called + [r])) == Stream(Bodies(called)) + Frame(RequestBody(r))
  {
    var body := RequestBody(r);
    assert (called + [r])[|called|] == r;
    assert Sendable(called) by {
      assert forall i :: 0 <= i < |called| ==> called[i] == (called + [r])[i];
    }
    assert Bodies(called + [r]) == Bodies(called) + [body];
    assert AllReadable([body]);
    StreamAppend(Bodies(called), [body]);
    var one: seq<bytes> := [body];
    assert one[1..] == [] && Stream(one) == Frame(body) + Stream([]);
  }

  lemma CallKeepsUp(w: World, dispatch: Request -> Response)
    requires Up(w, dispatch) && Possible(w, Call) && Sendable(w.called + [w.todo[0]])
    ensures Up(Next(w, Call, dispatch), dispatch)
  {
    var w' := Next(w, Call, dispatch);
    var r := w.todo[0];
    StreamGrows(w.called, r);
    assert w.mode.Idle? && Rest(w.mode) == [];
    assert w'.mode.rest == Frame(RequestBody(r)) && w'.mode.rest != [];
    CallOwes(w.server.taken, w.toServer, Stream(Bodies(w.called)), w'.mode.rest);
  }

  lemma CallOwes(taken: bytes, toServer: bytes, stream: bytes, frame: bytes)
    requires taken + toServer + [] == stream
    ensures taken + toServer + frame == stream + frame
  {
  }

  lemma CallKeepsDown(w: World, dispatch: Request -> Response)
    requires Down(w, dispatch) && Possible(w, Call) && Answerable(w.called + [w.todo[0]], dispatch)
    ensures Down(Next(w, Call, dispatch), dispatch)
  {
    assert Done(Next(w, Call, dispatch)) == Done(w);
  }

  lemma ClientWriteKeepsUp(w: World, n: nat, dispatch: Request -> Response)
    requires Up(w, dispatch) && Possible(w, ClientWrite(n))
    ensures Up(Next(w, ClientWrite(n), dispatch), dispatch)
  {
    var rest := w.mode.rest;
    var w' := Next(w, ClientWrite(n), dispatch);
    assert Rest(w'.mode) == rest[n..];
    assert w.server.taken + (w.toServer + rest[..n]) + rest[n..] == w.server.taken + w.toServer + rest;
  }

  lemma ClientWriteKeepsDown(w: World, n: nat, dispatch: Request -> Response)
    requires Down(w, dispatch) && Possible(w, ClientWrite(n))
    ensures Down(Next(w, ClientWrite(n), dispatch), dispatch)
  {
    assert Done(Next(w, ClientWrite(n), dispatch)) == Done(w);
  }

  lemma ClientReadKeepsDown(w: World, n: nat, dispatch: Request -> Response)
    requires Down(w, dispatch) && Possible(w, ClientRead(n))
    ensures Down(Next(w, ClientRead(n), dispatch), dispatch)
  {
    ChunkKeepsDown(w, Next(w, ClientRead(n), dispatch), w.toClient[..n], dispatch);
  }

  lemma ChunkKeepsDown(w: World, w': World, chunk: bytes, dispatch: Request -> Response)
    requires Down(w, dispatch) && Waiting(w) && |w.buffer| + |chunk| <= Want(w)
    requires w'.called == w.called && w'.mode == w.mode && w'.responses == w.responses
    requires w'.buffer == w.buffer + chunk && w'.received == w.received + chunk
    ensures Down(w', dispatch)
  {
    assert Done(w') == Done(w);
    assert Partial(w') == Partial(w) + chunk;
    var answered := Concat(Replies(Done(w), Answering(dispatch)));
    assert answered + Partial(w) + chunk == answered + (Partial(w) + chunk);
  }

  lemma SameClientKeepsDown(w: World, w': World, dispatch: Request -> Response)
    requires Down(w, dispatch)
    requires w'.called == w.called && w'.mode == w.mode && w'.responses == w.responses
    requires w'.buffer == w.buffer && w'.received == w.received
    ensures Down(w', dispatch)
  {
    assert Done(w') == Done(w) && Partial(w') == Partial(w);
  }

  lemma ConcatPrefix(a: seq<bytes>, b: seq<bytes>)
    requires a <= b
    ensures Concat(a) <= Concat(b)
  {
    assert b == a + b[|a|..];
    ConcatAppend(a, b[|a|..]);
  }

  /** The replies to the calls so far end with the frame of the current answer. */
  lemma RepliesEnd(w: World, dispatch: Request -> Response)
    requires Answerable(w.called, dispatch) && w.called != []
    ensures var done := w.called[..|w.called| - 1];
            Concat(Replies(w.called, Answering(dispatch))) ==
            Concat(Replies(done, Answering(dispatch))) + Frame(ResponseBody(Current(w, dispatch)))
  {
    var reply := Answering(dispatch);
    var done, r := w.called[..|w.called| - 1], w.called[|w.called| - 1];
    var one: seq<bytes> := [reply(r)];
    assert Replies(w.called, reply) == Replies(done, reply) + one;
    ConcatAppend(Replies(done, reply), one);
    assert one[1..] == [] && Concat(one) == one[0] + Concat([]);
  }

  lemma RepliesPrefix(done: seq<Request>, called: seq<Request>, reply: Request -> bytes)
    requires done <= called
    ensures Concat(Replies(done, reply)) <= Concat(Replies(called, reply))
  {
    ConcatPrefix(Replies(done, reply), Replies(called, reply));
  }

  /** What the client has of the current answer is the beginning of its frame. */
  lemma PartialOfAnswer(w: World, dispatch: Request -> Response)
    requires Good(w, dispatch) && !w.mode.Idle?
    ensures Partial(w) <= Frame(ResponseBody(Current(w, dispatch)))
  {
    var reply := Answering(dispatch);
    assert w.server.taken <= Stream(Bodies(w.called));
    DeliversSent(w.server, w.called);
    WireIsPrefix(w.server, reply);
    RepliesPrefix(w.server.requests, w.called, reply);
    RepliesEnd(w, dispatch);
    Between(Concat(Replies(Done(w), reply)), Partial(w), w.toClient, w.server.wire,
            Concat(Replies(w.server.requests, reply)), Frame(ResponseBody(Current(w, dispatch))));
  }

  lemma Between(a: bytes, x: bytes, more: bytes, wire: bytes, replies: bytes, y: bytes)
    requires wire == (a + x) + more && wire <= replies <= a + y
    ensures x <= y
  {
    assert a + x <= wire <= a + y;
    assert x == (a + x)[|a|..] && y == (a + y)[|a|..];
  }

  /** The prefix of an answer has arrived: the client asks for its body. */
  lemma PrefixDone(w: World, dispatch: Request -> Response)
    requires Good(w, dispatch) && w.mode.WaitPrefix? && Possible(w, ClientDone)
    ensures Down(ReadResponse(w), dispatch)
  {
    var body := ResponseBody(Current(w, dispatch));
    PartialOfAnswer(w, dispatch);
    PrefixOfFrame(w.buffer, body);
    PrefixTurnsToBody(w, |body|, dispatch);
  }

  lemma PrefixOfFrame(buffer: bytes, body: bytes)
    requires |body| <= BUFFER_SIZE && |buffer| == PREFIX_SIZE && buffer <= Frame(body)
    ensures buffer == LE32(PrefixOf(|body|)) && BodyLength(buffer) == |body|
  {
    FrontOf(LE32(|body| + 4), body, buffer);
    PrefixAnnounces(|body|);
  }

  lemma FrontOf(front: bytes, body: bytes, s: bytes)
    requires |s| == |front| && s <= front + body
    ensures s == front
  {
    assert s == (front + body)[..|s|];
  }

  lemma PrefixTurnsToBody(w: World, n: nat, dispatch: Request -> Response)
    requires Down(w, dispatch) && w.mode.WaitPrefix? && |w.buffer| == PREFIX_SIZE
    requires 0 < n == |ResponseBody(Current(w, dispatch))| && BodyLength(w.buffer) == n && w.buffer == LE32(PrefixOf(n))
    ensures Down(ReadResponse(w), dispatch)
  {
    var w' := ReadResponse(w);
    assert Done(w') == Done(w);
    assert Partial(w') == Partial(w);
  }

  /** The body has arrived: it decodes to the answer local dispatch gives. */
  lemma BodyDone(w: World, dispatch: Request -> Response)
    requires Good(w, dispatch) && w.mode.WaitBody? && Possible(w, ClientDone)
    ensures Down(ReadResponse(w), dispatch)
  {
    var p := Current(w, dispatch);
    PartialOfAnswer(w, dispatch);
    RestOfFrame(LE32(PrefixOf(w.mode.want)), w.buffer, ResponseBody(p));
    ResponseRoundTrip(p);
    BodyTurnsToIdle(w, dispatch);
  }

  lemma RestOfFrame(prefix: bytes, buffer: bytes, body: bytes)
    requires |body| == |buffer| <= BUFFER_SIZE && prefix == LE32(PrefixOf(|body|)) && prefix + buffer <= Frame(body)
    ensures buffer == body
  {
    assert buffer == (prefix + buffer)[4..] == Frame(body)[4..];
  }

  lemma BodyTurnsToIdle(w: World, dispatch: Request -> Response)
    requires Down(w, dispatch) && w.mode.WaitBody?
    requires w.buffer == ResponseBody(Current(w, dispatch)) && DecodedResponse(w.buffer) == Ok(Current(w, dispatch))
    ensures Down(ReadResponse(w), dispatch)
  {
    var w' := ReadResponse(w);
    BodyTaken(w, Current(w, dispatch));
    AllReceived(w, dispatch);
    AnswersGrow(w.called, dispatch);
    IdleIsDown(w', dispatch);
  }

  lemma BodyTaken(w: World, p: Response)
    requires w.mode.WaitBody? && DecodedResponse(w.buffer) == Ok(p)
    ensures ReadResponse(w) == w.(buffer := [], responses := w.responses + [p], mode := Idle)
  {
  }

  /** With the whole body in its buffer the client has received the replies to all its calls. */
  lemma AllReceived(w: World, dispatch: Request -> Response)
    requires Down(w, dispatch) && w.mode.WaitBody? && w.buffer == ResponseBody(Current(w, dispatch))
    ensures w.received == Concat(Replies(w.called, Answering(dispatch)))
  {
    RepliesEnd(w, dispatch);
    assert Partial(w) == Frame(w.buffer);
  }

  lemma IdleIsDown(w: World, dispatch: Request -> Response)
    requires w.mode.Idle? && w.buffer == [] && Answerable(w.called, dispatch)
    requires w.responses == Answers(w.called, dispatch)
    requires w.received == Concat(Replies(w.called, Answering(dispatch)))
    ensures Down(w, dispatch)
  {
    NothingMore(w.received);
  }

  lemma AnswersGrow(called: seq<Request>, dispatch: Request -> Response)
    requires called != []
    ensures Answers(called, dispatch)
         == Answers(called[..|called| - 1], dispatch) + [dispatch(called[|called| - 1])]
  {
  }

  lemma NothingMore(s: bytes)
    ensures s + [] == s
  {
  }

  lemma ClientDoneKeepsUp(w: World, dispatch: Request -> Response)
    requires Up(w, dispatch) && Possible(w, ClientDone)
    ensures Up(ReadResponse(w), dispatch)
  {
  }

  /** While the client sends only encoded requests, every body the server reads decodes. */
  lemma BodyAccepted(s: State, called: seq<Request>)
    requires ReadInv(s) && s.active && s.phase == ReadRequest && Sendable(called) && Enabled(s, ReadDone)
    requires s.taken <= Stream(Bodies(called))
    ensures DecodedRequest(s.readBuffer).Ok?
  {
    BodySeen(s);
    var bodies := Bodies(called);
    FeedStream([], bodies, s.taken);
    assert [] + bodies == bodies && HandedOver(s).consumed == s.taken;
    var k := |Seen(s).bodies|;
    assert s.readBuffer == bodies[k];
    RequestRoundTrip(called[k]);
  }

  /** So no step of the server closes the connection. */
  lemma ServerStaysOpen(s: State, step: Step, called: seq<Request>, reply: Request -> bytes)
    requires ReadInv(s) && s.active && Sendable(called) && Enabled(s, step)
    requires !step.ReadFail? && !step.WriteFail? && !step.Timeout?
    requires s.taken <= Stream(Bodies(called))
    ensures Apply(s, step, reply).active
  {
    match step
    case ReadDone =>
      ReadDoneHandsOver(s, reply);
      if s.phase == ReadTotalLen {
        AfterPrefix(HandedOver(s), s.readBuffer, reply);
      } else {
        BodyAccepted(s, called);
      }
    case RunPosted =>
    case Deliver(_) =>
    case WriteSome(_, _) =>
    case WriteDone(_) =>
  }

  lemma ServerKeepsUp(w: World, step: Step, dispatch: Request -> Response)
    requires Up(w, dispatch) && Possible(w, Server(step))
    ensures Up(Next(w, Server(step), dispatch), dispatch)
  {
    var reply := Answering(dispatch);
    StepKeepsInv(w.server, step, reply);
    ServerStaysOpen(w.server, step, w.called, reply);
    TakenAndWire(w.server, step, reply);
    DeliveryMoves(w.server.taken, w.toServer, Rest(w.mode), if step.Deliver? then step.chunk else []);
  }

  lemma DeliveryMoves(taken: bytes, inFlight: bytes, rest: bytes, chunk: bytes)
    requires chunk <= inFlight
    ensures (taken + chunk) + inFlight[|chunk|..] + rest == taken + inFlight + rest
  {
    assert inFlight == chunk + inFlight[|chunk|..];
  }

  lemma ServerKeepsRest(w: World, step: Step, dispatch: Request -> Response)
    requires Good(w, dispatch) && Possible(w, Server(step))
    ensures var w' := Next(w, Server(step), dispatch);
            Down(w', dispatch) && w'.server.wire == w'.received + w'.toClient
  {
    TakenAndWire(w.server, step, Answering(dispatch));
    RestKept(w, Next(w, Server(step), dispatch), Output(w.server, step), dispatch);
  }

  lemma RestKept(w: World, w': World, more: bytes, dispatch: Request -> Response)
    requires Down(w, dispatch) && w.server.wire == w.received + w.toClient
    requires w'.called == w.called && w'.mode == w.mode && w'.responses == w.responses
    requires w'.buffer == w.buffer && w'.received == w.received
    requires w'.toClient == w.toClient + more && w'.server.wire == w.server.wire + more
    ensures Down(w', dispatch) && w'.server.wire == w'.received + w'.toClient
  {
    SameClientKeepsDown(w, w', dispatch);
    assert w.received + w.toClient + more == w.received + (w.toClient + more);
  }

  /** Only deliveries take bytes from a socket and only writes put bytes on it. */
  lemma TakenAndWire(s: State, step: Step, reply: Request -> bytes)
    requires ReadInv(s) && s.active && Enabled(s, step)
    ensures Apply(s, step, reply).taken == s.taken + (if step.Deliver? then step.chunk else [])
    ensures Apply(s, step, reply).wire == s.wire + Output(s, step)
  {
    if step.ReadDone? {
      ReadDoneTakesNone(s, reply);
    }
  }

  lemma ReadDoneTakesNone(s: State, reply: Request -> bytes)
    requires ReadInv(s) && s.active && Enabled(s, ReadDone)
    ensures Apply(s, ReadDone, reply).taken == s.taken && Apply(s, ReadDone, reply).wire == s.wire
  {
    ReadDoneHandsOver(s, reply);
    if s.phase == ReadTotalLen {
      AfterPrefix(HandedOver(s), s.readBuffer, reply);
    }
  }

  // ---- safety over whole runs ----

  /** Every call, made or still to make, encodes within the limits, and so does its answer. */
  ghost predicate Planned(w: World, dispatch: Request -> Response) {
    Sendable(w.called + w.todo) && Answerable(w.called + w.todo, dispatch)
  }

  lemma PlannedCall(w: World, dispatch: Request -> Response)
    requires Planned(w, dispatch) && w.todo != []
    ensures Sendable(w.called + [w.todo[0]]) && Answerable(w.called + [w.todo[0]], dispatch)
    ensures (w.called + [w.todo[0]]) + w.todo[1..] == w.called + w.todo
  {
    var all, one := w.called + w.todo, w.called + [w.todo[0]];
    assert forall i :: 0 <= i < |one| ==> one[i] == all[i];
  }

  lemma EventKeepsPlan(w: World, e: Event, dispatch: Request -> Response)
    requires Planned(w, dispatch) && Possible(w, e)
    ensures Next(w, e, dispatch).called + Next(w, e, dispatch).todo == w.called + w.todo
    ensures Planned(Next(w, e, dispatch), dispatch)
  {
    if e.Call? {
      PlannedCall(w, dispatch);
    }
  }

  lemma EventKeepsUp(w: World, e: Event, dispatch: Request -> Response)
    requires Up(w, dispatch) && Planned(w, dispatch) && Possible(w, e)
    ensures Up(Next(w, e, dispatch), dispatch)
  {
    match e
    case Call =>
      PlannedCall(w, dispatch);
      CallKeepsUp(w, dispatch);
    case ClientWrite(n) => ClientWriteKeepsUp(w, n, dispatch);
    case ClientRead(_) =>
    case ClientDone => ClientDoneKeepsUp(w, dispatch);
    case Server(step) => ServerKeepsUp(w, step, dispatch);
  }

  lemma EventKeepsDown(w: World, e: Event, dispatch: Request -> Response)
    requires Good(w, dispatch) && Planned(w, dispatch) && Possible(w, e)
    ensures Down(Next(w, e, dispatch), dispatch)
  {
    match e
    case Call =>
      PlannedCall(w, dispatch);
      CallKeepsDown(w, dispatch);
    case ClientWrite(n) => ClientWriteKeepsDown(w, n, dispatch);
    case ClientRead(n) => ClientReadKeepsDown(w, n, dispatch);
    case ClientDone =>
      if w.mode.WaitPrefix? {
        PrefixDone(w, dispatch);
      } else {
        BodyDone(w, dispatch);
      }
    case Server(step) => ServerKeepsRest(w, step, dispatch);
  }

  lemma EventKeepsWire(w: World, e: Event, dispatch: Request -> Response)
    requires Good(w, dispatch) && Possible(w, e)
    ensures Next(w, e, dispatch).server.wire == Next(w, e, dispatch).received + Next(w, e, dispatch).toClient
  {
    match e
    case ClientRead(n) =>
      assert w.toClient == w.toClient[..n] + w.toClient[n..];
      assert w.received + w.toClient == (w.received + w.toClient[..n]) + w.toClient[n..];
    case Server(step) => ServerKeepsRest(w, step, dispatch);
    case _ =>
  }

  lemma EventKeepsGood(w: World, e: Event, dispatch: Request -> Response)
    requires Good(w, dispatch) && Planned(w, dispatch) && Possible(w, e)
    ensures Good(Next(w, e, dispatch), dispatch) && Planned(Next(w, e, dispatch), dispatch)
    ensures Next(w, e, dispatch).called + Next(w, e, dispatch).todo == w.called + w.todo
  {
    EventKeepsPlan(w, e, dispatch);
    EventKeepsUp(w, e, dispatch);
    EventKeepsDown(w, e, dispatch);
    EventKeepsWire(w, e, dispatch);
  }

  lemma OpeningIsGood(todo: seq<Request>, dispatch: Request -> Response)
    ensures Good(Opening(todo), dispatch)
  {
    AcceptedInv(Answering(dispatch));
    OpeningIsUp(todo, dispatch);
  }

  lemma OpeningIsUp(todo: seq<Request>, dispatch: Request -> Response)
    requires Inv(ACCEPTED, Answering(dispatch))
    ensures Up(Opening(todo), dispatch)
  {
    assert Stream(Bodies([])) == [];
  }

  ghost predicate Run(w: World, events: seq<Event>, dispatch: Request -> Response)
    decreases |events|
  {
    events != [] ==> Possible(w, events[0]) && Run(Next(w, events[0], dispatch), events[1..], dispatch)
  }

  ghost function After(w: World, events: seq<Event>, dispatch: Request -> Response): World
    requires Run(w, events, dispatch)
    decreases |events|
  {
    if events == [] then w else After(Next(w, events[0], dispatch), events[1..], dispatch)
  }

  lemma {:induction false} RunKeepsGood(w: World, events: seq<Event>, dispatch: Request -> Response)
    requires Good(w, dispatch) && Planned(w, dispatch) && Run(w, events, dispatch)
    ensures Good(After(w, events, dispatch), dispatch)
    ensures After(w, events, dispatch).called + After(w, events, dispatch).todo == w.called + w.todo
    decreases |events|
  {
    if events != [] {
      EventKeepsGood(w, events[0], dispatch);
      RunKeepsGood(Next(w, events[0], dispatch), events[1..], dispatch);
    }
  }

  /** At every moment of every run, however the streams are cut up, the responses the client has are
      the first of what local dispatch gives, at most one call is unanswered, and nothing failed. */
  lemma RemoteIsLocal(calls: seq<Request>, events: seq<Event>, dispatch: Request -> Response)
    requires Sendable(calls) && Answerable(calls, dispatch) && Run(Opening(calls), events, dispatch)
    ensures var w := After(Opening(calls), events, dispatch);
            && !w.mode.Failed?
            && w.called <= calls
            && |w.called| - 1 <= |w.responses| <= |w.called|
            && w.responses <= Answers(calls, dispatch)
            && w.server.active && !w.server.fault && !w.server.crashed
  {
    OpeningIsGood(calls, dispatch);
    assert [] + calls == calls;
    RunKeepsGood(Opening(calls), events, dispatch);
    var w := After(Opening(calls), events, dispatch);
    assert w.called + w.todo == calls;
    GoodIsLocal(w, dispatch);
    AnswersPrefix(Done(w), calls, dispatch);
  }

  lemma GoodIsLocal(w: World, dispatch: Request -> Response)
    requires Good(w, dispatch)
    ensures !w.mode.Failed? && w.responses == Answers(Done(w), dispatch) && Done(w) <= w.called
    ensures |w.called| - 1 <= |w.responses| <= |w.called|
    ensures w.server.active && !w.server.fault && !w.server.crashed
  {
    assert w.server.taken <= Stream(Bodies(w.called));
    DeliversSent(w.server, w.called);
  }

  lemma AnswersPrefix(done: seq<Request>, calls: seq<Request>, dispatch: Request -> Response)
    requires done <= calls
    ensures Answers(done, dispatch) <= Answers(calls, dispatch)
  {
  }

  // ---- progress ----

  /** With everything taken and an unfinished read, every call has been dispatched. */
  lemma AllTakenAllDispatched(s: State, called: seq<Request>)
    requires ReadInv(s) && s.active && Sendable(called) && s.taken == Stream(Bodies(called))
    requires s.readOp.Reading? && !s.crashed && !Enabled(s, ReadDone)
    ensures s.requests == called
  {
    var bodies := Bodies(called);
    FeedStream([], bodies, s.taken);
    assert [] + bodies == bodies;
    FeedAppend(FRESH, s.consumed, s.readBuffer);
    DeliversSent(s, called);
    if s.phase == ReadTotalLen {
      FeedPartPrefix(Seen(s).bodies, s.readBuffer);
      assert s.consumed == s.taken;
    } else {
      FeedPartBody(Seen(s).bodies, Capped(s.readOp.want), s.readBuffer);
    }
  }

  /** While the server has not written every answer, it can move, or is waiting for bytes in flight. */
  lemma ServerCanMove(s: State, called: seq<Request>, inFlight: bytes, reply: Request -> bytes) returns (step: Step)
    requires Inv(s, reply) && s.active && Sendable(called) && s.taken + inFlight == Stream(Bodies(called))
    requires s.wire != Concat(Replies(called, reply))
    ensures Enabled(s, step) && !step.ReadFail? && !step.WriteFail? && !step.Timeout?
    ensures step.Deliver? ==> step.chunk <= inFlight
  {
    assert s.taken <= Stream(Bodies(called));
    DeliversSent(s, called);
    if s.posted != [] {
      return RunPosted;
    }
    if s.writeQueue != [] {
      return if s.writes[0].sent < |s.writes[0].message| then WriteSome(0, 1) else WriteDone(0);
    }
    assert s.finished + s.writeQueue + Queued(s.posted) == s.finished;
    if Enabled(s, ReadDone) {
      return ReadDone;
    }
    if inFlight == [] {
      assert s.taken + inFlight == s.taken;
      AllTakenAllDispatched(s, called);
    }
    return Deliver(inFlight[..1]);
  }

  /** A client that is not done can move, or the server can. */
  lemma NeverStuck(w: World, dispatch: Request -> Response) returns (e: Event)
    requires Good(w, dispatch) && (!w.mode.Idle? || w.todo != [])
    ensures Possible(w, e)
  {
    if w.mode.Idle? {
      return Call;
    }
    if w.mode.Sending? {
      return ClientWrite(|w.mode.rest|);
    }
    if |w.buffer| == Want(w) {
      return ClientDone;
    }
    if w.toClient != [] {
      return ClientRead(1);
    }
    AnswerMissing(w, dispatch);
    assert w.server.taken + w.toServer + [] == w.server.taken + w.toServer;
    var step := ServerCanMove(w.server, w.called, w.toServer, Answering(dispatch));
    return Server(step);
  }

  lemma AnswerMissing(w: World, dispatch: Request -> Response)
    requires Good(w, dispatch) && Waiting(w) && |w.buffer| < Want(w) && w.toClient == []
    ensures w.server.wire != Concat(Replies(w.called, Answering(dispatch)))
  {
    RepliesEnd(w, dispatch);
    assert |Partial(w)| < |Frame(ResponseBody(Current(w, dispatch)))|;
    assert w.server.wire == w.received;
  }

  // ---- termination ----

  function ReadsLeft(w: World): nat {
    var undispatched := |w.called| - |w.server.requests|;
    if undispatched < 0 then 0 else 2 * undispatched + if w.server.phase == ReadTotalLen then 1 else 0
  }

  function Unsent(s: State): nat {
    if s.writes == [] || |s.writes[0].message| < s.writes[0].sent then 0 else |s.writes[0].message| - s.writes[0].sent
  }

  function ModeRank(w: World): nat {
    if w.mode.WaitPrefix? then 2 else if w.mode.WaitBody? then 1 else 0
  }

  /** The work left, most significant part first. */
  function Rank(w: World): (nat, nat, nat, nat, nat, nat, nat, nat, nat) {
    (|w.todo|, |Rest(w.mode)|, |w.toServer|, ReadsLeft(w), |w.server.posted|, |w.server.writeQueue|,
     Unsent(w.server), |w.toClient|, ModeRank(w))
  }

  ghost predicate Lower(a: (nat, nat, nat, nat, nat, nat, nat, nat, nat),
                        b: (nat, nat, nat, nat, nat, nat, nat, nat, nat))
  {
    || a.0 < b.0
    || (a.0 == b.0 && (a.1 < b.1
    || (a.1 == b.1 && (a.2 < b.2
    || (a.2 == b.2 && (a.3 < b.3
    || (a.3 == b.3 && (a.4 < b.4
    || (a.4 == b.4 && (a.5 < b.5
    || (a.5 == b.5 && (a.6 < b.6
    || (a.6 == b.6 && (a.7 < b.7
    || (a.7 == b.7 && a.8 < b.8)))))))))))))))
  }

  /** What a server step does to the work left in the server. */
  ghost predicate Works(s: State, step: Step, t: State) {
    match step
    case ReadDone => if s.phase == ReadTotalLen then t.requests == s.requests && t.phase == ReadRequest
                     else |t.requests| == |s.requests| + 1
    case RunPosted => t.requests == s.requests && t.phase == s.phase && |t.posted| < |s.posted|
    case WriteDone(_) => t.requests == s.requests && t.phase == s.phase && t.posted == s.posted
                      && |t.writeQueue| < |s.writeQueue|
    case _ => t.requests == s.requests && t.phase == s.phase && t.posted == s.posted
              && t.writeQueue == s.writeQueue && Unsent(t) < Unsent(s)
  }

  lemma ServerWorks(s: State, step: Step, called: seq<Request>, reply: Request -> bytes)
    requires Inv(s, reply) && s.active && Sendable(called) && Enabled(s, step)
    requires !step.ReadFail? && !step.WriteFail? && !step.Timeout? && !step.Deliver?
    requires s.taken <= Stream(Bodies(called))
    ensures Works(s, step, Apply(s, step, reply))
  {
    match step
    case ReadDone =>
      ReadDoneHandsOver(s, reply);
      if s.phase == ReadTotalLen {
        AfterPrefix(HandedOver(s), s.readBuffer, reply);
      } else {
        BodyAccepted(s, called);
      }
    case RunPosted =>
    case WriteDone(_) =>
    case WriteSome(_, _) =>
  }

  lemma WorkLowersRank(w: World, step: Step, w': World)
    requires Works(w.server, step, w'.server) && |w.server.requests| <= |w'.server.requests| <= |w.called|
    requires w'.todo == w.todo && w'.mode == w.mode && w'.toServer == w.toServer && w'.called == w.called
    ensures Lower(Rank(w'), Rank(w))
  {
  }

  lemma ClientLowersRank(w: World, e: Event, dispatch: Request -> Response)
    requires Possible(w, e) && !e.Server? && !Next(w, e, dispatch).mode.Failed?
    requires e.ClientDone? && w.mode.WaitPrefix? ==> |w.buffer| >= PREFIX_SIZE
    ensures Lower(Rank(Next(w, e, dispatch)), Rank(w))
  {
  }

  lemma ServerLowersRank(w: World, step: Step, dispatch: Request -> Response)
    requires Up(w, dispatch) && Possible(w, Server(step)) && !step.Deliver?
    ensures Lower(Rank(Next(w, Server(step), dispatch)), Rank(w))
  {
    assert w.server.taken <= Stream(Bodies(w.called));
    ServerWorks(w.server, step, w.called, Answering(dispatch));
    DispatchedAtMost(w, dispatch);
    var w' := Next(w, Server(step), dispatch);
    ServerKeepsUp(w, step, dispatch);
    DispatchedAtMost(w', dispatch);
    WorkLowersRank(w, step, w');
  }

  lemma DispatchedAtMost(w: World, dispatch: Request -> Response)
    requires Up(w, dispatch)
    ensures |w.server.requests| <= |w.called|
  {
    assert w.server.taken <= Stream(Bodies(w.called));
    DeliversSent(w.server, w.called);
  }

  /** Every event leaves less to do, so no run goes on for ever. */
  lemma EventLowersRank(w: World, e: Event, dispatch: Request -> Response)
    requires Good(w, dispatch) && Planned(w, dispatch) && Possible(w, e)
    ensures Lower(Rank(Next(w, e, dispatch)), Rank(w))
  {
    if e.Server? && !e.step.Deliver? {
      ServerLowersRank(w, e.step, dispatch);
    } else if !e.Server? {
      EventKeepsDown(w, e, dispatch);
      ClientLowersRank(w, e, dispatch);
    }
  }

  ghost predicate Finished(w: World) {
    w.mode.Idle? && w.todo == []
  }

  /** A scheduler: in a state where something can happen it picks something that can. */
  ghost predicate Schedules(pick: World -> Event) {
    forall w :: CanMove(w) ==> Possible(w, pick(w))
  }

  ghost predicate CanMove(w: World) {
    exists e :: Possible(w, e)
  }

  /** The world when the calls are finished, under a scheduler that chooses every chunk and the order
      of every step. */
  ghost function Driven(w: World, pick: World -> Event, dispatch: Request -> Response): (end: World)
    requires Good(w, dispatch) && Planned(w, dispatch) && Schedules(pick)
    ensures Finished(end) && Good(end, dispatch) && end.called + end.todo == w.called + w.todo
    decreases Rank(w).0, Rank(w).1, Rank(w).2, Rank(w).3, Rank(w).4, Rank(w).5, Rank(w).6, Rank(w).7, Rank(w).8
  {
    if Finished(w) then w
    else
      var e := pick(w);
      SchedulerMoves(w, pick, dispatch);
      EventKeepsGood(w, e, dispatch);
      EventLowersRank(w, e, dispatch);
      Driven(Next(w, e, dispatch), pick, dispatch)
  }

  lemma SchedulerMoves(w: World, pick: World -> Event, dispatch: Request -> Response)
    requires Good(w, dispatch) && !Finished(w) && Schedules(pick)
    ensures Possible(w, pick(w))
  {
    var e := NeverStuck(w, dispatch);
    assert CanMove(w);
  }

  /** Main theorem. Whatever the services registered, and however scheduler and network interleave and
      cut the streams, a list of calls within the size limits runs to its end, and its responses are
      the ones the dispatcher gives locally, in order, each carrying its request's message id. */
  lemma RemoteCallsAreLocalCalls(calls: seq<Request>, pick: World -> Event, services: map<bytes, D.Service>)
    requires Sendable(calls) && Answerable(calls, Local(services)) && Schedules(pick)
    ensures Good(Opening(calls), Local(services)) && Planned(Opening(calls), Local(services))
    ensures var responses := Driven(Opening(calls), pick, Local(services)).responses;
            && |responses| == |calls|
            && forall i :: 0 <= i < |calls| ==>
                 responses[i] == D.Dispatched(services, Some(calls[i])) && responses[i].msgId == calls[i].msgId
  {
    OpeningIsGood(calls, Local(services));
    assert [] + calls == calls;
    var end := Driven(Opening(calls), pick, Local(services));
    assert end.called == calls;
    forall i | 0 <= i < |calls| ensures D.Dispatched(services, Some(calls[i])).msgId == calls[i].msgId {
      D.DispatchedMeaning(services, calls[i]);
    }
  }

  function Local(services: map<bytes, D.Service>): Request -> Response {
    (r: Request) => D.Dispatched(services, Some(r))
  }
}
