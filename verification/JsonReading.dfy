/** How a server session reads HTTP requests from its connection, step by step, and over whole runs. */
module JsonReading {
  import opened Sequences
  import opened S = SyncConnection
  import opened HttpText
  import opened HttpCoder
  import opened HttpFraming

  type Outcome = S.Outcome<char>

  datatype Phase = ReadHttpHeader | ReadHttpBody

  /** The read the connection has outstanding; Lost when it believes to be reading and nothing is. */
  datatype Reading = NotReading | Until | Exactly(n: nat) | Lost

  /** `requests` are the bodies handed to ProcessRequest; `crashed` is an exception out of a handler,
      `asserted` a second AsyncReadLen while a read is outstanding. */
  datatype State = State(phase: Phase, reqData: string, reading: Reading, buffer: string,
                         requests: seq<string>, open: bool, crashed: bool, asserted: bool)

  const NEW: State := State(ReadHttpHeader, [], NotReading, [], [], true, false, false)

  // ---- handlers ----

  /** AsyncReadUtil does nothing while a read is outstanding. */
  function StartUntil(s: State): State {
    if s.reading.NotReading? then s.(reading := Until) else s
  }

  /** ReadHttpHeader, which is also Start. */
  function ReadHeader(s: State): State {
    StartUntil(s.(phase := ReadHttpHeader, reqData := []))
  }

  /** ProcessRequest: the request callback answers and starts the session again, or closes it when the
      body is not a valid request. */
  function Process(s: State, body: string, valid: bool): State {
    var s1 := s.(requests := s.requests + [body]);
    if valid then ReadHeader(s1) else s1.(open := false)
  }

  /** After the callback the session asks for the next head by itself. */
  function Finish(s: State, body: string, valid: bool): State {
    ReadHeader(Process(s, body, valid))
  }

  function BodyRead(s: State, data: string, valid: bool): State {
    var s1 := s.(reqData := s.reqData + data);
    Finish(s1, s1.reqData, valid)
  }

  /** ReadHttpBody: when the body is buffered already it is delivered before this returns. */
  function ReadBody(s: State, n: nat, valid: bool): State {
    var s1 := s.(phase := ReadHttpBody);
    if !s.reading.NotReading? then s1.(asserted := true)
    else if |s.buffer| < n then s1.(reading := Exactly(n))
    else BodyRead(s1.(buffer := s.buffer[n..]), s.buffer[..n], valid)
  }

  function HeaderRead(s: State, data: string, valid: bool): State {
    var s1 := s.(reqData := s.reqData + data);
    match DecodedRequest(s1.reqData)
    case None => s1
    case Some(request) => HeadDecoded(s1, LengthOf(request.headers), request.body, valid)
  }

  function HeadDecoded(s: State, length: Announced, body: string, valid: bool): State {
    if !length.Length? then s.(crashed := true)
    else if length.n == 0 then Finish(s, body, valid)
    else if |body| >= length.n then Finish(s.(reqData := body[length.n..]), body[..length.n], valid)
    else ReadBody(s.(reqData := body), length.n - |body|, valid)
  }

  /** The connection hands a completed read to the session. */
  function OnRead(s: State, data: string, valid: bool): State {
    if s.phase.ReadHttpHeader? then HeaderRead(s, data, valid) else BodyRead(s, data, valid)
  }

  /** AsyncReadLen. What is buffered already is delivered before this returns, to an open connection. */
  function AsyncReadLen(s: State, n: nat, valid: bool): State {
    if !s.reading.NotReading? then s.(asserted := true)
    else if |s.buffer| < n then s.(reading := Exactly(n))
    else if !s.open then s.(reading := Lost)
    else OnRead(s.(buffer := s.buffer[n..]), s.buffer[..n], valid)
  }

  /** ReadHttpBody is the switch to the body state and AsyncReadLen. */
  lemma ReadBodyIsAsyncReadLen(s: State, n: nat, valid: bool)
    requires s.open
    ensures ReadBody(s, n, valid) == AsyncReadLen(s.(phase := ReadHttpBody), n, valid)
  {
  }

  predicate ReadPossible(s: State, o: Outcome) {
    match s.reading
    case NotReading => false
    case Lost => false
    case Until => UntilPossible(s.buffer, CRLF2, o)
    case Exactly(n) => LenPossible(s.buffer, n, o)
  }

  /** How many bytes a successful read returns. */
  function SizeRead(reading: Reading, got: string): (n: nat)
    requires reading.Until? ==> Contains(got, CRLF2)
    ensures n <= |got|
  {
    if reading.Until? then |UpTo(got, CRLF2)| else |got|
  }

  /** The outstanding read completes. After Close nothing reaches the session; an error closes it. */
  function Completed(s: State, o: Outcome, valid: bool): State
    requires ReadPossible(s, o)
  {
    var got := s.buffer + o.chunk;
    var s1 := s.(buffer := got, reading := NotReading);
    if !s.open then s1
    else if !o.ec.NoError? then s1.(open := false)
    else
      var size := SizeRead(s.reading, got);
      OnRead(s1.(buffer := got[size..]), got[..size], valid)
  }

  // ---- runs ----

  /** The bytes the peer has sent or will send that are not read yet. */
  datatype World = World(session: State, future: string)

  datatype Event =
    | Read(o: Outcome, valid: bool)  // the outstanding read completes
    | Close                          // the timer closes the session

  ghost predicate Enabled(w: World, e: Event) {
    && !w.session.crashed
    && match e
       case Read(o, _) => ReadPossible(w.session, o) && o.chunk <= w.future
       case Close => true
  }

  ghost function Step(w: World, e: Event): World
    requires Enabled(w, e)
  {
    match e
    case Read(o, valid) => World(Completed(w.session, o, valid), w.future[|o.chunk|..])
    case Close => w.(session := w.session.(open := false))
  }

  ghost predicate Legal(w: World, es: seq<Event>)
    decreases |es|
  {
    es != [] ==> Enabled(w, es[0]) && Legal(Step(w, es[0]), es[1..])
  }

  ghost function After(w: World, es: seq<Event>): World
    requires Legal(w, es)
    decreases |es|
  {
    if es == [] then w else After(Step(w, es[0]), es[1..])
  }

  ghost function Initial(stream: string): World {
    World(ReadHeader(NEW), stream)
  }

  // ---- what every step keeps ----

  /** The requests delivered so far and those still in the buffer or to come make up the stream's. */
  ghost predicate Accounted(w: World, stream: string) {
    var s := w.session;
    var rest := s.buffer + w.future;
    if !s.open then s.requests <= Parsed(stream)
    else match s.reading
      case NotReading => s.requests == Parsed(stream)
      case Lost => false
      case Until => s.requests + Parsed(rest) == Parsed(stream)
      case Exactly(n) => s.requests + ParsedBody(n, rest) == Parsed(stream)
  }

  ghost predicate Inv(w: World, stream: string) {
    var s := w.session;
    && (s.open ==> |s.buffer| <= BUFFER_SIZE) && !s.asserted && Accounted(w, stream)
    && (s.crashed ==> s.reading.NotReading?)
    && (s.open && s.reading.Until? ==> s.phase.ReadHttpHeader? && s.reqData == [])
    && (s.open && s.reading.Exactly? ==> s.phase.ReadHttpBody? && s.reqData == [] && |s.buffer| < s.reading.n)
  }

  /** A body taken off the front of what is left. */
  lemma BodyDelivered(s: State, future: string, body: string, valid: bool, stream: string)
    requires s.open && s.reading.NotReading? && !s.asserted && !s.crashed && |s.buffer| <= BUFFER_SIZE
    requires s.requests + ([body] + Parsed(s.buffer + future)) == Parsed(stream)
    ensures Inv(World(Finish(s, body, valid), future), stream)
  {
    assert s.requests + ([body] + Parsed(s.buffer + future)) == (s.requests + [body]) + Parsed(s.buffer + future);
  }

  lemma WholeBody(s: State, future: string, data: string, n: nat, valid: bool, stream: string)
    requires s.open && s.reading.NotReading? && !s.asserted && !s.crashed
    requires |s.buffer| <= BUFFER_SIZE && s.reqData == []
    requires |data| == BodySize(n)
    requires s.requests + ParsedBody(n, data + (s.buffer + future)) == Parsed(stream)
    ensures Inv(World(BodyRead(s, data, valid), future), stream)
  {
    var rest := data + (s.buffer + future);
    assert rest[..|data|] == data && rest[|data|..] == s.buffer + future;
    assert [] + data == data;
    BodyDelivered(s.(reqData := data), future, data, valid, stream);
  }

  lemma BodyRequested(s: State, future: string, n: nat, valid: bool, stream: string)
    requires s.open && s.reading.NotReading? && !s.asserted && !s.crashed
    requires |s.buffer| <= BUFFER_SIZE && s.reqData == []
    requires s.requests + ParsedBody(n, s.buffer + future) == Parsed(stream)
    ensures Inv(World(ReadBody(s, n, valid), future), stream)
  {
    if |s.buffer| >= n {
      BodyBuffered(s, n, valid);
      BodyTaken(s, future, s.buffer[..n], s.buffer[n..], valid, stream);
    } else {
      BodyAwaited(s, n, valid);
    }
  }

  lemma BodyTaken(s: State, future: string, data: string, behind: string, valid: bool, stream: string)
    requires s.open && s.reading.NotReading? && !s.asserted && !s.crashed
    requires |s.buffer| <= BUFFER_SIZE && s.reqData == [] && s.buffer == data + behind
    requires s.requests + ParsedBody(|data|, s.buffer + future) == Parsed(stream)
    ensures Inv(World(BodyRead(s.(phase := ReadHttpBody, buffer := behind), data, valid), future), stream)
  {
    Regroup(data, behind, future);
    WholeBody(s.(phase := ReadHttpBody, buffer := behind), future, data, |data|, valid, stream);
  }

  lemma BodyBuffered(s: State, n: nat, valid: bool)
    requires s.reading.NotReading? && |s.buffer| >= n
    ensures ReadBody(s, n, valid)
         == BodyRead(s.(phase := ReadHttpBody, buffer := s.buffer[n..]), s.buffer[..n], valid)
  {
  }

  lemma BodyAwaited(s: State, n: nat, valid: bool)
    requires s.reading.NotReading? && |s.buffer| < n
    ensures ReadBody(s, n, valid) == s.(phase := ReadHttpBody, reading := Exactly(n))
  {
  }

  lemma EmptyBodyFirst(rest: string)
    ensures ParsedBody(0, rest) == [[]] + Parsed(rest)
  {
    assert rest[..0] == [] && rest[0..] == rest;
  }

  lemma NothingBehindHead(s: State, n: nat, valid: bool)
    ensures HeadDecoded(s, Length(n), [], valid)
         == if n == 0 then Finish(s, [], valid) else ReadBody(s.(reqData := []), n, valid)
  {
  }

  lemma LengthKnown(s: State, future: string, a: Announced, valid: bool, stream: string)
    requires s.open && s.reading.NotReading? && !s.asserted && !s.crashed && |s.buffer| <= BUFFER_SIZE && a.Length?
    requires s.requests + ParsedBody(a.n, s.buffer + future) == Parsed(stream)
    ensures Inv(World(HeadDecoded(s, a, [], valid), future), stream)
  {
    NothingBehindHead(s, a.n, valid);
    assert a == Length(a.n);
    if a.n == 0 {
      EmptyBodyFirst(s.buffer + future);
      BodyDelivered(s, future, [], valid, stream);
    } else {
      BodyRequested(s.(reqData := []), future, a.n, valid, stream);
    }
  }

  /** A head handed to the session: what follows is what Parsed says. */
  lemma HeadDelivered(s: State, future: string, head: string, valid: bool, stream: string)
    requires s.open && s.reading.NotReading? && !s.asserted && !s.crashed && |s.buffer| <= BUFFER_SIZE
    requires s.reqData == [] && IsHead(head)
    requires s.requests + Parsed(head + (s.buffer + future)) == Parsed(stream)
    ensures Inv(World(HeaderRead(s, head, valid), future), stream)
  {
    HeadHasNoBody(head);
    ParsedAtHead(head, s.buffer + future);
    var s1 := s.(reqData := head);
    assert [] + head == head;
    if Announces(head).Length? {
      LengthKnown(s1, future, Announces(head), valid, stream);
    }
  }

  lemma SplitChunk(buffer: string, future: string, chunk: string, size: nat)
    requires chunk <= future && size <= |buffer + chunk|
    ensures buffer + future == (buffer + chunk)[..size] + ((buffer + chunk)[size..] + future[|chunk|..])
  {
    assert future == chunk + future[|chunk|..];
  }

  /** A successful read of an open session. */
  lemma ReadKeepsInv(w: World, o: Outcome, valid: bool, stream: string)
    requires Inv(w, stream) && Enabled(w, Read(o, valid)) && w.session.open && o.ec.NoError?
    ensures Inv(Step(w, Read(o, valid)), stream)
  {
    var s := w.session;
    var got := s.buffer + o.chunk;
    var size := SizeRead(s.reading, got);
    var future := w.future[|o.chunk|..];
    var s1 := s.(buffer := got[size..], reading := NotReading);
    SplitChunk(s.buffer, w.future, o.chunk, size);
    if s.reading.Until? {
      UpToIsHead(got);
      HeadDelivered(s1, future, got[..size], valid, stream);
    } else {
      WholeBody(s1, future, got[..size], s.reading.n, valid, stream);
    }
  }

  lemma StepKeepsInv(w: World, e: Event, stream: string)
    requires Inv(w, stream) && Enabled(w, e)
    ensures Inv(Step(w, e), stream)
  {
    if e.Read? && w.session.open && e.o.ec.NoError? {
      ReadKeepsInv(w, e.o, e.valid, stream);
    }
  }

  lemma {:induction false} RunKeepsInv(w: World, es: seq<Event>, stream: string)
    requires Inv(w, stream) && Legal(w, es)
    ensures Inv(After(w, es), stream)
    decreases |es|
  {
    if es != [] {
      StepKeepsInv(w, es[0], stream);
      RunKeepsInv(Step(w, es[0]), es[1..], stream);
    }
  }

  // ---- whole runs ----

  lemma InitialInv(stream: string)
    ensures Inv(Initial(stream), stream)
  {
    StartsAccounted([], [], stream);
  }

  lemma StartsAccounted(none: string, nobody: seq<string>, stream: string)
    requires none == [] && nobody == []
    ensures nobody + Parsed(none + stream) == Parsed(stream)
  {
    assert none + stream == stream;
  }

  lemma InvGivesPrefix(w: World, stream: string)
    requires Inv(w, stream)
    ensures w.session.requests <= Parsed(stream)
  {
  }

  /** At any moment of any run the requests delivered are the first bodies of the stream, in order,
      however the bytes were cut into reads, and no second read was ever started. */
  lemma RequestsArePrefix(stream: string, es: seq<Event>)
    requires Legal(Initial(stream), es)
    ensures var s := After(Initial(stream), es).session;
            s.requests <= Parsed(stream) && !s.asserted
  {
    InitialInv(stream);
    RunKeepsInv(Initial(stream), es, stream);
    InvGivesPrefix(After(Initial(stream), es), stream);
  }

  /** Nothing is left to come and the outstanding read cannot end well without more. */
  ghost predicate Waiting(w: World) {
    var s := w.session;
    && s.open && w.future == []
    && (s.reading.Until? ==> !Contains(s.buffer, CRLF2))
    && (s.reading.Exactly? ==> |s.buffer| < BodySize(s.reading.n))
  }

  /** A session left open has delivered every body of the stream once it waits for more. */
  lemma WaitingHasAll(w: World, stream: string)
    requires Inv(w, stream) && Waiting(w)
    ensures w.session.requests == Parsed(stream)
  {
    assert w.session.buffer + w.future == w.session.buffer;
  }

  /** Requests of well-formed messages arrive whole and in order: at any moment a prefix of them, all of
      them once the session waits for more. */
  lemma WellFormedRequestsArrive(ms: seq<HttpMessage>, es: seq<Event>)
    requires AllWellFormed(ms) && Legal(Initial(Wire(ms)), es)
    ensures var w := After(Initial(Wire(ms)), es);
            && w.session.requests <= Bodies(ms) && !w.session.asserted
            && (Waiting(w) ==> w.session.requests == Bodies(ms))
  {
    ParsedWireAlone(ms);
    InitialInv(Wire(ms));
    RunKeepsInv(Initial(Wire(ms)), es, Wire(ms));
    InvGivesPrefix(After(Initial(Wire(ms)), es), Wire(ms));
    if Waiting(After(Initial(Wire(ms)), es)) {
      WaitingHasAll(After(Initial(Wire(ms)), es), Wire(ms));
    }
  }

  // ---- progress ----

  /** An open session with requests still to deliver has a read outstanding that can end well. */
  lemma CanRead(w: World, stream: string)
    requires Inv(w, stream) && w.session.open && !w.session.crashed && w.session.requests != Parsed(stream)
    ensures exists o: Outcome :: o.ec.NoError? && Enabled(w, Read(o, true))
  {
    var s := w.session;
    var rest := s.buffer + w.future;
    var size := if s.reading.Until? then |UpTo(rest, CRLF2)| else BodySize(s.reading.n);
    var o := ReadUpTo(s.buffer, w.future, size);
    if s.reading.Until? {
      UntilCanEnd(s.buffer, w.future, size, o);
    }
    assert Enabled(w, Read(o, true));
  }

  /** A read that brings the buffer to `size`, or nothing if it holds that much. */
  function ReadUpTo(buffer: string, future: string, size: nat): (o: Outcome)
    requires size <= |buffer| + |future|
    ensures o.ec.NoError? && o.chunk <= future
    ensures |o.chunk| == if |buffer| < size then size - |buffer| else 0
  {
    Outcome(future[..if |buffer| < size then size - |buffer| else 0], NoError)
  }

  lemma UntilCanEnd(buffer: string, future: string, size: nat, o: Outcome)
    requires |buffer| <= BUFFER_SIZE && StartsWithHead(buffer + future)
    requires size == |UpTo(buffer + future, CRLF2)| && o == ReadUpTo(buffer, future, size)
    ensures UntilPossible(buffer, CRLF2, o)
  {
    var rest, got := buffer + future, buffer + o.chunk;
    var k := size - 4;
    if Contains(buffer, CRLF2) {
      FoundInLonger(buffer, future);
    }
    assert Occurs(rest, CRLF2, k);
    assert got[k..k + 4] == rest[k..k + 4];
    assert Occurs(got, CRLF2, k);
  }

  /** Twice the requests still to come, and one while a head is read. */
  ghost function Rank(s: State, stream: string): int {
    2 * (|Parsed(stream)| - |s.requests|) + if s.reading.Until? then 1 else 0
  }

  lemma HeadDecodedEffect(s: State, length: Announced, body: string)
    requires s.open && s.reading.NotReading?
    ensures var r := HeadDecoded(s, length, body, true);
            r.open && (|r.requests| == |s.requests| + 1 || (r.requests == s.requests && !r.reading.Until?))
  {
  }

  lemma OnReadEffect(s: State, data: string)
    requires s.open && s.reading.NotReading?
    ensures var r := OnRead(s, data, true);
            && r.open
            && (|r.requests| == |s.requests| + 1
                || (s.phase.ReadHttpHeader? && r.requests == s.requests && !r.reading.Until?))
  {
    if s.phase.ReadHttpHeader? && DecodedRequest(s.reqData + data).Some? {
      var request := DecodedRequest(s.reqData + data).value;
      HeadDecodedEffect(s.(reqData := s.reqData + data), LengthOf(request.headers), request.body);
    }
  }

  /** Every successful read, its request valid, brings the end nearer. */
  lemma ReadLowersRank(w: World, o: Outcome, stream: string)
    requires Inv(w, stream) && Enabled(w, Read(o, true))
    requires w.session.open && o.ec.NoError?
    ensures Step(w, Read(o, true)).session.open
    ensures Rank(Step(w, Read(o, true)).session, stream) < Rank(w.session, stream)
  {
    var s := w.session;
    var got := s.buffer + o.chunk;
    var size := SizeRead(s.reading, got);
    OnReadEffect(s.(buffer := got[size..], reading := NotReading), got[..size]);
  }

  ghost predicate Undisturbed(es: seq<Event>) {
    forall i :: 0 <= i < |es| ==> es[i].Read? && es[i].o.ec.NoError? && es[i].valid
  }

  lemma {:induction false} RunLowersRank(w: World, es: seq<Event>, stream: string)
    requires Inv(w, stream) && Legal(w, es) && w.session.open && Undisturbed(es)
    ensures Inv(After(w, es), stream) && After(w, es).session.open
    ensures Rank(After(w, es).session, stream) <= Rank(w.session, stream) - |es|
    decreases |es|
  {
    if es != [] {
      ReadLowersRank(w, es[0].o, stream);
      StepKeepsInv(w, es[0], stream);
      RunLowersRank(Step(w, es[0]), es[1..], stream);
    }
  }

  /** The handler has thrown, or the outstanding read, if any, cannot end well. */
  ghost predicate Ended(w: World) {
    w.session.crashed || forall o: Outcome :: o.ec.NoError? ==> !Enabled(w, Read(o, true))
  }

  lemma EndedHasAll(w: World, stream: string)
    requires Inv(w, stream) && w.session.open && Ended(w)
    ensures w.session.requests == Parsed(stream)
  {
    if !w.session.crashed && w.session.requests != Parsed(stream) {
      CanRead(w, stream);
    }
  }

  lemma InitialRank(stream: string)
    ensures Rank(Initial(stream).session, stream) == 2 * |Parsed(stream)| + 1
  {
  }

  lemma RankIsNat(w: World, stream: string)
    requires Inv(w, stream)
    ensures Rank(w.session, stream) >= 0
  {
    InvGivesPrefix(w, stream);
  }

  /** Without errors and invalid requests a run cannot go on for more than two reads a request and one;
      when no read can end well any more, every body of the stream has been delivered. */
  lemma UndisturbedRunsDeliverAll(stream: string, es: seq<Event>)
    requires Legal(Initial(stream), es) && Undisturbed(es)
    ensures |es| <= 2 * |Parsed(stream)| + 1
    ensures Ended(After(Initial(stream), es)) ==> After(Initial(stream), es).session.requests == Parsed(stream)
  {
    InitialInv(stream);
    RunLowersRank(Initial(stream), es, stream);
    InitialRank(stream);
    RankIsNat(After(Initial(stream), es), stream);
    if Ended(After(Initial(stream), es)) {
      EndedHasAll(After(Initial(stream), es), stream);
    }
  }

  // ---- heads that stop a session ----

  lemma FinishReads(s: State, body: string, valid: bool)
    requires s.reading.NotReading?
    ensures Finish(s, body, valid).reading.Until? && Finish(s, body, valid).crashed == s.crashed
  {
  }

  lemma LengthReads(s: State, n: nat, valid: bool)
    requires s.open && s.reading.NotReading?
    ensures !HeadDecoded(s, Length(n), [], valid).reading.NotReading?
    ensures HeadDecoded(s, Length(n), [], valid).crashed == s.crashed
  {
    NothingBehindHead(s, n, valid);
    if n == 0 {
      FinishReads(s, [], valid);
    } else if |s.buffer| >= n {
      var s1 := s.(phase := ReadHttpBody, buffer := s.buffer[n..], reqData := [] + s.buffer[..n]);
      FinishReads(s1, s1.reqData, valid);
    }
  }

  /** A session that has got a head has no read outstanding afterwards if and only if the head has no
      request line or stoul rejects its Content-Length. */
  lemma HeadStopsIff(s: State, head: string, valid: bool)
    requires s.open && s.reading.NotReading? && s.reqData == [] && IsHead(head)
    ensures HeaderRead(s, head, valid).reading.NotReading? <==> Stops(head)
    ensures HeaderRead(s, head, valid).crashed <==> s.crashed || BadLength(head)
  {
    assert [] + head == head;
    RefusedIff(head);
    AnnouncesMeans(head);
    HeadHasNoBody(head);
    if Announces(head).Length? {
      LengthReads(s.(reqData := head), Announces(head).n, valid);
    }
  }

  /** Without a read outstanding nothing reaches the session any more, whatever the peer sends. */
  lemma {:induction false} StoppedStays(w: World, es: seq<Event>)
    requires w.session.reading.NotReading? && Legal(w, es)
    ensures var v := After(w, es);
            && v.session.reading.NotReading? && v.session.requests == w.session.requests
            && v.session.buffer == w.session.buffer && v.future == w.future && v.session.crashed == w.session.crashed
    decreases |es|
  {
    if es != [] {
      StoppedStays(Step(w, es[0]), es[1..]);
    }
  }

  /** In any run over messages with such a head behind them nothing after that head is delivered; and
      without errors exactly the messages' bodies are, however long the run waits. */
  lemma StoppedAtHead(ms: seq<HttpMessage>, head: string, behind: string, es: seq<Event>)
    requires AllWellFormed(ms) && Stops(head)
    requires Legal(Initial(Wire(ms) + (head + behind)), es)
    ensures var w := After(Initial(Wire(ms) + (head + behind)), es);
            && w.session.requests <= Bodies(ms)
            && (Undisturbed(es) && Ended(w) ==> w.session.requests == Bodies(ms))
  {
    ParsedUpToStop(ms, head, behind);
    RequestsArePrefix(Wire(ms) + (head + behind), es);
    if Undisturbed(es) {
      UndisturbedRunsDeliverAll(Wire(ms) + (head + behind), es);
    }
  }

  /** The first successful read of a session hands it the head the stream begins with, however much
      it takes beyond. */
  lemma FirstHeadRead(head: string, behind: string, e: Event)
    requires IsHead(head) && Enabled(Initial(head + behind), e) && e.Read? && e.o.ec.NoError?
    ensures |head| <= |e.o.chunk|
    ensures var left := e.o.chunk[|head|..];
            && Step(Initial(head + behind), e).session == HeaderRead(NEW.(buffer := left), head, e.valid)
            && left + Step(Initial(head + behind), e).future == behind
  {
    var w, got := Initial(head + behind), e.o.chunk;
    assert w.session.buffer + got == got;
    FirstHeadSplits(head, behind, got);
    assert w.session.(buffer := got[|head|..], reading := NotReading) == NEW.(buffer := got[|head|..]);
  }

  lemma FirstHeadSplits(head: string, behind: string, got: string)
    requires IsHead(head) && got <= head + behind && Contains(got, CRLF2)
    ensures UpTo(got, CRLF2) == head && |head| <= |got| && got[..|head|] == head
    ensures got[|head|..] + (head + behind)[|got|..] == behind
  {
    var rest := (head + behind)[|got|..];
    assert head + behind == got + rest;
    FoundInLonger(got, rest);
    FoundInLonger(head, behind);
    BehindHead(head, behind, got, rest);
  }

  lemma BehindHead(head: string, behind: string, got: string, rest: string)
    requires head + behind == got + rest && head <= got
    ensures got[|head|..] + rest == behind
  {
    var left := got[|head|..];
    assert got == head + left;
    Regroup(head, left, rest);
    SplitsAlike(head, left + rest, head, behind);
  }

  lemma HeadCanBeRead(head: string, behind: string, valid: bool)
    requires IsHead(head)
    ensures Enabled(Initial(head + behind), Read(Outcome(head, NoError), valid))
  {
    assert Initial(head + behind).session.buffer + head == head;
  }

  /** A stream that begins with an empty line: once a read has ended well, the session waits for nothing
      in the rest of any run, has delivered nothing, and leaves what is behind the line where it is. */
  lemma EmptyLineStopsForGood(behind: string, es: seq<Event>)
    requires Legal(Initial(CRLF2 + behind), es) && es != [] && es[0].Read? && es[0].o.ec.NoError?
    ensures var w := After(Initial(CRLF2 + behind), es);
            && w.session.reading.NotReading? && !w.session.crashed && w.session.requests == []
            && w.session.buffer + w.future == behind
  {
    EmptyLineIsHead();
    FirstHeadRead(CRLF2, behind, es[0]);
    var s := NEW.(buffer := es[0].o.chunk[|CRLF2|..]);
    EmptyLineRead(s, es[0].valid);
    StoppedStays(Step(Initial(CRLF2 + behind), es[0]), es[1..]);
  }

  lemma EmptyLineRead(s: State, valid: bool)
    requires s.open && s.reading.NotReading? && s.reqData == []
    ensures HeaderRead(s, CRLF2, valid) == s.(reqData := CRLF2)
  {
    EmptyLineIsHead();
    RefusedIff(CRLF2);
    assert [] + CRLF2 == CRLF2;
  }

  lemma EmptyLineIsHead()
    ensures IsHead(CRLF2)
  {
    assert CRLF2[0..4] == CRLF2;
    assert Occurs(CRLF2, CRLF2, 0);
    FindFirst(CRLF2, CRLF2, 0);
  }

  /** A head whose Content-Length is not a number: the first read that ends well throws, and nothing is
      delivered in any run. */
  lemma NoNumberCrashes(start: string, value: string, behind: string, es: seq<Event>)
    requires start != [] && NoBreak(start) && NoBreak(value) && value != []
    requires !IsSpace(value[0]) && !IsDigit(value[0]) && value[0] != '-' && value[0] != '+'
    requires var head := Message(start, [Header(CONTENT_LENGTH, value)], []);
             && |head| <= BUFFER_SIZE && Legal(Initial(head + behind), es)
             && es != [] && es[0].Read? && es[0].o.ec.NoError?
    ensures var head := Message(start, [Header(CONTENT_LENGTH, value)], []);
            && After(Initial(head + behind), es).session.crashed
            && After(Initial(head + behind), es).session.requests == []
  {
    var head := Message(start, [Header(CONTENT_LENGTH, value)], []);
    NoNumberThrows(start, value);
    FirstHeadRead(head, behind, es[0]);
    ThrowingHeadRead(NEW.(buffer := es[0].o.chunk[|head|..]), head, es[0].valid);
    StoppedStays(Step(Initial(head + behind), es[0]), es[1..]);
  }

  lemma ThrowingHeadRead(s: State, head: string, valid: bool)
    requires s.open && s.reading.NotReading? && s.reqData == [] && IsHead(head) && Announces(head).Throws?
    ensures HeaderRead(s, head, valid) == s.(reqData := head, crashed := true)
  {
    assert [] + head == head;
  }

  // ---- a head without a length ----

  /** A stream that begins with a head without Content-Length: one read that ends well and a valid empty
      request, and the session has delivered the empty body and reads on, without having taken anything
      for a body. */
  lemma NoLengthDelivered(start: string, headers: seq<Header>, behind: string, e: Event)
    requires start != [] && NoBreak(start) && CleanHeaders(headers) && NoneNamed(headers, CONTENT_LENGTH)
    requires |Message(start, headers, [])| <= BUFFER_SIZE
    requires Enabled(Initial(Message(start, headers, []) + behind), e) && e.Read? && e.o.ec.NoError? && e.valid
    ensures var w := Step(Initial(Message(start, headers, []) + behind), e);
            && w.session.requests == [[]] && w.session.reading.Until? && w.session.open && !w.session.crashed
            && w.session.buffer + w.future == behind
  {
    var head := Message(start, headers, []);
    NoLengthNoBody(start, headers, behind);
    FirstHeadRead(head, behind, e);
    var s := NEW.(buffer := e.o.chunk[|head|..]);
    EmptyBodyDelivered(s, head);
  }

  lemma EmptyBodyDelivered(s: State, head: string)
    requires s.open && s.reading.NotReading? && s.reqData == [] && s.requests == [] && !s.crashed
    requires IsHead(head) && Announces(head) == Length(0)
    ensures var t := HeaderRead(s, head, true);
            && t.requests == [[]] && t.reading.Until? && t.open && !t.crashed && t.buffer == s.buffer
  {
    HeadHasNoBody(head);
    assert [] + head == head;
    NothingBehindHead(s.(reqData := head), 0, true);
  }

  // ---- what closes a session ----

  /** A body that is not a valid request, and a read that fails, each close the session. */
  lemma RefusalsClose(w: World, e: Event)
    requires Enabled(w, e) && w.session.open && e.Read?
    ensures !e.o.ec.NoError? ==> !Step(w, e).session.open && Step(w, e).session.requests == w.session.requests
    ensures e.o.ec.NoError? && !e.valid && Step(w, e).session.requests != w.session.requests
            ==> !Step(w, e).session.open
    ensures e.o.ec.NoError? && e.valid ==> Step(w, e).session.open
  {
    if e.o.ec.NoError? {
      var s := w.session;
      var got := s.buffer + e.o.chunk;
      var size := SizeRead(s.reading, got);
      DeliveryDecides(s.(buffer := got[size..], reading := NotReading), got[..size], e.valid);
    }
  }

  lemma DeliveryDecides(s: State, data: string, valid: bool)
    requires s.open && s.reading.NotReading?
    ensures OnRead(s, data, valid).open <==> valid || OnRead(s, data, valid).requests == s.requests
  {
    if s.phase.ReadHttpHeader? && DecodedRequest(s.reqData + data).Some? {
      var request := DecodedRequest(s.reqData + data).value;
      HeadDecides(s.(reqData := s.reqData + data), LengthOf(request.headers), request.body, valid);
    }
  }

  lemma HeadDecides(s: State, length: Announced, body: string, valid: bool)
    requires s.open && s.reading.NotReading?
    ensures HeadDecoded(s, length, body, valid).open
            <==> valid || HeadDecoded(s, length, body, valid).requests == s.requests
  {
  }

  lemma ClosedStep(w: World, e: Event)
    requires Enabled(w, e) && !w.session.open
    ensures !Step(w, e).session.open && Step(w, e).session.requests == w.session.requests
  {
  }

  /** A closed session delivers nothing more, whatever is outstanding and whatever the peer sends. */
  lemma {:induction false} ClosedDeliversNothing(w: World, es: seq<Event>)
    requires Legal(w, es) && !w.session.open
    ensures !After(w, es).session.open && After(w, es).session.requests == w.session.requests
    decreases |es|
  {
    if es != [] {
      ClosedStep(w, es[0]);
      ClosedDeliversNothing(Step(w, es[0]), es[1..]);
    }
  }

  /** Over whole runs: after a failed read, or an invalid request, nothing more is delivered. */
  lemma {:induction false} NothingAfterRefusal(w: World, es: seq<Event>, i: nat)
    requires Legal(w, es) && i < |es| && es[i].Read?
    requires Legal(w, es[..i]) && Enabled(After(w, es[..i]), es[i])
    requires var v := After(w, es[..i]);
             !es[i].o.ec.NoError? || (!es[i].valid && Step(v, es[i]).session.requests != v.session.requests)
    ensures !After(w, es).session.open
    ensures After(w, es).session.requests == Step(After(w, es[..i]), es[i]).session.requests
    decreases |es|
  {
    if i == 0 {
      assert es[..0] == [];
      var v := Step(w, es[0]);
      if w.session.open {
        RefusalsClose(w, es[0]);
      } else {
        ClosedStep(w, es[0]);
      }
      ClosedDeliversNothing(v, es[1..]);
    } else {
      assert es[..i][0] == es[0] && es[..i][1..] == es[1..][..i - 1];
      NothingAfterRefusal(Step(w, es[0]), es[1..], i - 1);
    }
  }
}
