/** What every reachable state of a session satisfies. */
module SessionSafety {
  import opened Bytes
  import opened PbCoder
  import opened Frames
  import opened Session

  // ---- the two queues of posted closures ----

  function Starts(posted: seq<Closure>): nat {
    if posted == [] then 0 else (if posted[0].StartRead? then 1 else 0) + Starts(posted[1..])
  }

  function Queued(posted: seq<Closure>): seq<bytes> {
    if posted == [] then []
    else (if posted[0].Enqueue? then [posted[0].data] else []) + Queued(posted[1..])
  }

  lemma {:induction false} PostedAppend(p: seq<Closure>, q: seq<Closure>)
    ensures Starts(p + q) == Starts(p) + Starts(q)
    ensures Queued(p + q) == Queued(p) + Queued(q)
  {
    if p == [] {
      assert p + q == q;
    } else {
      assert (p + q)[1..] == p[1..] + q;
      PostedAppend(p[1..], q);
    }
  }

  function Replies(requests: seq<Request>, reply: Request -> bytes): seq<bytes> {
    seq(|requests|, i requires 0 <= i < |requests| => reply(requests[i]))
  }

  function Concat(messages: seq<bytes>): bytes {
    if messages == [] then [] else messages[0] + Concat(messages[1..])
  }

  lemma {:induction false} ConcatAppend(a: seq<bytes>, b: seq<bytes>)
    ensures Concat(a + b) == Concat(a) + Concat(b)
  {
    if a == [] {
      assert a + b == b;
    } else {
      assert (a + b)[1..] == a[1..] + b;
      ConcatAppend(a[1..], b);
    }
  }

  // ---- reading ----

  /** The frames in what the session has been handed so far. */
  ghost function Seen(s: State): View {
    Feed(FRESH, s.consumed)
  }

  ghost predicate Decodes(bodies: seq<bytes>, requests: seq<Request>) {
    |requests| <= |bodies| && forall i :: 0 <= i < |requests| ==> DecodedRequest(bodies[i]) == Ok(requests[i])
  }

  function Last(bodies: seq<bytes>): Decoded<Request>
    requires bodies != []
  {
    DecodedRequest(bodies[|bodies| - 1])
  }

  /** The dispatched requests are the decoded frames, all of them unless the last does not decode;
      then the connection is closed or the handler threw. */
  ghost predicate Delivered(s: State) {
    var bodies := Seen(s).bodies;
    && Decodes(bodies, s.requests)
    && |bodies| <= |s.requests| + 1
    && (|bodies| == |s.requests| + 1 ==> !Last(bodies).Ok? && (Last(bodies).Rejected? ==> !s.active))
    && (s.crashed <==> |bodies| == |s.requests| + 1 && Last(bodies).OutOfRange?)
  }

  /** An outstanding read is the one the framing state calls for. */
  ghost predicate Awaits(s: State)
    requires s.readOp.Reading?
  {
    && s.isReading && s.readOp.base == 0
    && match s.phase
       case ReadTotalLen =>
         s.readOp.want == PREFIX_SIZE && Seen(s).reader == Prefix([]) && |s.readBuffer| <= PREFIX_SIZE
       case ReadRequest =>
         && s.readOp.want > 0 && Seen(s).reader == Body(Capped(s.readOp.want), [])
         && |s.readBuffer| <= Capped(s.readOp.want)
  }

  /** At most one of a posted restart and an outstanding read exists; an open connection has exactly
      one, unless a prefix of 4 has been read. */
  ghost predicate ReadToken(s: State) {
    && Starts(s.posted) + (if s.readOp.Reading? then 1 else 0) <= 1
    && (Starts(s.posted) == 1 ==> !s.isReading && s.readBuffer == [])
    && (s.active && !s.crashed ==>
          match s.readOp
          case Reading(_, _) => Awaits(s)
          case NoRead =>
            && !s.isReading && s.readBuffer == []
            && (Starts(s.posted) == 0 ==> s.fault)
            && (Starts(s.posted) == 1 ==> s.phase == ReadTotalLen && Seen(s).reader == Prefix([])))
  }

  ghost predicate ReadInv(s: State) {
    && s.taken == s.consumed + s.readBuffer
    && |s.readBuffer| <= BUFFER_SIZE
    && (s.fault <==> Seen(s).reader.Stuck?)
    && Delivered(s)
    && ReadToken(s)
  }

  /** A step that touches neither the read side nor the tokens, except perhaps to close. */
  lemma ReadSideUntouched(s: State, t: State)
    requires ReadInv(s) && (t.active ==> s.active)
    requires t.isReading == s.isReading && t.readBuffer == s.readBuffer && t.readOp == s.readOp && t.phase == s.phase
    requires t.fault == s.fault && t.crashed == s.crashed && t.taken == s.taken && t.consumed == s.consumed
    requires t.requests == s.requests && Starts(t.posted) == Starts(s.posted)
    ensures ReadInv(t)
  {
  }

  /** A restart issues a 4-byte read. */
  lemma StartKeepsReadInv(s: State, reply: Request -> bytes)
    requires ReadInv(s) && s.posted != [] && s.posted[0].StartRead? && !s.crashed
    ensures ReadInv(Apply(s, RunPosted, reply))
  {
  }

  /** The state in which the session is handed everything read so far. */
  function HandedOver(s: State): State {
    s.(readOp := NoRead, isReading := false, readBuffer := [], consumed := s.consumed + s.readBuffer)
  }

  lemma ReadDoneHandsOver(s: State, reply: Request -> bytes)
    requires s.active && Enabled(s, ReadDone)
    ensures Apply(s, ReadDone, reply) == OnRequest(HandedOver(s), s.readBuffer, reply)
  {
    assert s.readBuffer[|s.readBuffer|..] == [] && s.readBuffer[..|s.readBuffer|] == s.readBuffer;
  }

  /** A complete prefix issues the body read on an empty buffer; a prefix of 4 delivers nothing to a
      session that still expects a prefix, which is the assert in OnRequest. */
  lemma AfterPrefix(s: State, data: bytes, reply: Request -> bytes)
    requires s.active && !s.isReading && s.readBuffer == [] && s.readOp.NoRead? && s.phase == ReadTotalLen
    requires |data| == PREFIX_SIZE
    ensures OnRequest(s, data, reply) ==
              if BodyLength(data) == 0 then s.(prefix := data, fault := true, phase := ReadRequest)
              else s.(prefix := data, isReading := true, readOp := Reading(0, BodyLength(data)), phase := ReadRequest)
  {
    if BodyLength(data) == 0 {
      var p := s.(prefix := data);
      var t := p.(isReading := true);
      assert t.readBuffer[0..] == [] && t.readBuffer[..0] == [] && s.consumed + [] == s.consumed;
      assert AsyncReadLen(p, 0, reply) == OnReadOk(t, 0, reply) == OnRequest(p, [], reply) == p.(fault := true);
    }
  }

  /** Four bytes have arrived: the body read is issued with an empty buffer, unless the prefix is 4. */
  lemma PrefixKeepsReadInv(s: State, reply: Request -> bytes)
    requires ReadInv(s) && s.active && s.phase == ReadTotalLen && Enabled(s, ReadDone)
    ensures ReadInv(Apply(s, ReadDone, reply))
  {
    ReadDoneHandsOver(s, reply);
    AfterPrefix(HandedOver(s), s.readBuffer, reply);
    FeedAppend(FRESH, s.consumed, s.readBuffer);
    FeedPrefix(Seen(s).bodies, s.readBuffer);
  }

  lemma BodySeen(s: State)
    requires ReadInv(s) && s.active && !s.crashed && s.phase == ReadRequest && Enabled(s, ReadDone)
    ensures Seen(HandedOver(s)) == View(Seen(s).bodies + [s.readBuffer], Prefix([]))
    ensures |Seen(s).bodies| == |s.requests| && Starts(s.posted) == 0 && !s.fault
  {
    FeedAppend(FRESH, s.consumed, s.readBuffer);
    FeedBody(Seen(s).bodies, s.readBuffer);
  }

  /** A body that decodes: its request is dispatched and the next read posted behind the reply. */
  lemma DispatchKeepsReadInv(s: State, t: State, body: bytes, r: Request, data: bytes)
    requires Decodes(Seen(s).bodies, s.requests) && |Seen(s).bodies| == |s.requests|
    requires Seen(t) == View(Seen(s).bodies + [body], Prefix([])) && DecodedRequest(body) == Ok(r)
    requires Starts(s.posted) == 0 && t.posted == s.posted + [Enqueue(data), StartRead]
    requires t.requests == s.requests + [r] && t.active && !t.crashed && !t.fault && t.phase == ReadTotalLen
    requires t.readOp == NoRead && !t.isReading && t.readBuffer == [] && t.taken == t.consumed
    ensures ReadInv(t)
  {
    PostedAppend(s.posted, [Enqueue(data), StartRead]);
    PostedPair(data);
  }

  /** A body that does not decode: the connection is closed, or the exception ends the handler. */
  lemma RefusalKeepsReadInv(s: State, t: State, body: bytes)
    requires Decodes(Seen(s).bodies, s.requests) && |Seen(s).bodies| == |s.requests|
    requires Seen(t) == View(Seen(s).bodies + [body], Prefix([])) && !DecodedRequest(body).Ok?
    requires Starts(s.posted) == 0 && t.posted == s.posted && t.requests == s.requests && !t.fault
    requires if DecodedRequest(body).Rejected? then !t.active && !t.crashed else t.crashed
    requires t.readOp == NoRead && t.readBuffer == [] && t.taken == t.consumed
    ensures ReadInv(t)
  {
  }

  /** A body has arrived. */
  lemma BodyKeepsReadInv(s: State, reply: Request -> bytes)
    requires ReadInv(s) && s.active && s.phase == ReadRequest && Enabled(s, ReadDone)
    ensures ReadInv(Apply(s, ReadDone, reply))
  {
    var t := Apply(s, ReadDone, reply);
    ReadDoneHandsOver(s, reply);
    BodySeen(s);
    assert Seen(t) == Seen(HandedOver(s));
    match DecodedRequest(s.readBuffer)
    case Ok(r) => DispatchKeepsReadInv(s, t, s.readBuffer, r, reply(r));
    case _ => RefusalKeepsReadInv(s, t, s.readBuffer);
  }

  lemma PostedPair(data: bytes)
    ensures Starts([Enqueue(data), StartRead]) == 1 && Queued([Enqueue(data), StartRead]) == [data]
  {
    var p := [Enqueue(data), StartRead];
    var q: seq<Closure> := [StartRead];
    assert p[1..] == q && q[1..] == [];
    assert Starts(q) == 1 && Queued(q) == [];
  }

  lemma DeliverKeepsReadInv(s: State, chunk: bytes, reply: Request -> bytes)
    requires ReadInv(s) && Enabled(s, Deliver(chunk))
    ensures ReadInv(Apply(s, Deliver(chunk), reply))
  {
    assert s.taken + chunk == s.consumed + (s.readBuffer + chunk);
  }

  lemma LostReadKeepsReadInv(s: State, t: State)
    requires ReadInv(s) && s.readOp.Reading?
    requires if s.active then t == Close(s.(readOp := NoRead, isReading := false)) else t == s.(readOp := NoRead)
    ensures ReadInv(t)
  {
  }

  lemma RunPostedKeepsReadInv(s: State, reply: Request -> bytes)
    requires ReadInv(s) && Enabled(s, RunPosted)
    ensures ReadInv(Apply(s, RunPosted, reply))
  {
    if s.posted[0].StartRead? {
      StartKeepsReadInv(s, reply);
    } else {
      ReadSideUntouched(s, Apply(s, RunPosted, reply));
    }
  }

  lemma ReadDoneKeepsReadInv(s: State, reply: Request -> bytes)
    requires ReadInv(s) && Enabled(s, ReadDone)
    ensures ReadInv(Apply(s, ReadDone, reply))
  {
    if !s.active {
      LostReadKeepsReadInv(s, Apply(s, ReadDone, reply));
    } else if s.phase == ReadTotalLen {
      PrefixKeepsReadInv(s, reply);
    } else {
      BodyKeepsReadInv(s, reply);
    }
  }

  lemma WriteKeepsReadInv(s: State, step: Step, reply: Request -> bytes)
    requires Inv(s, reply) && Enabled(s, step) && (step.WriteSome? || step.WriteDone? || step.WriteFail?)
    ensures ReadInv(Apply(s, step, reply))
  {
    ReadSideUntouched(s, Apply(s, step, reply));
  }

  lemma StepKeepsReadInv(s: State, step: Step, reply: Request -> bytes)
    requires Inv(s, reply) && Enabled(s, step)
    ensures ReadInv(Apply(s, step, reply))
  {
    match step
    case RunPosted => RunPostedKeepsReadInv(s, reply);
    case ReadDone => ReadDoneKeepsReadInv(s, reply);
    case ReadFail => LostReadKeepsReadInv(s, Apply(s, step, reply));
    case Deliver(chunk) => DeliverKeepsReadInv(s, chunk, reply);
    case Timeout => ReadSideUntouched(s, Close(s));
    case _ => WriteKeepsReadInv(s, step, reply);
  }

  // ---- writing and closing ----

  /** Messages leave in the order they were posted, one write at a time, and the socket has seen the
      finished ones and the part of the front already sent. */
  ghost predicate WriteInv(s: State, reply: Request -> bytes) {
    && s.finished + s.writeQueue + Queued(s.posted) == Replies(s.requests, reply)
    && FrontWritten(s)
    && Wired(s)
    && (s.writeQueue != [] && s.active ==> s.writes != [])
    && (s.failedWrite ==> !s.active && s.writes == [] && s.writeQueue != [])
    && s.closes == (if s.active then 0 else 1)
  }

  /** At most one write is outstanding, and it is of the front of the queue. */
  ghost predicate FrontWritten(s: State) {
    && |s.writes| <= 1
    && (s.writes != [] ==> s.writeQueue != [] && s.writes[0].message == s.writeQueue[0]
                           && s.writes[0].sent <= |s.writes[0].message|)
  }

  /** The socket has seen the finished messages and the part of the front that was sent. */
  ghost predicate Wired(s: State)
    requires FrontWritten(s)
  {
    if s.writes != [] then s.wire == Concat(s.finished) + s.writes[0].message[..s.writes[0].sent]
    else if s.writeQueue == [] then s.wire == Concat(s.finished)
    else Concat(s.finished) <= s.wire <= Concat(s.finished) + s.writeQueue[0]
  }

  lemma EnqueueKeepsWriteInv(s: State, reply: Request -> bytes)
    requires WriteInv(s, reply) && s.posted != [] && s.posted[0].Enqueue? && !s.crashed
    ensures WriteInv(Apply(s, RunPosted, reply), reply)
  {
    var data := s.posted[0].data;
    var queued := Queued(s.posted[1..]);
    assert s.finished + (s.writeQueue + [data]) + queued == s.finished + s.writeQueue + ([data] + queued);
    assert data[..0] == [] && s.wire + [] == s.wire;
  }

  lemma PopKeepsWriteInv(s: State, k: nat, reply: Request -> bytes)
    requires WriteInv(s, reply) && Enabled(s, WriteDone(k))
    ensures WriteInv(Apply(s, WriteDone(k), reply), reply) && Apply(s, WriteDone(k), reply).fault == s.fault
  {
    var front := s.writeQueue[0];
    ConcatAppend(s.finished, [front]);
    assert Concat([front]) == front;
    assert front[..|front|] == front;
    assert s.finished + s.writeQueue == (s.finished + [front]) + s.writeQueue[1..];
    assert Without(s.writes, k) == [];
    assert s.writeQueue[1..] != [] ==> s.writeQueue[1..][0][..0] == [];
  }

  lemma MoveKeepsWriteInv(s: State, k: nat, n: nat, reply: Request -> bytes)
    requires WriteInv(s, reply) && Enabled(s, WriteSome(k, n))
    ensures WriteInv(Apply(s, WriteSome(k, n), reply), reply)
  {
    var w := s.writes[0];
    MoreSent(Concat(s.finished), w.message, w.sent, n);
    assert Moved(s.writes, k, n) == [Write(w.message, w.sent + n)];
  }

  lemma MoreSent(before: bytes, message: bytes, sent: nat, n: nat)
    requires sent + n <= |message|
    ensures before + message[..sent] + message[sent..sent + n] == before + message[..sent + n]
  {
  }

  lemma FailKeepsWriteInv(s: State, k: nat, reply: Request -> bytes)
    requires WriteInv(s, reply) && Enabled(s, WriteFail(k))
    ensures WriteInv(Apply(s, WriteFail(k), reply), reply)
  {
    assert Without(s.writes, k) == [];
  }

  /** A step that touches neither the write side nor the request log keeps the write invariant. */
  lemma WriteSideUntouched(s: State, t: State, reply: Request -> bytes)
    requires WriteInv(s, reply)
    requires t.finished == s.finished && t.writeQueue == s.writeQueue && t.writes == s.writes
    requires t.wire == s.wire && t.failedWrite == s.failedWrite
    requires (t.active == s.active && t.closes == s.closes) || (s.active && !t.active && t.closes == s.closes + 1)
    requires Queued(t.posted) == Queued(s.posted) && t.requests == s.requests
    ensures WriteInv(t, reply)
  {
  }

  /** Dispatching a request posts its reply last. */
  lemma DispatchKeepsWriteInv(s: State, t: State, r: Request, reply: Request -> bytes)
    requires WriteInv(s, reply)
    requires t.finished == s.finished && t.writeQueue == s.writeQueue && t.writes == s.writes
    requires t.wire == s.wire && t.failedWrite == s.failedWrite && t.active == s.active && t.closes == s.closes
    requires t.posted == s.posted + [Enqueue(reply(r)), StartRead] && t.requests == s.requests + [r]
    ensures WriteInv(t, reply)
  {
    PostedAppend(s.posted, [Enqueue(reply(r)), StartRead]);
    PostedPair(reply(r));
    assert Replies(s.requests + [r], reply) == Replies(s.requests, reply) + [reply(r)];
    assert s.finished + s.writeQueue + (Queued(s.posted) + [reply(r)]) == Replies(s.requests, reply) + [reply(r)];
  }

  lemma ReadDoneKeepsWriteInv(s: State, reply: Request -> bytes)
    requires ReadInv(s) && WriteInv(s, reply) && Enabled(s, ReadDone)
    ensures WriteInv(Apply(s, ReadDone, reply), reply)
  {
    var t := Apply(s, ReadDone, reply);
    if s.active {
      ReadDoneHandsOver(s, reply);
      var h := HandedOver(s);
      if s.phase == ReadTotalLen {
        AfterPrefix(h, s.readBuffer, reply);
        WriteSideUntouched(s, t, reply);
      } else if DecodedRequest(s.readBuffer).Ok? {
        DispatchKeepsWriteInv(s, t, DecodedRequest(s.readBuffer).value, reply);
      } else {
        WriteSideUntouched(s, t, reply);
      }
    } else {
      WriteSideUntouched(s, t, reply);
    }
  }

  lemma StartKeepsWriteInv(s: State, reply: Request -> bytes)
    requires ReadInv(s) && WriteInv(s, reply) && s.posted != [] && s.posted[0].StartRead? && !s.crashed
    ensures WriteInv(Apply(s, RunPosted, reply), reply)
  {
    WriteSideUntouched(s, Apply(s, RunPosted, reply), reply);
  }

  ghost predicate Inv(s: State, reply: Request -> bytes) {
    ReadInv(s) && WriteInv(s, reply)
  }

  lemma StepKeepsInv(s: State, step: Step, reply: Request -> bytes)
    requires Inv(s, reply) && Enabled(s, step)
    ensures Inv(Apply(s, step, reply), reply)
  {
    StepKeepsReadInv(s, step, reply);
    match step
    case RunPosted =>
      if s.posted[0].StartRead? {
        StartKeepsWriteInv(s, reply);
      } else {
        EnqueueKeepsWriteInv(s, reply);
      }
    case ReadDone => ReadDoneKeepsWriteInv(s, reply);
    case WriteDone(k) => PopKeepsWriteInv(s, k, reply);
    case WriteFail(k) => FailKeepsWriteInv(s, k, reply);
    case WriteSome(k, n) => MoveKeepsWriteInv(s, k, n, reply);
    case _ =>
  }

  // ---- runs ----

  lemma {:induction false} RunKeepsInv(s: State, steps: seq<Step>, reply: Request -> bytes)
    requires Inv(s, reply) && Enableds(s, steps, reply)
    ensures Inv(After(s, steps, reply), reply)
    decreases |steps|
  {
    if steps != [] {
      StepKeepsInv(s, steps[0], reply);
      RunKeepsInv(Apply(s, steps[0], reply), steps[1..], reply);
    }
  }

  lemma AcceptedInv(reply: Request -> bytes)
    ensures Inv(ACCEPTED, reply)
  {
    assert Starts([StartRead]) == 1 && Queued([StartRead]) == [] by {
      var p: seq<Closure> := [StartRead];
      assert p[1..] == [];
    }
  }

  /** In every reachable state: at most one posted restart or outstanding read; an outstanding read
      of an open connection started from an empty buffer and is for a prefix or a body as the
      session's state says; and an assert has been reached exactly when a prefix of 4 was read. */
  lemma SingleRead(steps: seq<Step>, reply: Request -> bytes)
    requires Enableds(ACCEPTED, steps, reply)
    ensures var s := After(ACCEPTED, steps, reply);
            && Starts(s.posted) + (if s.readOp.Reading? then 1 else 0) <= 1
            && (s.active && !s.crashed && s.readOp.Reading? ==>
                  && s.readOp.base == 0
                  && (s.phase == ReadTotalLen ==> s.readOp.want == PREFIX_SIZE && Seen(s).reader == Prefix([]))
                  && (s.phase == ReadRequest ==>
                        s.readOp.want > 0 && Seen(s).reader == Body(Capped(s.readOp.want), [])))
            && (s.fault <==> Feed(FRESH, s.consumed).reader.Stuck?)
  {
    AcceptedInv(reply);
    RunKeepsInv(ACCEPTED, steps, reply);
  }

  /** The session waits for a body. */
  predicate AwaitsBody(s: State) {
    s.active && !s.crashed && s.readOp.Reading? && s.phase == ReadRequest
  }

  /** What the last prefix led to. */
  ghost predicate Asked(s: State) {
    && (s.prefix == [] || |s.prefix| == PREFIX_SIZE)
    && (s.fault <==> s.prefix != [] && BodyLength(s.prefix) == 0)
    && (AwaitsBody(s) ==> s.prefix != [] && s.readOp.want == BodyLength(s.prefix))
    && (s.fault || AwaitsBody(s) ==>
          |s.consumed| >= PREFIX_SIZE && s.consumed[|s.consumed| - PREFIX_SIZE..] == s.prefix)
  }

  lemma PrefixKeepsAsked(s: State, reply: Request -> bytes)
    requires ReadInv(s) && Asked(s) && s.active && s.phase == ReadTotalLen && Enabled(s, ReadDone)
    ensures Asked(Apply(s, ReadDone, reply))
  {
    ReadDoneHandsOver(s, reply);
    AfterPrefix(HandedOver(s), s.readBuffer, reply);
    var consumed := s.consumed + s.readBuffer;
    assert consumed[|consumed| - PREFIX_SIZE..] == s.readBuffer;
  }

  lemma BodyKeepsAsked(s: State, reply: Request -> bytes)
    requires ReadInv(s) && Asked(s) && s.active && s.phase == ReadRequest && Enabled(s, ReadDone)
    ensures Asked(Apply(s, ReadDone, reply))
  {
    ReadDoneHandsOver(s, reply);
    BodySeen(s);
  }

  /** A step that reads nothing and issues no read for a body. */
  lemma OtherKeepsAsked(s: State, t: State)
    requires Asked(s) && t.prefix == s.prefix && t.fault == s.fault && t.consumed == s.consumed
    requires AwaitsBody(t) ==> AwaitsBody(s) && t.readOp == s.readOp
    ensures Asked(t)
  {
  }

  lemma RunPostedKeepsAsked(s: State, reply: Request -> bytes)
    requires ReadInv(s) && Asked(s) && Enabled(s, RunPosted)
    ensures Asked(Apply(s, RunPosted, reply))
  {
    OtherKeepsAsked(s, Apply(s, RunPosted, reply));
  }

  lemma StepKeepsAsked(s: State, step: Step, reply: Request -> bytes)
    requires Inv(s, reply) && Asked(s) && Enabled(s, step)
    ensures Asked(Apply(s, step, reply))
  {
    match step
    case RunPosted => RunPostedKeepsAsked(s, reply);
    case ReadDone =>
      if !s.active {
        ClosedReadKeepsAsked(s, reply);
      } else if s.phase == ReadTotalLen {
        PrefixKeepsAsked(s, reply);
      } else {
        BodyKeepsAsked(s, reply);
      }
    case ReadFail => LostReadKeepsAsked(s, reply);
    case Deliver(chunk) => DeliverKeepsAsked(s, chunk, reply);
    case WriteDone(k) => PopKeepsAsked(s, k, reply);
    case _ => WriteKeepsAsked(s, step, reply);
  }

  lemma ClosedReadKeepsAsked(s: State, reply: Request -> bytes)
    requires Asked(s) && !s.active && Enabled(s, ReadDone)
    ensures Asked(Apply(s, ReadDone, reply))
  {
    OtherKeepsAsked(s, s.(readOp := NoRead));
  }

  lemma LostReadKeepsAsked(s: State, reply: Request -> bytes)
    requires Asked(s) && Enabled(s, ReadFail)
    ensures Asked(Apply(s, ReadFail, reply))
  {
    OtherKeepsAsked(s, Apply(s, ReadFail, reply));
  }

  lemma PopKeepsAsked(s: State, k: nat, reply: Request -> bytes)
    requires FrontWritten(s) && Asked(s) && Enabled(s, WriteDone(k))
    ensures Asked(Apply(s, WriteDone(k), reply))
  {
    OtherKeepsAsked(s, Apply(s, WriteDone(k), reply));
  }

  lemma DeliverKeepsAsked(s: State, chunk: bytes, reply: Request -> bytes)
    requires Asked(s) && Enabled(s, Deliver(chunk))
    ensures Asked(Apply(s, Deliver(chunk), reply))
  {
    OtherKeepsAsked(s, Apply(s, Deliver(chunk), reply));
  }

  lemma WriteKeepsAsked(s: State, step: Step, reply: Request -> bytes)
    requires Asked(s) && Enabled(s, step) && (step.WriteSome? || step.WriteFail? || step.Timeout?)
    ensures Asked(Apply(s, step, reply))
  {
    OtherKeepsAsked(s, Apply(s, step, reply));
  }

  lemma {:induction false} RunKeepsAsked(s: State, steps: seq<Step>, reply: Request -> bytes)
    requires Inv(s, reply) && Asked(s) && Enableds(s, steps, reply)
    ensures Asked(After(s, steps, reply))
    decreases |steps|
  {
    if steps != [] {
      StepKeepsInv(s, steps[0], reply);
      StepKeepsAsked(s, steps[0], reply);
      RunKeepsAsked(Apply(s, steps[0], reply), steps[1..], reply);
    }
  }

  /** What the number that the last prefix spells has decided. */
  ghost predicate Decided(s: State) {
    && (s.prefix == [] || |s.prefix| == 4)
    && (s.fault <==> s.prefix != [] && U32(s.prefix) == 4)
    && (AwaitsBody(s) ==>
          && s.prefix != [] && U32(s.prefix) != 4
          && (U32(s.prefix) > 4 ==> s.readOp.want == U32(s.prefix) - 4)
          && (U32(s.prefix) < 4 ==> s.readOp.want > 4096))
    && (s.fault || AwaitsBody(s) ==> |s.consumed| >= 4 && s.consumed[|s.consumed| - 4..] == s.prefix)
  }

  /** In every reachable state, with the number the last prefix spells: an assert has been reached if and
      only if it is 4; an outstanding body read asks for four bytes less than it, and for more than the
      buffer holds if it is below 4. The prefix is then the last thing the session was handed. */
  lemma PrefixDecides(steps: seq<Step>, reply: Request -> bytes)
    requires Enableds(ACCEPTED, steps, reply)
    ensures Decided(After(ACCEPTED, steps, reply))
  {
    AcceptedInv(reply);
    RunKeepsInv(ACCEPTED, steps, reply);
    RunKeepsAsked(ACCEPTED, steps, reply);
    AskedMeans(After(ACCEPTED, steps, reply));
  }

  lemma AskedMeans(s: State)
    requires ReadInv(s) && Asked(s)
    ensures Decided(s)
  {
    if s.prefix != [] {
      BodyLengthIs(s.prefix);
    }
  }

  /** What a session has dispatched depends only on the bytes handed to it, not on their chunks, nor
      on when closures ran, writes finished or the timer fired. */
  lemma ChunksDoNotMatter(one: seq<Step>, other: seq<Step>, reply: Request -> bytes)
    requires Enableds(ACCEPTED, one, reply) && Enableds(ACCEPTED, other, reply)
    requires After(ACCEPTED, one, reply).consumed == After(ACCEPTED, other, reply).consumed
    ensures var s, t := After(ACCEPTED, one, reply), After(ACCEPTED, other, reply);
            s.requests == t.requests && s.fault == t.fault && s.crashed == t.crashed
  {
    AcceptedInv(reply);
    RunKeepsInv(ACCEPTED, one, reply);
    RunKeepsInv(ACCEPTED, other, reply);
    DecodesOnce(After(ACCEPTED, one, reply), After(ACCEPTED, other, reply));
  }

  lemma DecodesOnce(s: State, t: State)
    requires Delivered(s) && Delivered(t) && Seen(s).bodies == Seen(t).bodies
    ensures s.requests == t.requests && s.crashed == t.crashed
  {
    var bodies := Seen(s).bodies;
    assert |s.requests| == |t.requests|;
    forall i | 0 <= i < |s.requests| ensures s.requests[i] == t.requests[i] {
      assert DecodedRequest(bodies[i]) == Ok(s.requests[i]) && DecodedRequest(bodies[i]) == Ok(t.requests[i]);
    }
  }

  /** What the socket carries back is, at any moment, a prefix of the replies in dispatch order; of the
      writes started at most one is outstanding, and it is of the front of the queue. */
  lemma RepliesInOrder(steps: seq<Step>, reply: Request -> bytes)
    requires Enableds(ACCEPTED, steps, reply)
    ensures var s := After(ACCEPTED, steps, reply);
            && s.wire <= Concat(Replies(s.requests, reply))
            && |s.writes| <= 1
            && (s.writes != [] ==> s.writeQueue != [] && s.writes[0].message == s.writeQueue[0])
  {
    AcceptedInv(reply);
    RunKeepsInv(ACCEPTED, steps, reply);
    WireIsPrefix(After(ACCEPTED, steps, reply), reply);
  }

  lemma WireIsPrefix(s: State, reply: Request -> bytes)
    requires WriteInv(s, reply)
    ensures s.wire <= Concat(Replies(s.requests, reply))
  {
    var rest := s.writeQueue + Queued(s.posted);
    assert s.finished + rest == Replies(s.requests, reply);
    ConcatAppend(s.finished, rest);
    if s.writeQueue != [] {
      assert rest[0] == s.writeQueue[0] && Concat(rest) == rest[0] + Concat(rest[1..]);
    }
  }

  lemma ClosedStep(s: State, step: Step, reply: Request -> bytes)
    requires Inv(s, reply) && !s.active && Enabled(s, step)
    ensures var t := Apply(s, step, reply);
            && Inv(t, reply) && !t.active && t.closes == s.closes && t.requests == s.requests
            && t.taken == s.taken && t.consumed == s.consumed && t.finished == s.finished && t.wire == s.wire
  {
    StepKeepsInv(s, step, reply);
  }

  /** Once closed, a connection stays closed, announces nothing more, dispatches nothing more and puts
      nothing more on the wire, whatever is still outstanding. */
  lemma {:induction false} ClosedIsFinal(s: State, steps: seq<Step>, reply: Request -> bytes)
    requires Inv(s, reply) && !s.active && Enableds(s, steps, reply)
    ensures var t := After(s, steps, reply);
            && !t.active && t.closes == s.closes == 1
            && t.requests == s.requests && t.taken == s.taken && t.consumed == s.consumed
            && t.finished == s.finished && t.wire == s.wire
    decreases |steps|
  {
    if steps != [] {
      ClosedStep(s, steps[0], reply);
      ClosedIsFinal(Apply(s, steps[0], reply), steps[1..], reply);
    }
  }

  /** The close callback runs at most once in any run, and has run exactly when the state is closed. */
  lemma AnnouncedOnce(steps: seq<Step>, reply: Request -> bytes)
    requires Enableds(ACCEPTED, steps, reply)
    ensures After(ACCEPTED, steps, reply).closes == if After(ACCEPTED, steps, reply).active then 0 else 1
  {
    AcceptedInv(reply);
    RunKeepsInv(ACCEPTED, steps, reply);
  }

  /** After a failed write no later message starts. */
  lemma {:induction false} NoWriteAfterFailure(s: State, steps: seq<Step>, reply: Request -> bytes)
    requires Inv(s, reply) && s.failedWrite && Enableds(s, steps, reply)
    ensures After(s, steps, reply).writes == [] && After(s, steps, reply).wire == s.wire
    decreases |steps|
  {
    if steps != [] {
      StepKeepsInv(s, steps[0], reply);
      NoWriteAfterFailure(Apply(s, steps[0], reply), steps[1..], reply);
    }
  }

  // ---- what is posted ----

  /** A reply and a restart, what is left of them, or nothing. */
  predicate PostedInTurn(posted: seq<Closure>) {
    || posted == []
    || posted == [StartRead]
    || (|posted| == 2 && posted[0].Enqueue? && posted[1] == StartRead)
  }

  lemma NoneWhileReading(s: State)
    requires ReadInv(s) && PostedInTurn(s.posted) && s.readOp.Reading?
    ensures s.posted == []
  {
    StartsInTurn(s.posted);
  }

  lemma StartsInTurn(posted: seq<Closure>)
    requires PostedInTurn(posted)
    ensures Starts(posted) == if posted == [] then 0 else 1
  {
    if |posted| == 2 {
      assert posted == [Enqueue(posted[0].data), StartRead];
      PostedPair(posted[0].data);
    }
  }

  lemma ReadDonePostsInTurn(s: State, reply: Request -> bytes)
    requires ReadInv(s) && PostedInTurn(s.posted) && Enabled(s, ReadDone)
    ensures PostedInTurn(Apply(s, ReadDone, reply).posted)
  {
    NoneWhileReading(s);
    if s.active {
      ReadDoneHandsOver(s, reply);
      if s.phase == ReadTotalLen {
        AfterPrefix(HandedOver(s), s.readBuffer, reply);
      }
    }
  }

  lemma RunPostedInTurn(s: State, reply: Request -> bytes)
    requires ReadInv(s) && PostedInTurn(s.posted) && Enabled(s, RunPosted)
    ensures PostedInTurn(Apply(s, RunPosted, reply).posted)
  {
    if s.posted[0].StartRead? {
      StartTokenFree(s);
    }
  }

  lemma StartTokenFree(s: State)
    requires ReadInv(s) && s.posted != [] && s.posted[0].StartRead?
    ensures !s.isReading && s.readBuffer == []
  {
  }

  lemma StepPostsInTurn(s: State, step: Step, reply: Request -> bytes)
    requires ReadInv(s) && PostedInTurn(s.posted) && Enabled(s, step)
    ensures PostedInTurn(Apply(s, step, reply).posted)
  {
    if step.ReadDone? {
      ReadDonePostsInTurn(s, reply);
    } else if step.RunPosted? {
      RunPostedInTurn(s, reply);
    }
  }

  lemma {:induction false} RunPostsInTurn(s: State, steps: seq<Step>, reply: Request -> bytes)
    requires Inv(s, reply) && PostedInTurn(s.posted) && Enableds(s, steps, reply)
    ensures PostedInTurn(After(s, steps, reply).posted)
    decreases |steps|
  {
    if steps != [] {
      StepKeepsInv(s, steps[0], reply);
      StepPostsInTurn(s, steps[0], reply);
      RunPostsInTurn(Apply(s, steps[0], reply), steps[1..], reply);
    }
  }

  /** In every reachable state at most one reply is posted, in front of the restart that follows it; so when
      the next read is issued every request dispatched so far has its reply in the write queue or done. */
  lemma AnsweredBeforeNextRead(steps: seq<Step>, reply: Request -> bytes)
    requires Enableds(ACCEPTED, steps, reply)
    ensures var s := After(ACCEPTED, steps, reply);
            && PostedInTurn(s.posted)
            && (s.readOp.Reading? ==> s.posted == [] && s.finished + s.writeQueue == Replies(s.requests, reply))
  {
    AcceptedInv(reply);
    RunKeepsInv(ACCEPTED, steps, reply);
    RunPostsInTurn(ACCEPTED, steps, reply);
    var s := After(ACCEPTED, steps, reply);
    if s.readOp.Reading? {
      NoneWhileReading(s);
      AllQueued(s, reply);
    }
  }

  lemma AllQueued(s: State, reply: Request -> bytes)
    requires WriteInv(s, reply) && s.posted == []
    ensures s.finished + s.writeQueue == Replies(s.requests, reply)
  {
    assert s.finished + s.writeQueue + [] == s.finished + s.writeQueue;
  }

  // ---- what closes a connection ----

  ghost predicate Failing(step: Step) {
    step.ReadFail? || step.WriteFail? || step.Timeout?
  }

  /** A failed read, a failed write and the timer each close the connection. */
  lemma FailureClosesAt(s: State, step: Step, reply: Request -> bytes)
    requires Enabled(s, step) && Failing(step)
    ensures !Apply(s, step, reply).active
  {
  }

  /** In any run that contains one of them the connection ends up closed. */
  lemma {:induction false} FailureCloses(s: State, steps: seq<Step>, i: nat, reply: Request -> bytes)
    requires Inv(s, reply) && Enableds(s, steps, reply) && i < |steps| && Failing(steps[i])
    ensures !After(s, steps, reply).active
    decreases |steps|
  {
    var t := Apply(s, steps[0], reply);
    StepKeepsInv(s, steps[0], reply);
    if i == 0 {
      FailureClosesAt(s, steps[0], reply);
      ClosedIsFinal(t, steps[1..], reply);
    } else {
      FailureCloses(t, steps[1..], i - 1, reply);
    }
  }

  /** In every reachable state in which the connection is open and nothing was thrown, every complete frame
      handed over has decoded, and what it decoded to has been dispatched: a frame that does not decode
      closes the connection. */
  lemma OpenMeansAllDecoded(steps: seq<Step>, reply: Request -> bytes)
    requires Enableds(ACCEPTED, steps, reply)
    ensures var s := After(ACCEPTED, steps, reply);
            var bodies := Seen(s).bodies;
            s.active && !s.crashed ==>
              && |s.requests| == |bodies|
              && forall i :: 0 <= i < |bodies| ==> DecodedRequest(bodies[i]) == Ok(s.requests[i])
  {
    AcceptedInv(reply);
    RunKeepsInv(ACCEPTED, steps, reply);
  }

  // ---- exceptions ----

  /** A body whose length fields pass the check and send substr outside it. */
  predicate Throwing(body: bytes) {
    RequestChecked(body) && RequestOutside(body)
  }

  /** In every reachable state: an exception has left a handler if and only if the last complete frame
      handed over is such a body. */
  lemma CrashedIff(steps: seq<Step>, reply: Request -> bytes)
    requires Enableds(ACCEPTED, steps, reply)
    ensures var s := After(ACCEPTED, steps, reply);
            var bodies := Seen(s).bodies;
            s.crashed <==> bodies != [] && Throwing(bodies[|bodies| - 1])
  {
    AcceptedInv(reply);
    RunKeepsInv(ACCEPTED, steps, reply);
    CrashMeans(After(ACCEPTED, steps, reply));
  }

  lemma CrashMeans(s: State)
    requires Delivered(s)
    ensures var bodies := Seen(s).bodies;
            s.crashed <==> bodies != [] && Throwing(bodies[|bodies| - 1])
  {
    LastDecides(Seen(s).bodies, s.requests);
  }

  lemma LastDecides(bodies: seq<bytes>, requests: seq<Request>)
    requires Decodes(bodies, requests) && |bodies| <= |requests| + 1
    ensures |bodies| == |requests| + 1 && Last(bodies).OutOfRange?
            <==> bodies != [] && Throwing(bodies[|bodies| - 1]) && |bodies| == |requests| + 1
    ensures bodies != [] && Throwing(bodies[|bodies| - 1]) ==> |bodies| == |requests| + 1
  {
    if bodies != [] {
      RequestThrowsIff(bodies[|bodies| - 1]);
    }
  }

  /** The read of a whole frame by an accepted session. */
  function FrameRead(body: bytes): seq<Step>
    requires Readable(body)
  {
    [RunPosted, Deliver(LE32(|body| + 4)), ReadDone, Deliver(body), ReadDone]
  }

  /** An accepted session that has asked for a prefix, has it, has asked for the body, and has that. */
  function PrefixAsked(): State {
    ACCEPTED.(posted := [], isReading := true, readOp := Reading(0, PREFIX_SIZE))
  }

  function PrefixHere(prefix: bytes): State {
    PrefixAsked().(readBuffer := prefix, taken := prefix)
  }

  function BodyAsked(prefix: bytes, n: nat): State {
    PrefixAsked().(readOp := Reading(0, n), phase := ReadRequest, taken := prefix, consumed := prefix,
                   prefix := prefix)
  }

  function BodyHere(prefix: bytes, body: bytes): State {
    BodyAsked(prefix, |body|).(readBuffer := body, taken := prefix + body)
  }

  lemma AsksForBody(prefix: bytes, n: nat, reply: Request -> bytes)
    requires |prefix| == PREFIX_SIZE && BodyLength(prefix) == n > 0
    ensures Enabled(PrefixHere(prefix), ReadDone)
    ensures Apply(PrefixHere(prefix), ReadDone, reply) == BodyAsked(prefix, n)
  {
    var s := PrefixHere(prefix);
    ReadDoneHandsOver(s, reply);
    AfterPrefix(HandedOver(s), prefix, reply);
    assert HandedOver(s).consumed == prefix;
  }

  lemma ThrowsAtBody(prefix: bytes, body: bytes, reply: Request -> bytes)
    requires Throwing(body)
    ensures Enabled(BodyHere(prefix, body), ReadDone)
    ensures Apply(BodyHere(prefix, body), ReadDone, reply) == HandedOver(BodyHere(prefix, body)).(crashed := true)
  {
    ReadDoneHandsOver(BodyHere(prefix, body), reply);
    RequestThrowsIff(body);
  }

  /** Any such body, sent as the first frame, throws out of the handler. */
  lemma ThrowingBodyCrashes(body: bytes, reply: Request -> bytes)
    requires Throwing(body)
    ensures Readable(body) && Enableds(ACCEPTED, FrameRead(body), reply)
    ensures var s := After(ACCEPTED, FrameRead(body), reply); s.crashed && s.requests == []
  {
    PrefixAnnounces(|body|);
    FrameThrows(LE32(|body| + 4), body, reply);
  }

  lemma FrameThrows(prefix: bytes, body: bytes, reply: Request -> bytes)
    requires |prefix| == PREFIX_SIZE && BodyLength(prefix) == |body| && Throwing(body)
    ensures var steps := [RunPosted, Deliver(prefix), ReadDone, Deliver(body), ReadDone];
            && Enableds(ACCEPTED, steps, reply)
            && After(ACCEPTED, steps, reply).crashed && After(ACCEPTED, steps, reply).requests == []
  {
    var steps := [RunPosted, Deliver(prefix), ReadDone, Deliver(body), ReadDone];
    AsksForPrefix(reply);
    DeliversAll(PrefixAsked(), prefix, PrefixHere(prefix), reply);
    AsksForBody(prefix, |body|, reply);
    DeliversAll(BodyAsked(prefix, |body|), body, BodyHere(prefix, body), reply);
    ThrowsAtBody(prefix, body, reply);
    FiveSteps(ACCEPTED, steps, PrefixAsked(), PrefixHere(prefix), BodyAsked(prefix, |body|),
              BodyHere(prefix, body), reply);
  }

  lemma AsksForPrefix(reply: Request -> bytes)
    ensures Enabled(ACCEPTED, RunPosted) && Apply(ACCEPTED, RunPosted, reply) == PrefixAsked()
  {
  }

  lemma DeliversAll(s: State, chunk: bytes, t: State, reply: Request -> bytes)
    requires s.active && !s.crashed && s.readBuffer == [] && s.readOp == Reading(0, |chunk|)
    requires 0 < |chunk| <= BUFFER_SIZE && t == s.(readBuffer := chunk, taken := s.taken + chunk)
    ensures Enabled(s, Deliver(chunk)) && Apply(s, Deliver(chunk), reply) == t
  {
    assert [] + chunk == chunk;
  }

  lemma FiveSteps(s: State, steps: seq<Step>, s1: State, s2: State, s3: State, s4: State, reply: Request -> bytes)
    requires |steps| == 5 && Enabled(s, steps[0]) && s1 == Apply(s, steps[0], reply)
    requires Enabled(s1, steps[1]) && s2 == Apply(s1, steps[1], reply)
    requires Enabled(s2, steps[2]) && s3 == Apply(s2, steps[2], reply)
    requires Enabled(s3, steps[3]) && s4 == Apply(s3, steps[3], reply) && Enabled(s4, steps[4])
    ensures Enableds(s, steps, reply) && After(s, steps, reply) == Apply(s4, steps[4], reply)
  {
    OneStep(s4, steps[4..], reply);
    FirstStep(s3, steps[3..], s4, reply);
    FirstStep(s2, steps[2..], s3, reply);
    FirstStep(s1, steps[1..], s2, reply);
    FirstStep(s, steps, s1, reply);
  }

  lemma OneStep(s: State, steps: seq<Step>, reply: Request -> bytes)
    requires |steps| == 1 && Enabled(s, steps[0])
    ensures Enableds(s, steps, reply) && After(s, steps, reply) == Apply(s, steps[0], reply)
  {
    assert |steps[1..]| == 0;
  }

  lemma FirstStep(s: State, steps: seq<Step>, t: State, reply: Request -> bytes)
    requires steps != [] && Enabled(s, steps[0]) && t == Apply(s, steps[0], reply) && Enableds(t, steps[1..], reply)
    ensures Enableds(s, steps, reply) && After(s, steps, reply) == After(t, steps[1..], reply)
  {
  }

  /** Such bodies exist: three length fields are enough. */
  lemma TwelveBytesCrash(reply: Request -> bytes)
    ensures var body: bytes := LE32(-13) + LE32(13) + LE32(0) + [];
            && Throwing(body) && Enableds(ACCEPTED, FrameRead(body), reply)
            && After(ACCEPTED, FrameRead(body), reply).crashed
  {
    var body: bytes := LE32(-13) + LE32(13) + LE32(0) + [];
    ThrowingRequest();
    RequestThrowsIff(body);
    ThrowingBodyCrashes(body, reply);
  }

  // ---- streams of encoded requests ----

  ghost predicate Sendable(requests: seq<Request>) {
    forall i :: 0 <= i < |requests| ==> 12 + requests[i].Size() <= MAX_REQUEST_SIZE
  }

  ghost function Bodies(requests: seq<Request>): (bodies: seq<bytes>)
    requires Sendable(requests)
    ensures |bodies| == |requests| && AllReadable(bodies)
    ensures forall i :: 0 <= i < |requests| ==> bodies[i] == RequestBody(requests[i])
  {
    seq(|requests|, i requires 0 <= i < |requests| => RequestBody(requests[i]))
  }

  /** While the peer has sent no more than part of a stream of encoded requests, the session has
      dispatched a prefix of them, has met no assert and no exception; and all of them once it has
      been handed the whole stream. */
  lemma StreamDelivered(steps: seq<Step>, sent: seq<Request>, reply: Request -> bytes)
    requires Enableds(ACCEPTED, steps, reply) && Sendable(sent)
    requires After(ACCEPTED, steps, reply).taken <= Stream(Bodies(sent))
    ensures var s := After(ACCEPTED, steps, reply);
            && s.requests <= sent && !s.fault && !s.crashed
            && (s.consumed == Stream(Bodies(sent)) ==> s.requests == sent)
  {
    AcceptedInv(reply);
    RunKeepsInv(ACCEPTED, steps, reply);
    DeliversSent(After(ACCEPTED, steps, reply), sent);
  }

  lemma DeliversSent(s: State, sent: seq<Request>)
    requires ReadInv(s) && Sendable(sent) && s.taken <= Stream(Bodies(sent))
    ensures s.requests <= sent && !s.fault && !s.crashed && |Seen(s).bodies| == |s.requests|
    ensures s.consumed == Stream(Bodies(sent)) ==> s.requests == sent
  {
    var bodies := Bodies(sent);
    assert s.consumed <= s.taken <= Stream(bodies);
    FedFresh(bodies, s.consumed);
    DecodedPrefix(Seen(s).bodies, sent, s.requests);
  }

  /** FeedStream from the start. */
  lemma FedFresh(bodies: seq<bytes>, s: bytes)
    requires AllReadable(bodies) && s <= Stream(bodies)
    ensures var v := Feed(FRESH, s);
            !v.reader.Stuck? && v.bodies <= bodies && (s == Stream(bodies) ==> v == View(bodies, Prefix([])))
  {
    FeedStream([], bodies, s);
    var none: seq<bytes> := [];
    assert none + bodies == bodies;
  }

  /** Frames that are the first encodings of a list decode to its first elements. */
  lemma DecodedPrefix(bodies: seq<bytes>, sent: seq<Request>, requests: seq<Request>)
    requires Sendable(sent) && bodies <= Bodies(sent) && Decodes(bodies, requests)
    requires |bodies| <= |requests| + 1 && (|bodies| == |requests| + 1 ==> !Last(bodies).Ok?)
    ensures |bodies| == |requests| && requests <= sent
  {
    forall i | 0 <= i < |bodies| ensures DecodedRequest(bodies[i]) == Ok(sent[i]) {
      RequestRoundTrip(sent[i]);
    }
  }

  /** Two lists of requests with the same encoding are the same. */
  lemma EncodingInjective(a: seq<Request>, b: seq<Request>)
    requires Sendable(a) && Sendable(b) && Stream(Bodies(a)) == Stream(Bodies(b))
    ensures a == b
  {
    StreamInjective(Bodies(a), Bodies(b));
    forall i | 0 <= i < |a| ensures a[i] == b[i] {
      RequestRoundTrip(a[i]);
      RequestRoundTrip(b[i]);
    }
  }
}
