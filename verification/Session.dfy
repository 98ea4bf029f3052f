/** One accepted connection of the RPC server: AsyncConnection, PbSession and the PbServer callbacks
    wired to it, as a state machine over the handlers its io_context runs.

    Every handler is a function on states. The environment delivers bytes in any chunks, completes
    or fails the outstanding read and write, runs posted closures in order, and fires the timer. */
module Session {
  import opened Bytes
  import opened PbCoder
  import opened Frames

  /** What `asio::post` has queued: PbSession::Start's read, or AsyncWrite's enqueue. */
  datatype Closure = StartRead | Enqueue(data: bytes)

  /** The outstanding async_read: the bytes buffered when it was issued, and how many it asked for. */
  datatype ReadOp = NoRead | Reading(base: nat, want: nat)

  /** An outstanding async_write: the message it was started with, and how much of it is on the wire. */
  datatype Write = Write(message: bytes, sent: nat)

  datatype Phase = ReadTotalLen | ReadRequest

  datatype State = State(
    active: bool,               // state_ is kActived
    isReading: bool,            // is_reading_
    readBuffer: bytes,          // read_buffer_
    readOp: ReadOp,
    phase: Phase,               // PbSession::state_
    posted: seq<Closure>,       // closures posted and not yet run
    writeQueue: seq<bytes>,     // write_queue_
    writes: seq<Write>,         // every async_write started and not yet completed
    fault: bool,                // an assert was reached, or an empty queue was popped
    crashed: bool,              // an exception left a handler
    // what has happened so far
    taken: bytes,               // bytes async_read took from the socket
    consumed: bytes,            // bytes handed to the session by OnRead
    prefix: bytes,              // the last prefix handed to it, none at first
    requests: seq<Request>,     // requests handed to the dispatcher
    finished: seq<bytes>,       // messages popped from the write queue
    wire: bytes,                // bytes put on the socket
    failedWrite: bool,          // a write completed with an error
    closes: nat                 // runs of the close callback
  )

  /** A connection just accepted: its session's Start has posted the first read. */
  const ACCEPTED: State := State(true, false, [], NoRead, ReadTotalLen, [StartRead], [], [], false, false,
                                 [], [], [], [], [], [], false, 0)

  // ---- handlers ----

  function Close(s: State): State {
    if s.active then s.(active := false, closes := s.closes + 1) else s
  }

  /** AsyncReadLen. A buffer that already holds enough delivers at once, inside the call. */
  function AsyncReadLen(s: State, n: nat, reply: Request -> bytes): State
    decreases |s.readBuffer|, 2
  {
    if s.isReading then s.(fault := true)
    else if |s.readBuffer| >= n then OnReadOk(s.(isReading := true), n, reply)
    else s.(isReading := true, readOp := Reading(|s.readBuffer|, n - |s.readBuffer|))
  }

  /** AsyncConnection::OnRead without an error. */
  function OnReadOk(s: State, n: nat, reply: Request -> bytes): State
    requires n <= |s.readBuffer|
    decreases |s.readBuffer|, 1
  {
    if !s.active then s
    else OnRequest(s.(readBuffer := s.readBuffer[n..], consumed := s.consumed + s.readBuffer[..n], isReading := false),
                   s.readBuffer[..n], reply)
  }

  /** AsyncConnection::OnRead with an error: the session passes it on and the server closes. */
  function OnReadError(s: State): State {
    if !s.active then s else Close(s.(isReading := false))
  }

  /** PbServer::OnSessionRead without an error: a request is dispatched, its response posted for
      writing and the next read posted behind it; the null pointer closes. */
  function OnSessionRead(s: State, request: Decoded<Request>, reply: Request -> bytes): State {
    if request.Ok?
    then s.(requests := s.requests + [request.value], posted := s.posted + [Enqueue(reply(request.value)), StartRead])
    else Close(s)
  }

  /** PbSession::OnRequest: the two-state framing machine. */
  function OnRequest(s: State, data: bytes, reply: Request -> bytes): State
    decreases |s.readBuffer| + |data|, 0
  {
    match s.phase
    case ReadTotalLen =>
      if |data| != PREFIX_SIZE then s.(fault := true)
      else AsyncReadLen(s.(prefix := data), BodyLength(data), reply).(phase := ReadRequest)
    case ReadRequest =>
      var request := DecodedRequest(data);
      if request.OutOfRange? then s.(crashed := true)
      else OnSessionRead(s, request, reply).(phase := ReadTotalLen)
  }

  /** DoWrite: starts writing the front of the queue, whatever is being written already. */
  function DoWrite(s: State): State
    requires s.writeQueue != []
  {
    s.(writes := s.writes + [Write(s.writeQueue[0], 0)])
  }

  function Run(s: State, c: Closure, reply: Request -> bytes): State {
    match c
    case StartRead => AsyncReadLen(s, PREFIX_SIZE, reply)
    case Enqueue(data) =>
      var queued := s.(writeQueue := s.writeQueue + [data]);
      if s.writeQueue == [] then DoWrite(queued) else queued
  }

  /** The completion of a write, and OnSessionWrite: an error closes, success goes on to the next. */
  function OnWrite(s: State, ok: bool): State {
    if !s.active then s
    else if !ok then Close(s)
    else if s.writeQueue == [] then s.(fault := true)
    else
      var popped := s.(finished := s.finished + [s.writeQueue[0]], writeQueue := s.writeQueue[1..]);
      if popped.writeQueue == [] then popped else DoWrite(popped)
  }

  // ---- steps ----

  datatype Step =
    | RunPosted
    | Deliver(chunk: bytes)
    | ReadDone
    | ReadFail
    | WriteSome(k: nat, n: nat)  // the k-th outstanding write moves n bytes
    | WriteDone(k: nat)
    | WriteFail(k: nat)
    | Timeout

  function Got(s: State): int
    requires s.readOp.Reading?
  {
    |s.readBuffer| - s.readOp.base
  }

  /** Which steps can happen. A read takes no more than it asked for and no more than the buffer
      holds, and is complete when either is reached; a closed socket moves no bytes. */
  predicate Enabled(s: State, step: Step) {
    && !s.crashed
    && match step
       case RunPosted => s.posted != []
       case Deliver(chunk) => s.readOp.Reading? && s.active && chunk != []
                              && Got(s) + |chunk| <= s.readOp.want && |s.readBuffer| + |chunk| <= BUFFER_SIZE
       case ReadDone => s.readOp.Reading? && (Got(s) == s.readOp.want || |s.readBuffer| == BUFFER_SIZE)
       case ReadFail => s.readOp.Reading?
       case WriteSome(k, n) => s.active && k < |s.writes| && 0 < n <= |s.writes[k].message| - s.writes[k].sent
       case WriteDone(k) => k < |s.writes| && s.writes[k].sent == |s.writes[k].message|
       case WriteFail(k) => k < |s.writes|
       case Timeout => true
  }

  /** The bytes a step puts on the socket. */
  function Output(s: State, step: Step): bytes
    requires Enabled(s, step)
  {
    if step.WriteSome? then
      var w := s.writes[step.k];
      w.message[w.sent..w.sent + step.n]
    else []
  }

  /** The k-th outstanding write has moved n more bytes. */
  function Moved(writes: seq<Write>, k: nat, n: nat): seq<Write>
    requires k < |writes|
  {
    writes[k := writes[k].(sent := writes[k].sent + n)]
  }

  function Without(writes: seq<Write>, k: nat): seq<Write>
    requires k < |writes|
  {
    writes[..k] + writes[k + 1..]
  }

  function Apply(s: State, step: Step, reply: Request -> bytes): State
    requires Enabled(s, step)
  {
    match step
    case RunPosted => Run(s.(posted := s.posted[1..]), s.posted[0], reply)
    case Deliver(chunk) => s.(readBuffer := s.readBuffer + chunk, taken := s.taken + chunk)
    case ReadDone => OnReadOk(s.(readOp := NoRead), |s.readBuffer|, reply)
    case ReadFail => OnReadError(s.(readOp := NoRead))
    case WriteSome(k, n) => s.(wire := s.wire + Output(s, step), writes := Moved(s.writes, k, n))
    case WriteDone(k) => OnWrite(s.(writes := Without(s.writes, k)), true)
    case WriteFail(k) => OnWrite(s.(writes := Without(s.writes, k), failedWrite := true), false)
    case Timeout => Close(s)
  }

  ghost predicate Enableds(s: State, steps: seq<Step>, reply: Request -> bytes)
    decreases |steps|
  {
    steps != [] ==> Enabled(s, steps[0]) && Enableds(Apply(s, steps[0], reply), steps[1..], reply)
  }

  /** The state after a run. */
  ghost function After(s: State, steps: seq<Step>, reply: Request -> bytes): State
    requires Enableds(s, steps, reply)
    decreases |steps|
  {
    if steps == [] then s else After(Apply(s, steps[0], reply), steps[1..], reply)
  }
}
