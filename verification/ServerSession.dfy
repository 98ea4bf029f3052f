/** A session of the RPC server as it is programmed: handlers that update the connection's fields. */
module ServerSession {
  import opened Bytes
  import opened PbCoder
  import opened Frames
  import Session

  class ServerSession {
    var active: bool
    var isReading: bool
    var readBuffer: bytes
    var readOp: Session.ReadOp
    var phase: Session.Phase
    var posted: seq<Session.Closure>
    var writeQueue: seq<bytes>
    var writes: seq<Session.Write>
    var fault: bool
    var crashed: bool
    ghost var taken: bytes
    ghost var consumed: bytes
    ghost var prefix: bytes
    ghost var requests: seq<Request>
    ghost var finished: seq<bytes>
    ghost var wire: bytes
    ghost var failedWrite: bool
    ghost var closes: nat
    const reply: Request -> bytes  // the encoded response to a request

    ghost function State(): Session.State
      reads this
    {
      Session.State(active, isReading, readBuffer, readOp, phase, posted, writeQueue, writes, fault, crashed,
                    taken, consumed, prefix, requests, finished, wire, failedWrite, closes)
    }

    /** An accepted connection, wired by the server's accept callback, whose Start has run. */
    constructor (reply: Request -> bytes)
      ensures State() == Session.ACCEPTED && this.reply == reply
    {
      active, isReading, readBuffer, readOp := true, false, [], Session.NoRead;
      phase, posted, writeQueue, writes := Session.ReadTotalLen, [], [], [];
      fault, crashed := false, false;
      taken, consumed, prefix, requests := [], [], [], [];
      finished, wire, failedWrite, closes := [], [], false, 0;
      this.reply := reply;
      new;
      Start();
      assert [] + [Session.StartRead] == [Session.StartRead];
    }

    method Start()
      modifies this`posted
      ensures posted == old(posted) + [Session.StartRead]
    {
      posted := posted + [Session.StartRead];
    }

    method AsyncWrite(data: bytes)
      modifies this`posted
      ensures posted == old(posted) + [Session.Enqueue(data)]
    {
      posted := posted + [Session.Enqueue(data)];
    }

    method Close()
      modifies this
      ensures State() == Session.Close(old(State()))
    {
      if active {
        active := false;
        closes := closes + 1;
      }
    }

    method AsyncReadLen(n: nat)
      modifies this
      ensures State() == Session.AsyncReadLen(old(State()), n, reply)
      decreases |readBuffer|, 3
    {
      if !isReading {
        isReading := true;
        var readable := |readBuffer|;
        if readable >= n {
          OnReadOk(n);
          return;
        }
        readOp := Session.Reading(readable, n - readable);
      } else {
        fault := true;
      }
    }

    method OnReadOk(n: nat)
      requires n <= |readBuffer|
      modifies this
      ensures State() == Session.OnReadOk(old(State()), n, reply)
      decreases |readBuffer|, 2
    {
      if active {
        var data := readBuffer[..n];
        readBuffer, consumed := readBuffer[n..], consumed + data;
        isReading := false;
        OnRequest(data);
      }
    }

    method OnReadError()
      modifies this
      ensures State() == Session.OnReadError(old(State()))
    {
      if active {
        isReading := false;
        Close();
      }
    }

    /** The session's two-state machine. */
    method OnRequest(data: bytes)
      modifies this
      ensures State() == Session.OnRequest(old(State()), data, reply)
      decreases |readBuffer| + |data|, 1
    {
      if phase == Session.ReadTotalLen {
        OnTotalLen(data);
      } else {
        var decoded := DecodeRequest(data);
        if decoded.OutOfRange? {
          crashed := true;
          return;
        }
        OnSessionRead(decoded);
        phase := Session.ReadTotalLen;
      }
    }

    /** A prefix, which counts itself: the rest of the frame is asked for. */
    method OnTotalLen(data: bytes)
      requires phase == Session.ReadTotalLen
      modifies this
      ensures State() == Session.OnRequest(old(State()), data, reply)
      decreases |readBuffer| + |data|, 0
    {
      if |data| != PREFIX_SIZE {
        fault := true;
        return;
      }
      prefix := data;
      var length := U32(data);
      AsyncReadLen(ToSize(length - PREFIX_SIZE));
      phase := Session.ReadRequest;
    }

    /** The server's read callback: dispatch, respond, restart. */
    method OnSessionRead(request: Decoded<Request>)
      modifies this
      ensures State() == Session.OnSessionRead(old(State()), request, reply)
    {
      if !request.Ok? {
        Close();
        return;
      }
      requests := requests + [request.value];
      AsyncWrite(reply(request.value));
      Start();
      assert posted == old(posted) + [Session.Enqueue(reply(request.value)), Session.StartRead];
    }

    method DoWrite()
      requires writeQueue != []
      modifies this
      ensures State() == Session.DoWrite(old(State()))
    {
      writes := writes + [Session.Write(writeQueue[0], 0)];
    }

    /** Runs the closure at the head of the io_context's queue. */
    method RunPosted()
      requires Session.Enabled(State(), Session.RunPosted)
      modifies this
      ensures State() == Session.Apply(old(State()), Session.RunPosted, reply)
    {
      var c := posted[0];
      posted := posted[1..];
      match c {
        case StartRead =>
          AsyncReadLen(PREFIX_SIZE);
        case Enqueue(data) =>
          var wasWriting := writeQueue != [];
          writeQueue := writeQueue + [data];
          if !wasWriting {
            DoWrite();
          }
      }
    }

    /** The completion handler of async_read. */
    method ReadDone()
      requires Session.Enabled(State(), Session.ReadDone)
      modifies this
      ensures State() == Session.Apply(old(State()), Session.ReadDone, reply)
    {
      readOp := Session.NoRead;
      OnReadOk(|readBuffer|);
    }

    method ReadFail()
      requires Session.Enabled(State(), Session.ReadFail)
      modifies this
      ensures State() == Session.Apply(old(State()), Session.ReadFail, reply)
    {
      readOp := Session.NoRead;
      OnReadError();
    }

    /** The completion handler of async_write. */
    method WriteDone(k: nat, ok: bool)
      requires Session.Enabled(State(), if ok then Session.WriteDone(k) else Session.WriteFail(k))
      modifies this
      ensures State() == Session.Apply(old(State()), if ok then Session.WriteDone(k) else Session.WriteFail(k), reply)
    {
      writes, failedWrite := writes[..k] + writes[k + 1..], failedWrite || !ok;
      OnWrite(ok);
    }

    /** PbServer::OnSessionWrite, and the pop that follows a successful write. */
    method OnWrite(ok: bool)
      modifies this
      ensures State() == Session.OnWrite(old(State()), ok)
    {
      if !active {
        return;
      }
      if !ok {
        Close();
        return;
      }
      if writeQueue == [] {
        fault := true;
        return;
      }
      finished, writeQueue := finished + [writeQueue[0]], writeQueue[1..];
      if writeQueue != [] {
        DoWrite();
      }
    }
  }
}
