/** The HTTP session and the connection under it as they are programmed: handlers that update fields. */
module JsonSession {
  import opened S = SyncConnection
  import opened HttpText
  import HttpMessages
  import opened HttpFraming
  import R = JsonReading

  class JsonSession {
    var phase: R.Phase
    var httpReqData: string
    var reading: R.Reading
    var readBuffer: string
    var open: bool
    var crashed: bool
    var asserted: bool
    ghost var requests: seq<string>

    ghost function Value(): R.State
      reads this
    {
      R.State(phase, httpReqData, reading, readBuffer, requests, open, crashed, asserted)
    }

    /** An accepted session whose Start has run. */
    constructor ()
      ensures Value() == R.ReadHeader(R.NEW)
    {
      phase, httpReqData, reading, readBuffer, requests := R.ReadHttpHeader, [], R.NotReading, [], [];
      open, crashed, asserted := true, false, false;
      new;
      ReadHttpHeader();
    }

    method AsyncReadUtil()
      modifies this
      ensures Value() == R.StartUntil(old(Value()))
    {
      if reading.NotReading? {
        reading := R.Until;
      }
    }

    method ReadHttpHeader()
      modifies this
      ensures Value() == R.ReadHeader(old(Value()))
    {
      phase := R.ReadHttpHeader;
      httpReqData := [];
      AsyncReadUtil();
    }

    method Close()
      modifies this
      ensures Value() == old(Value()).(open := false)
    {
      open := false;
    }

    /** The request callback starts the session again after a valid request and closes it otherwise. */
    method ProcessRequest(body: string, valid: bool)
      modifies this
      ensures Value() == R.Process(old(Value()), body, valid)
    {
      requests := requests + [body];
      if valid {
        ReadHttpHeader();
      } else {
        Close();
      }
    }

    method AsyncReadLen(n: nat, valid: bool)
      modifies this
      ensures Value() == R.AsyncReadLen(old(Value()), n, valid)
      decreases if phase.ReadHttpHeader? then 1 else 0, 3
    {
      if !reading.NotReading? {
        asserted := true;
        return;
      }
      if |readBuffer| >= n {
        if !open {
          reading := R.Lost;
          return;
        }
        var data := readBuffer[..n];
        readBuffer := readBuffer[n..];
        OnRead(data, valid);
        return;
      }
      reading := R.Exactly(n);
    }

    method ReadHttpBody(n: nat, valid: bool)
      requires open
      modifies this
      ensures Value() == R.ReadBody(old(Value()), n, valid)
      decreases 0, 4
    {
      R.ReadBodyIsAsyncReadLen(Value(), n, valid);
      phase := R.ReadHttpBody;
      AsyncReadLen(n, valid);
    }

    method OnRead(data: string, valid: bool)
      requires open
      modifies this
      ensures Value() == R.OnRead(old(Value()), data, valid)
      decreases if phase.ReadHttpHeader? then 1 else 0, 2
    {
      if phase.ReadHttpHeader? {
        httpReqData := httpReqData + data;
        var request := HttpMessages.DecodeRequest(httpReqData);
        if request != null {
          var length := request.GetHeader("Content-Length");
          OnHead(length, request.body, valid);
        }
      } else {
        httpReqData := httpReqData + data;
        ProcessRequest(httpReqData, valid);
        ReadHttpHeader();
      }
    }

    /** A decoded head: its Content-Length decides how the body is read. */
    method OnHead(length: string, body: string, valid: bool)
      requires open
      modifies this
      ensures Value() == R.HeadDecoded(old(Value()), AnnouncedBy(length), body, valid)
      decreases 1, 1
    {
      var bodySize: nat := 0;
      if length != [] {
        var size := Stoul(length);
        if size.None? {
          crashed := true;
          return;
        }
        bodySize := size.value;
      }
      if bodySize > 0 {
        if |body| >= bodySize {
          httpReqData := body[bodySize..];
          ProcessRequest(body[..bodySize], valid);
          ReadHttpHeader();
        } else {
          httpReqData := body;
          ReadHttpBody(bodySize - |body|, valid);
        }
      } else {
        ProcessRequest(body, valid);
        ReadHttpHeader();
      }
    }

    /** The outstanding read ends. */
    method Complete(o: R.Outcome, valid: bool)
      requires R.ReadPossible(Value(), o)
      modifies this
      ensures Value() == R.Completed(old(Value()), o, valid)
    {
      readBuffer := readBuffer + o.chunk;
      if open {
        if o.ec.NoError? {
          var size := if reading.Until? then FindFrom(readBuffer, CRLF2, 0) + 4 else |readBuffer|;
          var data := readBuffer[..size];
          readBuffer, reading := readBuffer[size..], R.NotReading;
          OnRead(data, valid);
        } else {
          reading := R.NotReading;
          Close();
        }
      } else {
        reading := R.NotReading;
      }
    }
  }
}
