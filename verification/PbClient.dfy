/** The blocking RPC client: one frame written, one frame read. */
module PbClient {
  import opened Sequences
  import opened Bytes
  import opened PbCoder
  import Frames
  import S = SyncConnection

  type Outcome = S.Outcome<byte>

  /** What ReadResponse makes of its two reads. */
  datatype Read = Response(response: Response) | NoResponse | Throws

  predicate PrefixPossible(buffer: bytes, o: Outcome) {
    S.LenPossible(buffer, Frames.PREFIX_SIZE, o)
  }

  function AfterPrefix(buffer: bytes, o: Outcome): bytes
    requires PrefixPossible(buffer, o)
  {
    S.Left(buffer, S.ReadLen(Frames.PREFIX_SIZE, o))
  }

  function BodyLength(buffer: bytes, o: Outcome): nat
    requires PrefixPossible(buffer, o) && S.LenCode(buffer, Frames.PREFIX_SIZE, o).NoError?
  {
    Frames.BodyLength(S.LenResult(buffer, Frames.PREFIX_SIZE, o))
  }

  predicate ReadsPossible(buffer: bytes, o: Outcome, o': Outcome) {
    && PrefixPossible(buffer, o)
    && (S.LenCode(buffer, Frames.PREFIX_SIZE, o).NoError? ==>
          S.LenPossible(AfterPrefix(buffer, o), BodyLength(buffer, o), o'))
  }

  function ReadOf(buffer: bytes, o: Outcome, o': Outcome): Read
    requires ReadsPossible(buffer, o, o')
  {
    if !S.LenCode(buffer, Frames.PREFIX_SIZE, o).NoError? then NoResponse
    else
      var rest, n := AfterPrefix(buffer, o), BodyLength(buffer, o);
      if !S.LenCode(rest, n, o').NoError? then NoResponse
      else match DecodedResponse(S.LenResult(rest, n, o'))
        case Ok(r) => Read.Response(r)
        case Rejected => NoResponse
        case OutOfRange => Throws
  }

  /** What the reads leave in the buffer. */
  function LeftBy(buffer: bytes, o: Outcome, o': Outcome): bytes
    requires ReadsPossible(buffer, o, o')
  {
    var rest := AfterPrefix(buffer, o);
    if S.LenCode(buffer, Frames.PREFIX_SIZE, o).NoError? then S.Left(rest, S.ReadLen(BodyLength(buffer, o), o'))
    else rest
  }

  class PbClient {
    const connection: S.SyncConnection<byte>

    constructor ()
      ensures fresh(connection) && connection.Valid() && connection.readBuffer == []
    {
      connection := new S.SyncConnection<byte>();
    }

    method ReadResponse(o: Outcome, o': Outcome) returns (r: Read)
      requires connection.Valid() && ReadsPossible(connection.readBuffer, o, o')
      modifies connection
      ensures connection.Valid() && r == ReadOf(old(connection.readBuffer), o, o')
      ensures connection.readBuffer == LeftBy(old(connection.readBuffer), o, o')
    {
      var data, ec := connection.SyncReadLen(Frames.PREFIX_SIZE, o);
      if !ec.NoError? {
        return NoResponse;
      }
      data, ec := connection.SyncReadLen(ToSize(U32(data) - Frames.PREFIX_SIZE), o');
      if !ec.NoError? {
        return NoResponse;
      }
      var decoded := DecodeResponse(data);
      match decoded {
        case Ok(response) => r := Read.Response(response);
        case Rejected => r := NoResponse;
        case OutOfRange => r := Throws;
      }
    }
  }

  /** When a response is returned: both reads ended well, or found enough buffered, and the body decodes.
      The body is as long as the prefix's number says, less the prefix, or as long as the buffer. */
  lemma ResponseReturnedIff(buffer: bytes, o: Outcome, o': Outcome)
    requires ReadsPossible(buffer, o, o')
    ensures ReadOf(buffer, o, o').Response? <==>
              && (|buffer| >= 4 || o.ec == S.NoError)
              && (|AfterPrefix(buffer, o)| >= BodyLength(buffer, o) || o'.ec == S.NoError)
              && DecodedResponse(S.LenResult(AfterPrefix(buffer, o), BodyLength(buffer, o), o')).Ok?
    ensures |buffer| >= 4 || o.ec == S.NoError ==>
              var number := U32(S.LenResult(buffer, 4, o));
              && (number >= 4 ==> BodyLength(buffer, o) == number - 4)
              && (number < 4 ==> BodyLength(buffer, o) > S.BUFFER_SIZE)
  {
    if |buffer| >= 4 || o.ec == S.NoError {
      Frames.BodyLengthIs(S.LenResult(buffer, Frames.PREFIX_SIZE, o));
    }
  }

  /** The exception of the decoder leaves ReadResponse if and only if both reads end well and the body
      they return has length fields that pass the check and send substr outside it. */
  lemma ThrowsIff(buffer: bytes, o: Outcome, o': Outcome)
    requires ReadsPossible(buffer, o, o')
    ensures ReadOf(buffer, o, o').Throws? <==>
              && S.LenCode(buffer, Frames.PREFIX_SIZE, o).NoError?
              && S.LenCode(AfterPrefix(buffer, o), BodyLength(buffer, o), o').NoError?
              && var body := S.LenResult(AfterPrefix(buffer, o), BodyLength(buffer, o), o');
                 ResponseChecked(body) && ResponseOutside(body)
  {
    if S.LenCode(buffer, Frames.PREFIX_SIZE, o).NoError? {
      ResponseThrowsIff(S.LenResult(AfterPrefix(buffer, o), BodyLength(buffer, o), o'));
    }
  }

  /** When the buffer and the two reads amount to the frame of a response within the limit, and more
      behind it, ReadResponse returns that response and keeps what is behind it. */
  lemma ReadsItsFrame(buffer: bytes, o: Outcome, o': Outcome, p: Response, behind: bytes)
    requires ResponseFits(p) && |ResponseBody(p)| <= MAX_RESPONSE_SIZE
    requires ReadsPossible(buffer, o, o') && o.ec.NoError? && o'.ec.NoError?
    requires var rest := AfterPrefix(buffer, o);
             buffer + S.LenTaken(buffer, Frames.PREFIX_SIZE, o) + S.LenTaken(rest, BodyLength(buffer, o), o')
             == Frame(ResponseBody(p)) + behind
    ensures ReadOf(buffer, o, o') == Read.Response(p)
    ensures S.Left(AfterPrefix(buffer, o), S.ReadLen(BodyLength(buffer, o), o')) == behind
  {
    var body := ResponseBody(p);
    PrefixRead(buffer, o, S.LenTaken(AfterPrefix(buffer, o), BodyLength(buffer, o), o'), body, behind);
    BodyRead(AfterPrefix(buffer, o), o', body, behind);
    ResponseRoundTrip(p);
  }

  lemma PrefixRead(buffer: bytes, o: Outcome, more: bytes, body: bytes, behind: bytes)
    requires PrefixPossible(buffer, o) && o.ec.NoError? && |body| <= MAX_RESPONSE_SIZE
    requires buffer + S.LenTaken(buffer, Frames.PREFIX_SIZE, o) + more == Frame(body) + behind
    ensures BodyLength(buffer, o) == |body| && AfterPrefix(buffer, o) + more == body + behind
  {
    Frames.PrefixAnnounces(|body|);
    Regroup(LE32(|body| + 4), body, behind);
    FourBytesRead(buffer, o, more, LE32(|body| + 4), body + behind);
  }

  /** The first read takes the first four bytes, whatever they are. */
  lemma FourBytesRead(buffer: bytes, o: Outcome, more: bytes, four: bytes, rest: bytes)
    requires PrefixPossible(buffer, o) && o.ec.NoError? && |four| == Frames.PREFIX_SIZE
    requires buffer + S.LenTaken(buffer, Frames.PREFIX_SIZE, o) + more == four + rest
    ensures S.LenResult(buffer, Frames.PREFIX_SIZE, o) == four && AfterPrefix(buffer, o) + more == rest
  {
    var prefix, left := S.LenResult(buffer, Frames.PREFIX_SIZE, o), AfterPrefix(buffer, o);
    ExactRead(buffer, Frames.PREFIX_SIZE, o);
    Regroup(prefix, left, more);
    SplitsAlike(prefix, left + more, four, rest);
  }

  lemma BodyRead(rest: bytes, o: Outcome, body: bytes, behind: bytes)
    requires S.LenPossible(rest, |body|, o) && o.ec.NoError? && |body| <= MAX_RESPONSE_SIZE
    requires rest + S.LenTaken(rest, |body|, o) == body + behind
    ensures S.LenResult(rest, |body|, o) == body && S.Left(rest, S.ReadLen(|body|, o)) == behind
  {
    ExactRead(rest, |body|, o);
    SplitsAlike(S.LenResult(rest, |body|, o), S.Left(rest, S.ReadLen(|body|, o)), body, behind);
  }

  /** A successful read of no more than the buffer holds returns what it was asked for. */
  lemma ExactRead(buffer: bytes, n: nat, o: Outcome)
    requires n <= S.BUFFER_SIZE && S.LenPossible(buffer, n, o) && o.ec.NoError?
    ensures |S.LenResult(buffer, n, o)| == n
    ensures S.LenResult(buffer, n, o) + S.Left(buffer, S.ReadLen(n, o)) == buffer + S.LenTaken(buffer, n, o)
  {
    assert S.Result(buffer, S.ReadLen(n, o)) == S.LenResult(buffer, n, o);
  }
}
