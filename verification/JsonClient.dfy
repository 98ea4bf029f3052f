/** The blocking HTTP client: the text of a request, and reading a response from the connection. */
module JsonClient {
  import opened Wrappers
  import opened Sequences
  import opened S = SyncConnection
  import opened HttpText
  import opened HttpCoder
  import opened HttpFraming
  import HttpMessages
  import R = JsonReading

  type Outcome = S.Outcome<char>

  // ---- requests ----

  const REQUEST_LINE: string := "POST / HTTP/1.1"
  const HOST: string := "Host"
  const LOCALHOST: string := "localhost"
  const JSON: string := "application/json"

  function RequestHeaders(body: string): seq<Header> {
    [Header(HOST, LOCALHOST), Header(CONTENT_TYPE, JSON), Header(CONTENT_LENGTH, Decimal(|body|))]
  }

  /** A request with its head and body. */
  function RequestFor(body: string): HttpMessage {
    HttpMessage(Message(REQUEST_LINE, RequestHeaders(body), []), body)
  }

  function RequestsFor(bodies: seq<string>): (ms: seq<HttpMessage>)
    ensures |ms| == |bodies| && forall i :: 0 <= i < |ms| ==> ms[i] == RequestFor(bodies[i])
  {
    if bodies == [] then [] else [RequestFor(bodies[0])] + RequestsFor(bodies[1..])
  }

  lemma {:induction false} DecimalLength(n: nat, digits: nat, limit: nat)
    requires n < limit && limit == Power10(digits) && digits > 0
    ensures |Decimal(n)| <= digits
    decreases digits
  {
    if n >= 10 {
      var limit': nat := Power10(digits - 1);
      assert limit == 10 * limit';
      assert Power10(0) == 1 && digits > 1;
      DecimalLength(n / 10, digits - 1, limit');
    }
  }

  function Power10(digits: nat): nat {
    if digits == 0 then 1 else 10 * Power10(digits - 1)
  }

  /** A body within the buffer has a length of at most four digits. */
  lemma ShortLength(body: string)
    requires |body| <= BUFFER_SIZE
    ensures |Decimal(|body|)| <= 4
  {
    assert Power10(4) == 10000;
    DecimalLength(|body|, 4, 10000);
  }

  lemma WordsClean()
    ensures CleanName(HOST) && NoBreak(LOCALHOST) && NoBreak(JSON) && NoBreak(REQUEST_LINE)
    ensures HOST != CONTENT_LENGTH && LOCALHOST != [] && JSON != [] && REQUEST_LINE != []
    ensures LOCALHOST[0] != ' ' && JSON[0] != ' '
  {
    assert |HOST| == 4 && |CONTENT_LENGTH| == 14;
  }

  ghost predicate CleanHeader(h: Header) {
    CleanName(h.name) && NoBreak(h.value) && h.value != [] && h.value[0] != ' '
  }

  lemma HeaderListClean(headers: seq<Header>)
    requires |headers| == 3 && CleanHeader(headers[0]) && CleanHeader(headers[1]) && CleanHeader(headers[2])
    requires headers[0].name != headers[2].name && headers[1].name != headers[2].name
    ensures CleanHeaders(headers) && Stripped(headers) == headers
    ensures Lookup(headers, headers[2].name) == headers[2].value
  {
    StrippedIff(headers);
    var name := headers[2].name;
    assert Lookup(headers, name) == Lookup(headers[1..], name);
    assert headers[1..][1..] == headers[2..];
    assert Lookup(headers[1..], name) == Lookup(headers[2..], name);
  }

  lemma ListedClean(headers: seq<Header>, length: string)
    requires |headers| == 3 && headers[0] == Header(HOST, LOCALHOST) && headers[1] == Header(CONTENT_TYPE, JSON)
    requires headers[2] == Header(CONTENT_LENGTH, length) && NoBreak(length) && length != [] && length[0] != ' '
    ensures CleanHeaders(headers) && Stripped(headers) == headers && Lookup(headers, CONTENT_LENGTH) == length
  {
    WordsClean();
    NamesDiffer();
    HeaderListClean(headers);
  }

  lemma LengthClean(n: nat)
    ensures NoBreak(Decimal(n)) && Decimal(n)[0] != ' '
  {
  }

  lemma HeaderTextLength(headers: seq<Header>)
    ensures |HeaderText(headers)|
         == if headers == [] then 0
            else |headers[0].name| + 2 + |headers[0].value| + 2 + |HeaderText(headers[1..])|
  {
  }

  lemma RequestHeadFits(body: string)
    requires |body| <= BUFFER_SIZE
    ensures |RequestFor(body).head| <= BUFFER_SIZE
  {
    var headers := RequestHeaders(body);
    ShortLength(body);
    HeaderTextLength(headers);
    HeaderTextLength(headers[1..]);
    HeaderTextLength(headers[2..]);
    assert headers[1..][1..] == headers[2..] && headers[2..][1..] == [];
  }

  /** What the client sends for any body within the buffer is a well-formed request. */
  lemma RequestWellFormed(body: string)
    requires |body| <= BUFFER_SIZE
    ensures WellFormed(RequestFor(body))
  {
    var headers, length := RequestHeaders(body), Decimal(|body|);
    LengthClean(|body|);
    ListedClean(headers, length);
    RequestHeadFits(body);
    StoulOfDecimal(|body|);
    WordsClean();
    PrintedRequest(REQUEST_LINE, headers, body);
  }

  lemma RequestsWellFormed(bodies: seq<string>)
    requires forall i :: 0 <= i < |bodies| ==> |bodies[i]| <= BUFFER_SIZE
    ensures AllWellFormed(RequestsFor(bodies)) && Bodies(RequestsFor(bodies)) == bodies
  {
    forall i | 0 <= i < |bodies| ensures WellFormed(RequestsFor(bodies)[i]) {
      RequestWellFormed(bodies[i]);
    }
  }

  /** Client to session: the bodies of the requests the client wrote arrive in order, however the bytes
      are cut into reads, and all of them once the session waits for more. */
  lemma ClientRequestsArrive(bodies: seq<string>, es: seq<R.Event>)
    requires forall i :: 0 <= i < |bodies| ==> |bodies[i]| <= BUFFER_SIZE
    requires R.Legal(R.Initial(Wire(RequestsFor(bodies))), es)
    ensures var w := R.After(R.Initial(Wire(RequestsFor(bodies))), es);
            && w.session.requests <= bodies && !w.session.asserted
            && (R.Waiting(w) ==> w.session.requests == bodies)
  {
    RequestsWellFormed(bodies);
    R.WellFormedRequestsArrive(RequestsFor(bodies), es);
  }

  /** A head fits the buffer for any body whose length stoul can read. */
  lemma AnyRequestHeadFits(body: string)
    requires |body| < SIZE_MODULUS
    ensures |RequestFor(body).head| <= BUFFER_SIZE
  {
    var headers := RequestHeaders(body);
    assert Power10(10) == 10000000000;
    assert Power10(20) == 100000000000000000000;
    DecimalLength(|body|, 20, Power10(20));
    HeaderTextLength(headers);
    HeaderTextLength(headers[1..]);
    HeaderTextLength(headers[2..]);
    assert headers[1..][1..] == headers[2..] && headers[2..][1..] == [];
  }

  /** The head announces the body's length, whether or not the buffer can hold the body. */
  lemma RequestAnnounces(body: string)
    requires |body| < SIZE_MODULUS
    ensures IsHead(RequestFor(body).head) && Announces(RequestFor(body).head) == Length(|body|)
  {
    var headers, length := RequestHeaders(body), Decimal(|body|);
    LengthClean(|body|);
    ListedClean(headers, length);
    AnyRequestHeadFits(body);
    StoulOfDecimal(|body|);
    WordsClean();
    PrintedHead(REQUEST_LINE, headers);
  }

  /** The parts of the request line, and that they are tokens. */
  lemma RequestLineParts()
    ensures IsToken("POST") && IsToken("/") && IsToken("HTTP/1.1")
    ensures REQUEST_LINE == "POST" + SPACE + "/" + SPACE + "HTTP/1.1"
  {
  }

  /** The client's three headers. */
  lemma RequestHeadersAre(body: string)
    ensures RequestHeaders(body) == [Header("Host", "localhost"), Header("Content-Type", "application/json"),
                                     Header("Content-Length", Decimal(|body|))]
  {
  }

  lemma DecodesFrom(verb: string, uri: string, version: string, headers: seq<Header>, body: string)
    requires IsToken(verb) && IsToken(uri) && IsToken(version) && REQUEST_LINE == verb + SPACE + uri + SPACE + version
    requires CleanHeaders(headers) && Stripped(headers) == headers
    ensures DecodedRequest(Message(REQUEST_LINE, headers, []) + body)
         == Some(Request(verb, uri, version, headers, body))
  {
    RequestReadBack(verb, uri, version, headers, body);
    BodyBehindHead(REQUEST_LINE, headers, body);
  }

  /** What a server decodes from the client's request: method, path and version as written, the three
      headers, and the body. */
  lemma RequestDecodes(body: string)
    ensures DecodedRequest(RequestFor(body).head + body)
         == Some(Request("POST", "/", "HTTP/1.1", RequestHeaders(body), body))
  {
    var headers := RequestHeaders(body);
    LengthClean(|body|);
    ListedClean(headers, Decimal(|body|));
    RequestLineParts();
    DecodesFrom("POST", "/", "HTTP/1.1", headers, body);
  }

  /** A request, piece by piece. */
  lemma RequestExample()
    ensures RequestFor("{}").head
         == "POST / HTTP/1.1" + "\r\n" + ("Host" + ": " + "localhost" + "\r\n")
          + ("Content-Type" + ": " + "application/json" + "\r\n") + ("Content-Length" + ": " + "2" + "\r\n") + "\r\n"
  {
    HttpMessages.TwoDigitsPrinted();
    ThreeHeaders(REQUEST_LINE, RequestHeaders("{}"));
  }

  lemma BodyBehindHead(start: string, headers: seq<Header>, body: string)
    ensures Message(start, headers, []) + body == Message(start, headers, body)
  {
  }

  ghost predicate Sendable(bodies: seq<string>) {
    forall i :: 0 <= i < |bodies| ==> |bodies[i]| < SIZE_MODULUS
  }

  /** What the client writes for a list of bodies carries exactly these bodies if and only if each of
      them fits the read buffer; the client itself sends them all without complaint. */
  lemma {:induction false} ClientStreamWholeIff(bodies: seq<string>)
    requires Sendable(bodies)
    ensures Parsed(Wire(RequestsFor(bodies))) == bodies
            <==> forall i :: 0 <= i < |bodies| ==> |bodies[i]| <= 4096
    decreases |bodies|
  {
    if bodies != [] {
      WireOfFirst(bodies);
      ClientStreamWholeIff(bodies[1..]);
      FirstRequestParsed(bodies[0], Wire(RequestsFor(bodies[1..])));
      OneMore(bodies, Parsed(Wire(RequestsFor(bodies))), Parsed(Wire(RequestsFor(bodies[1..]))));
    }
  }

  lemma OneMore(bodies: seq<string>, parsed: seq<string>, later: seq<string>)
    requires bodies != [] && parsed != [] && (parsed[0] == bodies[0] <==> |bodies[0]| <= BUFFER_SIZE)
    requires |bodies[0]| <= BUFFER_SIZE ==> parsed == [bodies[0]] + later
    requires later == bodies[1..] <==> forall i :: 0 <= i < |bodies[1..]| ==> |bodies[1..][i]| <= BUFFER_SIZE
    ensures parsed == bodies <==> forall i :: 0 <= i < |bodies| ==> |bodies[i]| <= BUFFER_SIZE
  {
    assert bodies == [bodies[0]] + bodies[1..];
    assert |bodies[0]| <= BUFFER_SIZE ==> later == parsed[1..];
    assert (forall i :: 0 <= i < |bodies| ==> |bodies[i]| <= BUFFER_SIZE)
        <==> |bodies[0]| <= BUFFER_SIZE && forall i :: 0 <= i < |bodies[1..]| ==> |bodies[1..][i]| <= BUFFER_SIZE;
  }

  lemma FirstRequestParsed(body: string, rest: string)
    requires |body| < SIZE_MODULUS
    ensures var parsed := Parsed(RequestFor(body).head + body + rest);
            && parsed != [] && (parsed[0] == body <==> |body| <= BUFFER_SIZE)
            && (|body| <= BUFFER_SIZE ==> parsed == [body] + Parsed(rest))
  {
    RequestAnnounces(body);
    WholeBodyIff(RequestFor(body).head, body, rest);
    if |body| <= BUFFER_SIZE {
      ParsedMessage(RequestFor(body), rest);
    }
  }

  lemma WireOfFirst(bodies: seq<string>)
    requires bodies != []
    ensures Wire(RequestsFor(bodies))
         == RequestFor(bodies[0]).head + bodies[0] + Wire(RequestsFor(bodies[1..]))
  {
    assert RequestsFor(bodies)[1..] == RequestsFor(bodies[1..]);
  }

  /** Client to session, for bodies of any size: a run without errors and invalid requests that has come
      to its end has delivered the bodies the client sent if and only if each fits the read buffer. */
  lemma ClientRequestsArriveIff(bodies: seq<string>, es: seq<R.Event>)
    requires Sendable(bodies) && R.Legal(R.Initial(Wire(RequestsFor(bodies))), es)
    requires R.Undisturbed(es) && R.Ended(R.After(R.Initial(Wire(RequestsFor(bodies))), es))
    ensures R.After(R.Initial(Wire(RequestsFor(bodies))), es).session.requests == bodies
            <==> forall i :: 0 <= i < |bodies| ==> |bodies[i]| <= 4096
  {
    R.UndisturbedRunsDeliverAll(Wire(RequestsFor(bodies)), es);
    ClientStreamWholeIff(bodies);
  }

  // ---- responses ----

  /** What the client learns from the head of a response; it insists on a Content-Length. */
  function ResponseLength(head: string): Announced {
    match DecodedResponse(head)
    case None => Refused
    case Some(response) =>
      var text := Lookup(response.headers, CONTENT_LENGTH);
      if text == [] then Refused else AnnouncedBy(text)
  }

  predicate HeadPossible(buffer: string, o: Outcome) {
    UntilPossible(buffer, CRLF2, o)
  }

  function HeadOf(buffer: string, o: Outcome): string
    requires HeadPossible(buffer, o)
  {
    UntilResult(buffer, CRLF2, o)
  }

  function AfterHead(buffer: string, o: Outcome): string
    requires HeadPossible(buffer, o)
  {
    Left(buffer, ReadUntil(CRLF2, o))
  }

  /** The two reads of a response: `o` ends the first and, when there is a second, `o'` ends that. */
  predicate ReadsPossible(buffer: string, o: Outcome, o': Outcome) {
    && HeadPossible(buffer, o)
    && (o.ec.NoError? && ResponseLength(HeadOf(buffer, o)).Length? ==>
          LenPossible(AfterHead(buffer, o), ResponseLength(HeadOf(buffer, o)).n, o'))
  }

  datatype Read = Body(body: string) | NoResponse | Failure

  /** What the client returns for a head that announced a length. */
  function BodyOf(buffer: string, n: nat, o: Outcome): Read
    requires LenPossible(buffer, n, o)
  {
    if LenCode(buffer, n, o).NoError? then Read.Body(LenResult(buffer, n, o)) else NoResponse
  }

  function ReadOf(buffer: string, o: Outcome, o': Outcome): Read
    requires ReadsPossible(buffer, o, o')
  {
    if !o.ec.NoError? then NoResponse
    else
      match ResponseLength(HeadOf(buffer, o))
      case Refused => NoResponse
      case Throws => Failure
      case Length(n) => BodyOf(AfterHead(buffer, o), n, o')
  }

  /** Whether there is a second read. */
  predicate ReadsOn(buffer: string, o: Outcome)
    requires HeadPossible(buffer, o)
  {
    o.ec.NoError? && ResponseLength(HeadOf(buffer, o)).Length?
  }

  /** The bytes the reads take from the socket. */
  function TakenBy(buffer: string, o: Outcome, o': Outcome): string
    requires ReadsPossible(buffer, o, o')
  {
    if ReadsOn(buffer, o) then
      o.chunk + LenTaken(AfterHead(buffer, o), ResponseLength(HeadOf(buffer, o)).n, o')
    else o.chunk
  }

  /** What they leave in the buffer. */
  function LeftBy(buffer: string, o: Outcome, o': Outcome): string
    requires ReadsPossible(buffer, o, o')
  {
    if ReadsOn(buffer, o) then
      Left(AfterHead(buffer, o), ReadLen(ResponseLength(HeadOf(buffer, o)).n, o'))
    else AfterHead(buffer, o)
  }

  /** When a body is returned: the head was read without an error and announced a length, and that much was
      in the buffer or the second read ended well. It is then exactly that long, or as long as the
      buffer. No error returns part of a body. */
  lemma BodyReturnedIff(buffer: string, o: Outcome, o': Outcome)
    requires ReadsPossible(buffer, o, o')
    ensures ReadOf(buffer, o, o').Body? <==>
              && o.ec == NoError && ResponseLength(HeadOf(buffer, o)).Length?
              && (|AfterHead(buffer, o)| >= ResponseLength(HeadOf(buffer, o)).n || o'.ec == NoError)
    ensures ReadOf(buffer, o, o').Body? ==>
              var n, size := ResponseLength(HeadOf(buffer, o)).n, |ReadOf(buffer, o, o').body|;
              size == n || size == BUFFER_SIZE
    ensures ReadOf(buffer, o, o').Failure? <==>
              && o.ec == NoError && DecodedResponse(HeadOf(buffer, o)).Some?
              && var text := Lookup(DecodedResponse(HeadOf(buffer, o)).value.headers, CONTENT_LENGTH);
                 text != [] && Stoul(text).None?
  {
  }

  class JsonClient {
    const connection: S.SyncConnection<char>

    constructor ()
      ensures fresh(connection) && connection.Valid() && connection.readBuffer == []
    {
      connection := new S.SyncConnection<char>();
    }

    /** The text SendRequest writes. */
    method RequestText(body: string) returns (text: string)
      ensures text == RequestFor(body).head + body
    {
      text := "POST / HTTP/1.1" + CRLF + ("Host" + COLON + "localhost" + CRLF)
            + ("Content-Type" + COLON + "application/json" + CRLF)
            + ("Content-Length" + COLON + Decimal(|body|) + CRLF) + CRLF + body;
      ThreeHeaders(REQUEST_LINE, RequestHeaders(body));
    }

    method ReadResponse(o: Outcome, o': Outcome) returns (r: Read)
      requires connection.Valid() && ReadsPossible(connection.readBuffer, o, o')
      modifies connection
      ensures connection.Valid() && r == ReadOf(old(connection.readBuffer), o, o')
      ensures connection.readBuffer == LeftBy(old(connection.readBuffer), o, o')
      ensures connection.taken == old(connection.taken) + TakenBy(old(connection.readBuffer), o, o')
    {
      ghost var buffer, taken := connection.readBuffer, connection.taken;
      var head, ec := connection.SyncReadUtil(CRLF2, o);
      if !ec.NoError? {
        return NoResponse;
      }
      var length := LengthFrom(head);
      match length {
        case Refused => r := NoResponse;
        case Throws => r := Failure;
        case Length(n) =>
          r := ReadBody(n, o');
          Regroup(taken, o.chunk, LenTaken(AfterHead(buffer, o), n, o'));
      }
    }

    method ReadBody(n: nat, o: Outcome) returns (r: Read)
      requires connection.Valid() && LenPossible(connection.readBuffer, n, o)
      modifies connection
      ensures connection.Valid() && r == BodyOf(old(connection.readBuffer), n, o)
      ensures connection.readBuffer == Left(old(connection.readBuffer), ReadLen(n, o))
      ensures connection.taken == old(connection.taken) + LenTaken(old(connection.readBuffer), n, o)
    {
      var body, ec := connection.SyncReadLen(n, o);
      r := if ec.NoError? then Read.Body(body) else NoResponse;
    }
  }

  method LengthFrom(head: string) returns (length: Announced)
    ensures length == ResponseLength(head)
  {
    var response := HttpMessages.DecodeResponse(head);
    if response == null {
      return Refused;
    }
    var text := response.GetHeader("Content-Length");
    if text == [] {
      return Refused;
    }
    var size := Stoul(text);
    length := if size.Some? then Length(size.value) else Throws;
  }

  lemma ThreeHeaders(start: string, headers: seq<Header>)
    requires |headers| == 3
    ensures Message(start, headers, [])
         == start + CRLF + (HeaderLine(headers[0]) + CRLF) + (HeaderLine(headers[1]) + CRLF)
          + (HeaderLine(headers[2]) + CRLF) + CRLF
  {
    assert headers[1..][1..] == headers[2..] && headers[2..][1..] == [];
    assert HeaderText(headers[2..]) == HeaderLine(headers[2]) + CRLF;
    assert HeaderText(headers[1..]) == HeaderLine(headers[1]) + CRLF + HeaderText(headers[2..]);
  }

  // ---- reading a list of responses ----

  predicate WellFormedResponse(m: HttpMessage) {
    IsHead(m.head) && ResponseLength(m.head) == Length(|m.body|) && |m.body| <= BUFFER_SIZE
  }

  datatype Reads = Reads(o: Outcome, o': Outcome)

  /** Reads that all end well and take what the server has sent, in order. */
  ghost predicate Served(buffer: string, future: string, rs: seq<Reads>)
    decreases |rs|
  {
    rs != [] ==>
      var (o, o') := (rs[0].o, rs[0].o');
      && o.ec.NoError? && o'.ec.NoError? && ReadsPossible(buffer, o, o') && TakenBy(buffer, o, o') <= future
      && Served(LeftBy(buffer, o, o'), future[|TakenBy(buffer, o, o')|..], rs[1..])
  }

  ghost function Results(buffer: string, future: string, rs: seq<Reads>): seq<Read>
    requires Served(buffer, future, rs)
    decreases |rs|
  {
    if rs == [] then []
    else
      var (o, o') := (rs[0].o, rs[0].o');
      [ReadOf(buffer, o, o')] + Results(LeftBy(buffer, o, o'), future[|TakenBy(buffer, o, o')|..], rs[1..])
  }

  /** What is neither returned nor parsed afterwards: left in the buffer and still to come. */
  ghost function Unread(buffer: string, future: string, rs: seq<Reads>): string
    requires Served(buffer, future, rs)
    decreases |rs|
  {
    if rs == [] then buffer + future
    else
      var (o, o') := (rs[0].o, rs[0].o');
      Unread(LeftBy(buffer, o, o'), future[|TakenBy(buffer, o, o')|..], rs[1..])
  }

  lemma UntilReturns(buffer: string, o: Outcome)
    requires HeadPossible(buffer, o) && o.ec.NoError?
    ensures HeadOf(buffer, o) == UpTo(buffer + o.chunk, CRLF2)
    ensures HeadOf(buffer, o) + AfterHead(buffer, o) == buffer + o.chunk
  {
    assert Result(buffer, ReadUntil(CRLF2, o)) == HeadOf(buffer, o);
  }

  /** The first read returns the head, however much it reads beyond. */
  lemma ReadsHead(buffer: string, future: string, o: Outcome, head: string, rest: string)
    requires HeadPossible(buffer, o) && o.ec.NoError? && o.chunk <= future && IsHead(head)
    requires buffer + future == head + rest
    ensures HeadOf(buffer, o) == head && AfterHead(buffer, o) + future[|o.chunk|..] == rest
  {
    var got, more := buffer + o.chunk, future[|o.chunk|..];
    UntilReturns(buffer, o);
    Regroup(buffer, o.chunk, more);
    assert future == o.chunk + more;
    FoundInLonger(got, more);
    FoundInLonger(head, rest);
    Regroup(head, AfterHead(buffer, o), more);
    SplitsAlike(head, AfterHead(buffer, o) + more, head, rest);
  }

  /** The second read returns the body, from the buffer as far as it is there. */
  lemma ReadsBody(buffer: string, future: string, o: Outcome, body: string, behind: string)
    requires LenPossible(buffer, |body|, o) && o.ec.NoError? && |body| <= BUFFER_SIZE
    requires LenTaken(buffer, |body|, o) <= future && buffer + future == body + behind
    ensures LenResult(buffer, |body|, o) == body
    ensures Left(buffer, ReadLen(|body|, o)) + future[|LenTaken(buffer, |body|, o)|..] == behind
  {
    var t := LenTaken(buffer, |body|, o);
    var more, r, left := future[|t|..], LenResult(buffer, |body|, o), Left(buffer, ReadLen(|body|, o));
    assert future == t + more;
    assert Result(buffer, ReadLen(|body|, o)) == r;
    assert r + left == buffer + t;
    assert r + (left + more) == body + behind;
    SplitsAlike(r, left + more, body, behind);
  }

  lemma Behind(future: string, chunk: string, t: string)
    requires chunk + t <= future
    ensures t <= future[|chunk|..] && future[|chunk|..][|t|..] == future[|chunk + t|..]
  {
  }

  lemma ReadsOnFor(buffer: string, o: Outcome, o': Outcome, n: nat)
    requires o.ec.NoError? && ReadsPossible(buffer, o, o') && ResponseLength(HeadOf(buffer, o)) == Length(n)
    ensures LenPossible(AfterHead(buffer, o), n, o')
    ensures ReadOf(buffer, o, o') == BodyOf(AfterHead(buffer, o), n, o')
    ensures TakenBy(buffer, o, o') == o.chunk + LenTaken(AfterHead(buffer, o), n, o')
    ensures LeftBy(buffer, o, o') == Left(AfterHead(buffer, o), ReadLen(n, o'))
  {
  }

  lemma ChunkFirst(buffer: string, o: Outcome, o': Outcome, future: string)
    requires ReadsPossible(buffer, o, o') && TakenBy(buffer, o, o') <= future
    ensures o.chunk <= future
  {
  }

  lemma ReadsItsMessage(buffer: string, future: string, o: Outcome, o': Outcome, m: HttpMessage, behind: string)
    requires WellFormedResponse(m) && buffer + future == m.head + m.body + behind
    requires o.ec.NoError? && o'.ec.NoError? && ReadsPossible(buffer, o, o') && TakenBy(buffer, o, o') <= future
    ensures ReadOf(buffer, o, o') == Read.Body(m.body)
    ensures LeftBy(buffer, o, o') + future[|TakenBy(buffer, o, o')|..] == behind
  {
    Regroup(m.head, m.body, behind);
    ChunkFirst(buffer, o, o', future);
    ReadsHead(buffer, future, o, m.head, m.body + behind);
    ReadsOnFor(buffer, o, o', |m.body|);
    var rest, more := AfterHead(buffer, o), future[|o.chunk|..];
    Behind(future, o.chunk, LenTaken(rest, |m.body|, o'));
    ReadsBody(rest, more, o', m.body, behind);
  }

  function Answers(ms: seq<HttpMessage>): (answers: seq<Read>)
    ensures |answers| == |ms| && forall i :: 0 <= i < |ms| ==> answers[i] == Read.Body(ms[i].body)
  {
    if ms == [] then [] else [Read.Body(ms[0].body)] + Answers(ms[1..])
  }

  /** Reading well-formed responses one after another returns their bodies in order and keeps what
      follows them, however much each read takes beyond what it returns. */
  lemma {:induction false} ResponsesInOrder(buffer: string, future: string, rs: seq<Reads>,
                                            ms: seq<HttpMessage>, behind: string)
    requires |rs| == |ms| && forall i :: 0 <= i < |ms| ==> WellFormedResponse(ms[i])
    requires Served(buffer, future, rs) && buffer + future == Wire(ms) + behind
    ensures Results(buffer, future, rs) == Answers(ms)
    ensures Unread(buffer, future, rs) == behind
    decreases |rs|
  {
    if rs != [] {
      var (o, o') := (rs[0].o, rs[0].o');
      var left, future' := LeftBy(buffer, o, o'), future[|TakenBy(buffer, o, o')|..];
      var more := Wire(ms[1..]) + behind;
      Regroup(ms[0].head + ms[0].body, Wire(ms[1..]), behind);
      ReadsItsMessage(buffer, future, o, o', ms[0], more);
      assert left + future' == more;
      ResponsesInOrder(left, future', rs[1..], ms[1..], behind);
      ResultsUnfold(buffer, future, rs, Results(left, future', rs[1..]));
    } else {
      assert Wire(ms) + behind == behind;
    }
  }

  lemma ResultsUnfold(buffer: string, future: string, rs: seq<Reads>, later: seq<Read>)
    requires Served(buffer, future, rs) && rs != []
    requires var (o, o') := (rs[0].o, rs[0].o');
             later == Results(LeftBy(buffer, o, o'), future[|TakenBy(buffer, o, o')|..], rs[1..])
    ensures Results(buffer, future, rs) == [ReadOf(buffer, rs[0].o, rs[0].o')] + later
  {
  }

  // ---- the responses a server session writes ----

  /** The head and body of the response WriteResponse builds. */
  function OkResponse(body: string): HttpMessage {
    HttpMessage(Message(StatusLine(OkFor(body)), OkFor(body).headers, []), body)
  }

  function OkFor(body: string): Response {
    HttpMessages.Built(200, OK, JSON, body)
  }

  function OkResponses(bodies: seq<string>): (ms: seq<HttpMessage>)
    ensures |ms| == |bodies| && forall i :: 0 <= i < |ms| ==> ms[i] == OkResponse(bodies[i])
  {
    if bodies == [] then [] else [OkResponse(bodies[0])] + OkResponses(bodies[1..])
  }

  const OK: string := "OK"

  lemma OkHeadFits(body: string)
    requires |body| <= BUFFER_SIZE
    ensures |OkResponse(body).head| <= BUFFER_SIZE
  {
    var r := OkFor(body);
    ShortLength(body);
    DecimalLength(200, 3, 1000);
    HeaderTextLength(r.headers);
    HeaderTextLength(r.headers[1..]);
    assert r.headers[1..][1..] == [];
  }

  /** The head of any printed response: the client learns what its first Content-Length says. */
  lemma PrintedResponseHead(r: Response)
    requires Printable(r) && r.body == []
    ensures var length := StripSpaces(Lookup(r.headers, CONTENT_LENGTH));
            && Contains(Text(r), CRLF2) && UpTo(Text(r), CRLF2) == Text(r)
            && ResponseLength(Text(r)) == if length == [] then Refused else AnnouncedBy(length)
  {
    StatusLineClean(r);
    PrintedHead(StatusLine(r), r.headers);
    PrintThenParse(r);
    LookupStripped(r.headers, CONTENT_LENGTH);
  }

  lemma OkHeaders(r: Response, length: string)
    requires r == Response("HTTP/1.1", 200, OK, [Header(CONTENT_TYPE, JSON), Header(CONTENT_LENGTH, length)], [])
    requires length != [] && length[0] != ' ' && NoBreak(length)
    ensures Printable(r) && StripSpaces(Lookup(r.headers, CONTENT_LENGTH)) == length
  {
    NamesDiffer();
    WordsClean();
    VersionIsToken();
    assert r.headers[1..] == [Header(CONTENT_LENGTH, length)];
    assert NoBreak(OK);
  }

  /** The response a session writes is well-formed, and its text is what BuildOkResponse prints. */
  lemma OkResponseWellFormed(body: string)
    requires |body| <= BUFFER_SIZE
    ensures WellFormedResponse(OkResponse(body))
    ensures OkResponse(body).head + body == Text(OkFor(body))
  {
    var r := OkFor(body).(body := []);
    OkHeadFits(body);
    LengthClean(|body|);
    OkHeaders(r, Decimal(|body|));
    PrintedResponseHead(r);
    StoulOfDecimal(|body|);
  }

  /** These bodies, each returned by one read. */
  function BodiesRead(bodies: seq<string>): (all: seq<Read>)
    ensures |all| == |bodies| && forall i :: 0 <= i < |all| ==> all[i] == Read.Body(bodies[i])
  {
    if bodies == [] then [] else [Read.Body(bodies[0])] + BodiesRead(bodies[1..])
  }

  lemma AnswersAreBodies(bodies: seq<string>)
    ensures Answers(OkResponses(bodies)) == BodiesRead(bodies)
  {
  }

  /** Session to client: reading the responses a session wrote returns their bodies in order. */
  lemma SessionResponsesArrive(bodies: seq<string>, buffer: string, future: string, rs: seq<Reads>, behind: string)
    requires |rs| == |bodies| && forall i :: 0 <= i < |bodies| ==> |bodies[i]| <= BUFFER_SIZE
    requires Served(buffer, future, rs) && buffer + future == Wire(OkResponses(bodies)) + behind
    ensures Results(buffer, future, rs) == BodiesRead(bodies) && Unread(buffer, future, rs) == behind
  {
    OkResponsesWellFormed(bodies);
    ResponsesInOrder(buffer, future, rs, OkResponses(bodies), behind);
    AnswersAreBodies(bodies);
  }

  lemma OkResponsesWellFormed(bodies: seq<string>)
    requires forall i :: 0 <= i < |bodies| ==> |bodies[i]| <= BUFFER_SIZE
    ensures forall i :: 0 <= i < |bodies| ==> WellFormedResponse(OkResponses(bodies)[i])
  {
    forall i | 0 <= i < |bodies| ensures WellFormedResponse(OkResponses(bodies)[i]) {
      OkResponseWellFormed(bodies[i]);
    }
  }
}
