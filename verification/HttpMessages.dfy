/** HTTP messages as objects: the response's in-place setters, the printer and the line-by-line decoders. */
module HttpMessages {
  import opened Wrappers
  import opened S = SyncConnection
  import opened HttpText
  import opened HttpCoder

  /** The first header with this name gives its value. */
  method FindHeader(headers: seq<Header>, name: string) returns (value: string)
    ensures value == Lookup(headers, name)
  {
    for i := 0 to |headers|
      invariant Lookup(headers, name) == Lookup(headers[i..], name)
    {
      if headers[i].name == name {
        return headers[i].value;
      }
    }
    value := [];
  }

  class HttpRequest {
    var verb: string
    var uri: string
    var version: string
    var headers: seq<Header>
    var body: string

    constructor ()
      ensures Value() == Request([], [], [], [], [])
    {
      verb, uri, version, headers, body := [], [], [], [], [];
    }

    function Value(): Request
      reads this
    {
      Request(verb, uri, version, headers, body)
    }

    method GetHeader(name: string) returns (value: string)
      ensures value == Lookup(headers, name)
    {
      value := FindHeader(headers, name);
    }

    /** The extractions from the request line of a new request; a part that is missing stays empty. */
    method ReadRequestLine(line: string)
      requires verb == [] && uri == [] && version == []
      modifies this`verb, this`uri, this`version
      ensures (verb, uri, version) == RequestLineOf(line)
    {
      var (v, s1) := ExtractWord(Stream(line, true), verb);
      var (u, s2) := ExtractWord(s1, uri);
      var (w, s3) := ExtractWord(s2, version);
      verb, uri, version := v, u, w;
    }
  }

  class HttpResponse {
    var version: string
    var statusCode: int
    var statusMessage: string
    var headers: seq<Header>
    var body: string

    constructor ()
      ensures Value() == EMPTY_RESPONSE
    {
      version, statusCode, statusMessage, headers, body := "HTTP/1.1", 200, "OK", [], [];
    }

    function Value(): Response
      reads this
    {
      Response(version, statusCode, statusMessage, headers, body)
    }

    method GetHeader(name: string) returns (value: string)
      ensures value == Lookup(headers, name)
    {
      value := FindHeader(headers, name);
    }

    /** The extractions from the status line of a new response; a part that is missing keeps its default. */
    method ReadStatusLine(line: string)
      requires Value() == EMPTY_RESPONSE
      modifies this`version, this`statusCode, this`statusMessage
      ensures (version, statusCode, statusMessage) == StatusOf(line)
    {
      var (v, s1) := ExtractWord(Stream(line, true), version);
      var (c, s2) := ExtractInt(s1, statusCode);
      var (m, s3) := ExtractWord(s2, statusMessage);
      version, statusCode, statusMessage := v, c, m;
    }

    /** The loop both setters run over the headers. */
    method SetHeader(name: string, value: string)
      modifies this`headers
      ensures headers == Updated(old(headers), name, value)
    {
      var k := 0;
      while k < |headers| && headers[k].name != name
        invariant k <= |headers| && headers == old(headers)
        invariant forall i :: 0 <= i < k ==> headers[i].name != name
        modifies {}
      {
        k := k + 1;
      }
      UpdatedAt(headers, name, value, k);
      headers := if k < |headers| then headers[k := Header(name, value)] else headers + [Header(name, value)];
    }

    method SetContentType(contentType: string)
      modifies this`headers
      ensures Value() == Changed(old(Value()), ContentType(contentType))
    {
      SetHeader("Content-Type", contentType);
    }

    method SetBody(b: string)
      modifies this`headers, this`body
      ensures Value() == Changed(old(Value()), Body(b))
    {
      body := b;
      SetHeader("Content-Length", Decimal(|b|));
    }

    method ToString() returns (text: string)
      ensures text == Text(Value())
    {
      text := version + SPACE + Printed(statusCode) + SPACE + statusMessage + CRLF;
      ghost var start := text;
      for i := 0 to |headers|
        invariant text + HeaderText(headers[i..]) == start + HeaderText(headers)
      {
        text := text + headers[i].name + COLON + headers[i].value + CRLF;
        HeaderPrinted(headers, i);
      }
      text := text + CRLF + body;
    }
  }

  lemma HeaderPrinted(headers: seq<Header>, i: nat)
    requires i < |headers|
    ensures HeaderText(headers[i..])
         == headers[i].name + COLON + headers[i].value + CRLF + HeaderText(headers[i + 1..])
  {
    assert headers[i..][1..] == headers[i + 1..];
  }

  method WithoutLeadingSpaces(value: string) returns (v: string)
    ensures v == StripSpaces(value)
  {
    v := value;
    while v != [] && v[0] == ' '
      invariant StripSpaces(v) == StripSpaces(value)
      decreases |v|
    {
      v := v[1..];
    }
  }

  method ReadHeader(line: string) returns (header: seq<Header>)
    ensures header == HeaderOf(line)
  {
    header := [];
    var colon := ColonAt(line);
    if colon < |line| {
      var value := WithoutLeadingSpaces(line[colon + 1..]);
      header := [Header(line[..colon], value)];
    }
  }

  /** Lines of the head up to an empty one, each split at its first colon. */
  method ReadHeaders(lines: string) returns (headers: seq<Header>)
    ensures headers == HeadersOf(lines)
  {
    headers := [];
    var rest := lines;
    while rest != []
      invariant HeadersOf(lines) == headers + HeadersOf(rest)
      decreases |rest|
    {
      var line := FirstLine(rest);
      if line == [] {
        break;
      }
      var header := ReadHeader(line);
      ReadFirst(rest);
      headers, rest := headers + header, AfterLine(rest);
    }
  }

  method DecodeResponse(data: string) returns (resp: HttpResponse?)
    ensures resp == null <==> DecodedResponse(data).None?
    ensures resp != null ==> fresh(resp) && DecodedResponse(data) == Some(resp.Value())
  {
    var n := FindFrom(data, CRLF2, 0);
    if n == |data| || n == 0 {
      return null;
    }
    resp := new HttpResponse();
    var head := data[..n];
    resp.ReadStatusLine(FirstLine(head));
    resp.headers := ReadHeaders(AfterLine(head));
    if n + 4 < |data| {
      resp.body := data[n + 4..];
    }
    assert resp.body == data[n + 4..];
  }

  method DecodeRequest(data: string) returns (req: HttpRequest?)
    ensures req == null <==> DecodedRequest(data).None?
    ensures req != null ==> fresh(req) && DecodedRequest(data) == Some(req.Value())
  {
    var n := FindFrom(data, CRLF2, 0);
    if n == |data| || n == 0 {
      return null;
    }
    req := new HttpRequest();
    var head := data[..n];
    req.ReadRequestLine(FirstLine(head));
    req.headers := ReadHeaders(AfterLine(head));
    if n + 4 < |data| {
      req.body := data[n + 4..];
    }
    assert req.body == data[n + 4..];
  }

  /** The response both Build functions print. */
  function Built(code: int, message: string, contentType: string, body: string): Response {
    Response("HTTP/1.1", code, message,
             [Header(CONTENT_TYPE, contentType), Header(CONTENT_LENGTH, Decimal(|body|))], body)
  }

  lemma BothSet(contentType: string, length: string)
    ensures Updated(Updated([], CONTENT_TYPE, contentType), CONTENT_LENGTH, length)
         == [Header(CONTENT_TYPE, contentType), Header(CONTENT_LENGTH, length)]
  {
    NamesDiffer();
    var hs := [Header(CONTENT_TYPE, contentType)];
    assert Updated([], CONTENT_TYPE, contentType) == hs;
    UpdatedAt(hs, CONTENT_LENGTH, length, 1);
  }

  method BuildOkResponse(body: string, contentType: string) returns (text: string)
    ensures text == Text(Built(200, "OK", contentType, body))
  {
    var resp := new HttpResponse();
    resp.SetContentType(contentType);
    resp.SetBody(body);
    BothSet(contentType, Decimal(|body|));
    text := resp.ToString();
  }

  method BuildErrorResponse(code: int, message: string) returns (text: string)
    ensures text == Text(Built(code, message, "text/plain", message))
  {
    var resp := new HttpResponse();
    resp.statusCode, resp.statusMessage := code, message;
    resp.SetContentType("text/plain");
    resp.SetBody(message);
    BothSet("text/plain", Decimal(|message|));
    text := resp.ToString();
  }

  /** What a built response is read as: always its code, type, length and body; the message in full
      exactly if it is one token. */
  lemma BuiltReadBack(code: int, message: string, contentType: string, body: string)
    requires INT_MIN <= code <= INT_MAX && NoBreak(message) && NoBreak(contentType)
    ensures var r := Built(code, message, contentType, body);
            var d := DecodedResponse(Text(r));
            && d.Some? && d.value.code == code && d.value.body == body
            && Lookup(d.value.headers, CONTENT_TYPE) == StripSpaces(contentType)
            && Lookup(d.value.headers, CONTENT_LENGTH) == Decimal(|body|)
            && (d.value.message == message <==> IsToken(message))
  {
    var r := Built(code, message, contentType, body);
    VersionIsToken();
    NamesDiffer();
    BuiltClean(r, contentType, body);
    PrintThenParse(r);
    FirstTokenIff(message);
    LookupStripped(r.headers, CONTENT_TYPE);
    LookupStripped(r.headers, CONTENT_LENGTH);
    assert r.headers[1..][0] == r.headers[1];
  }

  lemma BuiltClean(r: Response, contentType: string, body: string)
    requires NoBreak(contentType)
    requires r.headers == [Header(CONTENT_TYPE, contentType), Header(CONTENT_LENGTH, Decimal(|body|))]
    ensures CleanHeaders(r.headers)
  {
    NamesDiffer();
    var length: string := Decimal(|body|);
    assert NoBreak(length);
  }

  lemma TwoDigitsPrinted()
    ensures Printed(200) == "200" && Decimal(2) == "2"
  {
    assert Decimal(2) == "2" && Decimal(0) == "0";
    assert Decimal(20) == Decimal(2) + [DigitOf(0)];
    assert Decimal(200) == Decimal(20) + [DigitOf(0)];
  }

  /** The printed text of a response with two headers, with every separator. */
  lemma TextOfTwo(r: Response, a: Header, b: Header)
    requires r.headers == [a, b]
    ensures Text(r) == r.version + " " + Printed(r.code) + " " + r.message + "\r\n"
                     + ((a.name + ": " + a.value + "\r\n") + (b.name + ": " + b.value + "\r\n"))
                     + "\r\n" + r.body
  {
    TwoHeaderText(a, b);
  }

  lemma TwoHeaderText(a: Header, b: Header)
    ensures HeaderText([a, b]) == (a.name + ": " + a.value + "\r\n") + (b.name + ": " + b.value + "\r\n")
  {
    assert [a, b][1..] == [b] && [b][1..] == [];
    assert HeaderText([b]) == HeaderLine(b) + CRLF + [];
  }

  /** A printed response, piece by piece. */
  lemma PrintedExample()
    ensures Text(Built(200, "OK", "text/plain", "hi"))
         == "HTTP/1.1" + " " + "200" + " " + "OK" + "\r\n"
          + (("Content-Type" + ": " + "text/plain" + "\r\n") + ("Content-Length" + ": " + "2" + "\r\n"))
          + "\r\n" + "hi"
  {
    TwoDigitsPrinted();
    var r := Built(200, "OK", "text/plain", "hi");
    TextOfTwo(r, r.headers[0], r.headers[1]);
  }
}
