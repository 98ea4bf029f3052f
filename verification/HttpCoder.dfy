/** Printing and parsing HTTP/1.1 messages. */
module HttpCoder {
  import opened Wrappers
  import opened S = SyncConnection
  import opened HttpText

  datatype Header = Header(name: string, value: string)

  datatype Response = Response(version: string, code: int, message: string, headers: seq<Header>, body: string)

  datatype Request = Request(verb: string, uri: string, version: string, headers: seq<Header>, body: string)

  const CONTENT_TYPE: string := "Content-Type"
  const CONTENT_LENGTH: string := "Content-Length"
  const COLON: string := ": "
  const SPACE: string := " "
  const EMPTY_RESPONSE: Response := Response("HTTP/1.1", 200, "OK", [], [])

  // ---- headers ----

  /** The first value under a name, empty if there is none. */
  function Lookup(headers: seq<Header>, name: string): string {
    if headers == [] then [] else if headers[0].name == name then headers[0].value else Lookup(headers[1..], name)
  }

  /** The first header with this name gets the value; without one a header is appended. */
  function Updated(headers: seq<Header>, name: string, value: string): seq<Header> {
    if headers == [] then [Header(name, value)]
    else if headers[0].name == name then [Header(name, value)] + headers[1..]
    else [headers[0]] + Updated(headers[1..], name, value)
  }

  ghost predicate UniqueNames(headers: seq<Header>) {
    forall i, j :: 0 <= i < j < |headers| ==> headers[i].name != headers[j].name
  }

  /** What Updated means, entry by entry. */
  lemma {:induction false} UpdatedAt(headers: seq<Header>, name: string, value: string, k: nat)
    requires k <= |headers| && forall i :: 0 <= i < k ==> headers[i].name != name
    requires k < |headers| ==> headers[k].name == name
    ensures Updated(headers, name, value)
         == if k < |headers| then headers[k := Header(name, value)] else headers + [Header(name, value)]
  {
    if k > 0 {
      UpdatedAt(headers[1..], name, value, k - 1);
      assert headers == [headers[0]] + headers[1..];
    }
  }

  function FirstNamed(headers: seq<Header>, name: string): (k: nat)
    ensures k <= |headers| && (k < |headers| ==> headers[k].name == name)
    ensures forall i :: 0 <= i < k ==> headers[i].name != name
  {
    if headers == [] || headers[0].name == name then 0 else 1 + FirstNamed(headers[1..], name)
  }

  lemma UpdateKeepsUnique(headers: seq<Header>, name: string, value: string)
    requires UniqueNames(headers)
    ensures UniqueNames(Updated(headers, name, value))
  {
    UpdatedAt(headers, name, value, FirstNamed(headers, name));
  }

  /** The updated name has the new value, every other name the one it had. */
  lemma {:induction false} LookupUpdated(headers: seq<Header>, name: string, value: string, other: string)
    ensures Lookup(Updated(headers, name, value), other) == if other == name then value else Lookup(headers, other)
  {
    if headers != [] && headers[0].name != name {
      LookupUpdated(headers[1..], name, value, other);
      assert Updated(headers, name, value)[1..] == Updated(headers[1..], name, value);
    }
  }

  // ---- printing ----

  function HeaderLine(h: Header): string {
    h.name + COLON + h.value
  }

  function StatusLine(r: Response): string {
    r.version + SPACE + Printed(r.code) + SPACE + r.message
  }

  function HeaderText(headers: seq<Header>): string {
    if headers == [] then [] else HeaderLine(headers[0]) + CRLF + HeaderText(headers[1..])
  }

  function Message(start: string, headers: seq<Header>, body: string): string {
    start + CRLF + HeaderText(headers) + CRLF + body
  }

  /** A response as printed. */
  function Text(r: Response): string {
    Message(StatusLine(r), r.headers, r.body)
  }

  // ---- parsing ----

  function StripSpaces(value: string): (v: string)
    ensures v == [] || v[0] != ' '
  {
    if value != [] && value[0] == ' ' then StripSpaces(value[1..]) else value
  }

  /** Exactly the leading spaces go. */
  lemma {:induction false} OnlySpacesStripped(spaces: nat, value: string)
    requires value == [] || value[0] != ' '
    ensures StripSpaces(seq(spaces, _ => ' ') + value) == value
  {
    var s := seq(spaces, _ => ' ') + value;
    if spaces == 0 {
      assert s == value;
    } else {
      OnlySpacesStripped(spaces - 1, value);
      assert s[1..] == seq(spaces - 1, _ => ' ') + value;
    }
  }

  function ColonAt(line: string): (k: nat)
    ensures k <= |line| && (k < |line| ==> line[k] == ':')
    ensures forall i :: 0 <= i < k ==> line[i] != ':'
  {
    if line == [] || line[0] == ':' then 0 else 1 + ColonAt(line[1..])
  }

  /** A header line splits at its first colon; a line without one is skipped. */
  function HeaderOf(line: string): seq<Header> {
    var k := ColonAt(line);
    if k < |line| then [Header(line[..k], StripSpaces(line[k + 1..]))] else []
  }

  /** Headers up to the first empty line. */
  function HeadersOf(s: string): seq<Header>
    decreases |s|
  {
    if s == [] || FirstLine(s) == [] then [] else HeaderOf(FirstLine(s)) + HeadersOf(AfterLine(s))
  }

  /** Version, code and message of a status line; what is missing keeps the value of EMPTY_RESPONSE. */
  function StatusOf(line: string): (string, int, string) {
    var (version, s1) := ExtractWord(Stream(line, true), EMPTY_RESPONSE.version);
    var (code, s2) := ExtractInt(s1, EMPTY_RESPONSE.code);
    var (message, s3) := ExtractWord(s2, EMPTY_RESPONSE.message);
    (version, code, message)
  }

  function RequestLineOf(line: string): (string, string, string) {
    var (verb, s1) := ExtractWord(Stream(line, true), []);
    var (uri, s2) := ExtractWord(s1, []);
    var (version, s3) := ExtractWord(s2, []);
    (verb, uri, version)
  }

  /** Where the head ends. */
  function HeadEnd(data: string): (n: nat)
    ensures n <= |data| && (n < |data| ==> n + 4 <= |data|)
  {
    FindFrom(data, CRLF2, 0)
  }

  /** No complete head, or an empty one, is refused. */
  predicate HasHead(data: string) {
    0 < HeadEnd(data) < |data|
  }

  function DecodedResponse(data: string): Option<Response> {
    var n := HeadEnd(data);
    if !HasHead(data) then None
    else
      var head := data[..n];
      var (version, code, message) := StatusOf(FirstLine(head));
      Some(Response(version, code, message, HeadersOf(AfterLine(head)), data[n + 4..]))
  }

  function DecodedRequest(data: string): Option<Request> {
    var n := HeadEnd(data);
    if !HasHead(data) then None
    else
      var head := data[..n];
      var (verb, uri, version) := RequestLineOf(FirstLine(head));
      Some(Request(verb, uri, version, HeadersOf(AfterLine(head)), data[n + 4..]))
  }

  // ---- printing, then parsing ----

  predicate CleanName(name: string) {
    NoBreak(name) && forall i :: 0 <= i < |name| ==> name[i] != ':'
  }

  ghost predicate CleanHeaders(headers: seq<Header>) {
    forall i :: 0 <= i < |headers| ==> CleanName(headers[i].name) && NoBreak(headers[i].value)
  }

  /** A response whose parts stay within their line, with a status code of the source's `int`. */
  ghost predicate Printable(r: Response) {
    IsToken(r.version) && INT_MIN <= r.code <= INT_MAX && NoBreak(r.message) && CleanHeaders(r.headers)
  }

  function Stripped(headers: seq<Header>): (r: seq<Header>)
    ensures |r| == |headers|
    ensures forall i :: 0 <= i < |r| ==> r[i] == Header(headers[i].name, StripSpaces(headers[i].value))
  {
    if headers == [] then []
    else [Header(headers[0].name, StripSpaces(headers[0].value))] + Stripped(headers[1..])
  }

  function FirstToken(message: string): string {
    var t := SkipSpace(message);
    if t == [] then EMPTY_RESPONSE.message else Word(t)
  }

  function HeaderLines(headers: seq<Header>): (lines: seq<string>)
    ensures |lines| == |headers| && forall i :: 0 <= i < |lines| ==> lines[i] == HeaderLine(headers[i])
  {
    if headers == [] then [] else [HeaderLine(headers[0])] + HeaderLines(headers[1..])
  }

  function HeadLines(start: string, headers: seq<Header>): seq<string> {
    [start] + HeaderLines(headers)
  }

  lemma {:induction false} MessageIsLines(start: string, headers: seq<Header>, body: string)
    ensures Message(start, headers, body) == Joined(HeadLines(start, headers)) + CRLF2 + body
    decreases |headers|
  {
    var lines := HeadLines(start, headers);
    assert lines[1..] == HeaderLines(headers);
    if headers == [] {
      assert Joined(lines) == start;
      assert CRLF + CRLF == CRLF2;
      assert start + CRLF + [] + CRLF == start + (CRLF + CRLF);
    } else {
      var first := HeaderLine(headers[0]);
      MessageIsLines(first, headers[1..], body);
      assert lines[1..] == HeadLines(first, headers[1..]);
      assert Joined(lines) == start + CRLF + Joined(lines[1..]);
      assert Message(start, headers, body) == start + CRLF + Message(first, headers[1..], body);
    }
  }

  lemma HeaderLineClean(h: Header)
    requires CleanName(h.name) && NoBreak(h.value)
    ensures HeaderLine(h) != [] && NoBreak(HeaderLine(h))
  {
  }

  lemma HeadersClean(headers: seq<Header>)
    requires CleanHeaders(headers)
    ensures CleanLines(HeaderLines(headers))
  {
    forall i | 0 <= i < |headers| ensures HeaderLine(headers[i]) != [] && NoBreak(HeaderLine(headers[i])) {
      HeaderLineClean(headers[i]);
    }
  }

  lemma HeaderReadBack(h: Header)
    requires CleanName(h.name)
    ensures HeaderOf(HeaderLine(h)) == [Header(h.name, StripSpaces(h.value))]
  {
    var line, k := HeaderLine(h), ColonAt(HeaderLine(h));
    assert line[|h.name|] == ':' && line[..|h.name|] == h.name;
    assert forall i :: 0 <= i < |h.name| ==> line[i] == h.name[i];
    assert k == |h.name|;
    assert line[k + 1..] == [' '] + h.value;
    assert ([' '] + h.value)[1..] == h.value;
  }

  lemma ReadFirst(s: string)
    requires s != [] && FirstLine(s) != []
    ensures HeadersOf(s) == HeaderOf(FirstLine(s)) + HeadersOf(AfterLine(s))
  {
  }

  lemma {:induction false} HeadersReadBack(headers: seq<Header>)
    requires CleanHeaders(headers)
    ensures HeadersOf(Joined(HeaderLines(headers))) == Stripped(headers)
    decreases |headers|
  {
    if headers != [] {
      var lines := HeaderLines(headers);
      HeadersReadBack(headers[1..]);
      HeaderReadBack(headers[0]);
      HeadersClean(headers);
      FirstOfJoined(lines);
      HeaderLineClean(headers[0]);
      assert lines[1..] == HeaderLines(headers[1..]);
      ReadFirst(Joined(lines));
    }
  }

  /** Any printed message: the head ends where the headers do, and each part is read back from it. */
  lemma HeadReadBack(start: string, headers: seq<Header>, body: string)
    requires start != [] && NoBreak(start) && CleanHeaders(headers)
    ensures var data := Message(start, headers, body);
            var n := HeadEnd(data);
            && HasHead(data) && FirstLine(data[..n]) == start
            && HeadersOf(AfterLine(data[..n])) == Stripped(headers) && data[n + 4..] == body
  {
    var lines := HeadLines(start, headers);
    var data, head := Message(start, headers, body), Joined(lines);
    HeadersClean(headers);
    MessageIsLines(start, headers, body);
    HeadEnds(lines, body);
    assert data[|head|..|head| + 4] == CRLF2;
    FindFirst(data, CRLF2, |head|);
    FirstOfJoined(lines);
    assert data[..|head|] == head && data[|head| + 4..] == body;
    assert lines[1..] == HeaderLines(headers);
    HeadersReadBack(headers);
  }

  lemma StatusReadBack(r: Response)
    requires IsToken(r.version) && INT_MIN <= r.code <= INT_MAX
    ensures StatusOf(StatusLine(r)) == (r.version, r.code, FirstToken(r.message))
  {
    var rest := [' '] + r.message;
    var behind := [' '] + (Printed(r.code) + rest);
    StatusLineParts(r.version, Printed(r.code), r.message);
    ExtractToken(r.version, behind, EMPTY_RESPONSE.version);
    ExtractPrinted(r.code, rest, EMPTY_RESPONSE.code);
    SkipBehindSpace(r.message);
  }

  lemma StatusLineParts(version: string, code: string, message: string)
    ensures version + SPACE + code + SPACE + message == version + ([' '] + (code + ([' '] + message)))
  {
  }

  lemma SkipBehindSpace(s: string)
    ensures SkipSpace([' '] + s) == SkipSpace(s)
  {
    assert ([' '] + s)[1..] == s;
  }

  lemma StatusLineClean(r: Response)
    requires IsToken(r.version) && NoBreak(r.message)
    ensures StatusLine(r) != [] && NoBreak(StatusLine(r))
  {
    PrintedClean(r.code);
    assert NoBreak(SPACE);
    JoinClean(r.version, SPACE);
    JoinClean(r.version + SPACE, Printed(r.code));
    JoinClean(r.version + SPACE + Printed(r.code), SPACE);
    JoinClean(r.version + SPACE + Printed(r.code) + SPACE, r.message);
  }

  lemma PrintedClean(n: int)
    ensures NoBreak(Printed(n))
  {
  }

  lemma JoinClean(a: string, b: string)
    requires NoBreak(a) && NoBreak(b)
    ensures NoBreak(a + b)
  {
  }

  /** What a printed response is parsed as: the same, but the status message is cut to its first token
      (or becomes "OK") and header values lose leading spaces. The body may contain anything. */
  lemma PrintThenParse(r: Response)
    requires Printable(r)
    ensures DecodedResponse(Text(r))
         == Some(r.(message := FirstToken(r.message), headers := Stripped(r.headers)))
  {
    StatusLineClean(r);
    StatusReadBack(r);
    HeadReadBack(StatusLine(r), r.headers, r.body);
  }

  // ---- requests ----

  lemma RequestLineReadBack(verb: string, uri: string, version: string)
    requires IsToken(verb) && IsToken(uri) && IsToken(version)
    ensures RequestLineOf(verb + SPACE + uri + SPACE + version) == (verb, uri, version)
  {
    var rest := [' '] + (version + []);
    var behind := [' '] + (uri + rest);
    ExtractToken(verb, behind, []);
    ExtractToken(uri, rest, []);
    ExtractToken(version, [], []);
    assert version + [] == version;
    StatusLineParts(verb, uri, version);
  }

  /** A request line with parts missing leaves them empty. */
  lemma VerbOnly(verb: string)
    requires IsToken(verb)
    ensures RequestLineOf([]) == ([], [], []) && RequestLineOf(verb) == (verb, [], [])
  {
    ExtractToken(verb, [], []);
    assert verb + [] == verb;
  }

  lemma VerbAndUri(verb: string, uri: string)
    requires IsToken(verb) && IsToken(uri)
    ensures RequestLineOf(verb + SPACE + uri) == (verb, uri, [])
  {
    LastToken(uri);
    ExtractToken(verb, [' '] + uri, []);
    InFront(verb, uri);
  }

  lemma InFront(a: string, b: string)
    ensures a + SPACE + b == a + ([' '] + b)
  {
  }

  lemma LastToken(w: string)
    requires IsToken(w)
    ensures ExtractWord(Stream([' '] + w, true), []) == (w, Stream([], true))
  {
    ExtractToken(w, [], []);
    assert w + [] == w;
  }

  lemma RequestLineClean(verb: string, uri: string, version: string)
    requires IsToken(verb) && IsToken(uri) && IsToken(version)
    ensures verb + SPACE + uri + SPACE + version != [] && NoBreak(verb + SPACE + uri + SPACE + version)
  {
    assert NoBreak(SPACE);
    JoinClean(verb, SPACE);
    JoinClean(verb + SPACE, uri);
    JoinClean(verb + SPACE + uri, SPACE);
    JoinClean(verb + SPACE + uri + SPACE, version);
  }

  /** Any request printed from three tokens, clean headers and any body is parsed to these parts, each in
      its place, header values without their leading spaces. */
  lemma RequestReadBack(verb: string, uri: string, version: string, headers: seq<Header>, body: string)
    requires IsToken(verb) && IsToken(uri) && IsToken(version) && CleanHeaders(headers)
    ensures DecodedRequest(Message(verb + SPACE + uri + SPACE + version, headers, body))
         == Some(Request(verb, uri, version, Stripped(headers), body))
  {
    RequestLineClean(verb, uri, version);
    RequestLineReadBack(verb, uri, version);
    HeadReadBack(verb + SPACE + uri + SPACE + version, headers, body);
  }

  // ---- status lines that are not as printed ----

  /** A status line without a code keeps the defaults for what is missing. */
  lemma NoCode(version: string)
    requires IsToken(version)
    ensures StatusOf([]) == ("HTTP/1.1", 200, "OK") && StatusOf(version) == (version, 200, "OK")
  {
    ExtractToken(version, [], EMPTY_RESPONSE.version);
    assert version + [] == version;
  }

  lemma VersionRead(version: string, t: string)
    requires IsToken(version)
    ensures ExtractWord(Stream(version + SPACE + t, true), EMPTY_RESPONSE.version)
         == (version, Stream([' '] + t, true))
  {
    ExtractToken(version, [' '] + t, EMPTY_RESPONSE.version);
    assert version + SPACE + t == version + ([' '] + t);
  }

  /** And one without a message the default message. */
  lemma NoMessage(version: string, code: int)
    requires IsToken(version) && INT_MIN <= code <= INT_MAX
    ensures StatusOf(version + SPACE + Printed(code)) == (version, code, "OK")
  {
    VersionRead(version, Printed(code));
    ExtractPrinted(code, [], EMPTY_RESPONSE.code);
    assert Printed(code) + [] == Printed(code);
  }

  lemma FailedCode(version: string, t: string)
    requires IsToken(version) && !ExtractInt(Stream([' '] + t, true), EMPTY_RESPONSE.code).1.good
    ensures StatusOf(version + SPACE + t)
         == (version, ExtractInt(Stream([' '] + t, true), EMPTY_RESPONSE.code).0, "OK")
  {
    VersionRead(version, t);
  }

  /** A code that does not begin with a digit or a sign is read as 0, and the message behind it is not read. */
  lemma NoNumberForCode(version: string, word: string)
    requires IsToken(version) && word != [] && !IsSpace(word[0])
    requires !IsDigit(word[0]) && word[0] != '-' && word[0] != '+'
    ensures StatusOf(version + SPACE + word) == (version, 0, "OK")
  {
    SkipOne(word);
    assert Digits(word) == [];
    FailedCode(version, word);
  }

  /** A code beyond int is read as the nearest int, and the message behind it is not read. */
  lemma CodeTooLarge(version: string, digits: string, rest: string)
    requires IsToken(version) && digits != [] && (forall i :: 0 <= i < |digits| ==> IsDigit(digits[i]))
    requires Number(digits) > INT_MAX && (rest == [] || !IsDigit(rest[0]))
    ensures StatusOf(version + SPACE + (digits + rest)) == (version, 2147483647, "OK")
  {
    NoSignRead(digits, rest, EMPTY_RESPONSE.code);
    TooManyDigits(digits, rest);
    FailedCode(version, digits + rest);
  }

  lemma TooManyDigits(digits: string, rest: string)
    requires digits != [] && (forall i :: 0 <= i < |digits| ==> IsDigit(digits[i]))
    requires Number(digits) > INT_MAX && (rest == [] || !IsDigit(rest[0]))
    ensures ReadDigits(digits + rest, false).0 == INT_MAX && !ReadDigits(digits + rest, false).1.good
  {
    DigitsOf(digits, rest);
  }

  /** A code below int is read as the least int. */
  lemma CodeTooSmall(version: string, digits: string, rest: string)
    requires IsToken(version) && digits != [] && (forall i :: 0 <= i < |digits| ==> IsDigit(digits[i]))
    requires Number(digits) > -INT_MIN && (rest == [] || !IsDigit(rest[0]))
    ensures StatusOf(version + SPACE + (['-'] + (digits + rest))) == (version, -2147483648, "OK")
  {
    SignRead(digits + rest, EMPTY_RESPONSE.code);
    DigitsOf(digits, rest);
    FailedCode(version, ['-'] + (digits + rest));
  }

  /** A response printed without a message comes back with the default one. */
  lemma EmptyMessageIsOk(r: Response)
    requires Printable(r) && r.message == []
    ensures DecodedResponse(Text(r)) == Some(r.(message := "OK", headers := Stripped(r.headers)))
  {
    PrintThenParse(r);
  }

  // ---- what is refused ----

  /** The decoders return nothing if and only if there is no CRLFCRLF, or the text begins with it. */
  lemma NullIff(data: string)
    ensures DecodedRequest(data).None?
            <==> (forall i :: 0 <= i < |data| ==> !Occurs(data, CRLF2, i)) || Occurs(data, CRLF2, 0)
    ensures DecodedResponse(data).None? <==> DecodedRequest(data).None?
  {
    if data == [] {
      assert !Occurs(data, CRLF2, 0);
    }
  }

  // ---- header lines that are not as printed ----

  /** A line without a colon is skipped. */
  lemma NoColonSkipped(line: string)
    requires forall i :: 0 <= i < |line| ==> line[i] != ':'
    ensures HeaderOf(line) == []
  {
  }

  function AllHeaders(lines: seq<string>): seq<Header> {
    if lines == [] then [] else HeaderOf(lines[0]) + AllHeaders(lines[1..])
  }

  /** The line with the ending getline leaves on it. */
  function Ended(line: string, cr: bool): string {
    if cr then line + ['\r'] else line
  }

  function AllEnded(lines: seq<string>, cr: seq<bool>): seq<string>
    requires |cr| == |lines|
  {
    if lines == [] then [] else [Ended(lines[0], cr[0])] + AllEnded(lines[1..], cr[1..])
  }

  lemma EndedLine(line: string, cr: bool)
    requires line != [] && NoBreak(line)
    ensures Chomp(Ended(line, cr)) == line
    ensures forall i :: 0 <= i < |Ended(line, cr)| ==> Ended(line, cr)[i] != '\n'
  {
    assert Ended(line, true)[..|line|] == line;
  }

  /** Lines may end with CRLF or with a line feed alone; the headers are those of all lines up to an
      empty one, which may itself end either way. */
  lemma {:induction false} MixedEndings(lines: seq<string>, cr: seq<bool>, tail: seq<string>)
    requires CleanLines(lines) && |cr| == |lines|
    requires tail == [] || tail[0] == [] || tail[0] == ['\r']
    ensures HeadersOf(Fed(AllEnded(lines, cr) + tail)) == AllHeaders(lines)
    decreases |lines|
  {
    var all := AllEnded(lines, cr) + tail;
    if lines == [] {
      EmptyLineEnds(all, tail);
    } else {
      var rest := AllEnded(lines[1..], cr[1..]) + tail;
      assert all == [Ended(lines[0], cr[0])] + rest;
      MixedEndings(lines[1..], cr[1..], tail);
      EndedLine(lines[0], cr[0]);
      assert all[0] == Ended(lines[0], cr[0]) && all[1..] == rest;
      FedNotEmpty(all);
      FirstOfFed(all);
      ReadFirst(Fed(all));
    }
  }

  lemma FedNotEmpty(all: seq<string>)
    requires all != [] && all[0] != []
    ensures Fed(all) != []
  {
  }

  lemma EmptyLineEnds(all: seq<string>, tail: seq<string>)
    requires all == tail && (tail == [] || tail[0] == [] || tail[0] == ['\r'])
    ensures HeadersOf(Fed(all)) == []
  {
    if Fed(all) != [] {
      FirstOfFed(all);
      assert Chomp(all[0]) == [];
    }
  }

  ghost predicate NoLeadingSpace(headers: seq<Header>) {
    forall i :: 0 <= i < |headers| ==> headers[i].value == [] || headers[i].value[0] != ' '
  }

  lemma StrippedIff(headers: seq<Header>)
    ensures Stripped(headers) == headers <==> NoLeadingSpace(headers)
  {
    if NoLeadingSpace(headers) {
      forall i | 0 <= i < |headers| ensures Stripped(headers)[i] == headers[i] {
      }
    } else {
      var i :| 0 <= i < |headers| && headers[i].value != [] && headers[i].value[0] == ' ';
      assert Stripped(headers)[i] != headers[i];
    }
  }

  lemma FirstTokenIff(message: string)
    ensures FirstToken(message) == message <==> IsToken(message)
  {
    if IsToken(message) {
      WordOfToken(message, []);
      assert message + [] == message;
    }
  }

  /** The round trip is exact if and only if the status message is one token and no header value
      starts with a space. */
  lemma RoundTripIff(r: Response)
    requires Printable(r)
    ensures DecodedResponse(Text(r)) == Some(r) <==> IsToken(r.message) && NoLeadingSpace(r.headers)
  {
    PrintThenParse(r);
    StrippedIff(r.headers);
    FirstTokenIff(r.message);
  }

  /** A reason phrase of several words is cut to its first. */
  lemma SecondWordIsLost(r: Response, first: string, more: string)
    requires Printable(r) && r.headers == [] && IsToken(first) && r.message == first + SPACE + more
    ensures DecodedResponse(Text(r)) == Some(r.(message := first)) && r.message != first
  {
    PrintThenParse(r);
    FirstTokenIs(first, more);
    assert Stripped(r.headers) == r.headers;
  }

  lemma FirstTokenIs(first: string, more: string)
    requires IsToken(first)
    ensures FirstToken(first + SPACE + more) == first && |first + SPACE + more| > |first|
  {
    var rest := SPACE + more;
    assert first + SPACE + more == first + rest;
    WordOfToken(first, rest);
    assert (first + rest)[0] == first[0];
  }

  /** A standard reason phrase that does not survive. */
  lemma NotFoundIsCut()
    ensures var r := EMPTY_RESPONSE.(code := 404, message := "Not" + SPACE + "Found");
            DecodedResponse(Text(r)) == Some(r.(message := "Not"))
  {
    var not, found: string := "Not", "Found";
    VersionIsToken();
    var r := EMPTY_RESPONSE.(code := 404, message := not + SPACE + found);
    SecondWordIsLost(r, not, found);
  }

  lemma VersionIsToken()
    ensures IsToken(EMPTY_RESPONSE.version)
  {
  }

  // ---- any sequence of SetBody and SetContentType ----

  datatype Change = Body(body: string) | ContentType(contentType: string)

  function Changed(r: Response, c: Change): Response {
    match c
    case Body(b) => r.(body := b, headers := Updated(r.headers, CONTENT_LENGTH, Decimal(|b|)))
    case ContentType(t) => r.(headers := Updated(r.headers, CONTENT_TYPE, t))
  }

  function AllChanged(r: Response, changes: seq<Change>): Response {
    if changes == [] then r else Changed(AllChanged(r, changes[..|changes| - 1]), changes[|changes| - 1])
  }

  function LastBody(changes: seq<Change>): Option<string> {
    if changes == [] then None
    else if changes[|changes| - 1].Body? then Some(changes[|changes| - 1].body)
    else LastBody(changes[..|changes| - 1])
  }

  ghost predicate CleanChanges(changes: seq<Change>) {
    forall i :: 0 <= i < |changes| && changes[i].ContentType? ==> NoBreak(changes[i].contentType)
  }

  ghost predicate KnownNames(headers: seq<Header>) {
    forall i :: 0 <= i < |headers| ==> headers[i].name == CONTENT_TYPE || headers[i].name == CONTENT_LENGTH
  }

  /** After any sequence of changes names are unique, and once a body was set the response has that
      body and its length as Content-Length. */
  lemma {:induction false} ChangesConsistent(r: Response, changes: seq<Change>)
    requires r.headers == []
    ensures var q := AllChanged(r, changes);
            && q == r.(headers := q.headers,
                       body := if LastBody(changes).Some? then LastBody(changes).value else r.body)
            && UniqueNames(q.headers) && KnownNames(q.headers)
            && (LastBody(changes).Some? ==> Lookup(q.headers, CONTENT_LENGTH) == Decimal(|q.body|))
    decreases |changes|
  {
    if changes != [] {
      var p, c := AllChanged(r, changes[..|changes| - 1]), changes[|changes| - 1];
      ChangesConsistent(r, changes[..|changes| - 1]);
      var name := if c.Body? then CONTENT_LENGTH else CONTENT_TYPE;
      var value := if c.Body? then Decimal(|c.body|) else c.contentType;
      UpdateKeepsUnique(p.headers, name, value);
      UpdatedAt(p.headers, name, value, FirstNamed(p.headers, name));
      NamesDiffer();
      LookupUpdated(p.headers, name, value, CONTENT_LENGTH);
    }
  }

  lemma NamesDiffer()
    ensures CONTENT_TYPE != CONTENT_LENGTH && CleanName(CONTENT_TYPE) && CleanName(CONTENT_LENGTH)
  {
    assert |CONTENT_TYPE| != |CONTENT_LENGTH|;
  }

  lemma {:induction false} ChangesClean(r: Response, changes: seq<Change>)
    requires r.headers == [] && CleanChanges(changes)
    ensures CleanHeaders(AllChanged(r, changes).headers)
    decreases |changes|
  {
    if changes != [] {
      var p, c := AllChanged(r, changes[..|changes| - 1]), changes[|changes| - 1];
      ChangesClean(r, changes[..|changes| - 1]);
      var name := if c.Body? then CONTENT_LENGTH else CONTENT_TYPE;
      var value := if c.Body? then Decimal(|c.body|) else c.contentType;
      UpdatedAt(p.headers, name, value, FirstNamed(p.headers, name));
      NamesDiffer();
      DecimalClean(value, c);
    }
  }

  lemma DecimalClean(value: string, c: Change)
    requires c.Body? ==> value == Decimal(|c.body|)
    requires c.ContentType? ==> NoBreak(value)
    ensures NoBreak(value)
  {
  }

  lemma {:induction false} LookupStripped(headers: seq<Header>, name: string)
    ensures Lookup(Stripped(headers), name) == StripSpaces(Lookup(headers, name))
    decreases |headers|
  {
    if headers != [] {
      LookupStripped(headers[1..], name);
      assert Stripped(headers)[1..] == Stripped(headers[1..]);
    }
  }

  /** After any changes that set a body, the printed message parses to a Content-Length that stoul
      reads as the length of the body, and to that body. */
  lemma ContentLengthSurvives(r: Response, changes: seq<Change>)
    requires Printable(r) && r.headers == [] && CleanChanges(changes)
    requires LastBody(changes).Some? && |LastBody(changes).value| < SIZE_MODULUS
    ensures var d := DecodedResponse(Text(AllChanged(r, changes)));
            && d.Some? && d.value.body == LastBody(changes).value && UniqueNames(d.value.headers)
            && Stoul(Lookup(d.value.headers, CONTENT_LENGTH)) == Some(|d.value.body|)
  {
    var q := AllChanged(r, changes);
    ChangesConsistent(r, changes);
    ChangesClean(r, changes);
    PrintThenParse(q);
    LookupStripped(q.headers, CONTENT_LENGTH);
    StoulOfDecimal(|q.body|);
  }
}
