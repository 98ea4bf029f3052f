/** Which bodies a byte stream of HTTP requests carries, apart from how it is cut into reads. */
module HttpFraming {
  import opened Sequences
  import opened S = SyncConnection
  import opened HttpText
  import opened HttpCoder

  /** What a session learns from a head: the length of the body behind it, or why it goes no further.
      Refused is a head the decoder returns nothing for, Throws a Content-Length stoul rejects. */
  datatype Announced = Length(n: nat) | Refused | Throws

  function LengthOf(headers: seq<Header>): Announced {
    AnnouncedBy(Lookup(headers, CONTENT_LENGTH))
  }

  /** The value of a Content-Length header, empty when there is none. */
  function AnnouncedBy(text: string): Announced {
    if text == [] then Length(0)
    else match Stoul(text) case None => Throws case Some(n) => Length(n)
  }

  function Announces(head: string): Announced {
    match DecodedRequest(head)
    case None => Refused
    case Some(request) => LengthOf(request.headers)
  }

  /** A head that read-until can find: it ends with its first CRLFCRLF and fits the read buffer. */
  predicate IsHead(head: string) {
    Contains(head, CRLF2) && UpTo(head, CRLF2) == head && |head| <= BUFFER_SIZE
  }

  predicate StartsWithHead(s: string) {
    Contains(s, CRLF2) && |UpTo(s, CRLF2)| <= BUFFER_SIZE
  }

  function BodySize(n: nat): nat {
    if n <= BUFFER_SIZE then n else BUFFER_SIZE
  }

  /** The bodies in a stream: behind each head as many bytes as it announces, though never more than
      the read buffer holds; up to the first head that is incomplete, too long, refused or throws. */
  function Parsed(s: string): seq<string>
    decreases |s|, 1
  {
    if !StartsWithHead(s) then []
    else
      var head := UpTo(s, CRLF2);
      ParsedBehind(Announces(head), s[|head|..])
  }

  function ParsedBehind(a: Announced, s: string): seq<string>
    decreases |s|, 3
  {
    if a.Length? then ParsedBody(a.n, s) else []
  }

  /** The bodies when a body of n bytes comes first. */
  function ParsedBody(n: nat, s: string): seq<string>
    decreases |s|, 2
  {
    var size := BodySize(n);
    if size > |s| then [] else [s[..size]] + Parsed(s[size..])
  }

  datatype HttpMessage = HttpMessage(head: string, body: string)

  predicate WellFormed(m: HttpMessage) {
    IsHead(m.head) && Announces(m.head) == Length(|m.body|) && |m.body| <= BUFFER_SIZE
  }

  ghost predicate AllWellFormed(ms: seq<HttpMessage>) {
    forall i :: 0 <= i < |ms| ==> WellFormed(ms[i])
  }

  function Wire(ms: seq<HttpMessage>): string {
    if ms == [] then [] else ms[0].head + ms[0].body + Wire(ms[1..])
  }

  function Bodies(ms: seq<HttpMessage>): (bodies: seq<string>)
    ensures |bodies| == |ms| && forall i :: 0 <= i < |ms| ==> bodies[i] == ms[i].body
  {
    if ms == [] then [] else [ms[0].body] + Bodies(ms[1..])
  }

  /** The first delimiter does not move when more text follows. */
  lemma FoundInLonger(s: string, more: string)
    requires Contains(s, CRLF2)
    ensures Contains(s + more, CRLF2) && UpTo(s + more, CRLF2) == UpTo(s, CRLF2)
  {
    var k := FindFrom(s, CRLF2, 0);
    assert Occurs(s, CRLF2, k);
    assert (s + more)[k..k + 4] == s[k..k + 4];
    forall i | 0 <= i < k ensures !Occurs(s + more, CRLF2, i) {
      assert !Occurs(s, CRLF2, i);
      assert (s + more)[i..i + 4] == s[i..i + 4];
    }
    FindFirst(s + more, CRLF2, k);
    assert (s + more)[..k + 4] == s[..k + 4];
  }

  /** What read-until returns is a head by itself. */
  lemma UpToIsHead(s: string)
    requires StartsWithHead(s)
    ensures IsHead(UpTo(s, CRLF2))
  {
    var k := FindFrom(s, CRLF2, 0);
    var h := UpTo(s, CRLF2);
    assert Occurs(s, CRLF2, k);
    assert h[k..k + 4] == s[k..k + 4];
    forall i | 0 <= i < k ensures !Occurs(h, CRLF2, i) {
      assert !Occurs(s, CRLF2, i);
      assert h[i..i + 4] == s[i..i + 4];
    }
    FindFirst(h, CRLF2, k);
  }

  /** A head alone decodes to a request without a body. */
  lemma HeadHasNoBody(h: string)
    requires IsHead(h)
    ensures DecodedRequest(h).Some? ==> DecodedRequest(h).value.body == []
  {
  }

  /** The only head that is refused is the one without a request line; the session then waits for
      nothing and goes no further. */
  lemma RefusedIff(h: string)
    requires IsHead(h)
    ensures Announces(h).Refused? <==> h == CRLF2
  {
    var k := FindFrom(h, CRLF2, 0);
    assert Occurs(h, CRLF2, k) && h == h[..k + 4];
    if k == 0 {
      assert h[0..4] == h;
    }
  }

  /** Parsing a stream that starts with a head goes on behind it. */
  lemma ParsedAtHead(head: string, rest: string)
    requires IsHead(head)
    ensures Parsed(head + rest) == ParsedBehind(Announces(head), rest)
  {
    FoundInLonger(head, rest);
    assert (head + rest)[|head|..] == rest;
  }

  lemma ParsedMessage(m: HttpMessage, behind: string)
    requires WellFormed(m)
    ensures Parsed(m.head + m.body + behind) == [m.body] + Parsed(behind)
  {
    var rest := m.body + behind;
    ParsedAtHead(m.head, rest);
    assert m.head + m.body + behind == m.head + rest;
    assert rest[..|m.body|] == m.body && rest[|m.body|..] == behind;
  }

  /** The bodies of a stream of well-formed messages are theirs, in order, whatever follows. */
  lemma {:induction false} ParsedWire(ms: seq<HttpMessage>, behind: string)
    requires AllWellFormed(ms)
    ensures Parsed(Wire(ms) + behind) == Bodies(ms) + Parsed(behind)
    decreases |ms|
  {
    if ms == [] {
      assert Wire(ms) + behind == behind;
    } else {
      var more := Wire(ms[1..]) + behind;
      ParsedWire(ms[1..], behind);
      ParsedMessage(ms[0], more);
      Regroup(ms[0].head + ms[0].body, Wire(ms[1..]), behind);
      Regroup([ms[0].body], Bodies(ms[1..]), Parsed(behind));
    }
  }

  lemma ParsedWireAlone(ms: seq<HttpMessage>)
    requires AllWellFormed(ms)
    ensures Parsed(Wire(ms)) == Bodies(ms)
  {
    ParsedWire(ms, []);
    NothingBehind(Wire(ms), Bodies(ms));
  }

  lemma NothingBehind(s: string, bodies: seq<string>)
    ensures s + [] == s && bodies + Parsed([]) == bodies
  {
  }

  /** A body longer than the read buffer is cut, and what is left of it is taken for the next head. */
  lemma LongBodyIsCut(head: string, body: string, behind: string)
    requires IsHead(head) && Announces(head) == Length(|body|) && |body| > BUFFER_SIZE
    ensures Parsed(head + body + behind) == [body[..4096]] + Parsed(body[4096..] + behind)
  {
    Regroup(head, body, behind);
    ParsedAtHead(head, body + behind);
    CutAt(body, behind, BUFFER_SIZE);
  }

  /** A body that is announced in full is delivered in full if and only if the read buffer can hold it. */
  lemma WholeBodyIff(head: string, body: string, behind: string)
    requires IsHead(head) && Announces(head) == Length(|body|)
    ensures Parsed(head + body + behind) != []
    ensures Parsed(head + body + behind)[0] == body <==> |body| <= 4096
  {
    if |body| <= BUFFER_SIZE {
      ParsedMessage(HttpMessage(head, body), behind);
    } else {
      LongBodyIsCut(head, body, behind);
    }
  }

  /** A head that stops a session: it has no request line, or stoul rejects its Content-Length. */
  predicate Stops(head: string) {
    IsHead(head) && (head == CRLF2 || BadLength(head))
  }

  /** A head with a Content-Length that is not empty and that stoul rejects. */
  predicate BadLength(head: string) {
    && DecodedRequest(head).Some?
    && var text := Lookup(DecodedRequest(head).value.headers, CONTENT_LENGTH);
       text != [] && Stoul(text).None?
  }

  /** Only such a head throws; any other that decodes announces a length, none at all being 0. */
  lemma AnnouncesMeans(head: string)
    ensures Announces(head).Throws? <==> BadLength(head)
    ensures DecodedRequest(head).Some? && !BadLength(head) ==>
              var text := Lookup(DecodedRequest(head).value.headers, CONTENT_LENGTH);
              Announces(head) == Length(if text == [] then 0 else Stoul(text).value)
  {
  }

  ghost predicate NoneNamed(headers: seq<Header>, name: string) {
    forall i :: 0 <= i < |headers| ==> headers[i].name != name
  }

  lemma {:induction false} LookupNone(headers: seq<Header>, name: string)
    requires NoneNamed(headers, name)
    ensures Lookup(headers, name) == []
    decreases |headers|
  {
    if headers != [] {
      LookupNone(headers[1..], name);
    }
  }

  /** A printed head without a Content-Length has an empty body behind it, and the next head follows at once. */
  lemma NoLengthNoBody(start: string, headers: seq<Header>, behind: string)
    requires start != [] && NoBreak(start) && CleanHeaders(headers) && NoneNamed(headers, CONTENT_LENGTH)
    requires |Message(start, headers, [])| <= BUFFER_SIZE
    ensures IsHead(Message(start, headers, [])) && Announces(Message(start, headers, [])) == Length(0)
    ensures Parsed(Message(start, headers, []) + behind) == [[]] + Parsed(behind)
  {
    var head := Message(start, headers, []);
    PrintedHead(start, headers);
    LookupNone(headers, CONTENT_LENGTH);
    LookupStripped(headers, CONTENT_LENGTH);
    ParsedAtHead(head, behind);
    assert behind[..0] == [] && behind[0..] == behind;
  }

  /** Such a head ends what a stream carries, whatever comes behind it. */
  lemma ParsedUpToStop(ms: seq<HttpMessage>, head: string, behind: string)
    requires AllWellFormed(ms) && Stops(head)
    ensures Parsed(Wire(ms) + (head + behind)) == Bodies(ms)
  {
    RefusedIff(head);
    AnnouncesMeans(head);
    ParsedAtHead(head, behind);
    ParsedWire(ms, head + behind);
    assert Bodies(ms) + [] == Bodies(ms);
  }

  /** A printed head whose Content-Length does not begin with a digit or a sign makes stoul throw. */
  lemma NoNumberThrows(start: string, value: string)
    requires start != [] && NoBreak(start) && NoBreak(value) && value != []
    requires !IsSpace(value[0]) && !IsDigit(value[0]) && value[0] != '-' && value[0] != '+'
    ensures Announces(Message(start, [Header(CONTENT_LENGTH, value)], [])) == Throws
    ensures var h := Message(start, [Header(CONTENT_LENGTH, value)], []); Contains(h, CRLF2) && UpTo(h, CRLF2) == h
  {
    var headers := [Header(CONTENT_LENGTH, value)];
    NamesDiffer();
    PrintedHead(start, headers);
    LookupStripped(headers, CONTENT_LENGTH);
    assert Digits(value) == [];
  }

  lemma CutAt(a: string, b: string, n: nat)
    requires n <= |a|
    ensures (a + b)[..n] == a[..n] && (a + b)[n..] == a[n..] + b
  {
  }

  // ---- printed messages are well-formed ----

  /** The head of a printed message. */
  lemma PrintedHead(start: string, headers: seq<Header>)
    requires start != [] && NoBreak(start) && CleanHeaders(headers)
    ensures var h := Message(start, headers, []);
            && HasHead(h) && HeadEnd(h) + 4 == |h| && Contains(h, CRLF2) && UpTo(h, CRLF2) == h
            && FirstLine(h[..HeadEnd(h)]) == start && HeadersOf(AfterLine(h[..HeadEnd(h)])) == Stripped(headers)
  {
    HeadReadBack(start, headers, []);
    var h := Message(start, headers, []);
    assert |h[HeadEnd(h) + 4..]| == 0;
  }

  /** A request is well-formed when its first Content-Length, without leading spaces, is a number stoul
      reads as the length of its body; without a body the header may be missing. */
  lemma PrintedRequest(start: string, headers: seq<Header>, body: string)
    requires start != [] && NoBreak(start) && CleanHeaders(headers)
    requires LengthOf(Stripped(headers)) == Length(|body|) && |body| <= BUFFER_SIZE
    requires |Message(start, headers, [])| <= BUFFER_SIZE
    ensures WellFormed(HttpMessage(Message(start, headers, []), body))
    ensures Message(start, headers, []) + body == Message(start, headers, body)
  {
    PrintedHead(start, headers);
  }
}
