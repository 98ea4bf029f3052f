/** The length-prefixed encoding of requests and responses. */
module PbCoder {
  import opened Bytes

  const MAX_REQUEST_SIZE: nat := 4096
  const MAX_RESPONSE_SIZE: nat := 4096

  datatype Request = Request(msgId: bytes, serviceFullName: bytes, param: bytes) {
    function Size(): nat {
      |msgId| + |serviceFullName| + |param|
    }
  }

  datatype Response = Response(errorCode: int32, msgId: bytes, result: bytes) {
    function Size(): nat {
      |msgId| + |result| + 4
    }
  }

  /** What a decoder does: a value, the null pointer, or the exception thrown by substr. */
  datatype Decoded<T> = Ok(value: T) | Rejected | OutOfRange

  // ---- the format ----

  /** A body behind its prefix, which counts the prefix too. */
  function Frame(body: bytes): bytes
    requires |body| + 4 < TWO31
  {
    LE32(|body| + 4) + body
  }

  predicate RequestFits(r: Request) {
    16 + r.Size() < TWO31
  }

  function RequestBody(r: Request): (body: bytes)
    requires RequestFits(r)
    ensures |body| == 12 + r.Size()
  {
    LE32(|r.msgId|) + LE32(|r.serviceFullName|) + LE32(|r.param|) + r.msgId + r.serviceFullName + r.param
  }

  predicate ResponseFits(r: Response) {
    12 + r.Size() < TWO31
  }

  function ResponseBody(r: Response): (body: bytes)
    requires ResponseFits(r)
    ensures |body| == 8 + r.Size()
  {
    LE32(|r.msgId|) + LE32(|r.result|) + r.msgId + r.result + LE32(r.errorCode)
  }

  /** A small number's four bytes. */
  lemma SmallBytes(n: nat)
    requires n < 256
    ensures LE32(n) == [n as byte, 0, 0, 0]
  {
    assert n % TWO32 == n;
  }

  /** A request and a response, byte by byte: the length of the frame, the lengths of the parts in their
      order, the parts, and the error code of a response last. */
  lemma FrameBytes()
    ensures Frame(RequestBody(Request([9], [8, 7], [6, 5, 4])))
         == [22, 0, 0, 0] + [1, 0, 0, 0] + [2, 0, 0, 0] + [3, 0, 0, 0] + [9] + [8, 7] + [6, 5, 4]
    ensures Frame(ResponseBody(Response(3, [9], [8, 7])))
         == [19, 0, 0, 0] + [1, 0, 0, 0] + [2, 0, 0, 0] + [9] + [8, 7] + [3, 0, 0, 0]
  {
    SmallBytes(22);
    SmallBytes(19);
    SmallBytes(1);
    SmallBytes(2);
    SmallBytes(3);
  }

  // ---- decoding, with the conversions the code performs ----

  /** std::string_view::substr, whose arguments have been converted to size_t. */
  function Substr(s: bytes, pos: int, n: int): Decoded<bytes> {
    var p := ToSize(pos);
    if p > |s| then OutOfRange
    else Ok(s[p..if p + ToSize(n) < |s| then p + ToSize(n) else |s|])
  }

  function DecodedRequest(s: bytes): Decoded<Request> {
    if |s| < 12 || |s| > MAX_REQUEST_SIZE then Rejected
    else
      var a, b, c := I32(s), I32(s[4..]), I32(s[8..]);
      if ToSize(Wrap32(Wrap32(a + b) + c)) != |s| - 12 then Rejected else RequestAt(s, a, b, c)
  }

  /** The three strings behind the length fields, each starting where the last should have ended. */
  function RequestAt(s: bytes, a: int, b: int, c: int): Decoded<Request> {
    var i := Wrap32(12 + a);
    var msgId, name, param := Substr(s, 12, a), Substr(s, i, b), Substr(s, Wrap32(i + b), c);
    if msgId.Ok? && name.Ok? && param.Ok? then Ok(Request(msgId.value, name.value, param.value))
    else OutOfRange
  }

  lemma CheckedSum(w: int32, n: nat)
    requires 8 <= n <= MAX_RESPONSE_SIZE && (ToSize(w) + 4) % TWO64 == n - 8
    ensures w == n - 12
  {
  }

  /** Where the walk over a response ends: the lengths were checked, so four bytes are left. */
  lemma ResponseTail(a: int32, b: int32, n: nat)
    requires 8 <= n <= MAX_RESPONSE_SIZE && (ToSize(Wrap32(a + b)) + 4) % TWO64 == n - 8
    ensures Wrap32(a + b) == n - 12
    ensures Wrap32(Wrap32(8 + a) + b) == n - 4
  {
    CheckedSum(Wrap32(a + b), n);
    WrapSum(8 + a, b);
    WrapSum(a + b, 8);
    assert a + b + 8 == 8 + a + b;
  }

  function DecodedResponse(s: bytes): Decoded<Response> {
    if |s| < 8 || |s| > MAX_RESPONSE_SIZE then Rejected
    else
      var a, b := I32(s), I32(s[4..]);
      if (ToSize(Wrap32(a + b)) + 4) % TWO64 != |s| - 8 then Rejected
      else
        ResponseTail(a, b, |s|);
        ResponseAt(s, a, b)
  }

  /** The two strings behind the length fields, and the error code where the second should have ended. */
  function ResponseAt(s: bytes, a: int, b: int): Decoded<Response>
    requires 0 <= Wrap32(Wrap32(8 + a) + b) <= |s| - 4
  {
    var i := Wrap32(8 + a);
    var msgId, result := Substr(s, 8, a), Substr(s, i, b);
    if msgId.Ok? && result.Ok? then Ok(Response(I32(s[Wrap32(i + b)..]), msgId.value, result.value))
    else OutOfRange
  }

  // ---- round trips ----

  /** The prefix of a frame is the frame's length. */
  lemma FramePrefix(body: bytes)
    requires |body| + 4 < TWO31
    ensures |Frame(body)| == U32(Frame(body)) == |body| + 4
    ensures Frame(body)[4..] == body
  {
    ReadBack(|body| + 4, body);
  }

  /** Four-byte pieces and a tail, cut apart again. */
  lemma Pieces(a: bytes, b: bytes, c: bytes, tail: bytes)
    requires |a| == 4 && |b| == 4 && |c| == 4
    ensures var s := a + b + c + tail;
            && s == a + (b + (c + tail)) && s[4..] == b + (c + tail) && s[8..] == c + tail && s[12..] == tail
            && s[..4] == a && s[4..8] == b && s[8..12] == c
  {
  }

  lemma Slices(x: bytes, y: bytes, z: bytes)
    ensures var t := x + y + z;
            t[..|x|] == x && t[|x|..|x| + |y|] == y && t[|x| + |y|..] == z
  {
  }

  lemma Shifted(s: bytes, tail: bytes, from: nat, to: nat)
    requires |s| >= 12 && s[12..] == tail && from <= to <= |tail|
    ensures s[12 + from..12 + to] == tail[from..to] && s[12 + from..] == tail[from..]
  {
  }

  lemma SubstrInside(s: bytes, pos: nat, n: nat)
    requires pos + n <= |s| <= 4096
    ensures Substr(s, pos, n) == Ok(s[pos..pos + n])
  {
  }

  /** The length fields of an encoded request body, and where its strings lie. */
  lemma RequestBodyParts(r: Request)
    requires RequestFits(r)
    ensures var s := RequestBody(r);
            && I32(s) == |r.msgId| && I32(s[4..]) == |r.serviceFullName| && I32(s[8..]) == |r.param|
            && s[12..12 + |r.msgId|] == r.msgId
            && s[12 + |r.msgId|..12 + |r.msgId| + |r.serviceFullName|] == r.serviceFullName
            && s[12 + |r.msgId| + |r.serviceFullName|..] == r.param
  {
    var front := LE32(|r.msgId|) + LE32(|r.serviceFullName|) + LE32(|r.param|);
    FrontAndTail(front, r.msgId, r.serviceFullName, r.param);
    ThreeFields(|r.msgId|, |r.serviceFullName|, |r.param|, r.msgId + r.serviceFullName + r.param);
    TailSlices(RequestBody(r), r.msgId, r.serviceFullName, r.param);
  }

  lemma TailSlices(s: bytes, x: bytes, y: bytes, z: bytes)
    requires |s| >= 12 && s[12..] == x + y + z
    ensures s[12..12 + |x|] == x && s[12 + |x|..12 + |x| + |y|] == y && s[12 + |x| + |y|..] == z
  {
    var tail := x + y + z;
    Slices(x, y, z);
    Shifted(s, tail, 0, |x|);
    Shifted(s, tail, |x|, |x| + |y|);
    Shifted(s, tail, |x| + |y|, |tail|);
  }

  /** With lengths that add up, decoding slices the body. */
  lemma DecodeSlices(s: bytes, a: nat, b: nat, c: nat)
    requires 12 + a + b + c == |s| <= MAX_REQUEST_SIZE
    requires I32(s) == a && I32(s[4..]) == b && I32(s[8..]) == c
    ensures DecodedRequest(s) == Ok(Request(s[12..12 + a], s[12 + a..12 + a + b], s[12 + a + b..]))
  {
    SmallIsItself(a + b);
    SmallIsItself(a + b + c);
    SlicesAt(s, a, b, c);
  }

  lemma SlicesAt(s: bytes, a: nat, b: nat, c: nat)
    requires 12 + a + b + c == |s| <= MAX_REQUEST_SIZE
    ensures RequestAt(s, a, b, c) == Ok(Request(s[12..12 + a], s[12 + a..12 + a + b], s[12 + a + b..]))
  {
    SmallIsItself(12 + a);
    SmallIsItself(12 + a + b);
    SubstrInside(s, 12, a);
    SubstrInside(s, 12 + a, b);
    SubstrInside(s, 12 + a + b, c);
    assert s[12 + a + b..12 + a + b + c] == s[12 + a + b..];
  }

  /** Decoding an encoded request gives it back exactly when its body is within the limit; a
      larger one is rejected. */
  lemma RequestRoundTrip(r: Request)
    requires RequestFits(r)
    ensures DecodedRequest(RequestBody(r)) == if |RequestBody(r)| <= 4096 then Ok(r) else Rejected
  {
    var s := RequestBody(r);
    if |s| <= MAX_REQUEST_SIZE {
      RequestBodyParts(r);
      DecodeSlices(s, |r.msgId|, |r.serviceFullName|, |r.param|);
    }
  }

  /** Non-negative lengths that pass the check, and whose first string ends inside the body, have
      added up without overflow. */
  lemma LengthsAddUp(a: int32, b: int32, c: int32, n: nat)
    requires a >= 0 && b >= 0 && c >= 0 && 12 <= n <= MAX_REQUEST_SIZE
    requires ToSize(Wrap32(Wrap32(a + b) + c)) == n - 12 && ToSize(Wrap32(12 + a)) <= n
    ensures 12 + a + b + c == n
  {
    WrapSum(a + b, c);
    PositionIn(Wrap32(12 + a), n);
    ShiftedBy12(a, n);
    PositionIn(Wrap32(a + b + c), n - 12);
    OnlyWrap(a, b, c, n - 12);
  }

  /** A sum of non-negative lengths, the first of them small, cannot come out small by overflowing. */
  lemma OnlyWrap(a: nat, b: int32, c: int32, n: nat)
    requires 0 <= a <= n <= 4096 && b >= 0 && c >= 0 && Wrap32(a + b + c) == n
    ensures a + b + c == n
  {
    var k := (n - (a + b + c)) / TWO32;
    assert n - (a + b + c) == TWO32 * k;
  }

  lemma SplitHeader(s: bytes)
    requires |s| >= 12
    ensures s == s[..4] + s[4..8] + s[8..12] + s[12..]
    ensures LE32(I32(s)) == s[..4] && LE32(I32(s[4..])) == s[4..8] && LE32(I32(s[8..])) == s[8..12]
  {
    I32RoundTrip(s[..4]);
    I32RoundTrip(s[4..8]);
    I32RoundTrip(s[8..12]);
  }

  /** What acceptance says about the length fields. */
  lemma AcceptedChecks(s: bytes)
    requires DecodedRequest(s).Ok?
    ensures 12 <= |s| <= MAX_REQUEST_SIZE
    ensures ToSize(Wrap32(Wrap32(I32(s) + I32(s[4..])) + I32(s[8..]))) == |s| - 12
    ensures ToSize(Wrap32(12 + I32(s))) <= |s|
  {
    assert Substr(s, Wrap32(12 + I32(s)), I32(s[4..])).Ok?;
  }

  lemma RequestReencodes(s: bytes)
    requires DecodedRequest(s).Ok? && I32(s) >= 0 && I32(s[4..]) >= 0 && I32(s[8..]) >= 0
    ensures RequestFits(DecodedRequest(s).value) && RequestBody(DecodedRequest(s).value) == s
  {
    AcceptedAddUp(s);
    ReencodesAt(s, I32(s), I32(s[4..]), I32(s[8..]));
  }

  lemma AcceptedAddUp(s: bytes)
    requires DecodedRequest(s).Ok? && I32(s) >= 0 && I32(s[4..]) >= 0 && I32(s[8..]) >= 0
    ensures 12 + I32(s) + I32(s[4..]) + I32(s[8..]) == |s| <= MAX_REQUEST_SIZE
  {
    AcceptedChecks(s);
    LengthsAddUp(I32(s), I32(s[4..]), I32(s[8..]), |s|);
  }

  lemma ReencodesAt(s: bytes, a: nat, b: nat, c: nat)
    requires 12 + a + b + c == |s| <= MAX_REQUEST_SIZE
    requires I32(s) == a && I32(s[4..]) == b && I32(s[8..]) == c
    ensures DecodedRequest(s).Ok? && RequestFits(DecodedRequest(s).value) && RequestBody(DecodedRequest(s).value) == s
  {
    DecodeSlices(s, a, b, c);
    Reassemble(s, a, b, c);
  }

  lemma Reassemble(s: bytes, a: nat, b: nat, c: nat)
    requires 12 + a + b + c == |s| <= MAX_REQUEST_SIZE
    requires I32(s) == a && I32(s[4..]) == b && I32(s[8..]) == c
    ensures RequestBody(Request(s[12..12 + a], s[12 + a..12 + a + b], s[12 + a + b..])) == s
  {
    var x, y, z := s[12..12 + a], s[12 + a..12 + a + b], s[12 + a + b..];
    SplitHeader(s);
    SplitTail(s, a, b);
    FrontAndTail(s[..4] + s[4..8] + s[8..12], x, y, z);
    assert |x| == a && |y| == b && |z| == c;
  }

  lemma SplitTail(s: bytes, a: nat, b: nat)
    requires 12 + a + b <= |s|
    ensures s[12..] == s[12..12 + a] + s[12 + a..12 + a + b] + s[12 + a + b..]
  {
  }

  lemma FrontAndTail(front: bytes, x: bytes, y: bytes, z: bytes)
    ensures front + x + y + z == front + (x + y + z)
  {
  }

  /** An accepted request body encodes back to the same bytes exactly when none of its three length
      fields is negative; the decoder itself does not look at their signs. */
  lemma RequestReencodeIff(s: bytes)
    requires DecodedRequest(s).Ok?
    ensures RequestFits(DecodedRequest(s).value)
    ensures RequestBody(DecodedRequest(s).value) == s <==> I32(s) >= 0 && I32(s[4..]) >= 0 && I32(s[8..]) >= 0
  {
    var r := DecodedRequest(s).value;
    DecodedIsSmall(s);
    RequestBodyParts(r);
    if I32(s) >= 0 && I32(s[4..]) >= 0 && I32(s[8..]) >= 0 {
      RequestReencodes(s);
    }
  }

  lemma DecodedIsSmall(s: bytes)
    requires DecodedRequest(s).Ok?
    ensures RequestFits(DecodedRequest(s).value)
  {
    var r := DecodedRequest(s).value;
    assert |r.msgId| <= |s| && |r.serviceFullName| <= |s| && |r.param| <= |s|;
  }

  /** The three length fields of a body made of them and a tail. */
  lemma ThreeFields(a: int32, b: int32, c: int32, tail: bytes)
    ensures var s := LE32(a) + LE32(b) + LE32(c) + tail;
            && |s| == 12 + |tail| && I32(s) == a && I32(s[4..]) == b && I32(s[8..]) == c && s[12..] == tail
            && s[..4] == LE32(a) && s[4..8] == LE32(b) && s[8..12] == LE32(c)
  {
    var third := LE32(c) + tail;
    Pieces(LE32(a), LE32(b), LE32(c), tail);
    ReadBack(a, LE32(b) + third);
    ReadBack(b, third);
    ReadBack(c, tail);
  }

  /** substr to the end of the string, which a length of -1 asks for. */
  lemma SubstrToEnd(s: bytes, pos: nat)
    requires pos <= |s| <= 4096
    ensures Substr(s, pos, -1) == Ok(s[pos..])
  {
    assert ToSize(-1) == TWO64 - 1;
    assert s[pos..|s|] == s[pos..];
  }

  /** Such a body: its first length is -1, which takes in the whole rest, and its second string
      starts one byte early, inside the header. */
  lemma NegativeLengthAccepted()
    ensures var s: bytes := LE32(-1) + LE32(1) + LE32(5) + [7, 7, 7, 7, 7];
            && DecodedRequest(s) == Ok(Request([7, 7, 7, 7, 7], [0], [7, 7, 7, 7, 7]))
            && RequestBody(DecodedRequest(s).value) != s
  {
    var tail: bytes := [7, 7, 7, 7, 7];
    var s := LE32(-1) + LE32(1) + LE32(5) + tail;
    ThreeFields(-1, 1, 5, tail);
    SubstrToEnd(s, 12);
    SubstrInside(s, 11, 1);
    SubstrInside(s, 12, 5);
    assert s[12..17] == s[12..];
    assert s[11] == s[8..12][3] == 0 && s[11..12] == [0];
  }

  // ---- when substr throws ----

  /** A body of a size the decoder takes, with length fields that pass its check. */
  predicate RequestChecked(s: bytes) {
    12 <= |s| <= MAX_REQUEST_SIZE && Wrap32(I32(s) + I32(s[4..]) + I32(s[8..])) == |s| - 12
  }

  /** Its second or third string would start outside the body. */
  predicate RequestOutside(s: bytes)
    requires |s| >= 12
  {
    I32(s) < -12 || I32(s) > |s| - 12 || I32(s[8..]) < 0 || I32(s[8..]) > |s|
  }

  /** What the decoder's conversions make of a 32-bit position. */
  lemma PositionIn(p: int, n: nat)
    requires n <= 4096 && -TWO31 <= p < TWO31
    ensures ToSize(p) <= n <==> 0 <= p <= n
    ensures ToSize(p) == n <==> p == n
  {
  }

  lemma ShiftedBy12(a: int32, n: nat)
    requires 12 <= n <= 4096
    ensures 0 <= Wrap32(12 + a) <= n <==> -12 <= a <= n - 12
  {
  }

  /** The third string starts where what is left is its length. */
  lemma ThirdStart(a: int32, b: int32, c: int32, n: nat)
    requires 12 <= n <= 4096 && Wrap32(a + b + c) == n - 12
    ensures 0 <= Wrap32(Wrap32(12 + a) + b) <= n <==> 0 <= c <= n
  {
    WrapSum(12 + a, b);
    Complement(12 + a + b, c, n);
  }

  lemma Complement(x: int, c: int32, n: nat)
    requires n <= 4096 && Wrap32(x + c - 12) == n - 12
    ensures 0 <= Wrap32(x) <= n <==> 0 <= c <= n
  {
    var w: int, v: int := Wrap32(x), Wrap32(x + c - 12);
    var k, l := (w - x) / TWO32, (v - (x + c - 12)) / TWO32;
    assert w - x == TWO32 * k && v - (x + c - 12) == TWO32 * l;
    assert w + c - n == TWO32 * (k - l);
  }

  lemma RequestCheckIs(s: bytes)
    requires 12 <= |s| <= MAX_REQUEST_SIZE
    ensures RequestChecked(s) <==> ToSize(Wrap32(Wrap32(I32(s) + I32(s[4..])) + I32(s[8..]))) == |s| - 12
  {
    WrapSum(I32(s) + I32(s[4..]), I32(s[8..]));
    PositionIn(Wrap32(I32(s) + I32(s[4..]) + I32(s[8..])), |s| - 12);
  }

  /** The three ends of decoding, by the length fields alone: a body is rejected if its size or the sum
      of its lengths is wrong, and throws if the sum is right but a string would start outside it. */
  lemma RequestThrowsIff(s: bytes)
    ensures DecodedRequest(s).Rejected? <==> !RequestChecked(s)
    ensures DecodedRequest(s).OutOfRange? <==> RequestChecked(s) && RequestOutside(s)
  {
    if 12 <= |s| <= MAX_REQUEST_SIZE {
      RequestCheckIs(s);
      if RequestChecked(s) {
        StartsInside(s, I32(s), I32(s[4..]), I32(s[8..]));
      }
    }
  }

  lemma StartsInside(s: bytes, a: int, b: int, c: int)
    requires -TWO31 <= a < TWO31 && -TWO31 <= b < TWO31 && -TWO31 <= c < TWO31
    requires 12 <= |s| <= MAX_REQUEST_SIZE && Wrap32(a + b + c) == |s| - 12
    ensures RequestAt(s, a, b, c).OutOfRange? <==> a < -12 || a > |s| - 12 || c < 0 || c > |s|
    ensures !RequestAt(s, a, b, c).Rejected?
  {
    var i: int := Wrap32(12 + a);
    var j: int := Wrap32(i + b);
    PositionIn(i, |s|);
    PositionIn(j, |s|);
    ShiftedBy12(a, |s|);
    ThirdStart(a, b, c, |s|);
    assert Substr(s, 12, a).Ok?;
  }

  /** A body of three length fields that makes substr throw. */
  lemma ThrowingRequest()
    ensures var s: bytes := LE32(-13) + LE32(13) + LE32(0) + []; |s| == 12 && DecodedRequest(s).OutOfRange?
  {
    var s: bytes := LE32(-13) + LE32(13) + LE32(0) + [];
    ThreeFields(-13, 13, 0, []);
    RequestThrowsIff(s);
  }

  // ---- responses ----

  lemma ResponseBodyParts(r: Response)
    requires ResponseFits(r)
    ensures var s := ResponseBody(r);
            && I32(s) == |r.msgId| && I32(s[4..]) == |r.result|
            && s[8..8 + |r.msgId|] == r.msgId
            && s[8 + |r.msgId|..8 + |r.msgId| + |r.result|] == r.result
            && I32(s[8 + |r.msgId| + |r.result|..]) == r.errorCode
  {
    var s := ResponseBody(r);
    var tail := r.msgId + r.result + LE32(r.errorCode);
    var second := LE32(|r.result|) + tail;
    assert s == LE32(|r.msgId|) + second;
    ReadBack(|r.msgId|, second);
    ReadBack(|r.result|, tail);
    assert s[8..] == tail && s[8 + |r.msgId| + |r.result|..] == LE32(r.errorCode);
    LE32RoundTrip(r.errorCode);
  }

  lemma DecodeResponseSlices(s: bytes, a: nat, b: nat)
    requires 12 + a + b == |s| <= MAX_RESPONSE_SIZE && I32(s) == a && I32(s[4..]) == b
    ensures DecodedResponse(s) == Ok(Response(I32(s[8 + a + b..]), s[8..8 + a], s[8 + a..8 + a + b]))
  {
    SmallIsItself(a + b);
    SmallIsItself(8 + a);
    SmallIsItself(8 + a + b);
    DecodesAt(s, a, b);
    ResponseSlicesAt(s, a, b);
  }

  lemma DecodesAt(s: bytes, a: int32, b: int32)
    requires 8 <= |s| <= MAX_RESPONSE_SIZE && I32(s) == a && I32(s[4..]) == b
    requires (ToSize(Wrap32(a + b)) + 4) % TWO64 == |s| - 8
    ensures 0 <= Wrap32(Wrap32(8 + a) + b) <= |s| - 4 && DecodedResponse(s) == ResponseAt(s, a, b)
  {
    ResponseTail(a, b, |s|);
  }

  lemma ResponseSlicesAt(s: bytes, a: nat, b: nat)
    requires 12 + a + b == |s| <= MAX_RESPONSE_SIZE && Wrap32(8 + a) == 8 + a && Wrap32(8 + a + b) == 8 + a + b
    ensures ResponseAt(s, a, b) == Ok(Response(I32(s[8 + a + b..]), s[8..8 + a], s[8 + a..8 + a + b]))
  {
    SubstrInside(s, 8, a);
    SubstrInside(s, 8 + a, b);
  }

  /** Decoding an encoded response gives it back exactly when its body is within the limit. */
  lemma ResponseRoundTrip(r: Response)
    requires ResponseFits(r)
    ensures DecodedResponse(ResponseBody(r)) == if |ResponseBody(r)| <= 4096 then Ok(r) else Rejected
  {
    var s := ResponseBody(r);
    if |s| <= MAX_RESPONSE_SIZE {
      ResponseBodyParts(r);
      DecodeResponseSlices(s, |r.msgId|, |r.result|);
    }
  }

  lemma ResponseChecks(s: bytes)
    requires DecodedResponse(s).Ok?
    ensures 8 <= |s| <= MAX_RESPONSE_SIZE && ToSize(Wrap32(8 + I32(s))) <= |s|
    ensures Wrap32(I32(s) + I32(s[4..])) == |s| - 12
    ensures ResponseFits(DecodedResponse(s).value)
  {
    ResponseThrowsIff(s);
    CheckedSumIff(Wrap32(I32(s) + I32(s[4..])), |s|);
    DecodesAt(s, I32(s), I32(s[4..]));
    ResponsePartsSmall(s, I32(s), I32(s[4..]));
  }

  lemma ResponsePartsSmall(s: bytes, a: int, b: int)
    requires 8 <= |s| <= MAX_RESPONSE_SIZE && 0 <= Wrap32(Wrap32(8 + a) + b) <= |s| - 4 && ResponseAt(s, a, b).Ok?
    ensures ToSize(Wrap32(8 + a)) <= |s| && ResponseFits(ResponseAt(s, a, b).value)
  {
    assert Substr(s, Wrap32(8 + a), b).Ok?;
    var r := ResponseAt(s, a, b).value;
    assert |r.msgId| <= |s| && |r.result| <= |s|;
  }

  lemma ResponseLengthsAddUp(a: int32, b: int32, n: nat)
    requires a >= 0 && b >= 0 && 8 <= n <= MAX_RESPONSE_SIZE
    requires Wrap32(a + b) == n - 12 && ToSize(Wrap32(8 + a)) <= n
    ensures 12 + a + b == n
  {
  }

  lemma ResponseReencodes(s: bytes)
    requires DecodedResponse(s).Ok? && I32(s) >= 0 && I32(s[4..]) >= 0
    ensures ResponseFits(DecodedResponse(s).value) && ResponseBody(DecodedResponse(s).value) == s
  {
    ResponseChecks(s);
    ResponseLengthsAddUp(I32(s), I32(s[4..]), |s|);
    ResponseReencodesAt(s, I32(s), I32(s[4..]));
  }

  lemma ResponseReencodesAt(s: bytes, a: nat, b: nat)
    requires 12 + a + b == |s| <= MAX_RESPONSE_SIZE && I32(s) == a && I32(s[4..]) == b
    ensures DecodedResponse(s).Ok? && ResponseFits(DecodedResponse(s).value)
    ensures ResponseBody(DecodedResponse(s).value) == s
  {
    DecodeResponseSlices(s, a, b);
    ReassembleResponse(s, a, b);
  }

  lemma ReassembleResponse(s: bytes, a: nat, b: nat)
    requires 12 + a + b == |s| <= MAX_RESPONSE_SIZE && I32(s) == a && I32(s[4..]) == b
    ensures ResponseBody(Response(I32(s[8 + a + b..]), s[8..8 + a], s[8 + a..8 + a + b])) == s
  {
    I32RoundTrip(s[..4]);
    I32RoundTrip(s[4..8]);
    I32RoundTrip(s[8 + a + b..]);
    assert s == s[..4] + s[4..8] + s[8..8 + a] + s[8 + a..8 + a + b] + s[8 + a + b..];
  }

  /** The same for responses: an accepted body encodes back to itself exactly when neither length
      field is negative. */
  lemma ResponseReencodeIff(s: bytes)
    requires DecodedResponse(s).Ok?
    ensures ResponseFits(DecodedResponse(s).value)
    ensures ResponseBody(DecodedResponse(s).value) == s <==> I32(s) >= 0 && I32(s[4..]) >= 0
  {
    ResponseChecks(s);
    ResponseBodyParts(DecodedResponse(s).value);
    if I32(s) >= 0 && I32(s[4..]) >= 0 {
      ResponseReencodes(s);
    }
  }

  predicate ResponseChecked(s: bytes) {
    8 <= |s| <= MAX_RESPONSE_SIZE && Wrap32(I32(s) + I32(s[4..])) == |s| - 12
  }

  /** Its second string would start outside the body. */
  predicate ResponseOutside(s: bytes)
    requires |s| >= 8
  {
    I32(s) < -8 || I32(s) > |s| - 8
  }

  lemma CheckedSumIff(w: int32, n: nat)
    requires 8 <= n <= MAX_RESPONSE_SIZE
    ensures (ToSize(w) + 4) % TWO64 == n - 8 <==> w == n - 12
  {
  }

  lemma ShiftedBy8(a: int32, n: nat)
    requires 8 <= n <= 4096
    ensures 0 <= Wrap32(8 + a) <= n <==> -8 <= a <= n - 8
  {
  }

  /** The same for responses, of which only the second string can start outside. */
  lemma ResponseThrowsIff(s: bytes)
    ensures DecodedResponse(s).Rejected? <==> !ResponseChecked(s)
    ensures DecodedResponse(s).OutOfRange? <==> ResponseChecked(s) && ResponseOutside(s)
  {
    if 8 <= |s| <= MAX_RESPONSE_SIZE {
      CheckedSumIff(Wrap32(I32(s) + I32(s[4..])), |s|);
      PositionIn(Wrap32(8 + I32(s)), |s|);
      ShiftedBy8(I32(s), |s|);
    }
  }

  lemma ThrowingResponse()
    ensures var s: bytes := LE32(-9) + LE32(9) + LE32(0) + []; |s| == 12 && DecodedResponse(s).OutOfRange?
  {
    var s: bytes := LE32(-9) + LE32(9) + LE32(0) + [];
    ThreeFields(-9, 9, 0, []);
    ResponseThrowsIff(s);
  }

  /** A response body with a negative length that is accepted: its message id takes in the error code. */
  lemma NegativeResponseLengthAccepted()
    ensures var s: bytes := LE32(-1) + LE32(1) + LE32(0) + [];
            && DecodedResponse(s) == Ok(Response(0, LE32(0), [0])) && ResponseBody(DecodedResponse(s).value) != s
  {
    var s: bytes := LE32(-1) + LE32(1) + LE32(0) + [];
    ThreeFields(-1, 1, 0, []);
    SubstrToEnd(s, 8);
    SubstrInside(s, 7, 1);
    assert s[8..] == s[8..12] == LE32(0);
    assert s[7] == s[4..8][3] == 0 && s[7..8] == [0];
  }

  // ---- the coder as it is programmed ----

  /** memcpy of `data` to the end of what has been `written` so far; returns the advanced index. */
  method Copy(buffer: array<byte>, idx: nat, data: bytes, ghost written: bytes) returns (next: nat)
    requires idx + |data| <= buffer.Length && buffer[..idx] == written
    modifies buffer
    ensures next == idx + |data| && buffer[..next] == written + data
  {
    var i := 0;
    while i < |data|
      invariant 0 <= i <= |data|
      invariant buffer[..idx + i] == written + data[..i]
    {
      buffer[idx + i] := data[i];
      i := i + 1;
    }
    return idx + |data|;
  }

  method EncodeRequest(r: Request) returns (frame: bytes)
    requires RequestFits(r)
    ensures frame == Frame(RequestBody(r))
  {
    var total := 16 + r.Size();
    var buffer := new byte[total](_ => 0);
    var idx := 0;
    ghost var written: bytes := [];
    idx := Copy(buffer, idx, LE32(total), written);
    written := written + LE32(total);
    idx := Copy(buffer, idx, LE32(|r.msgId|), written);
    written := written + LE32(|r.msgId|);
    idx := Copy(buffer, idx, LE32(|r.serviceFullName|), written);
    written := written + LE32(|r.serviceFullName|);
    idx := Copy(buffer, idx, LE32(|r.param|), written);
    written := written + LE32(|r.param|);
    idx := Copy(buffer, idx, r.msgId, written);
    written := written + r.msgId;
    idx := Copy(buffer, idx, r.serviceFullName, written);
    written := written + r.serviceFullName;
    idx := Copy(buffer, idx, r.param, written);
    written := written + r.param;
    frame := buffer[..];
    RequestPieces(r);
  }

  lemma RequestPieces(r: Request)
    requires RequestFits(r)
    ensures [] + LE32(16 + r.Size()) + LE32(|r.msgId|) + LE32(|r.serviceFullName|) + LE32(|r.param|)
            + r.msgId + r.serviceFullName + r.param == Frame(RequestBody(r))
  {
  }

  method DecodeRequest(s: bytes) returns (r: Decoded<Request>)
    ensures r == DecodedRequest(s)
  {
    if |s| < 12 || |s| > MAX_REQUEST_SIZE {
      return Rejected;
    }
    var idx := 0;
    var msgIdLen: int := I32(s[idx..]);
    idx := idx + 4;
    var nameLen: int := I32(s[idx..]);
    idx := idx + 4;
    var paramLen: int := I32(s[idx..]);
    idx := idx + 4;
    if ToSize(Wrap32(Wrap32(msgIdLen + nameLen) + paramLen)) != |s| - idx {
      return Rejected;
    }
    r := RequestStrings(s, idx, msgIdLen, nameLen, paramLen);
  }

  method RequestStrings(s: bytes, start: int, msgIdLen: int, nameLen: int, paramLen: int) returns (r: Decoded<Request>)
    requires start == 12
    ensures r == RequestAt(s, msgIdLen, nameLen, paramLen)
  {
    var idx := start;
    var msgId := Substr(s, idx, msgIdLen);
    idx := Wrap32(idx + msgIdLen);
    var name := Substr(s, idx, nameLen);
    if !msgId.Ok? || !name.Ok? {
      return OutOfRange;
    }
    idx := Wrap32(idx + nameLen);
    var param := Substr(s, idx, paramLen);
    if !param.Ok? {
      return OutOfRange;
    }
    return Ok(Request(msgId.value, name.value, param.value));
  }

  method EncodeResponse(r: Response) returns (frame: bytes)
    requires ResponseFits(r)
    ensures frame == Frame(ResponseBody(r))
  {
    var total := 12 + r.Size();
    var buffer := new byte[total](_ => 0);
    var idx := 0;
    ghost var written: bytes := [];
    idx := Copy(buffer, idx, LE32(total), written);
    written := written + LE32(total);
    idx := Copy(buffer, idx, LE32(|r.msgId|), written);
    written := written + LE32(|r.msgId|);
    idx := Copy(buffer, idx, LE32(|r.result|), written);
    written := written + LE32(|r.result|);
    idx := Copy(buffer, idx, r.msgId, written);
    written := written + r.msgId;
    idx := Copy(buffer, idx, r.result, written);
    written := written + r.result;
    idx := Copy(buffer, idx, LE32(r.errorCode), written);
    written := written + LE32(r.errorCode);
    frame := buffer[..];
    ResponsePieces(r);
  }

  lemma ResponsePieces(r: Response)
    requires ResponseFits(r)
    ensures [] + LE32(12 + r.Size()) + LE32(|r.msgId|) + LE32(|r.result|) + r.msgId + r.result + LE32(r.errorCode)
            == Frame(ResponseBody(r))
  {
  }

  method DecodeResponse(s: bytes) returns (r: Decoded<Response>)
    ensures r == DecodedResponse(s)
  {
    if |s| < 8 || |s| > MAX_RESPONSE_SIZE {
      return Rejected;
    }
    var idx := 0;
    var msgIdLen: int := I32(s[idx..]);
    idx := idx + 4;
    var resultLen: int := I32(s[idx..]);
    idx := idx + 4;
    if (ToSize(Wrap32(msgIdLen + resultLen)) + 4) % TWO64 != |s| - idx {
      return Rejected;
    }
    ResponseTail(msgIdLen, resultLen, |s|);
    r := ResponseStrings(s, idx, msgIdLen, resultLen);
  }

  method ResponseStrings(s: bytes, start: int, msgIdLen: int, resultLen: int) returns (r: Decoded<Response>)
    requires start == 8 && 0 <= Wrap32(Wrap32(start + msgIdLen) + resultLen) <= |s| - 4
    ensures r == ResponseAt(s, msgIdLen, resultLen)
  {
    var idx := start;
    var msgId := Substr(s, idx, msgIdLen);
    idx := Wrap32(idx + msgIdLen);
    var result := Substr(s, idx, resultLen);
    if !msgId.Ok? || !result.Ok? {
      return OutOfRange;
    }
    idx := Wrap32(idx + resultLen);
    return Ok(Response(I32(s[idx..]), msgId.value, result.value));
  }
}
