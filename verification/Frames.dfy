/** Reading length-prefixed frames off a byte stream, one byte at a time: the specification of what
    any chunking of the stream must amount to. */
module Frames {
  import opened Bytes
  import opened PbCoder

  const PREFIX_SIZE: nat := 4

  /** Capacity of a connection's read buffer; a longer read finishes when the buffer is full. */
  const BUFFER_SIZE: nat := 4096

  /** Collecting a prefix, collecting a body of `need` bytes, or stuck: a prefix of 4 asks for an
      empty body, and the session never reads again. */
  datatype Reader = Prefix(acc: bytes) | Body(need: nat, acc: bytes) | Stuck

  datatype View = View(bodies: seq<bytes>, reader: Reader)

  const FRESH: View := View([], Prefix([]))

  /** The body length a prefix asks for; below 4 the subtraction wraps around. */
  function BodyLength(prefix: bytes): nat
    requires |prefix| >= 4
  {
    ToSize(U32(prefix) - PREFIX_SIZE)
  }

  /** In the prefix's own number: four less, or far more than any buffer holds. */
  lemma BodyLengthIs(prefix: bytes)
    requires |prefix| >= 4
    ensures U32(prefix) >= 4 ==> BodyLength(prefix) == U32(prefix) - 4
    ensures U32(prefix) < 4 ==> BodyLength(prefix) == TWO64 + U32(prefix) - 4
  {
  }

  function Capped(n: nat): nat {
    if n < BUFFER_SIZE then n else BUFFER_SIZE
  }

  function FeedByte(v: View, b: byte): View {
    match v.reader
    case Prefix(acc) =>
      var acc' := acc + [b];
      if |acc'| < PREFIX_SIZE then v.(reader := Prefix(acc'))
      else if BodyLength(acc') == 0 then v.(reader := Stuck)
      else v.(reader := Body(Capped(BodyLength(acc')), []))
    case Body(need, acc) =>
      var acc' := acc + [b];
      if |acc'| < need then v.(reader := Body(need, acc'))
      else View(v.bodies + [acc'], Prefix([]))
    case Stuck => v
  }

  function Feed(v: View, s: bytes): View {
    if s == [] then v else FeedByte(Feed(v, s[..|s| - 1]), s[|s| - 1])
  }

  lemma {:induction false} FeedAppend(v: View, s: bytes, t: bytes)
    ensures Feed(v, s + t) == Feed(Feed(v, s), t)
  {
    if t == [] {
      assert s + t == s;
    } else {
      FeedAppend(v, s, t[..|t| - 1]);
      assert (s + t)[..|s + t| - 1] == s + t[..|t| - 1];
    }
  }

  lemma {:induction false} FeedPartPrefix(bodies: seq<bytes>, s: bytes)
    requires |s| < PREFIX_SIZE
    ensures Feed(View(bodies, Prefix([])), s) == View(bodies, Prefix(s))
  {
    if s != [] {
      FeedPartPrefix(bodies, s[..|s| - 1]);
      assert s[..|s| - 1] + [s[|s| - 1]] == s;
    }
  }

  /** Four bytes make a prefix. */
  lemma FeedPrefix(bodies: seq<bytes>, s: bytes)
    requires |s| == PREFIX_SIZE
    ensures Feed(View(bodies, Prefix([])), s) ==
            View(bodies, if BodyLength(s) == 0 then Stuck else Body(Capped(BodyLength(s)), []))
  {
    FeedPartPrefix(bodies, s[..3]);
    assert s[..3] + [s[3]] == s;
  }

  lemma {:induction false} FeedPartBody(bodies: seq<bytes>, need: nat, s: bytes)
    requires |s| < need
    ensures Feed(View(bodies, Body(need, [])), s) == View(bodies, Body(need, s))
  {
    if s != [] {
      FeedPartBody(bodies, need, s[..|s| - 1]);
      assert s[..|s| - 1] + [s[|s| - 1]] == s;
    }
  }

  /** As many bytes as were asked for make a body. */
  lemma FeedBody(bodies: seq<bytes>, s: bytes)
    requires s != []
    ensures Feed(View(bodies, Body(|s|, [])), s) == View(bodies + [s], Prefix([]))
  {
    FeedPartBody(bodies, |s|, s[..|s| - 1]);
    assert s[..|s| - 1] + [s[|s| - 1]] == s;
  }

  lemma {:induction false} StuckStays(bodies: seq<bytes>, s: bytes)
    ensures Feed(View(bodies, Stuck), s) == View(bodies, Stuck)
  {
    if s != [] {
      StuckStays(bodies, s[..|s| - 1]);
    }
  }

  // ---- streams of frames ----

  /** A body that one read can take in whole. */
  predicate Readable(body: bytes) {
    1 <= |body| <= BUFFER_SIZE
  }

  ghost predicate AllReadable(bodies: seq<bytes>) {
    forall i :: 0 <= i < |bodies| ==> Readable(bodies[i])
  }

  ghost function Stream(bodies: seq<bytes>): bytes
    requires AllReadable(bodies)
  {
    if bodies == [] then [] else Frame(bodies[0]) + Stream(bodies[1..])
  }

  /** The prefix of a body that fits the buffer asks for as many bytes as the body has. */
  lemma PrefixAnnounces(n: nat)
    requires n <= BUFFER_SIZE
    ensures BodyLength(LE32(n + 4)) == n
  {
    LE32RoundTrip(n + 4);
    SmallIsItself(n);
  }

  lemma FeedFramePrefix(before: seq<bytes>, body: bytes)
    requires Readable(body)
    ensures Feed(View(before, Prefix([])), LE32(|body| + 4)) == View(before, Body(|body|, []))
  {
    var prefix := LE32(|body| + 4);
    PrefixAnnounces(|body|);
    FeedPrefix(before, prefix);
  }

  /** A frame that announces more than the buffer holds yields a full buffer of it, and what follows is
      taken for the next prefix. */
  lemma LongFrameIsCut(before: seq<bytes>, n: nat, s: bytes)
    requires BUFFER_SIZE < n < TWO31 - 4 && |s| == BUFFER_SIZE
    ensures Feed(View(before, Prefix([])), LE32(n + 4) + s) == View(before + [s], Prefix([]))
  {
    LE32RoundTrip(n + 4);
    BodyLengthIs(LE32(n + 4));
    FeedPrefix(before, LE32(n + 4));
    FeedAppend(View(before, Prefix([])), LE32(n + 4), s);
    FeedBody(before, s);
  }

  lemma FeedFrame(before: seq<bytes>, body: bytes)
    requires Readable(body)
    ensures Feed(View(before, Prefix([])), Frame(body)) == View(before + [body], Prefix([]))
  {
    FeedFramePrefix(before, body);
    FeedAppend(View(before, Prefix([])), LE32(|body| + 4), body);
    FeedBody(before, body);
  }

  /** Part of a frame yields nothing, and the reader can still go on. */
  lemma FeedPartFrame(before: seq<bytes>, body: bytes, s: bytes)
    requires Readable(body) && s < Frame(body)
    ensures Feed(View(before, Prefix([])), s).bodies == before
    ensures !Feed(View(before, Prefix([])), s).reader.Stuck?
  {
    if |s| < PREFIX_SIZE {
      FeedPartPrefix(before, s);
    } else {
      FeedFramePrefix(before, body);
      assert s[..4] == Frame(body)[..4] == LE32(|body| + 4);
      assert s == LE32(|body| + 4) + s[4..];
      FeedAppend(View(before, Prefix([])), LE32(|body| + 4), s[4..]);
      FeedPartBody(before, |body|, s[4..]);
    }
  }

  /** Any prefix of a stream of frames yields a prefix of its bodies; the whole stream yields all. */
  lemma {:induction false} FeedStream(before: seq<bytes>, bodies: seq<bytes>, s: bytes)
    requires AllReadable(bodies) && s <= Stream(bodies)
    ensures var v := Feed(View(before, Prefix([])), s);
            && !v.reader.Stuck?
            && v.bodies <= before + bodies
            && (s == Stream(bodies) ==> v == View(before + bodies, Prefix([])))
    decreases |bodies|
  {
    if bodies == [] {
      assert s == [];
    } else {
      var f := Frame(bodies[0]);
      var rest := bodies[1..];
      assert before + bodies == (before + [bodies[0]]) + rest;
      if |s| < |f| {
        assert s == Stream(bodies)[..|s|] == f[..|s|];
        FeedPartFrame(before, bodies[0], s);
      } else {
        assert s[..|f|] == f && s == f + s[|f|..] && s[|f|..] <= Stream(rest);
        FeedAppend(View(before, Prefix([])), f, s[|f|..]);
        FeedFrame(before, bodies[0]);
        FeedStream(before + [bodies[0]], rest, s[|f|..]);
      }
    }
  }

  /** The bytes of a stream determine its frames. */
  lemma StreamInjective(a: seq<bytes>, b: seq<bytes>)
    requires AllReadable(a) && AllReadable(b)
    requires Stream(a) == Stream(b)
    ensures a == b
  {
    FeedStream([], a, Stream(a));
    FeedStream([], b, Stream(b));
    assert [] + a == a && [] + b == b;
  }

  lemma {:induction false} StreamAppend(a: seq<bytes>, b: seq<bytes>)
    requires AllReadable(a) && AllReadable(b)
    ensures AllReadable(a + b) && Stream(a + b) == Stream(a) + Stream(b)
  {
    if a == [] {
      assert a + b == b;
    } else {
      var first, rest := Frame(a[0]), Stream(a[1..]);
      assert (a + b)[1..] == a[1..] + b;
      StreamAppend(a[1..], b);
      assert first + (rest + Stream(b)) == (first + rest) + Stream(b);
    }
  }
}
