/** Blocking reads of a client connection, with whatever the socket and the timeout do to them. */
module SyncConnection {

  /** error_code values the callers distinguish. */
  datatype ErrorCode = NoError | TimedOut | Aborted | Failed

  /** What the socket did during one read: the bytes it delivered and how the operation ended. */
  datatype Outcome<T> = Outcome(chunk: seq<T>, ec: ErrorCode)

  const BUFFER_SIZE: nat := 4096

  function Reported(ec: ErrorCode): ErrorCode {
    if ec.Aborted? then TimedOut else ec
  }

  // ---- reading a number of bytes ----

  /** async_read with transfer_exactly: never more than asked for, and success means enough or full. */
  predicate LenPossible<T>(buffer: seq<T>, n: nat, o: Outcome<T>) {
    |buffer| < n ==>
      && |buffer| + |o.chunk| <= n && |buffer| + |o.chunk| <= BUFFER_SIZE
      && (o.ec.NoError? ==> |buffer| + |o.chunk| == n || |buffer| + |o.chunk| == BUFFER_SIZE)
  }

  /** Bytes taken from the socket by SyncReadLen. */
  function LenTaken<T>(buffer: seq<T>, n: nat, o: Outcome<T>): seq<T> {
    if |buffer| >= n then [] else o.chunk
  }

  /** SyncReadLen's result: what it asked for, or on a short read everything there is. */
  function LenResult<T>(buffer: seq<T>, n: nat, o: Outcome<T>): seq<T> {
    if |buffer| >= n then buffer[..n] else buffer + o.chunk
  }

  function LenCode<T>(buffer: seq<T>, n: nat, o: Outcome<T>): ErrorCode {
    if |buffer| >= n then NoError else Reported(o.ec)
  }

  // ---- reading up to a delimiter ----

  predicate Occurs<T(==)>(s: seq<T>, delim: seq<T>, at: nat) {
    at + |delim| <= |s| && s[at..at + |delim|] == delim
  }

  /** The first place at or after `from` where `delim` occurs, or |s|. */
  function FindFrom<T(==)>(s: seq<T>, delim: seq<T>, from: nat): (at: nat)
    requires from <= |s| && delim != []
    ensures from <= at <= |s| && (at < |s| ==> Occurs(s, delim, at))
    ensures forall i :: from <= i < at ==> !Occurs(s, delim, i)
    decreases |s| - from
  {
    if from == |s| || Occurs(s, delim, from) then from else FindFrom(s, delim, from + 1)
  }

  predicate Contains<T(==)>(s: seq<T>, delim: seq<T>)
    requires delim != []
  {
    FindFrom(s, delim, 0) < |s|
  }

  /** Everything up to and including the first occurrence. */
  function UpTo<T(==)>(s: seq<T>, delim: seq<T>): seq<T>
    requires delim != [] && Contains(s, delim)
  {
    s[..FindFrom(s, delim, 0) + |delim|]
  }

  lemma FindFirst<T>(s: seq<T>, delim: seq<T>, at: nat)
    requires delim != [] && Occurs(s, delim, at) && forall i :: 0 <= i < at ==> !Occurs(s, delim, i)
    ensures FindFrom(s, delim, 0) == at
  {
    assert Occurs(s, delim, at);
  }

  /** async_read_until: nothing is read if the delimiter is already buffered; success means that it is
      there now, possibly with more behind it. */
  predicate UntilPossible<T(==)>(buffer: seq<T>, delim: seq<T>, o: Outcome<T>)
    requires delim != []
  {
    && |buffer| + |o.chunk| <= BUFFER_SIZE
    && (Contains(buffer, delim) ==> o == Outcome([], NoError))
    && (o.ec.NoError? ==> Contains(buffer + o.chunk, delim))
  }

  function UntilResult<T(==)>(buffer: seq<T>, delim: seq<T>, o: Outcome<T>): seq<T>
    requires delim != [] && UntilPossible(buffer, delim, o)
  {
    if o.ec.NoError? then UpTo(buffer + o.chunk, delim) else []
  }

  /** What the two reads do when they fail: a read of a number of bytes returns all there is and keeps
      nothing, a read up to a delimiter returns nothing and keeps everything. An abort reads as a timeout. */
  lemma FailedReads<T>(buffer: seq<T>, n: nat, delim: seq<T>, o: Outcome<T>)
    requires o.ec != NoError && delim != []
    ensures LenPossible(buffer, n, o) && |buffer| < n ==>
              && LenResult(buffer, n, o) == buffer + o.chunk && Left(buffer, ReadLen(n, o)) == []
              && LenCode(buffer, n, o) == if o.ec == Failed then Failed else TimedOut
    ensures UntilPossible(buffer, delim, o) ==>
              UntilResult(buffer, delim, o) == [] && Left(buffer, ReadUntil(delim, o)) == buffer + o.chunk
  {
  }

  /** A read of a number of bytes that the buffer holds already asks nothing of the socket; one that ends
      well returns that number, or the whole buffer's capacity when that is less. */
  lemma GoodReads<T>(buffer: seq<T>, n: nat, o: Outcome<T>)
    requires LenPossible(buffer, n, o)
    ensures |buffer| >= n ==>
              && LenTaken(buffer, n, o) == [] && LenCode(buffer, n, o) == NoError
              && LenResult(buffer, n, o) == buffer[..n] && Left(buffer, ReadLen(n, o)) == buffer[n..]
    ensures LenCode(buffer, n, o) == NoError ==>
              || |LenResult(buffer, n, o)| == n
              || (n > BUFFER_SIZE && |LenResult(buffer, n, o)| == BUFFER_SIZE)
  {
  }

  // ---- conservation over any sequence of reads ----

  datatype Call<T> = ReadLen(n: nat, o: Outcome<T>) | ReadUntil(delim: seq<T>, o: Outcome<T>)

  predicate Possible<T(==)>(buffer: seq<T>, c: Call<T>) {
    match c
    case ReadLen(n, o) => LenPossible(buffer, n, o)
    case ReadUntil(delim, o) => delim != [] && UntilPossible(buffer, delim, o)
  }

  function Taken<T>(buffer: seq<T>, c: Call<T>): seq<T> {
    match c
    case ReadLen(n, o) => LenTaken(buffer, n, o)
    case ReadUntil(_, o) => o.chunk
  }

  function Result<T(==)>(buffer: seq<T>, c: Call<T>): seq<T>
    requires Possible(buffer, c)
  {
    match c
    case ReadLen(n, o) => LenResult(buffer, n, o)
    case ReadUntil(delim, o) => UntilResult(buffer, delim, o)
  }

  /** What a call leaves in the buffer. */
  function Left<T(==)>(buffer: seq<T>, c: Call<T>): (left: seq<T>)
    requires Possible(buffer, c)
    ensures Result(buffer, c) + left == buffer + Taken(buffer, c)
  {
    var all := buffer + Taken(buffer, c);
    assert Result(buffer, c) == all[..|Result(buffer, c)|];
    all[|Result(buffer, c)|..]
  }

  ghost predicate AllPossible<T>(buffer: seq<T>, calls: seq<Call<T>>)
    decreases |calls|
  {
    calls != [] ==> Possible(buffer, calls[0]) && AllPossible(Left(buffer, calls[0]), calls[1..])
  }

  ghost function AllTaken<T>(buffer: seq<T>, calls: seq<Call<T>>): seq<T>
    requires AllPossible(buffer, calls)
    decreases |calls|
  {
    if calls == [] then [] else Taken(buffer, calls[0]) + AllTaken(Left(buffer, calls[0]), calls[1..])
  }

  ghost function AllResults<T>(buffer: seq<T>, calls: seq<Call<T>>): seq<T>
    requires AllPossible(buffer, calls)
    decreases |calls|
  {
    if calls == [] then [] else Result(buffer, calls[0]) + AllResults(Left(buffer, calls[0]), calls[1..])
  }

  ghost function AllLeft<T>(buffer: seq<T>, calls: seq<Call<T>>): seq<T>
    requires AllPossible(buffer, calls)
    decreases |calls|
  {
    if calls == [] then buffer else AllLeft(Left(buffer, calls[0]), calls[1..])
  }

  lemma Shift<T>(r: seq<T>, left: seq<T>, buffer: seq<T>, t: seq<T>, results: seq<T>, rest: seq<T>, more: seq<T>)
    requires r + left == buffer + t && results + rest == left + more
    ensures (r + results) + rest == buffer + (t + more)
  {
    assert (r + results) + rest == r + (results + rest);
    assert r + (left + more) == (r + left) + more;
    assert (buffer + t) + more == buffer + (t + more);
  }

  /** Any sequence of reads, however each one ends, returns or keeps every byte taken from the
      socket, once and in order. */
  lemma {:induction false} BytesConserved<T>(buffer: seq<T>, calls: seq<Call<T>>)
    requires AllPossible(buffer, calls)
    ensures AllResults(buffer, calls) + AllLeft(buffer, calls) == buffer + AllTaken(buffer, calls)
    decreases |calls|
  {
    if calls != [] {
      var left := Left(buffer, calls[0]);
      BytesConserved(left, calls[1..]);
      Shift(Result(buffer, calls[0]), left, buffer, Taken(buffer, calls[0]),
            AllResults(left, calls[1..]), AllLeft(left, calls[1..]), AllTaken(left, calls[1..]));
    }
  }

  class SyncConnection<T(==)> {
    var readBuffer: seq<T>
    ghost var taken: seq<T>     // everything read from the socket
    ghost var returned: seq<T>  // everything returned to callers

    ghost predicate Valid()
      reads this
    {
      returned + readBuffer == taken
    }

    constructor ()
      ensures Valid() && readBuffer == []
    {
      readBuffer, taken, returned := [], [], [];
    }

    method SyncReadLen(n: nat, o: Outcome<T>) returns (result: seq<T>, ec: ErrorCode)
      requires Valid() && LenPossible(readBuffer, n, o)
      modifies this
      ensures Valid() && result == LenResult(old(readBuffer), n, o) && ec == LenCode(old(readBuffer), n, o)
      ensures readBuffer == Left(old(readBuffer), ReadLen(n, o))
      ensures taken == old(taken) + LenTaken(old(readBuffer), n, o) && returned == old(returned) + result
    {
      ec := NoError;
      var readable := |readBuffer|;
      var size := 0;
      if readable >= n {
        size := n;
      } else {
        readBuffer, taken := readBuffer + o.chunk, taken + o.chunk;
        ec := o.ec;
        size := readable + |o.chunk|;
      }
      result := readBuffer[..size];
      readBuffer, returned := readBuffer[size..], returned + result;
      if ec.Aborted? {
        ec := TimedOut;
      }
    }

    method SyncReadUtil(delim: seq<T>, o: Outcome<T>) returns (result: seq<T>, ec: ErrorCode)
      requires Valid() && delim != [] && UntilPossible(readBuffer, delim, o)
      modifies this
      ensures Valid() && result == UntilResult(old(readBuffer), delim, o) && ec == Reported(o.ec)
      ensures readBuffer == Left(old(readBuffer), ReadUntil(delim, o))
      ensures taken == old(taken) + o.chunk && returned == old(returned) + result
    {
      readBuffer, taken := readBuffer + o.chunk, taken + o.chunk;
      var size := 0;
      if o.ec.NoError? {
        size := FindFrom(readBuffer, delim, 0) + |delim|;
      }
      result := readBuffer[..size];
      readBuffer, returned := readBuffer[size..], returned + result;
      ec := Reported(o.ec);
    }
  }
}
