# A verified model of the RPC networking library

The library answers remote calls over TCP. This project models, in Dafny, the three parts of it that hold
state, and proves what they promise over whole runs.

**The timing wheel** closes idle sessions. Three wheels of 60, 60 and 24 slots hold references to events; an
event fires when its last reference goes, so a refresh only overwrites the deadline and adds one more
reference. `TimerSpec` says what one add and one tick do to the set of (event, wheel, slot) entries,
`TimerWheel` is the class with its carry and cascade loops, proved equal to that, `TimerRuns` proves
invariants over any run of adds and ticks with a drifting clock, `TimerFlat` proves that with a clock in
step the wheel fires exactly what a flat map from events to deadlines fires, and `TimerResidence` computes
how long an unrefreshed event stays for every position and interval, across midnight as well.
`IdleTimeout` puts wheel and session together: requests refresh the event, its callback closes the session;
`IdleAnywhere` bounds an idle session's life at every position of the day.

**The length-prefixed RPC pipeline.** `PbCoder` encodes and decodes over bytes, with lengths as signed
32-bit integers. `Session` is one server connection as a state machine over posted closures, at most one
read and one write, and an environment that delivers chunks, fails or times out; `ServerSession` is the same
as a class whose handlers update fields, proved equal. `Frames` is an independent reader that takes one byte
at a time; `SessionSafety` proves that the session, in any run, has dispatched exactly what that reader
finds in the bytes it was handed. `SyncConnection` and `PbClient` are the blocking client, `PbDispatcher`
the decision chain of a call, and `EndToEnd` puts client, both byte streams and session together: remote
calls return what local dispatch returns; `ClientCalls` shows that its client is `PbClient`. `PbServer` is the map that keeps sessions alive.

**HTTP/1.1 messages** (message format, status line, field syntax and Content-Length as in RFC 9112,
sections 2.1, 4, 5 and 6.2). `HttpCoder` states printing and parsing over text and proves the round trip with its
exact condition; `HttpMessages` has the in-place setters and the decoding loops. `HttpFraming` says which
bodies a byte stream carries, `JsonReading` and `JsonSession` read them step by step, and `JsonClient` reads
responses with whatever was read too far kept for the next call.

Where the source is imperative the model is too: a class, its methods proved against a function of the old
state, and lemmas about that function. What the library calls (`post`, `async_read`, `async_read_until`,
clocks, services) enters as parameters: the clock is a function from event to reading, the outcome of a read
is the bytes it delivered and an error code, a schedule is a function that chooses the next event.

Findings, stated as theorems:

- An add whose deadline reaches past the end of the day falls through the placement loop into wheel 0.
  `TimerResidence.OnTimeIff` gives the exact condition under which an event is still on time, and
  `OneDayTimeoutFiresEarly` a one-day timeout that fires after 48 seconds. `IdleBoundsAnywhere` says what this
  does to 30-second session timeouts: they take at least 25 seconds and less than 90.
- The request and response decoders accept negative length fields. `RequestReencodeIff` and
  `ResponseReencodeIff` say when an accepted body is the encoding of what it decodes to;
  `NegativeLengthAccepted` and `NegativeResponseLengthAccepted` are bodies that are not.
- Length fields that add up can still send `substr` outside the body, and the exception leaves the handler.
  `RequestThrowsIff` and `ResponseThrowsIff` give the exact condition on the fields, `CrashedIff` carries it
  to every run of a session, and `TwelveBytesCrash` is a run.
- A status message of several words is cut to its first when parsed: `RoundTripIff`, `NotFoundIsCut`.
- An HTTP body longer than the read buffer is delivered cut, and its rest is read as the next head:
  `WholeBodyIff`, `LongBodyIsCut`. The client sends such bodies all the same; `ClientRequestsArriveIff` says
  that a list of bodies arrives if and only if each fits.
- A head without a request line, or with a Content-Length stoul rejects, stops a session for good:
  `HeadStopsIff`, `StoppedAtHead`, `EmptyLineStopsForGood`, `NoNumberCrashes`.
- A connection accepted under a key whose erase is still posted is not kept alive: `AcceptKeepsIff`,
  `ReusedKeyIsLost`.

`dafny verify dfyconfig.toml` checks the whole project.

## Model

| member | source | states |
|---|---|---|
| TimerFlat.WheelRefinesFlat | src/net/timer_wheel.cpp:74-141 | in step with the clock, for every interleaving of adds, refreshes that never lower a deadline, and ticks, call by call the wheel fires an event exactly when the flat map from events to latest deadlines does, for every event none of whose adds reached past the end of the day |
| TimerFlat.FiresAtLatestDeadline | src/net/timer_wheel.h:48-59 | after any such run the next tick fires an event if and only if it is still referenced and that second is its latest deadline; whatever is still referenced has its deadline ahead |
| TimerFlat.WheelFiresOnce | src/net/timer_wheel.h:53-59 | no two calls of a run both fire the same event, however many stale references it has |
| TimerRuns.NeverEarly | src/net/timer_wheel.cpp:101-141 | with any monotone clock that moves at least a second per tick, a tick that drops the last reference has read at least the latest deadline less the drift (at most one second), although every cascade reads the clock again |
| TimerRuns.ResidenceBounds | src/net/timer_wheel.cpp:74-141 | a new event with interval I, away from the end of the day and never refreshed, is gone within I + drift ticks and not before its deadline less the drift |
| TimerRuns.LateBound | src/net/timer_wheel.cpp:116-141 | an event that is not added again is gone after as many ticks as the latest-running of its adds allowed |
| TimerRuns.SlotsAlwaysInRange | src/net/timer_wheel.cpp:81-93 | after any run, the day wrap included, every entry sits in an existing slot of its wheel and slot 0 of every wheel is empty |
| TimerRuns.PosCountsTicks | src/net/timer_wheel.cpp:122-137 | the position, one number, counts the ticks modulo 86400 |
| TimerWheel.IndicesAreDigits | src/net/timer_wheel.cpp:122-137 | the three indices, which TimerWheel.Tick keeps in range and moves to the next position, are the position's seconds, minutes and hours |
| TimerSpec.PlaceAhead | src/net/timer_wheel.cpp:81-93 | before the end of the day an event is placed between the present position and its deadline, in wheel 0 exactly at its deadline |
| TimerSpec.PlaceWrapped | src/net/timer_wheel.cpp:82-93 | past the end of the day the chosen slot is still inside wheel 0 |
| TimerSpec.PlaceInRange | src/net/timer_wheel.cpp:81-93 | for every position and every interval up to a day the chosen slot exists and is not slot 0 |
| TimerSpec.PlaceInRangeIff | src/net/timer_wheel.cpp:77-93 | for any positive interval, over a day as well, the chosen slot exists if and only if position and interval add up to less than 60 hours |
| TimerSpec.TickSource | src/net/timer_wheel.cpp:116-141 | every entry after a tick was left alone by it or comes from the emptied slot of a higher wheel |
| TimerResidence.CanonicalTick | src/net/timer_wheel.cpp:123-135 | an unrefreshed event sits in exactly one slot, the canonical one for its deadline; a cascade re-establishes this in a strictly lower wheel, and the tick at the deadline drops it |
| TimerResidence.CanonicalResidence | src/net/timer_wheel.cpp:81-135 | the same after any run in which other events are added and refreshed at will |
| TimerResidence.Residence | src/net/timer_wheel.cpp:83-141 | for every reachable position and interval from 1 to 86400, the fall-through included, an unrefreshed event is referenced for exactly ResidenceTicks ticks |
| TimerResidence.StaysAtLeast | src/net/timer_wheel.cpp:83-141 | any event a handler can reach, new or refreshed, whatever slots hold it already and wherever in the day the add reaches, keeps a reference for ResidenceTicks ticks |
| TimerResidence.ThirtySeconds | src/net/timer_wheel.cpp:82-93 | for a 30-second timeout these are 30 ticks, or 25 to 54 when it is added in the last 30 seconds of the day |
| TimerResidence.ResidenceAtMost | src/net/timer_wheel.cpp:83-93 | that is at most max(interval, 60) ticks |
| TimerResidence.OnTimeIff | src/net/timer_wheel.cpp:82-93 | it is exactly the interval if and only if the deadline is before the end of the day, or lies 24 seconds past it with an interval of at most 60 |
| TimerResidence.OneDayTimeoutFiresEarly | src/net/timer_wheel.cpp:82-93 | a one-day timeout added in the last second of the day is gone after 48 seconds |
| TimerWheel.TimerWheel.constructor | src/net/timer_wheel.cpp:54-66 | a new wheel is valid, at position 0 and empty |
| TimerWheel.TimerWheel.AddTimerEventUnSafe | src/net/timer_wheel.cpp:74-94 | for every interval whose slot exists the carry loop adds the one entry that placement by highest differing digit asks for, or none when the event is already due |
| TimerWheel.TimerWheel.Tick | src/net/timer_wheel.cpp:116-141 | the odometer and cascade loops turn the state into the specified next one, and the callbacks that run are exactly those of the events left without a reference |
| TimerWheel.TimerWheel.Round | src/net/timer_wheel.cpp:125-135 | one cascade round extends the tick from the wheels below to this one |
| TimerWheel.TimerWheel.PostTimerEvent | src/net/timer_wheel.cpp:160-173 | a session's new event gets its clamped deadline and is added, or fires at once when no slot takes it |
| TimerWheel.TimerWheel.Refresh | src/net/pb/pb_server.cpp:160-166 | an event still referenced gets a new deadline and one more entry, which keeps it for the time StaysAtLeast states, its older entries staying; another is left alone |
| TimerWheel.RoundIsDue | src/net/timer_wheel.cpp:122-137 | the slot a round swaps out is the one due at the position one second on, and the loop stops exactly where no higher wheel turns |
| TimerWheel.CascadeRound | src/net/timer_wheel.cpp:127-134 | swapping out and adding again equals what the specification of a tick says entry by entry |
| TimerWheel.DroppedAndGone | src/net/timer_wheel.cpp:120-140 | of the swapped-out events, those no slot refers to any more are the released ones |
| PbCoder.FramePrefix | src/net/pb/pb_coder.cpp:11-17 | the prefix of a frame is the length of the whole frame |
| PbCoder.FrameBytes | src/net/pb/pb_coder.cpp:9-30 | a request and a response byte by byte: frame length, part lengths in their order, parts, and a response's error code last, all integers least significant byte first |
| Bytes.LittleEndian | src/net/pb/pb_coder.cpp:16-23 | the four copied bytes of a signed 32-bit integer are its base-256 digits, the least significant first |
| PbCoder.RequestRoundTrip | src/net/pb/pb_coder.cpp:9-59 | decoding an encoded request without its prefix gives it back, or is refused exactly when the body is over 4096 bytes |
| PbCoder.RequestReencodeIff | src/net/pb/pb_coder.cpp:32-59 | an accepted body encodes back to itself if and only if none of its three length fields is negative; the sum may wrap around 32 bits |
| PbCoder.NegativeLengthAccepted | src/net/pb/pb_coder.cpp:48-57 | a concrete body with a negative length that is accepted and read as overlapping parts |
| PbCoder.ResponseRoundTrip | src/net/pb/pb_coder.cpp:61-110 | the same round trip for responses, error code included |
| PbCoder.ResponseReencodeIff | src/net/pb/pb_coder.cpp:83-110 | an accepted response body encodes back to itself if and only if neither length is negative |
| PbCoder.NegativeResponseLengthAccepted | src/net/pb/pb_coder.cpp:97-108 | a concrete response body with a negative length that is accepted and is not the encoding of what it decodes to |
| PbCoder.RequestThrowsIff | src/net/pb/pb_coder.cpp:48-57 | a body is refused if and only if its size or the sum of its lengths is wrong, and makes substr throw if and only if the sum is right but the first length is below -12 or over the rest of the body, or the third is negative or over the whole body |
| PbCoder.ThrowingRequest | src/net/pb/pb_coder.cpp:48-57 | twelve bytes of length fields that make substr throw |
| PbCoder.ResponseThrowsIff | src/net/pb/pb_coder.cpp:97-108 | the same for responses: it throws if and only if the sum is right and the first length is below -8 or over the rest of the body |
| PbCoder.ThrowingResponse | src/net/pb/pb_coder.cpp:97-108 | a response body that makes substr throw |
| PbCoder.EncodeRequest | src/net/pb/pb_coder.cpp:9-30 | the buffer filled by advancing copies is the frame of the request's body |
| PbCoder.DecodeRequest | src/net/pb/pb_coder.cpp:32-59 | the walk over the body computes the decoding the round trips are about, its refusals and out-of-range exceptions included |
| PbCoder.EncodeResponse | src/net/pb/pb_coder.cpp:61-81 | the buffer filled by advancing copies is the frame of the response's body |
| PbCoder.DecodeResponse | src/net/pb/pb_coder.cpp:83-110 | the walk over the body computes the decoding the round trips are about |
| Frames.FeedStream | src/net/pb/pb_session.cpp:146-166 | a reader of single bytes finds in any prefix of a stream of frames a prefix of their bodies, and all of them in the whole |
| Frames.StreamInjective | src/net/pb/pb_session.cpp:146-166 | two lists of bodies with the same framed stream are the same list |
| Frames.LongFrameIsCut | src/net/pb/pb_session.cpp:155-166 | a frame that announces more than 4096 bytes yields 4096 bytes as its body, and what follows is read as a prefix |
| SessionSafety.SingleRead | src/net/tcp_connection.cpp:70-147 | in every reachable state posted restarts and outstanding reads are at most one; a read starts from an empty buffer and asks for four bytes while a prefix is due and for as many bytes as the reader of single bytes expects while a body is; an assert is reached if and only if that reader is stuck, which PrefixDecides puts in numbers |
| SessionSafety.PrefixDecides | src/net/pb/pb_session.cpp:148-158 | in every reachable state, by the number the last prefix spells: an assert was reached if and only if it is 4; an outstanding body read asks for four less than it, and for more than 4096 if it is below 4; that prefix is the last thing handed over |
| SessionSafety.AnsweredBeforeNextRead | src/net/pb/pb_server.cpp:167-168 | in every reachable state at most one reply is posted, in front of the restart; while a read is outstanding every request dispatched has its reply queued or written |
| SessionSafety.OpenMeansAllDecoded | src/net/pb/pb_server.cpp:146-154 | while a connection is open and nothing was thrown, every complete frame handed over has decoded and been dispatched |
| SessionSafety.FailureCloses | src/net/pb/pb_server.cpp:140-180 | any run that contains a failed read, a failed write or the timer ends with the connection closed |
| SessionSafety.ChunksDoNotMatter | src/net/pb/pb_session.cpp:137-174 | two runs that handed a session the same bytes have dispatched the same requests, whatever the chunks, the order of closures, writes and timer |
| SessionSafety.StreamDelivered | src/net/pb/pb_session.cpp:146-166 | a peer that sends encoded requests, in any chunks, gets exactly a prefix of them dispatched in order, all once everything was handed over, with no assert and no exception |
| SessionSafety.EncodingInjective | src/net/pb/pb_coder.cpp:9-30 | lists of requests with the same concatenated encoding are the same |
| SessionSafety.RepliesInOrder | src/net/tcp_connection.cpp:149-191 | at any moment of any run the bytes on the socket are a prefix of the replies in dispatch order; of all writes ever started at most one is outstanding, and its message is the queue's front |
| SessionSafety.NoWriteAfterFailure | src/net/tcp_connection.cpp:176-190 | after a failed write no later message starts and no byte more is written |
| SessionSafety.CrashedIff | src/net/pb/pb_session.cpp:160-166 | in every reachable state an exception has left a handler if and only if the last complete frame has length fields that pass the check and send substr outside the body |
| SessionSafety.ThrowingBodyCrashes | src/net/pb/pb_session.cpp:160-166 | any such body, sent first, is read and throws; nothing is dispatched |
| SessionSafety.TwelveBytesCrash | src/net/pb/pb_coder.cpp:48-57 | a concrete such run |
| SessionSafety.ClosedIsFinal | src/net/tcp_connection.cpp:129-147 | once closed, nothing outstanding reaches the session: no request, no byte taken or written, no second announcement |
| SessionSafety.AnnouncedOnce | src/net/tcp_connection.cpp:209-225 | in any interleaving of timeouts, errors and bad requests the close callback has run once if the connection is closed and not otherwise |
| ServerSession.ServerSession.AsyncReadLen | src/net/tcp_connection.cpp:70-100 | one read at a time, delivering at once what is buffered: the step function of the runs above |
| ServerSession.ServerSession.OnRequest | src/net/pb/pb_session.cpp:137-174 | the two-state machine of prefix and body: the step function of the runs above |
| ServerSession.ServerSession.OnSessionRead | src/net/pb/pb_server.cpp:140-171 | a good request is answered and the session restarted behind the answer, a bad one closes it |
| ServerSession.ServerSession.RunPosted | src/net/tcp_connection.cpp:154-165 | runs the oldest posted closure: a restart, or a write queued and started if none is under way |
| ServerSession.ServerSession.WriteDone | src/net/tcp_connection.cpp:176-190 | a finished write leaves the queue and the next one starts, unless the connection is closed |
| ServerSession.ServerSession.Close | src/net/tcp_connection.cpp:209-225 | closes and announces an open connection, does nothing to a closed one |
| PbDispatcher.SplitIff | src/net/pb/pb_rpc_dispatcher.cpp:116-126 | a full name splits exactly into what joins back to it with a dot, the service free of dots and the method not empty |
| PbDispatcher.DispatchedMeaning | src/net/pb/pb_rpc_dispatcher.cpp:17-106 | a response carries its request's message id, an error carries no result, and a result comes exactly from a heartbeat or from a registered method that parsed, ran and serialized |
| PbDispatcher.ErrorsMean | src/net/pb/pb_rpc_dispatcher.cpp:36-95 | for a request that is no heartbeat: code 1 if and only if its name is well-formed and no described service of that name is registered; 2 if and only if the name is not well-formed or the described service lacks the method; 3 if and only if the parameter does not parse; 4 if and only if there is no prototype or the result does not serialize; 0 if and only if the call gives a result |
| PbDispatcher.NamedResponse | src/net/pb/pb_rpc_dispatcher.cpp:43-105 | the whole response, id and result included, for a well-formed name |
| PbDispatcher.NullRequest | src/net/pb/pb_rpc_dispatcher.cpp:21-26 | the null request is answered with code 3 and the id "-1" |
| PbDispatcher.Heartbeat | src/net/pb/pb_rpc_dispatcher.cpp:27-34 | a request with the id "HEARTBEAT" is answered with "PONG", whatever it names |
| PbDispatcher.PbRpcDispatcher.Dispatch | src/net/pb/pb_rpc_dispatcher.cpp:17-106 | filling the response step by step gives the response those statements are about |
| PbDispatcher.PbRpcDispatcher.RegisterService | src/net/pb/pb_rpc_dispatcher.cpp:9-15 | the named service replaces an earlier one of that name; a null service changes nothing |
| PbDispatcher.PbRpcDispatcher.UnRegisterService | src/net/pb/pb_rpc_dispatcher.cpp:108-114 | the named service is gone, the others stay |
| PbDispatcher.PbRpcDispatcher.GetServiceAndMethod | src/net/pb/pb_rpc_dispatcher.cpp:116-126 | the split returned through out-parameters is that of SplitIff |
| SyncConnection.BytesConserved | src/net/tcp_connection.cpp:322-399 | for any sequence of reads with any outcomes the returned strings followed by the buffer are exactly the bytes taken from the socket, in order |
| SyncConnection.FailedReads | src/net/tcp_connection.cpp:333-399 | on a timeout or an error a read of a number of bytes returns all there is and keeps nothing, a read up to a delimiter returns nothing and keeps everything; an abort is reported as a timeout |
| SyncConnection.GoodReads | src/net/tcp_connection.cpp:326-358 | what is buffered already is returned without touching the socket; a read that ends well returns the number asked for, or 4096 bytes when that is less |
| SyncConnection.SyncConnection.SyncReadLen | src/net/tcp_connection.cpp:322-359 | returns what was asked for, or all there is when the read ends short, and keeps the rest; an abort is reported as a timeout |
| SyncConnection.SyncConnection.SyncReadUtil | src/net/tcp_connection.cpp:372-399 | returns everything up to and including the first delimiter, or nothing on an error, and keeps the rest |
| PbClient.PbClient.ReadResponse | src/net/pb/pb_client.cpp:46-66 | the two reads and the decoding, with every way they can fail, and what they leave in the buffer |
| PbClient.ReadsItsFrame | src/net/pb/pb_client.cpp:46-66 | when buffer and reads amount to a response's frame and more, exactly that response is returned and the rest kept |
| PbClient.ResponseReturnedIff | src/net/pb/pb_client.cpp:46-66 | a response is returned if and only if both reads end well or find enough buffered and the body decodes; the second read asks for four less than the prefix says |
| PbClient.ThrowsIff | src/net/pb/pb_client.cpp:46-66 | the decoder's exception leaves ReadResponse if and only if both reads end well and return a body with such length fields |
| ClientCalls.AnsweredCallIsReadResponse | src/net/pb/pb_client.cpp:46-66 | in an end-to-end run, whatever chunks the two reads of a call arrive in, ReadResponse over what they collected returns the response the call added, the one of local dispatch |
| IdleTimeout.IdleSessionClosesAtTimeout | src/net/pb/pb_server.cpp:155-168 | for any history of the wheel and any run of the session, the other sessions and the clock, away from the end of the day: an open session had its last request less than 30 seconds ago, and the next tick closes it if and only if it is the 30th |
| IdleTimeout.LastIsLastRequest | src/net/pb/pb_server.cpp:160-166 | the time the timeout counts from is that of the last request handed to the server, or of the accept |
| IdleAnywhere.IdleBoundsAnywhere | src/net/timer_wheel.cpp:74-141 | the same runs anywhere in the day: an open session had its last request less than 90 seconds ago, and no tick closes one whose last request was less than 25 seconds ago |
| EndToEnd.RemoteCallsAreLocalCalls | src/net/pb/pb_client.cpp:29-66 | for any list of calls within the size limits, any registered services and any scheduler of chunks and steps, the run ends and the i-th response is what the dispatcher gives locally for the i-th request and carries its message id |
| EndToEnd.RemoteIsLocal | src/net/pb/pb_server.cpp:140-171 | at every moment of every run the responses so far are the first of local dispatch, at most one call is open, the connection is open and nothing was asserted or thrown |
| EndToEnd.NeverStuck | src/net/pb/pb_session.cpp:137-174 | while calls are left some step is possible; the lemma names one |
| EndToEnd.EventLowersRank | src/net/tcp_connection.cpp:70-191 | every step of client, streams or session leaves less to do, so no run goes on for ever |
| PbServer.MapTracksSessions | src/net/pb/pb_server.cpp:121-138 | if every accept finds its key free, then in every interleaving of accepts, closes and posted erases the map holds exactly the accepted sessions whose erase has not run, and exactly the active ones once the main context has drained |
| PbServer.AcceptKeepsIff | src/net/pb/pb_server.cpp:76-77 | an accept keeps the map right if and only if its key is free, that is, no session with this key waits for its erase or is active |
| PbServer.DrainLeavesActive | src/net/pb/pb_server.cpp:126-137 | draining erases each closed session once and no other |
| PbServer.HeldUntilErase | src/net/pb/pb_server.cpp:76-77 | a key in the map stays with its session through any accepts and closes, also under the same key, until an erase runs |
| PbServer.TakenKeyStays | src/net/pb/pb_server.cpp:76-77 | an accept under a taken key leaves the map as it is, the new session nowhere in it |
| PbServer.ReusedKeyIsLost | src/net/pb/pb_server.cpp:76-77 | a connection back under its old key before the old erase has run ends up outside the map although active |
| PbServer.LostSessionErasesAnother | src/net/pb/pb_server.cpp:126-137 | a run in which the erase of such a session removes another that is active and was accepted under a free key |
| PbServer.PbServer.OnAccept | src/net/pb/pb_server.cpp:76-77 | adds the session under its key unless the key is taken |
| PbServer.PbServer.OnSessionClose | src/net/pb/pb_server.cpp:121-138 | posts one erase for the session's key and leaves the map alone |
| PbServer.PbServer.RunPosted | src/net/pb/pb_server.cpp:133-136 | the oldest posted erase removes its key |
| HttpText.ExtractPrinted | src/net/json_rpc/http_coder.cpp:153-154 | reading a printed int behind a space gives it back and stops at the next space |
| HttpText.DecimalRoundTrip | src/net/json_rpc/http_coder.cpp:45-46 | the digits printed for a number are its value |
| HttpText.StoulOfDecimal | src/net/json_rpc/json_client.cpp:102 | stoul reads a printed size back |
| HttpText.StoulReads | src/net/json_rpc/json_session.cpp:165 | stoul on white space, a sign, digits and anything else: throws if and only if there are no digits or their number is 2^64 or more; a minus sign takes the number off 2^64 |
| HttpText.HeadEnds | src/net/json_rpc/http_coder.cpp:133 | in lines joined by CRLF and followed by an empty line no CRLFCRLF occurs before that, whatever follows |
| HttpCoder.PrintThenParse | src/net/json_rpc/http_coder.cpp:128-183 | a printed response parses to itself, except that the status message is cut to its first token or becomes "OK" and header values lose leading spaces; the body may hold anything, CRLFCRLF as well |
| HttpCoder.RoundTripIff | src/net/json_rpc/http_coder.cpp:58-69 | parsing what was printed is the identity if and only if the status message is one token and no header value starts with a space |
| HttpCoder.SecondWordIsLost | src/net/json_rpc/http_coder.cpp:153-154 | a reason phrase of several words comes back as its first |
| HttpCoder.NotFoundIsCut | src/net/json_rpc/http_coder.cpp:153-154 | "Not Found" comes back as "Not" |
| HttpCoder.HeadReadBack | src/net/json_rpc/http_coder.cpp:132-180 | for any start line, headers and body: the first CRLFCRLF is the one behind the headers, and start line, headers and body are read back from their places |
| HttpCoder.EmptyMessageIsOk | src/net/json_rpc/http_coder.cpp:154 | a response printed without a status message comes back with "OK" |
| HttpCoder.NoCode | src/net/json_rpc/http_coder.cpp:153-154 | a status line without a code keeps 200 and "OK", an empty one "HTTP/1.1" too |
| HttpCoder.NoMessage | src/net/json_rpc/http_coder.cpp:153-154 | a status line without a message keeps "OK" |
| HttpCoder.NoNumberForCode | src/net/json_rpc/http_coder.cpp:154 | a code that is no number is read as 0 and the message is not read |
| HttpCoder.CodeTooLarge | src/net/json_rpc/http_coder.cpp:154 | a code beyond int is read as 2147483647 and the message is not read |
| HttpCoder.CodeTooSmall | src/net/json_rpc/http_coder.cpp:154 | a code below int is read as -2147483648 and the message is not read |
| HttpCoder.RequestReadBack | src/net/json_rpc/http_coder.cpp:71-126 | a request printed from any three tokens, clean headers and any body is parsed to method, URI, version, headers and body, each in its place |
| HttpCoder.VerbOnly | src/net/json_rpc/http_coder.cpp:96-97 | a request line with only a method leaves URI and version empty |
| HttpCoder.VerbAndUri | src/net/json_rpc/http_coder.cpp:96-97 | one without a version leaves that empty |
| HttpCoder.NullIff | src/net/json_rpc/http_coder.cpp:132-147 | the decoders return null if and only if there is no CRLFCRLF or the text begins with one |
| HttpCoder.MixedEndings | src/net/json_rpc/http_coder.cpp:157-174 | header lines may end with CRLF or a line feed alone; the headers are those of all lines up to an empty one of either kind |
| HttpCoder.NoColonSkipped | src/net/json_rpc/http_coder.cpp:164-173 | a line without a colon is skipped |
| HttpCoder.OnlySpacesStripped | src/net/json_rpc/http_coder.cpp:169-171 | of a header value exactly the leading spaces go |
| HttpCoder.ChangesConsistent | src/net/json_rpc/http_coder.cpp:29-56 | after any sequence of SetBody and SetContentType names are unique, the body is the last one set, and its length is the Content-Length |
| HttpCoder.ContentLengthSurvives | src/net/json_rpc/http_coder.cpp:42-69 | once a body was set, the printed message parses to that body and to a Content-Length that stoul reads as its size |
| HttpCoder.LookupUpdated | src/net/json_rpc/http_coder.cpp:19-27 | after setting a header its name has the new value and every other name the one it had |
| HttpMessages.HttpResponse.SetContentType | src/net/json_rpc/http_coder.cpp:29-40 | the first Content-Type is replaced in place, or one is appended; nothing else changes |
| HttpMessages.HttpResponse.SetBody | src/net/json_rpc/http_coder.cpp:42-56 | the body, and the first Content-Length replaced in place or appended; nothing else changes |
| HttpMessages.HttpResponse.GetHeader | src/net/json_rpc/http_coder.cpp:19-27 | the value of the first header with this name, empty without one |
| HttpMessages.HttpResponse.ToString | src/net/json_rpc/http_coder.cpp:58-69 | the printing loop yields the text the round trips are about |
| HttpMessages.DecodeResponse | src/net/json_rpc/http_coder.cpp:128-183 | the line loop yields the parse the round trips are about, null without a complete non-empty head |
| HttpMessages.DecodeRequest | src/net/json_rpc/http_coder.cpp:71-126 | the same for requests |
| HttpMessages.BuiltReadBack | src/net/json_rpc/http_coder.cpp:190-208 | a built response always reads back with its code, type, length and body, and with its message if and only if that is one token |
| HttpMessages.TextOfTwo | src/net/json_rpc/http_coder.cpp:58-69 | the printed text with every separator, for any response with two headers |
| HttpMessages.PrintedExample | src/net/json_rpc/http_coder.cpp:190-208 | a built response piece by piece |
| HttpMessages.BuildOkResponse | src/net/json_rpc/http_coder.cpp:190-198 | the text of the response BuiltReadBack is about, with 200 and OK |
| HttpMessages.BuildErrorResponse | src/net/json_rpc/http_coder.cpp:200-208 | the text of the response BuiltReadBack is about, its message also its body |
| HttpFraming.ParsedWire | src/net/json_rpc/json_session.cpp:147-195 | the bodies in a stream of well-formed messages are theirs, in order, whatever follows |
| HttpFraming.WholeBodyIff | src/net/tcp_connection.cpp:86-93 | behind a head that announces it, a body is delivered whole if and only if the read buffer can hold it |
| HttpFraming.LongBodyIsCut | src/net/tcp_connection.cpp:86-93 | what happens otherwise: the first 4096 bytes are delivered, and what is left is read as the next head |
| HttpFraming.RefusedIff | src/net/json_rpc/json_session.cpp:153-158 | the only complete head the decoder returns nothing for is the one without a request line |
| HttpFraming.AnnouncesMeans | src/net/json_rpc/json_session.cpp:161-166 | a head that decodes makes stoul throw if and only if its Content-Length is not empty and stoul rejects it; otherwise it announces what stoul reads, and 0 without a Content-Length |
| HttpFraming.NoLengthNoBody | src/net/json_rpc/json_session.cpp:189-194 | a printed head without Content-Length has an empty body behind it and the next head follows at once |
| JsonReading.NoLengthDelivered | src/net/json_rpc/json_session.cpp:189-194 | a session that reads such a head has delivered an empty body, has a read for the next head outstanding and has taken nothing for a body |
| JsonReading.RefusalsClose | src/net/json_rpc/json_server.cpp:97-107 | a failed read closes the session and delivers nothing; an invalid request closes it; a valid one leaves it open |
| JsonReading.NothingAfterRefusal | src/net/json_rpc/json_server.cpp:97-107 | in any run nothing is delivered after a failed read or an invalid request |
| JsonReading.HeadStopsIff | src/net/json_rpc/json_session.cpp:147-195 | a session handed a head has no read outstanding afterwards if and only if the head has no request line or stoul rejects its Content-Length, and has thrown if and only if the latter |
| JsonReading.StoppedAtHead | src/net/json_rpc/json_session.cpp:153-166 | in any run over well-formed messages with such a head behind them nothing behind it is delivered, and without errors exactly the messages' bodies are |
| JsonReading.EmptyLineStopsForGood | src/net/json_rpc/json_session.cpp:153-158 | in any run over a stream that begins with an empty line, once a read has ended well the session waits for nothing, has delivered nothing and leaves the rest of the stream unread |
| JsonReading.NoNumberCrashes | src/net/json_rpc/json_session.cpp:161-166 | in any run over a stream that begins with a head whose Content-Length is not a number, the first read that ends well throws and nothing is delivered |
| HttpFraming.PrintedRequest | src/net/json_rpc/json_session.cpp:160-166 | any printed request is well-formed if its first Content-Length is read as the length of its body |
| JsonReading.RequestsArePrefix | src/net/json_rpc/json_session.cpp:136-202 | for any stream of bytes whatever and any run over it, cut into reads in any way, with errors, closes and invalid requests, the bodies delivered are the first the stream holds, in order, and no second AsyncReadLen is started |
| JsonReading.WellFormedRequestsArrive | src/net/json_rpc/json_session.cpp:86-121 | for well-formed messages the bodies delivered are at any moment a prefix of theirs and all of them once the open session waits for more, also when a body is delivered inside the header callback |
| JsonReading.CanRead | src/net/json_rpc/json_session.cpp:86-121 | while bodies are left an open session has a read outstanding that can end well |
| JsonReading.UndisturbedRunsDeliverAll | src/net/json_rpc/json_session.cpp:136-202 | without errors and invalid requests every run ends within two reads a body and one, and then every body has been delivered |
| JsonSession.JsonSession.OnRead | src/net/json_rpc/json_session.cpp:136-202 | head or body as the session's state says: the step function of the runs above |
| JsonSession.JsonSession.OnHead | src/net/json_rpc/json_session.cpp:160-194 | what Content-Length decides: no body, a body already there, or a further read; an exception when stoul rejects it |
| JsonSession.JsonSession.AsyncReadLen | src/net/tcp_connection.cpp:70-100 | a body already buffered is delivered before the call returns |
| JsonSession.JsonSession.ReadHttpHeader | src/net/json_rpc/json_session.cpp:86-105 | back to the header state with nothing kept, one read until CRLFCRLF outstanding |
| JsonSession.JsonSession.ProcessRequest | src/net/json_rpc/json_session.cpp:123-134 | hands over the body; the callback starts the session again or closes it |
| JsonSession.JsonSession.Complete | src/net/tcp_connection.cpp:129-147 | a completed read reaches an open session once, with what read-until or the length asked for |
| JsonClient.JsonClient.ReadResponse | src/net/json_rpc/json_client.cpp:72-117 | header, Content-Length, body, with every way they can fail, the bytes taken and the bytes kept |
| JsonClient.BodyReturnedIff | src/net/json_rpc/json_client.cpp:72-117 | a body is returned if and only if the head was read without an error and announces a length and that much was buffered or read without an error; it has that length, or 4096; the exception is that of a non-empty Content-Length stoul rejects |
| JsonClient.ResponsesInOrder | src/net/json_rpc/json_client.cpp:72-117 | reading well-formed responses one after another returns their bodies in order and keeps what follows, however much each read takes too far |
| JsonClient.SessionResponsesArrive | src/net/json_rpc/json_session.cpp:33-39 | the bodies of the responses a session writes come back from the client's reads in order |
| JsonClient.PrintedResponseHead | src/net/json_rpc/json_client.cpp:87-103 | the client learns from the head of any printed response what its first Content-Length says |
| JsonClient.ClientStreamWholeIff | src/net/json_rpc/json_client.cpp:49-56 | for bodies of any size, what the client writes for a list of them carries exactly these bodies if and only if each fits the read buffer |
| JsonClient.ClientRequestsArriveIff | src/net/json_rpc/json_client.cpp:49-56 | a run of the session over it without errors and invalid requests, once at its end, has delivered exactly these bodies if and only if each fits |
| JsonClient.JsonClient.RequestText | src/net/json_rpc/json_client.cpp:49-56 | the text the client writes is that of a request with a head and the body |
| JsonClient.RequestDecodes | src/net/json_rpc/json_client.cpp:49-56 | a server decodes the client's request to "POST", "/", "HTTP/1.1", the client's headers and the body |
| JsonClient.RequestHeadersAre | src/net/json_rpc/json_client.cpp:51-54 | these headers: Host, Content-Type and the body's length |
| JsonClient.RequestExample | src/net/json_rpc/json_client.cpp:49-56 | a request head piece by piece |
| JsonClient.RequestWellFormed | src/net/json_rpc/json_client.cpp:49-56 | for any body within the buffer that request is well-formed |
| JsonClient.ClientRequestsArrive | src/net/json_rpc/json_client.cpp:49-56 | the bodies a client wrote are delivered by the session in order for any cutting into reads, all of them once it waits for more |

## Left out

- RemoteCallsAreLocalCalls: for runs without timeout or error, with one call at a time and services that do not change during the run; the service method itself is an uninterpreted function of its parameter
- WheelRefinesFlat: for timeouts of at most a day, refreshes that never lower a deadline, and events none of whose adds reach past the end of the day; TimerResidence says what happens to the others
- UndisturbedRunsDeliverAll: the request callback is that of the server, which starts the session again after a valid request and closes it otherwise; whether a body is valid JSON is a parameter
- AddTimerEventUnSafe: intervals whose slot does not exist (PlaceInRangeIff), for which the source indexes outside the wheel, and the 32-bit truncation of a difference of 2^31 and more; the timeout clamp keeps callers below both
- PostTimerEvent: an event is an identifier with a deadline instead of a heap object; its last shared reference is dropped when no slot holds the identifier
- EncodeRequest: messages of 2^31 bytes and more
- DecodeRequest: the overflow of the signed sum of lengths, undefined in C++, is taken as two's complement wrap-around; the exception of substr is a result value, and no handler catches it
- OnSessionRead: the refresh of the session's event between dispatch and write is not part of this method; IdleTimeout adds it to every dispatch
- OnRequest: an assert sets a flag and the code goes on as without assertions
- DecodeResponse: the error code is any 32-bit number, not only the listed ones
- JsonSession.JsonSession.OnHead: its case of a body that came with the head is as in the source, but no run reaches it, since read-until returns the head alone (HttpFraming.HeadHasNoBody)
- JsonClient.JsonClient.ReadResponse: returns the body; whether the JSON coder accepts it is not part of the model
- ProcessRequest: the JSON coder and dispatcher; HTTP bodies are opaque text, and what answers a valid request is not part of the reading state machine
- Stop and destruction: the life of sessions held only by weak references and the raw `this` captured by a posted restart
- Reuse of a client after a timed-out call: the position in the stream is then not known, and nothing is claimed about the calls that follow
- TimerWheel::Cancel, ResetTimerEvent (the same as AddTimerEvent) and the re-arming timer: ticks are steps of the environment
- Sockets, resolver, accept loop, signals, thread pool and mutexes: every handler is one atomic step of its context
- Partial SyncWrite results, connect and the throwing overloads of the blocking calls
- RPC controller, closures, connection hashing, logging, error-code tables, demos
- The HTTP headers under src/net/json_rpc lag behind the function bodies; the bodies are what is modelled, with the connection of the session read as AsyncConnection and that of the client as SyncConnection
