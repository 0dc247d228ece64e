# A verified model of the HTTP/1.1 server

The model covers the four parts of the server that hold its hard promises. The structs the code updates
in place are classes; the ring buffer, the receive buffer and the header buffer are arrays, while a
`char[N]` field inside a struct is a bounded sequence. The sequential code keeps its loops; the code of the
pool's threads is cut where another thread may run, so its loops go round through a program counter. The
functions all this is proved against are kept apart from it.

**The thread pool** (`WorkQueue`, `ThreadPool`, `PoolSafety`, `PoolDrain`, `PoolProgress`, `Pool`). The ring
buffer is an array with `head`, `tail` and `count`, refined to a FIFO sequence. The pool is an interleaving
of any number of workers, the submitting thread and the thread that shuts down; every thread has its own
program counter, `pthread_cond_wait` releases the mutex and sleeps in one event, a signal wakes any one
sleeper, and spurious wakeups are always possible. In `Pool` each thread takes its turn on the shared fields
and makes the decisions of the C code itself; its turns are exactly the events of the interleaving, in both
directions (`Pool.Pool.RunSchedule`, `Pool.Pool.Replay`). Main results: `PoolSafety.Safety` (the invariant,
with no lost wakeup, in every state of every interleaving), `PoolSafety.ExactlyOnce`, `PoolDrain.NeverStuck`,
and two without any fairness assumption: `PoolDrain.DrainTerminates` (shutdown ends) and
`PoolProgress.WorkGetsDone` (without shutdown, too, everything submitted gets served).

**The request parser** (`Numerals`, `HttpParser`, `ParserLaws`, `HeaderBlock`, `HeaderLookup`,
`ParserRoundTrip`, `ConnectionOptions`, `RequestParser`).
`RequestParser` is the cursor code over an `HttpRequest` object; it is proved equal to the functions of
`HttpParser`, and those are characterised without their definitions: `ParserRoundTrip.BuffersAreText` and
`ParserRoundTrip.TextIsParsed` say of every buffer what it parses to, in terms of its lines;
`ParserRoundTrip.LineIff` and `HeaderBlock.HeadersIff` say exactly which lines are accepted, and as what;
`HeaderLookup` says what is derived from the headers, for every list of them and every text in them;
`ParserRoundTrip.RequestRoundTrip` prints and reads back; `ParserLaws` says how the verdict behaves as bytes
keep arriving.

**The connection loop** (`Pipeline`, `Connection`, `KeepAlive`). `Pipeline.Reference` is the simple recursive
reading of a byte stream as requests. `Connection.Course` says, for every script of what the client does,
which segments the connection receives and why it ends: each `recv` brings as much as there is and as the
buffer has room for, until a parse ends the connection or the client does. `KeepAlive.HandleConnection` is the
loop with its 64 KB buffer, re-parse from scratch, second scan and slide to the front. It is proved to follow
that course for every script and to serve exactly the paced prefix of the reading of what it received;
`KeepAlive.WholeCourse` says what that means in terms of the bytes the client sends.

**The response side** (`ChunkedCoding`, `Sockets`, `Chunked`, `HttpResponse`). The chunked writers work over
a descriptor that may take fewer bytes than offered, be interrupted or fail; `Sockets.WriteLoopEnds` says of
every pattern of answers where a write loop ends. The output is checked against a decoder written from
section 4.1.3 of RFC 7230, and against a strict reader that takes no extension, trailer or leading zero. The
header serialiser's one fixed buffer is shown to be large enough, and its block to read back strictly.

## Where the code and its comments differ

The model follows the code.

- A complete pipelined request left in the buffer is not answered until another `recv` returns data
  (keep_alive.c:209-228), although keep_alive.c:32-34 says that two requests in one segment are handled. So what is
  served is a prefix of the reference reading, not all of it: `Pipeline.PipelinedPairExists` is a segment
  that completes two requests and gets one answer, and `Pipeline.ServesAllIff` is the exact condition under
  which every complete request has been answered. A malformed request behind another is likewise noticed
  only after that `recv`.
- A request whose head is a CRLF-ended request line and nothing else is refused (http_parser.c:227-229): the
  search for the first LF stops in front of the CR of the blank line. `ParserRoundTrip.BareHead` states it and
  `ParserRoundTrip.TextIsParsed` has it as the case `lines == []`.
- `write` may be short, as the comment in chunked.c:39-43 says; `http_response_send_headers` takes a short
  write for a failure and does not send the rest (http_response.c:100-101). `HttpResponse.Response.SendHeaders`
  says when it succeeds: if and only if that one write takes the whole block.
- A negative `Content-Length` is not rejected but taken modulo 2^64, and an over-long one saturates
  (http_parser.c:284). `Numerals.NumberText` and `Numerals.StrtoulReads` give the value of every text, and
  `Pipeline.ServedIff` the consequence: a request whose head parses can still be served if and only if head
  and declared length together fit the 65535 bytes of the buffer; if not, the connection waits, and ends in
  413 once the buffer is full. Behind a minus sign `Pipeline.NegativeLengthServedIff` makes that a condition on
  2^64 - k: most negative lengths are never answered, but "-18446744073709551615" asks for one byte and is
  served, and "-0" for none.
- Persistence is decided by the first Connection field alone, compared as a whole with "keep-alive"
  (http_parser.c:292-297). Section 6.3 of RFC 7230, invoked at keep_alive.c:138-140, goes by the options listed in
  all of them. `ConnectionOptions.AgreesIff` is the exact condition under which the two agree,
  `ConnectionOptions.AgreesOnOneOption` what it comes to for a single option, and
  `ConnectionOptions.DisagreementsExist` has an input for each way to differ: "keep-alive" followed by a
  second field "close" is kept open, and "TE" on HTTP/1.1 is closed.
- Header lines of at most one byte are skipped whatever the byte is (http_parser.c:262-265), and trailing
  blanks of a value are kept (http_parser.c:178-180), although the comment at http_parser.c:146-147 quotes
  `OWS` on both sides.

## Model

| member | source | states |
|---|---|---|
| WorkQueue.PushAppends | thread_pool.c:48-53 | the slot at `tail` is `(head + count) % capacity`, and writing it appends to the abstract queue, wrapped or not |
| WorkQueue.PopRemoves | thread_pool.c:55-61 | reading the slot at `head` removes the oldest item and leaves the others in order |
| WorkQueue.WorkQueue.constructor | thread_pool.c:153 | a zeroed queue of any capacity, empty |
| WorkQueue.WorkQueue.Push | thread_pool.c:48-53 | the in-place push on the array, as an append to the queue it stands for |
| WorkQueue.WorkQueue.Pop | thread_pool.c:55-61 | the in-place pop returns the oldest item |
| ThreadPool.InHandUpdate | thread_pool.c:115-137 | moving one worker changes what all workers together have in hand by that worker's connection only |
| PoolSafety.InitInv | thread_pool.c:150-182 | a pool of any size with room for any number of connections starts in the invariant |
| PoolSafety.ExclusiveStep | thread_pool.c:84-124 | the mutex is held by exactly the thread between its lock and its unlock, kept by every step |
| PoolSafety.DrainingStep | thread_pool.c:94-110 | after shutdown nobody sleeps again, nothing is queued again, and a worker leaves only with the queue empty |
| PoolSafety.NoLostWakeupStep | thread_pool.c:94-124 | while a worker sleeps, queued items are at most the workers about to re-check plus the signal on its way; a sleeping submitter means a full queue or a worker about to signal |
| PoolSafety.FifoStep | thread_pool.c:48-61 | accepted connections are the popped ones followed by the queued ones, kept by every step |
| PoolSafety.InOrderStep | thread_pool.c:190-228 | submissions are accepted in order, none skipped, until shutdown, and refused from then on |
| PoolSafety.AccountedStep | thread_pool.c:115-139 | popped is finished plus in hand; closed is finished plus refused, as multisets |
| PoolSafety.InvStep | thread_pool.c:70-267 | every step of every thread, spurious wakeups included, keeps the whole invariant |
| PoolSafety.Safety | thread_pool.c:70-267 | every state of every interleaving from the start satisfies the invariant |
| PoolSafety.WorkIsNotStranded | thread_pool.c:219-225 | queued work never coexists with all live workers asleep, unless a signal is on its way |
| PoolSafety.ClosedAtMostOnce | thread_pool.c:208-213 | at any moment no connection has been closed twice, and popping is in order of acceptance |
| PoolSafety.AllServed | thread_pool.c:115-139 | once nothing is queued, in hand or being submitted, every accepted connection was handled once and every submitted one closed once |
| PoolSafety.ExactlyOnce | thread_pool.c:230-267 | after destroy: queue empty, workers gone, every accepted connection handled once, every submitted one closed exactly once |
| PoolDrain.HolderCanStep | thread_pool.c:84-124 | whichever thread holds the mutex can go on by itself |
| PoolDrain.NeverStuck | thread_pool.c:94-124 | in every reachable state some thread can go on without outside help or a spurious wakeup, unless there is nothing to do |
| PoolDrain.StepLowers | thread_pool.c:94-110 | after shutdown every step of any thread lowers the measure |
| PoolDrain.RunLowers | thread_pool.c:94-110 | so a run after shutdown is no longer than the measure has fallen |
| PoolDrain.MeasureBound | thread_pool.c:238-259 | a bound on that length in queue, workers and connections to come |
| PoolDrain.DrainTerminates | thread_pool.c:238-267 | every run after shutdown is bounded, with no fairness, and one that cannot go on has joined all workers, drained the queue and closed every connection once |
| PoolProgress.StepPays | thread_pool.c:70-267 | every step a thread takes by itself leaves less to do; an arrival, the call of shutdown or a spurious wakeup adds a bounded amount |
| PoolProgress.RunPays | thread_pool.c:70-267 | no livelock: in any run the threads' own steps are bounded by what there was to do and by the number of events from outside |
| PoolProgress.RemainingBound | thread_pool.c:70-267 | that bound in queue and workers |
| PoolProgress.WorkGetsDone | thread_pool.c:94-137 | left to themselves, with no fairness and no shutdown, the threads stop after boundedly many steps, and then every accepted connection has been served and every submitted one closed exactly once |
| Pool.Pool.constructor | thread_pool.c:150-182 | the pool, everything zeroed, with 4 workers and 128 slots, is the state every run of the state machine starts from |
| Pool.Pool.WorkerTurn | thread_pool.c:70-143 | the worker's own tests (94, 106) choose the one event it can take, on the fields in place; it does nothing exactly where it must wait for the mutex or is gone |
| Pool.Pool.SignalNotEmpty | thread_pool.c:225 | one sleeper wakes if there is any, whichever the system prefers |
| Pool.Pool.SubmitterTurn | thread_pool.c:190-228 | the same for the submitting thread, with its tests at 203 and 208 |
| Pool.Pool.BroadcastNotEmpty | thread_pool.c:250 | every sleeper wakes, no other worker moves |
| Pool.Pool.DestroyerTurn | thread_pool.c:238-267 | the same for shutdown, which waits for the mutex and for each worker to be gone |
| Pool.PlaysIsRun | thread_pool.c:70-267 | a schedule of turns is an interleaving of the state machine |
| Pool.Pool.Take | thread_pool.c:70-267 | a turn is the event its thread can take, or nothing exactly where it has none |
| Pool.Pool.RunSchedule | thread_pool.c:70-267 | whatever order the scheduler gives turns in, each turn does what its thread can do there, and the invariant is kept |
| Pool.Pool.Replay | thread_pool.c:70-267 | and every interleaving of the state machine is brought about by some order of turns |
| Bytes.SameTextIff | http_parser.c:131-132 | `strcmp` finds two buffers equal exactly if their C strings are |
| Numerals.LeadingDigits | http_parser.c:284 | a row of digits, leading zeros included, is read as the number it stands for |
| Numerals.NumberText | http_parser.c:284 | every text is blanks, a sign or none, digits or none, and a tail that is not read |
| Numerals.StrtoulReads | http_parser.c:284 | and its value is the digits' number, saturated at 2^64 - 1, modulo 2^64 behind a minus sign, 0 without digits |
| Numerals.StrtoulReadsDecimal | http_parser.c:284 | a plain decimal is read as its value, or as 2^64 - 1 once it is too large |
| Numerals.StrtoulWrapsNegatives | http_parser.c:284 | a negative length is read modulo 2^64 |
| Numerals.LeadingNumeral | chunked.c:103-104 | a printed number, decimal or hexadecimal, reads back whatever follows it |
| Numerals.NumeralIsDecimal | http_response.c:63 | decimal digits without leading zeros, that stand for the number printed |
| Numerals.SignedIsDecimal | http_response.c:86-87 | the same behind a minus sign for a negative number, and only for one |
| Numerals.ThreeDigits | http_response.c:86-87 | a status code from 100 to 999 has three digits |
| Numerals.NumeralIsHexadecimal | chunked.c:103-104 | lower-case hexadecimal digits without leading zeros, that stand for the size |
| HttpParser.FindHeaderIsFirst | http_parser.c:47-54 | the header found is the first with that name up to case; none is found only if there is none |
| HttpParser.TerminatorFromIsFirst | http_parser.c:212-218 | the scan finds the first CR LF CR LF, or there is none |
| RequestParser.HttpRequest.Init | http_parser.c:25-28 | all fields empty, no body |
| RequestParser.StrLowerCmp | http_parser.c:33-41 | zero exactly for C strings equal up to case |
| RequestParser.LookUpHeader | http_parser.c:47-54 | the loop returns the value `GetHeader` defines |
| RequestParser.ParseTargetInto | http_parser.c:85-110 | the target split at its first '?', with both limits |
| RequestParser.ParseVersionInto | http_parser.c:113-135 | one CR dropped, limits, HTTP/1.0 or HTTP/1.1 |
| RequestParser.ParseRequestLineInto | http_parser.c:66-136 | the moving cursor fills in what `ParseRequestLine` defines, fields and terminators inside their arrays |
| RequestParser.ParseHeaderLineInto | http_parser.c:149-188 | one field appended, or an error and none, never more than 32 |
| RequestParser.FindBlankLine | http_parser.c:211-221 | the scan loop finds the end of the headers |
| RequestParser.NextLine | http_parser.c:244-270 | in front of the blank line there always is a next LF, and the cursor lands on the header end, before it, or two behind |
| RequestParser.ParseHeaderSection | http_parser.c:242-271 | the cursor loop ends, its `break` is dead code, and it stores exactly the lines longer than one byte, in order |
| RequestParser.DeriveFields | http_parser.c:281-317 | content length, persistence and body pointer; incomplete exactly while body bytes are missing |
| RequestParser.ParseHttpRequest | http_parser.c:198-318 | the three verdicts are those of `ParseRequest`, and on success every field and the body seen through the pointer |
| ParserLaws.HeaderEndOfPrefix | http_parser.c:211-221 | a cut either hides the first blank line or leaves it where it is |
| ParserLaws.VerdictOfPrefix | http_parser.c:211-317 | the verdict on every prefix of a buffer, from the verdict on the buffer |
| ParserLaws.PrefixStability | http_parser.c:198-318 | once OK or ERROR, more bytes change neither the verdict nor any field |
| ParserLaws.DecisionPoint | http_parser.c:306-317 | there is one exact length below which a stream is incomplete and from which on it is decided alike; on success it is the frame length |
| ParserLaws.FramesArePrefixFree | http_parser.c:306-317 | no accepted request is a proper prefix of another |
| HeaderBlock.HeaderLinesOfText | http_parser.c:242-271 | of any text, the header lines are its LF-ended lines longer than one octet, in order |
| HeaderBlock.TextIsLines | http_parser.c:242-271 | every byte string is such a text up to what follows its last LF |
| HeaderBlock.FieldIsRead | http_parser.c:149-188 | a name, colon, any blanks, a value, all within the limits, and a CR or none, are read as that name and value |
| HeaderBlock.FieldReadShape | http_parser.c:149-188 | and nothing else is accepted |
| HeaderBlock.FieldIff | http_parser.c:149-188 | both: exactly these lines are accepted, and as what |
| HeaderBlock.HeadersIff | http_parser.c:149-188 | a list of lines is accepted, as these headers in this order, if and only if there are at most 32 and each line is |
| HeaderBlock.FieldLinesParse | http_parser.c:242-271 | the lines of up to 32 printed fields parse as the fields; of more, not at all |
| HeaderBlock.FieldsRoundTrip | http_parser.c:242-271 | up to 32 printed fields come back in order; more are refused |
| HeaderBlock.TerminatorAfterLine | http_parser.c:212-218 | the blank line is never found inside a line |
| ParserRoundTrip.ShapedLineParses | http_parser.c:66-136 | a method, a target cut at its first '?', a version and a CR or none, between single spaces and within the limits, are read as those |
| ParserRoundTrip.LineReadShape | http_parser.c:66-136 | and nothing else is accepted |
| ParserRoundTrip.LineIff | http_parser.c:66-136 | both: exactly these request lines are accepted, and as what |
| ParserRoundTrip.LineRoundTrip | http_parser.c:66-136 | a printed request line reads back |
| ParserRoundTrip.PrintIsHead | http_parser.c:211-271 | a printed head, seen as text, has its first blank line at its very end |
| ParserRoundTrip.BareHead | http_parser.c:227-229 | a head with no header line is refused |
| ParserRoundTrip.RequestRoundTrip | http_parser.c:198-318 | print then parse: with 1 to 32 headers the same request and the exact frame whatever follows, otherwise ERROR |
| ParserRoundTrip.BuffersAreText | http_parser.c:211-221 | any buffer with a blank line is a first line, a text of lines, that blank line, and what is behind it |
| ParserRoundTrip.TextIsParsed | http_parser.c:198-318 | exactly which such texts are accepted, incomplete or refused, and as what |
| ParserRoundTrip.BodilessRoundTrip | http_parser.c:281-317 | a printed request without a Content-Length reads back with no body, its frame ending at the blank line |
| ParserRoundTrip.BodyRoundTrip | http_parser.c:281-317 | one whose first Content-Length is the length of its body reads back with that body |
| HeaderLookup.SameInCapitals | http_parser.c:33-41 | comparing up to case is comparing in capitals |
| HeaderLookup.SupportedIff | http_parser.c:131-133 | a version is accepted if and only if its C string is HTTP/1.0 or HTTP/1.1 |
| HeaderLookup.LookUpIs | http_parser.c:47-54 | a lookup yields the value of the first header with that name in capitals, and nothing only if there is none |
| HeaderLookup.NoLength | http_parser.c:281-284 | without a Content-Length the length is 0, for every list of headers |
| HeaderLookup.LengthOfText | http_parser.c:281-284 | with one, the first counts, and for every text its length is given |
| HeaderLookup.DeclaredLength | http_parser.c:281-284 | a plain decimal counts as its value, or saturated |
| HeaderLookup.Persistence | http_parser.c:286-297 | the version's default unless there is a Connection field, the first of which must then be "keep-alive" and nothing else, in any case |
| HeaderLookup.PersistenceByName | http_parser.c:286-297 | the same in terms of the headers' names |
| ConnectionOptions.AgreesIff | http_parser.c:286-297 | exactly when that is what section 6.3 of RFC 7230 says, for any Connection fields |
| ConnectionOptions.AgreesOnOneOption | http_parser.c:286-297 | with one field holding one option: if and only if it is keep-alive or close, or the version is HTTP/1.0 |
| ConnectionOptions.DisagreementsExist | http_parser.c:292-297 | an input kept open where the section closes, and one closed where it stays open |
| Pipeline.Reference | keep_alive.c:205-336 | the recursive reading of a stream; every frame it cuts off is one the parser accepts whole |
| Pipeline.ReferenceConserves | keep_alive.c:301-329 | frames and rest are the stream: nothing lost, repeated or reordered |
| Pipeline.VerdictMeaning | keep_alive.c:214-299 | what each verdict means for the bytes left: 413 only when the first 65535 of them are an incomplete request, 400 only when they are refused, and the two closes |
| Pipeline.WindowShows | http_parser.c:306-317 | behind a head that parses, a buffer is accepted exactly if the whole frame is there and fits the window |
| Pipeline.ServedIff | keep_alive.c:214-223 | a head that parses can still be served, for some bytes to come, if and only if its frame fits the window; if not, the reading waits for ever more bytes and turns to 413 at 65535 |
| Pipeline.NegativeLengthServedIff | http_parser.c:284 | for a Content-Length of "-k" that condition is on 2^64 - k |
| Pipeline.ReferenceGrows | keep_alive.c:205-336 | more bytes only extend a reading that was waiting for them, and change no other |
| Pipeline.ReferenceBehindFrames | keep_alive.c:301-329 | served persistent frames can be dropped from the front and the reading goes on from there |
| Pipeline.SplitIsUnique | keep_alive.c:301-329 | any persistent frames a stream starts with are the first of its reading |
| Pipeline.ServedIsPrefixOfReference | keep_alive.c:205-336 | whatever the segments, what is served is a prefix of the reading of the whole stream |
| Pipeline.SegmentationsAgree | keep_alive.c:205-336 | of two segmentations of a stream one serves a prefix of the other |
| Pipeline.VerdictsAgree | keep_alive.c:214-223 | 413, 400 and the closes do not depend on the segmentation |
| Pipeline.PacedIsLeast | keep_alive.c:209-228 | closed form of how many requests are served: the least over all points of what was complete there plus one per later recv |
| Pipeline.ServesAllIff | keep_alive.c:209-228 | every complete request is served if and only if no run of latest segments completed more requests than it has segments |
| Pipeline.PipelinedPairWaits | keep_alive.c:209-228 | two requests in one segment: only the first is answered |
| Pipeline.PipelinedPairExists | keep_alive.c:209-228 | a concrete such segment |
| Connection.Arrive | keep_alive.c:225-261 | what one `recv` brings: no more than the room, and the client's next bytes or event |
| Connection.ArrivalOfStream | keep_alive.c:225-261 | with room, it brings the next bytes of the stream, or the client's end of the connection, or an interruption that loses nothing |
| Connection.SignalsDoNotMatter | keep_alive.c:245 | a connection takes the course it would take without any interrupted `recv` |
| KeepAlive.Client.Recv | keep_alive.c:225-261 | that, in place: the bytes go into the buffer at `total`, nowhere else, and the result is the one the client's next event calls for |
| KeepAlive.Client.Dispatch | keep_alive.c:135-164 | the request handed over is the one parsed, and its `keep_alive` comes back |
| KeepAlive.ConsumedBytes | keep_alive.c:114-128 | the second scan and its 64-bit sum |
| KeepAlive.ConsumedIsFrame | keep_alive.c:114-128 | after PARSE_OK its fallback is unreachable, the sum does not wrap and is the frame length, at most `total` |
| KeepAlive.MoveToFront | keep_alive.c:325 | the in-place move, overlapping or not |
| KeepAlive.SlideOut | keep_alive.c:317-329 | what is left in the buffer is what was behind the frame |
| KeepAlive.ReferenceAfter | keep_alive.c:225-274 | after one more segment the reading is the frames served, then the reading of the buffer, and one more request is served if that has any |
| KeepAlive.OneRecv | keep_alive.c:225-274 | one recv and one parse keep the stream/buffer invariant and reach each verdict exactly when the reading does |
| KeepAlive.ServeOne | keep_alive.c:276-329 | serving one request and sliding its frame out keeps the invariant, or ends for the right reason |
| KeepAlive.EndingsAgree | keep_alive.c:205-345 | two segmentations of one stream that both come to an end of their own served the same requests and ended alike |
| KeepAlive.RoomLeft | keep_alive.c:225-228 | the room handed to `recv` is what the course of the connection supposes |
| KeepAlive.CourseMeans | keep_alive.c:205-345 | from any point of a connection: it receives a beginning of what is sent, ends for a reason of its own exactly if the last parse ended it, and otherwise has received everything and ends as the client did |
| KeepAlive.WholeCourse | keep_alive.c:205-345 | the same from the start, and what is served is a prefix of the reading of all the client sends |
| KeepAlive.CoursesAgree | keep_alive.c:205-345 | two clients that send the same bytes in any pieces: one is served a prefix of what the other is, and two endings of the server's own are the same |
| KeepAlive.FullReads | keep_alive.c:225-228 | each segment fills the room that is left or ends where a piece of what the client sends does |
| KeepAlive.ParseBuffer | keep_alive.c:262-265 | the NUL behind the bytes, and the parser's verdict on all of them |
| KeepAlive.RecvAndParse | keep_alive.c:225-273 | one turn of the accumulate loop follows the course of the connection |
| KeepAlive.ReadNextRequest | keep_alive.c:209-274 | the accumulate loop: ends for every script, follows the course of the connection, `total` within the buffer, 413 and 400 sent exactly for their verdicts |
| KeepAlive.AnswerRequest | keep_alive.c:276-299 | the request in front is answered, and the close decisions are those of the reading |
| KeepAlive.ServeRequests | keep_alive.c:205-336 | the request loop: segments and ending are the course of the connection, and exactly the paced prefix is served |
| KeepAlive.HandleConnection | keep_alive.c:176-345 | for every script: segments and ending are the course of the connection, exactly the paced prefix served, every byte received and the client's own ending unless a verdict ends it, 413 and 400 exact, one close, at most 1000 * 65535 data-returning recv calls |
| Sockets.WriteLoopEnds | chunked.c:49-62 | for every pattern of answers: the loop succeeds behind the first of them that make room for all the bytes, or fails at the first fatal one, and exactly what there was room for went out |
| Sockets.WriteLoopSucceedsIff | chunked.c:49-62 | it succeeds if and only if there is room for all the bytes before anything fatal |
| Sockets.WritePartsSingle | chunked.c:107-121 | a sequence of one write is that write loop, in which 0 bytes are fatal |
| Sockets.WritePartsAppend | chunked.c:107-121 | two sequences of writes in a row: the second goes out only if the first did |
| Sockets.PartWritten | chunked.c:107-121 | one `write_all` of a sequence, sent or cut off, as a prefix of the whole |
| ChunkedCoding.DecodeOfPrefix | chunked.c:118-119 | a complete chunked body is complete from its last byte on and undecided before |
| ChunkedCoding.ChunkedRoundTrip | chunked.c:139-145 | decoding an encoding returns the pieces run together and consumes exactly the encoding |
| ChunkedCoding.SizeRoundTrip | chunked.c:102-105 | the hexadecimal size reads back |
| ChunkedCoding.UnfinishedIsNeedMore | chunked.c:188-199 | no strict prefix of an encoding looks finished |
| ChunkedCoding.StrictRoundTrip | chunked.c:139-145 | the encoding is one chunk for each piece that is not empty, with no extension, trailer or leading zero |
| Chunked.WriteAll | chunked.c:45-63 | every byte in order through short and interrupted writes, or a failure and a prefix, exactly as the descriptor's answers decide |
| Chunked.PartsAre | chunked.c:107-121 | which writes make up a chunk and the end |
| Chunked.StreamOutcome | chunked.c:147-210 | a stream that succeeds decodes to its pieces and nothing is left over; one that fails never decodes as finished |
| Chunked.OneShotIsStreaming | chunked.c:81-124 | one-shot equals streaming a single piece, byte for byte, against any pattern of writes |
| Chunked.SizeLineFits | chunked.c:100-104 | the size line fits its 24-byte buffer for every `size_t` |
| Chunked.ChunkedSendBody | chunked.c:81-124 | the four writes in order up to the first that fails, and its result |
| Chunked.ChunkedWriter.constructor | chunked.c:130-135 | no bytes, no error |
| Chunked.ChunkedWriter.Send | chunked.c:147-186 | one chunk, or nothing for an empty piece or after an error; the error is sticky |
| Chunked.ChunkedWriter.Finish | chunked.c:200-210 | the last chunk, unless there was an error |
| Chunked.ChunkedWriter.OutputDecodes | chunked.c:147-210 | at any moment the output decodes as complete exactly if finished, and `bytes_sent` is the decoded length modulo 2^64 |
| HttpResponse.BlockBound | http_response.c:82-98 | the block is at most 7816 bytes, so no `snprintf` is cut short |
| HttpResponse.StatusLineRoundTrip | http_response.c:86-87 | status and reason read back from the status line, which is one of HTTP/1.1 as it should be written |
| HttpResponse.BlockRoundTrip | http_response.c:82-98 | status, reason, headers in order and the block's length read back strictly, whatever body follows |
| HttpResponse.FittedIs | http_response.c:50-53 | a C string that fits its field is stored whole, and one that does not is cut to what fits |
| HttpResponse.Response.constructor | http_response.c:29-40 | Date and Server come first; a reason of up to 63 and a date of up to 255 characters are stored whole |
| HttpResponse.Response.AddHeader | http_response.c:45-55 | one more header, a name of up to 63 and a value of up to 255 characters stored whole and longer ones cut there; none beyond 24 |
| HttpResponse.Response.SetContentLength | http_response.c:60-65 | the decimal text is stored whole for every 64-bit length |
| HttpResponse.LengthText | http_response.c:62-64 | it fits both the 32-byte buffer and the header field |
| HttpResponse.Snprintf | http_response.c:86-98 | stores at most `room - 1` bytes and a NUL and returns the whole length |
| HttpResponse.Response.SendHeaders | http_response.c:74-102 | the accumulated buffer is the serialisation; success exactly if one write takes it whole |
| HttpResponse.SendBody | http_response.c:107-125 | every byte in order, or a failure and a prefix, exactly as the descriptor's answers decide; a write of 0 bytes is retried |

## Left out

- Sockets, `accept`, signals, timeouts as durations, logging, configuration and `main`: `recv` and `write` are arbitrary finite scripts of results, and a timeout is one possible result of `recv`.
- Interruption for ever: a script of `recv` or `write` results is finite, so a descriptor that answers EINTR without end is not covered.
- file_server.c and the response to a request: `KeepAlive.Client.Dispatch` records the request and returns its `keep_alive`; the error responses are recorded by their status code.
- `http_response_error`, `http_response_sendfile`, date formatting and MIME types; the date is a parameter of the response's constructor.
- HttpRequest and HttpResponse character arrays are sequences bounded by their array's size, standing for the bytes in front of the terminator; bytes behind a terminator are not represented.
- `tolower` is that of the C locale.
- `memchr` and `strcmp` are functions with their defining properties as lemmas; the loops of the C library are not modelled.
- Aliasing of the caller's buffers: slices handed to the parser and the writers are values.
- Pool.Pool.SubmitterTurn: one thread submits, as server.c does; several submitting threads are not covered. Shutdown may come at any moment, also during a submission.
- PoolDrain.DrainTerminates: `thread_pool_destroy` returns only after a submission in progress has left the mutex, which the source leaves to its caller.
- Failures of the pthread calls, which end the process; `active_workers` and the unlocked read of `count` for a log line, which decide nothing.
- Handling one client is one step of the pool model, so a worker that serves a client for ever is not covered there; `KeepAlive.HandleConnection` shows that the loop ends.
- Pool.Pool.WorkerTurn: where another thread may run is fixed in the model, at every mutex and condition variable call and around the pop; that no other point matters rests on the mutex. The `while` statements are cut there, so they appear as a program counter that comes back to its test.
- `Transfer-Encoding` in requests: the parser ignores the field, so a chunked request body is read as the next request.
