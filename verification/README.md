# Getodac in Dafny

Getodac is an HTTP server: one acceptor thread, one epoll loop per worker thread, and one
coroutine per connection. This project models its hardest parts and proves what they promise
over every input, every schedule and every run.

| files | what they model |
|---|---|
| `VectoredWrite`, `HttpSession` | the two `write` overloads over the plain and the TLS `writeSome`, under every schedule of short writes, yields and errors |
| `ChunkedCoding`, `OutputStreams`, `TlsChunks` | `ChunkedStream` and `OStreamBuffer` over a session, a decoder for section 4.1 of RFC 7230, and when exactly a chunk goes out whole over TLS |
| `WindowBuffer`, `SessionRead` | `Buffer`, `readHeaders` and `read` over an arbitrary parser |
| `SessionCoroutine`, `CoroutinePhases` | the session coroutine: TLS accept, headers, handler, error page, shutdown, and the order of these in every run |
| `SessionLifetime`, `EventLoop` | the life of session objects between the acceptor and a loop, as interleaved steps, and the bookkeeping methods |
| `BatchOrder`, `Timeouts` | the order inside a batch, and the timeouts of one and of many loop iterations |
| `Connections`, `LoadBalance` | the per-address count and the least-loaded scan |
| `LinkedLists`, `LruSpec`, `LruCache` | the LRU cache on heap nodes, refining a recency list |
| `FileCache`, `CacheInclusion` | the static content plugin's use of the cache |
| `UrlText`, `QueryStrings`, `Routes`, `Router` | `split`, `unescapeUrl`, query parsing and first-match dispatch |
| `Basics`, `ByteStrings` | shared definitions |

Concurrent parts are step systems whose steps are the source's critical sections and single
atomic operations; a run is any sequence of enabled steps. Sequential code that changes things
in place is a class or a method with loops, specified by functions of the old state.
The kernel, OpenSSL, the allocator, the clock, the file system and the handlers are parameters:
a schedule, a step chosen freely, or an argument.

## What turned out not to hold

- A vectored write returns early when a short write ends exactly between two non-empty buffers
  (src/server/streams.cpp:166). It is reliable under every schedule if and only if at most one
  buffer is non-empty (`ReliableIffSingleSegment`). A chunk always has three, so some schedule
  loses part of it (`SomeScheduleTruncatesAChunk`).
- Over TLS no unlucky schedule is needed. When every call takes all it is offered, a chunk loses
  its CRLF if and only if header and payload together fill one socket size, or two or more
  (`FullTakesLoseTrailerIff`). The server enables `SSL_MODE_ENABLE_PARTIAL_WRITE`
  (src/server/server.cpp:408), with which a call may take a single record; for calls that take
  M bytes each, below the socket size, the chunk goes out whole if and only if M divides neither
  the header nor header and payload together (`RecordsSendWholeIff`).
- The share of a loop is bounded by the peak number of connections only if the connection being
  accepted and the sessions being unregistered are counted. The registered peak bounds it when
  every accept finds no session leaving and no session is erased during a scan
  (`RegisteredPeakIsEnoughWhenCalm`), and neither half of that can be dropped
  (`RegisteredFairIff`).
- `m_sessions` and `m_deleteLaterObjects` are disjoint outside the delete pass, but inside it a
  reused address can be in both (`DisjointUnlessReused`, `ReusedAddressIsInBoth`). A run keeps
  them disjoint throughout if and only if it registers no session, during a delete pass, under
  an address of that pass (`DisjointIff`).
- Two resumptions end a suspended coroutine if and only if it has been started and, when it waits
  inside its handler, that handler makes no stream call while an error unwinds (`TwoSufficeIff`).
  A chunked stream on the stack makes one, in its destructor (`UnwindingWriteCostsAThird`). The
  exact maximum is given for every suspended state (`SufficeIff`).
- A deadline more than 2^31 ms ahead can be missed: the wait is narrowed to `epoll_wait`'s int
  parameter (src/server/sessionseventloop.cpp:236) and a negative one waits without limit. A turn
  is followed in time if and only if what its earliest pending deadline asks for, modulo 2^32, is
  below 2^31 ms (`FollowedInTimeIff`); a Content-Length of some 1.13 TB does it
  (`LargeBodyBlocks`). At 2^32 ms the wait becomes 0 and the loop spins (`FarDeadlineWraps`).
- The inclusion of a small cache in a large one breaks when a lookup fails for a file that only
  the large one holds (`FailureKeepsInclusionIff`, `InclusionNeedsNoFailures`).
- A query pair survives printing and parsing if and only if its key is not empty, and a query if
  and only if none of its keys is (`PairRoundTripIff`, `QueryRoundTripIff`).
- The per-address counts are exact in every run if and only if the limit is not the largest
  32-bit number (`ExactIff`, `CountWraps`).
- A saved remainder as large as the shared read buffer would be overwritten
  (`SessionRead.Reader.PullBytes`, outcome `TooBig`); it cannot arise when the parser consumes
  all it is given. `readHeaders` is undone by any remainder at all, because it prepends it as a
  C string (src/server/streams.cpp:359; outcome `Garbled`).
- `xsputn` can return less than it accepted. It does so if and only if the block is within the
  capacity and the part of it that finds the buffer full exceeds, for some later sync, the room
  made by the syncs before it plus twice the room that one makes (`PutShortIff`,
  `PutCanBeShort`). That takes a `reserve` that shrinks the string: rooms no smaller than the
  capacity always give the full count (`GrowingRoomsReportAll`).
- A failed put or flush leaves its bytes buffered (include/dracon/stream.h:337-339), so the
  buffer's destructor frames them a second time, and an exception out of that write ends the
  process. It does so exactly when something is buffered: after every failure except that of a
  block handed over at once from an empty buffer (`OStreamBuffer.XsPutN`, `LeaveScope`).

## Model

| member | source | states |
|---|---|---|
| VectoredWrite.OfferedIsPrefix | src/server/streams.cpp:542-561 | plain and TLS vectored `writeSome` hand on at most the concatenation, and something whenever there is something to send and the socket size is positive |
| VectoredWrite.ConsumeSpec | src/server/streams.cpp:153-164 | the bookkeeping loop keeps exactly the unsent suffix, and its leftover count is zero exactly on a buffer boundary |
| VectoredWrite.ConsumeKeepsBoundaries | src/server/streams.cpp:157-162 | after a cut, the remaining list has the boundaries of the original one |
| VectoredWrite.WriteOneExact | src/server/streams.cpp:123-138 | a single-buffer write returns normally exactly when every byte was sent |
| VectoredWrite.WrittenIsPrefix | src/server/streams.cpp:140-169 | a vectored write sends a prefix of the concatenation, however it ends |
| VectoredWrite.WrittenIsLastRestingPoint | src/server/streams.cpp:140-169 | what was sent ends where the cursor last came to rest |
| VectoredWrite.ReturnsAtFirstBoundary | src/server/streams.cpp:140-169 | the vectored write returns at the first resting point that ends a whole number of buffers, and nowhere else |
| VectoredWrite.WriteVectorExact | src/server/streams.cpp:140-169 | a normal return has sent a whole number of buffers, and all of them iff the cursor never rested on an inner boundary |
| VectoredWrite.RoomForAllCompletes | src/server/streams.cpp:441-456 | a plain socket with room for everything completes the write in one call |
| VectoredWrite.DripStopsAtFirstBoundary | src/server/streams.cpp:166-167 | under one-byte writes the write stops at the first boundary, for both session types |
| VectoredWrite.ReliableIffSingleSegment | src/server/streams.cpp:140-169 | every schedule with a normal return, socket sizes changing from call to call, sends everything iff at most one buffer is non-empty |
| VectoredWrite.TakesNothingIff | src/server/streams.cpp:150-154 | a call takes nothing exactly when the kernel allows nothing, there is nothing to send, or a TLS call of socket size zero is offered an empty front buffer |
| VectoredWrite.MoveIs | src/server/streams.cpp:142-167 | one turn, from the fields of its call: it throws exactly when the call fails or takes nothing and the yield brings an error, returns exactly when it rests behind a buffer, and otherwise goes on with what is unsent |
| VectoredWrite.WriteVectorEnds | src/server/streams.cpp:140-169 | the first call that fails or rests on a boundary decides how the write ends, with that call's error code, and everything behind it in the schedule is left; with none, the schedule is used up and the coroutine still waits |
| VectoredWrite.WriteVectorThrowsIff | src/server/streams.cpp:147-152 | it throws c if and only if some call fails with c and none before it failed or rested |
| VectoredWrite.WriteVectorSuspendedIff | src/server/streams.cpp:150-154 | it is still suspended if and only if no call of the schedule fails or rests |
| VectoredWrite.WriteOneEnds | src/server/streams.cpp:123-138 | the same for the single-buffer write: the first failing call decides while something is left, and a write with nothing left makes no call |
| VectoredWrite.WriteOneThrowsIff | src/server/streams.cpp:128-134 | it throws c if and only if a call fails with c while something is left and none failed before |
| VectoredWrite.OneBufferIsWriteOne | src/server/streams.cpp:123-169 | the two overloads agree on one non-empty buffer: the same bytes, status and rest of the schedule, for both session types |
| HttpSession.Session.Send | src/server/streams.cpp:424-439 | a system call puts a prefix of what is offered on the wire and ends with its own code; the error-page permission is withdrawn by a plain write unless it would block or fails, and by a TLS one only if it took something |
| HttpSession.Session.WriteSome | src/server/streams.cpp:521-540 | single-buffer `writeSome`, with the INT_MAX clamp on TLS, sends a prefix of the buffer |
| HttpSession.Session.FlatBuffer | src/server/sessionseventloop.cpp:194-199 | the flattening buffer is at least as large as asked for: the shared one exactly on the loop thread when it fits, a new one otherwise |
| HttpSession.Session.CopyInto | src/server/streams.cpp:552-559 | the flattening loop fills exactly min(total, limit) bytes with the front of the concatenation and touches nothing behind them |
| HttpSession.Session.WriteSomeVector | src/server/streams.cpp:441-561 | both vectored `writeSome` put the offered prefix on the wire, in the shared buffer or not |
| HttpSession.Session.WriteBuffer | src/server/streams.cpp:123-138 | the loop sends, consumes the schedule and ends as the specification says, for every schedule; the error-page permission is left only if nothing was sent |
| HttpSession.Session.SkipSent | src/server/streams.cpp:153-164 | the in-place loop over the buffers computes the unsent remainder |
| HttpSession.Session.Turn | src/server/streams.cpp:142-167 | one turn of the vectored loop sends what it reports and leaves the buffers, the status and the schedule the specification gives; the error-page permission is left only if it sent nothing |
| HttpSession.Session.WriteBuffers | src/server/streams.cpp:140-169 | the vectored loop refines its specification; `lossy` records exactly the writes that sent less than they were given, and the error-page permission is left only if nothing was sent |
| ChunkedCoding.ParseHexOfHex | include/dracon/stream.h:276-286 | reading a hexadecimal size inverts printing it, for every size |
| ChunkedCoding.HexIsPlain | include/dracon/stream.h:282-282 | a printed size has lower-case digits only and no leading zero |
| ChunkedCoding.DecodeChunk | include/dracon/stream.h:276-286 | decoding a printed chunk yields its payload and goes on behind it, whatever the payload contains |
| ChunkedCoding.DecodeChunks | include/dracon/stream.h:261-306 | the coding is self-delimiting: any payloads, terminated, followed by anything, decode to the payloads and what follows |
| OutputStreams.ChunkedStream.Write | include/dracon/stream.h:276-286 | one chunk per non-empty buffer, none for an empty one; the wire holds exactly the chunks as long as no write fell short, and when one did is stated |
| OutputStreams.ChunkedStream.WriteAll | include/dracon/stream.h:288-305 | one chunk for a whole buffer list, none when it is empty |
| OutputStreams.ChunkedStream.Close | include/dracon/stream.h:268-273 | the destructor ends the wire image with the terminator |
| OutputStreams.OStreamBuffer.Sync | include/dracon/stream.h:334-342 | a flush moves what is buffered into a chunk, losing and repeating nothing |
| OutputStreams.OStreamBuffer.Overflow | include/dracon/stream.h:344-350 | a single-character put appends exactly that character to everything put so far: to the buffer while there is room, else alone in it behind a chunk of what was there; a failed one leaves the buffer as it was |
| OutputStreams.OStreamBuffer.Direct | include/dracon/stream.h:358-367 | a block too large for the buffer becomes one chunk with what is buffered in front of it, and leaves the buffer empty; a failed one leaves the buffer as it was |
| OutputStreams.OStreamBuffer.Absorb | include/dracon/stream.h:369-374 | a piece of a smaller block is appended to the buffer, or when that is full becomes its contents behind a chunk of the old ones; every turn makes progress |
| OutputStreams.OStreamBuffer.XsPutN | include/dracon/stream.h:352-376 | a block put appends exactly the block, for any capacity each sync leaves, and returns the count that the sizes determine; a failed one leaves the buffer empty iff it was empty and the block above the capacity |
| OutputStreams.OStreamBuffer.AbsorbAll | include/dracon/stream.h:357-374 | the buffering turns take a prefix of the block, in order, and stop where the direct path takes over |
| OutputStreams.OStreamBuffer.Destroy | include/dracon/stream.h:323-326 | the destructor frames what is buffered, if anything, and ends as that write does |
| OutputStreams.Perform | include/dracon/stream.h:334-376 | each put appends its bytes to everything put so far; a flush that returns leaves the buffer empty and everything put in chunks |
| OutputStreams.PutShortIff | include/dracon/stream.h:352-376 | the count is short if and only if the block is within the capacity and what is left of it at a full buffer outgrows some later room |
| OutputStreams.PutCanBeShort | include/dracon/stream.h:358-367 | a full buffer of 1000 and a block of 800: 600 is reported after a sync that leaves room for 200, 800 when it leaves 500 |
| OutputStreams.GrowingRoomsReportAll | include/dracon/stream.h:329-332 | rooms no smaller than the capacity give the full count |
| OutputStreams.StreamBody | include/dracon/stream.h:261-382 | for any puts and flushes, then destruction, if no session write fell short the bytes sent decode to exactly the bytes put, whatever follows; on a plain socket with ample room for every chunk none falls short |
| OutputStreams.LeaveScope | include/dracon/stream.h:268-326 | both destructors, also while an exception unwinds: the buffer writes exactly when something is buffered, then the terminator follows unless that write threw |
| OutputStreams.BodyDecodes | include/dracon/stream.h:268-273 | a wire image of chunks and terminator decodes to the concatenated payloads, whatever follows |
| OutputStreams.SomeScheduleTruncatesAChunk | src/server/streams.cpp:166-167 | every non-empty chunk has a schedule under which its write returns normally with bytes missing |
| OutputStreams.HeaderOnlyIsSent | src/server/streams.cpp:166-167 | when the kernel takes exactly the header the write returns without payload and trailer |
| OutputStreams.TruncatedBodyIsMalformed | include/dracon/stream.h:268-273 | whatever chunks went before and whatever size such a header announces, the terminator behind it makes a body the decoder rejects |
| TlsChunks.TlsChunkEnds | src/server/streams.cpp:542-561 | where the write of a chunk ends, for every socket size above the header's and every constant number of bytes taken per call |
| TlsChunks.FullTakesLoseTrailerIff | src/server/streams.cpp:542-561 | when every call takes all it is offered, the trailer is lost if and only if header and payload fill one socket size, or two or more |
| TlsChunks.RecordsSendWholeIff | src/server/streams.cpp:542-561 | when every call takes M bytes, below the socket size, the chunk goes out whole if and only if M divides neither the header nor header and payload |
| TlsChunks.SmallSocketSendsHeaderOnly | src/server/streams.cpp:547-548 | a socket size no larger than the header lets only the header out |
| TlsChunks.TlsExactFitLosesTheTrailer | src/server/streams.cpp:550-560 | the exact fit loses the CRLF in one call, whatever the rest of the schedule holds |
| WindowBuffer.Buffer.Resize | include/dracon/utils.h:322-337 | resizing keeps the common front and resets the window |
| WindowBuffer.Buffer.Advance | include/dracon/utils.h:339-344 | the window loses its front and never leaves the array |
| WindowBuffer.Buffer.Commit | include/dracon/utils.h:346-354 | the window moves to the front of the array with the same contents |
| WindowBuffer.Buffer.Assign | include/dracon/utils.h:404-411 | the window becomes the text |
| WindowBuffer.Buffer.Prepend | include/dracon/utils.h:413-422 | the text goes to the front and the window follows it, or replaces the array when it does not fit |
| SessionRead.Reader.PullBytes | src/server/streams.cpp:90-104 | a turn ends as its call does: the error code of the call or of the yield, a wait, or the saved remainder followed by exactly the bytes of the call that fit; too large a remainder is the only other way out |
| SessionRead.Reader.ReadSome | src/server/streams.cpp:408-422 | a read puts the bytes of its call that fit into the window and appends exactly those to what was received; a failing one brings its code and nothing else |
| SessionRead.NextLine | src/server/streams.cpp:376-380 | the piece fed next is the first line with its line end, or all there is when no line ends in it |
| SessionRead.Reader.FeedLines | src/server/streams.cpp:372-389 | lines are fed in order and nothing is skipped; the last call began with the headers incomplete and was shown no byte behind its line |
| SessionRead.Reader.FeedAndSave | src/server/streams.cpp:372-395 | feeding stops with an error exactly when the parser rejects, and otherwise what was fed and what is saved are together what arrived |
| SessionRead.Reader.HeaderTurn | src/server/streams.cpp:348-395 | one turn feeds what its call brought or ends with the error of that call, and allows an error page exactly when bytes arrived |
| SessionRead.Reader.ReadHeaders | src/server/streams.cpp:344-396 | on normal return what was fed plus the saved remainder is what was received, and the call that completed the headers was shown no byte behind its line; while suspended everything received has been fed and the schedule is used up; an exception carries bad_message if the parser rejected, else the code of the last call; an error page is allowed from then on exactly when bytes arrived; a remainder at entry is the only case without a promise |
| SessionRead.Reader.FeedSaved | src/server/streams.cpp:81-88 | the saved remainder is fed before anything is read |
| SessionRead.Reader.BodyTurn | src/server/streams.cpp:89-119 | a turn keeps consumed bytes and remainder together equal to what was saved and received, whichever way it ends |
| SessionRead.Reader.ReadRest | src/server/streams.cpp:89-119 | the loop goes on until the message is complete, a call fails or the schedule is used up, and loses only bytes a completed message leaves unread |
| SessionRead.Reader.Read | src/server/streams.cpp:72-121 | every saved or received byte is fed once and in order, none is dropped when the parser consumes all it is given, a finished request is left alone, and an exception carries bad_message if the parser rejected, else the code of the last call |
| SessionCoroutine.ResumeLowersRank | src/server/streams.cpp:243-290 | a resumption with an error brings the coroutine closer to its end, from every yield |
| SessionCoroutine.StepKeepsRank | src/server/streams.cpp:264-288 | no other step takes it further from its end while the last resume carried an error |
| SessionCoroutine.AtMostTwoResumptions | src/server/serversession.h:126-137 | from any suspended state at most two resumptions with errors, plus one per stream call the handler makes while unwinding if it waits there, plus one if it was never started |
| SessionCoroutine.TwoAreNeeded | src/server/streams.cpp:280-284 | two can be necessary |
| SessionCoroutine.UnwindingWriteCostsAThird | include/dracon/stream.h:268-273 | a write in a destructor can make a third necessary, in the error page or in the TLS shutdown |
| SessionCoroutine.BoundIsReached | src/server/serversession.h:126-137 | the bound is reached from every suspended state |
| SessionCoroutine.SufficeIff | src/server/serversession.h:126-137 | n resumptions suffice on every path if and only if the rank is at most n |
| SessionCoroutine.TwoSufficeIff | src/server/serversession.h:126-137 | two suffice if and only if the coroutine was started and, inside its handler, no stream call follows an error |
| SessionCoroutine.Coroutine.Resume | src/server/serversession.h:139-150 | calling the handle is a path of the machine from the state before to the state after, with that resumption first and no other; it runs to the next yield or to the end, and an error lowers the rank |
| SessionCoroutine.Coroutine.QuitIoLoop | src/server/serversession.h:126-137 | the loop terminates, with the same bound, and leaves the coroutine not suspended; it is a path of the machine whose resumptions all carry the error and are as many as the loop made |
| SessionCoroutine.QuietMeans | src/server/streams.cpp:72-121 | the permission flag in terms of the run: header bytes or an unfinished read, and no accepted write since |
| SessionCoroutine.RunIsDisciplined | src/server/streams.cpp:243-290 | in every run the flag means exactly that, and pages are last and allowed |
| SessionCoroutine.ErrorPageDiscipline | src/server/streams.cpp:243-290 | an error page is started at most once, is the last thing sent, and only after header bytes or an unfinished read with no accepted write since |
| SessionCoroutine.PageIffQuiet | src/server/streams.cpp:245-288 | in every run a step starts a page if and only if it brings an exception to the catch blocks, out of the headers, the choice of a handler, the 503 response or the handler, in such a moment; otherwise that exception leads to the shutdown |
| CoroutinePhases.FirstResumption | src/server/serversession.h:187-203 | in every run the first step is a resumption and starts the handshake on TLS, the headers otherwise, whatever it carries |
| CoroutinePhases.HandshakeFirst | src/server/streams.cpp:458-484 | in every run of a TLS session the handshake is done before anything is read, handled, answered or shut down |
| CoroutinePhases.PlainHasNoHandshake | src/server/streams.cpp:398-406 | no run of a plain session takes a step of a handshake |
| CoroutinePhases.CallsBegin | src/server/streams.cpp:247-264 | the headers go on until they are complete, then a handler is looked for, then it runs or the 503 response is written; a stream call of a finished read or of an empty write does nothing |
| CoroutinePhases.CallsReturn | src/server/streams.cpp:72-138 | a stream call returns to the handler exactly when it is complete or brings an error, and goes on exactly after a part |
| CoroutinePhases.HandlerNeedsRequest | src/server/streams.cpp:249-262 | in every run a handler runs only for a request whose headers were completed and that was routed to it directly after, and for that one only |
| CoroutinePhases.RefusalNeedsRequest | src/server/streams.cpp:251-255 | the 503 response is written only for a request whose headers were completed and that found no handler |
| CoroutinePhases.LoopFollowsReturn | src/server/streams.cpp:262-264 | the loop condition is looked at only behind a handler that returned; going on leads to the next headers and only without an error, leaving leads to the shutdown |
| CoroutinePhases.ErroredIff | src/server/streams.cpp:72-138 | a handler has seen an error if and only if a call of its own failed, or was resumed with one, since its request was routed |
| CoroutinePhases.ErrorBetweenIs | src/server/streams.cpp:72-138 | some step between two moments brought the error |
| CoroutinePhases.ResumptionRepeats | src/server/serversession.h:139-162 | every later resumption without an error goes back to the call that waited and changes nothing else |
| CoroutinePhases.ErrorResumption | src/server/streams.cpp:243-290 | one with an error reaches the handler that waits, the catch blocks, or the end |
| CoroutinePhases.ShutdownIsBegun | src/server/streams.cpp:264-289 | a shutdown under way was begun by leaving the loop, by a complete 503 response or error page, or by an exception where no page may be written |
| CoroutinePhases.FinishedHow | src/server/streams.cpp:265-289 | in every run the coroutine ends only through a shutdown begun before, a failed handshake, or a failed error page that had been started |
| CoroutinePhases.AtMostFiveWaits | src/server/streams.cpp:486-499 | in every run the shutdown waits five times at most, and only on TLS |
| CoroutinePhases.LogIsHistory | src/server/streams.cpp:243-290 | the log the page laws speak of is, in every run, the history of its steps |
| SessionLifetime.StepIsSafe | src/server/sessionseventloop.cpp:233-308 | no step touches a deleted session, and none deletes a registered one |
| SessionLifetime.StepKeepsInv | src/server/sessionseventloop.cpp:116-307 | every step of the acceptor and of the loop keeps each live object accounted for: registered, deferred, on its way between the two, or under construction |
| SessionLifetime.StepKeepsCounted | src/server/sessionseventloop.cpp:116-167 | the counter is the registered count corrected by the steps in flight |
| SessionLifetime.RunIsSafe | src/server/sessionseventloop.cpp:226-309 | all of this in every state of every interleaving |
| SessionLifetime.DisjointUnlessReused | src/server/sessionseventloop.cpp:303-307 | the two sets are disjoint outside the delete pass, and inside it up to objects already deleted |
| SessionLifetime.DisjointIff | src/server/sessionseventloop.cpp:116-129 | a run keeps the two sets disjoint in every state if and only if it reuses no address during a delete pass |
| SessionLifetime.ReusedAddressIsInBoth | src/server/sessionseventloop.cpp:305-307 | a run from the start in which a reused address is in both sets |
| SessionLifetime.Counter32Moves | src/server/sessionseventloop.h:67-67 | 32-bit increments and decrements follow the exact counter modulo 2^32 |
| SessionLifetime.QuietCounterIsExact | src/server/sessionseventloop.cpp:116-167 | with no step in flight the 32-bit counter is the number of registered sessions |
| EventLoop.SessionsEventLoop.RegisterSession | src/server/sessionseventloop.cpp:116-129 | the method is the registration and counting steps of the model: the session is registered, polled and counted, modulo 2^32 |
| EventLoop.SessionsEventLoop.UnregisterSession | src/server/sessionseventloop.cpp:154-167 | removes, stops polling and counts down once, and does nothing the second time |
| EventLoop.SessionsEventLoop.DeleteLater | src/server/sessionseventloop.cpp:176-186 | the method is the drop steps of the model: the session leaves the registered ones and is deferred, also when it had left before |
| EventLoop.SessionsEventLoop.DeletePass | src/server/sessionseventloop.cpp:303-307 | the pass deletes exactly the deferred objects and forgets them |
| EventLoop.PassIsSteps | src/server/sessionseventloop.cpp:303-307 | the pass begins and ends with steps of the model |
| EventLoop.PassStep | src/server/sessionseventloop.cpp:305-306 | each of its deletions is a step of the model |
| BatchOrder.UpperBound | src/server/sessionseventloop.cpp:256-261 | the binary search finds the first position with a greater order |
| BatchOrder.InsertIsStable | src/server/sessionseventloop.cpp:256-262 | inserting there extends a stable sort by one event |
| BatchOrder.InsertOrdered | src/server/sessionseventloop.cpp:256-262 | search and insertion together keep the batch so far stably sorted |
| BatchOrder.Arrange | src/server/sessionseventloop.cpp:248-266 | the batch processed holds every event but those of the event descriptor as often as it was delivered, sorted by the order of its session, stable for equal orders; the wake-up flag is set exactly when an event of the event descriptor was delivered |
| BatchOrder.SessionEventsInOrder | src/server/sessionseventloop.cpp:248-254 | filtering a batch is filtering its parts, in the order of delivery |
| BatchOrder.SessionEventsCount | src/server/sessionseventloop.cpp:248-254 | exactly the events whose low half is not the event descriptor are session events, as often as they occur |
| BatchOrder.StableSortIsUnique | src/server/sessionseventloop.cpp:248-268 | there is only one such batch |
| Timeouts.Visit | src/server/sessionseventloop.cpp:288-301 | a session is timed out exactly when its deadline is set and has passed, in the order of the snapshot; the wait is -1 iff no deadline lies ahead, and otherwise the least of max(1000, milliseconds ahead + 50) |
| Timeouts.ZerosPlayNoRole | src/server/sessionseventloop.cpp:293-294 | sessions without a deadline play no role: the wait and the timeouts are those of the snapshot without them |
| Timeouts.WaitBounds | src/server/sessionseventloop.cpp:297-300 | the wait is at least a second and wakes no later than max(now + 1000 ms, d + 50 ms) for every pending deadline d |
| Timeouts.NarrowedWait | src/server/sessionseventloop.cpp:236-236 | a wait reaches `epoll_wait` as computed if and only if it is below 2^31 ms, and is never lengthened |
| Timeouts.NearDeadlineKeepsWait | src/server/sessionseventloop.cpp:236-236 | one pending deadline less than 2^31 - 50 ms ahead is enough for that |
| Timeouts.NeverSleepsPast | src/server/sessionseventloop.cpp:233-301 | while a deadline is pending the next turn begins at most a second and the slack after it, unless the wait was narrowed to a negative number |
| Timeouts.FollowedInTimeIff | src/server/sessionseventloop.cpp:236-300 | a turn is followed in time whatever happens if and only if what its earliest pending deadline asks for is below 2^31 ms modulo 2^32 |
| Timeouts.FarDeadlineWraps | src/server/sessionseventloop.cpp:236-236 | a lone deadline 2^32 - 50 ms ahead gives a wait of 0, one a millisecond nearer a wait without limit |
| Timeouts.LargeBodyBlocks | src/server/streams.cpp:256-258 | a large enough Content-Length, alone pending, makes the loop wait without limit |
| Timeouts.NoticedWithinASecond | src/server/sessionseventloop.cpp:233-301 | a fixed deadline is noticed by the first turn after it, at most a second and the slack late, as long as no wait before it was narrowed to a negative number |
| Timeouts.NearDeadlineIsNoticed | src/server/sessionseventloop.cpp:233-301 | so it is when the deadline is never more than 2^31 - 50 ms ahead |
| Connections.Server.Lookup | src/server/server.cpp:531-531 | the lookup that inserts a zero for an unknown address |
| Connections.Server.Admit | src/server/server.cpp:529-536 | the acceptor's critical section |
| Connections.Server.Release | src/server/server.cpp:601-608 | the destructor's critical section |
| Connections.AssertNeverFails | src/server/server.cpp:605-605 | the assertion on the lookup holds whenever it is reached |
| Connections.StepKeepsInv | src/server/server.cpp:527-609 | every step keeps counts exact, positive and at most max + 1, and orders at most max |
| Connections.RunIsSafe | src/server/server.cpp:527-609 | all of this in every state of every run of accepts, failed constructions and deletions |
| Connections.TurnedAwayIff | src/server/server.cpp:531-534 | a connection is turned away exactly when its address holds max + 1 connections, and then nothing changes; otherwise its order is the number its address held |
| Connections.OrdersAreGiven | src/server/server.cpp:529-553 | in every run the order of every session is the number of connections its address held just before it arrived |
| Connections.ManyArrive | src/server/server.cpp:531-535 | with the largest 32-bit limit nobody is turned away and n connections of one address count n modulo 2^32 |
| Connections.CountWraps | src/server/server.cpp:535-535 | a run in which an address holds 2^32 connections and is counted zero times |
| Connections.ExactIff | src/server/server.cpp:527-609 | counts are exact in every run if and only if the limit is not the largest 32-bit number |
| LoadBalance.ScanKept | src/server/server.cpp:541-547 | during a scan the best loop is at most at the load every compared loop had when the scan began |
| LoadBalance.ChosenIsBelowAverage | src/server/server.cpp:541-553 | the loop chosen holds less than the k-th part of the peak, so one more session keeps it within its share |
| LoadBalance.ScanReadsTrueCounts | src/server/sessionseventloop.h:51-51 | whenever the scan reads a 32-bit counter it reads the true number of sessions, those being unregistered included |
| LoadBalance.StepKeepsInv | src/server/server.cpp:541-553 | accepts, scans reading in either order, failed constructions, insertions and disconnects keep the bound, also when they interleave |
| LoadBalance.PeakIsReached | src/server/server.cpp:541-553 | the peak the bound speaks of is the number of connections at some moment of the run |
| LoadBalance.NoLoopAboveItsShare | src/server/server.cpp:541-553 | no loop ever holds more than the k-th part, rounded up, of the connections at some moment so far |
| LoadBalance.RegisteredPeakIsNotEnough | src/server/server.cpp:541-553 | a run from the start with clean accepts and never more than two registered sessions that ends with both on one of two loops |
| LoadBalance.StaleCountIsNotEnough | src/server/sessionseventloop.cpp:154-167 | the same with no session erased during a scan, but one still counted when it begins |
| LoadBalance.RegisteredPeakIsEnoughWhenCalm | src/server/server.cpp:541-553 | when every accept finds no session leaving and none is erased during a scan, no loop holds more than the k-th part, rounded up, of the registered sessions at some moment so far |
| LoadBalance.RegisteredFairIff | src/server/server.cpp:541-553 | on two loops that bound holds in every run meeting the chosen hypotheses if and only if both are chosen |
| LinkedLists.List.PushFront | include/dracon/utils.h:173-173 | a new node is linked in front, everything else keeps its place |
| LinkedLists.List.Erase | include/dracon/utils.h:236-236 | exactly the given node is unlinked, and its successor returned |
| LinkedLists.List.MoveToFront | include/dracon/utils.h:192-192 | splicing moves the same node to the front |
| LruSpec.RunIsByRecency | include/dracon/utils.h:157-258 | in every run the cache holds distinct keys, at most its capacity, in order of last mention |
| LruSpec.EvictsLeastRecent | include/dracon/utils.h:245-252 | whatever a put evicts was mentioned before everything it keeps |
| LruSpec.LookupAfterPut | include/dracon/utils.h:168-176 | after a put the key has the new value, in front; every other key keeps its value or is evicted, and evicted only when the cache is full |
| LruSpec.AfterTouch | include/dracon/utils.h:178-194 | a lookup loses no key and changes no value |
| LruSpec.AfterRemove | include/dracon/utils.h:233-237 | an erasure loses exactly its key and changes no other value |
| LruSpec.TruncatedValues | include/dracon/utils.h:245-252 | cleaning keeps a front of the list, as long as the capacity allows, and loses a key only if the cache is then full |
| LruSpec.EntriesComeFrom | include/dracon/utils.h:157-258 | every entry after an operation is the pair just put, or was there before under a key neither put nor erased |
| LruSpec.RunHoldsLastPut | include/dracon/utils.h:157-258 | in every run each entry holds the value of the last put of its key, which no erasure of it and no clearing has followed |
| LruSpec.RunFindsLastPut | include/dracon/utils.h:187-194 | a lookup after any run answers the value last put, or the default when the key is not cached |
| LruCache.IndexesAgrees | include/dracon/utils.h:239-243 | every hash entry points at the node with its key, and list and hash have the same size |
| LruCache.Cache.HashFinds | include/dracon/utils.h:170-171 | the hash finds a key exactly where the recency list has it |
| LruCache.Cache.Size | include/dracon/utils.h:239-243 | the assertion holds and the size is that of the list |
| LruCache.Cache.PopBack | include/dracon/utils.h:248-250 | one turn of the cleaning loop drops exactly the last entry from list and hash |
| LruCache.Cache.CleanCache | include/dracon/utils.h:245-252 | exactly the least recently touched entries beyond the capacity go |
| LruCache.Cache.Detach | include/dracon/utils.h:170-172 | the old entry leaves the list while its hash entry still dangles; the rest stays indexed |
| LruCache.Cache.Attach | include/dracon/utils.h:173-174 | the new node repairs the hash and stands in front |
| LruCache.Cache.Put | include/dracon/utils.h:168-176 | put refines the recency list |
| LruCache.Cache.Reference | include/dracon/utils.h:178-185 | reference moves the entry to the front and returns it; it fails exactly for an absent key |
| LruCache.Cache.Value | include/dracon/utils.h:187-194 | value returns the entry's value or the default, and moves it to the front |
| LruCache.Cache.Exists | include/dracon/utils.h:196-199 | exists says whether the key is cached and changes nothing |
| LruCache.Cache.Resize | include/dracon/utils.h:201-205 | resizing truncates the recency list |
| LruCache.Cache.Clear | include/dracon/utils.h:207-211 | clearing leaves nothing |
| LruCache.Cache.Erase | include/dracon/utils.h:233-237 | erasing removes exactly that entry from list and hash and returns the next position |
| LruCache.Perform | include/dracon/utils.h:157-258 | any sequence of operations leaves what the recency list prescribes |
| FileCache.Serve | src/plugins/staticContent/static_content_plugin.cpp:106-112 | a request is answered with a file of the current write time, reused or loaded, and the cache changes as specified, also when the file system fails |
| FileCache.ServedIs | src/plugins/staticContent/static_content_plugin.cpp:106-112 | nothing is answered exactly when the file is missing, or cannot be mapped and is not cached with its write time; what is answered has the write time of the disk, and is the cached file whenever that has it |
| FileCache.ServedAgain | src/plugins/staticContent/static_content_plugin.cpp:106-112 | what was answered is cached, and answered again as long as the write time stays the same |
| FileCache.SweepOne | src/plugins/staticContent/static_content_plugin.cpp:188-191 | one turn of the sweep moves on by one entry of the original list, kept or erased |
| FileCache.Sweep | src/plugins/staticContent/static_content_plugin.cpp:185-193 | the sweep leaves exactly the files in use, in order |
| FileCache.KeptIs | src/plugins/staticContent/static_content_plugin.cpp:185-193 | an entry is kept exactly when its file is in use |
| CacheInclusion.RequestKeys | src/plugins/staticContent/static_content_plugin.cpp:106-112 | a readable file's key ends up in front, whatever was cached |
| CacheInclusion.Inclusion | src/plugins/staticContent/static_content_plugin.cpp:106-193 | on every trace without failing lookups the smaller cache is the front of the larger one, also across sweeps |
| CacheInclusion.FailureKeepsInclusionIff | src/plugins/staticContent/static_content_plugin.cpp:107-108 | a failing lookup keeps the inclusion iff both caches hold the file, or the larger lacks it, or the smaller is empty |
| CacheInclusion.InclusionNeedsNoFailures | src/plugins/staticContent/static_content_plugin.cpp:107-108 | so the hypothesis cannot be dropped |
| CacheInclusion.CachedWasRead | src/plugins/staticContent/static_content_plugin.cpp:106-193 | on every trace a cached file is what the disk held, under that path and write time, at some request so far |
| UrlText.Split | include/dracon/utils.h:137-155 | the splitting loop collects the non-empty pieces, up to the count |
| UrlText.UnlimitedParts | include/dracon/utils.h:137-155 | the default count plays no role |
| UrlText.CountLimitsCuts | include/dracon/utils.h:137-155 | the count limits the cuts: after that many separators the rest is one piece, whatever it holds |
| UrlText.PartsJoin | include/dracon/utils.h:137-155 | splitting distributes over the separator |
| UrlText.PartsAreClean | include/dracon/utils.h:137-155 | every piece is non-empty and free of the separator |
| UrlText.PartsOfJoin | include/dracon/utils.h:137-155 | splitting undoes joining, whatever the number of separators |
| UrlText.UnescapeUrl | include/dracon/utils.h:98-122 | the decoding loop refines its specification, errors included |
| UrlText.UnescapeAppend | include/dracon/utils.h:98-122 | decoding distributes over concatenation after well-formed text |
| UrlText.UnescapeInverts | include/dracon/utils.h:81-122 | decoding inverts every encoder |
| UrlText.DecodableIsEncoded | include/dracon/utils.h:81-122 | and accepts nothing else |
| UrlText.EveryByteEscapes | include/dracon/utils.h:81-122 | every byte is read back from a percent sign and two hexadecimal digits of either case |
| QueryStrings.Parse | include/dracon/restful.h:217-233 | the loop over the pairs refines its specification; the first failing pair decides |
| QueryStrings.ParseOne | include/dracon/restful.h:220-231 | a key alone, a key and a value, or an error, as the specification says |
| QueryStrings.QueryRoundTrip | include/dracon/restful.h:217-233 | printing and parsing gives the same pairs in order, for non-empty keys, any encoder that escapes '%', '+', '&' and '=', and any extra '&' |
| QueryStrings.PairRoundTripIff | include/dracon/restful.h:220-231 | a pair comes back iff its key is not empty |
| QueryStrings.QueryRoundTripIff | include/dracon/restful.h:217-233 | a query comes back iff none of its keys is empty |
| QueryStrings.ParsePairIs | include/dracon/restful.h:220-231 | a pair is a bad query exactly when it has neither one nor two parts, and is accepted exactly when its parts decode |
| QueryStrings.QueryFailsIff | include/dracon/restful.h:217-233 | a query fails with the error of its first pair that does not decode, and with no other |
| Routes.FirstMatch | include/dracon/restful.h:212-213 | the route tried successfully is the first that matches |
| Routes.NotFoundIff | include/dracon/restful.h:206-238 | nothing is found if and only if the URL is not under the base or no pattern matches the rest of it |
| Routes.FirstMatchAnswers | include/dracon/restful.h:202-238 | the first matching route answers: 405 with its Allow text if and only if it lacks the verb, else the error of the query if and only if that does not parse, else its handler with the captures, the pairs and the Allow text |
| Routes.AppendingKeepsOutcome | include/dracon/restful.h:212-237 | registering more routes never changes what a matched URL gets |
| Routes.SubsumesIffCovers | include/dracon/restful.h:151-163 | one pattern matches all another matches iff it covers it part by part |
| Routes.CoveredIsNeverChosen | include/dracon/restful.h:212-213 | a route covered by an earlier one is never chosen |
| Routes.OverlapIffCompatible | include/dracon/restful.h:151-163 | two patterns can match the same URL iff they are compatible part by part |
| Routes.OrderDoesNotMatter | include/dracon/restful.h:202-238 | where no two patterns are compatible the outcome is the same for every order of registration |
| Routes.CapturesOfFilled | include/dracon/restful.h:155-163 | with distinct names the captures are exactly the values |
| Routes.CapturesExact | include/dracon/restful.h:155-163 | the captures are the names of the pattern, each with the piece at its last occurrence |
| Routes.UrlSplits | include/dracon/restful.h:204-205 | a printed URL is cut back into its pieces and its query |
| Routes.UrlIsCut | include/dracon/restful.h:204-205 | every URL is its path, free of question marks, and after the first of them its query |
| Routes.PrintedUrlIsDispatched | include/dracon/restful.h:202-238 | a URL printed from base, literals and values reaches its route with exactly those captures unless an earlier route matches |
| Routes.UrlRoundTrip | include/dracon/restful.h:202-238 | the same with a printed query: the handler gets exactly the values and the pairs |
| Routes.PrintedUrlIsRefused | include/dracon/restful.h:164-166 | a URL printed for a route that lacks the verb gets 405 with its Allow text, whatever the query |
| Routes.PatternOfIff | include/dracon/restful.h:124-137 | a route text has exactly the pattern whose printed parts, literals of two characters at least and captures in braces, are its pieces |
| Routes.RefusedIff | include/dracon/restful.h:129-130 | a route text is refused iff one of its pieces is shorter than two characters |
| Routes.RouteRoundTrip | include/dracon/restful.h:124-137 | a printed pattern is read back, whatever the number of slashes |
| Router.RouteParts | include/dracon/restful.h:124-137 | a route text becomes its pattern, or is refused |
| Router.RestfulRoute.AddMethodHandler | include/dracon/restful.h:90-100 | the handler is set, and the Allow text names every method but OPTIONS once, in order of registration, as long as no method name is empty |
| Router.AllowTextIs | include/dracon/restful.h:94-94 | the Allow text separates the methods by a comma and a space |
| Router.RestfulRoute.EqualTo | include/dracon/restful.h:102-113 | the comparison decides equality of patterns |
| Router.RestfulRoute.Try | include/dracon/restful.h:150-168 | a route refuses, answers 405 or captures exactly as its pattern and methods say |
| Router.RestfulRoute.Respond | include/dracon/restful.h:214-236 | once a route has matched, the method is the answer function of the table |
| Router.RestfulRouter.CreateRoute | include/dracon/restful.h:190-196 | routes stay pairwise distinct; an existing pattern is returned, a new one appended, a malformed one refused |
| Router.RestfulRouter.UnderBase | include/dracon/restful.h:208-210 | the comparison decides whether the URL starts with the base |
| Router.RestfulRouter.FirstOf | include/dracon/restful.h:212-237 | the loop over the routes answers as the first matching route does, query included |
| Router.RestfulRouter.CreateHandler | include/dracon/restful.h:202-238 | the method is the dispatch function of the table |

## Hypotheses

- Sessions are inserted into `m_sessions` and added to epoll in one step, `epoll_ctl` succeeds,
  and the coroutine is finished when its session is deleted.
- In `readHeaders` a parser call without error consumes all it is given.
- Allocation of a session does not fail; the results about the per-address count are for limits
  below 2^32 - 1, and `ExactIff` says why.
- A system call reports a non-zero error code when it fails; `std::string` always has room for
  one character.
- Two capacities are compared under sweeps that find the same files in use.

## Left out

- The HTTP parser: it is not part of this model; any consumer of bytes stands for it.
- SessionRead.Reader.ReadHeaders: for a remainder left at its entry only the outcome `Garbled` is stated, because the code reads past the end of the bytes it saved.
- Delivery of every wake-up: the eventfd adds concurrent writes up; only the safety of what is woken is claimed.
- Chunk extensions and trailers in the decoder, since the server never prints them.
- Process shutdown, signals, configuration, plugin loading, privileges: plumbing.
- Response printing and the status table, file paths, MIME types, the status page: easy members.
- `ThreadWorker`, `SimpleTimer`, `SpinLock`: easy members beside the event loop.
- LruCache.Cache.Reference: the model returns the node; writes of the client through the returned C++ reference are not modelled.
- SessionLifetime.RunIsSafe: does not model the memory order of the atomics; every step is sequentially consistent.
- LoadBalance.NoLoopAboveItsShare: counts a connection until its counter decrement, because the scan reads the counters.
