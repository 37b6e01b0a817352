# Orbit: verified models of its state machines

Orbit is a C++20 web framework. This project models, in Dafny 4.11, the parts of it that must give the
same answer however bytes, threads and clocks interleave, and proves what they promise over whole runs.

| file | what it models |
|---|---|
| `Collections.dfy` | optional values, sizes of maps |
| `Bytes.dfy` | bytes as integers 0..255, exclusive or, big-endian numbers |
| `Incremental.dfy` | incremental parsers in general: a parser whose steps do not look behind the bytes they need cannot observe how its input was cut |
| `Utf8.dfy` | the UTF-8 validator, against the encoder of section 3 of RFC 3629 |
| `WebSocketFrame.dfy` | frame header parser, frame writer, masking (section 5.2 of RFC 6455) |
| `WebSocketEngine.dfy` | the connection object: frame loop, reassembly, control frames, closing |
| `WebSocketTheorems.dfy` | split independence, reassembly, whole conversations, closing once |
| `WebSocketClosing.dfy` | closing from any number of threads |
| `WritePath.dfy` | the plaintext write path as a concurrent protocol |
| `Chunked.dfy` | chunked encoder and incremental decoder (section 7.1 of RFC 9112) |
| `RateLimiter.dfy` | token buckets, the sweep and the capacity loop |
| `TimerManager.dfy` | the lazy-deletion timer queue, against a map of live timers |
| `ConnectionPool.dfy` | the database pool: conservation, fairness, backoff |
| `ConnectionBudget.dfy` | the connection limit shared by several event loops |
| `Http3Send.dfy` | `SentChunks` and `read_data`, against the byte stream they send |
| `Multipart.dfy` | the streaming multipart parser, its temporary files, and bodies cut in any way |
| `MultipartMessages.dfy` | whole multipart messages, and exactly which cuts of them the parser notices |
| `Router.dfy` | path matching and dispatch, against the declarative rule of precedence |
| `RouterForms.dfy` | what paths, patterns and typed segments look like on paper |
| `EditDistance.dfy` | the one-row edit distance and the flag suggestion |

Check it with `dafny verify dfyconfig.toml`.

## How the model is built

- User callbacks, the transport and the application's handlers are append-only logs. A WebSocket
  application is any function from the log to the calls its handler makes.
- Time is a parameter that never runs backwards: nanoseconds for timers, reals for the limiter.
- The proactor completes a write with 1..n bytes, with would-block, or with a failure, on any thread.
- Threads take one atomic step at a time: a critical section, one atomic operation, or one submission.
  Allowing more interleavings than the locks do (buffers swapped and submitted in two steps) only makes
  the results stronger. A run is any finite sequence of choices, with any number of threads.
- zlib, `parse_headers`, the file system and the kernel's accept are uninterpreted functions or choices of
  the environment, with the source's own checks around them.
- Shifts and masks on bytes are written as division and remainder.

## Where the code falls short of the plain statement

- A deferred close (`WritePath`) can lose bytes that another thread queues behind the close request, because
  the removal follows the re-check outside the lock. `CloseAfterLastByte`: everything queued up to that re-check
  is written, so all of it if nothing came after. `LateBytesAreLost`: what comes between the re-check and the
  removal is written in no continuation. `CloseCanDefer`: from every live state with a close requested and
  nothing queued behind it, a schedule without new data leads to that gap if and only if no write has just
  failed, and `EveryCloseCanLoseBytes` loses a late send there for good. `LateByteLostExample` is the smallest run.
- `write_chunk("")` prints the terminator: `Chunked.RoundTrip` gives the exact result for lists with empty
  chunks, and the condition under which every byte comes back.
- The multipart parser is not independent of how its input is cut: it drops a boundary before it has seen
  the two bytes behind it (`MultipartMessages.CutBehindBoundary`, for every boundary), and it fails when a cut
  leaves more than 8192 bytes of a header block. `MultipartMessages.CutUnseenIff` proves that these are exactly
  the cuts of a message that matter, and `MessageParsedInPieces` that any other cutting parses every message
  to its parts.
- A timer due in 2^31 milliseconds or more: the sleep is narrowed to 32 bits, so it may come out negative
  (`TimerManager.GetNextTimeout` gives the exact value, and the wait itself below that bound).
- The first retry of a database connection that failed while the pool started waits the initial backoff
  without the cap; `ConnectionPool.InitRetryUncapped` says exactly when that matters.

## Model

| member | source | states |
|---|---|---|
| `Utf8.IsValidUtf8` | src/http/WebSocketConnection.cpp:284-318 | accepts a byte string if and only if it is a concatenation of UTF-8 encodings of Unicode scalar values: no overlong forms, surrogates, or values above U+10FFFF |
| `Utf8.StripFirst` | src/http/WebSocketConnection.cpp:284-318 | one encoding in front of a string can be split off in one way only |
| `Utf8.DecodedIsEncoded` | src/http/WebSocketConnection.cpp:289-314 | what the validator's shape and range tests let through is the encoding of the value it computed |
| `WebSocketFrame.InspectFrame` | src/http/WebSocketConnection.cpp:337-383 | the header parser, its long length read in a loop, gives the verdict of `Inspect` on every buffer |
| `WebSocketFrame.InspectStable` | src/http/WebSocketConnection.cpp:337-383 | more input never changes a verdict: Invalid and Complete stay, a known header stays the same |
| `WebSocketFrame.WriteFrame` | src/http/WebSocketConnection.cpp:140-161 | the writer's bytes, its 8-byte length written in a loop, are the frame with the shortest length form |
| `WebSocketFrame.ServerFrameRead` | src/http/WebSocketConnection.cpp:140-161 | a written frame followed by anything is read back as that frame and nothing more |
| `WebSocketFrame.ClientFrameRead` | src/http/WebSocketConnection.cpp:337-383 | any client frame, masked with any key and followed by anything, is read back exactly |
| `WebSocketFrame.UnmaskPayload` | src/http/WebSocketConnection.cpp:331-335 | unmasking in place flips, in each byte, exactly the bits that are set in its byte of the key, the four taken in turn |
| `WebSocketFrame.MaskInvolutive` | src/http/WebSocketConnection.cpp:331-335 | unmasking undoes masking |
| `WebSocketFrame.ClientFrameOnWire` | src/http/WebSocketConnection.cpp:331-383 | a client's frame byte by byte: FIN, RSV1 and opcode, mask bit and length, key, and the payload with the key's bits flipped, in plain numbers |
| `WebSocketFrame.ServerFrameOnWire` | src/http/WebSocketConnection.cpp:140-161 | a server's frame byte by byte: the 7, 16 or 64 bit length, high byte first, no mask, the payload as it is |
| `WebSocketFrame.HeaderRead` | src/http/WebSocketConnection.cpp:337-383 | what the parser makes of every header, in any of the three forms of a length: refused exactly if it is a control frame too long or not final, or its length does not fit 63 bits; else read field by field |
| `WebSocketFrame.HeaderCut` | src/http/WebSocketConnection.cpp:337-383 | a header cut off inside its length or key is not read yet |
| `WebSocketEngine.WebSocketConnection.SendFrameLocked` | src/http/WebSocketConnection.cpp:163-174 | nothing on a closed connection, else one frame, compressed with RSV1 if negotiated |
| `WebSocketEngine.WebSocketConnection.SendPing` | src/http/WebSocketConnection.cpp:180-184 | nothing on a closed connection, else one empty ping |
| `WebSocketEngine.WebSocketConnection.Close` | src/http/WebSocketConnection.cpp:190-228 | local close and protocol failure: once, with the code, then transport and handler |
| `WebSocketEngine.WebSocketConnection.HandleTransportClosed` | src/http/WebSocketConnection.cpp:206-211 | a lost transport notifies once and writes nothing |
| `WebSocketEngine.WebSocketConnection.HandleCloseFrame` | src/http/WebSocketConnection.cpp:230-259 | the peer's close: the echo, or 1002 or 1007 |
| `WebSocketEngine.WebSocketConnection.DeliverMessage` | src/http/WebSocketConnection.cpp:261-280 | inflates, validates and hands over one message, letting the application react |
| `WebSocketEngine.WebSocketConnection.ProcessRawData` | src/http/WebSocketConnection.cpp:391-484 | the frame loop over a buffer refines `Run`: state, event log and bytes left over |
| `WebSocketTheorems.StepStable` | src/http/WebSocketConnection.cpp:391-484 | what the loop does with a frame does not depend on the bytes behind it |
| `WebSocketTheorems.SplitIndependence` | src/http/WebSocketConnection.cpp:391-484 | for every byte stream and every cut into reads, state and whole event log are those of one read |
| `Incremental.FeedIsLoop` | src/server/Connection.cpp:313-320 | appending each read to what is left and running a stable parser ends as one run over everything |
| `WebSocketTheorems.RefusalVerdict` | src/http/WebSocketConnection.cpp:403-431 | the header checks refuse exactly the frames out of sequence (1002) and those over the limit (1009) |
| `WebSocketTheorems.FrameRefused` | src/http/WebSocketConnection.cpp:391-434 | a refused frame closes with its code whatever follows it |
| `WebSocketTheorems.UnmaskedRefused` | src/http/WebSocketConnection.cpp:410-422 | an unmasked client frame closes with 1002 |
| `WebSocketTheorems.MalformedHeaderRefused` | src/http/WebSocketConnection.cpp:394-417 | a reserved bit, a control frame too long or not final, or a length over 63 bits closes with 1002 |
| `WebSocketTheorems.Reassembled` | src/http/WebSocketConnection.cpp:436-482 | any fragmentation with any keys and interleaved pings delivers the whole payload once, behind the pongs |
| `WebSocketTheorems.Reassembly` | src/http/WebSocketConnection.cpp:436-482 | a legal message reaches the application whole, exactly once |
| `WebSocketTheorems.BadMessageRefused` | src/http/WebSocketConnection.cpp:261-273 | text that is not UTF-8 closes with 1007, a message that does not inflate within the limit with 1009 |
| `WebSocketTheorems.CloseAnswered` | src/http/WebSocketConnection.cpp:230-259 | a legal Close is echoed with its own code, a malformed one answered 1002, a bad reason 1007, in every state |
| `WebSocketTheorems.CloseCodes` | src/http/WebSocketConnection.cpp:320-329 | the codes a peer may send are 1000 to 1003, 1007 to 1011 and 3000 to 4999 |
| `WebSocketTheorems.SendReads` | src/http/WebSocketConnection.cpp:163-188 | the peer reads a sent message as one final frame, text 1 or binary 2, with RSV1 and the deflated message if negotiated, else the message; a closed connection sends nothing |
| `WebSocketTheorems.PingReads` | src/http/WebSocketConnection.cpp:180-184 | a ping is an empty final frame of opcode 9 |
| `WebSocketTheorems.AnswerReads` | src/http/WebSocketConnection.cpp:447-450 | a ping is answered with a final frame of opcode 10 and the ping's payload, a pong with nothing |
| `WebSocketTheorems.CloseReads` | src/http/WebSocketConnection.cpp:190-228 | closing sends one final frame of opcode 8 whose payload is the code, high byte first, then closes the transport and notifies |
| `WebSocketTheorems.CallsInOrder` | src/http/WebSocketConnection.cpp:163-228 | the application's calls take effect one after another |
| `WebSocketTheorems.ConversationDelivered` | src/http/WebSocketConnection.cpp:391-484 | any sequence of legal messages, fragmented, masked, mixed with pings and cut in any way: each delivered once in order, each ping answered in order with its own payload |
| `WebSocketTheorems.HistoryKeeps` | src/http/WebSocketConnection.cpp:163-259 | every read, call and transport loss keeps the closing and fragment invariants |
| `WebSocketTheorems.ClosesOnce` | src/http/WebSocketConnection.cpp:163-259 | over every single-threaded history: no frame after a Close frame, the close handler once if and only if closed, the fragment buffer within its limit and empty when no message is in progress |
| `WebSocketClosing.NothingAfterClose` | src/http/WebSocketConnection.cpp:163-259 | in every interleaving of any number of threads nothing is written after a Close frame, not even a second one |
| `WebSocketClosing.CloseIsSent` | src/http/WebSocketConnection.cpp:190-228 | once the mutex is free, a connection closed before its transport was lost has sent its Close frame |
| `WebSocketClosing.SendUndisturbed` | src/http/WebSocketConnection.cpp:163-174 | undisturbed, a send on an open connection writes its frame |
| `WebSocketClosing.CloseUndisturbed` | src/http/WebSocketConnection.cpp:190-228 | undisturbed, a close on an open connection writes a Close frame and leaves it closed |
| `WebSocketClosing.LossUndisturbed` | src/http/WebSocketConnection.cpp:206-211 | a lost transport closes without writing, whoever holds the mutex |
| `WebSocketClosing.ClosedIsSilent` | src/http/WebSocketConnection.cpp:163-174 | once closed and with nobody about to write, nothing is written in any continuation |
| `WritePath.NextKeeps` | src/server/Connection.cpp:812-1004 | every atomic step of every thread, and every completion, keeps the protocol's invariant |
| `WritePath.NoInterference` | src/server/Connection.cpp:823-954 | no step of one thread breaks what another relies on |
| `WritePath.QueuedIsSent` | src/server/Connection.cpp:812-821 | in every interleaving the queue is the data of the calls of send_data in the order in which they took the lock |
| `WritePath.WireOrder` | src/server/Connection.cpp:812-821 | in every interleaving the bytes the proactor reported written ++ in flight ++ waiting are the bytes sent, in order, each once; between a completion and the step that drops its n bytes, those in flight are the ones behind them |
| `WritePath.TokenHasOneOwner` | src/server/Connection.cpp:823-827 | `is_writing_` has exactly one owner: a thread, the outstanding write, or a removal |
| `WritePath.NoOutputLost` | src/server/Connection.cpp:928-939 | no lost wake-up: with all threads idle and no write outstanding, the proactor has reported every byte sent on a live connection, and no requested close is forgotten |
| `WritePath.SenderReturns` | src/server/Connection.cpp:823-827 | while a write is under way a sender only queues and returns |
| `WritePath.PartialWriteGoesOn` | src/server/Connection.cpp:989-1004 | a write of n bytes is followed by one of exactly the bytes left |
| `WritePath.WouldBlockResubmits` | src/server/Connection.cpp:973-979 | a write that would block is submitted again, all of it |
| `WritePath.FailureRemoves` | src/server/Connection.cpp:980-983 | a failed write removes the connection |
| `WritePath.RemovalForgets` | src/server/Connection.cpp:105-113 | a removal stands, and an outstanding write is then forgotten without being reported |
| `WritePath.ClosePoint` | src/server/Connection.cpp:812-820 | the first send that asks for a close marks the end of its own bytes, for good, and exactly the bytes behind are late |
| `WritePath.CloseAfterLastByte` | src/server/Connection.cpp:941-971 | a deferred removal comes only after every byte queued when its thread looked again is written: at least those up to and with the close request, and all of them if none came after that look |
| `WritePath.RemovalIsFinal` | src/server/Connection.cpp:900-908 | after a removal only bytes queued before it may still be reported written, in every continuation |
| `WritePath.LateBytesAreLost` | src/server/Connection.cpp:936-944 | bytes queued between the re-check and the removal are written in no continuation |
| `WritePath.CloseCanDefer` | src/server/Connection.cpp:936-944 | from every reachable live state with a close requested and nothing queued behind it, some schedule without new data reaches the deferred removal, if and only if no thread is at a failed write |
| `WritePath.EveryCloseCanLoseBytes` | src/server/Connection.cpp:936-944 | and there a send by an idle thread is lost in every continuation |
| `WritePath.LateByteLostExample` | src/server/Connection.cpp:936-944 | a concrete run that loses a byte, whatever follows |
| `Chunked.ChunkedDecoder.Feed` | src/middleware/Proxy.cpp:177-240 | the bulk-copying decoder refines the byte-at-a-time one, result and state |
| `Chunked.ParseSize` | src/middleware/Proxy.cpp:188-200 | trims, drops extensions and reads up to 15 hexadecimal digits |
| `Chunked.TrimLine` | src/middleware/Proxy.cpp:37-41 | trims as specified |
| `Chunked.PiecesDecode` | src/middleware/Proxy.cpp:177-240 | feeding pieces in turn is feeding their concatenation |
| `Chunked.HexDigitIff` | src/middleware/Proxy.cpp:193-199 | each hexadecimal digit is read in both cases, by the tables of digits, and no other byte is |
| `Chunked.WrittenIsRead` | src/middleware/Proxy.cpp:193-199 | a number written in any mix of cases is read as that number |
| `Chunked.SizeLineIff` | src/middleware/Proxy.cpp:188-200 | the decoder reads n from exactly the lines that are blanks, 1 to 15 hexadecimal digits of either case that denote n, blanks or carriage returns, and nothing or an extension |
| `Chunked.BlankLine` | src/middleware/Proxy.cpp:37-41 | a line trims to nothing exactly when it is blanks and carriage returns |
| `Chunked.LegalMessageDecodes` | src/middleware/Proxy.cpp:177-240 | every message of such size lines, data, trailers and a blank line decodes to its data, whatever follows |
| `Chunked.MalformedChunkFails` | src/middleware/Proxy.cpp:188-220 | a line that announces no size, or data without a line end, is an error for good |
| `Chunked.LongLineFails` | src/middleware/Proxy.cpp:181-185 | a size line of more than 1024 bytes or a trailer line of more than 8192 is refused at once |
| `Chunked.HexRoundTrip` | src/server/Connection.cpp:758-772 | the size the encoder prints is the size the decoder reads |
| `Chunked.PrintedDigits` | src/server/Connection.cpp:758-772 | the encoder prints lower-case digits that denote the size, without leading zeros |
| `Chunked.RoundTrip` | src/server/Connection.cpp:758-783 | the encoder's bytes, cut in any way, decode to the chunks up to the first empty one; all bytes come back exactly when none lie behind it |
| `Chunked.RoundTripNonEmpty` | src/server/Connection.cpp:758-783 | without empty chunks the decoder yields their concatenation and is done |
| `Chunked.OversizeChunkFails` | src/middleware/Proxy.cpp:191 | a chunk of 16^15 bytes or more is refused |
| `RateLimiter.RateLimiter.EvictRefilled` | src/middleware/RateLimiter.cpp:34-45 | the erasing loop keeps exactly the buckets that are not full by now |
| `RateLimiter.RateLimiter.Request` | src/middleware/RateLimiter.cpp:47-97 | one request: sweep if due, at most one client displaced and only when full, decision by the refilled level, the table never over its bound |
| `RateLimiter.SweepUnseen` | src/middleware/RateLimiter.cpp:34-45 | forgetting a refilled bucket changes no client's level |
| `RateLimiter.RefilledIsFull` | src/middleware/RateLimiter.cpp:34-45 | the sweep forgets exactly the full buckets |
| `RateLimiter.SweepOnTime` | src/middleware/RateLimiter.cpp:56-64 | a request a window after the last sweep, or a second after it while the table is full, leaves no full bucket of another client; any other forgets only displaced clients |
| `RateLimiter.ClientSeesOneBucket` | src/middleware/RateLimiter.cpp:34-75 | over every run, with sweeps at any times and any other clients, a client never displaced gets the decisions of one bucket that is never forgotten |
| `RateLimiter.RateIsBounded` | src/middleware/RateLimiter.cpp:70-84 | n requests admitted in any stretch of t seconds satisfy n * window <= max_requests * (window + t) |
| `RateLimiter.LimiterObeysRate` | src/middleware/RateLimiter.cpp:47-97 | the same bound over every run of the whole limiter |
| `RateLimiter.OneWindow` | src/middleware/RateLimiter.cpp:47-97 | over every run, requests of a client within one window are admitted at most 2 * max_requests times |
| `RateLimiter.RefillTakesWindow` | src/middleware/RateLimiter.cpp:8-11 | an empty bucket is full after a window and not before |
| `RateLimiter.AdmitsAllItCan` | src/middleware/RateLimiter.cpp:70-84 | a request is refused only when it must be: it is admitted if and only if no stretch of requests ending with it would go over the bound |
| `RateLimiter.LimiterAdmitsAllItCan` | src/middleware/RateLimiter.cpp:47-97 | the same over every run of the whole limiter |
| `RateLimiter.RetryIsLeast` | src/middleware/RateLimiter.cpp:81-96 | the advertised wait is the least whole number of seconds after which the bucket holds a token |
| `RateLimiter.RetryAfterIsKept` | src/middleware/RateLimiter.cpp:81-96 | over every run of the limiter, with at least one request allowed: a client refused at i, then neither admitted nor displaced before j, is admitted at j if it waited the Retry-After computed from the tokens its refusal left |
| `RateLimiter.NothingAllowed` | src/middleware/RateLimiter.cpp:77-87 | with none allowed, waiting never helps |
| `TimerManager.TimerManager.AddTimer` | src/server/TimerManager.cpp:13-23 | a fresh id becomes live; the queue stays within 2 * live + 64 |
| `TimerManager.TimerManager.CancelTimer` | src/server/TimerManager.cpp:25-31 | exactly that timer stops being live; the queue stays within 2 * live + 64 |
| `TimerManager.TimerManager.CompactIfNeeded` | src/server/TimerManager.cpp:39-47 | rebuilds exactly when needed; total entries rebuilt never exceed effective cancels (`Valid`) |
| `TimerManager.TimerManager.GetNextTimeout` | src/server/TimerManager.cpp:49-62 | whole milliseconds to the least live deadline, never past it and less than one short, 0 if overdue, narrowed to 32 bits; -1 if no timer is live |
| `TimerManager.TimerManager.HandleExpiredTimers` | src/server/TimerManager.cpp:64-89 | reports exactly the live timers due, each once, in deadline order, and keeps exactly the others |
| `TimerManager.LiveIsQueued` | src/server/TimerManager.cpp:13-47 | every live timer has exactly one queue entry, its own |
| `TimerManager.DueIsUnique` | src/server/TimerManager.cpp:64-89 | any two such reports hold the same timers, at the same deadlines place by place |
| `ConnectionPool.NoConnectionLost` | include/orbit/database/ConnectionPool.hpp:73-169 | in every interleaving idle + checked out + reconnecting + in transit + starting (+ failed starts without a health check) is `max_size`, and no client is in two places or twice in one |
| `ConnectionPool.FirstComeFirstServed` | include/orbit/database/ConnectionPool.hpp:120-169 | clients go out in order of arrival; nobody waits while one is idle |
| `ConnectionPool.NoCallerForgotten` | include/orbit/database/ConnectionPool.hpp:120-169 | in every run the callers of acquire, in order, are those served and then those waiting |
| `ConnectionPool.CallerIsServed` | include/orbit/database/ConnectionPool.hpp:125-139 | a caller for whom there is a usable client gets that one |
| `ConnectionPool.UnhealthyIsDropped` | include/orbit/database/ConnectionPool.hpp:149-153 | with a health check an unhealthy released client is replaced at once and is nowhere in any continuation |
| `ConnectionPool.HealthyComesBack` | include/orbit/database/ConnectionPool.hpp:154-169 | a healthy one goes to the longest waiter or to the end of the idle queue |
| `ConnectionPool.BackoffDoubles` | include/orbit/database/ConnectionPool.hpp:202-235 | the k-th retry after a drop waits min(max_backoff, initial_backoff * 2^(k-1)) in every run |
| `ConnectionPool.NextRetry` | include/orbit/database/ConnectionPool.hpp:222-226 | doubling and capping each time is doubling always and capping once |
| `ConnectionPool.InitRetryUncapped` | include/orbit/database/ConnectionPool.hpp:101-102 | the first retry after a failed start is the capped backoff exactly when initial <= max |
| `ConnectionPool.ReadyOnce` | include/orbit/database/ConnectionPool.hpp:92-104 | in every run `on_ready` is called at most once, exactly when the last connection has completed, and truthfully |
| `ConnectionPool.TakeHealthyParts` | include/orbit/database/ConnectionPool.hpp:125-133 | the first healthy idle client is found; exactly the unhealthy ones before it are dropped |
| `ConnectionPool.PopHealthy` | include/orbit/database/ConnectionPool.hpp:125-133 | the popping loop computes that |
| `ConnectionPool.ConnectionPool.AcquireLocked` | include/orbit/database/ConnectionPool.hpp:120-139 | the object's fields take the system's step: the first usable idle client, the unusable ones before it dropped, or a place in the queue; nobody who waits is overtaken; all invariants kept |
| `ConnectionPool.ConnectionPool.ReleaseLocked` | include/orbit/database/ConnectionPool.hpp:149-169 | the longest waiter gets the client and nobody is idle meanwhile, or it becomes idle if nobody waits; all invariants kept |
| `ConnectionPool.ConnectionPool.ReplaceLocked` | include/orbit/database/ConnectionPool.hpp:202-209 | the count of replacements under way is that of the system, and never exceeds `max_size` |
| `ConnectionPool.ConnectionPool.AttemptDone` | include/orbit/database/ConnectionPool.hpp:213-228 | that count never goes below zero; after the k-th failure in a row the next attempt waits the k-th backoff |
| `ConnectionPool.ConnectionPool.StartedLocked` | include/orbit/database/ConnectionPool.hpp:84-104 | the completion that is the last one, and only it, reports, and says whether all succeeded |
| `ConnectionBudget.LimitHolds` | src/server/EventLoop.cpp:164-216 | in every interleaving the counter is connections in maps + reservations + removals not reported, between 0 and the limit |
| `ConnectionBudget.SlotsReturnOnce` | src/server/ConnectionManager.cpp:21-67 | each connection gives its slot back once, however many threads remove it |
| `ConnectionBudget.ExchangeKeepsCounted` | src/server/EventLoop.cpp:170-176 | a turn of the compare-and-swap loop, spurious failures included, keeps the count |
| `ConnectionBudget.ReservesIfFree` | src/server/EventLoop.cpp:170-176 | uninterrupted, and however often the weak exchange fails, reserve_slot takes one slot if the counter is below the limit and else changes nothing |
| `ConnectionBudget.GivesUpOnlyAtLimit` | src/server/EventLoop.cpp:170-176 | in any interleaving reserve_slot gives up only if the counter was at the limit at some moment of the call |
| `ConnectionBudget.UnusedSlotReturns` | src/server/EventLoop.cpp:198-199 | a slot for which nothing was accepted goes back |
| `ConnectionBudget.SlotBecomesConnection` | src/server/ConnectionManager.cpp:21-39 | a slot becomes a connection and the counter stands |
| `ConnectionBudget.RemovedOnce` | src/server/ConnectionManager.cpp:41-67 | the first remover takes the connection out and gives its slot back, a second finds nothing |
| `Http3Send.SentChunks.Push` | src/server/QuicHttp3Session.cpp:30-32 | extends the stream; empty chunks change nothing |
| `Http3Send.SentChunks.HandOut` | src/server/QuicHttp3Session.cpp:34-44 | hands out the next bytes of the stream, each once |
| `Http3Send.SentChunks.Ack` | src/server/QuicHttp3Session.cpp:46-53 | frees no unacknowledged byte and keeps no fully acknowledged chunk |
| `Http3Send.SentChunks.SentIsPrefix` | src/server/QuicHttp3Session.cpp:30-53 | what was handed out is a prefix of the stream, and what was freed lies inside the acknowledged part |
| `Http3Send.FreeAckedBytes` | src/server/QuicHttp3Session.cpp:46-53 | the freeing loop in terms of bytes |
| `Http3Send.Stream.ReadData` | src/server/QuicHttp3Session.cpp:280-308 | EOF if and only if everything pushed, the whole file range and the ended stream are handed out; then exactly the response was sent |
| `Http3Send.Stream.SubmitData` | src/server/QuicHttp3Session.cpp:347-352 | adds to the body only while streaming and not ended |
| `Http3Send.Stream.EndStream` | src/server/QuicHttp3Session.cpp:354-359 | ends a streamed body |
| `Multipart.MultipartStreamParser.ProcessBuffer` | src/http/MultipartStreamParser.cpp:230-308 | the loop over the object's own fields terminates, refines `Process` and keeps the invariant on files and limits |
| `Multipart.MultipartStreamParser.FeedChunk` | src/http/MultipartStreamParser.cpp:165-175 | refines `Feed`: every byte fed counts, a total over the limit fails, false once failed |
| `Multipart.MultipartStreamParser.Finish` | src/http/MultipartStreamParser.cpp:177-182 | after the end of input the temporary files left are exactly the reported ones |
| `Multipart.MultipartStreamParser.Destroy` | src/http/MultipartStreamParser.cpp:160-163 | at any point: the files left are exactly those handed to the application, each once, with their contents |
| `Multipart.FilesReportedOrDeleted` | src/http/MultipartStreamParser.cpp:160-308 | over every run, destroyed at any point, the files left are exactly the reported ones, each reported once, all within the size and count limits |
| `Multipart.CloseKeeps` | src/http/MultipartStreamParser.cpp:355-370 | a closed part's file is handed over or deleted, never both |
| `Multipart.AppendKeeps` | src/http/MultipartStreamParser.cpp:209-228 | a part that outgrows its limit, or cannot be written, fails the parse and loses its file |
| `Multipart.AppendOutcome` | src/http/MultipartStreamParser.cpp:209-228 | data is added if and only if the limit and the file system allow it; else the parse fails and the file is gone |
| `Multipart.NoTempFile` | src/http/MultipartStreamParser.cpp:338-353 | a file part gets a file if and only if there is an upload directory and the file can be created; else the parse fails |
| `Multipart.FindBehindKept` | src/http/MultipartStreamParser.cpp:284-296 | holding back a delimiter's length never misses a delimiter that straddles a cut |
| `Multipart.BodyIsExact` | src/http/MultipartStreamParser.cpp:284-305 | for every cut of a body into feeds, the first bytes perhaps in the feed that ends the headers, the part closes with exactly the bytes before the first CRLF--boundary, in the same state |
| `Multipart.ClosedReport` | src/http/MultipartStreamParser.cpp:355-370 | the application is told that value, or given a file with those contents |
| `MultipartMessages.MessageParsed` | src/http/MultipartStreamParser.cpp:230-308 | parsing inverts writing: a whole message of legal parts reports each part once, in order, fields with their content, files with their content on disk, and is finished |
| `MultipartMessages.SurroundingsIgnored` | src/http/MultipartStreamParser.cpp:230-258 | text before the first boundary and behind the last changes nothing |
| `MultipartMessages.StrayBoundarySkipped` | src/http/MultipartStreamParser.cpp:254-256 | a boundary followed by anything but a line end or dashes is passed over with two bytes |
| `MultipartMessages.ProcessSplit` | src/http/MultipartStreamParser.cpp:230-308 | in every state: a loop that stopped only for want of input, given more, ends as if all had come at once |
| `MultipartMessages.CleanCutUnseen` | src/http/MultipartStreamParser.cpp:165-175 | the same for two feeds against one, in every reachable state and for any bytes |
| `MultipartMessages.UnseenWaits` | src/http/MultipartStreamParser.cpp:230-308 | a message cut anywhere but at a seen place leaves the parser waiting for more |
| `MultipartMessages.SeenLoses` | src/http/MultipartStreamParser.cpp:241-268 | a cut at a seen place fails the parse, or loses a part or the end of the message |
| `MultipartMessages.CutUnseenIff` | src/http/MultipartStreamParser.cpp:230-308 | two feeds of a message end as one does if and only if the cut is not behind a boundary and before the two bytes that follow it, and leaves at most 8192 bytes of a header block |
| `MultipartMessages.MessageParsedInPieces` | src/http/MultipartStreamParser.cpp:230-308 | a message in any number of pieces, none ending at a seen place, is reported part by part and finished |
| `MultipartMessages.CutBehindBoundary` | src/http/MultipartStreamParser.cpp:241-258 | a cut right behind a boundary changes the parse, for every boundary |
| `Router.SplitPath` | src/routing/Router.cpp:76-87 | the loop computes `Split`, whose segments are non-empty and without slashes |
| `RouterForms.SplitAtSlash` | src/routing/Router.cpp:76-87 | a slash separates: Split(a/b) is Split(a) then Split(b), for all a and b |
| `RouterForms.SplitOne` | src/routing/Router.cpp:76-87 | a text without a slash is one segment, the empty one none |
| `RouterForms.SplitIsDetermined` | src/routing/Router.cpp:76-87 | any function with these two laws is `Split` |
| `Router.SplitJoin` | src/routing/Router.cpp:76-103 | splitting undoes joining |
| `RouterForms.JoinSplit` | src/routing/Router.cpp:96-103 | what a wildcard captures of a tidy path is that text: joining undoes splitting |
| `Router.MatchSegments` | src/routing/Router.cpp:89-119 | the matching loop agrees with the declarative match, literal count and parameters |
| `Router.SubstituteExtract` | src/routing/Router.cpp:89-119 | filling the extracted parameters into a pattern with distinct names gives back the request's segments |
| `RouterForms.FilledMatches` | src/routing/Router.cpp:89-119 | a pattern matches every request it becomes when its captures are filled with values of their types |
| `RouterForms.PatternForms` | src/routing/Router.cpp:51-57 | ":name", "{name}", "{name:type}", "*" and "*name" capture; every other segment stands for itself |
| `RouterForms.IntFits` | src/routing/Router.cpp:25-29 | "int" takes exactly the decimal numerals of 64-bit integers |
| `RouterForms.UuidFits` | src/routing/Router.cpp:30-41 | "uuid" takes exactly 8-4-4-4-12 hexadecimal digits |
| `RouterForms.OtherKinds` | src/routing/Router.cpp:19-24 | "" and "str" take anything, an unknown type nothing |
| `RouterForms.LiteralsCounted` | src/routing/Router.cpp:89-119 | the rank of a wildcard is the number of its literal segments |
| `Router.Router.AddRoute` | src/routing/Router.cpp:172-233 | refuses misplaced wildcards and bad types; otherwise extends exactly one of the two tables |
| `RouterForms.TypedForms` | src/routing/Router.cpp:179-187 | a typed segment is refused exactly if its name is empty or its type unknown |
| `RouterForms.RegisteredAnswers` | src/routing/Router.cpp:213-233 | a new route answers, besides what was answered before, exactly what its pattern matches, or its own path |
| `RouterForms.CapturesAreDynamic` | src/routing/Router.cpp:213-214 | a path with anything to capture is registered as a pattern |
| `Router.Router.FindHandler` | src/routing/Router.cpp:417-454 | exact, else first plain match, else the wildcard with most literals, earliest on ties |
| `Router.RuleIsUnique` | src/routing/Router.cpp:417-454 | the rule leaves one answer |
| `Router.RuleFindsAnswers` | src/routing/Router.cpp:417-454 | a handler is found if and only if some route serves the request |
| `Router.Router.Dispatch` | src/routing/Router.cpp:456-502 | HEAD falls back to GET; Allow lists each known method once, if and only if a request with it would be dispatched; 404 if and only if none would |
| `EditDistance.Distance` | src/config/Config.cpp:55-68 | the one-row loop computes the recursive Levenshtein distance |
| `EditDistance.LevenshteinIsLeast` | src/config/Config.cpp:51-68 | that distance is the least number of insertions, deletions and substitutions |
| `EditDistance.ClosestFlag` | src/config/Config.cpp:53-83 | the first flag of least distance within 2 and half the name, empty if and only if none qualifies |

## Left out

- The TLS branch of the write path, file responses and `resume_after_write_`: headers and file bytes are published in separate critical sections, so their order needs assumptions of its own.
- Full split independence of the multipart parser: false; the exact condition is proved (see above) for messages with no boundary hidden inside a part, and one way for all messages of legal parts.
- `parse_headers` and `multipart_boundary`: string assembly; header blocks are an uninterpreted function.
- Chunked responses to HEAD requests and unchunked streaming: `write_chunk` then prints nothing or the bytes as they are.
- Recovery after a decoder error: the model stays failed.
- Running the WebSocket close handler once across threads: `handle_close_frame` calls it unconditionally; proved for single-threaded histories.
- Widths of `size_t` and timer ids: sums that would wrap a 64-bit counter are not modelled.
- RateLimiter.RateLimiter.Request: uses reals, because the rounding of doubles is not the point.
- Accept pausing and resuming (`pause_accepting`, `resume_accepting_if_ready`): flags read by one loop; they do not touch the shared count.
- llhttp, nghttp2, nghttp3, ngtcp2, OpenSSL, zlib, libcurl and the database drivers: foreign code behind thin wrappers.
- Proactors, sockets, listeners and startup: kernel I/O.
- JWT, OAuth2, CORS, CSRF, static files, logging, metrics, OpenAPI, configuration files and the CLI: they would only add members that one branch settles.
