# Interop, verified

Interop is a small message protocol with RPC on top: messages are headers and a body, framed on a byte stream by
`Content-Length` or by a blank line, and the same protocol is implemented in Go, Ruby, PHP and JavaScript. This project
models its hard parts in Dafny 4.11 and proves properties of every input, every run or every reachable state.

`dafny verify dfyconfig.toml` checks everything. The modules, by what they model:

* **RPC in Go.** `RpcClient` and `RpcServer` are state machines over the atomic steps of the two programs: critical
  sections, channel operations, reads, writes, context expiry, handler panics. `RpcSystem` joins them by a FIFO link each
  way and proves what holds in every interleaving. `RpcOverBytes` replaces the links by byte streams, on which a failed write
  may leave part of its message, and proves that streams and queues allow the same steps as long as nothing is written behind
  such a part, so all of it carries over; `TornRuns` is a run that does. `RpcEndToEnd` follows a request from its caller to
  the handler and the answer back. `RpcClientCode` and `RpcServerCode` are the same programs as classes on the heap, cut where
  another goroutine may come in between.
* **The wire.** `WireCodec` is printing and parsing as functions on bytes, `WireIO` the writer and the incremental
  reader as imperative code proved against them, `Headers` the header list, `Reading` what the reader makes of bytes that no
  printer wrote, `TornWrites` what a failed write does to the next message.
* **The other readers.** `JsBlob` (chunked header scan and blob parser), `PhpStream` (both byte readers, the stream
  reader), `Keys` (name canonicalisation), `JsReading` and `PhpReading`, which are to them what `Reading` is to the Go reader,
  and `Agreement` with `Portability`, which say exactly where Go, PHP and JavaScript read the same.
* **Meeting points.** `Exchange`, `WebSocketConn`, `Channel` (Ruby), `Interceptors` (lazy Ruby queue, eager Go relay).
* **`PersistentWebSocket`**, the reconnecting socket, `PersistentConn`, the connection on top of it, and **`RpcReactor`**,
  the JavaScript client.
* **Shared slices.** `GoSlices` (message builders sharing a backing array) and `MultiWriter` (removal while ranging).

The machines of imperative programs are paired with classes whose operations are the original's callbacks and critical
sections. Each operation that changes state is proved to be a step of its machine and to keep the machine's invariant, which
the class has for its `Valid()`, and its contract says what the run theorems make of that step for the caller.

## What the code does against expectation

Each is a lemma or a contract below. Where an expected property fails, the exact condition under which it holds is proved.

* Printing does not add `Content-Length`. A printed message can be read back exactly if it is well-formed
  (`RoundTripExactly`), which the reader's own output always is.
* `WriteMessage` returns the byte count of a success, but after a failure inside the header block its count leaves out
  exactly the bytes of the header that failed (`WriteHeaders`, `WriteMessage`).
* All headers are said to be optional, but no blob at all parses as a message without headers in JavaScript
  (`NeverHeaderless`, `JsNeedsHeader`), and without `Content-Length` its body keeps the terminating newline
  (`JsKeepsNewline`).
* Header names ignore letter case everywhere, but Go and JavaScript make the same of a name exactly if its only separators
  are single hyphens (`GoAgreesExactly`).
* `RpcServer.Run` never returns its read error once two write errors were reported before (`HangsExactly`), and
  `WaitClean` can never pass once three writes have failed (`CleanExactly`).
* A write that fails halfway leaves part of its message on the stream, and the code goes on writing behind it. The next
  message is then read as it was written exactly if nothing was left (`NextReadExactly`); otherwise a call may return the
  answer to a request that nobody made (`TornRequestMixes`).
* Past 2^64 calls, a call that draws the number of one still pending takes over its ID, and the older call's response goes to
  the newer one (`WrappedRegisterExactly`, `ResponseGoesAstray`).
* A buffered Ruby `Channel` is not first-in, first-out: a get takes a waiting put before the buffered values
  (`FifoExactly`). It also does not see a buffer that holds nothing but `nil` and `false`: a get blocks on it, and the next
  put overtakes it (`NothingToGetExactly`, `FalseValueStrandsGet`).
* `close()` of a persistent socket can be undone as long as a socket is connecting, a reconnect timer is pending or the
  close of an open socket is being dispatched (`ClosedIsFinalExactly`). In the last case, that is when a listener told of the
  close calls it, it always is, and it is the next socket that gets closed (`ListenerCloseUndone`).
* When the retries are used up no listener is told, and reads on the connection pend for ever (`FinalCloseToldExactly`,
  `ReadsPendExactly`, `PendsForEver`).
* Unsubscribing removes all copies of a writer unless one of them is last and another before it, which panics, or two of
  them are neighbours, which leaves the second of them behind (`RemovesAllExactly`).
* A message whose ID names a property that every JavaScript object inherits stops the reactor's loop for good, and with it
  every call (`StoppedExactly`, `StoppedForGood`).
* Two duplicates of one message overwrite each other's appended header exactly if the original has spare capacity
  (`AppendToBoth`).

## Model

| member | source | states |
|---|---|---|
| RpcSystem.AnswerIsOwn | interop/rpc_client.go:42-128 | In every run, a call that returns a message returns the response the server produced for exactly the one request that call sent. |
| RpcEndToEnd.AnswerIsForRequest | interop/rpc_client.go:42-120 | In every run, a call that returns a message returns what a handler built, body, headers and errors, for a request the server read that is the caller's own but for its ID. |
| RpcEndToEnd.AnswerIsForRequestOverBytes | interop/rpc_client.go:42-120 | The same over byte streams as long as nothing is written behind part of a message. |
| RpcEndToEnd.ErrorsReachCaller | interop/rpc_client.go:70-77 | In every run, a call that returns a message returns an error with it exactly if the handler of its request reported one or panicked; if it only panicked, the error is the panic. |
| RpcEndToEnd.CallsAreRequested | interop/rpc_client.go:42-55 | In every run the calls are those that registered, in order and each with its request. |
| RpcSystem.IdLeadsHome | interop/rpc_client.go:50-57 | A message that came down with the ID of number k is the response to the request of call k, the only one written for it. |
| RpcSystem.OneResponsePerId | interop/rpc_server.go:36-50 | No two messages on the link down carry the ID of the same call. |
| RpcSystem.ResponseNotLost | interop/rpc_client.go:110-120 | A response the client's loop is done with has reached its call's channel, unless that call's context was done first. |
| RpcSystem.EventsComeFirst | interop/rpc_client.go:110-120 | Every event written before a delivered response was dispatched, and all routes that existed when it was read have been declined or handled without error. |
| RpcSystem.ChannelDiscipline | interop/rpc_client.go:46-81 | `results` holds exactly the IDs of pending calls; each channel is sent to and closed at most once; a send by the loop always finds it open and empty; no returned call is registered; no waiting call finds its channel closed and empty. |
| RpcSystem.RunsKeepInv | interop/rpc_client.go:42-128 | Every interleaving of client and server steps keeps the joint invariant of calls, requests, links and histories. |
| RpcClient.StepKeepsInv | interop/rpc_client.go:42-128 | Every client step keeps the invariant, given that responses carry IDs of requests that were sent. |
| RpcClient.IdInjective | interop/rpc_client.go:53-53 | Different call numbers give different IDs, never the empty one, for any prefix. |
| RpcClient.IdReadsBack | interop/rpc_client.go:53-53 | An ID is the prefix followed by digits that read back as the call's number. |
| RpcClient.StampKeepsRequest | interop/rpc_client.go:57-57 | The message that is written has the request's body, and its headers other than the ID in their order. |
| RpcClient.WrappedRegisterExactly | interop/rpc_client.go:51-54 | Of a client whose counter may have wrapped: no registered call loses its entry exactly if none drew the number that comes next, a multiple of 2^64 calls ago. |
| RpcClient.ResponseGoesAstray | interop/rpc_client.go:110-115 | After such a collision the older call's response is routed to the newer one. |
| RpcOverBytes.StepRefines | interop/rpc_client.go:57-57 | Over byte streams a step is possible exactly if it is over queues and what it writes is well-formed, and the systems stay related unless it writes behind part of a message. |
| RpcOverBytes.TornRefines | interop/rpc_client.go:57-62 | A write that fails after any number of bytes is a failed write over queues, which put nothing on them: what it leaves is never read as a message. |
| RpcOverBytes.RunRefines | interop/rpc_client.go:34-36 | Every run over byte streams, torn writes of requests, responses and events included, in which nothing is written behind part of a message is a run over queues with the same client and server. |
| RpcOverBytes.AnswerIsOwnOverBytes | interop/rpc_client.go:42-128 | In such a run too, a call that returns a message returns the one response to its own request. |
| TornRuns.TornRequestMixes | interop/rpc_client.go:57-81 | Without that condition it fails: after a request torn behind its header, the next call returns a response that answers no request of any call. |
| TornRuns.WhoeverWaitsIsAnswered | interop/rpc_server.go:30-50 | Whatever request bears the ID of a waiting call, the server's response to it can be what that call returns. |
| TornWrites.ReadExtends | interop/reader.go:24-67 | A read that succeeds does not depend on what follows, which it leaves. |
| TornWrites.FragmentUnread | interop/writer.go:29-52 | No proper initial part of a printed well-formed message is ever read as a message. |
| TornWrites.NextReadExactly | interop/writer.go:22-27 | Behind what a failed write left, the next message is read as it was written exactly if nothing was left. |
| TornWrites.HeadersMix | interop/reader.go:69-84 | Torn right behind some headers, a message lends them to the next. |
| RpcOverBytes.StampWellFormed | interop/rpc_client.go:53-57 | A well-formed request stays well-formed under its ID exactly if the prefix has no line feed and does not begin with white space. |
| RpcOverBytes.FinishWellFormed | interop/rpc_server.go:38-46 | A response is well-formed if the handler built a well-formed message and a panic's text fits in a header. |
| RpcServer.StepKeepsInv | interop/rpc_server.go:25-55 | Every server step keeps wait group, error channel, write attempts and responses in agreement. |
| RpcServer.OneAttemptEach | interop/rpc_server.go:35-50 | In every reachable state each request past its write was offered exactly once and no other at all, with exactly one ID header, the request's; the wait group is zero exactly when all responders are done. |
| RpcServer.RequestsAreRead | interop/rpc_server.go:30-37 | In every run the requests are the messages read, in order. |
| RpcServer.ResponsesAreBuilt | interop/rpc_server.go:36-44 | In every run each response is what the handler of that very request built. |
| RpcServer.FinishHasOneId | interop/rpc_server.go:38-43 | Whatever the handler left, ID headers of its own or a panic included, the response has one ID header, the request's. |
| RpcServer.FinishKeepsContent | interop/rpc_server.go:36-44 | The response has the body the handler set, all its headers but IDs in order, and its errors, with one more, `panic: ` and the text, exactly after a panic. |
| RpcServer.OneFailureNeverBlocks | interop/rpc_server.go:26-47 | With at most one failed write nobody ever blocks sending on the error channel. |
| RpcServer.HangsExactly | interop/rpc_server.go:26-52 | After a read error `Run` can never return exactly if two write errors were reported before. |
| RpcServer.TwoFailedWritesHang | interop/rpc_server.go:26-52 | Two requests whose responses cannot be written reach such a state. |
| RpcServer.CleanExactly | interop/rpc_server.go:26-65 | From a reachable state some continuation lets `WaitClean` pass exactly if at most two writes have failed. |
| RpcServerCode.Complete | interop/rpc_server.go:38-43 | On the heap builder, the deferred function leaves exactly one ID header, the request's, the handler's body, its other headers in order and its errors, and adds the panic if there was one. |
| RpcServerCode.RpcServer.Accept | interop/rpc_server.go:35-37 | The request is added to those being answered, with an empty builder; a read step that keeps the invariant. |
| RpcServerCode.RpcServer.Defer | interop/rpc_server.go:38-43 | Completing the response is a respond step on what the handler built: what is stored has its body, headers and errors, the panic, and the request's ID. |
| RpcServerCode.RpcServer.Write | interop/rpc_server.go:44-44 | The write is one attempt, noted as such, and accepted or failed; the wait group and the error channel are left alone and the invariant is kept. |
| RpcServerCode.RpcServer.ReportError | interop/rpc_server.go:45-45 | The send goes through exactly if the channel has room, always so with at most one failed write. |
| RpcServerCode.RpcServer.Done | interop/rpc_server.go:47-47 | Telling the wait group is the responder's last step and keeps the invariant. |
| RpcServerCode.RpcServer.StopReading | interop/rpc_server.go:30-31 | A failed read is the machine's step and keeps the invariant; responders may report before the send. |
| RpcServerCode.RpcServer.SendReadError | interop/rpc_server.go:32-32 | The send goes through exactly if fewer than two write errors are reported by then; otherwise `Run` hangs for ever. |
| RpcServerCode.RpcServer.CollectError | interop/rpc_server.go:52-52 | The receive that ends `Run` never waits and keeps the invariant. |
| RpcServerCode.RpcServer.WaitClean | interop/rpc_server.go:65-65 | It passes exactly when every request read is done with, and then each has had exactly one write attempt. |
| RpcClientCode.StampRequest | interop/rpc_client.go:57-57 | What is written is the request with exactly one ID header, its body and its other headers in order, and the caller's request is unchanged although they share a backing array. |
| RpcClientCode.RpcClient.Register | interop/rpc_client.go:46-55 | For the first 2^64 calls the ID is one no pending call has and leads to a new unused channel, and the call is added with its request; a register step that keeps the invariant. |
| RpcClientCode.RpcClient.WriteRequest | interop/rpc_client.go:57-58 | The request with its ID goes out whole and the write step is taken, or an initial part does and the failed write is; the caller's request is unchanged and the invariant kept. |
| RpcClientCode.RpcClient.Release | interop/rpc_client.go:122-128 | The ID is forgotten, its channel returned if it had one, and map and channels still mirror the machine's. |
| RpcClientCode.RpcClient.ReleaseFailed | interop/rpc_client.go:58-59 | After a failed write the ID is free; a step that keeps the invariant. |
| RpcClientCode.RpcClient.CloseFailed | interop/rpc_client.go:60-61 | The channel of a failed call is closed for the first time, so without a panic, and empty. |
| RpcClientCode.RpcClient.TakeResponse | interop/rpc_client.go:69-69 | What is received is what the machine says the call returns. |
| RpcClientCode.RpcClient.ContextDone | interop/rpc_client.go:78-78 | The select may pick the context at any time; a step that keeps the invariant. |
| RpcClientCode.RpcClient.ReleaseExpired | interop/rpc_client.go:78-80 | When the context is done the ID ends up free, whether or not the loop was there before. |
| RpcClientCode.RpcClient.MessageRead | interop/reader.go:103-110 | Reading a message is the loop's step and keeps the invariant. |
| RpcClientCode.RpcClient.Route | interop/rpc_client.go:110-119 | A message leads to the channel of the call that waits for its ID, which is unregistered, or else to the dispatch; a step that keeps the invariant. |
| RpcClientCode.RpcClient.SendResponse | interop/rpc_client.go:114-114 | The send finds the channel open and empty, so that it neither blocks nor panics, and is the machine's step. |
| RpcClientCode.RpcClient.CloseResponse | interop/rpc_client.go:115-115 | The close is the channel's first, and is the machine's step. |
| RpcClientCode.RpcClient.DispatchEvent | interop/events.go:42-54 | The loop over the routes is visit steps of the machine: exactly the handlers of matching routes up to the first that fails run, each once and in order, every visit before it is noted as matched or not, and the client's loop ends up free or ended accordingly. |
| RpcClientCode.MatchingMeaning | interop/events.go:46-47 | The routes noted as matching are exactly those whose matcher accepts, each once and in order. |
| WireCodec.RoundTripExactly | interop/writer.go:29-58 | A message survives printing and reading, whatever follows it on the stream, exactly if it is well-formed. |
| WireCodec.RoundTrip | interop/reader.go:24-67 | One read of a printed well-formed message, under either framing, gives the message and consumes exactly its bytes. |
| WireCodec.RoundTripAll | interop/reader.go:100-115 | Well-formed messages written back to back are read back one by one, then end of file. |
| WireCodec.PrintedText | README.md:12-16 | The text on the wire: a line for each header, in order, then a blank line, the body and a newline. |
| WireCodec.ReadYieldsWellFormed | interop/reader.go:24-98 | Whatever the bytes, a message that a read returns is well-formed. |
| WireCodec.ReprintStable | interop/reader.go:24-98 | Printing what was read from any bytes and reading it again gives the same message. |
| WireCodec.HeaderLineRoundTrip | interop/header.go:38-72 | The line of a good header is a non-blank line that parses back to the header. |
| Reading.ReadExactly | interop/reader.go:24-67 | For every text with a complete header block, a read gives a message exactly if what follows is its body, a newline of either form and the tail, and the body is the length header's count of bytes or, without one, unbroken lines. |
| Reading.BlockExactly | interop/reader.go:69-98 | A header block is found exactly if lines and a blank one of either form are there; otherwise the read ends in EOF. |
| Reading.BadHeaderExactly | interop/reader.go:69-84 | The header error comes exactly if some line of the block has no colon. |
| Reading.SizedExactly | interop/reader.go:39-57 | A counted body is read exactly if that many bytes and a newline of either form follow; which error it is otherwise. |
| Reading.ParseTolerant | interop/header.go:62-72 | A header is read whatever white space surrounds its name and its value, and whatever the case of its name. |
| Reading.AnyCaseCounts | interop/reader.go:36-57 | The length header counts in any letter case. |
| WireIO.WriteHeader | interop/header.go:38-60 | The sink gets an initial part of the header's line, all of it on success, and the count is exact either way. |
| WireIO.WriteHeaders | interop/headers.go:52-62 | On success exactly the printed headers and their length; on failure a cut inside some header, whose bytes the count leaves out. |
| WireIO.WriteMessage | interop/writer.go:29-58 | On success exactly the printed message and its length; on failure an initial part, with an exact count unless the cut was inside the header block. |
| WireIO.Reader.ReadParagraph | interop/reader.go:86-98 | The loop computes the paragraph function and leaves unread what it leaves, errors included. |
| WireIO.Reader.ReadHeader | interop/reader.go:69-84 | The loop computes the header parser, errors included. |
| WireIO.Reader.Read | interop/reader.go:24-67 | The incremental reader computes the specified reader and consumes the same bytes, on success and on every error path. |
| WireIO.Reader.ReadAllMessages | interop/reader.go:100-115 | The callback gets the stream's messages in order, up to the first it fails on or the first failed read, whose error is returned. |
| Headers.CanonicalIdempotent | interop/header.go:28-34 | Canonical names are fixed points, and making a name canonical adds no colon, line feed or outer white space. |
| Headers.CanonicalMeaning | interop/header.go:28-34 | The canonical form is the same text up to case; a token has upper case at its start and after hyphens and lower case elsewhere, any other name is left alone. |
| Headers.CanonicalExactly | interop/header.go:28-34 | A token and any other name have the same canonical form exactly if they differ in letter case at most. |
| Headers.LookupIgnoresCase | interop/headers.go:20-50 | `Get`, `GetAll` and `Delete` do not depend on the case of the name. |
| Headers.SetEffect | interop/headers.go:15-18 | After a set the name has exactly the one value, and every other name keeps its values in order. |
| Headers.SetOnlyDiffers | interop/headers.go:15-18 | A set leaves the headers with other names, and their order, as they were. |
| Headers.GetIsFirst | interop/headers.go:34-50 | `Get` is the first of `GetAll`, or empty when there is none. |
| Headers.IdOfIsGet | interop/rpc_client.go:111-111 | The ID the machines look at is what `GetHeader` returns for the ID header. |
| Bytes.DecimalRoundTrip | interop/message_builder.go:47-49 | The decimal numeral of a number reads back as that number. |
| Bytes.DecimalMeaning | interop/message_builder.go:47-49 | The numeral of a number is that of its tenth followed by its last digit. |
| Bytes.ParseUintMeaning | interop/reader.go:39-39 | A numeral with any leading zeros gives its number, or the largest 64-bit one when out of range; anything else gives 0. |
| GoSlices.EditDuplicate | interop/message_builder.go:15-37 | Any sequence of edits takes effect on the duplicate and leaves headers and body seen through the original unchanged. |
| GoSlices.EditsMeaning | interop/message_builder.go:24-37 | After any edits the body is that of the last body set, else the original's, and each name has the values set last and those added since. |
| GoSlices.AppendToBoth | interop/headers.go:9-13 | Appending to two duplicates clobbers the first's header exactly if the original has spare capacity; the original is safe. |
| GoSlices.MessageBuilder.Append | interop/headers.go:9-13 | The list grows by the header, in place exactly if there is room, and no element below the old length changes in the old array. |
| GoSlices.MessageBuilder.DeleteAll | interop/headers.go:20-32 | Either nothing changes or the builder has a fresh list without the name; the old array is untouched. |
| GoSlices.MessageBuilder.SetValue | interop/headers.go:15-18 | The builder's message has the header set, and no element below the old length changes in the old array. |
| GoSlices.MessageBuilder.GetValue | interop/headers.go:34-41 | The loop finds the first value of the name. |
| GoSlices.MessageBuilder.GetValues | interop/headers.go:43-50 | The loop collects all values of the name in order. |
| GoSlices.MessageBuilder.SetContentLength | interop/message_builder.go:47-49 | Any body a 64-bit length can count is framed afterwards. |
| GoSlices.KeepOthers | interop/headers.go:21-28 | The copy loop fills a list made to measure exactly, with the headers that do not have the name in order. |
| MultiWriter.Subscribers.Unsubscribe | interop/multi_writer.go:18-26 | It panics exactly if the writer is last and also somewhere before, and removes all its copies and nothing else exactly if that is not so and no two copies are neighbours; with distinct subscribers always. |
| MultiWriter.RemovesAllExactly | interop/multi_writer.go:20-24 | The loop leaves the list without the writer exactly if it does not panic and no two copies are neighbours. |
| MultiWriter.OneGoesExactly | interop/multi_writer.go:20-24 | Where it does not panic, exactly one copy goes exactly if there is one, or there are two and they are neighbours. |
| MultiWriter.LoopResult | interop/multi_writer.go:20-24 | Ranging over the stale slice while shifting it panics under that condition, else skips one element after each removal; with distinct subscribers it removes the writer alone. |
| MultiWriter.SecondRunIdle | interop/multi_writer.go:18-26 | With distinct subscribers, unsubscribing again finds nothing, changes nothing and does not panic. |
| MultiWriter.WithoutMeaning | interop/multi_writer.go:20-24 | Removal from a list drops the writer wherever it is and keeps the rest in order. |
| MultiWriter.Subscribers.RemoveAt | interop/multi_writer.go:22-22 | The append shifts the tail down within the array and leaves its last element behind twice. |
| MultiWriter.Subscribers.Subscribe | interop/multi_writer.go:13-16 | The list grows by the writer at its end, whether or not the array has room. |
| MultiWriter.Subscribers.WriteAll | interop/multi_writer.go:29-46 | Each subscriber is written to once in order; the errors are those of exactly the subscribers that fail, in subscriber order, and there is none exactly if nobody fails. |
| JsBlob.ExtractHeaders | js/src/parseMessageFromBlob.ts:15-32 | For every blob and every chunk size of at least 1 the chunked search ends and gives the prefix a plain scan gives. |
| JsBlob.SearchChunk | js/src/parseMessageFromBlob.ts:21-28 | The search within one chunk advances the plain scan to the chunk's end. |
| JsBlob.HeaderEndExactly | js/src/parseMessageFromBlob.ts:9-32 | What is found is the shortest prefix that ends in a line feed and passes the double-line-break test, else everything through the last line feed, else nothing; and nothing else fits that description. |
| JsBlob.NeverHeaderless | js/src/parseMessageFromBlob.ts:34-46 | No blob parses as a message without headers. |
| JsBlob.LastEntryWins | js/src/utilities.ts:5-8 | The header object has exactly the names of the entries, each with the value of its last entry. |
| JsReading.DoubleLineBreakExactly | js/src/parseMessageFromBlob.ts:9-13 | Exactly which endings pass for a double line break: two line feeds with at most two carriage returns between or behind them. |
| JsReading.CrlfBlockFound | js/src/parseMessageFromBlob.ts:15-32 | With lines that end in a carriage return and a line feed too, the scan stops right after the blank line. |
| JsReading.ReadExactly | js/src/parseMessageFromBlob.ts:34-63 | Behind portable headers with lines of either form, everything is the body if there is no length, and otherwise that many bytes exactly if a newline of either form follows; else the parser throws. |
| JsReading.NoColonThrows | js/src/parseMessageFromBlob.ts:37-46 | The header lines are refused exactly if one of them has no colon. |
| Keys.CanonicalizeIdempotent | js/src/utilities.ts:32-33 | A canonical key is a fixed point. |
| Keys.CanonicalizeMeaning | js/src/utilities.ts:32-33 | The canonical key is the same text up to case with one hyphen for every run of separators, each letter in the case Go gives it. |
| Keys.CanonicalizeExactly | js/src/utilities.ts:32-33 | Two keys have the same canonical form exactly if they differ in case and separator runs at most. |
| Keys.GoAgreesExactly | js/src/utilities.ts:32-33 | On a token it agrees with Go's canonical form exactly if the only separators are single hyphens. |
| Keys.CanonicalizeIgnoresCase | js/src/utilities.ts:32-33 | Keys that differ in letter case only have the same canonical form. |
| Keys.CanonicalizeIgnoresRuns | js/src/utilities.ts:32-33 | A run of separators may be replaced by any other, anywhere in the key. |
| PhpStream.BuildCanonicalName | php/Interop/Header.php:14-20 | The in-place loop gives the canonical name: the trimmed text up to case with one hyphen for every separator run, cased as in Go; a fixed point without white space. |
| PhpStream.Buffer.ReadUntil | php/Interop/Buffer.php:16-23 | Through the first separator, or EOF with everything consumed; always EOF once closed. |
| PhpStream.Buffer.ReadBytes | php/Interop/Buffer.php:25-39 | Exactly the next bytes, or EOF with everything consumed; always EOF once closed. |
| PhpStream.Buffer.WriteBytes | php/Interop/Buffer.php:41-46 | What is still to be read grows by the bytes, and is left alone once closed. |
| PhpStream.ByteStreamReader.ReadUntil | php/Interop/ByteStreamReader.php:27-42 | The same result as of `Buffer` on buffered plus unread bytes, which are kept on EOF. |
| PhpStream.ByteStreamReader.ReadBytes | php/Interop/ByteStreamReader.php:44-59 | The same result as of `Buffer`, however `fread` splits the stream; the loop ends. |
| PhpStream.StreamReader.ReadParagraph | php/Interop/StreamReader.php:39-48 | The same paragraphs as the Go reader, or EOF. |
| PhpStream.StreamReader.ReadLength | php/Interop/StreamReader.php:56-66 | The counted bytes with their newline, or the error of what is missing. |
| PhpStream.StreamReader.Read | php/Interop/StreamReader.php:17-24 | The reader over chunks computes the specified PHP reader on the whole stream, errors included. |
| PhpReading.ReadExactly | php/Interop/StreamReader.php:17-66 | For every text with a complete header block, a read gives a message exactly if what follows is its body, a newline of either form and the tail, and the body has the length given or, without one, unbroken lines. |
| PhpReading.InvalidHeaderExactly | php/Interop/Header.php:27-33 | The header error comes exactly if some line of the block has no colon. |
| PhpReading.SizedExactly | php/Interop/StreamReader.php:56-66 | A counted body is read exactly if that many bytes and a newline of either form follow, and what follows is unexpected exactly if it begins neither. |
| Portability.ReadersAgreeExactly | php/Interop/StreamReader.php:17-66 | Of well-formed messages with a header and a counted body, Go gives back all, and PHP and JavaScript both give back exactly the portable ones. |
| Portability.PhpReadsExactly | php/Interop/Header.php:14-33 | PHP gives a header back exactly if its name is canonical with nothing to trim and its value does not end in what PHP trims. |
| Agreement.ReadersAgree | php/Interop/StreamReader.php:17-66 | Go, PHP and JavaScript all return a printed portable message; Go and PHP leave the rest of the stream. |
| Agreement.CountedBodyIsPortable | README.md:10-18 | Any body with the length header alone is portable. |
| Agreement.PhpAgrees | php/Interop/Header.php:27-33 | The PHP reader gives a printed portable message back and consumes exactly its bytes. |
| Agreement.JsAgrees | js/src/parseMessageFromBlob.ts:34-63 | The JavaScript parser gives a printed portable message back. |
| Agreement.JsNeedsHeader | js/src/parseMessageFromBlob.ts:37-46 | With portable headers and a counted body it does so exactly if there is a header. |
| Agreement.JsKeepsNewline | js/src/parseMessageFromBlob.ts:48-60 | Without a length header the body it returns has one newline more. |
| Agreement.JsBodyExactly | js/src/parseMessageFromBlob.ts:48-62 | Under either framing, with portable headers, the headers come back and the body exactly if the length header is there. |
| Agreement.HeaderBlockFound | js/src/parseMessageFromBlob.ts:15-32 | The scan stops right after the blank line of a printed message that has a header. |
| Agreement.ObjectIsTheList | js/src/utilities.ts:5-8 | If headers with the same name have the same value, the header object holds exactly the headers of the list. |
| PersistentWebSocket.BoundedReconnection | js/src/PersistentWebSocket.ts:55-102 | In every run live sockets plus reconnect timers are at most one, and with retry limit M there are at most (M+1)*(1 + closes while OPEN) attempts. |
| PersistentWebSocket.BoundIsTight | js/src/PersistentWebSocket.ts:62-94 | For every M and every number of closes some run makes exactly that many attempts: opening resets the count, and every failure below the limit is retried. |
| PersistentWebSocket.FinishedIsFinal | js/src/PersistentWebSocket.ts:71-102 | Once neither socket nor timer is left the state is CLOSED and nothing ever changes again. |
| PersistentWebSocket.ClosedIsFinalExactly | js/src/PersistentWebSocket.ts:62-102 | CLOSED is for ever exactly if no socket is connecting, no reconnect timer is pending and no `onclose` of an open socket is in its dispatch. |
| PersistentWebSocket.ListenerCloseUndone | js/src/PersistentWebSocket.ts:75-101 | A `close()` by a listener told of an open socket's close is always undone, and waits for the next socket. |
| PersistentWebSocket.FinalCloseToldExactly | js/src/PersistentWebSocket.ts:78-90 | Listeners are told of a close with the state CLOSED for good exactly if all is over and not because the retries were used up. |
| PersistentWebSocket.GivesUpExactly | js/src/PersistentWebSocket.ts:86-91 | In every run it has given up exactly if one socket more than the limit failed in a row since the last that opened; without a limit never. |
| PersistentWebSocket.StateExactly | js/src/PersistentWebSocket.ts:62-95 | In every run without a `close()`, the state is OPEN exactly while the newest socket is open or its close is being dispatched, and CLOSED exactly if it has given up. |
| PersistentWebSocket.CloseAsksLiveSocket | js/src/PersistentWebSocket.ts:97-102 | In every reachable state, a `close()` while OPEN asks the current promise's socket to close, outside a dispatch the one live socket; in any other state it asks none. |
| PersistentConn.ReadsPendExactly | js/src/createWebSocketConn.ts:51-56 | When all is over, a read without a message pends exactly if the retries were used up, and is rejected otherwise. |
| PersistentConn.PendsForEver | js/src/createWebSocketConn.ts:33-56 | In that case no continuation ever rejects or refuses a read. |
| PersistentWebSocket.OneSocketPerPromise | js/src/PersistentWebSocket.ts:48-116 | A promise is resolved exactly if a socket opened under it, with that socket, and at most one ever does. |
| PersistentWebSocket.Closure.Connect | js/src/PersistentWebSocket.ts:55-60 | The new socket is connecting and the only one alive, no timer is left, state and count of failures are unchanged, and whoever waits goes on waiting. |
| PersistentWebSocket.Closure.HandleOpen | js/src/PersistentWebSocket.ts:62-69 | It is the newest socket that opens, the current promise was pending and is resolved with it, the state is OPEN and the failures are forgotten; the invariant is kept. |
| PersistentWebSocket.Closure.HandleClose | js/src/PersistentWebSocket.ts:71-94 | With listeners that may call `close()`: afterwards no socket is alive, and either one timer and the current promise are pending or the state is CLOSED and nobody is left waiting; always the former if the socket was open, and then a listener's `close()` waits on the new promise. A close while connecting counts as a failure and is the last exactly at the limit; each end has its own error. |
| PersistentWebSocket.Closure.Close | js/src/PersistentWebSocket.ts:97-102 | While OPEN it asks the current promise's socket to close, outside a dispatch the newest socket, and else none; the state it sets lasts for ever exactly if nothing is connecting, scheduled or about to be scheduled by a close being dispatched. |
| Channel.ChannelSafety | lib/interop/channel.rb:68-115 | In every run a blocked get means that no put waits and nothing true is buffered, a blocked put a full buffer; the limit holds; accepted values are delivered plus buffered plus waiting, as multisets; after a close nobody is blocked. |
| Channel.AcceptedExactly | lib/interop/channel.rb:68-87 | In every run the channel takes exactly the values put before its close, in order. |
| Channel.ClosedForGood | lib/interop/channel.rb:71-92 | In every run nothing changes after the close. |
| Channel.NothingToGetExactly | lib/interop/channel.rb:94-101 | Throughout a run no get waits over a non-empty buffer exactly if no get finds one that holds only `nil` and `false`. |
| Channel.TruthStrandsNobody | lib/interop/channel.rb:94-101 | In a run that puts nothing but true values no get ever waits over a non-empty buffer. |
| Channel.FalseValueStrandsGet | lib/interop/channel.rb:96-101 | With a buffer of one, a get blocks on a buffered `nil` or `false`, and receives the next value put. |
| Channel.FifoExactly | lib/interop/channel.rb:68-104 | The k-th get receives the k-th put exactly if, with something buffered, no get finds a put waiting and no put finds a get waiting; always when the channel is unbuffered. |
| Channel.BufferedValueOvertaken | lib/interop/channel.rb:94-96 | With a buffer of one, two puts and a get deliver the second value first. |
| Channel.Shared.Push | lib/interop/channel.rb:68-87 | Unless closed the value is taken: by the get that has waited longest, which is woken, into the buffer behind the others, or behind the waiting puts while the caller blocks, exactly if no get waits and the buffer is full; the invariant is kept. |
| Channel.Shared.Pull | lib/interop/channel.rb:89-104 | A value comes at once exactly if a put waits or something true is buffered, that of the longest waiting put or else the oldest buffered, and the queues keep the rest in order; otherwise the get waits. Unless values were overtaken, get number k has the k-th value; the invariant is kept. |
| Channel.Shared.Shut | lib/interop/channel.rb:106-115 | Everybody is woken; what it returns is the buffer, and delivered, returned and waiting values are all that were accepted; refused when closed before. |
| Exchange.KthMeetsKth | js/src/Exchange/Exchange.ts:8-30 | In every interleaving the k-th take and the k-th give return the k-th object made. |
| Exchange.InspectionExact | js/src/Exchange/Exchange.ts:22-28 | `taken` and `given` report exactly the unmatched objects of their own side, in order. |
| Exchange.Shared.Meet | js/src/Exchange/Exchange.ts:12-20 | The k-th call of either side returns the k-th object made, and the buffer stays exactly the objects only one side has met. |
| Exchange.Shared.Unmatched | js/src/Exchange/Exchange.ts:22-22 | The objects its side made and the other has not met, in order. |
| WebSocketConn.ReadsSettle | js/src/createWebSocketConn.ts:33-56 | Read number k settles with the k-th given message, or with ConnectionClosed and only once closed; after the terminal close none is pending, and every read that comes after it is refused. |
| WebSocketConn.OpenReadsFulfilled | js/src/Exchange/PromiseExchange.ts:9-17 | Before the terminal close a read is fulfilled as soon as its message has been given. |
| WebSocketConn.SettledForGood | js/src/createWebSocketConn.ts:33-56 | What a read's promise settled with at any point of a run it holds at every later point. |
| WebSocketConn.HistoryExactly | js/src/createWebSocketConn.ts:33-56 | In every run the connection is closed exactly if a close found the socket CLOSED, and messages and reads are all counted, in order. |
| WebSocketConn.Conn.OnClose | js/src/createWebSocketConn.ts:51-56 | If the close is terminal, every pending promise is rejected and settled ones keep what they hold; otherwise nothing changes. |
| WebSocketConn.Conn.ReadNext | js/src/createWebSocketConn.ts:36-41 | Read number k is refused exactly when closed, and otherwise gets promise number k, fulfilled if the k-th message was given already and pending if not. |
| WebSocketConn.Conn.OnMessage | js/src/createWebSocketConn.ts:43-49 | The k-th message settles promise number k, unless that was rejected, and no other. |
| Interceptors.LazyReader.Read | lib/interop/interceptor/read.rb:21-26 | Delivered plus queued is always the image of what was consumed; a read consumes nothing while the queue has something, and fails only when the image of the whole source was delivered. |
| Interceptors.LazyReader.ReadToEnd | lib/interop/interceptor/read.rb:21-26 | Reading to the end gives the image of the whole source. |
| Interceptors.EagerIsLazy | interop/middleware.go:31-41 | In every run of the relay its readers have seen a beginning of that image, all of it once the pipe is closed, and it is never stuck before. |
| RpcReactor.EachCallOnce | js/src/RpcClient/RpcReactor.ts:45-87 | In every run a call's promise holds the first message with its own ID read since it registered, is pending exactly while there is none, is resolved at most once, and is registered exactly while pending. |
| RpcReactor.AnswerIsFirst | js/src/RpcClient/RpcReactor.ts:72-79 | The message that resolves a call is at a position since its registration before which none has its ID; if there is no such message the call is pending. |
| RpcReactor.HistoryExactly | js/src/RpcClient/RpcReactor.ts:45-87 | In every run all messages read and all calls are recorded, in order, each call with what was read before it. |
| RpcReactor.EventsSettleFirst | js/src/RpcClient/RpcReactor.ts:69-87 | A message is read only when every event before it has been dispatched without error. |
| RpcReactor.UnknownIdExactly | js/src/RpcClient/RpcReactor.ts:74-79 | In every run a message with an ID changes nothing exactly if no call waits for the ID and it names nothing inherited. |
| RpcReactor.StoppedExactly | js/src/RpcClient/RpcReactor.ts:69-87 | In every run the loop has ended exactly if a read failed, a dispatch failed or a message with an inherited ID was read. |
| RpcReactor.StoppedForGood | js/src/RpcClient/RpcReactor.ts:69-87 | Once it has ended no promise is ever settled again, of calls made before or after. |
| RpcReactor.OwnIdsAreSafe | js/src/createRpcMessage.ts:5-10 | No ID the client itself makes is such a name. |
| RpcReactor.IdReadsBack | js/src/createRpcMessage.ts:5-10 | An ID is the session, a point and digits that read back as the call's number. |
| RpcReactor.Reactor.OnRead | js/src/RpcClient/RpcReactor.ts:72-82 | One turn of the loop is the machine's delivery, adds the message to those read and nothing to the calls, and keeps the invariant. |
| RpcReactor.Reactor.StartCall | js/src/RpcClient/RpcReactor.ts:52-54 | Starting a call adds one pending promise, registered since what has been read so far; the machine's call step. |
| RpcReactor.Reactor.OnDispatched | js/src/RpcClient/RpcReactor.ts:81-85 | The end of a dispatch resumes reading, or ends the loop after an error, and touches no call. |

## Left out

- Real sockets, files, timers, blobs and promise scheduling: they are byte sequences, FIFO queues and events that may happen at any time.
- Progress of calls at end of file: nothing releases pending calls when `Run` of the client ends, so only safety is claimed.
- RpcSystem.AnswerIsOwn: a failed write does not get the whole of its message across, a handler answers through its builder only and does not itself write messages with IDs to the connection, the ID prefix does not change, and there are fewer than 2^64 calls.
- RpcServer.OneAttemptEach: reading a request and counting it in the wait group are one step.
- RpcOverBytes.AnswerIsOwnOverBytes: messages that are not well-formed are not written, and runs that write behind part of a message are outside it, as `TornRequestMixes` shows they must be.
- RpcClientCode.RpcClient.Register: calls after the first 2^64; `WrappedRegisterExactly` says what they do.
- RpcClientCode.RpcClient.Route: the write step of a call belongs where its bytes are out, before `Write` returns, for from then on its response may be routed.
- RpcClientCode.RpcClient.CloseFailed: a failed write that was answered all the same, which would close the channel twice.
- RpcEndToEnd.ErrorsReachCaller: which text several errors make, joined by the standard library, is defined but not characterised.
- Mutexes, condition variables and Ruby's `Blocker`: each critical section and each wake-up is one atomic step. Ruby's `Deadlock` check raises before any state change and is not modelled.
- Text is modelled as bytes with ASCII white space and letter case; Unicode spaces and case mapping are not part of this model.
- WireIO.Reader.Read: the body buffer for a huge `Content-Length` is not allocated up front, so running out of memory is not modelled.
- Portability.ReadersAgreeExactly: `intval` and `parseInt` are parameters that yield natural numbers and read a plain decimal back; signs and malformed numbers are not modelled for PHP and JavaScript. The order of integer-like keys in a JavaScript object is not modelled.
- Header lines folded over several lines: the code does not implement them.
- GoSlices.EditDuplicate: a body is a value; writing into a shared body slice is not something the builder does.
- MultiWriter.Subscribers.WriteAll: a write that overlaps an unsubscribe, and so reads an array being shifted, is not modelled.
- Interceptors.EagerIsLazy: interceptors that fail or write elsewhere are not modelled.
- WebSocketConn.ReadsSettle: FIFO is in the order messages are given, after parsing, not in the order of socket events; frames that are not binary raise before any state change.
- PhpStream.ByteStreamReader.ReadBytes: `fread` errors other than end of file are not modelled, and a negative length is not passed.
- RpcReactor.EachCallOnce: a failed `conn.write`, which leaves the entry registered, and the decoding of the response are not modelled.
- The encoders and marshalers, content types, class matchers, RPC logger, TypeScript type guards, Ruby `Magic` and `Controller`, background runners, examples and integration apps: wrappers and plumbing that would add only easy members.
