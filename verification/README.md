# Verified model of the flex HTTP server's connection handling

The server accepts a connection, finds out whether the client speaks TLS, serves
HTTP/1.x requests with pipelining, and switches to a WebSocket echo session on
request. This project models that path and proves what it guarantees for every
order in which reads and writes complete, every queue limit, every way the byte
stream is cut into chunks and every way messages are cut into frames.

The behaviour is given twice. `Pipeline`, `Framing`, `Echo` and `Connection` are
transition systems on values; whole-run theorems are proved about them.
`HttpServer`, `EchoServer`, `DetectServer` and `Streams` are classes whose methods
update their fields as the callbacks do (an array-backed queue with a shifting
erase, a parser that is emptied for each read, buffers that are consumed), each
method proved to make exactly the transition of the system.

Two decisions shape the transition systems.

- Operations outstanding on a stream are counted, and no transition looks at the
  counts. That there is never a second read or write is therefore proved, not
  assumed. Likewise a flag records a write completion that finds the queue empty
  (the source asserts that it cannot happen), and a counter records operations
  begun on a stream that was moved away.
- The session works with any handler (`Config.respond`). Only `ClosePoint` and the
  classes name the handler the server ships with.

The environment may let any outstanding write succeed, also one begun after a
shutdown or on a stream that was moved away, where a real one fails. What is proved
of all runs holds of more runs than can occur. What promises that answers arrive
either asks for a stream that is neither shut down nor moved, or allows no write
begun later.

Callbacks of one connection run one at a time, which the per-connection strand
(`server.cpp:173-179`) provides; their order is the environment's choice. A file
is an outcome that comes with the request: missing, failing, or of some size. The
request parser is any function on the buffered bytes whose verdict later bytes
cannot change.

Where the code and its own comments disagree, the model follows the code.

- The comment at `handler.hpp:198-199` says that registered handlers override the
  default one. The loop runs only when there are none, so the default handler
  answers every request (`HttpServer.HandleRequest`).
- The session passes its own document root to the handler, which ignores it and
  uses the one in the settings (`handler.hpp:218`, `handler.hpp:221`).

## Results in short

- The pipelined session refines a server that answers one request at a time
  (`StepRefines`, `RunRefines`), and neither interleaving nor limit shows on the
  wire (`Confluence`). From bytes in to responses out, chunks do not show either
  (`BytesDetermineResponses`), and
  connections that end early have written a beginning of the same responses
  (`BytesOrderResponses`).
- At most one read and one write are outstanding; a read is outstanding exactly
  while the read side is open and the queue has room, even after the write side
  died (`Arming`). The session is left without a pending operation exactly in the
  cases `NoLostWakeup` lists.
- Four statements that the code does not meet in every state are given with their
  exact conditions, and for each it is said from which queue limit on a fresh
  connection can get there, with the requests that lead there.
  - Answers already owed can be lost when the client half-closes the connection,
    because the sending side is shut down at once, under the write outstanding and
    before those to come: if and only if an answer is still queued, the one being
    written included, and the session has not closed (`MayLoseIff`); reached from a
    limit of two on (`LossReachableIff`). The loss is certain if the write
    outstanding does not close and more work follows (`DeliveryAfterSeveringIff`);
    reached from a limit of three on (`CertainLossReachableIff`).
  - An HTTP session can still touch its stream after an upgrade if and only if a
    write is outstanding that more work or a close follows (`StrayIff`), reached
    from a limit of two on (`StrayReachableIff`).
  - Two writes can overlap on a connection if and only if one was outstanding when
    the upgrade was read (`OverlapIff`, `OverlapReachableIff`).
  - Section 9.6 of RFC 9112 has a server process no request after one that asked for
    a close. This one handles up to one less than the queue limit, and no more
    (`AfterClosingRequestIff`); once it has closed, as many as its queue has room
    for while its read side is open (`HandlesAfterCloseIff`).
- Paths built from accepted targets stay below the document root if and only if
  one is set (`ConfinedIff`), and the content type does not depend on it.

## Model

| member | source | states |
|---|---|---|
| `PipelineTheorems.StepRefines` | src/c++/systemicai/http/server/sessions.hpp:381-436 | every callback of the pipelined session is a step of a server that answers one request at a time, or invisible on the wire |
| `PipelineTheorems.RunRefines` | src/c++/systemicai/http/server/sessions.hpp:381-436 | every run is a run of that sequential server, one step for each callback, and what is seen after any number of callbacks is its state then |
| `PipelineTheorems.ResponsesInOrder` | src/c++/systemicai/http/server/sessions.hpp:280-330 | responses written are a prefix of the answers to the requests handled, in request order, cut just after the first that closes |
| `PipelineTheorems.Conservation` | src/c++/systemicai/http/server/sessions.hpp:281-329 | answers to handled requests are the popped ones followed by the queue, and writes begun are the popped ones and the front: none lost, doubled or started twice, also after a failure |
| `PipelineTheorems.Arming` | src/c++/systemicai/http/server/sessions.hpp:284-288 | at most one read and one write; a read exactly while the read side is open and the queue is not full, a write of the front item exactly while the write side lives and there is work |
| `PipelineTheorems.NoLostWakeup` | src/c++/systemicai/http/server/sessions.hpp:264-289 | a live session always has one or two operations outstanding; the exact states in which none is |
| `PipelineTheorems.BoundedAndSafe` | src/c++/systemicai/http/server/sessions.hpp:268-285 | the queue never exceeds its limit and no write completion finds it empty, so the assertion cannot fire |
| `PipelineTheorems.Confluence` | src/c++/systemicai/http/server/sessions.hpp:381-436 | runs with any two limits that are done with the same requests have written the same responses |
| `PipelineTheorems.SomeScheduleIsDone` | src/c++/systemicai/http/server/sessions.hpp:381-436 | for every list of requests and every limit some schedule is done with it |
| `PipelineTheorems.DrainDelivers` | src/c++/systemicai/http/server/sessions.hpp:415-436 | while the write side lives and the stream is neither shut down nor moved away, as many write completions as there are queued responses deliver everything owed |
| `PipelineTheorems.MayLoseIff` | src/c++/systemicai/http/server/sessions.hpp:386-405 | once the read side has ended, an answer can be lost exactly if one is queued, the one being written included, and the session has not closed |
| `PipelineTheorems.DeliveryAfterSeveringIff` | src/c++/systemicai/http/server/sessions.hpp:386-405 | after a graceful end of reading or an upgrade, losing an answer is certain, whatever becomes of the write outstanding, except exactly if no write failed and at most one response is queued, or the front one closes |
| `PipelineTheorems.WritesAfterReadEndIff` | src/c++/systemicai/http/server/sessions.hpp:280-289 | once the read side ended, the session still begins a write exactly if one is outstanding that does not close and more work follows |
| `PipelineReach.HalfCloseRisksAnswer` | src/c++/systemicai/http/server/sessions.hpp:386-391 | one request and a half-close: its answer, being written, can be lost |
| `PipelineReach.HalfCloseLosesAnswer` | src/c++/systemicai/http/server/sessions.hpp:386-391 | two pipelined requests and a half-close: an answer owed is certain to be lost |
| `PipelineReach.LossReachableIff` | src/c++/systemicai/http/server/sessions.hpp:386-391 | a half-close, with no write failed before it, can lose answers exactly if the queue limit is at least two |
| `PipelineReach.CertainLossReachableIff` | src/c++/systemicai/http/server/sessions.hpp:386-391 | a half-close can make the loss of an answer certain exactly if the queue limit is at least three |
| `PipelineTheorems.EndedRunTerminates` | src/c++/systemicai/http/server/sessions.hpp:407-436 | once either side ended, one measure bounds every continuation by the limit and is used up exactly at quiescence |
| `PipelineTheorems.WriteSideStaysDead` | src/c++/systemicai/http/server/sessions.hpp:415-428 | after a failed or closing write no write is ever begun, the front stays, and at most the room left in the queue is handled |
| `PipelineTheorems.ReadSideStaysDead` | src/c++/systemicai/http/server/sessions.hpp:387-405 | after the end of the stream, a read error or an upgrade no read is armed again and the queue only shrinks |
| `PipelineTheorems.HandlesAfterCloseIff` | src/c++/systemicai/http/server/sessions.hpp:410-428 | a session that can write no more can still handle k more requests exactly if k is 0, or the read side is open and the queue has room for k |
| `PipelineReach.RequestAfterClose` | src/c++/systemicai/http/server/sessions.hpp:410-428 | the answer to a closing request is written and then another request is handled |
| `PipelineReach.AfterCloseReachableIff` | src/c++/systemicai/http/server/sessions.hpp:410-428 | requests can be handled after the close exactly if the limit is at least two |
| `PipelineTheorems.HandlesMoreIff` | src/c++/systemicai/http/server/sessions.hpp:407-436 | any session can handle one more request exactly if its read side is open and the queue has room, or a write of a front that does not close is out |
| `PipelineReach.AfterClosingRequestIff` | src/c++/systemicai/http/server/sessions.hpp:407-436 | exactly k requests can be handled after one that asked for a close if and only if k is below the queue limit |
| `PipelineTheorems.ClosePoint` | src/c++/systemicai/http/server/handlers/handler.hpp:104-195 | the session closes from a write completion exactly when it wrote the answer to the first handled request that does not persist |
| `PipelineTheorems.ClosePointByTokens` | src/c++/systemicai/http/server/sessions.hpp:415-428 | after the answer to an HTTP/1.0 request the session closes unless keep-alive was asked for, to an HTTP/1.1 request if close was |
| `PipelineTheorems.EventsDecide` | src/c++/systemicai/http/server/sessions.hpp:381-436 | requests handled, number of responses written, how each side ended and how often the stream was shut down are just what the events say |
| `PipelineTheorems.StrayIff` | src/c++/systemicai/http/server/sessions.hpp:394-405 | after an upgrade the old session can touch the moved stream exactly if a write is outstanding and more work or a close follows it |
| `PipelineReach.UpgradeBehindClose` | src/c++/systemicai/http/server/sessions.hpp:394-428 | a closing request and an upgrade, pipelined: the shutdown hits the stream that was moved away |
| `PipelineReach.StrayReachableIff` | src/c++/systemicai/http/server/sessions.hpp:394-428 | a session can touch a stream it handed over exactly if the limit is at least two |
| `Pipeline.StepKeepsInv` | src/c++/systemicai/http/server/sessions.hpp:381-436 | every callback keeps the invariant behind the run theorems: capacity, arming, conservation, ends, stream use |
| `Framing.BytesConserved` | src/c++/systemicai/http/server/sessions.hpp:357-379 | bytes delivered, the detector's first, are the bytes of the requests followed by the session buffer |
| `Framing.RequestsAreFramed` | src/c++/systemicai/http/server/sessions.hpp:357-379 | requests delivered are those at the front of the byte stream whatever the chunks and timing, all of them once the read starves |
| `Framing.BytesDetermineResponses` | src/c++/systemicai/http/server/sessions.hpp:357-436 | finished connections with one byte stream over one file system have written the same responses, whatever chunks, schedules and limits |
| `Framing.BytesOrderResponses` | src/c++/systemicai/http/server/sessions.hpp:357-436 | for any two runs on one byte stream over one file system, finished or not and however ended, what one has written is the beginning of what the other has |
| `Framing.SomeRunFinishes` | src/c++/systemicai/http/server/sessions.hpp:357-436 | a byte stream with no malformed request and no upgrade can be finished with: some schedule handles and answers all of it, or closes |
| `Framing.GracefulEndBetweenMessages` | src/c++/systemicai/http/server/sessions.hpp:386-391 | the read side ends gracefully only between messages, with every byte taken up and every request handled |
| `Framing.HowReadingEnds` | src/c++/systemicai/http/server/sessions.hpp:386-391 | the end of the stream is graceful, with one shutdown, exactly between messages; inside one, like a parse or transport error, it is a read error without a shutdown |
| `Framing.GracefulEndReached` | src/c++/systemicai/http/server/sessions.hpp:386-391 | one request and a half-close end a run gracefully, with one shutdown |
| `Framing.ReceivedByEvents` | src/c++/systemicai/http/server/sessions.hpp:357-379 | only chunks bring bytes, and no chunk is dropped |
| `Framing.RunProjects` | src/c++/systemicai/http/server/sessions.hpp:357-436 | every run on bytes is a schedule of the pipeline, so its theorems apply |
| `Connection.SingleOwner` | src/c++/systemicai/http/server/server.cpp:75-113 | from accept to WebSocket at most one read, and two writes only when an old HTTP write is out after an upgrade; the HTTP session holds the stream exactly until the upgrade |
| `Connection.DetectorDecides` | src/c++/systemicai/http/server/server.cpp:89-113 | a connection is served as the detector decided on the bytes seen: plain from the first byte, TLS only after a completed handshake, from the bytes that left |
| `Connection.HandshakeReached` | src/c++/systemicai/http/server/sessions.hpp:521-536 | bytes detected as TLS lead to a handshake over just those bytes, with nothing else outstanding |
| `Connection.EventsDecide` | src/c++/systemicai/http/server/server.cpp:89-113 | a connection stops before serving exactly when detection or the handshake fails, and all bytes that come in are accounted for |
| `Connection.PlainBytesHandedOver` | src/c++/systemicai/http/server/server.cpp:107-112 | on a plain connection no byte is lost between detector and session |
| `Connection.OverlapIff` | src/c++/systemicai/http/server/sessions.hpp:394-405 | two writes can overlap after an upgrade exactly if the HTTP session had one out when it read the upgrade |
| `Connection.OverlapReached` | src/c++/systemicai/http/server/sessions.hpp:394-405 | a client that pipelines an upgrade behind a request, over any parser, makes two writes overlap |
| `Connection.OverlapReachableIff` | src/c++/systemicai/http/server/sessions.hpp:394-405 | where such a client exists, writes can overlap exactly if the limit is at least two |
| `Connection.DeliveredBytesDetermineResponses` | src/c++/systemicai/http/server/server.cpp:107-112 | two plain connections, from accept on, that finished with the same delivered bytes over one file system have written the same responses |
| `Connection.DeliveredBytesOrderResponses` | src/c++/systemicai/http/server/server.cpp:107-112 | any two plain connections, finished or not, that were delivered no more than one byte stream have written one the beginning of the other |
| `Connection.CleanUpgrade` | src/c++/systemicai/http/server/sessions.hpp:394-405 | after an upgrade with an empty queue the HTTP session never begins or completes another operation |
| `Echo.EchoesInOrder` | src/c++/systemicai/http/server/sessions.hpp:89-138 | messages echoed are a prefix of the messages received, at most one behind, payload and type kept, one operation at a time |
| `Echo.EndsOnlyByError` | src/c++/systemicai/http/server/sessions.hpp:79-138 | the session ends exactly at an error or the end of reading; until then one operation is outstanding |
| `Echo.AllCanBeEchoed` | src/c++/systemicai/http/server/sessions.hpp:79-138 | any messages, cut in any way, can all be echoed without an error in a run that ends waiting for the next |
| `Echo.BufferHoldsOneMessage` | src/c++/systemicai/http/server/sessions.hpp:100-138 | on every run, while reading the buffer holds just what has arrived of the current message, while writing the one message still to be echoed: messages never run together |
| `Echo.BufferEmptyWhenArmed` | src/c++/systemicai/http/server/sessions.hpp:123-138 | whenever on any run an event arms a read, the buffer is empty, no message is under way and every message has been echoed |
| `Echo.EchoesAreMessages` | src/c++/systemicai/http/server/sessions.hpp:89-138 | at any time the echoes are the first of the messages the client is sending, however they are cut into frames |
| `Echo.FragmentationInvisible` | src/c++/systemicai/http/server/sessions.hpp:100-121 | the same messages cut into frames in any two ways are echoed the same |
| `Echo.CutReassembles` | src/c++/systemicai/http/server/sessions.hpp:89-98 | a message cut into any frames is read back whole |
| `Confinement.ConfinedIff` | src/c++/systemicai/http/server/handlers/handler.hpp:148-157 | the path built for an accepted target resolves to the root or below it exactly if the root is not empty |
| `Confinement.DotSegmentsVanish` | src/c++/systemicai/http/server/handlers/handler.hpp:148-157 | the resolver used for confinement obeys the rules for dot segments |
| `Confinement.PathBelowRoot` | src/c++/systemicai/http/server/functions.cpp:45-64 | the resolved path is the resolved root followed by the names in the target |
| `Confinement.ServedFilesConfined` | src/c++/systemicai/http/server/handlers/handler.hpp:148-195 | every file in a response lies below the document root, if one is set |
| `Functions.MimeTypeIff` | src/c++/systemicai/http/server/functions.cpp:8-40 | a path has a listed type exactly if it ends, ignoring case, with an extension listed for it, and the default exactly if it ends with none |
| `Functions.MimeTypeOfRow` | src/c++/systemicai/http/server/functions.cpp:18-38 | the rows do not compete: a path ending with a listed extension gets that row's type |
| `Functions.TypesByName` | src/c++/systemicai/http/server/functions.cpp:18-38 | the type of each listed extension, by name |
| `Functions.LowerByLetter` | src/c++/systemicai/http/server/functions.cpp:18-38 | the letters that comparison takes for one another |
| `Functions.NoDotType` | src/c++/systemicai/http/server/functions.cpp:11-17 | a path without a dot has the default type |
| `Functions.DotInDirectoryType` | src/c++/systemicai/http/server/functions.cpp:11-17 | a path with a separator after its last dot has the default type |
| `Functions.PathCat` | src/c++/systemicai/http/server/functions.cpp:45-64 | the base without one final separator, followed by the path; an empty base adds nothing |
| `Handler.ContentTypeIgnoresRoot` | src/c++/systemicai/http/server/functions.cpp:8-64 | for an accepted target the content type is the same under any two roots |
| `Handler.DirectoryIsHtml` | src/c++/systemicai/http/server/handlers/handler.hpp:156-157 | a target ending in a separator is HTML |
| `Handler.ResponseIgnoresRoot` | src/c++/systemicai/http/server/handlers/handler.hpp:155-195 | the root shows in a response only as the place of the file |
| `Handler.Respond` | src/c++/systemicai/http/server/handlers/handler.hpp:98-196 | status, body text, type, length, version, server and Connection tokens for each kind of request and file outcome; a response persists exactly if the request asked for it |
| `Handler.Accepted` | src/c++/systemicai/http/server/handlers/handler.hpp:149-151 | a target is accepted exactly if it starts with a separator and holds no two dots in a row |
| `Handler.FilePathCases` | src/c++/systemicai/http/server/handlers/handler.hpp:154-157 | a final separator of the root does not count, one of the target stands for index.html |
| `Messages.SetKeepAlive` | src/c++/systemicai/http/server/handlers/handler.hpp:111 | reading the Connection tokens back gives the value set; an HTTP/1.0 message says keep-alive and a later one close, when they have to; other tokens stay |
| `Messages.Persistent` | src/c++/systemicai/http/server/handlers/handler.hpp:111 | an HTTP/1.0 request persists if it says keep-alive, an HTTP/1.1 request unless it says close |
| `Messages.WhenTheStreamEndsIt` | src/c++/systemicai/http/server/sessions.hpp:316-319 | a response without a length closes unless its status has no body; otherwise its tokens decide |
| `Messages.UpgradeNeedsEach` | src/c++/systemicai/http/server/sessions.hpp:393-394 | five things make a request an upgrade, and each is needed |
| `HttpServer.DefaultResponse` | src/c++/systemicai/http/server/handlers/handler.hpp:98-196 | the branches and setters produce the specified response |
| `HttpServer.DefaultHandleRequest` | src/c++/systemicai/http/server/handlers/handler.hpp:143-196 | every path sends exactly one response to the queue |
| `HttpServer.HandleRequest` | src/c++/systemicai/http/server/handlers/handler.hpp:204-223 | whatever is registered, the default handler answers, with the root from the settings |
| `HttpServer.WorkQueue.OnWrite` | src/c++/systemicai/http/server/sessions.hpp:280-289 | the front is erased by shifting, the next item started, and fullness before the erase reported |
| `HttpServer.WorkQueue.Send` | src/c++/systemicai/http/server/sessions.hpp:292-330 | the message joins the end, starts only if it is alone, and storage grows only past the reserved capacity |
| `HttpServer.HttpSession.OnRead` | src/c++/systemicai/http/server/sessions.hpp:381-413 | the callback makes the read transition, and returns a WebSocket session on a fresh stream exactly for an upgrade |
| `HttpServer.HttpSession.OnWrite` | src/c++/systemicai/http/server/sessions.hpp:415-436 | the callback makes the write transition |
| `HttpServer.HttpSession.DoRead` | src/c++/systemicai/http/server/sessions.hpp:357-379 | a read is armed with an emptied parser |
| `HttpServer.HttpSession.OnHandshake` | src/c++/systemicai/http/server/sessions.hpp:567-579 | what the handshake used leaves the buffer, then reading begins |
| `HttpServer.HttpSession.CompleteRead` | src/c++/systemicai/http/server/sessions.hpp:376-413 | a completed read is one transition, keeps the invariant and never outgrows the reserved storage |
| `HttpServer.HttpSession.CompleteWrite` | src/c++/systemicai/http/server/sessions.hpp:313-319 | a completed write is one transition, with the close flag fixed by the message |
| `HttpServer.HttpSession.ReceiveRequest` | src/c++/systemicai/http/server/sessions.hpp:371-378 | a request found in the buffer is consumed and handled as one transition on bytes and session |
| `EchoServer.EchoSession.Complete` | src/c++/systemicai/http/server/sessions.hpp:79-138 | every callback of the echo session is one transition and keeps its invariant |
| `DetectServer.DetectSession.OnDetect` | src/c++/systemicai/http/server/server.cpp:89-113 | the chosen session gets the live stream and all buffered bytes; a plain one is reading, a TLS one in its handshake |

## Left out

- Boost.Asio, Beast and OpenSSL internals: sockets, TLS records, the HTTP grammar and WebSocket masking and control frames are not modelled.
- Timeouts and the limit on the size of a request body appear as read or write errors only.
- Bytes after an upgrade request: the HTTP buffer is not passed to the WebSocket session, and byte conservation is claimed for the HTTP phase.
- Bytes left in the buffer after a TLS handshake: what the handshake uses is decided by the library, so nothing is said about the socket's bytes on TLS connections.
- The completion of a TLS shutdown (`sessions.hpp:581-588`), which only reports.
- PipelineTheorems.DrainDelivers: promises delivery if writes succeed; a read error may be a malformed request, after which they can, or a timeout, after which the library has closed the stream and they cannot, and the model does not tell the two apart.
- Connection.SingleOwner: counts reads and writes, not shutdowns; both directions may shut the stream down, so no bound of one is claimed for that.
- Connection.PlainBytesHandedOver: says nothing about TLS connections, for the reason just given.
- Lifetimes: that the settings a session refers to outlive it is not modelled.
- Beast keeps the bytes of an unfinished request partly in its parser; the model counts them in the buffer until the request is complete.
- Chunked coding of responses, which the handler never uses, is not part of `NeedEof`.
- The Windows branch of `path_cat`, and symbolic links: confinement is lexical.
- What a registered handler would send: no registered handler is ever run, so a handler is only a test on the request here.
- The listener's accept loop, handler registry classes, settings, certificate loading, the client and the service wrapper.
- HEAD responses for errors carry a body in this server; no conformance to section 9.3.2 of RFC 9110 is claimed for them.
