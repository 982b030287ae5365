/** The session as objects that callbacks update in place: the queue of responses
    waiting to be written, the handler that fills it, and the session around them. */
module HttpServer {
  import opened Messages
  import opened Functions
  import opened Handler
  import opened Pipeline
  import opened PipelineTheorems
  import opened Streams
  import opened EchoServer
  import EchoSpec = Echo
  import Framing

  /** The work items: a vector whose capacity is reserved up front. */
  class WorkQueue {
    const limit: Limit
    const stream: Stream
    var items: array<Response>
    var size: nat

    ghost predicate Valid()
      reads this
    {
      size <= items.Length && limit <= items.Length
    }

    ghost function Contents(): (q: seq<Response>)
      requires Valid()
      reads this, items
      ensures |q| == size
    {
      items[..size]
    }

    /** What it means for the next item, if any, to have been started. */
    twostate predicate StartedNext(next: seq<Response>)
      reads stream
    {
      && stream.writeOps == old(stream.writeOps) + next
      && stream.started == old(stream.started) + next
      && stream.stray == old(stream.stray) + (if next == [] || stream.connected then 0 else 1)
      && stream.readOps == old(stream.readOps)
      && stream.shutdowns == old(stream.shutdowns)
      && stream.connected == old(stream.connected)
    }

    constructor (stream: Stream, limit: Limit)
      ensures Valid() && Contents() == [] && fresh(items)
      ensures this.stream == stream && this.limit == limit && items.Length == limit
    {
      this.stream := stream;
      this.limit := limit;
      items := new Response[limit];
      size := 0;
    }

    method IsFull() returns (full: bool)
      requires Valid()
      ensures full <==> |Contents()| >= limit
    {
      full := size >= limit;
    }

    /** A message finished sending. Returns whether to begin a read. */
    method OnWrite() returns (wasFull: bool)
      requires Valid() && Contents() != []
      modifies `size, items, stream`writeOps, stream`started, stream`stray
      ensures Valid() && Contents() == old(Contents())[1..]
      ensures StartedNext(Front(Contents()))
      ensures wasFull <==> |old(Contents())| >= limit
    {
      ghost var before := Contents();
      wasFull := IsFull();
      for i := 1 to size
        invariant forall k :: 0 <= k < i - 1 ==> items[k] == before[1..][k]
        invariant forall k :: i - 1 <= k < size ==> items[k] == before[k]
        modifies items
      {
        items[i - 1] := items[i];
      }
      size := size - 1;
      if size > 0 {
        stream.AsyncWrite(items[0]);
      }
    }

    /** `msg` joined the queue, it was started if there was no previous work, and
        the storage grew only if the reserved capacity was used up. */
    twostate predicate Sent(msg: Response)
      requires old(Valid())
      reads this, items, stream
    {
      && Valid() && Contents() == old(Contents()) + [msg]
      && StartedNext(if |old(Contents())| == 0 then [msg] else [])
      && (old(size) < old(items.Length) ==> items == old(items))
    }

    /** The handler sends a response. */
    method Send(msg: Response)
      requires Valid()
      modifies `size, `items, items, stream`writeOps, stream`started, stream`stray
      ensures Sent(msg)
      ensures items == old(items) || fresh(items)
    {
      if size == items.Length {
        var larger := new Response[2 * size + 1]
          (i requires i >= 0 reads this, items => if i < size && i < items.Length then items[i] else msg);
        assert larger[..size] == items[..size];
        items := larger;
      }
      items[size] := msg;
      size := size + 1;
      if size == 1 {
        stream.AsyncWrite(items[0]);
      }
    }
  }
  // ------------------------------------------------------------------- the handler

  /** A response that explains an error. */
  method ErrorResponse(req: Request, s: Settings, status: nat, why: string) returns (res: Response)
    ensures res == Response(status, req.version, s.serviceVersion, "text/html",
                            SetKeepAlive(req.version, {}, Persistent(req)), Some(|why|), Text(why))
  {
    res := Response(status, req.version, "", "", {}, None, NoBody);
    res := res.(server := s.serviceVersion);
    res := res.(contentType := "text/html");
    res := res.(connection := SetKeepAlive(res.version, res.connection, Persistent(req)));
    res := res.(body := Text(why));
    res := res.(contentLength := Some(|why|));
  }

  /** A response for a file that could be opened. */
  method FileResponse(req: Request, s: Settings, path: string, size: nat, body: Body) returns (res: Response)
    ensures res == Response(200, req.version, s.serviceVersion, MimeType(path),
                            SetKeepAlive(req.version, {}, Persistent(req)), Some(size), body)
  {
    res := Response(200, req.version, "", "", {}, None, body);
    res := res.(server := s.serviceVersion);
    res := res.(contentType := MimeType(path));
    res := res.(contentLength := Some(size));
    res := res.(connection := SetKeepAlive(res.version, res.connection, Persistent(req)));
  }

  method DefaultResponse(docRoot: string, req: Request, file: FileOutcome, s: Settings) returns (res: Response)
    ensures res == Respond(s.(documentRoot := docRoot), Arrival(req, file))
  {
    if !req.verb.Get? && !req.verb.Head? {
      res := ErrorResponse(req, s, 400, "Unknown HTTP-method");
      return;
    }
    if req.target == "" || req.target[0] != '/' || HasDotDot(req.target) {
      res := ErrorResponse(req, s, 400, "Illegal request-target");
      return;
    }
    var path := PathCat(docRoot, req.target);
    if req.target[|req.target| - 1] == '/' {
      path := path + "index.html";
    }
    assert path == FilePath(docRoot, req.target);
    match file {
      case Missing =>
        res := ErrorResponse(req, s, 404, "The resource '" + req.target + "' was not found.");
      case Failure(message) =>
        res := ErrorResponse(req, s, 500, "An error occurred: '" + message + "'");
      case Opened(size) =>
        if req.verb.Head? {
          res := FileResponse(req, s, path, size, NoBody);
        } else {
          res := FileResponse(req, s, path, size, File(path, size));
        }
    }
  }

  /** Every path through the handler sends exactly one response. */
  method DefaultHandleRequest(docRoot: string, req: Request, file: FileOutcome, send: WorkQueue, s: Settings)
    requires send.Valid()
    modifies send`size, send`items, send.items, send.stream`writeOps, send.stream`started, send.stream`stray
    ensures send.Sent(Respond(s.(documentRoot := docRoot), Arrival(req, file)))
    ensures send.items == old(send.items) || fresh(send.items)
  {
    var res := DefaultResponse(docRoot, req, file, s);
    send.Send(res);
  }

  type HandlerFunction = Request -> bool

  /** Offers the request to each handler until one takes it. */
  method OfferToAll(handlers: seq<HandlerFunction>, req: Request) returns (handled: bool)
    ensures handled <==> exists i :: 0 <= i < |handlers| && handlers[i](req)
  {
    handled := false;
    for i := 0 to |handlers|
      invariant !handled
      invariant forall k :: 0 <= k < i ==> !handlers[k](req)
    {
      if handlers[i](req) {
        return true;
      }
    }
  }

  /** Registered handlers are only offered a request when there are none: whatever
      the registry holds, the default handler answers, with the root from the settings. */
  method HandleRequest(handlers: seq<HandlerFunction>, docRoot: string, req: Request, file: FileOutcome,
                       send: WorkQueue, s: Settings)
    requires send.Valid()
    modifies send`size, send`items, send.items, send.stream`writeOps, send.stream`started, send.stream`stray
    ensures send.Sent(Respond(s, Arrival(req, file)))
    ensures send.items == old(send.items) || fresh(send.items)
  {
    if |handlers| == 0 {
      var handled := OfferToAll(handlers, req);
      if !handled {
        DefaultHandleRequest(s.documentRoot, req, file, send, s);
      }
    } else {
      DefaultHandleRequest(s.documentRoot, req, file, send, s);
    }
  }

  // ------------------------------------------------------------------- the session

  datatype Code = Success | EndOfStream | OtherError

  /** What the request parser holds: nothing yet, a whole request, or nothing any
      more because the request was moved out. */
  datatype Parser = Empty | Complete(req: Request) | Released

  class HttpSession {
    const settings: Settings
    const docRoot: string
    const handlers: seq<HandlerFunction>
    const tls: bool
    const stream: Stream
    const queue: WorkQueue
    var parser: Parser
    var buffer: Bytes
    var handshakes: nat
    ghost var readEnd: ReadEnd
    ghost var writeEnd: WriteEnd
    ghost var handled: seq<Arrival>
    ghost var popped: seq<Response>
    ghost var written: seq<Response>
    ghost var received: Bytes
    ghost var consumed: Bytes
    ghost var requests: seq<Request>

    ghost predicate Valid()
      reads queue
    {
      queue.stream == stream && queue.Valid()
    }

    ghost function Cfg(): (c: Config)
    {
      Config(queue.limit, Shipped(settings))
    }

    /** The state of the transition system this session is in. */
    ghost function View(): (t: Session)
      requires Valid()
      reads this, queue, queue.items, stream
    {
      Session(queue.Contents(), stream.readOps, stream.writeOps, stream.shutdowns, stream.connected,
              readEnd, writeEnd, false, stream.stray, handled, stream.started, popped, written)
    }

    /** The same with the bytes it reads. */
    ghost function WireView(): (w: Framing.Wire)
      requires Valid()
      reads this, queue, queue.items, stream
    {
      Framing.Wire(View(), buffer, received, consumed, requests)
    }

    constructor (stream: Stream, buffer: Bytes, docRoot: string, handlers: seq<HandlerFunction>,
                 settings: Settings, tls: bool, limit: Limit)
      requires stream.readOps == 0 && stream.writeOps == [] && stream.shutdowns == 0
      requires stream.connected && stream.started == [] && stream.stray == 0
      ensures Valid() && WireView() == Framing.Start(buffer).(http := IDLE)
      ensures this.buffer == buffer && handshakes == 0
      ensures fresh(queue) && fresh(queue.items) && this.stream == stream
      ensures this.settings == settings && this.tls == tls && queue.limit == limit
    {
      this.settings, this.docRoot, this.handlers, this.tls := settings, docRoot, handlers, tls;
      this.stream := stream;
      queue := new WorkQueue(stream, limit);
      parser, this.buffer, handshakes := Empty, buffer, 0;
      readEnd, writeEnd := ReadOpen, WriteOpen;
      handled, popped, written := [], [], [];
      received, consumed, requests := buffer, [], [];
    }

    /** Begins a read with a parser of its own. */
    method DoRead()
      requires Valid()
      modifies `parser, stream`readOps, stream`stray
      ensures parser == Empty
      ensures View() == ArmRead(old(View()))
    {
      parser := Empty;
      stream.AsyncRead();
    }

    method DoEof()
      requires Valid()
      modifies stream`shutdowns, stream`stray
      ensures View() == Shutdown(old(View()))
    {
      stream.ShutdownSend();
    }

    /** A plain session reads at once; a TLS session does the handshake first. */
    method Launch()
      requires Valid()
      modifies `parser, `handshakes, stream`readOps, stream`stray
      ensures !tls ==> View() == ArmRead(old(View())) && handshakes == old(handshakes)
      ensures tls ==> View() == old(View()) && handshakes == old(handshakes) + 1
    {
      if tls {
        handshakes := handshakes + 1;
      } else {
        DoRead();
      }
    }

    /** After the handshake, what it used is dropped from the buffer. */
    method OnHandshake(failed: bool, used: nat)
      requires Valid() && used <= |buffer|
      modifies `parser, `buffer, `received, stream`readOps, stream`stray
      ensures failed ==> WireView() == old(WireView())
      ensures !failed ==> View() == ArmRead(old(View())) && buffer == received == old(buffer)[used..]
    {
      if failed {
        return;
      }
      buffer := buffer[used..];
      received := buffer;
      DoRead();
    }

    /** The event that a read result stands for. */
    ghost function ReadEvent(code: Code, file: FileOutcome): (e: Event)
      requires code.Success? ==> parser.Complete?
      reads `parser
    {
      match code
      case Success => ReadOk(Arrival(parser.req, file))
      case EndOfStream => ReadAtEof
      case OtherError => ReadError
    }

    /** Gives the request in the parser to the handler. */
    method Handle(file: FileOutcome)
      requires Valid() && parser.Complete?
      modifies `parser, `handled, queue`size, queue`items, queue.items
      modifies stream`writeOps, stream`started, stream`stray
      ensures Valid() && parser == Released
      ensures var a := Arrival(old(parser.req), file);
              View() == Pipeline.Send(old(View()).(handled := old(handled) + [a]), Cfg().respond(a))
      ensures |old(View()).queue| < queue.limit ==> queue.items == old(queue.items)
      ensures queue.items == old(queue.items) || fresh(queue.items)
    {
      var req := parser.req;
      parser := Released;
      handled := handled + [Arrival(req, file)];
      HandleRequest(handlers, docRoot, req, file, queue, settings);
    }

    /** A read completed. Returns the WebSocket session if the request asked for one. */
    method OnRead(code: Code, file: FileOutcome) returns (ws: EchoSession?)
      requires Valid() && (code.Success? ==> parser.Complete?)
      modifies `parser, `readEnd, `handled, queue`size, queue`items, queue.items, stream
      ensures Valid() && View() == Pipeline.OnRead(Cfg(), old(View()), old(ReadEvent(code, file)))
      ensures ws != null <==> code.Success? && IsUpgrade(old(parser).req)
      ensures ws != null ==> fresh(ws) && ws.View() == EchoSpec.Start()
      ensures ws != null ==> fresh(ws.stream) && ws.stream.connected == old(stream.connected)
      ensures |old(View()).queue| < queue.limit ==> queue.items == old(queue.items)
      ensures queue.items == old(queue.items) || fresh(queue.items)
    {
      ws := null;
      match code {
        case EndOfStream =>
          readEnd := ReadEof;
          DoEof();
        case OtherError =>
          readEnd := ReadFailed;
        case Success =>
          if IsUpgrade(parser.req) {
            readEnd := Upgraded;
            parser := Released;
            var moved := stream.Release();
            ws := new EchoSession(moved);
            ws.Launch();
            return;
          }
          Handle(file);
          var full := queue.IsFull();
          if !full {
            DoRead();
          }
      }
    }

    /** A write completed; `close` says whether its response ends the connection. */
    method OnWrite(close: bool, failed: bool)
      requires Valid() && (!close && !failed ==> queue.Contents() != [])
      modifies `parser, `writeEnd, `popped, queue`size, queue.items, stream
      ensures Valid()
      ensures View() == Pipeline.OnWrite(Cfg(), old(View()), close, if failed then WriteError else WriteOk)
    {
      if failed {
        writeEnd := WriteFailed;
        return;
      }
      if close {
        writeEnd := WriteClosed;
        DoEof();
        return;
      }
      popped := popped + [queue.Contents()[0]];
      var wasFull := queue.OnWrite();
      if wasFull {
        DoRead();
      }
    }

    /** The environment completes an outstanding operation and its callback runs.
        Each completion is the transition it stands for, so everything proved of the
        transition system holds of this object; the reserved storage is never outgrown. */
    method CompleteRead(e: Event) returns (ws: EchoSession?)
      requires Valid() && Inv(Cfg(), View()) && Enabled(View(), e) && !e.WriteOk? && !e.WriteError?
      modifies `parser, `readEnd, `handled, queue`size, queue`items, queue.items, stream
      ensures Valid() && View() == Step(Cfg(), old(View()), e) && Inv(Cfg(), View())
      ensures ws != null <==> e.ReadOk? && IsUpgrade(e.arrival.req)
      ensures ws != null ==> fresh(ws) && ws.View() == EchoSpec.Start()
      ensures queue.items == old(queue.items)
    {
      StepKeepsInv(Cfg(), View(), e);
      stream.readOps := stream.readOps - 1;
      match e {
        case ReadOk(a) =>
          parser := Complete(a.req);
          ws := OnRead(Success, a.file);
        case ReadAtEof => ws := OnRead(EndOfStream, Missing);
        case ReadError => ws := OnRead(OtherError, Missing);
      }
    }

    method CompleteWrite(e: Event)
      requires Valid() && Inv(Cfg(), View()) && Enabled(View(), e) && (e.WriteOk? || e.WriteError?)
      modifies `parser, `writeEnd, `popped, `written, queue`size, queue.items, stream
      ensures Valid() && View() == Step(Cfg(), old(View()), e) && Inv(Cfg(), View())
    {
      StepKeepsInv(Cfg(), View(), e);
      var m := stream.writeOps[0];
      stream.writeOps := stream.writeOps[1..];
      if e.WriteOk? {
        written := written + [m];
      }
      OnWrite(NeedEof(m), e.WriteError?);
    }

    /** The stream delivers bytes to the outstanding read. */
    method ReceiveChunk(parse: Framing.RequestParser, bytes: Bytes)
      requires Valid() && Framing.Enabled(parse, WireView(), Framing.Chunk(bytes))
      modifies `buffer, `received
      ensures WireView() == Framing.Step(Cfg(), parse, old(WireView()), Framing.Chunk(bytes))
    {
      buffer := buffer + bytes;
      received := received + bytes;
    }

    /** The library takes a request off the front of the buffer. */
    method Consume(req: Request, size: nat)
      requires Valid() && size <= |buffer|
      modifies `buffer, `consumed, `requests
      ensures WireView() == old(WireView()).(buffer := old(buffer)[size..],
                                             consumed := old(consumed) + old(buffer)[..size],
                                             requests := old(requests) + [req])
    {
      consumed := consumed + buffer[..size];
      requests := requests + [req];
      buffer := buffer[size..];
    }

    /** The outstanding read finds a whole request at the front of the buffer. */
    method ReceiveRequest(parse: Framing.RequestParser, file: FileOutcome) returns (ws: EchoSession?)
      requires Valid() && Inv(Cfg(), View()) && Framing.Enabled(parse, WireView(), Framing.Deliver(file))
      modifies `buffer, `consumed, `requests
      modifies `parser, `readEnd, `handled, queue`size, queue`items, queue.items, stream
      ensures Valid() && Inv(Cfg(), View())
      ensures WireView() == Framing.Step(Cfg(), parse, old(WireView()), Framing.Deliver(file))
    {
      var Whole(req, size) := parse(buffer);
      Consume(req, size);
      ws := CompleteRead(ReadOk(Arrival(req, file)));
    }
  }
}
