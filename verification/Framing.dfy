/** The session together with the bytes it reads: how requests are cut out of the
    byte stream, whatever chunks the stream arrives in. */
module Framing {
  import opened Messages
  import opened Handler
  import opened Pipeline
  import opened PipelineTheorems
  import opened Sequences

  // --------------------------------------------------------------------- the parser

  /** What a parser makes of the bytes in the buffer: a request is complete and
      takes up the first `size` of them, or more are needed, or there never will be one. */
  datatype Parsed = NeedMore | Whole(req: Request, size: nat) | Malformed

  type RequestParser = Bytes -> Parsed

  ghost predicate Takes(parse: RequestParser, b: Bytes)
  {
    parse(b).Whole? ==> 0 < parse(b).size <= |b|
  }

  ghost predicate Stable(parse: RequestParser, b: Bytes, more: Bytes)
  {
    !parse(b).NeedMore? ==> parse(b + more) == parse(b)
  }

  /** Bytes that arrive later never change what earlier ones meant. */
  ghost predicate PrefixStable(parse: RequestParser)
  {
    && (forall b: Bytes :: Takes(parse, b))
    && (forall b: Bytes, more: Bytes :: Stable(parse, b, more))
  }

  /** The requests at the front of a byte sequence, and the bytes after them. */
  ghost function Requests(parse: RequestParser, b: Bytes): (reqs: seq<Request>)
    requires PrefixStable(parse)
    decreases |b|
  {
    assert Takes(parse, b);
    match parse(b)
    case Whole(req, size) => [req] + Requests(parse, b[size..])
    case _ => []
  }

  ghost function Remainder(parse: RequestParser, b: Bytes): (r: Bytes)
    requires PrefixStable(parse)
    decreases |b|
  {
    assert Takes(parse, b);
    match parse(b)
    case Whole(_, size) => Remainder(parse, b[size..])
    case _ => b
  }

  lemma {:induction false} ParseMore(parse: RequestParser, b: Bytes, more: Bytes)
    requires PrefixStable(parse)
    ensures Requests(parse, b + more)
         == Requests(parse, b) + Requests(parse, Remainder(parse, b) + more)
    ensures Remainder(parse, b + more) == Remainder(parse, Remainder(parse, b) + more)
    decreases |b|
  {
    assert Takes(parse, b) && Stable(parse, b, more);
    if parse(b).Whole? {
      var size, rest := parse(b).size, b[parse(b).size..];
      assert (b + more)[size..] == rest + more;
      ParseMore(parse, rest, more);
      Associate([parse(b).req], Requests(parse, rest), Requests(parse, Remainder(parse, rest) + more));
    }
  }

  // ------------------------------------------------------------ the transition system

  datatype Wire = Wire(
    http: Session,
    buffer: Bytes,             // read but not consumed
    received: Bytes,           // everything the stream has delivered
    consumed: Bytes,           // the bytes of the requests delivered
    requests: seq<Request>)    // the requests delivered, an upgrade included

  datatype Event =
    | Chunk(bytes: Bytes)            // the stream delivers bytes to the outstanding read
    | Deliver(file: FileOutcome)     // the outstanding read completes with a request
    | Reject                         // ... or with a parse error
    | EndOfStream | Failed           // ... or with the end of the stream or an error
    | WriteOk | WriteError

  /** A read asks the stream for more only while the buffer holds no whole request. */
  predicate Enabled(parse: RequestParser, w: Wire, e: Event)
  {
    match e
    case Chunk(_) => w.http.readOps > 0 && parse(w.buffer).NeedMore?
    case Deliver(_) => w.http.readOps > 0 && parse(w.buffer).Whole? && parse(w.buffer).size <= |w.buffer|
    case Reject => w.http.readOps > 0 && parse(w.buffer).Malformed?
    case EndOfStream => w.http.readOps > 0 && parse(w.buffer).NeedMore?
    case Failed => w.http.readOps > 0
    case WriteOk => w.http.writeOps != []
    case WriteError => w.http.writeOps != []
  }

  /** The session event that completes, if any. The end of the stream in the middle
      of a message is an error. */
  function SessionEvent(parse: RequestParser, w: Wire, e: Event): (p: Option<Pipeline.Event>)
    requires Enabled(parse, w, e)
  {
    match e
    case Chunk(_) => None
    case Deliver(file) => Some(ReadOk(Arrival(parse(w.buffer).req, file)))
    case Reject => Some(ReadError)
    case EndOfStream => Some(if w.buffer == [] then ReadAtEof else ReadError)
    case Failed => Some(ReadError)
    case WriteOk => Some(Pipeline.WriteOk)
    case WriteError => Some(Pipeline.WriteError)
  }

  function Step(c: Config, parse: RequestParser, w: Wire, e: Event): (t: Wire)
    requires Enabled(parse, w, e)
  {
    match SessionEvent(parse, w, e)
    case None => w.(buffer := w.buffer + e.bytes, received := w.received + e.bytes)
    case Some(se) =>
      var v := w.(http := Pipeline.Step(c, w.http, se));
      if e.Deliver? then
        var Whole(req, size) := parse(w.buffer);
        v.(buffer := w.buffer[size..], consumed := w.consumed + w.buffer[..size], requests := w.requests + [req])
      else v
  }

  /** A session starts with the bytes that were read to find out its kind. */
  function Start(detected: Bytes): (t: Wire)
  {
    Wire(Pipeline.Start(), detected, detected, [], [])
  }

  predicate Schedule(c: Config, parse: RequestParser, w: Wire, es: seq<Event>)
    decreases es
  {
    es == [] || (Enabled(parse, w, es[0]) && Schedule(c, parse, Step(c, parse, w, es[0]), es[1..]))
  }

  function Run(c: Config, parse: RequestParser, w: Wire, es: seq<Event>): (t: Wire)
    requires Schedule(c, parse, w, es)
    decreases es
  {
    if es == [] then w else Run(c, parse, Step(c, parse, w, es[0]), es[1..])
  }

  // -------------------------------------------------------------------- invariant

  /** The requests handled are the requests delivered, but for an upgrade, which
      is the last one delivered. */
  ghost predicate Matches(w: Wire)
  {
    && |w.requests| == |w.http.handled| + (if w.http.readEnd.Upgraded? then 1 else 0)
    && (forall i :: 0 <= i < |w.http.handled| ==> w.http.handled[i].req == w.requests[i])
    && (w.http.readEnd.Upgraded? ==> IsUpgrade(w.requests[|w.requests| - 1]))
  }

  ghost predicate Framed(parse: RequestParser, w: Wire)
    requires PrefixStable(parse)
  {
    && w.received == w.consumed + w.buffer
    && Requests(parse, w.received) == w.requests + Requests(parse, w.buffer)
    && Remainder(parse, w.received) == Remainder(parse, w.buffer)
  }

  ghost predicate Inv(c: Config, parse: RequestParser, w: Wire)
    requires PrefixStable(parse)
  {
    && Pipeline.Inv(c, w.http)
    && Matches(w)
    && Framed(parse, w)
    && (w.http.readEnd.ReadEof? ==> w.buffer == [])
  }

  lemma ChunkKeepsInv(c: Config, parse: RequestParser, w: Wire, bytes: Bytes)
    requires PrefixStable(parse) && Inv(c, parse, w) && Enabled(parse, w, Chunk(bytes))
    ensures Inv(c, parse, Step(c, parse, w, Chunk(bytes)))
  {
    ParseMore(parse, w.received, bytes);
    assert w.requests + [] == w.requests;
    Associate(w.consumed, w.buffer, bytes);
  }

  lemma DeliverKeepsFraming(c: Config, parse: RequestParser, w: Wire, file: FileOutcome)
    requires PrefixStable(parse) && Framed(parse, w) && Enabled(parse, w, Deliver(file))
    ensures Framed(parse, Step(c, parse, w, Deliver(file)))
  {
    assert Takes(parse, w.buffer);
    var Whole(req, size) := parse(w.buffer);
    assert w.buffer == w.buffer[..size] + w.buffer[size..];
    Associate(w.consumed, w.buffer[..size], w.buffer[size..]);
    Associate(w.requests, [req], Requests(parse, w.buffer[size..]));
  }

  lemma DeliverKeepsMatch(c: Config, parse: RequestParser, w: Wire, file: FileOutcome)
    requires Pipeline.Inv(c, w.http) && Matches(w) && Enabled(parse, w, Deliver(file))
    ensures Matches(Step(c, parse, w, Deliver(file)))
  {
    var a := Arrival(parse(w.buffer).req, file);
    if !IsUpgrade(a.req) {
      ReadOkEffect(c, w.http, a);
    }
  }

  lemma OtherKeepsMatch(c: Config, parse: RequestParser, w: Wire, e: Event)
    requires Pipeline.Inv(c, w.http) && Matches(w) && Enabled(parse, w, e) && !e.Chunk? && !e.Deliver?
    ensures Matches(Step(c, parse, w, e))
  {
    if e.WriteOk? {
      WriteOkEffect(c, w.http);
    }
  }

  lemma StepKeepsInv(c: Config, parse: RequestParser, w: Wire, e: Event)
    requires PrefixStable(parse) && Inv(c, parse, w) && Enabled(parse, w, e)
    ensures Inv(c, parse, Step(c, parse, w, e))
  {
    if e.Chunk? {
      ChunkKeepsInv(c, parse, w, e.bytes);
    } else {
      Pipeline.StepKeepsInv(c, w.http, SessionEvent(parse, w, e).value);
      if e.Deliver? {
        DeliverKeepsFraming(c, parse, w, e.file);
        DeliverKeepsMatch(c, parse, w, e.file);
      } else {
        OtherKeepsMatch(c, parse, w, e);
      }
    }
  }

  lemma {:induction false} RunKeepsInv(c: Config, parse: RequestParser, w: Wire, es: seq<Event>)
    requires PrefixStable(parse) && Inv(c, parse, w) && Schedule(c, parse, w, es)
    ensures Inv(c, parse, Run(c, parse, w, es))
    decreases es
  {
    if es == [] {
    } else {
      StepKeepsInv(c, parse, w, es[0]);
      RunKeepsInv(c, parse, Step(c, parse, w, es[0]), es[1..]);
    }
  }

  lemma StartInv(c: Config, parse: RequestParser, detected: Bytes)
    requires PrefixStable(parse)
    ensures Inv(c, parse, Start(detected))
  {
    Pipeline.StartInv(c);
    assert [] + detected == detected;
    assert [] + Requests(parse, detected) == Requests(parse, detected);
  }

  // ------------------------------------------------------------------ main results

  /** No byte is lost, duplicated or reordered: what the stream delivered, from the
      detector's first byte on, is what the requests took up followed by the buffer. */
  lemma BytesConserved(c: Config, parse: RequestParser, detected: Bytes, es: seq<Event>)
    requires PrefixStable(parse) && Schedule(c, parse, Start(detected), es)
    ensures var w := Run(c, parse, Start(detected), es);
            w.received == w.consumed + w.buffer && detected <= w.received
  {
    StartInv(c, parse, detected);
    RunKeepsInv(c, parse, Start(detected), es);
    ReceivedGrows(c, parse, Start(detected), es);
  }

  lemma {:induction false} ReceivedGrows(c: Config, parse: RequestParser, w: Wire, es: seq<Event>)
    requires Schedule(c, parse, w, es)
    ensures w.received <= Run(c, parse, w, es).received
    decreases es
  {
    if es == [] {
    } else {
      ReceivedGrows(c, parse, Step(c, parse, w, es[0]), es[1..]);
    }
  }

  /** The read waits for bytes that have not arrived. */
  predicate Starved(parse: RequestParser, w: Wire)
  {
    w.http.readOps > 0 && parse(w.buffer).NeedMore?
  }

  lemma RequestsInStream(c: Config, parse: RequestParser, w: Wire, stream: Bytes)
    requires PrefixStable(parse) && Inv(c, parse, w) && w.received <= stream
    ensures w.requests <= Requests(parse, stream)
  {
    var more := stream[|w.received|..];
    assert stream == w.received + more;
    ParseMore(parse, w.received, more);
    Associate(w.requests, Requests(parse, w.buffer), Requests(parse, Remainder(parse, w.received) + more));
  }

  /** The requests delivered are those at the front of the byte stream, whatever the
      chunks, the split between detector and session, or the timing of writes; all
      of them once the read is starved. */
  lemma RequestsAreFramed(c: Config, parse: RequestParser, detected: Bytes, es: seq<Event>, stream: Bytes)
    requires PrefixStable(parse) && Schedule(c, parse, Start(detected), es)
    requires Run(c, parse, Start(detected), es).received <= stream
    ensures var w := Run(c, parse, Start(detected), es);
            && w.requests <= Requests(parse, stream)
            && (Starved(parse, w) && w.received == stream ==> w.requests == Requests(parse, stream))
  {
    StartInv(c, parse, detected);
    RunKeepsInv(c, parse, Start(detected), es);
    RequestsInStream(c, parse, Run(c, parse, Start(detected), es), stream);
  }

  /** The read side ends gracefully only between messages: every byte delivered was
      taken up by a request, and every request was handled. */
  lemma GracefulEndBetweenMessages(c: Config, parse: RequestParser, detected: Bytes, es: seq<Event>)
    requires PrefixStable(parse) && Schedule(c, parse, Start(detected), es)
    requires Run(c, parse, Start(detected), es).http.readEnd.ReadEof?
    ensures var w := Run(c, parse, Start(detected), es);
            && w.received == w.consumed
            && w.requests == Requests(parse, w.received)
            && |w.http.handled| == |w.requests|
  {
    StartInv(c, parse, detected);
    RunKeepsInv(c, parse, Start(detected), es);
    var w := Run(c, parse, Start(detected), es);
    assert Takes(parse, []);
    assert Requests(parse, []) == [];
  }

  /** How an event ends the read side, and which shutdown follows: the end of the stream
      is graceful exactly between messages and is the only event to shut down; a parse
      error, an error and an end inside a message are read errors. */
  lemma HowReadingEnds(c: Config, parse: RequestParser, w: Wire, e: Event)
    requires PrefixStable(parse) && Inv(c, parse, w) && Enabled(parse, w, e)
    requires e.EndOfStream? || e.Reject? || e.Failed?
    ensures var t := Step(c, parse, w, e);
            && (t.http.readEnd.ReadEof? <==> e.EndOfStream? && w.buffer == [])
            && (t.http.readEnd.ReadFailed? <==> !(e.EndOfStream? && w.buffer == []))
            && t.http.shutdowns == w.http.shutdowns + (if e.EndOfStream? && w.buffer == [] then 1 else 0)
            && t.http.handled == w.http.handled && t.buffer == w.buffer
  {
    StepByEvent(c, w.http, SessionEvent(parse, w, e).value);
  }

  lemma OneDelivered(c: Config, parse: RequestParser, bytes: Bytes, file: FileOutcome)
    requires PrefixStable(parse) && c.limit >= 2
    requires parse(bytes).Whole? && parse(bytes).size == |bytes| && !IsUpgrade(parse(bytes).req)
    ensures Enabled(parse, Start(bytes), Deliver(file))
    ensures var u := Step(c, parse, Start(bytes), Deliver(file));
            && Inv(c, parse, u) && u.buffer == []
            && u.http.readOps == 1 && u.http.shutdowns == 0 && |u.http.handled| == 1
  {
    StartInv(c, parse, bytes);
    ReadOkEffect(c, Pipeline.Start(), Arrival(parse(bytes).req, file));
    StepKeepsInv(c, parse, Start(bytes), Deliver(file));
  }

  /** A client that sends one request and then half-closes ends a run gracefully. */
  lemma GracefulEndReached(c: Config, parse: RequestParser, bytes: Bytes, file: FileOutcome) returns (es: seq<Event>)
    requires PrefixStable(parse) && parse([]).NeedMore? && c.limit >= 2
    requires parse(bytes).Whole? && parse(bytes).size == |bytes| && !IsUpgrade(parse(bytes).req)
    ensures es == [Deliver(file), EndOfStream] && Schedule(c, parse, Start(bytes), es)
    ensures var w := Run(c, parse, Start(bytes), es);
            w.http.readEnd.ReadEof? && w.http.shutdowns == 1 && |w.http.handled| == 1
  {
    OneDelivered(c, parse, bytes, file);
    var u := Step(c, parse, Start(bytes), Deliver(file));
    HowReadingEnds(c, parse, u, EndOfStream);
    ScheduleCons(c, parse, u, EndOfStream, []);
    ScheduleCons(c, parse, Start(bytes), Deliver(file), [EndOfStream]);
    es := [Deliver(file)] + [EndOfStream];
  }

  function BytesIn(e: Event): (b: Bytes)
  {
    if e.Chunk? then e.bytes else []
  }

  function Chunks(es: seq<Event>): (b: Bytes)
  {
    if es == [] then [] else BytesIn(es[0]) + Chunks(es[1..])
  }

  lemma StepByEventReceives(c: Config, parse: RequestParser, w: Wire, e: Event)
    requires Enabled(parse, w, e)
    ensures Step(c, parse, w, e).received == w.received + BytesIn(e)
  {
  }

  /** Nothing but chunks brings bytes, and no chunk is dropped. */
  lemma {:induction false} ReceivedByEvents(c: Config, parse: RequestParser, w: Wire, es: seq<Event>)
    requires Schedule(c, parse, w, es)
    ensures Run(c, parse, w, es).received == w.received + Chunks(es)
    decreases es
  {
    if es == [] {
    } else {
      StepByEventReceives(c, parse, w, es[0]);
      ReceivedByEvents(c, parse, Step(c, parse, w, es[0]), es[1..]);
      Associate(w.received, BytesIn(es[0]), Chunks(es[1..]));
    }
  }

  /** Every run on bytes is, for the session, a run of the pipeline, so what is
      proved of all those holds here. */
  lemma {:induction false} RunProjects(c: Config, parse: RequestParser, w: Wire, es: seq<Event>)
    returns (ps: seq<Pipeline.Event>)
    requires Schedule(c, parse, w, es)
    ensures Pipeline.Schedule(c, w.http, ps)
    ensures Pipeline.Run(c, w.http, ps) == Run(c, parse, w, es).http
    decreases es
  {
    if es == [] {
      return [];
    }
    ps := RunProjects(c, parse, Step(c, parse, w, es[0]), es[1..]);
    var p := SessionEvent(parse, w, es[0]);
    if p.Some? {
      Pipeline.ScheduleCons(c, w.http, p.value, ps);
      ps := [p.value] + ps;
    }
  }

  /** The files answered as `files` says. */
  ghost predicate Files(files: Request -> FileOutcome, w: Wire)
  {
    forall i :: 0 <= i < |w.http.handled| ==> w.http.handled[i].file == files(w.http.handled[i].req)
  }

  /** What two runs on one stream handled differs at most in length. */
  lemma HandledComparable(c1: Config, c2: Config, parse: RequestParser, w1: Wire, w2: Wire,
                          files: Request -> FileOutcome, all: seq<Request>)
    requires PrefixStable(parse) && Inv(c1, parse, w1) && Inv(c2, parse, w2)
    requires Files(files, w1) && Files(files, w2)
    requires w1.requests <= all && w2.requests <= all
    requires |w1.http.handled| <= |w2.http.handled|
    ensures w1.http.handled <= w2.http.handled
  {
    forall i | 0 <= i < |w1.http.handled|
      ensures w1.http.handled[i] == w2.http.handled[i]
    {
      assert w1.http.handled[i].req == w1.requests[i] == all[i];
      assert w2.http.handled[i].req == w2.requests[i] == all[i];
    }
  }

  lemma WrittenComparable(c1: Config, c2: Config, parse: RequestParser, w1: Wire, w2: Wire,
                          files: Request -> FileOutcome, stream: Bytes)
    requires PrefixStable(parse) && Inv(c1, parse, w1) && Inv(c2, parse, w2) && c1.respond == c2.respond
    requires Files(files, w1) && Files(files, w2)
    requires w1.received <= stream && w2.received <= stream
    requires |w1.http.handled| <= |w2.http.handled|
    ensures Comparable(w1.http.written, w2.http.written)
  {
    RequestsInStream(c1, parse, w1, stream);
    RequestsInStream(c2, parse, w2, stream);
    HandledComparable(c1, c2, parse, w1, w2, files, Requests(parse, stream));
    WrittenVersusServed(c1, w1.http);
    WrittenVersusServed(c2, w2.http);
    ServeMono(c1.respond, w1.http.handled, w2.http.handled);
  }

  /** One of them is the beginning of the other. */
  predicate Comparable(a: seq<Response>, b: seq<Response>)
  {
    a <= b || b <= a
  }

  lemma SameStreamComparable(c1: Config, c2: Config, parse: RequestParser, w1: Wire, w2: Wire,
                             files: Request -> FileOutcome, stream: Bytes)
    requires PrefixStable(parse) && Inv(c1, parse, w1) && Inv(c2, parse, w2) && c1.respond == c2.respond
    requires Files(files, w1) && Files(files, w2)
    requires w1.received <= stream && w2.received <= stream
    ensures Comparable(w1.http.written, w2.http.written)
  {
    if |w1.http.handled| <= |w2.http.handled| {
      WrittenComparable(c1, c2, parse, w1, w2, files, stream);
    } else {
      WrittenComparable(c2, c1, parse, w2, w1, files, stream);
    }
  }

  /** However two connections with one byte stream went, and however they ended, by the
      end of the stream, an error, an upgrade, a close or not at all: what one of them
      has written is the beginning of what the other has. */
  lemma BytesOrderResponses(c1: Config, c2: Config, parse: RequestParser,
                            detected1: Bytes, detected2: Bytes, es1: seq<Event>, es2: seq<Event>,
                            stream: Bytes, files: Request -> FileOutcome)
    requires PrefixStable(parse) && c1.respond == c2.respond
    requires Schedule(c1, parse, Start(detected1), es1) && Schedule(c2, parse, Start(detected2), es2)
    requires var w1, w2 := Run(c1, parse, Start(detected1), es1), Run(c2, parse, Start(detected2), es2);
             && w1.received <= stream && w2.received <= stream
             && Files(files, w1) && Files(files, w2)
    ensures Comparable(Run(c1, parse, Start(detected1), es1).http.written,
                       Run(c2, parse, Start(detected2), es2).http.written)
  {
    StartInv(c1, parse, detected1);
    StartInv(c2, parse, detected2);
    RunKeepsInv(c1, parse, Start(detected1), es1);
    RunKeepsInv(c2, parse, Start(detected2), es2);
    var w1, w2 := Run(c1, parse, Start(detected1), es1), Run(c2, parse, Start(detected2), es2);
    SameStreamComparable(c1, c2, parse, w1, w2, files, stream);
  }

  /** Finished with a byte stream: closed, or every request in it handled and
      every response written. */
  predicate Finished(parse: RequestParser, w: Wire, stream: Bytes)
  {
    && w.received <= stream
    && (w.http.writeEnd.WriteClosed? || (Starved(parse, w) && w.received == stream && w.http.queue == []))
  }

  lemma FinishedIsDone(c: Config, parse: RequestParser, w: Wire, stream: Bytes, input: seq<Arrival>)
    requires PrefixStable(parse) && Inv(c, parse, w) && Finished(parse, w, stream)
    requires w.http.handled <= input
    requires Starved(parse, w) && w.received == stream ==> |input| <= |w.http.handled|
    ensures w.http.written == Serve(c.respond, input)
  {
    DoneWritesAll(c, w.http, input);
  }

  lemma FinishedWriteSame(c1: Config, c2: Config, parse: RequestParser, w1: Wire, w2: Wire,
                          stream: Bytes, files: Request -> FileOutcome)
    requires PrefixStable(parse) && c1.respond == c2.respond
    requires Inv(c1, parse, w1) && Finished(parse, w1, stream) && Files(files, w1)
    requires Inv(c2, parse, w2) && Finished(parse, w2, stream) && Files(files, w2)
    requires |w1.http.handled| <= |w2.http.handled|
    ensures w1.http.written == w2.http.written
  {
    RequestsInStream(c1, parse, w1, stream);
    RequestsInStream(c2, parse, w2, stream);
    HandledComparable(c1, c2, parse, w1, w2, files, Requests(parse, stream));
    FinishedIsDone(c1, parse, w1, stream, w2.http.handled);
    FinishedIsDone(c2, parse, w2, stream, w2.http.handled);
  }

  lemma SameStreamSameResponses(c1: Config, c2: Config, parse: RequestParser, w1: Wire, w2: Wire,
                                stream: Bytes, files: Request -> FileOutcome)
    requires PrefixStable(parse) && c1.respond == c2.respond
    requires Inv(c1, parse, w1) && Finished(parse, w1, stream) && Files(files, w1)
    requires Inv(c2, parse, w2) && Finished(parse, w2, stream) && Files(files, w2)
    ensures w1.http.written == w2.http.written
  {
    if |w1.http.handled| <= |w2.http.handled| {
      FinishedWriteSame(c1, c2, parse, w1, w2, stream, files);
    } else {
      FinishedWriteSame(c2, c1, parse, w2, w1, stream, files);
    }
  }

  /** From bytes in to responses out: over one file system, two connections that
      finished with the same byte stream have written the same responses, whatever
      the chunks, the interleavings and the limits. */
  lemma BytesDetermineResponses(c1: Config, c2: Config, parse: RequestParser,
                                detected1: Bytes, detected2: Bytes, es1: seq<Event>, es2: seq<Event>,
                                stream: Bytes, files: Request -> FileOutcome)
    requires PrefixStable(parse) && c1.respond == c2.respond
    requires Schedule(c1, parse, Start(detected1), es1) && Schedule(c2, parse, Start(detected2), es2)
    requires var w1, w2 := Run(c1, parse, Start(detected1), es1), Run(c2, parse, Start(detected2), es2);
             && Finished(parse, w1, stream) && Finished(parse, w2, stream)
             && Files(files, w1) && Files(files, w2)
    ensures Run(c1, parse, Start(detected1), es1).http.written
         == Run(c2, parse, Start(detected2), es2).http.written
  {
    StartInv(c1, parse, detected1);
    StartInv(c2, parse, detected2);
    RunKeepsInv(c1, parse, Start(detected1), es1);
    RunKeepsInv(c2, parse, Start(detected2), es2);
    var w1, w2 := Run(c1, parse, Start(detected1), es1), Run(c2, parse, Start(detected2), es2);
    SameStreamSameResponses(c1, c2, parse, w1, w2, stream, files);
  }

  lemma ScheduleCons(c: Config, parse: RequestParser, w: Wire, e: Event, es: seq<Event>)
    requires Enabled(parse, w, e) && Schedule(c, parse, Step(c, parse, w, e), es)
    ensures Schedule(c, parse, w, [e] + es) && Run(c, parse, w, [e] + es) == Run(c, parse, Step(c, parse, w, e), es)
  {
    assert ([e] + es)[1..] == es;
  }

  /** One request cut from the buffer, handled and answered. */
  lemma ServeOne(c: Config, parse: RequestParser, w: Wire, file: FileOutcome)
    requires PrefixStable(parse) && Inv(c, parse, w)
    requires Live(w.http) && w.http.queue == [] && parse(w.buffer).Whole? && !IsUpgrade(parse(w.buffer).req)
    ensures Enabled(parse, w, Deliver(file)) && Enabled(parse, Step(c, parse, w, Deliver(file)), Event.WriteOk)
    ensures var v := Step(c, parse, Step(c, parse, w, Deliver(file)), Event.WriteOk);
            && Inv(c, parse, v) && v.received == w.received
            && v.buffer == w.buffer[parse(w.buffer).size..] && |v.buffer| < |w.buffer|
            && v.http.handled == w.http.handled + [Arrival(parse(w.buffer).req, file)]
            && (v.http.writeEnd.WriteClosed? || (Live(v.http) && v.http.queue == []))
  {
    assert Takes(parse, w.buffer);
    Exchange(c, w.http, Arrival(parse(w.buffer).req, file));
    StepKeepsInv(c, parse, w, Deliver(file));
    StepKeepsInv(c, parse, Step(c, parse, w, Deliver(file)), Event.WriteOk);
  }

  /** A byte stream with neither a malformed request nor an upgrade can be finished
      with: some schedule handles and answers all of it, or closes. */
  lemma {:induction false} SomeRunFinishes(c: Config, parse: RequestParser, w: Wire, files: Request -> FileOutcome)
    returns (es: seq<Event>)
    requires PrefixStable(parse) && Inv(c, parse, w) && Live(w.http) && w.http.queue == []
    requires parse(Remainder(parse, w.buffer)).NeedMore?
    requires forall req <- Requests(parse, w.buffer) :: !IsUpgrade(req)
    requires Files(files, w)
    ensures Schedule(c, parse, w, es)
    ensures Finished(parse, Run(c, parse, w, es), w.received) && Files(files, Run(c, parse, w, es))
    decreases |w.buffer|
  {
    if parse(w.buffer).NeedMore? {
      return [];
    }
    var req := parse(w.buffer).req;
    assert req == Requests(parse, w.buffer)[0];
    var d := Deliver(files(req));
    ServeOne(c, parse, w, files(req));
    var u := Step(c, parse, w, d);
    var v := Step(c, parse, u, Event.WriteOk);
    var rest := [];
    if !v.http.writeEnd.WriteClosed? {
      rest := SomeRunFinishes(c, parse, v, files);
    }
    ScheduleCons(c, parse, u, Event.WriteOk, rest);
    ScheduleCons(c, parse, w, d, [Event.WriteOk] + rest);
    es := [d] + ([Event.WriteOk] + rest);
  }
}
