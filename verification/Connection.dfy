/** A connection from accept to WebSocket: the detector, an optional TLS handshake,
    the HTTP session and, after an upgrade, the WebSocket session beside what is
    left of the HTTP session. */
module Connection {
  import opened Messages
  import opened Pipeline
  import opened PipelineTheorems
  import opened PipelineReach
  import opened Handler
  import opened Sequences
  import Framing
  import Echo

  /** What the detector makes of the bytes so far: undecided, or whether they
      begin a TLS handshake. */
  type Detector = Bytes -> Option<bool>

  datatype Phase =
    | Detecting(seen: Bytes)
    | Handshaking(seen: Bytes)
    | Serving(tls: bool, wire: Framing.Wire)
    | Switched(tls: bool, wire: Framing.Wire, echo: Echo.Channel)
    | Stopped

  /** `delivered` is everything the socket has delivered; for TLS connections
      nothing is said about it past the detector. */
  datatype Conn = Conn(
    phase: Phase,
    detections: nat,          // detector reads outstanding
    handshakes: nat,          // TLS handshakes outstanding
    delivered: Bytes)

  datatype Event =
    | DetectBytes(bytes: Bytes) | Detected | DetectFailed
    | HandshakeDone(used: nat) | HandshakeFailed
    | Http(http: Framing.Event)
    | WebSocket(ws: Echo.Event)

  datatype Env = Env(config: Config, parse: Framing.RequestParser, detect: Detector)

  /** An accepted connection begins to detect. */
  function Accepted(): (t: Conn)
  {
    Conn(Detecting([]), 1, 0, [])
  }

  predicate Enabled(v: Env, s: Conn, e: Event)
  {
    match (e, s.phase)
    case (DetectBytes(_), Detecting(seen)) => s.detections > 0 && v.detect(seen).None?
    case (Detected, Detecting(seen)) => s.detections > 0 && v.detect(seen).Some?
    case (DetectFailed, Detecting(_)) => s.detections > 0
    case (HandshakeDone(used), Handshaking(seen)) => s.handshakes > 0 && used <= |seen|
    case (HandshakeFailed, Handshaking(_)) => s.handshakes > 0
    case (Http(h), Serving(_, wire)) => Framing.Enabled(v.parse, wire, h)
    case (Http(h), Switched(_, wire, _)) => Framing.Enabled(v.parse, wire, h)
    case (WebSocket(w), Switched(_, _, echo)) => Echo.Enabled(echo, w)
    case _ => false
  }

  /** The stream and the bytes read so far go to the session the detector chose. A
      TLS session begins its handshake, a plain one its first read. */
  function OnDetect(s: Conn, seen: Bytes, tls: bool): (t: Conn)
  {
    if tls then s.(phase := Handshaking(seen), handshakes := s.handshakes + 1)
    else s.(phase := Serving(false, Framing.Start(seen)))
  }

  /** An upgrade moves the stream to a new WebSocket session. */
  function AfterHttp(s: Conn, tls: bool, wire: Framing.Wire): (t: Conn)
  {
    s.(phase := if wire.http.readEnd.Upgraded? then Switched(tls, wire, Echo.Start()) else Serving(tls, wire))
  }

  function HttpStep(v: Env, s: Conn, h: Framing.Event): (t: Conn)
    requires Enabled(v, s, Http(h))
  {
    var t := if h.Chunk? then s.(delivered := s.delivered + h.bytes) else s;
    var wire := Framing.Step(v.config, v.parse, s.phase.wire, h);
    if s.phase.Serving? then AfterHttp(t, s.phase.tls, wire)
    else t.(phase := Switched(s.phase.tls, wire, s.phase.echo))
  }

  function Step(v: Env, s: Conn, e: Event): (t: Conn)
    requires Enabled(v, s, e)
  {
    match e
    case DetectBytes(bytes) => s.(phase := Detecting(s.phase.seen + bytes), delivered := s.delivered + bytes)
    case Detected =>
      OnDetect(s.(detections := s.detections - 1), s.phase.seen, v.detect(s.phase.seen).value)
    case DetectFailed => s.(phase := Stopped, detections := s.detections - 1)
    case HandshakeDone(used) =>
      s.(phase := Serving(true, Framing.Start(s.phase.seen[used..])), handshakes := s.handshakes - 1)
    case HandshakeFailed => s.(phase := Stopped, handshakes := s.handshakes - 1)
    case Http(h) => HttpStep(v, s, h)
    case WebSocket(w) => s.(phase := Switched(s.phase.tls, s.phase.wire, Echo.Step(s.phase.echo, w)))
  }

  predicate Schedule(v: Env, s: Conn, es: seq<Event>)
    decreases es
  {
    es == [] || (Enabled(v, s, es[0]) && Schedule(v, Step(v, s, es[0]), es[1..]))
  }

  function Run(v: Env, s: Conn, es: seq<Event>): (t: Conn)
    requires Schedule(v, s, es)
    decreases es
  {
    if es == [] then s else Run(v, Step(v, s, es[0]), es[1..])
  }

  // ----------------------------------------------------- operations on the connection

  /** Reads outstanding, over all components; a handshake both reads and writes. */
  function Reads(s: Conn): (n: nat)
  {
    s.detections + s.handshakes +
    match s.phase
    case Serving(_, wire) => wire.http.readOps
    case Switched(_, wire, echo) => wire.http.readOps + echo.readOps
    case _ => 0
  }

  function Writes(s: Conn): (n: nat)
  {
    s.handshakes +
    match s.phase
    case Serving(_, wire) => |wire.http.writeOps|
    case Switched(_, wire, echo) => |wire.http.writeOps| + echo.accepts + |echo.writeOps|
    case _ => 0
  }

  // -------------------------------------------------------------------- invariant

  ghost predicate Inv(v: Env, s: Conn)
    requires Framing.PrefixStable(v.parse)
  {
    && s.detections == (if s.phase.Detecting? then 1 else 0)
    && s.handshakes == (if s.phase.Handshaking? then 1 else 0)
    && match s.phase
    case Detecting(seen) => s.delivered == seen
    case Serving(tls, wire) =>
      && Framing.Inv(v.config, v.parse, wire)
      && !wire.http.readEnd.Upgraded?
      && (!tls ==> s.delivered == wire.received)
    case Switched(tls, wire, echo) =>
      && Framing.Inv(v.config, v.parse, wire)
      && wire.http.readEnd.Upgraded?
      && Echo.Inv(echo)
      && (!tls ==> s.delivered == wire.received)
    case _ => true
  }

  lemma ServingKeepsInv(v: Env, s: Conn, h: Framing.Event)
    requires Framing.PrefixStable(v.parse) && Inv(v, s) && s.phase.Serving? && Enabled(v, s, Http(h))
    ensures Inv(v, Step(v, s, Http(h)))
  {
    Framing.StepKeepsInv(v.config, v.parse, s.phase.wire, h);
    Echo.RunKeepsInv(Echo.Start(), []);
  }

  lemma SwitchedKeepsInv(v: Env, s: Conn, h: Framing.Event)
    requires Framing.PrefixStable(v.parse) && Inv(v, s) && s.phase.Switched? && Enabled(v, s, Http(h))
    ensures Inv(v, Step(v, s, Http(h))) && Step(v, s, Http(h)).phase.Switched?
  {
    Framing.StepKeepsInv(v.config, v.parse, s.phase.wire, h);
    assert h.WriteOk? || h.WriteError?;
    DeadReadStep(v.config, s.phase.wire.http, Framing.SessionEvent(v.parse, s.phase.wire, h).value);
  }

  lemma StepKeepsInv(v: Env, s: Conn, e: Event)
    requires Framing.PrefixStable(v.parse) && Inv(v, s) && Enabled(v, s, e)
    ensures Inv(v, Step(v, s, e))
  {
    match e
    case Detected => Framing.StartInv(v.config, v.parse, s.phase.seen);
    case HandshakeDone(used) => Framing.StartInv(v.config, v.parse, s.phase.seen[used..]);
    case Http(h) =>
      if s.phase.Serving? {
        ServingKeepsInv(v, s, h);
      } else {
        SwitchedKeepsInv(v, s, h);
      }
    case WebSocket(w) => Echo.StepKeepsInv(s.phase.echo, w);
    case _ =>
  }

  lemma {:induction false} RunKeepsInv(v: Env, s: Conn, es: seq<Event>)
    requires Framing.PrefixStable(v.parse) && Inv(v, s) && Schedule(v, s, es)
    ensures Inv(v, Run(v, s, es))
    decreases es
  {
    if es == [] {
    } else {
      StepKeepsInv(v, s, es[0]);
      RunKeepsInv(v, Step(v, s, es[0]), es[1..]);
    }
  }

  // ------------------------------------------------------------------ main results

  /** Over the whole life of a connection there is at most one read outstanding, and
      at most one write, except while a write of the old HTTP session is still out
      after an upgrade; the stream is held by the HTTP session exactly until then. */
  lemma SingleOwner(v: Env, es: seq<Event>)
    requires Framing.PrefixStable(v.parse) && Schedule(v, Accepted(), es)
    ensures var s := Run(v, Accepted(), es);
            && Reads(s) <= 1
            && Writes(s) <= 2
            && (Writes(s) == 2 ==> s.phase.Switched? && s.phase.wire.http.writeOps != [])
            && (s.phase.Serving? ==> s.phase.wire.http.holdsStream && s.phase.wire.http.stray == 0)
            && (s.phase.Switched? ==> !s.phase.wire.http.holdsStream)
  {
    RunKeepsInv(v, Accepted(), es);
  }

  /** The bytes the socket delivers in an event. */
  function BytesIn(e: Event): (b: Bytes)
  {
    if e.DetectBytes? then e.bytes else if e.Http? && e.http.Chunk? then e.http.bytes else []
  }

  function AllBytes(es: seq<Event>): (b: Bytes)
  {
    if es == [] then [] else BytesIn(es[0]) + AllBytes(es[1..])
  }

  lemma StepByEvent(v: Env, s: Conn, e: Event)
    requires Enabled(v, s, e)
    ensures Step(v, s, e).delivered == s.delivered + BytesIn(e)
    ensures Step(v, s, e).phase.Stopped? <==> e.DetectFailed? || e.HandshakeFailed?
  {
  }

  lemma StoppedStays(v: Env, s: Conn, es: seq<Event>)
    requires s.phase.Stopped? && Schedule(v, s, es)
    ensures es == []
  {
  }

  lemma {:induction false} RunByEvents(v: Env, s: Conn, es: seq<Event>)
    requires Schedule(v, s, es)
    ensures Run(v, s, es).delivered == s.delivered + AllBytes(es)
    ensures Run(v, s, es).phase.Stopped? <==> s.phase.Stopped? || DetectFailed in es || HandshakeFailed in es
    decreases es
  {
    if es == [] {
    } else {
      var e, rest := es[0], es[1..];
      StepByEvent(v, s, e);
      RunByEvents(v, Step(v, s, e), rest);
      Associate(s.delivered, BytesIn(e), AllBytes(rest));
      assert es == [e] + rest;
      if s.phase.Stopped? {
        StoppedStays(v, s, es);
      }
    }
  }

  /** A connection stops before it serves exactly when detection or the handshake
      fails, and no byte that comes in is dropped from the account. */
  lemma EventsDecide(v: Env, es: seq<Event>)
    requires Framing.PrefixStable(v.parse) && Schedule(v, Accepted(), es)
    ensures var s := Run(v, Accepted(), es);
            && s.delivered == AllBytes(es)
            && (s.phase.Stopped? <==> DetectFailed in es || HandshakeFailed in es)
            && (s.phase.Stopped? ==> Reads(s) == Writes(s) == 0)
  {
    RunByEvents(v, Accepted(), es);
    RunKeepsInv(v, Accepted(), es);
  }

  lemma {:induction false} ServingStays(v: Env, s: Conn, es: seq<Event>)
    requires Schedule(v, s, es) && (s.phase.Serving? || s.phase.Switched?)
    ensures var t := Run(v, s, es);
            && (t.phase.Serving? || t.phase.Switched?)
            && t.phase.tls == s.phase.tls && s.phase.wire.received <= t.phase.wire.received
    ensures forall e <- es :: e.Http? || e.WebSocket?
    decreases es
  {
    if es == [] {
    } else {
      ServingStays(v, Step(v, s, es[0]), es[1..]);
    }
  }

  /** The first `n` events brought `seen`, and the detector then decided for `tls`: a
      plain session starts on all of `seen`, a TLS session only after a handshake
      completed, on what that left of `seen`. */
  ghost predicate ServedAsDetected(v: Env, es: seq<Event>, n: nat, seen: Bytes, tls: bool, received: Bytes)
  {
    && n < |es| && es[n].Detected? && (forall i :: 0 <= i < n ==> es[i].DetectBytes?)
    && v.detect(seen) == Some(tls)
    && if tls
       then n + 1 < |es| && es[n + 1].HandshakeDone? && es[n + 1].used <= |seen| && seen[es[n + 1].used..] <= received
       else seen <= received && forall i :: n < i < |es| ==> !es[i].HandshakeDone?
  }

  lemma HandshakeServes(v: Env, s: Conn, es: seq<Event>)
    requires Schedule(v, s, es) && s.phase.Handshaking?
    requires Run(v, s, es).phase.Serving? || Run(v, s, es).phase.Switched?
    ensures es != [] && es[0].HandshakeDone? && es[0].used <= |s.phase.seen|
    ensures Run(v, s, es).phase.tls && s.phase.seen[es[0].used..] <= Run(v, s, es).phase.wire.received
  {
    assert es != [];
    if es[0].HandshakeDone? {
      ServingStays(v, Step(v, s, es[0]), es[1..]);
    } else {
      StoppedStays(v, Step(v, s, es[0]), es[1..]);
    }
  }

  lemma DetectedIsServed(v: Env, s: Conn, es: seq<Event>)
    requires Schedule(v, s, es) && s.phase.Detecting? && es != [] && es[0].Detected?
    requires Run(v, s, es).phase.Serving? || Run(v, s, es).phase.Switched?
    ensures var t := Run(v, s, es);
            ServedAsDetected(v, es, 0, s.phase.seen, t.phase.tls, t.phase.wire.received)
  {
    var u, rest := Step(v, s, es[0]), es[1..];
    if u.phase.Handshaking? {
      HandshakeServes(v, u, rest);
      assert es[1] == rest[0];
    } else {
      ServingStays(v, u, rest);
      assert forall i :: 0 < i < |es| ==> es[i] in rest;
    }
  }

  lemma {:induction false} ServedFrom(v: Env, s: Conn, es: seq<Event>) returns (n: nat)
    requires Schedule(v, s, es) && s.phase.Detecting?
    requires Run(v, s, es).phase.Serving? || Run(v, s, es).phase.Switched?
    ensures n <= |es|
    ensures var t := Run(v, s, es);
            ServedAsDetected(v, es, n, s.phase.seen + AllBytes(es[..n]), t.phase.tls, t.phase.wire.received)
    decreases es
  {
    assert es != [];
    if es[0].Detected? {
      DetectedIsServed(v, s, es);
      assert s.phase.seen + AllBytes(es[..0]) == s.phase.seen;
      return 0;
    }
    var u, rest := Step(v, s, es[0]), es[1..];
    if u.phase.Stopped? {
      StoppedStays(v, u, rest);
    }
    var k := ServedFrom(v, u, rest);
    n := k + 1;
    assert es[..n] == [es[0]] + rest[..k];
    assert ([es[0]] + rest[..k])[1..] == rest[..k];
    Associate(s.phase.seen, es[0].bytes, AllBytes(rest[..k]));
    assert forall i :: 0 < i < |es| ==> es[i] == rest[i - 1];
  }

  /** No client is served otherwise than the detector said: TLS clients only after a
      completed handshake, all others from the first byte on. */
  lemma DetectorDecides(v: Env, es: seq<Event>) returns (n: nat)
    requires Schedule(v, Accepted(), es)
    requires Run(v, Accepted(), es).phase.Serving? || Run(v, Accepted(), es).phase.Switched?
    ensures n <= |es|
    ensures var t := Run(v, Accepted(), es);
            ServedAsDetected(v, es, n, AllBytes(es[..n]), t.phase.tls, t.phase.wire.received)
  {
    n := ServedFrom(v, Accepted(), es);
    assert [] + AllBytes(es[..n]) == AllBytes(es[..n]);
  }

  /** A TLS client gets as far as a handshake, and only a handshake is outstanding. */
  lemma HandshakeReached(v: Env, bytes: Bytes)
    requires v.detect([]) == None && v.detect(bytes) == Some(true)
    ensures var es := [DetectBytes(bytes), Detected];
            && Schedule(v, Accepted(), es)
            && Run(v, Accepted(), es) == Conn(Handshaking(bytes), 0, 1, bytes)
  {
    var s := Step(v, Accepted(), DetectBytes(bytes));
    assert [] + bytes == bytes;
    ScheduleCons(v, s, Detected, []);
    ScheduleCons(v, Accepted(), DetectBytes(bytes), [Detected]);
    assert [DetectBytes(bytes)] + [Detected] == [DetectBytes(bytes), Detected];
  }

  /** Bytes survive the hand-over from detector to plain session: what the socket
      delivered is what requests took up followed by what is buffered, and the
      requests are those at its front. */
  lemma PlainBytesHandedOver(v: Env, es: seq<Event>)
    requires Framing.PrefixStable(v.parse) && Schedule(v, Accepted(), es)
    ensures var s := Run(v, Accepted(), es);
            s.phase.Serving? || s.phase.Switched? ==>
              !s.phase.tls ==>
                && s.delivered == s.phase.wire.consumed + s.phase.wire.buffer
                && s.phase.wire.requests <= Framing.Requests(v.parse, s.delivered)
  {
    RunKeepsInv(v, Accepted(), es);
  }

  /** Some continuation has two writes outstanding at once. */
  ghost predicate CanOverlap(v: Env, s: Conn)
  {
    exists es :: Schedule(v, s, es) && Writes(Run(v, s, es)) > 1
  }

  /** Once the HTTP session has no write out after an upgrade, it never acts again. */
  lemma {:induction false} HttpAtRest(v: Env, s: Conn, es: seq<Event>)
    requires Framing.PrefixStable(v.parse) && Inv(v, s) && Schedule(v, s, es)
    requires s.phase.Switched? && s.phase.wire.http.writeOps == []
    ensures var t := Run(v, s, es);
            t.phase.Switched? && t.phase.wire == s.phase.wire && Reads(t) <= 1 && Writes(t) <= 1
    decreases es
  {
    if es == [] {
    } else {
      assert es[0].WebSocket?;
      StepKeepsInv(v, s, es[0]);
      HttpAtRest(v, Step(v, s, es[0]), es[1..]);
    }
  }

  /** An upgrade lets two writes overlap exactly if the HTTP session had one out. */
  lemma OverlapIff(v: Env, s: Conn, h: Framing.Event)
    requires Framing.PrefixStable(v.parse) && Inv(v, s) && s.phase.Serving? && Enabled(v, s, Http(h))
    requires Step(v, s, Http(h)).phase.Switched?
    ensures CanOverlap(v, Step(v, s, Http(h))) <==> s.phase.wire.http.writeOps != []
    ensures s.phase.wire.http.writeOps == Step(v, s, Http(h)).phase.wire.http.writeOps
  {
    var t := Step(v, s, Http(h));
    ServingKeepsInv(v, s, h);
    UpgradeLeavesWrites(v.config, s.phase.wire.http, Framing.SessionEvent(v.parse, s.phase.wire, h).value);
    if s.phase.wire.http.writeOps != [] {
      assert Schedule(v, t, []) && Writes(Run(v, t, [])) > 1;
    } else {
      forall es | Schedule(v, t, es) ensures Writes(Run(v, t, es)) <= 1 {
        HttpAtRest(v, t, es);
      }
    }
  }

  lemma UpgradeLeavesWrites(c: Config, s: Session, e: Pipeline.Event)
    requires Pipeline.Inv(c, s) && Pipeline.Enabled(s, e) && !s.readEnd.Upgraded?
    requires Pipeline.Step(c, s, e).readEnd.Upgraded?
    ensures Pipeline.Step(c, s, e).writeOps == s.writeOps && e.ReadOk?
  {
  }

  /** If the queue is empty when the upgrade is read, the HTTP session is done with
      the stream for good: whatever follows, it begins and completes nothing. */
  lemma CleanUpgrade(v: Env, s: Conn, h: Framing.Event, es: seq<Event>)
    requires Framing.PrefixStable(v.parse) && Inv(v, s) && s.phase.Serving? && Enabled(v, s, Http(h))
    requires Step(v, s, Http(h)).phase.Switched? && s.phase.wire.http.queue == []
    requires Schedule(v, Step(v, s, Http(h)), es)
    ensures var t := Run(v, Step(v, s, Http(h)), es);
            && t.phase.Switched? && Quiescent(t.phase.wire.http) && t.phase.wire.http.stray == 0
            && Reads(t) <= 1 && Writes(t) <= 1
  {
    ServingKeepsInv(v, s, h);
    UpgradeLeavesWrites(v.config, s.phase.wire.http, Framing.SessionEvent(v.parse, s.phase.wire, h).value);
    HttpAtRest(v, Step(v, s, Http(h)), es);
  }

  /** From accept to responses: over one file system, two plain connections to which
      the socket delivered the same bytes, and which finished with them, have written
      the same responses, whatever the detector, the chunks, the schedules and the limits. */
  lemma DeliveredBytesDetermineResponses(v1: Env, v2: Env, es1: seq<Event>, es2: seq<Event>,
                                         files: Request -> FileOutcome)
    requires Framing.PrefixStable(v1.parse) && v1.parse == v2.parse && v1.config.respond == v2.config.respond
    requires Schedule(v1, Accepted(), es1) && Schedule(v2, Accepted(), es2)
    requires var s1, s2 := Run(v1, Accepted(), es1), Run(v2, Accepted(), es2);
             && PlainFinished(v1, s1, files) && PlainFinished(v2, s2, files)
             && s1.delivered == s2.delivered
    ensures Run(v1, Accepted(), es1).phase.wire.http.written
         == Run(v2, Accepted(), es2).phase.wire.http.written
  {
    RunKeepsInv(v1, Accepted(), es1);
    RunKeepsInv(v2, Accepted(), es2);
    var s1, s2 := Run(v1, Accepted(), es1), Run(v2, Accepted(), es2);
    Framing.SameStreamSameResponses(v1.config, v2.config, v1.parse, s1.phase.wire, s2.phase.wire, s1.delivered, files);
  }

  ghost predicate Plain(s: Conn, files: Request -> FileOutcome)
  {
    (s.phase.Serving? || s.phase.Switched?) && !s.phase.tls && Framing.Files(files, s.phase.wire)
  }

  /** Finished or not: if the socket delivered no more than `stream` to each of two
      plain connections, what one has written is the beginning of what the other has. */
  lemma DeliveredBytesOrderResponses(v1: Env, v2: Env, es1: seq<Event>, es2: seq<Event>,
                                     files: Request -> FileOutcome, stream: Bytes)
    requires Framing.PrefixStable(v1.parse) && v1.parse == v2.parse && v1.config.respond == v2.config.respond
    requires Schedule(v1, Accepted(), es1) && Schedule(v2, Accepted(), es2)
    requires var s1, s2 := Run(v1, Accepted(), es1), Run(v2, Accepted(), es2);
             && Plain(s1, files) && Plain(s2, files)
             && s1.delivered <= stream && s2.delivered <= stream
    ensures Framing.Comparable(Run(v1, Accepted(), es1).phase.wire.http.written,
                               Run(v2, Accepted(), es2).phase.wire.http.written)
  {
    RunKeepsInv(v1, Accepted(), es1);
    RunKeepsInv(v2, Accepted(), es2);
    var s1, s2 := Run(v1, Accepted(), es1), Run(v2, Accepted(), es2);
    Framing.SameStreamComparable(v1.config, v2.config, v1.parse, s1.phase.wire, s2.phase.wire, files, stream);
  }

  ghost predicate PlainFinished(v: Env, s: Conn, files: Request -> FileOutcome)
  {
    Plain(s, files) && Framing.Finished(v.parse, s.phase.wire, s.delivered)
  }

  // ------------------------------------------------------- two writes at once, reached

  /** Bytes a client can send in one go: a request that persists, and an upgrade. */
  ghost predicate PipelinedUpgrade(v: Env, first: Bytes, second: Bytes)
  {
    && v.detect([]) == None && v.detect(first + second) == Some(false)
    && v.parse(first + second) == Framing.Whole(PLAIN.req, |first|)
    && v.parse(second) == Framing.Whole(UPGRADE.req, |second|)
  }

  lemma ScheduleCons(v: Env, s: Conn, e: Event, es: seq<Event>)
    requires Enabled(v, s, e) && Schedule(v, Step(v, s, e), es)
    ensures Schedule(v, s, [e] + es) && Run(v, s, [e] + es) == Run(v, Step(v, s, e), es)
  {
    assert ([e] + es)[1..] == es;
  }

  /** The session such a client is served by, when both requests have been read. */
  lemma UpgradeOvertakesWrite(v: Env, w: Framing.Wire, first: Bytes, second: Bytes)
    requires TellsApart(v.config) && v.config.limit >= 2
    requires PipelinedUpgrade(v, first, second) && w == Framing.Start(first + second)
    ensures Framing.Enabled(v.parse, w, Framing.Deliver(Missing))
    ensures var w1 := Framing.Step(v.config, v.parse, w, Framing.Deliver(Missing));
            && w1.http.readEnd.ReadOpen?
            && Framing.Enabled(v.parse, w1, Framing.Deliver(Missing))
            && var w2 := Framing.Step(v.config, v.parse, w1, Framing.Deliver(Missing));
               w2.http.readEnd.Upgraded? && |w2.http.writeOps| == 1
  {
    KindsOfRequest();
    Pipeline.StartInv(v.config);
    ReadOkEffect(v.config, Pipeline.Start(), PLAIN);
    assert (first + second)[|first|..] == second;
  }

  /** Detection takes such a client to a plain session that holds all its bytes. */
  lemma DetectedPlain(v: Env, bytes: Bytes, es: seq<Event>)
    requires v.detect([]) == None && v.detect(bytes) == Some(false)
    requires var s := Conn(Serving(false, Framing.Start(bytes)), 0, 0, bytes); Schedule(v, s, es)
    ensures var s := Conn(Serving(false, Framing.Start(bytes)), 0, 0, bytes);
            && Schedule(v, Accepted(), [DetectBytes(bytes), Detected] + es)
            && Run(v, Accepted(), [DetectBytes(bytes), Detected] + es) == Run(v, s, es)
  {
    assert [] + bytes == bytes;
    var s1 := Step(v, Accepted(), DetectBytes(bytes));
    ScheduleCons(v, s1, Detected, es);
    ScheduleCons(v, Accepted(), DetectBytes(bytes), [Detected] + es);
    assert [DetectBytes(bytes), Detected] + es == [DetectBytes(bytes)] + ([Detected] + es);
  }

  /** A client that pipelines an upgrade behind a request makes two writes overlap. */
  lemma OverlapReached(v: Env, first: Bytes, second: Bytes) returns (es: seq<Event>)
    requires TellsApart(v.config) && v.config.limit >= 2
    requires PipelinedUpgrade(v, first, second)
    ensures es == [DetectBytes(first + second), Detected, Http(Framing.Deliver(Missing)), Http(Framing.Deliver(Missing))]
    ensures Schedule(v, Accepted(), es) && Writes(Run(v, Accepted(), es)) == 2
  {
    var e := Http(Framing.Deliver(Missing));
    var s := Conn(Serving(false, Framing.Start(first + second)), 0, 0, first + second);
    UpgradeOvertakesWrite(v, s.phase.wire, first, second);
    var t := Step(v, s, e);
    ScheduleCons(v, t, e, []);
    ScheduleCons(v, s, e, [e]);
    DetectedPlain(v, first + second, [e] + [e]);
    es := [DetectBytes(first + second), Detected] + ([e] + [e]);
  }

  /** Where such a client exists, writes can overlap exactly if sessions can pipeline. */
  lemma OverlapReachableIff(v: Env, settings: Settings, first: Bytes, second: Bytes)
    requires Framing.PrefixStable(v.parse) && v.config.respond == Shipped(settings)
    requires PipelinedUpgrade(v, first, second)
    ensures CanOverlap(v, Accepted()) <==> v.config.limit >= 2
  {
    ShippedTellsApart(v.config, settings);
    if v.config.limit >= 2 {
      var es := OverlapReached(v, first, second);
    } else {
      forall es | Schedule(v, Accepted(), es) ensures Writes(Run(v, Accepted(), es)) <= 1 {
        RunKeepsInv(v, Accepted(), es);
      }
    }
  }

  /** A toy protocol in which such a client exists: a byte is a whole request. */
  function OneByteRequests(b: Bytes): (p: Framing.Parsed)
  {
    if b == [] then Framing.NeedMore
    else Framing.Whole(if b[0] == 0 then PLAIN.req else UPGRADE.req, 1)
  }

  lemma PipelinedUpgradeExists(config: Config)
    ensures var v := Env(config, OneByteRequests, b => if b == [] then None else Some(false));
            Framing.PrefixStable(v.parse) && PipelinedUpgrade(v, [0], [1])
  {
    var v := Env(config, OneByteRequests, b => if b == [] then None else Some(false));
    forall b: Bytes, more: Bytes ensures Framing.Takes(v.parse, b) && Framing.Stable(v.parse, b, more) {
      assert b != [] ==> (b + more)[0] == b[0];
    }
    assert ([0] + [1])[0] == 0;
  }
}
