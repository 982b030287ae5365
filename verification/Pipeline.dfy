/** The pipelining session as a transition system.

    The environment completes, in any order, an operation that is outstanding on
    the stream; the session reacts as its callbacks do. Outstanding operations are
    counted, not assumed to be single: nothing in the transitions looks at the
    counts, so that there is never more than one of each is a theorem. */
module Pipeline {
  import opened Messages
  import opened Handler
  import opened Sequences

  type Limit = n: nat | 0 < n witness 1

  /** The handler: what is sent for a request. The session works with any. */
  type Responder = Arrival -> Response

  datatype Config = Config(limit: Limit, respond: Responder)

  datatype ReadEnd = ReadOpen | ReadEof | ReadFailed | Upgraded

  datatype WriteEnd = WriteOpen | WriteClosed | WriteFailed

  datatype Session = Session(
    queue: seq<Response>,     // the work items, oldest first
    readOps: nat,               // reads outstanding on the stream
    writeOps: seq<Response>,    // writes outstanding on the stream, oldest first
    shutdowns: nat,           // shutdowns begun
    holdsStream: bool,        // false once the stream has been moved to a WebSocket session
    // what happened so far; no transition depends on it
    readEnd: ReadEnd,
    writeEnd: WriteEnd,
    fault: bool,              // a write completion found the queue empty
    stray: nat,               // operations begun after the stream was moved away
    handled: seq<Arrival>,    // requests given to the handler
    started: seq<Response>,   // writes begun
    popped: seq<Response>,    // responses removed from the queue
    written: seq<Response>)   // responses whose write completed

  datatype Event = ReadOk(arrival: Arrival) | ReadAtEof | ReadError | WriteOk | WriteError

  const IDLE := Session([], 0, [], 0, true, ReadOpen, WriteOpen, false, 0, [], [], [], [])

  // ------------------------------------------------------- operations on the stream

  function Touch(s: Session): (t: Session)
  {
    if s.holdsStream then s else s.(stray := s.stray + 1)
  }

  function ArmRead(s: Session): (t: Session)
  {
    Touch(s).(readOps := s.readOps + 1)
  }

  function StartWrite(s: Session, m: Response): (t: Session)
  {
    Touch(s).(writeOps := s.writeOps + [m], started := s.started + [m])
  }

  function Shutdown(s: Session): (t: Session)
  {
    Touch(s).(shutdowns := s.shutdowns + 1)
  }

  // -------------------------------------------------------------------- the queue

  predicate IsFull(c: Config, s: Session)
  {
    |s.queue| >= c.limit
  }

  function StartFront(s: Session): (t: Session)
  {
    if s.queue == [] then s else StartWrite(s, s.queue[0])
  }

  /** A response arrives at the queue; if there was no previous work, it starts. */
  function Send(s: Session, m: Response): (t: Session)
  {
    var t := s.(queue := s.queue + [m]);
    if |t.queue| == 1 then StartFront(t) else t
  }

  /** A write completed: drop the front item and start the next one. */
  function Pop(s: Session): (t: Session)
  {
    if s.queue == [] then s.(fault := true)
    else StartFront(s.(queue := s.queue[1..], popped := s.popped + [s.queue[0]]))
  }

  // ---------------------------------------------------------------- the callbacks

  function OnRead(c: Config, s: Session, e: Event): (t: Session)
    requires e.ReadOk? || e.ReadAtEof? || e.ReadError?
  {
    match e
    case ReadAtEof => Shutdown(s.(readEnd := ReadEof))
    case ReadError => s.(readEnd := ReadFailed)
    case ReadOk(a) =>
      if IsUpgrade(a.req) then s.(readEnd := Upgraded, holdsStream := false)
      else
        var t := Send(s.(handled := s.handled + [a]), c.respond(a));
        if IsFull(c, t) then t else ArmRead(t)
  }

  function OnWrite(c: Config, s: Session, close: bool, e: Event): (t: Session)
    requires e.WriteOk? || e.WriteError?
  {
    if e.WriteError? then s.(writeEnd := WriteFailed)
    else if close then Shutdown(s.(writeEnd := WriteClosed))
    else
      var t := Pop(s);
      if IsFull(c, s) then ArmRead(t) else t
  }

  // ------------------------------------------------------------------ transitions

  predicate Enabled(s: Session, e: Event)
  {
    match e
    case ReadOk(_) => s.readOps > 0
    case ReadAtEof => s.readOps > 0
    case ReadError => s.readOps > 0
    case WriteOk => s.writeOps != []
    case WriteError => s.writeOps != []
  }

  /** The outstanding operation is taken off the stream, then its callback runs. */
  function Step(c: Config, s: Session, e: Event): (t: Session)
    requires Enabled(s, e)
  {
    match e
    case WriteOk =>
      OnWrite(c, s.(writeOps := s.writeOps[1..], written := s.written + [s.writeOps[0]]), NeedEof(s.writeOps[0]), e)
    case WriteError =>
      OnWrite(c, s.(writeOps := s.writeOps[1..]), NeedEof(s.writeOps[0]), e)
    case _ =>
      OnRead(c, s.(readOps := s.readOps - 1), e)
  }

  /** Running the session arms its first read. */
  function Start(): (t: Session)
  {
    ArmRead(IDLE)
  }

  /** `es` is a schedule the environment can choose from `s`. */
  predicate Schedule(c: Config, s: Session, es: seq<Event>)
    decreases es
  {
    es == [] || (Enabled(s, es[0]) && Schedule(c, Step(c, s, es[0]), es[1..]))
  }

  function Run(c: Config, s: Session, es: seq<Event>): (t: Session)
    requires Schedule(c, s, es)
    decreases es
  {
    if es == [] then s else Run(c, Step(c, s, es[0]), es[1..])
  }

  lemma ScheduleCons(c: Config, s: Session, e: Event, es: seq<Event>)
    requires Enabled(s, e) && Schedule(c, Step(c, s, e), es)
    ensures Schedule(c, s, [e] + es) && Run(c, s, [e] + es) == Run(c, Step(c, s, e), es)
  {
    assert ([e] + es)[1..] == es;
  }

  // -------------------------------------------------------------------- invariant

  function Front(q: seq<Response>): (ms: seq<Response>)
  {
    if q == [] then [] else [q[0]]
  }

  /** The answers to a list of requests, in order. */
  function Responses(respond: Responder, arrivals: seq<Arrival>): (ms: seq<Response>)
    ensures |ms| == |arrivals|
    ensures forall i :: 0 <= i < |ms| ==> ms[i] == respond(arrivals[i])
  {
    seq(|arrivals|, i requires 0 <= i < |arrivals| => respond(arrivals[i]))
  }

  ghost predicate ReadSide(c: Config, s: Session)
  {
    && s.readOps == (if s.readEnd.ReadOpen? && |s.queue| < c.limit then 1 else 0)
    && (!s.readEnd.ReadOpen? ==> |s.queue| < c.limit)
  }

  ghost predicate WriteSide(s: Session)
  {
    && s.writeOps == (if s.writeEnd.WriteOpen? then Front(s.queue) else [])
    && (!s.writeEnd.WriteOpen? ==> s.queue != [])
    && (s.writeEnd.WriteClosed? ==> NeedEof(s.queue[0]))
    && (forall m <- s.popped :: !NeedEof(m))
  }

  ghost predicate Accounts(c: Config, s: Session)
  {
    && Responses(c.respond, s.handled) == s.popped + s.queue
    && s.started == s.popped + Front(s.queue)
    && s.written == s.popped + (if s.writeEnd.WriteClosed? then Front(s.queue) else [])
    && (forall a <- s.handled :: !IsUpgrade(a.req))
  }

  ghost predicate StreamUse(s: Session)
  {
    && s.shutdowns == (if s.readEnd.ReadEof? then 1 else 0) + (if s.writeEnd.WriteClosed? then 1 else 0)
    && (s.holdsStream <==> !s.readEnd.Upgraded?)
    && (s.holdsStream ==> s.stray == 0)
  }

  ghost predicate Inv(c: Config, s: Session)
  {
    && |s.queue| <= c.limit
    && !s.fault
    && ReadSide(c, s)
    && WriteSide(s)
    && Accounts(c, s)
    && StreamUse(s)
  }

  lemma ResponsesExtend(respond: Responder, arrivals: seq<Arrival>, a: Arrival)
    ensures Responses(respond, arrivals + [a]) == Responses(respond, arrivals) + [respond(a)]
  {
  }

  lemma ReadKeepsInv(c: Config, s: Session, e: Event)
    requires Inv(c, s) && Enabled(s, e) && !e.WriteOk? && !e.WriteError?
    ensures Inv(c, Step(c, s, e))
  {
    if e.ReadOk? && !IsUpgrade(e.arrival.req) {
      ResponsesExtend(c.respond, s.handled, e.arrival);
      var m := c.respond(e.arrival);
      assert s.popped + s.queue + [m] == s.popped + (s.queue + [m]);
    }
  }

  lemma PopEffect(c: Config, s: Session)
    requires Inv(c, s) && Enabled(s, WriteOk) && !NeedEof(s.writeOps[0])
    ensures s.queue != []
    ensures var t := Step(c, s, WriteOk);
            && t.queue == s.queue[1..] && t.popped == s.popped + [s.queue[0]] && t.handled == s.handled
            && t.writeOps == Front(t.queue) && t.started == s.started + Front(t.queue)
            && t.written == s.written + [s.queue[0]]
            && t.readOps == s.readOps + (if |s.queue| == c.limit then 1 else 0)
            && t.readEnd == s.readEnd && t.writeEnd == s.writeEnd && !t.fault
            && t.shutdowns == s.shutdowns && t.holdsStream == s.holdsStream
            && (s.holdsStream ==> t.stray == 0)
  {
  }

  /** A write that completes without closing moves the front item from the queue
      to the popped ones. */
  lemma PopKeepsInv(c: Config, s: Session)
    requires Inv(c, s) && Enabled(s, WriteOk) && !NeedEof(s.writeOps[0])
    ensures s.queue != []
    ensures var t := Step(c, s, WriteOk);
            && Inv(c, t)
            && t.queue == s.queue[1..] && t.popped == s.popped + [s.queue[0]]
  {
    PopEffect(c, s);
    assert s.queue == [s.queue[0]] + s.queue[1..];
    Associate(s.popped, [s.queue[0]], s.queue[1..]);
  }

  lemma WriteKeepsInv(c: Config, s: Session, e: Event)
    requires Inv(c, s) && Enabled(s, e) && (e.WriteOk? || e.WriteError?)
    ensures Inv(c, Step(c, s, e))
  {
    if e.WriteOk? && !NeedEof(s.writeOps[0]) {
      PopKeepsInv(c, s);
    }
  }

  /** What handling a request does, without the flags that say how. */
  lemma ReadOkEffect(c: Config, s: Session, a: Arrival)
    requires Inv(c, s) && Enabled(s, ReadOk(a)) && !IsUpgrade(a.req)
    ensures var t := Step(c, s, ReadOk(a));
            && Inv(c, t)
            && t.handled == s.handled + [a] && t.queue == s.queue + [c.respond(a)]
            && t.popped == s.popped && t.written == s.written
            && t.readEnd == s.readEnd && t.writeEnd == s.writeEnd
            && t.started == s.started + (if s.queue == [] then [c.respond(a)] else [])
  {
    ReadKeepsInv(c, s, ReadOk(a));
  }

  lemma ReadAtEofEffect(c: Config, s: Session)
    requires Inv(c, s) && Enabled(s, ReadAtEof)
    ensures var t := Step(c, s, ReadAtEof);
            && Inv(c, t)
            && t.readEnd.ReadEof? && t.queue == s.queue && t.writeEnd == s.writeEnd && t.handled == s.handled
  {
    ReadKeepsInv(c, s, ReadAtEof);
  }

  lemma WriteOkEffect(c: Config, s: Session)
    requires Inv(c, s) && Enabled(s, WriteOk)
    ensures var t := Step(c, s, WriteOk);
            && Inv(c, t)
            && s.queue != [] && t.handled == s.handled && t.written == s.written + [s.queue[0]]
            && t.readEnd == s.readEnd
            && if NeedEof(s.queue[0])
               then t.writeEnd.WriteClosed? && t.queue == s.queue && t.popped == s.popped
               else t.writeEnd.WriteOpen? && t.queue == s.queue[1..] && t.popped == s.popped + [s.queue[0]]
  {
    if NeedEof(s.queue[0]) {
      WriteKeepsInv(c, s, WriteOk);
    } else {
      PopKeepsInv(c, s);
    }
  }

  lemma StepKeepsInv(c: Config, s: Session, e: Event)
    requires Inv(c, s) && Enabled(s, e)
    ensures Inv(c, Step(c, s, e))
  {
    if e.WriteOk? || e.WriteError? {
      WriteKeepsInv(c, s, e);
    } else {
      ReadKeepsInv(c, s, e);
    }
  }

  lemma {:induction false} RunKeepsInv(c: Config, s: Session, es: seq<Event>)
    requires Inv(c, s) && Schedule(c, s, es)
    ensures Inv(c, Run(c, s, es))
    decreases es
  {
    if es == [] {
    } else {
      StepKeepsInv(c, s, es[0]);
      RunKeepsInv(c, Step(c, s, es[0]), es[1..]);
    }
  }

  lemma StartInv(c: Config)
    ensures Inv(c, Start())
  {
  }
}
