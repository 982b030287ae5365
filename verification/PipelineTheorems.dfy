/** What the pipelining session guarantees on every schedule and for every limit. */
module PipelineTheorems {
  import opened Messages
  import opened Handler
  import opened Pipeline
  import opened Sequences

  // ------------------------------------------- the server the session refines

  /** A server that answers one request at a time: requests wait in the inbox, and
      the oldest is answered and its response written in one step. */
  datatype Sequential = Sequential(inbox: seq<Arrival>, outbox: seq<Response>, closed: bool)

  ghost predicate Receives(q: Sequential, r: Sequential)
  {
    r.inbox != [] && r == q.(inbox := q.inbox + [r.inbox[|r.inbox| - 1]])
  }

  predicate Serves(respond: Responder, q: Sequential, r: Sequential)
  {
    && q.inbox != []
    && !q.closed
    && var m := respond(q.inbox[0]);
       r == Sequential(q.inbox[1..], q.outbox + [m], NeedEof(m))
  }

  ghost predicate SequentialNext(respond: Responder, q: Sequential, r: Sequential)
  {
    r == q || Receives(q, r) || Serves(respond, q, r)
  }

  /** Everything that server writes for a list of requests: it stops after the
      first response that closes the connection. */
  function Serve(respond: Responder, arrivals: seq<Arrival>): (ms: seq<Response>)
  {
    if arrivals == [] then []
    else
      var m := respond(arrivals[0]);
      [m] + if NeedEof(m) then [] else Serve(respond, arrivals[1..])
  }

  /** What an observer of the wire sees of a session. */
  function Abs(s: Session): (q: Sequential)
    requires |s.written| <= |s.handled|
  {
    Sequential(s.handled[|s.written|..], s.written, s.writeEnd.WriteClosed?)
  }

  lemma AccountsMatch(c: Config, s: Session, k: nat)
    requires Inv(c, s)
    ensures |s.handled| == |s.popped| + |s.queue| && |s.written| <= |s.handled|
    ensures k < |s.handled| ==> c.respond(s.handled[k]) == (s.popped + s.queue)[k]
  {
    assert k < |s.handled| ==> Responses(c.respond, s.handled)[k] == c.respond(s.handled[k]);
  }

  lemma ReadOkRefines(c: Config, s: Session, a: Arrival)
    requires Inv(c, s) && Enabled(s, ReadOk(a)) && !IsUpgrade(a.req)
    ensures |s.written| <= |s.handled|
    ensures |Step(c, s, ReadOk(a)).written| <= |Step(c, s, ReadOk(a)).handled|
    ensures Receives(Abs(s), Abs(Step(c, s, ReadOk(a))))
  {
    ReadOkEffect(c, s, a);
    AccountsMatch(c, s, 0);
    var t := Step(c, s, ReadOk(a));
    assert t.handled[|t.written|..] == s.handled[|s.written|..] + [a];
  }

  lemma WriteOkRefines(c: Config, s: Session)
    requires Inv(c, s) && Enabled(s, WriteOk)
    ensures |s.written| <= |s.handled|
    ensures |Step(c, s, WriteOk).written| <= |Step(c, s, WriteOk).handled|
    ensures Serves(c.respond, Abs(s), Abs(Step(c, s, WriteOk)))
  {
    WriteOkEffect(c, s);
    AccountsMatch(c, s, |s.written|);
    var t := Step(c, s, WriteOk);
    AccountsMatch(c, t, 0);
    assert t.handled[|t.written|..] == s.handled[|s.written|..][1..];
  }

  /** Every transition of the pipelined session is a transition of the sequential
      server, or invisible to it. */
  lemma StepRefines(c: Config, s: Session, e: Event)
    requires Inv(c, s) && Enabled(s, e)
    ensures |s.written| <= |s.handled|
    ensures |Step(c, s, e).written| <= |Step(c, s, e).handled|
    ensures SequentialNext(c.respond, Abs(s), Abs(Step(c, s, e)))
  {
    if e.ReadOk? && !IsUpgrade(e.arrival.req) {
      ReadOkRefines(c, s, e.arrival);
    } else if e.WriteOk? {
      WriteOkRefines(c, s);
    } else {
      AccountsMatch(c, s, 0);
    }
  }

  /** `trace` is a run of the sequential server, with steps that change nothing allowed. */
  ghost predicate SequentialRun(respond: Responder, trace: seq<Sequential>)
  {
    forall i :: 0 < i < |trace| ==> SequentialNext(respond, trace[i - 1], trace[i])
  }

  lemma TraceCons(respond: Responder, q: Sequential, trace: seq<Sequential>)
    requires trace != [] && SequentialNext(respond, q, trace[0]) && SequentialRun(respond, trace)
    ensures SequentialRun(respond, [q] + trace)
  {
    var longer := [q] + trace;
    forall i | 0 < i < |longer| ensures SequentialNext(respond, longer[i - 1], longer[i]) {
      if i > 1 {
        assert longer[i - 1] == trace[i - 2] && longer[i] == trace[i - 1];
      }
    }
  }

  lemma PrefixCons(c: Config, s: Session, es: seq<Event>, i: nat)
    requires 0 < i <= |es| && Enabled(s, es[0]) && Schedule(c, Step(c, s, es[0]), es[1..][..i - 1])
    ensures Schedule(c, s, es[..i]) && Run(c, s, es[..i]) == Run(c, Step(c, s, es[0]), es[1..][..i - 1])
  {
    assert es[..i] == [es[0]] + es[1..][..i - 1];
    ScheduleCons(c, s, es[0], es[1..][..i - 1]);
  }

  /** `t` is what an observer sees after the first `i` callbacks. */
  ghost predicate SeenAfter(c: Config, s: Session, es: seq<Event>, i: nat, t: Sequential)
    requires i <= |es|
  {
    && Schedule(c, s, es[..i])
    && |Run(c, s, es[..i]).written| <= |Run(c, s, es[..i]).handled|
    && t == Abs(Run(c, s, es[..i]))
  }

  /** Every run of the pipelined session is, for an observer of the wire, a run of
      the sequential server, one step for each callback. */
  lemma SeenLater(c: Config, s: Session, es: seq<Event>, i: nat, t: Sequential)
    requires Inv(c, s) && Schedule(c, s, es) && 0 < i <= |es|
    requires SeenAfter(c, Step(c, s, es[0]), es[1..], i - 1, t)
    ensures SeenAfter(c, s, es, i, t)
  {
    PrefixCons(c, s, es, i);
  }

  lemma {:induction false} RunRefines(c: Config, s: Session, es: seq<Event>) returns (trace: seq<Sequential>)
    requires Inv(c, s) && Schedule(c, s, es)
    ensures |trace| == |es| + 1 && SequentialRun(c.respond, trace)
    ensures forall i :: 0 <= i <= |es| ==> SeenAfter(c, s, es, i, trace[i])
    decreases es
  {
    AccountsMatch(c, s, 0);
    if es == [] {
      return [Abs(s)];
    }
    var t := Step(c, s, es[0]);
    StepRefines(c, s, es[0]);
    StepKeepsInv(c, s, es[0]);
    var rest := RunRefines(c, t, es[1..]);
    assert SeenAfter(c, t, es[1..], 0, rest[0]);
    TraceCons(c.respond, Abs(s), rest);
    trace := [Abs(s)] + rest;
    assert es[..0] == [];
    forall i | 0 < i <= |es| ensures SeenAfter(c, s, es, i, trace[i]) {
      SeenLater(c, s, es, i, rest[i - 1]);
    }
  }

  lemma ResponsesSplit(respond: Responder, a: seq<Arrival>, b: seq<Arrival>)
    ensures Responses(respond, a + b) == Responses(respond, a) + Responses(respond, b)
  {
  }

  ghost predicate NoneCloses(respond: Responder, arrivals: seq<Arrival>)
  {
    forall i :: 0 <= i < |arrivals| ==> !NeedEof(respond(arrivals[i]))
  }

  lemma ServeCons(respond: Responder, a: Arrival, rest: seq<Arrival>)
    requires !NeedEof(respond(a))
    ensures Serve(respond, [a] + rest) == Responses(respond, [a]) + Serve(respond, rest)
  {
    assert ([a] + rest)[1..] == rest;
  }

  lemma ServeAppendCons(respond: Responder, first: Arrival, rest: seq<Arrival>, b: seq<Arrival>)
    requires !NeedEof(respond(first))
    requires Serve(respond, rest + b) == Responses(respond, rest) + Serve(respond, b)
    ensures Serve(respond, [first] + (rest + b)) == Responses(respond, [first] + rest) + Serve(respond, b)
  {
    ServeCons(respond, first, rest + b);
    ResponsesSplit(respond, [first], rest);
    Associate(Responses(respond, [first]), Responses(respond, rest), Serve(respond, b));
  }

  /** If none of the first requests closes, they are all answered, and serving
      goes on with the rest. */
  lemma {:induction false} ServeAppend(respond: Responder, a: seq<Arrival>, b: seq<Arrival>)
    requires NoneCloses(respond, a)
    ensures Serve(respond, a + b) == Responses(respond, a) + Serve(respond, b)
  {
    if a == [] {
      assert a + b == b;
    } else {
      var first, rest := a[0], a[1..];
      ServeAppend(respond, rest, b);
      ServeAppendCons(respond, first, rest, b);
      assert a == [first] + rest;
      Associate([first], rest, b);
    }
  }

  lemma {:induction false} ServeMono(respond: Responder, a: seq<Arrival>, b: seq<Arrival>)
    requires a <= b
    ensures Serve(respond, a) <= Serve(respond, b)
  {
    if a == [] {
    } else {
      ServeMono(respond, a[1..], b[1..]);
    }
  }

  lemma PoppedAreServed(c: Config, s: Session)
    requires Inv(c, s)
    ensures |s.popped| <= |s.handled|
    ensures s.popped == Responses(c.respond, s.handled[..|s.popped|])
    ensures NoneCloses(c.respond, s.handled[..|s.popped|])
    ensures Serve(c.respond, s.handled) == s.popped + Serve(c.respond, s.handled[|s.popped|..])
  {
    AccountsMatch(c, s, 0);
    var done, rest := s.handled[..|s.popped|], s.handled[|s.popped|..];
    assert s.handled == done + rest;
    ResponsesSplit(c.respond, done, rest);
    assert s.popped == Responses(c.respond, done);
    ServeAppend(c.respond, done, rest);
  }

  /** What was written is a prefix of what the sequential server writes; it is all
      of that once the session closed, and once it drained its queue. */
  lemma WrittenVersusServed(c: Config, s: Session)
    requires Inv(c, s)
    ensures s.written <= Serve(c.respond, s.handled)
    ensures s.writeEnd.WriteClosed? || s.queue == [] ==> s.written == Serve(c.respond, s.handled)
  {
    PoppedAreServed(c, s);
    if s.writeEnd.WriteClosed? {
      AccountsMatch(c, s, |s.popped|);
      var rest := s.handled[|s.popped|..];
      assert c.respond(rest[0]) == s.queue[0];
    } else if s.queue == [] {
      AccountsMatch(c, s, 0);
    }
  }

  lemma QueueSplit(q: seq<Response>)
    ensures Front(q) <= q
  {
  }

  // ------------------------------------------------------------------ main results

  /** Responses appear on the wire in the order of the requests, none skipped,
      and stop after the first that closes: section 9.3.2 of RFC 9112. */
  lemma ResponsesInOrder(c: Config, es: seq<Event>)
    requires Schedule(c, Start(), es)
    ensures var s := Run(c, Start(), es);
            && s.written <= Responses(c.respond, s.handled)
            && s.written <= Serve(c.respond, s.handled)
            && (s.writeEnd.WriteClosed? ==> s.written == Serve(c.respond, s.handled))
  {
    StartInv(c);
    RunKeepsInv(c, Start(), es);
    var s := Run(c, Start(), es);
    WrittenVersusServed(c, s);
    QueueSplit(s.queue);
  }

  /** Conservation: each response to a handled request is either popped or still
      queued, in order, and writes were begun for the popped ones and the front. */
  lemma Conservation(c: Config, es: seq<Event>)
    requires Schedule(c, Start(), es)
    ensures var s := Run(c, Start(), es);
            && Responses(c.respond, s.handled) == s.popped + s.queue
            && s.started == s.popped + Front(s.queue)
            && |s.started| - |s.written| <= 1
            && s.written <= s.started
  {
    StartInv(c);
    RunKeepsInv(c, Start(), es);
  }

  /** Never more than one read and one write outstanding. While the read side has
      not ended, a read is outstanding exactly when the queue has room, even after
      the write side has died; a write is outstanding exactly while the write side
      lives and the queue holds work, and it is a write of the front item. */
  lemma Arming(c: Config, es: seq<Event>)
    requires Schedule(c, Start(), es)
    ensures var s := Run(c, Start(), es);
            && s.readOps <= 1 && |s.writeOps| <= 1
            && (s.readOps == 1 <==> s.readEnd.ReadOpen? && |s.queue| < c.limit)
            && (s.writeOps != [] <==> s.writeEnd.WriteOpen? && s.queue != [])
            && (s.writeOps != [] ==> s.queue != [] && s.writeOps[0] == s.queue[0])
  {
    StartInv(c);
    RunKeepsInv(c, Start(), es);
  }

  /** The queue stays within its reserved capacity, and no write completion ever
      finds it empty. */
  lemma BoundedAndSafe(c: Config, es: seq<Event>)
    requires Schedule(c, Start(), es)
    ensures |Run(c, Start(), es).queue| <= c.limit && !Run(c, Start(), es).fault
  {
    StartInv(c);
    RunKeepsInv(c, Start(), es);
  }

  predicate Quiescent(s: Session)
  {
    s.readOps == 0 && s.writeOps == []
  }

  predicate Live(s: Session)
  {
    s.readEnd.ReadOpen? && s.writeEnd.WriteOpen?
  }

  /** The session has nothing outstanding, and so loses its last reference, exactly
      when the read side ended with nothing left to write, or the write side ended
      and the read side ended or found the queue full. A live session never does. */
  lemma NoLostWakeup(c: Config, es: seq<Event>)
    requires Schedule(c, Start(), es)
    ensures var s := Run(c, Start(), es);
            && (Live(s) ==> 1 <= s.readOps + |s.writeOps| <= 2)
            && (Quiescent(s) <==>
                || (!s.readEnd.ReadOpen? && (s.queue == [] || !s.writeEnd.WriteOpen?))
                || (!s.writeEnd.WriteOpen? && |s.queue| == c.limit))
  {
    StartInv(c);
    RunKeepsInv(c, Start(), es);
  }

  // -------------------------------------------------------------------- confluence

  /** A run is done with `input` when it closed, or handled all of it and drained. */
  predicate Done(s: Session, input: seq<Arrival>)
  {
    s.handled <= input && (s.writeEnd.WriteClosed? || (s.handled == input && s.queue == []))
  }

  lemma ServeClosing(respond: Responder, arrivals: seq<Arrival>)
    requires arrivals != [] && NeedEof(respond(arrivals[0]))
    ensures Serve(respond, arrivals) == [respond(arrivals[0])]
  {
  }

  lemma DoneWritesAll(c: Config, s: Session, input: seq<Arrival>)
    requires Inv(c, s) && Done(s, input)
    ensures s.written == Serve(c.respond, input)
  {
    if s.writeEnd.WriteClosed? {
      PoppedAreServed(c, s);
      var n := |s.popped|;
      AccountsMatch(c, s, n);
      var answered, rest := s.handled[..n], input[n..];
      assert input == answered + rest;
      ServeAppend(c.respond, answered, rest);
      assert rest[0] == s.handled[n];
      ServeClosing(c.respond, rest);
    } else {
      WrittenVersusServed(c, s);
    }
  }

  /** Neither the interleaving nor the limit shows on the wire: two runs that are
      done with the same requests have written the same responses. */
  lemma Confluence(c1: Config, c2: Config, es1: seq<Event>, es2: seq<Event>, input: seq<Arrival>)
    requires c1.respond == c2.respond
    requires Schedule(c1, Start(), es1) && Schedule(c2, Start(), es2)
    requires Done(Run(c1, Start(), es1), input) && Done(Run(c2, Start(), es2), input)
    ensures Run(c1, Start(), es1).written == Run(c2, Start(), es2).written == Serve(c1.respond, input)
  {
    StartInv(c1);
    StartInv(c2);
    RunKeepsInv(c1, Start(), es1);
    RunKeepsInv(c2, Start(), es2);
    DoneWritesAll(c1, Run(c1, Start(), es1), input);
    DoneWritesAll(c2, Run(c2, Start(), es2), input);
  }

  /** One request handled and its response written, from an idle live session. */
  lemma Exchange(c: Config, s: Session, a: Arrival)
    requires Inv(c, s) && Live(s) && s.queue == [] && !IsUpgrade(a.req)
    ensures Enabled(s, ReadOk(a)) && Enabled(Step(c, s, ReadOk(a)), WriteOk)
    ensures var t := Step(c, Step(c, s, ReadOk(a)), WriteOk);
            && Inv(c, t) && t.handled == s.handled + [a]
            && (t.writeEnd.WriteClosed? || (Live(t) && t.queue == []))
  {
    ReadOkEffect(c, s, a);
    WriteOkEffect(c, Step(c, s, ReadOk(a)));
  }

  /** Confluence is not vacuous: for every list of requests and every limit some
      schedule is done with it. */
  lemma {:induction false} SomeScheduleIsDone(c: Config, s: Session, input: seq<Arrival>) returns (es: seq<Event>)
    requires Inv(c, s) && Live(s) && s.queue == []
    requires forall a <- input :: !IsUpgrade(a.req)
    ensures Schedule(c, s, es) && Done(Run(c, s, es), s.handled + input)
    decreases input
  {
    if input == [] {
      assert s.handled + input == s.handled;
      return [];
    }
    var a, later := input[0], input[1..];
    Exchange(c, s, a);
    var t := Step(c, s, ReadOk(a));
    var u := Step(c, t, WriteOk);
    assert s.handled + input == u.handled + later;
    var rest := [];
    if !u.writeEnd.WriteClosed? {
      rest := SomeScheduleIsDone(c, u, later);
    }
    ScheduleCons(c, t, WriteOk, rest);
    ScheduleCons(c, s, ReadOk(a), [WriteOk] + rest);
    es := [ReadOk(a)] + ([WriteOk] + rest);
  }

  function WriteOks(n: nat): (es: seq<Event>)
  {
    if n == 0 then [] else [WriteOk] + WriteOks(n - 1)
  }

  /** No further write on the stream can succeed: its sending side was shut down, or
      it was moved away. */
  predicate Severed(s: Session)
  {
    s.shutdowns > 0 || !s.holdsStream
  }

  lemma DrainStep(c: Config, s: Session)
    requires Inv(c, s) && s.writeEnd.WriteOpen? && !Severed(s) && s.queue != []
    ensures Enabled(s, WriteOk)
    ensures var t := Step(c, s, WriteOk);
            && Inv(c, t) && t.handled == s.handled && t.stray == s.stray
            && if NeedEof(s.queue[0]) then t.writeEnd.WriteClosed?
               else t.writeEnd.WriteOpen? && !Severed(t) && |t.queue| == |s.queue| - 1
  {
    WriteOkEffect(c, s);
  }

  /** Nothing is stuck: while the write side lives and the stream can carry writes, at
      most as many write completions as there are queued responses deliver all that
      is owed. What happens once the stream is severed is said below. */
  lemma {:induction false} DrainDelivers(c: Config, s: Session) returns (n: nat)
    requires Inv(c, s) && s.writeEnd.WriteOpen? && !Severed(s)
    ensures n <= |s.queue| && Schedule(c, s, WriteOks(n))
    ensures Run(c, s, WriteOks(n)).handled == s.handled
    ensures Run(c, s, WriteOks(n)).written == Serve(c.respond, s.handled)
    ensures Run(c, s, WriteOks(n)).stray == s.stray
    decreases |s.queue|
  {
    if s.queue == [] {
      WrittenVersusServed(c, s);
      return 0;
    }
    var t := Step(c, s, WriteOk);
    DrainStep(c, s);
    var k := 0;
    if t.writeEnd.WriteClosed? {
      WrittenVersusServed(c, t);
    } else {
      k := DrainDelivers(c, t);
    }
    ScheduleCons(c, s, WriteOk, WriteOks(k));
    n := k + 1;
  }

  // --------------------------------------------------------- after one side ended

  /** What is left to do once a side ended: drain what is queued if only the read
      side ended, fill the queue if only the write side did. */
  function Measure(c: Config, s: Session): (n: int)
  {
    (if s.readEnd.ReadOpen? then c.limit - |s.queue| else 0)
    + (if s.writeEnd.WriteOpen? then |s.queue| else 0)
  }

  lemma {:induction false} EndedStepDecreases(c: Config, s: Session, e: Event)
    requires Inv(c, s) && Enabled(s, e) && !Live(s)
    ensures !Live(Step(c, s, e)) && 0 <= Measure(c, Step(c, s, e)) < Measure(c, s)
  {
    StepKeepsInv(c, s, e);
  }

  /** Once either side ended, every continuation is over after at most `Measure`
      callbacks, which is at most the limit, and the session is quiescent exactly
      when the measure has run out. */
  lemma {:induction false} EndedRunTerminates(c: Config, s: Session, es: seq<Event>)
    requires Inv(c, s) && !Live(s) && Schedule(c, s, es)
    ensures 0 <= Measure(c, s) <= c.limit
    ensures |es| + Measure(c, Run(c, s, es)) <= Measure(c, s)
    ensures Quiescent(Run(c, s, es)) <==> Measure(c, Run(c, s, es)) == 0
    decreases es
  {
    if es == [] {
    } else {
      EndedStepDecreases(c, s, es[0]);
      StepKeepsInv(c, s, es[0]);
      EndedRunTerminates(c, Step(c, s, es[0]), es[1..]);
    }
  }

  lemma DeadWriteStep(c: Config, s: Session, e: Event)
    requires Inv(c, s) && !s.writeEnd.WriteOpen? && Enabled(s, e)
    ensures var t := Step(c, s, e);
            && Inv(c, t)
            && t.started == s.started && t.written == s.written && t.popped == s.popped
            && t.writeEnd == s.writeEnd && s.queue <= t.queue && s.handled <= t.handled
  {
    if e.ReadOk? && !IsUpgrade(e.arrival.req) {
      ReadOkEffect(c, s, e.arrival);
    } else {
      StepKeepsInv(c, s, e);
    }
  }

  /** The dead write side stays dead: no write is ever begun again, the front item
      stays, and the requests still handled are no more than the queue has room for. */
  lemma {:induction false} WriteSideStaysDead(c: Config, s: Session, es: seq<Event>)
    requires Inv(c, s) && !s.writeEnd.WriteOpen? && Schedule(c, s, es)
    ensures var t := Run(c, s, es);
            && t.started == s.started && t.written == s.written && t.popped == s.popped
            && t.writeOps == [] && t.writeEnd == s.writeEnd
            && s.queue <= t.queue && t.queue != []
            && s.handled <= t.handled && |t.handled| - |s.handled| <= c.limit - |s.queue|
    decreases es
  {
    RunKeepsInv(c, s, es);
    AccountsMatch(c, s, 0);
    AccountsMatch(c, Run(c, s, es), 0);
    if es == [] {
    } else {
      DeadWriteStep(c, s, es[0]);
      WriteSideStaysDead(c, Step(c, s, es[0]), es[1..]);
    }
  }

  lemma DeadReadStep(c: Config, s: Session, e: Event)
    requires Inv(c, s) && !s.readEnd.ReadOpen? && Enabled(s, e)
    ensures var t := Step(c, s, e);
            && Inv(c, t)
            && t.readEnd == s.readEnd && t.handled == s.handled
            && (t.queue == s.queue || (s.queue != [] && t.queue == s.queue[1..]))
  {
    StepKeepsInv(c, s, e);
    if e.WriteOk? {
      WriteOkEffect(c, s);
    }
  }

  /** The dead read side stays dead: no write completion arms a read again, so no
      further request is handled and the queue only shrinks. */
  lemma {:induction false} ReadSideStaysDead(c: Config, s: Session, es: seq<Event>)
    requires Inv(c, s) && !s.readEnd.ReadOpen? && Schedule(c, s, es)
    ensures var t := Run(c, s, es);
            && t.readOps == 0 && t.readEnd == s.readEnd && t.handled == s.handled
            && |t.queue| <= |s.queue| && t.queue == s.queue[|s.queue| - |t.queue|..]
    decreases es
  {
    RunKeepsInv(c, s, es);
    if es == [] {
    } else {
      DeadReadStep(c, s, es[0]);
      ReadSideStaysDead(c, Step(c, s, es[0]), es[1..]);
    }
  }

  /** Some continuation of `s` gives exactly `k` more requests to the handler. */
  ghost predicate CanHandle(c: Config, s: Session, k: nat)
  {
    exists es :: Schedule(c, s, es) && |Run(c, s, es).handled| == |s.handled| + k
  }

  const PLAIN := Arrival(Request(Get, "/", 11, {}, {}), Missing)

  lemma {:induction false} FillsQueue(c: Config, s: Session, k: nat) returns (es: seq<Event>)
    requires Inv(c, s) && s.readEnd.ReadOpen? && k <= c.limit - |s.queue|
    ensures Schedule(c, s, es) && |Run(c, s, es).handled| == |s.handled| + k
    ensures s.handled <= Run(c, s, es).handled
    decreases k
  {
    if k == 0 {
      return [];
    }
    ReadOkEffect(c, s, PLAIN);
    var rest := FillsQueue(c, Step(c, s, ReadOk(PLAIN)), k - 1);
    ScheduleCons(c, s, ReadOk(PLAIN), rest);
    es := [ReadOk(PLAIN)] + rest;
  }

  /** A session that can write no more, because it closed or failed, goes on handling
      requests it will never answer: `k` more, for exactly those `k` the queue has
      room for while the read side is open. */
  lemma HandlesAfterCloseIff(c: Config, s: Session, k: nat)
    requires Inv(c, s) && !s.writeEnd.WriteOpen?
    ensures CanHandle(c, s, k) <==> k == 0 || (s.readEnd.ReadOpen? && k <= c.limit - |s.queue|)
  {
    if k == 0 {
      assert Schedule(c, s, []) && Run(c, s, []) == s;
    } else if s.readEnd.ReadOpen? && k <= c.limit - |s.queue| {
      var es := FillsQueue(c, s, k);
    } else {
      forall es | Schedule(c, s, es) ensures |Run(c, s, es).handled| != |s.handled| + k {
        if s.readEnd.ReadOpen? {
          WriteSideStaysDead(c, s, es);
        } else {
          ReadSideStaysDead(c, s, es);
        }
      }
    }
  }

  lemma StuckHandlesNone(c: Config, s: Session, es: seq<Event>)
    requires Inv(c, s) && Schedule(c, s, es)
    requires |s.queue| == c.limit && (!s.writeEnd.WriteOpen? || NeedEof(s.queue[0]))
    ensures |Run(c, s, es).handled| == |s.handled|
  {
    if s.writeEnd.WriteOpen? && es != [] {
      StepKeepsInv(c, s, es[0]);
      WriteSideStaysDead(c, Step(c, s, es[0]), es[1..]);
    } else if es != [] {
      WriteSideStaysDead(c, s, es);
    }
  }

  /** Any session, live or not, can handle one more request exactly if its read side is
      open and the queue has room, or will have once a front that does not close is out. */
  lemma HandlesMoreIff(c: Config, s: Session)
    requires Inv(c, s)
    ensures CanHandle(c, s, 1)
       <==> s.readEnd.ReadOpen?
            && (|s.queue| < c.limit || (s.writeEnd.WriteOpen? && !NeedEof(s.queue[0])))
  {
    if !s.readEnd.ReadOpen? {
      forall es | Schedule(c, s, es) ensures Run(c, s, es).handled == s.handled {
        ReadSideStaysDead(c, s, es);
      }
    } else if |s.queue| < c.limit {
      var es := FillsQueue(c, s, 1);
    } else if s.writeEnd.WriteOpen? && !NeedEof(s.queue[0]) {
      PopKeepsInv(c, s);
      PopEffect(c, s);
      var es := FillsQueue(c, Step(c, s, WriteOk), 1);
      ScheduleCons(c, s, WriteOk, es);
    } else {
      forall es | Schedule(c, s, es) ensures |Run(c, s, es).handled| == |s.handled| {
        StuckHandlesNone(c, s, es);
      }
    }
  }

  // ------------------------------------------------------ after the stream is severed

  /** Some continuation of `s` begins another write. */
  ghost predicate CanBeginWrite(c: Config, s: Session)
  {
    exists es :: Schedule(c, s, es) && |Run(c, s, es).started| > |s.started|
  }

  lemma {:induction false} NoFurtherWrite(c: Config, s: Session, es: seq<Event>)
    requires Inv(c, s) && !s.readEnd.ReadOpen? && Schedule(c, s, es)
    requires s.writeOps == [] || |s.queue| == 1 || NeedEof(s.queue[0])
    ensures |Run(c, s, es).started| == |s.started|
    decreases es
  {
    if es == [] {
    } else {
      StepKeepsInv(c, s, es[0]);
      NoFurtherWrite(c, Step(c, s, es[0]), es[1..]);
    }
  }

  /** When a read has found the end of the stream, the sending side is shut down at
      once; the session still begins another write, which can only fail, exactly if
      a write is outstanding that does not close and more work follows it. */
  lemma WritesAfterReadEndIff(c: Config, s: Session)
    requires Inv(c, s) && !s.readEnd.ReadOpen?
    ensures CanBeginWrite(c, s) <==> s.writeOps != [] && |s.queue| >= 2 && !NeedEof(s.queue[0])
  {
    if s.writeOps != [] && |s.queue| >= 2 && !NeedEof(s.queue[0]) {
      PopEffect(c, s);
      ScheduleCons(c, s, WriteOk, []);
      assert Schedule(c, s, [WriteOk] + []);
    } else {
      forall es | Schedule(c, s, es) ensures |Run(c, s, es).started| == |s.started| {
        NoFurtherWrite(c, s, es);
      }
    }
  }

  /** All that is owed may still reach the client, without a write begun after `s`. */
  ghost predicate MayDeliver(c: Config, s: Session)
  {
    exists es :: Schedule(c, s, es) && Run(c, s, es).written <= s.started
                 && Run(c, s, es).written == Serve(c.respond, s.handled)
  }

  /** Some continuation comes to an end with an answer owed not written. */
  ghost predicate MayLose(c: Config, s: Session)
  {
    exists es :: Schedule(c, s, es) && Quiescent(Run(c, s, es))
                 && Run(c, s, es).written != Serve(c.respond, s.handled)
  }

  lemma Owed(c: Config, s: Session)
    requires Inv(c, s)
    ensures s.queue != [] ==> |Serve(c.respond, s.handled)| > |s.popped|
    ensures |s.queue| >= 2 && !NeedEof(s.queue[0]) ==> |Serve(c.respond, s.handled)| > |s.popped| + 1
  {
    PoppedAreServed(c, s);
    AccountsMatch(c, s, |s.popped|);
    var rest := s.handled[|s.popped|..];
    if |s.queue| >= 2 {
      assert rest == [rest[0]] + rest[1..] && rest[1..] != [];
    }
  }

  /** After the end of the stream or an upgrade, writes begun later are in vain, so an
      answer is certain to be lost unless no write failed and the write outstanding,
      if any, is the last: the only work left, or a closing one. In that case all
      answers arrive if that write, which may be cut short as well, succeeds. */
  lemma DeliveryAfterSeveringIff(c: Config, s: Session)
    requires Inv(c, s) && (s.readEnd.ReadEof? || s.readEnd.Upgraded?)
    ensures Severed(s)
    ensures MayDeliver(c, s)
       <==> !s.writeEnd.WriteFailed? && (|s.queue| <= 1 || NeedEof(s.queue[0]))
  {
    Owed(c, s);
    if s.writeEnd.WriteFailed? {
      forall es | Schedule(c, s, es) ensures Run(c, s, es).written == s.popped {
        WriteSideStaysDead(c, s, es);
      }
    } else if s.writeOps == [] {
      WrittenVersusServed(c, s);
      assert Schedule(c, s, []) && Run(c, s, []) == s;
    } else if |s.queue| <= 1 || NeedEof(s.queue[0]) {
      WriteOkEffect(c, s);
      var t := Step(c, s, WriteOk);
      WrittenVersusServed(c, t);
      ScheduleCons(c, s, WriteOk, []);
      assert Schedule(c, s, [WriteOk] + []) && Run(c, s, [WriteOk] + []) == t;
    }
  }

  /** Once the read side has ended, an answer can be lost exactly if one is queued, the
      one being written included, and the session has not closed. */
  lemma MayLoseIff(c: Config, s: Session)
    requires Inv(c, s) && !s.readEnd.ReadOpen?
    ensures MayLose(c, s) <==> s.queue != [] && !s.writeEnd.WriteClosed?
  {
    Owed(c, s);
    if s.queue == [] || s.writeEnd.WriteClosed? {
      WrittenVersusServed(c, s);
      forall es | Schedule(c, s, es) ensures Run(c, s, es) == s {
        assert es == [];
      }
    } else if s.writeEnd.WriteFailed? {
      assert Schedule(c, s, []) && Run(c, s, []) == s;
    } else {
      StepKeepsInv(c, s, WriteError);
      ScheduleCons(c, s, WriteError, []);
      assert Schedule(c, s, [WriteError] + []);
    }
  }

  // --------------------------------------------------------------------- the close

  /** The handler the server ships with. */
  function Shipped(settings: Settings): (respond: Responder)
  {
    a => Handler.Respond(settings, a)
  }

  lemma WrittenAnswers(c: Config, s: Session, i: nat)
    requires Inv(c, s) && i < |s.written|
    ensures |s.written| <= |s.handled| && c.respond(s.handled[i]) == s.written[i]
    ensures NeedEof(s.written[i]) <==> s.writeEnd.WriteClosed? && i == |s.written| - 1
  {
    AccountsMatch(c, s, i);
    if i < |s.popped| {
      assert s.popped[i] in s.popped;
    }
  }

  /** The session closes from a write completion exactly when it has written the
      response to the first handled request that does not persist. */
  lemma ClosePoint(c: Config, settings: Settings, es: seq<Event>)
    requires Schedule(c, Start(), es) && c.respond == Shipped(settings)
    ensures var s := Run(c, Start(), es);
            && |s.written| <= |s.handled|
            && (s.writeEnd.WriteClosed? <==>
                s.written != [] && !Persistent(s.handled[|s.written| - 1].req))
            && forall i :: 0 <= i < |s.written| - 1 ==> Persistent(s.handled[i].req)
  {
    StartInv(c);
    RunKeepsInv(c, Start(), es);
    var s := Run(c, Start(), es);
    AccountsMatch(c, s, 0);
    forall i | 0 <= i < |s.written|
      ensures Persistent(s.handled[i].req) <==> !(s.writeEnd.WriteClosed? && i == |s.written| - 1)
    {
      WrittenAnswers(c, s, i);
    }
  }

  /** The same by the tokens in the requests: after an answer to an HTTP/1.0 request
      the session closes unless keep-alive was asked for, to an HTTP/1.1 request if
      close was. */
  lemma ClosePointByTokens(c: Config, settings: Settings, es: seq<Event>, i: nat)
    requires Schedule(c, Start(), es) && c.respond == Shipped(settings)
    requires i < |Run(c, Start(), es).written|
    ensures i < |Run(c, Start(), es).handled|
    ensures var s := Run(c, Start(), es);
            var req, closed := s.handled[i].req, s.writeEnd.WriteClosed? && i == |s.written| - 1;
            && (req.version == 10 ==> (closed <==> KeepAliveToken !in req.connection))
            && (req.version == 11 ==> (closed <==> CloseToken in req.connection))
  {
    StartInv(c);
    RunKeepsInv(c, Start(), es);
    WrittenAnswers(c, Run(c, Start(), es), i);
  }

  // ------------------------------------------------------- what the events decide

  /** The requests for the handler among the events. */
  function Arrivals(es: seq<Event>): (arrivals: seq<Arrival>)
  {
    if es == [] then []
    else (if es[0].ReadOk? && !IsUpgrade(es[0].arrival.req) then [es[0].arrival] else []) + Arrivals(es[1..])
  }

  predicate HasUpgrade(es: seq<Event>)
  {
    es != [] && ((es[0].ReadOk? && IsUpgrade(es[0].arrival.req)) || HasUpgrade(es[1..]))
  }

  function WritesCompleted(es: seq<Event>): (n: nat)
  {
    if es == [] then 0 else (if es[0].WriteOk? then 1 else 0) + WritesCompleted(es[1..])
  }

  lemma StepByEvent(c: Config, s: Session, e: Event)
    requires Inv(c, s) && Enabled(s, e)
    ensures var t := Step(c, s, e);
            && Inv(c, t)
            && t.handled == s.handled + Arrivals([e])
            && |t.written| == |s.written| + WritesCompleted([e])
            && (t.readEnd.ReadEof? <==> s.readEnd.ReadEof? || e.ReadAtEof?)
            && (t.readEnd.ReadFailed? <==> s.readEnd.ReadFailed? || e.ReadError?)
            && (t.readEnd.Upgraded? <==> s.readEnd.Upgraded? || HasUpgrade([e]))
            && (t.writeEnd.WriteFailed? <==> s.writeEnd.WriteFailed? || e.WriteError?)
  {
    StepKeepsInv(c, s, e);
    assert [e][1..] == [];
    if e.ReadOk? && !IsUpgrade(e.arrival.req) {
      ReadOkEffect(c, s, e.arrival);
    } else if e.WriteOk? {
      WriteOkEffect(c, s);
    }
  }

  lemma EventsCons(e: Event, es: seq<Event>)
    ensures Arrivals([e] + es) == Arrivals([e]) + Arrivals(es)
    ensures WritesCompleted([e] + es) == WritesCompleted([e]) + WritesCompleted(es)
    ensures HasUpgrade([e] + es) <==> HasUpgrade([e]) || HasUpgrade(es)
  {
    assert ([e] + es)[1..] == es && [e][1..] == [];
  }

  lemma {:induction false} RunByEvents(c: Config, s: Session, es: seq<Event>)
    requires Inv(c, s) && Schedule(c, s, es)
    ensures var t := Run(c, s, es);
            && t.handled == s.handled + Arrivals(es)
            && |t.written| == |s.written| + WritesCompleted(es)
            && (t.readEnd.ReadEof? <==> s.readEnd.ReadEof? || ReadAtEof in es)
            && (t.readEnd.ReadFailed? <==> s.readEnd.ReadFailed? || ReadError in es)
            && (t.readEnd.Upgraded? <==> s.readEnd.Upgraded? || HasUpgrade(es))
            && (t.writeEnd.WriteFailed? <==> s.writeEnd.WriteFailed? || WriteError in es)
    decreases es
  {
    if es == [] {
    } else {
      var e, rest := es[0], es[1..];
      StepByEvent(c, s, e);
      RunByEvents(c, Step(c, s, e), rest);
      EventsCons(e, rest);
      assert es == [e] + rest;
      Associate(s.handled, Arrivals([e]), Arrivals(rest));
    }
  }

  /** What was handled, how much was written and how each side ended is just what the
      environment's events say; nothing else ends a side, and no event is ignored. A
      half-close or a close is answered by one shutdown each, an error by none. */
  lemma EventsDecide(c: Config, es: seq<Event>)
    requires Schedule(c, Start(), es)
    ensures var s := Run(c, Start(), es);
            && s.handled == Arrivals(es)
            && |s.written| == WritesCompleted(es)
            && (s.readEnd.ReadEof? <==> ReadAtEof in es)
            && (s.readEnd.ReadFailed? <==> ReadError in es)
            && (s.readEnd.Upgraded? <==> HasUpgrade(es))
            && (s.writeEnd.WriteFailed? <==> WriteError in es)
            && s.shutdowns == (if ReadAtEof in es then 1 else 0) + (if s.writeEnd.WriteClosed? then 1 else 0)
  {
    StartInv(c);
    RunByEvents(c, Start(), es);
    RunKeepsInv(c, Start(), es);
  }

  // ------------------------------------------------------------------- the upgrade

  /** Some continuation of `s` begins an operation on a stream it no longer holds. */
  ghost predicate CanStray(c: Config, s: Session)
  {
    exists es :: Schedule(c, s, es) && Run(c, s, es).stray > s.stray
  }

  lemma {:induction false} NoStray(c: Config, s: Session, es: seq<Event>)
    requires Inv(c, s) && s.readEnd.Upgraded? && Schedule(c, s, es)
    requires s.writeOps == [] || (|s.queue| == 1 && !NeedEof(s.queue[0]))
    ensures Run(c, s, es).stray == s.stray
    decreases es
  {
    if es == [] {
    } else {
      StepKeepsInv(c, s, es[0]);
      NoStray(c, Step(c, s, es[0]), es[1..]);
    }
  }

  /** After a hand-over the old session can still touch the stream exactly when a
      write is outstanding that more work, or a close, follows. */
  lemma StrayIff(c: Config, s: Session)
    requires Inv(c, s) && s.readEnd.Upgraded?
    ensures CanStray(c, s) <==> s.writeOps != [] && (|s.queue| >= 2 || NeedEof(s.queue[0]))
  {
    if s.writeOps != [] && (|s.queue| >= 2 || NeedEof(s.queue[0])) {
      var es := [WriteOk];
      var t := Step(c, s, WriteOk);
      assert es[1..] == [];
      assert Schedule(c, t, []);
      assert Schedule(c, s, es) && Run(c, s, es) == t;
    } else {
      forall es | Schedule(c, s, es) ensures Run(c, s, es).stray == s.stray {
        NoStray(c, s, es);
      }
    }
  }
}
