/** The WebSocket session: it echoes each message it receives, one at a time, out
    of a single buffer that reads fill and writes are taken from. */
module Echo {
  import opened Messages
  import opened Sequences

  datatype Message = Message(text: bool, payload: Bytes)

  /** A data frame: section 5.4 of RFC 6455. Continuations carry no type. */
  datatype Frame = First(text: bool, payload: Bytes, fin: bool) | Continuation(payload: Bytes, fin: bool)

  // -------------------------------------------------- what frames mean: messages

  /** The complete messages in a list of frames, and the message begun last. */
  datatype Assembly = Assembly(done: seq<Message>, partial: Option<Message>)

  function Begun(a: Assembly): (m: Message)
  {
    if a.partial.Some? then a.partial.value else Message(false, [])
  }

  function Extend(a: Assembly, f: Frame): (b: Assembly)
  {
    var m := if f.First? then Message(f.text, f.payload)
             else Message(Begun(a).text, Begun(a).payload + f.payload);
    if f.fin then Assembly(a.done + [m], None) else Assembly(a.done, Some(m))
  }

  function Fold(a: Assembly, frames: seq<Frame>): (b: Assembly)
    decreases frames
  {
    if frames == [] then a else Fold(Extend(a, frames[0]), frames[1..])
  }

  function Assemble(frames: seq<Frame>): (b: Assembly)
  {
    Fold(Assembly([], None), frames)
  }

  /** A first frame starts a message, and only continuations follow until it ends. */
  predicate InSequence(frames: seq<Frame>, f: Frame)
  {
    f.First? <==> Assemble(frames).partial.None?
  }

  lemma {:induction false} FoldAppend(a: Assembly, x: seq<Frame>, y: seq<Frame>)
    ensures Fold(a, x + y) == Fold(Fold(a, x), y)
    decreases x
  {
    if x == [] {
      assert x + y == y;
    } else {
      assert (x + y)[1..] == x[1..] + y;
      FoldAppend(Extend(a, x[0]), x[1..], y);
    }
  }

  lemma AssembleSnoc(frames: seq<Frame>, f: Frame)
    ensures Assemble(frames + [f]) == Extend(Assemble(frames), f)
  {
    FoldAppend(Assembly([], None), frames, [f]);
    assert [f][1..] == [];
  }

  /** A message cut into the given non-empty list of fragments. */
  datatype Cut = Cut(text: bool, head: Bytes, tail: seq<Bytes>)

  function Continuations(parts: seq<Bytes>): (frames: seq<Frame>)
  {
    if parts == [] then [] else [Continuation(parts[0], |parts| == 1)] + Continuations(parts[1..])
  }

  function FramesOf(m: Cut): (frames: seq<Frame>)
  {
    [First(m.text, m.head, m.tail == [])] + Continuations(m.tail)
  }

  function Joined(parts: seq<Bytes>): (b: Bytes)
  {
    if parts == [] then [] else parts[0] + Joined(parts[1..])
  }

  function Whole(m: Cut): (r: Message)
  {
    Message(m.text, m.head + Joined(m.tail))
  }

  function AllFrames(ms: seq<Cut>): (frames: seq<Frame>)
  {
    if ms == [] then [] else FramesOf(ms[0]) + AllFrames(ms[1..])
  }

  function Wholes(ms: seq<Cut>): (messages: seq<Message>)
  {
    if ms == [] then [] else [Whole(ms[0])] + Wholes(ms[1..])
  }

  lemma ContinuationsCons(a: Assembly, parts: seq<Bytes>)
    requires parts != []
    ensures Fold(a, Continuations(parts))
         == Fold(Extend(a, Continuation(parts[0], |parts| == 1)), Continuations(parts[1..]))
  {
    assert Continuations(parts)[1..] == Continuations(parts[1..]);
  }

  lemma {:induction false} ContinuationsJoin(a: Assembly, parts: seq<Bytes>)
    requires a.partial.Some? && parts != []
    ensures Fold(a, Continuations(parts))
         == Assembly(a.done + [Message(Begun(a).text, Begun(a).payload + Joined(parts))], None)
    decreases parts
  {
    var part, rest := parts[0], parts[1..];
    ContinuationsCons(a, parts);
    if rest == [] {
      assert Joined(parts) == part;
    } else {
      ContinuationsJoin(Extend(a, Continuation(part, false)), rest);
      Associate(Begun(a).payload, part, Joined(rest));
    }
  }

  /** However a message is cut into frames, assembling them gives it back. */
  lemma CutReassembles(a: Assembly, m: Cut)
    requires a.partial.None?
    ensures Fold(a, FramesOf(m)) == Assembly(a.done + [Whole(m)], None)
  {
    assert FramesOf(m)[1..] == Continuations(m.tail);
    if m.tail == [] {
      assert m.head + [] == m.head;
    } else {
      ContinuationsJoin(Extend(a, FramesOf(m)[0]), m.tail);
    }
  }

  lemma {:induction false} CutsReassemble(a: Assembly, ms: seq<Cut>)
    requires a.partial.None?
    ensures Fold(a, AllFrames(ms)) == Assembly(a.done + Wholes(ms), None)
    decreases ms
  {
    if ms == [] {
      assert a.done + [] == a.done;
    } else {
      var b, rest := Assembly(a.done + [Whole(ms[0])], None), ms[1..];
      calc {
        Fold(a, AllFrames(ms));
        { FoldAppend(a, FramesOf(ms[0]), AllFrames(rest)); }
        Fold(Fold(a, FramesOf(ms[0])), AllFrames(rest));
        { CutReassembles(a, ms[0]); }
        Fold(b, AllFrames(rest));
        { CutsReassemble(b, rest); }
        Assembly(b.done + Wholes(rest), None);
        { Associate(a.done, [Whole(ms[0])], Wholes(rest)); }
        Assembly(a.done + Wholes(ms), None);
      }
    }
  }

  // ------------------------------------------------------------ the transition system

  /** A write sends what the buffer holds while the write runs; only its type is
      fixed when it begins. */
  datatype Channel = Channel(
    buffer: Bytes,
    accepts: nat,             // handshake responses outstanding
    readOps: nat,             // message reads outstanding
    writeOps: seq<bool>,      // message writes outstanding: whether each is text
    gotText: bool,            // the type of the message read last
    ended: bool,
    frames: seq<Frame>,       // every data frame received so far
    echoed: seq<Message>)     // every message whose write completed

  datatype Event =
    | AcceptOk | AcceptError
    | FrameIn(frame: Frame) | ReadEnded
    | WriteOk | WriteError

  function Arm(s: Channel): (t: Channel)
  {
    s.(readOps := s.readOps + 1)
  }

  function OnRead(s: Channel): (t: Channel)
  {
    s.(writeOps := s.writeOps + [s.gotText])
  }

  function OnWrite(s: Channel): (t: Channel)
  {
    Arm(s.(buffer := []))
  }

  predicate Enabled(s: Channel, e: Event)
  {
    match e
    case AcceptOk => s.accepts > 0
    case AcceptError => s.accepts > 0
    case FrameIn(f) => s.readOps > 0 && InSequence(s.frames, f)
    case ReadEnded => s.readOps > 0
    case WriteOk => s.writeOps != []
    case WriteError => s.writeOps != []
  }

  /** The library appends a frame to the buffer, and completes the read at the
      last frame of a message. */
  function Receive(s: Channel, f: Frame): (t: Channel)
  {
    s.(buffer := s.buffer + f.payload,
       gotText := if f.First? then f.text else s.gotText,
       frames := s.frames + [f])
  }

  function Step(s: Channel, e: Event): (t: Channel)
    requires Enabled(s, e)
  {
    match e
    case AcceptOk => Arm(s.(accepts := s.accepts - 1))
    case AcceptError => s.(accepts := s.accepts - 1, ended := true)
    case FrameIn(f) =>
      var t := Receive(s, f);
      if f.fin then OnRead(t.(readOps := t.readOps - 1)) else t
    case ReadEnded => s.(readOps := s.readOps - 1, ended := true)
    case WriteOk =>
      OnWrite(s.(writeOps := s.writeOps[1..], echoed := s.echoed + [Message(s.writeOps[0], s.buffer)]))
    case WriteError => s.(writeOps := s.writeOps[1..], ended := true)
  }

  /** Running the session sends the handshake response. */
  function Start(): (t: Channel)
  {
    Channel([], 1, 0, [], false, false, [], [])
  }

  predicate Schedule(s: Channel, es: seq<Event>)
    decreases es
  {
    es == [] || (Enabled(s, es[0]) && Schedule(Step(s, es[0]), es[1..]))
  }

  function Run(s: Channel, es: seq<Event>): (t: Channel)
    requires Schedule(s, es)
    decreases es
  {
    if es == [] then s else Run(Step(s, es[0]), es[1..])
  }

  /** One operation at a time. While reading, everything received was echoed and
      the buffer holds just the message begun; while writing, it holds the one
      message that is still to be echoed. */
  ghost predicate Inv(s: Channel)
  {
    var a := Assemble(s.frames);
    && s.accepts + s.readOps + |s.writeOps| == (if s.ended then 0 else 1)
    && (s.accepts == 1 ==> s.frames == [] && s.echoed == [] && s.buffer == [])
    && (s.readOps == 1 ==>
        && s.echoed == a.done
        && s.buffer == Begun(a).payload
        && (a.partial.Some? ==> s.gotText == Begun(a).text))
    && (s.writeOps != [] ==>
        && a.partial.None?
        && a.done == s.echoed + [Message(s.writeOps[0], s.buffer)])
    && s.echoed <= a.done
    && |a.done| <= |s.echoed| + 1
  }

  lemma FrameKeepsInv(s: Channel, f: Frame)
    requires Inv(s) && Enabled(s, FrameIn(f))
    ensures Inv(Step(s, FrameIn(f)))
  {
    AssembleSnoc(s.frames, f);
    assert f.First? ==> s.buffer + f.payload == f.payload;
  }

  lemma StepKeepsInv(s: Channel, e: Event)
    requires Inv(s) && Enabled(s, e)
    ensures Inv(Step(s, e))
  {
    if e.FrameIn? {
      FrameKeepsInv(s, e.frame);
    }
  }

  lemma {:induction false} RunKeepsInv(s: Channel, es: seq<Event>)
    requires Inv(s) && Schedule(s, es)
    ensures Inv(Run(s, es))
    decreases es
  {
    if es == [] {
    } else {
      StepKeepsInv(s, es[0]);
      RunKeepsInv(Step(s, es[0]), es[1..]);
    }
  }

  // ------------------------------------------------------------------ main results

  /** The messages echoed are a prefix of the messages received, at most one
      behind, with payload and type kept; none is owed while a read is outstanding. */
  lemma EchoesInOrder(es: seq<Event>)
    requires Schedule(Start(), es)
    ensures var s := Run(Start(), es);
            var received := Assemble(s.frames).done;
            && s.echoed <= received
            && |received| <= |s.echoed| + 1
            && (s.readOps > 0 ==> s.echoed == received)
            && s.accepts + s.readOps + |s.writeOps| == (if s.ended then 0 else 1)
  {
    RunKeepsInv(Start(), es);
  }

  /** Messages never run together. On every run, while a read is outstanding the
      buffer holds just what has arrived of the message being read; while a write is,
      it holds the one message that was received and not yet echoed. */
  lemma BufferHoldsOneMessage(es: seq<Event>)
    requires Schedule(Start(), es)
    ensures var s := Run(Start(), es);
            var a := Assemble(s.frames);
            && (s.readOps > 0 ==> s.buffer == Begun(a).payload)
            && (s.writeOps != [] ==>
                  a.partial.None? && a.done == s.echoed + [Message(s.writeOps[0], s.buffer)])
  {
    RunKeepsInv(Start(), es);
  }

  /** Whenever, on any run, an event arms a read, the buffer is empty and no message
      is under way. */
  lemma BufferEmptyWhenArmed(es: seq<Event>, e: Event)
    requires Schedule(Start(), es) && Enabled(Run(Start(), es), e)
    requires Step(Run(Start(), es), e).readOps > Run(Start(), es).readOps
    ensures var t := Step(Run(Start(), es), e);
            t.buffer == [] && t.readOps == 1 && Assemble(t.frames).partial.None? && t.echoed == Assemble(t.frames).done
  {
    RunKeepsInv(Start(), es);
    StepKeepsInv(Run(Start(), es), e);
  }

  lemma {:induction false} FoldOnlyAdds(a: Assembly, frames: seq<Frame>)
    ensures a.done <= Fold(a, frames).done
    decreases frames
  {
    if frames == [] {
    } else {
      FoldOnlyAdds(Extend(a, frames[0]), frames[1..]);
    }
  }

  /** At any time, finished or not, the echoes are the first of the messages the
      client is sending, however those are cut into frames. */
  lemma EchoesAreMessages(es: seq<Event>, more: seq<Frame>, cuts: seq<Cut>)
    requires Schedule(Start(), es)
    requires Run(Start(), es).frames + more == AllFrames(cuts)
    ensures Run(Start(), es).echoed <= Wholes(cuts)
  {
    EchoesInOrder(es);
    var frames, none := Run(Start(), es).frames, Assembly([], None);
    FoldAppend(none, frames, more);
    FoldOnlyAdds(Assemble(frames), more);
    CutsReassemble(none, cuts);
    assert [] + Wholes(cuts) == Wholes(cuts);
  }

  /** Fragmentation does not show: clients that send the same messages, however cut
      into frames, get the same echoes, namely those messages. */
  lemma FragmentationInvisible(es1: seq<Event>, es2: seq<Event>, cuts1: seq<Cut>, cuts2: seq<Cut>)
    requires Schedule(Start(), es1) && Schedule(Start(), es2)
    requires Run(Start(), es1).readOps > 0 && Run(Start(), es2).readOps > 0
    requires Run(Start(), es1).frames == AllFrames(cuts1)
    requires Run(Start(), es2).frames == AllFrames(cuts2)
    requires Wholes(cuts1) == Wholes(cuts2)
    ensures Run(Start(), es1).echoed == Run(Start(), es2).echoed == Wholes(cuts1)
  {
    EchoesInOrder(es1);
    EchoesInOrder(es2);
    CutsReassemble(Assembly([], None), cuts1);
    CutsReassemble(Assembly([], None), cuts2);
    assert [] + Wholes(cuts1) == Wholes(cuts1) && [] + Wholes(cuts2) == Wholes(cuts2);
  }

  // ------------------------------------------------------- what the events decide

  predicate IsError(e: Event)
  {
    e.AcceptError? || e.ReadEnded? || e.WriteError?
  }

  predicate HasError(es: seq<Event>)
  {
    es != [] && (IsError(es[0]) || HasError(es[1..]))
  }

  function FramesIn(es: seq<Event>): (frames: seq<Frame>)
  {
    if es == [] then [] else (if es[0].FrameIn? then [es[0].frame] else []) + FramesIn(es[1..])
  }

  lemma StepByEvent(s: Channel, e: Event)
    requires Inv(s) && Enabled(s, e)
    ensures Step(s, e).ended <==> s.ended || IsError(e)
    ensures Step(s, e).frames == s.frames + FramesIn([e])
  {
    assert [e][1..] == [];
  }

  lemma FramesInCons(e: Event, es: seq<Event>)
    ensures FramesIn([e] + es) == FramesIn([e]) + FramesIn(es)
    ensures HasError([e] + es) <==> IsError(e) || HasError(es)
  {
    assert ([e] + es)[1..] == es && [e][1..] == [];
  }

  lemma {:induction false} RunByEvents(s: Channel, es: seq<Event>)
    requires Inv(s) && Schedule(s, es)
    ensures Run(s, es).ended <==> s.ended || HasError(es)
    ensures Run(s, es).frames == s.frames + FramesIn(es)
    decreases es
  {
    if es == [] {
    } else {
      var e, rest := es[0], es[1..];
      StepKeepsInv(s, e);
      StepByEvent(s, e);
      RunByEvents(Step(s, e), rest);
      FramesInCons(e, rest);
      assert es == [e] + rest;
      Associate(s.frames, FramesIn([e]), FramesIn(rest));
    }
  }

  /** The session ends exactly at an error or the end of reading: until then one
      operation is always outstanding, so the next message is read and echoed too. */
  lemma EndsOnlyByError(es: seq<Event>)
    requires Schedule(Start(), es)
    ensures var s := Run(Start(), es);
            && (s.ended <==> HasError(es))
            && (s.accepts + s.readOps + |s.writeOps| == 1 <==> !HasError(es))
            && s.frames == FramesIn(es)
  {
    RunKeepsInv(Start(), es);
    RunByEvents(Start(), es);
  }

  lemma ScheduleCons(s: Channel, e: Event, es: seq<Event>)
    requires Enabled(s, e) && Schedule(Step(s, e), es)
    ensures Schedule(s, [e] + es) && Run(s, [e] + es) == Run(Step(s, e), es)
    ensures HasError([e] + es) <==> IsError(e) || HasError(es)
  {
    assert ([e] + es)[1..] == es;
  }

  lemma {:induction false} ScheduleJoin(s: Channel, x: seq<Event>, y: seq<Event>)
    requires Schedule(s, x) && Schedule(Run(s, x), y)
    ensures Schedule(s, x + y) && Run(s, x + y) == Run(Run(s, x), y)
    ensures HasError(x + y) <==> HasError(x) || HasError(y)
    decreases x
  {
    if x == [] {
      assert x + y == y;
    } else {
      ScheduleJoin(Step(s, x[0]), x[1..], y);
      ScheduleCons(s, x[0], x[1..] + y);
      assert x + y == [x[0]] + (x[1..] + y);
    }
  }

  /** A session that waits for the next message. */
  ghost predicate Waiting(s: Channel)
  {
    Inv(s) && s.readOps == 1 && Assemble(s.frames).partial.None?
  }

  /** The last frame of a message arrives and its echo is written. */
  lemma LastFrame(s: Channel, f: Frame)
    requires Inv(s) && s.readOps == 1 && InSequence(s.frames, f) && f.fin
    ensures Schedule(s, [FrameIn(f), WriteOk]) && !HasError([FrameIn(f), WriteOk])
    ensures var t := Run(s, [FrameIn(f), WriteOk]); Waiting(t) && t.frames == s.frames + [f]
  {
    var t := Step(s, FrameIn(f));
    FrameKeepsInv(s, f);
    AssembleSnoc(s.frames, f);
    StepKeepsInv(t, WriteOk);
    ScheduleCons(t, WriteOk, []);
    ScheduleCons(s, FrameIn(f), [WriteOk]);
  }

  lemma {:induction false} RestOfMessage(s: Channel, parts: seq<Bytes>) returns (es: seq<Event>)
    requires Inv(s) && s.readOps == 1 && Assemble(s.frames).partial.Some? && parts != []
    ensures Schedule(s, es) && !HasError(es)
    ensures Waiting(Run(s, es)) && Run(s, es).frames == s.frames + Continuations(parts)
    decreases parts
  {
    var f := Continuation(parts[0], |parts| == 1);
    if |parts| == 1 {
      LastFrame(s, f);
      assert Continuations(parts) == [f];
      return [FrameIn(f), WriteOk];
    }
    var t := Step(s, FrameIn(f));
    FrameKeepsInv(s, f);
    AssembleSnoc(s.frames, f);
    var rest := RestOfMessage(t, parts[1..]);
    ScheduleCons(s, FrameIn(f), rest);
    Associate(s.frames, [f], Continuations(parts[1..]));
    es := [FrameIn(f)] + rest;
  }

  lemma OneMessage(s: Channel, m: Cut) returns (es: seq<Event>)
    requires Waiting(s)
    ensures Schedule(s, es) && !HasError(es)
    ensures Waiting(Run(s, es)) && Run(s, es).frames == s.frames + FramesOf(m)
  {
    var f := First(m.text, m.head, m.tail == []);
    if m.tail == [] {
      LastFrame(s, f);
      assert FramesOf(m) == [f];
      return [FrameIn(f), WriteOk];
    }
    var t := Step(s, FrameIn(f));
    FrameKeepsInv(s, f);
    AssembleSnoc(s.frames, f);
    var rest := RestOfMessage(t, m.tail);
    ScheduleCons(s, FrameIn(f), rest);
    Associate(s.frames, [f], Continuations(m.tail));
    es := [FrameIn(f)] + rest;
  }

  lemma {:induction false} AllMessages(s: Channel, ms: seq<Cut>) returns (es: seq<Event>)
    requires Waiting(s)
    ensures Schedule(s, es) && !HasError(es)
    ensures Waiting(Run(s, es)) && Run(s, es).frames == s.frames + AllFrames(ms)
    decreases ms
  {
    if ms == [] {
      return [];
    }
    var first := OneMessage(s, ms[0]);
    var rest := AllMessages(Run(s, first), ms[1..]);
    ScheduleJoin(s, first, rest);
    Associate(s.frames, FramesOf(ms[0]), AllFrames(ms[1..]));
    es := first + rest;
  }

  lemma WaitingHasEchoed(s: Channel, ms: seq<Cut>)
    requires Waiting(s) && s.frames == AllFrames(ms)
    ensures s.echoed == Wholes(ms) && !s.ended
  {
    CutsReassemble(Assembly([], None), ms);
    assert [] + Wholes(ms) == Wholes(ms);
  }

  lemma AcceptedIsWaiting()
    ensures Enabled(Start(), AcceptOk)
    ensures Waiting(Step(Start(), AcceptOk)) && Step(Start(), AcceptOk).frames == []
  {
  }

  lemma MessagesFromWaiting(s: Channel, ms: seq<Cut>) returns (es: seq<Event>)
    requires Waiting(s) && s.frames == []
    ensures Schedule(s, es) && !HasError(es)
    ensures var t := Run(s, es);
            t.frames == AllFrames(ms) && t.echoed == Wholes(ms) && t.readOps == 1 && !t.ended
  {
    es := AllMessages(s, ms);
    assert [] + AllFrames(ms) == AllFrames(ms);
    WaitingHasEchoed(Run(s, es), ms);
  }

  /** Whatever messages a client sends, and however it cuts them, all of them can be
      echoed, without an error, in a run that ends waiting for the next. */
  lemma AllCanBeEchoed(ms: seq<Cut>) returns (es: seq<Event>)
    ensures Schedule(Start(), es) && !HasError(es)
    ensures var s := Run(Start(), es);
            s.frames == AllFrames(ms) && s.echoed == Wholes(ms) && s.readOps == 1 && !s.ended
  {
    AcceptedIsWaiting();
    var rest := MessagesFromWaiting(Step(Start(), AcceptOk), ms);
    ScheduleCons(Start(), AcceptOk, rest);
    es := [AcceptOk] + rest;
  }
}
