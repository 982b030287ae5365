/** Which of the exceptional states a session that starts afresh can get into, with
    the handler the server ships with. Each answer is an exact bound on the queue
    limit, and comes with the requests that lead there. */
module PipelineReach {
  import opened Messages
  import opened Handler
  import opened Pipeline
  import opened PipelineTheorems

  const CLOSING := Arrival(Request(Get, "/", 11, {CloseToken}, {}), Missing)
  const UPGRADE := Arrival(Request(Get, "/", 11, {UpgradeToken}, {"websocket"}), Missing)

  /** The answer to a plain request leaves the connection open, to a closing one not. */
  ghost predicate TellsApart(c: Config)
  {
    !NeedEof(c.respond(PLAIN)) && NeedEof(c.respond(CLOSING))
  }

  lemma ShippedTellsApart(c: Config, settings: Settings)
    requires c.respond == Shipped(settings)
    ensures TellsApart(c)
  {
  }

  lemma KindsOfRequest()
    ensures !IsUpgrade(PLAIN.req) && !IsUpgrade(CLOSING.req) && IsUpgrade(UPGRADE.req)
  {
  }

  /** With room for one response the queue is empty whenever the read side has ended. */
  lemma OneSlotDrainsFirst(c: Config, es: seq<Event>)
    requires c.limit == 1 && Schedule(c, Start(), es)
    ensures var s := Run(c, Start(), es);
            && Inv(c, s)
            && (!s.readEnd.ReadOpen? ==> s.queue == [] && Quiescent(s))
  {
    StartInv(c);
    RunKeepsInv(c, Start(), es);
  }

  // ------------------------------------------------------ answers lost at a half-close

  /** On `es` the client half-closed before any write failed. */
  ghost predicate HalfCloses(c: Config, es: seq<Event>)
  {
    && Schedule(c, Start(), es)
    && Run(c, Start(), es).readEnd.ReadEof?
    && !Run(c, Start(), es).writeEnd.WriteFailed?
  }

  /** ... and some answer owed is certain not to arrive. */
  ghost predicate LeadsToLoss(c: Config, es: seq<Event>)
  {
    HalfCloses(c, es) && !MayDeliver(c, Run(c, Start(), es))
  }

  /** ... and some answer owed may not arrive. */
  ghost predicate LeadsToRisk(c: Config, es: seq<Event>)
  {
    HalfCloses(c, es) && MayLose(c, Run(c, Start(), es))
  }

  lemma TwoQueued(c: Config)
    requires TellsApart(c) && c.limit >= 3
    ensures Enabled(Start(), ReadOk(PLAIN)) && Enabled(Step(c, Start(), ReadOk(PLAIN)), ReadOk(PLAIN))
    ensures var s := Step(c, Step(c, Start(), ReadOk(PLAIN)), ReadOk(PLAIN));
            && Inv(c, s) && s.readEnd.ReadOpen? && s.writeEnd.WriteOpen?
            && |s.queue| == 2 && !NeedEof(s.queue[0])
  {
    KindsOfRequest();
    StartInv(c);
    ReadOkEffect(c, Start(), PLAIN);
    ReadOkEffect(c, Step(c, Start(), ReadOk(PLAIN)), PLAIN);
  }

  /** Two requests are pipelined and the client half-closes before an answer is out. */
  lemma HalfCloseLosesAnswer(c: Config) returns (es: seq<Event>)
    requires TellsApart(c) && c.limit >= 3
    ensures es == [ReadOk(PLAIN), ReadOk(PLAIN), ReadAtEof]
    ensures LeadsToLoss(c, es)
  {
    TwoQueued(c);
    var s1 := Step(c, Start(), ReadOk(PLAIN));
    var s2 := Step(c, s1, ReadOk(PLAIN));
    ReadAtEofEffect(c, s2);
    DeliveryAfterSeveringIff(c, Step(c, s2, ReadAtEof));
    ScheduleCons(c, s2, ReadAtEof, []);
    ScheduleCons(c, s1, ReadOk(PLAIN), [ReadAtEof]);
    ScheduleCons(c, Start(), ReadOk(PLAIN), [ReadOk(PLAIN), ReadAtEof]);
    es := [ReadOk(PLAIN)] + ([ReadOk(PLAIN)] + [ReadAtEof]);
  }

  /** A half-close can make the loss of an answer certain exactly if the queue has
      room for three. */
  lemma CertainLossReachableIff(c: Config, settings: Settings)
    requires c.respond == Shipped(settings)
    ensures (exists es :: LeadsToLoss(c, es)) <==> c.limit >= 3
  {
    ShippedTellsApart(c, settings);
    if c.limit >= 3 {
      var es := HalfCloseLosesAnswer(c);
    } else {
      forall es | Schedule(c, Start(), es) ensures !LeadsToLoss(c, es) {
        StartInv(c);
        RunKeepsInv(c, Start(), es);
        var s := Run(c, Start(), es);
        if s.readEnd.ReadEof? {
          DeliveryAfterSeveringIff(c, s);
        }
      }
    }
  }

  /** One request is read and the client half-closes before its answer is out. */
  lemma HalfCloseRisksAnswer(c: Config) returns (es: seq<Event>)
    requires TellsApart(c) && c.limit >= 2
    ensures es == [ReadOk(PLAIN), ReadAtEof]
    ensures LeadsToRisk(c, es)
  {
    KindsOfRequest();
    StartInv(c);
    var s1 := Step(c, Start(), ReadOk(PLAIN));
    ReadOkEffect(c, Start(), PLAIN);
    var s2 := Step(c, s1, ReadAtEof);
    ReadAtEofEffect(c, s1);
    MayLoseIff(c, s2);
    ScheduleCons(c, s1, ReadAtEof, []);
    ScheduleCons(c, Start(), ReadOk(PLAIN), [ReadAtEof]);
    es := [ReadOk(PLAIN)] + [ReadAtEof];
  }

  /** A half-close can lose answers exactly if the session can pipeline. */
  lemma LossReachableIff(c: Config, settings: Settings)
    requires c.respond == Shipped(settings)
    ensures (exists es :: LeadsToRisk(c, es)) <==> c.limit >= 2
  {
    ShippedTellsApart(c, settings);
    if c.limit >= 2 {
      var es := HalfCloseRisksAnswer(c);
    } else {
      forall es | HalfCloses(c, es) ensures !LeadsToRisk(c, es) {
        OneSlotDrainsFirst(c, es);
        MayLoseIff(c, Run(c, Start(), es));
      }
    }
  }

  // -------------------------------------------------------- touching a stream moved away

  /** An upgrade is read while a closing write is outstanding, which then completes. */
  lemma CloseAfterUpgrade(c: Config, s: Session)
    requires Inv(c, s) && s.readOps > 0 && s.writeOps != [] && NeedEof(s.queue[0])
    ensures var t := Step(c, s, ReadOk(UPGRADE));
            Enabled(t, WriteOk) && Step(c, t, WriteOk).stray == 1
  {
    assert IsUpgrade(UPGRADE.req);
  }

  /** A closing request and an upgrade are pipelined: the close that follows the
      answer hits the stream that was moved to the WebSocket session. */
  lemma UpgradeBehindClose(c: Config) returns (es: seq<Event>)
    requires TellsApart(c) && c.limit >= 2
    ensures es == [ReadOk(CLOSING), ReadOk(UPGRADE), WriteOk]
    ensures Schedule(c, Start(), es) && Run(c, Start(), es).stray == 1
  {
    KindsOfRequest();
    StartInv(c);
    var s1 := Step(c, Start(), ReadOk(CLOSING));
    ReadOkEffect(c, Start(), CLOSING);
    CloseAfterUpgrade(c, s1);
    var s2 := Step(c, s1, ReadOk(UPGRADE));
    ScheduleCons(c, s2, WriteOk, []);
    ScheduleCons(c, s1, ReadOk(UPGRADE), [WriteOk]);
    ScheduleCons(c, Start(), ReadOk(CLOSING), [ReadOk(UPGRADE), WriteOk]);
    es := [ReadOk(CLOSING)] + ([ReadOk(UPGRADE)] + [WriteOk]);
  }

  lemma {:induction false} OneSlotNeverStrays(c: Config, s: Session, es: seq<Event>)
    requires c.limit == 1 && Inv(c, s) && s.stray == 0 && Schedule(c, s, es)
    ensures Run(c, s, es).stray == 0
    decreases es
  {
    if es == [] {
    } else {
      StepKeepsInv(c, s, es[0]);
      OneSlotNeverStrays(c, Step(c, s, es[0]), es[1..]);
    }
  }

  /** A session can touch a stream it has handed over exactly if it can pipeline. */
  lemma StrayReachableIff(c: Config, settings: Settings)
    requires c.respond == Shipped(settings)
    ensures (exists es :: Schedule(c, Start(), es) && Run(c, Start(), es).stray > 0) <==> c.limit >= 2
  {
    ShippedTellsApart(c, settings);
    if c.limit >= 2 {
      var es := UpgradeBehindClose(c);
    } else {
      StartInv(c);
      forall es | Schedule(c, Start(), es) ensures Run(c, Start(), es).stray == 0 {
        OneSlotNeverStrays(c, Start(), es);
      }
    }
  }

  // ------------------------------------------------------------ requests after a close

  /** On the schedule `es` the session has closed, and `later` goes on to handle more. */
  predicate HandlesAfterClose(c: Config, es: seq<Event>, later: seq<Event>)
  {
    && Schedule(c, Start(), es)
    && Run(c, Start(), es).writeEnd.WriteClosed?
    && Schedule(c, Run(c, Start(), es), later)
    && |Run(c, Run(c, Start(), es), later).handled| > |Run(c, Start(), es).handled|
  }

  /** The answer to a closing request is written, then another request is handled. */
  lemma RequestAfterClose(c: Config) returns (es: seq<Event>, later: seq<Event>)
    requires TellsApart(c) && c.limit >= 2
    ensures es == [ReadOk(CLOSING), WriteOk] && later == [ReadOk(PLAIN)]
    ensures HandlesAfterClose(c, es, later)
  {
    KindsOfRequest();
    StartInv(c);
    var s1 := Step(c, Start(), ReadOk(CLOSING));
    ReadOkEffect(c, Start(), CLOSING);
    var s2 := Step(c, s1, WriteOk);
    WriteOkEffect(c, s1);
    ScheduleCons(c, s1, WriteOk, []);
    ScheduleCons(c, Start(), ReadOk(CLOSING), [WriteOk]);
    ReadOkEffect(c, s2, PLAIN);
    ScheduleCons(c, s2, ReadOk(PLAIN), []);
    es, later := [ReadOk(CLOSING)] + [WriteOk], [ReadOk(PLAIN)] + [];
  }

  /** A session can handle requests after it closed exactly if it can pipeline. */
  lemma AfterCloseReachableIff(c: Config, settings: Settings)
    requires c.respond == Shipped(settings)
    ensures (exists es, later :: HandlesAfterClose(c, es, later)) <==> c.limit >= 2
  {
    ShippedTellsApart(c, settings);
    if c.limit >= 2 {
      var es, later := RequestAfterClose(c);
    } else {
      forall es, later ensures !HandlesAfterClose(c, es, later) {
        if HandlesAfterClose(c, es, later) {
          StartInv(c);
          RunKeepsInv(c, Start(), es);
          WriteSideStaysDead(c, Run(c, Start(), es), later);
        }
      }
    }
  }

  // ------------------------------------------------- requests after one that closes

  /** On `es`, exactly `k` requests were handled after one that asked for a close. */
  ghost predicate HandlesAfterClosing(c: Config, es: seq<Event>, k: nat)
  {
    && Schedule(c, Start(), es)
    && var handled := Run(c, Start(), es).handled;
       exists i :: 0 <= i < |handled| && !Persistent(handled[i].req) && |handled| - 1 - i == k
  }

  lemma PoppedPersist(c: Config, s: Session, i: nat)
    requires Inv(c, s)
    ensures i < |s.popped| ==> i < |s.handled| && !NeedEof(c.respond(s.handled[i]))
  {
    AccountsMatch(c, s, i);
    assert i < |s.popped| ==> s.popped[i] in s.popped;
  }

  lemma ClosingStaysQueued(c: Config, settings: Settings, es: seq<Event>, i: nat)
    requires c.respond == Shipped(settings) && Schedule(c, Start(), es)
    requires i < |Run(c, Start(), es).handled| && !Persistent(Run(c, Start(), es).handled[i].req)
    ensures |Run(c, Start(), es).handled| - i <= c.limit
  {
    StartInv(c);
    RunKeepsInv(c, Start(), es);
    var s := Run(c, Start(), es);
    AccountsMatch(c, s, i);
    PoppedPersist(c, s, i);
  }

  lemma ClosingThenMore(c: Config, settings: Settings, k: nat) returns (es: seq<Event>)
    requires c.respond == Shipped(settings) && k < c.limit
    ensures HandlesAfterClosing(c, es, k)
  {
    KindsOfRequest();
    StartInv(c);
    var s1 := Step(c, Start(), ReadOk(CLOSING));
    ReadOkEffect(c, Start(), CLOSING);
    var rest := FillsQueue(c, s1, k);
    ScheduleCons(c, Start(), ReadOk(CLOSING), rest);
    es := [ReadOk(CLOSING)] + rest;
    assert Run(c, Start(), es).handled[0] == CLOSING;
  }

  /** Section 9.6 of RFC 9112 has a server process no request after one that asked for
      a close. This one can process exactly up to one less than the queue limit, so it
      keeps the rule if and only if it does not pipeline. */
  lemma AfterClosingRequestIff(c: Config, settings: Settings, k: nat)
    requires c.respond == Shipped(settings)
    ensures (exists es :: HandlesAfterClosing(c, es, k)) <==> k < c.limit
  {
    if k < c.limit {
      var es := ClosingThenMore(c, settings, k);
    } else {
      forall es ensures !HandlesAfterClosing(c, es, k) {
        if Schedule(c, Start(), es) {
          var handled := Run(c, Start(), es).handled;
          forall i | 0 <= i < |handled| && !Persistent(handled[i].req) ensures |handled| - 1 - i != k {
            ClosingStaysQueued(c, settings, es, i);
          }
        }
      }
    }
  }
}
