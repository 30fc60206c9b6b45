/** The two-ended machine of SdtlCommands.dfy against the two loops: the events of a call are the turns of
    channel_send_cmd, and the copies that arrive are what the receiving end processes. */
module SdtlCommandProjection {

  import opened SdtlChannel
  import opened SdtlCommands

  // ------------------------------------------------------------------ the sender

  predicate SenderEvent(e: CmdEvent) {
    e.CmdGetsAck? || e.CmdTimesOut?
  }

  function TurnOf(s: CmdLink, e: CmdEvent): CmdTurn
    requires CmdEnabled(s, e) && SenderEvent(e)
  {
    CmdTurn(Ok, if e.CmdGetsAck? then AckPopped(s.ackFifo[0]) else AckTimedOut, CondNone)
  }

  function CmdTurns(s: CmdLink, events: seq<CmdEvent>): seq<CmdTurn>
    requires CmdRun(s, events)
    decreases |events|
  {
    if events == [] then []
    else
      (if SenderEvent(events[0]) then [TurnOf(s, events[0])] else [])
      + CmdTurns(CmdNext(s, events[0]), events[1..])
  }

  /** What the sender's events put on the line. */
  function PutOnLine(s: CmdLink, events: seq<CmdEvent>): seq<Copy>
    requires CmdRun(s, events)
    decreases |events|
  {
    if events == [] then [] else PutOne(s, events[0]) + PutOnLine(CmdNext(s, events[0]), events[1..])
  }

  function PutOne(s: CmdLink, e: CmdEvent): seq<Copy>
    requires CmdEnabled(s, e)
  {
    if SenderEvent(e) && |s.line| <= |CmdNext(s, e).line| then CmdNext(s, e).line[|s.line|..] else []
  }

  /** No other call begins. */
  predicate OneCall(events: seq<CmdEvent>) {
    forall k :: 0 <= k < |events| ==> !events[k].CmdCall?
  }

  function Copies(copy: Copy, n: nat): seq<Copy> {
    seq(n, _ => copy)
  }

  lemma {:induction false} NotSending(s: CmdLink, events: seq<CmdEvent>)
    requires CmdRun(s, events) && OneCall(events) && !s.busy
    ensures CmdTurns(s, events) == [] && PutOnLine(s, events) == []
    ensures var u := CmdPlay(s, events);
            !u.busy && u.calls == s.calls && u.done == s.done
    decreases |events|
  {
    if events != [] {
      NotSendingStep(s, events[0]);
      hide CmdNext, CmdEnabled;
      NotSending(CmdNext(s, events[0]), events[1..]);
    }
  }

  lemma NotSendingStep(s: CmdLink, e: CmdEvent)
    requires CmdEnabled(s, e) && !e.CmdCall? && !s.busy
    ensures !SenderEvent(e) && PutOne(s, e) == []
    ensures var n := CmdNext(s, e);
            !n.busy && n.calls == s.calls && n.done == s.done
  {
  }

  /** The number of the running call, with its command. */
  function Running(s: CmdLink): Copy
    requires s.calls != []
  {
    Copy(|s.calls| - 1, s.calls[|s.calls| - 1])
  }

  /** One event of the sender is one turn: it either sends one more copy or returns OK. */
  lemma SenderStep(s: CmdLink, e: CmdEvent)
    requires CmdEnabled(s, e) && SenderEvent(e)
    ensures var turn, n := TurnOf(s, e), CmdNext(s, e);
            && n.calls == s.calls
            && match AfterCmdWait(turn.wait, turn.after)
               case None => n.busy && PutOne(s, e) == [Running(s)] && n.done == s.done
               case Some(rv) => rv == Ok && !n.busy && PutOne(s, e) == [] && n.done == s.done + [|s.calls| - 1]
  {
    if CmdNext(s, e).busy {
      assert CmdNext(s, e).line == s.line + [Running(s)];
    }
  }

  lemma OtherStep(s: CmdLink, e: CmdEvent)
    requires CmdEnabled(s, e) && !SenderEvent(e) && !e.CmdCall?
    ensures var n := CmdNext(s, e);
            n.calls == s.calls && n.busy == s.busy && n.done == s.done && PutOne(s, e) == []
  {
  }

  /** The copies, result and effect of a call against the machine's. */
  ghost predicate Projected(s: CmdLink, run: (nat, Option<Rv>), line: seq<Copy>, u: CmdLink)
    requires s.calls != []
  {
    && u.calls == s.calls && (u.busy <==> run.1.None?)
    && [Running(s)] + line == Copies(Running(s), run.0 + if u.busy then 1 else 0)
    && u.done == s.done + (if run.1 == Some(Ok) then [|s.calls| - 1] else [])
  }

  /** In every run of the machine the copies of a call, its result and its effect are those of the loop of
      channel_send_cmd over the turns the run gives it; the first copy is on the line already. */
  lemma {:induction false} CallProjection(s: CmdLink, events: seq<CmdEvent>)
    requires CmdRun(s, events) && OneCall(events) && s.busy && s.calls != []
    ensures Projected(s, CmdSendRun(CmdTurns(s, events)), PutOnLine(s, events), CmdPlay(s, events))
    decreases |events|
  {
    if events == [] {
      assert s.done + [] == s.done;
    } else {
      var e, n := events[0], CmdNext(s, events[0]);
      Unfolded(s, events);
      hide CmdNext, AfterCmdWait, PutOne, CmdEnabled, CmdPlay, CmdSendRun, CmdTurns, PutOnLine, Projected, Running;
      if SenderEvent(e) {
        SenderStep(s, e);
        var turn, turns := TurnOf(s, e), CmdTurns(n, events[1..]);
        match AfterCmdWait(turn.wait, turn.after)
        case None =>
          CallProjection(n, events[1..]);
          Kept(s, n, turn, turns, PutOnLine(n, events[1..]), CmdPlay(s, events));
        case Some(rv) =>
          NotSending(n, events[1..]);
          Stopped(s, turn, CmdPlay(s, events));
          assert [turn] + turns == [turn];
      } else {
        OtherStep(s, e);
        CallProjection(n, events[1..]);
        SameCall(s, n, CmdSendRun(CmdTurns(n, events[1..])), PutOnLine(n, events[1..]), CmdPlay(s, events));
        assert [] + CmdTurns(n, events[1..]) == CmdTurns(n, events[1..]);
        assert [] + PutOnLine(n, events[1..]) == PutOnLine(n, events[1..]);
      }
    }
  }

  lemma Unfolded(s: CmdLink, events: seq<CmdEvent>)
    requires CmdRun(s, events) && events != []
    ensures var e, n := events[0], CmdNext(s, events[0]);
            && CmdRun(n, events[1..]) && CmdPlay(s, events) == CmdPlay(n, events[1..])
            && PutOnLine(s, events) == PutOne(s, e) + PutOnLine(n, events[1..])
            && CmdTurns(s, events) == (if SenderEvent(e) then [TurnOf(s, e)] else []) + CmdTurns(n, events[1..])
  {
    hide CmdNext, PutOne, CmdEnabled, TurnOf;
  }

  lemma SameCall(s: CmdLink, n: CmdLink, run: (nat, Option<Rv>), line: seq<Copy>, u: CmdLink)
    requires s.calls == n.calls != [] && s.done == n.done && Projected(n, run, line, u)
    ensures Projected(s, run, line, u)
  {
  }

  lemma Kept(s: CmdLink, n: CmdLink, turn: CmdTurn, turns: seq<CmdTurn>, line: seq<Copy>, u: CmdLink)
    requires turn.sent == Ok && AfterCmdWait(turn.wait, turn.after) == None
    requires s.calls == n.calls != [] && s.done == n.done && Projected(n, CmdSendRun(turns), line, u)
    ensures Projected(s, CmdSendRun([turn] + turns), [Running(s)] + line, u)
  {
    hide AfterCmdWait, Running;
    assert ([turn] + turns)[1..] == turns;
    var copy, k := Running(s), CmdSendRun(turns).0 + if u.busy then 1 else 0;
    assert Running(n) == copy by { SameRunning(s, n); }
    assert [copy] + Copies(copy, k) == Copies(copy, k + 1);
  }

  lemma SameRunning(s: CmdLink, n: CmdLink)
    requires s.calls == n.calls != []
    ensures Running(s) == Running(n)
  {
  }

  lemma Stopped(s: CmdLink, turn: CmdTurn, u: CmdLink)
    requires turn.sent == Ok && AfterCmdWait(turn.wait, turn.after) == Some(Ok)
    requires s.calls == u.calls != [] && !u.busy && u.done == s.done + [|s.calls| - 1]
    ensures Projected(s, CmdSendRun([turn]), [], u)
  {
    hide AfterCmdWait, Running;
    assert [Running(s)] == Copies(Running(s), 1);
  }

  // ------------------------------------------------------------------ the receiver

  function Arrivals(s: CmdLink, events: seq<CmdEvent>): seq<Cmd>
    requires CmdRun(s, events)
    decreases |events|
  {
    if events == [] then []
    else (if events[0].CmdArrives? then [s.line[0].cmd] else []) + Arrivals(CmdNext(s, events[0]), events[1..])
  }

  /** What the receiving end puts on the acknowledgement line. */
  function AcksPut(s: CmdLink, events: seq<CmdEvent>): seq<Ack>
    requires CmdRun(s, events)
    decreases |events|
  {
    if events == [] then [] else AckPut(s, events[0]) + AcksPut(CmdNext(s, events[0]), events[1..])
  }

  function AckPut(s: CmdLink, e: CmdEvent): seq<Ack>
    requires CmdEnabled(s, e)
  {
    if e.CmdArrives? && |s.ackLine| <= |CmdNext(s, e).ackLine| then CmdNext(s, e).ackLine[|s.ackLine|..] else []
  }

  lemma ArrivalStep(s: CmdLink)
    requires CmdEnabled(s, CmdArrives)
    ensures var effect, n := ProcessCmd(s.rxLast, s.flags, s.line[0].cmd), CmdNext(s, CmdArrives);
            && n.rxLast == effect.last && n.flags == effect.flags && AckPut(s, CmdArrives) == [effect.ack]
            && |n.applied| == |s.applied| + if effect.wakeUp then 1 else 0
  {
  }

  lemma ElsewhereStep(s: CmdLink, e: CmdEvent)
    requires CmdEnabled(s, e) && !e.CmdArrives?
    ensures var n := CmdNext(s, e);
            n.rxLast == s.rxLast && n.flags == s.flags && n.applied == s.applied && AckPut(s, e) == []
  {
  }

  /** In every run of the machine the code remembered, the flags, the acknowledgements and the number of calls
      that took effect are what the receiving end makes of the copies that arrive. */
  lemma {:induction false} ReceiverProjection(s: CmdLink, events: seq<CmdEvent>)
    requires CmdRun(s, events)
    ensures var u, effect := CmdPlay(s, events), ProcessAll(s.rxLast, s.flags, Arrivals(s, events));
            && u.rxLast == effect.last && u.flags == effect.flags && AcksPut(s, events) == effect.acks
            && |u.applied| == |s.applied| + effect.wakeUps
    decreases |events|
  {
    if events != [] {
      var e, n := events[0], CmdNext(s, events[0]);
      hide CmdNext, CmdEnabled, AckPut, ProcessCmd;
      ReceiverProjection(n, events[1..]);
      if e == CmdArrives {
        ArrivalStep(s);
        assert Arrivals(s, events)[1..] == Arrivals(n, events[1..]);
      } else {
        ElsewhereStep(s, e);
        assert [] + Arrivals(n, events[1..]) == Arrivals(n, events[1..]);
      }
    }
  }
}
