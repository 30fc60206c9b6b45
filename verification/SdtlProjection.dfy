/** The two-ended machine of SdtlLink.dfy and the loops of SdtlChannel.dfy are the same protocol: the events of
    one call in a run of the machine, taken in order, are the turns of that call's loop. What the loops of
    channel_send_data and channel_recv_data are proved to do with given turns is therefore what every run of
    the machine does. */
module SdtlProjection {

  import opened Bytes
  import opened SdtlChannel
  import opened SdtlLink

  // ------------------------------------------------------------------ the sender

  predicate SenderEvent(e: Event) {
    e.SendGetsAck? || e.SendTimesOut?
  }

  /** The turn of the send loop an event stands for. */
  function SendTurnOf(s: Link, e: Event): SendTurn
    requires Enabled(s, e) && SenderEvent(e)
  {
    SendTurn(CondNone, if e.SendGetsAck? then AckPopped(s.ackFifo[0]) else AckTimedOut, CondNone)
  }

  function SendTurns(s: Link, events: seq<Event>): seq<SendTurn>
    requires EnabledRun(s, events)
    decreases |events|
  {
    if events == [] then []
    else
      (if SenderEvent(events[0]) then [SendTurnOf(s, events[0])] else [])
      + SendTurns(Next(s, events[0]), events[1..])
  }

  /** What the sender's events put on the data line. */
  function PutOnLine(s: Link, events: seq<Event>): seq<Packet>
    requires EnabledRun(s, events)
    decreases |events|
  {
    if events == [] then []
    else PutOne(s, events[0]) + PutOnLine(Next(s, events[0]), events[1..])
  }

  function PutOne(s: Link, e: Event): seq<Packet>
    requires Enabled(s, e)
  {
    if SenderEvent(e) && |s.dataLine| <= |Next(s, e).dataLine| then Next(s, e).dataLine[|s.dataLine|..] else []
  }

  /** No other call begins. */
  predicate OneSend(events: seq<Event>) {
    forall k :: 0 <= k < |events| ==> !events[k].SendCall?
  }

  lemma {:induction false} NotSending(s: Link, events: seq<Event>)
    requires EnabledRun(s, events) && OneSend(events) && s.tx == None
    ensures SendTurns(s, events) == [] && PutOnLine(s, events) == []
    ensures Play(s, events).tx == None && Play(s, events).sent == s.sent
    decreases |events|
  {
    if events != [] {
      NotSendingStep(s, events[0]);
      hide Next;
      NotSending(Next(s, events[0]), events[1..]);
    }
  }

  lemma NotSendingStep(s: Link, e: Event)
    requires Enabled(s, e) && !e.SendCall? && s.tx == None
    ensures !SenderEvent(e) && Next(s, e).tx == None && Next(s, e).sent == s.sent && PutOne(s, e) == []
  {
  }

  /** One event of the sender is one turn: it either stays in the loop, with the next packet on the line, or
      returns. */
  lemma SenderStep(s: Link, e: Event)
    requires Enabled(s, e) && SenderEvent(e)
    ensures var t, turn, n := s.tx.value, SendTurnOf(s, e), Next(s, e);
            match AfterWait(t, turn.wait, turn.after)
            case Keep(u) => n.tx == Some(u) && u.data == t.data && PutOne(s, e) == [Current(u)] && n.sent == s.sent
            case Stop(rv) =>
              n.tx == None && PutOne(s, e) == [] && n.sent == if rv == Ok then s.sent + [t.data] else s.sent
  {
    hide Current;
    var t, n := s.tx.value, Next(s, e);
    if n.tx.Some? {
      assert n.dataLine == s.dataLine + [Current(n.tx.value)];
    }
  }

  lemma OtherStep(s: Link, e: Event)
    requires Enabled(s, e) && !SenderEvent(e) && !e.SendCall?
    ensures Next(s, e).tx == s.tx && Next(s, e).sent == s.sent && PutOne(s, e) == []
  {
  }

  /** In every run of the machine the packets of a call, its result and its effect are those of the send loop
      over the turns the run gives it; the packet of the turn under way is on the line already. */
  lemma {:induction false} SenderProjection(s: Link, events: seq<Event>)
    requires EnabledRun(s, events) && OneSend(events) && s.tx.Some?
    ensures var t := s.tx.value;
            Projected(t, SendRun(t, SendTurns(s, events)), PutOnLine(s, events), s.sent, Play(s, events))
    decreases |events|
  {
    var t := s.tx.value;
    if events == [] {
      assert s.sent + [] == s.sent;
    } else {
      var e, n := events[0], Next(s, events[0]);
      Unfolded(s, events);
      hide Next, AfterWait, Current, PutOne, Enabled, Play, SendRun, SendTurns, PutOnLine, Projected;
      if SenderEvent(e) {
        SenderStep(s, e);
        var turn, turns := SendTurnOf(s, e), SendTurns(n, events[1..]);
        match AfterWait(t, turn.wait, turn.after)
        case Keep(u) =>
          SenderProjection(n, events[1..]);
          Kept(t, u, turn, turns, PutOnLine(n, events[1..]), s.sent, Play(s, events));
        case Stop(rv) =>
          NotSending(n, events[1..]);
          Stopped(t, rv, turn, s.sent, Play(s, events));
          assert [turn] + turns == [turn];
      } else {
        OtherStep(s, e);
        SenderProjection(n, events[1..]);
        assert [] + SendTurns(n, events[1..]) == SendTurns(n, events[1..]);
        assert [] + PutOnLine(n, events[1..]) == PutOnLine(n, events[1..]);
      }
    }
  }

  /** The packets, result and effect of a loop that began with t, against the machine's. */
  ghost predicate Projected(t: LiveTx, run: (seq<Packet>, Option<Rv>), line: seq<Packet>, sent: seq<seq<byte>>,
                            u: Link)
  {
    && (u.tx == None <==> run.1.Some?)
    && [Current(t)] + line == run.0 + (if u.tx.Some? then [Current(u.tx.value)] else [])
    && u.sent == sent + (if run.1 == Some(Ok) then [t.data] else [])
  }

  lemma Unfolded(s: Link, events: seq<Event>)
    requires EnabledRun(s, events) && events != []
    ensures var e, n := events[0], Next(s, events[0]);
            && EnabledRun(n, events[1..]) && Play(s, events) == Play(n, events[1..])
            && PutOnLine(s, events) == PutOne(s, e) + PutOnLine(n, events[1..])
            && SendTurns(s, events) == (if SenderEvent(e) then [SendTurnOf(s, e)] else []) + SendTurns(n, events[1..])
  {
    hide Next, PutOne, Enabled, SendTurnOf;
  }

  lemma Kept(t: LiveTx, u: LiveTx, turn: SendTurn, turns: seq<SendTurn>, line: seq<Packet>, sent: seq<seq<byte>>,
             end: Link)
    requires turn.before == CondNone && AfterWait(t, turn.wait, turn.after) == Keep(u) && u.data == t.data
    requires Projected(u, SendRun(u, turns), line, sent, end)
    ensures Projected(t, SendRun(t, [turn] + turns), [Current(u)] + line, sent, end)
  {
    hide AfterWait, Current;
    assert ([turn] + turns)[1..] == turns;
    var rest := SendRun(u, turns).0;
    var tail := if end.tx.Some? then [Current(end.tx.value)] else [];
    assert SendRun(t, [turn] + turns).0 == [Current(t)] + rest;
    assert ([Current(t)] + rest) + tail == [Current(t)] + (rest + tail);
  }

  lemma Stopped(t: LiveTx, rv: Rv, turn: SendTurn, sent: seq<seq<byte>>, end: Link)
    requires turn.before == CondNone && AfterWait(t, turn.wait, turn.after) == Stop(rv)
    requires end.tx == None && end.sent == if rv == Ok then sent + [t.data] else sent
    ensures Projected(t, SendRun(t, [turn]), [], sent, end)
  {
    hide AfterWait, Current;
    assert sent + [] == sent;
  }

  // ------------------------------------------------------------------ the receiver

  function RecvTurns(s: Link, events: seq<Event>): seq<RecvTurn>
    requires EnabledRun(s, events)
    decreases |events|
  {
    if events == [] then []
    else
      (if events[0].RecvPops? then [RecvTurn(CondNone, DataPopped(s.dataFifo[0]), CondNone)] else [])
      + RecvTurns(Next(s, events[0]), events[1..])
  }

  /** What the receive loop puts on the acknowledgement line. */
  function PopAcks(s: Link, events: seq<Event>): seq<Ack>
    requires EnabledRun(s, events)
    decreases |events|
  {
    if events == [] then []
    else PopAck(s, events[0]) + PopAcks(Next(s, events[0]), events[1..])
  }

  function PopAck(s: Link, e: Event): seq<Ack>
    requires Enabled(s, e)
  {
    if e.RecvPops? && |s.ackLine| <= |Next(s, e).ackLine| then Next(s, e).ackLine[|s.ackLine|..] else []
  }

  /** No other call begins, and the call does not end by a timeout or a condition. */
  predicate OneRecv(events: seq<Event>) {
    forall k :: 0 <= k < |events| ==> !events[k].RecvCall? && !events[k].RecvFails?
  }

  /** Out of the loop: the message is recorded, or the call has failed. */
  lemma {:induction false} NotReceiving(s: Link, events: seq<Event>)
    requires EnabledRun(s, events) && OneRecv(events) && (s.app.Finishing? || s.app.AppIdle?)
    ensures RecvTurns(s, events) == [] && PopAcks(s, events) == []
    ensures var u := Play(s, events);
            && Taken(u) == Taken(s) && (u.app == s.app || u.app.AppIdle?)
            && u.ch == if u.app == s.app then s.ch else AfterRecv(Ok, s.app.seqCode)
    decreases |events|
  {
    if events != [] {
      NotReceivingStep(s, events[0]);
      hide Next, Enabled;
      NotReceiving(Next(s, events[0]), events[1..]);
    }
  }

  lemma NotReceivingStep(s: Link, e: Event)
    requires Enabled(s, e) && !e.RecvCall? && !e.RecvFails? && (s.app.Finishing? || s.app.AppIdle?)
    ensures !e.RecvPops? && PopAck(s, e) == [] && Taken(Next(s, e)) == Taken(s)
    ensures (Next(s, e).app == s.app && Next(s, e).ch == s.ch)
         || (s.app.Finishing? && Next(s, e).app == AppIdle && Next(s, e).ch == AfterRecv(Ok, s.app.seqCode))
  {
    assert Taken(Next(s, e)) == Taken(s);
  }

  /** One packet popped is one turn. */
  lemma ReceiverStep(s: Link)
    requires Enabled(s, RecvPops)
    ensures var p := s.dataFifo[0];
            var next, n := AfterData(s.app.rc, DataPopped(p), CondNone), Next(s, RecvPops);
            && PopAck(s, RecvPops) == next.acks
            && match next.done
               case None => n.app == Receiving(next.rc) && Taken(n) == Taken(s)
               case Some(rv) =>
                 if rv == Ok then n.app == Finishing(p.seqCode, next.rc.data) && Taken(n) == Taken(s) + [next.rc.data]
                 else n.app == AppIdle && Taken(n) == Taken(s) && n.ch == AfterRecv(rv, p.seqCode)
  {
    hide AfterData;
  }

  lemma ElsewhereStep(s: Link, e: Event)
    requires Enabled(s, e) && s.app.Receiving? && !e.RecvPops? && !e.RecvCall? && !e.RecvFails?
    ensures Next(s, e).app == s.app && Taken(Next(s, e)) == Taken(s) && PopAck(s, e) == []
  {
  }

  /** In every run of the machine what the reader holds, acknowledges, takes and records is what the receive
      loop does over the turns the run gives it. */
  lemma {:induction false} ReceiverProjection(s: Link, events: seq<Event>)
    requires EnabledRun(s, events) && OneRecv(events) && s.app.Receiving?
    ensures var u, run := Play(s, events), RecvRun(s.app.rc, RecvTurns(s, events));
            && PopAcks(s, events) == run.acks
            && Taken(u) == Taken(s) + (if run.done == Some(Ok) then [run.rc.data] else [])
            && match run.done
               case None => u.app == Receiving(run.rc)
               case Some(rv) => || (rv == Ok && u.app == Finishing(run.seqCode, run.rc.data))
                                || (u.app == AppIdle && u.ch == AfterRecv(rv, run.seqCode))
    decreases |events|
  {
    if events == [] {
      assert Taken(s) + [] == Taken(s);
    } else {
      var e, n := events[0], Next(s, events[0]);
      hide Next, AfterData, PopAck, Enabled, Taken;
      if e == RecvPops {
        ReceiverStep(s);
        assert RecvTurns(s, events)[1..] == RecvTurns(n, events[1..]);
        if n.app.Receiving? {
          ReceiverProjection(n, events[1..]);
        } else {
          NotReceiving(n, events[1..]);
        }
      } else {
        ElsewhereStep(s, e);
        ReceiverProjection(n, events[1..]);
        assert [] + RecvTurns(n, events[1..]) == RecvTurns(n, events[1..]);
      }
    }
  }
}
