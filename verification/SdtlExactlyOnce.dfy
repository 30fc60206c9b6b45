/** Exactly-once delivery on a reliable SDTL channel over whole runs. */
module SdtlExactlyOnce {

  // Any number of packets per message and any losses are allowed, provided an acknowledgement timeout fires
  // only when nothing is under way, each new sequence code differs from the one the receiver finished last,
  // and no reader fails.

  import opened Bytes
  import opened SdtlChannel
  import opened SdtlLink

  /** Nothing that could still lead to an acknowledgement is on a line or in a queue. */
  predicate Quiet(s: Link) {
    s.dataLine == [] && s.ackLine == [] && s.ackFifo == [] && (s.app.Receiving? ==> s.dataFifo == [])
  }

  /** The sequence code is not the one the receiver finished last or is just finishing. */
  predicate FreshCode(s: Link, seqCode: nat) {
    seqCode != s.ch.lastSeq && !(s.app.Finishing? && s.app.seqCode == seqCode)
  }

  /** The timing and calling discipline of this theorem. */
  predicate Allowed(s: Link, e: Event, maxMessage: nat) {
    Enabled(s, e) &&
    match e
    case SendCall(data, seqCode) => |data| <= maxMessage && FreshCode(s, seqCode)
    case SendTimesOut => Quiet(s)
    case RecvCall(size) => size >= maxMessage
    case RecvFails(_) => false
    case _ => true
  }

  predicate AllowedRun(s: Link, events: seq<Event>, maxMessage: nat): (allowed: bool)
    ensures allowed ==> EnabledRun(s, events)
    decreases |events|
  {
    events == [] || (Allowed(s, events[0], maxMessage) && AllowedRun(Next(s, events[0]), events[1..], maxMessage))
  }

  // ------------------------------------------------------------------ the invariant

  function InFlight(s: Link): nat {
    |s.dataLine| + |s.ackLine| + |s.ackFifo| + if s.app.Receiving? then |s.dataFifo| else 0
  }

  predicate Fresh(rc: Rc) {
    rc.data == [] && rc.prevPktNum == -1 && !rc.sequenceStarted
  }

  /** The receiver does not hold any part of a message. */
  predicate Unstarted(s: Link) {
    s.app.Receiving? ==> Fresh(s.app.rc)
  }

  ghost predicate ReceiverOk(s: Link, maxMessage: nat) {
    match s.app
    case AppIdle => s.ch.mode == RxIdle || s.ch.mode == RxSeqDone
    case Armed(size) => s.ch.mode == RxWaitData && size >= maxMessage
    case Receiving(rc) => s.ch.mode == RxWaitData && rc.size >= maxMessage
    case Finishing(_, _) => s.ch.mode == RxWaitData
  }

  ghost predicate SenderOk(s: Link, t: LiveTx, maxMessage: nat) {
    && t.maxPayload == s.maxPayload && |t.data| <= maxMessage && t.pktn < 256
    && (t.first <==> t.offset == 0) && (t.offset == 0 ==> t.pktn == 0)
  }

  /** The receiver knows nothing of the message yet. */
  ghost predicate Unknown(s: Link, t: LiveTx) {
    t.offset == 0 && Taken(s) == s.sent && FreshCode(s, t.seqCode) && Unstarted(s)
  }

  /** The receiver holds everything before the current packet. */
  ghost predicate Expecting(s: Link, t: LiveTx) {
    && t.offset > 0 && Taken(s) == s.sent && t.seqCode != s.ch.lastSeq
    && s.app.Receiving? && s.app.rc.sequenceStarted && s.app.rc.data == t.data[..t.offset]
    && s.app.rc.prevPktNum >= 0 && (s.app.rc.prevPktNum + 1) % 256 == t.pktn
  }

  /** The receiver holds the current packet too, and it is not the last one. */
  ghost predicate HasCurrent(s: Link, t: LiveTx) {
    && DSize(t) < t.left && Taken(s) == s.sent && t.seqCode != s.ch.lastSeq
    && s.app.Receiving? && s.app.rc.sequenceStarted && s.app.rc.data == t.data[..t.offset + DSize(t)]
    && s.app.rc.prevPktNum >= 0 && s.app.rc.prevPktNum % 256 == t.pktn
  }

  /** The receiver has taken the whole message; only the final acknowledgement is outstanding. */
  ghost predicate Delivered(s: Link, t: LiveTx) {
    && DSize(t) == t.left && Taken(s) == s.sent + [t.data] && Unstarted(s)
    && (s.app.Receiving? ==> s.dataFifo == [])
    && (if s.app.Finishing? then s.app.seqCode == t.seqCode else s.ch.lastSeq == t.seqCode)
  }

  ghost predicate AckOk(s: Link, t: LiveTx, a: Ack) {
    if a.code == GotPkt then HasCurrent(s, t) || Delivered(s, t)
    else a.code == NoReceiver && Unknown(s, t)
  }

  ghost predicate Sending(s: Link, t: LiveTx, maxMessage: nat) {
    && SenderOk(s, t, maxMessage) && InFlight(s) <= 1
    && (forall p :: p in s.dataLine ==> p == Current(t))
    && (s.app.Receiving? ==> forall p :: p in s.dataFifo ==> p == Current(t))
    && (forall a :: a in s.ackLine ==> AckOk(s, t, a))
    && (forall a :: a in s.ackFifo ==> AckOk(s, t, a))
    && (Unknown(s, t) || Expecting(s, t) || HasCurrent(s, t) || Delivered(s, t))
  }

  ghost predicate Inv(s: Link, maxMessage: nat) {
    && s.maxPayload > 0 && ReceiverOk(s, maxMessage)
    && match s.tx
       case None => InFlight(s) == 0 && Taken(s) == s.sent && Unstarted(s)
       case Some(t) => Sending(s, t, maxMessage)
  }

  // ------------------------------------------------------------------ every event keeps it

  lemma SendCallKeeps(s: Link, e: Event, maxMessage: nat)
    requires Inv(s, maxMessage) && e.SendCall? && Allowed(s, e, maxMessage)
    ensures Inv(Next(s, e), maxMessage)
  {
    var t := TxStart(e.data, e.seqCode, s.maxPayload);
    var n := Next(s, e);
    assert n.dataLine == [Current(t)];
    assert Unknown(n, t);
  }

  lemma AdvanceExpected(s: Link, maxMessage: nat)
    requires Inv(s, maxMessage) && Enabled(s, SendGetsAck) && HasCurrent(s, s.tx.value)
    requires s.ackFifo[0].code == GotPkt
    ensures Inv(Next(s, SendGetsAck), maxMessage)
  {
    var t := s.tx.value;
    var u := Advance(t);
    var n := Next(s, SendGetsAck);
    assert n.tx == Some(u) && n.dataLine == [Current(u)] && n.ackLine == [] && n.ackFifo == [];
    assert Expecting(n, u);
  }

  lemma SendGetsAckKeeps(s: Link, maxMessage: nat)
    requires Inv(s, maxMessage) && Enabled(s, SendGetsAck)
    ensures Inv(Next(s, SendGetsAck), maxMessage)
  {
    var t := s.tx.value;
    assert s.ackFifo[0] in s.ackFifo && AckOk(s, t, s.ackFifo[0]);
    if s.ackFifo[0].code == GotPkt && HasCurrent(s, t) {
      AdvanceExpected(s, maxMessage);
    } else {
      var n := Next(s, SendGetsAck);
      assert n.tx == None && InFlight(n) == 0;
    }
  }

  lemma SendTimesOutKeeps(s: Link, maxMessage: nat)
    requires Inv(s, maxMessage) && Allowed(s, SendTimesOut, maxMessage)
    ensures Inv(Next(s, SendTimesOut), maxMessage)
  {
    assert Next(s, SendTimesOut).dataLine == [Current(s.tx.value)];
  }

  lemma LossKeeps(s: Link, e: Event, maxMessage: nat)
    requires Inv(s, maxMessage) && (e.LoseData? || e.LoseAck?) && Enabled(s, e)
    ensures Inv(Next(s, e), maxMessage)
  {
    if s.tx.Some? {
      assert Next(s, e).dataLine == (if e.LoseData? then [] else s.dataLine);
    }
  }

  lemma AckArrivesKeeps(s: Link, maxMessage: nat)
    requires Inv(s, maxMessage) && Enabled(s, AckArrives)
    ensures Inv(Next(s, AckArrives), maxMessage)
  {
    var n := Next(s, AckArrives);
    assert s.ackLine[0] in s.ackLine;
    assert n.ackFifo == [s.ackLine[0]] && n.ackLine == [];
  }

  lemma DataArrivesKeeps(s: Link, maxMessage: nat)
    requires Inv(s, maxMessage) && Enabled(s, DataArrives)
    ensures Inv(Next(s, DataArrives), maxMessage)
  {
    var t := s.tx.value;
    var n := Next(s, DataArrives);
    assert Current(t).last == (DSize(t) == t.left) && Current(t).seqCode == t.seqCode;
    hide Current, DSize;
    assert s.dataLine[0] in s.dataLine;
    assert s.dataLine == [Current(t)] && n.dataLine == [] && s.ackLine == [] && s.ackFifo == [];
  }

  lemma RecvCallKeeps(s: Link, size: nat, maxMessage: nat)
    requires Inv(s, maxMessage) && Allowed(s, RecvCall(size), maxMessage)
    ensures Inv(Next(s, RecvCall(size)), maxMessage)
  {
    assert Taken(Next(s, RecvCall(size))) == Taken(s);
  }

  lemma RecvFlushesKeeps(s: Link, maxMessage: nat)
    requires Inv(s, maxMessage) && Enabled(s, RecvFlushes)
    ensures Inv(Next(s, RecvFlushes), maxMessage)
  {
    assert Taken(Next(s, RecvFlushes)) == Taken(s);
  }

  lemma RecvReturnsKeeps(s: Link, maxMessage: nat)
    requires Inv(s, maxMessage) && Enabled(s, RecvReturns)
    ensures Inv(Next(s, RecvReturns), maxMessage)
  {
    var n := Next(s, RecvReturns);
    assert Taken(n) == Taken(s);
    if s.tx.Some? {
      var t := s.tx.value;
      assert Unknown(s, t) ==> Unknown(n, t);
      assert Delivered(s, t) ==> Delivered(n, t);
    }
  }

  /** The receiver takes the current packet: the first one, or the one it expects. */
  lemma PopEffect(s: Link, maxMessage: nat)
    requires Inv(s, maxMessage) && s.tx.Some? && Enabled(s, RecvPops)
    requires s.dataFifo == [Current(s.tx.value)]
    requires Unknown(s, s.tx.value) || Expecting(s, s.tx.value)
    ensures var t, n := s.tx.value, Next(s, RecvPops);
            var got := t.data[..t.offset + DSize(t)];
            && n == s.(dataFifo := [], ackLine := s.ackLine + [Ack(t.pktn, GotPkt)], app := n.app)
            && if DSize(t) == t.left then n.app == Finishing(t.seqCode, got)
               else n.app == Receiving(Rc(s.app.rc.size, got, if t.first then 0 else s.app.rc.prevPktNum + 1, true))
  {
    var t := s.tx.value;
    assert t.data[..t.offset] + Current(t).payload == t.data[..t.offset + DSize(t)];
  }

  lemma PopNew(s: Link, maxMessage: nat)
    requires Inv(s, maxMessage) && s.tx.Some? && Enabled(s, RecvPops)
    requires s.dataFifo == [Current(s.tx.value)] && InFlight(s) == 1
    requires Unknown(s, s.tx.value) || Expecting(s, s.tx.value)
    ensures Inv(Next(s, RecvPops), maxMessage)
  {
    hide Next, AfterData, OnRecvPops, Current;
    PopEffect(s, maxMessage);
    var t, n := s.tx.value, Next(s, RecvPops);
    assert n.ackLine == [Ack(t.pktn, GotPkt)];
    if DSize(t) == t.left {
      assert t.data[..t.offset + DSize(t)] == t.data;
      assert Delivered(n, t);
    } else {
      assert HasCurrent(n, t);
    }
  }

  lemma PopAgain(s: Link, maxMessage: nat)
    requires Inv(s, maxMessage) && s.tx.Some? && Enabled(s, RecvPops)
    requires s.dataFifo == [Current(s.tx.value)] && InFlight(s) == 1
    requires HasCurrent(s, s.tx.value)
    ensures Inv(Next(s, RecvPops), maxMessage)
  {
    var n := Next(s, RecvPops);
    assert n.dataFifo == [] && n.ackLine == [Ack(Current(s.tx.value).cnt, GotPkt)];
    assert HasCurrent(n, s.tx.value);
  }

  lemma RecvPopsKeeps(s: Link, maxMessage: nat)
    requires Inv(s, maxMessage) && Enabled(s, RecvPops)
    ensures Inv(Next(s, RecvPops), maxMessage)
  {
    var t := s.tx.value;
    assert s.dataFifo[0] in s.dataFifo;
    assert s.dataFifo == [Current(t)];
    if HasCurrent(s, t) {
      PopAgain(s, maxMessage);
    } else {
      PopNew(s, maxMessage);
    }
  }

  lemma EventKeeps(s: Link, e: Event, maxMessage: nat)
    requires Inv(s, maxMessage) && Allowed(s, e, maxMessage)
    ensures Inv(Next(s, e), maxMessage)
  {
    hide Inv, Next;
    match e
    case SendCall(_, _) => SendCallKeeps(s, e, maxMessage);
    case SendGetsAck => SendGetsAckKeeps(s, maxMessage);
    case SendTimesOut => SendTimesOutKeeps(s, maxMessage);
    case LoseData(_) => LossKeeps(s, e, maxMessage);
    case DataArrives => DataArrivesKeeps(s, maxMessage);
    case LoseAck(_) => LossKeeps(s, e, maxMessage);
    case AckArrives => AckArrivesKeeps(s, maxMessage);
    case RecvCall(size) => RecvCallKeeps(s, size, maxMessage);
    case RecvFlushes => RecvFlushesKeeps(s, maxMessage);
    case RecvPops => RecvPopsKeeps(s, maxMessage);
    case RecvReturns => RecvReturnsKeeps(s, maxMessage);
  }

  lemma {:induction false} RunKeeps(s: Link, events: seq<Event>, maxMessage: nat)
    requires Inv(s, maxMessage) && AllowedRun(s, events, maxMessage)
    ensures Inv(Play(s, events), maxMessage)
    decreases |events|
  {
    hide Inv, Next;
    if events != [] {
      EventKeeps(s, events[0], maxMessage);
      RunKeeps(Next(s, events[0]), events[1..], maxMessage);
    }
  }

  /** After any run, the messages the receiver has taken are those the sender was told OK for, in
      order and once each, plus at most the message being sent, and that only while nothing but its
      final acknowledgement is outstanding. */
  lemma ExactlyOnce(maxPayload: nat, events: seq<Event>, maxMessage: nat)
    requires maxPayload > 0 && AllowedRun(Init(maxPayload), events, maxMessage)
    ensures var s := Play(Init(maxPayload), events);
            || Taken(s) == s.sent
            || (s.tx.Some? && DSize(s.tx.value) == s.tx.value.left && Taken(s) == s.sent + [s.tx.value.data])
  {
    RunKeeps(Init(maxPayload), events, maxMessage);
  }

  // ------------------------------------------------------------------ a used code is never taken

  /** What the receiver will have finished last once the call under way has returned. */
  function LastCode(s: Link): nat {
    if s.app.Finishing? then s.app.seqCode else s.ch.lastSeq
  }

  /** No new message, and no reader gives up or fails: a failing one forgets the last code. */
  predicate Undisturbed(s: Link, e: Event) {
    && Enabled(s, e) && !e.SendCall? && !e.RecvFails?
    && (e.RecvPops? ==> !Next(s, e).app.AppIdle?)
  }

  predicate UndisturbedRun(s: Link, events: seq<Event>): (undisturbed: bool)
    ensures undisturbed ==> EnabledRun(s, events)
    decreases |events|
  {
    events == [] || (Undisturbed(s, events[0]) && UndisturbedRun(Next(s, events[0]), events[1..]))
  }

  /** Everything on the line carries the code, and no last packet of it waits for a reader. */
  ghost predicate Stale(s: Link, code: nat) {
    && LastCode(s) == code && (s.tx.Some? ==> s.tx.value.seqCode == code)
    && (forall p :: p in s.dataLine ==> p.seqCode == code)
    && (s.app.Receiving? ==> forall p :: p in s.dataFifo ==> !p.last)
  }

  lemma StaleSend(s: Link, e: Event, code: nat)
    requires Stale(s, code) && Undisturbed(s, e) && (e.SendGetsAck? || e.SendTimesOut?)
    ensures Stale(Next(s, e), code) && Taken(Next(s, e)) == Taken(s)
  {
    var t, n := s.tx.value, Next(s, e);
    if n.tx.Some? {
      assert n.dataLine == s.dataLine + [Current(n.tx.value)] && n.tx.value.seqCode == t.seqCode;
    }
  }

  lemma StaleArrives(s: Link, code: nat)
    requires Stale(s, code) && Enabled(s, DataArrives)
    ensures Stale(Next(s, DataArrives), code) && Taken(Next(s, DataArrives)) == Taken(s)
  {
    assert s.dataLine[0] in s.dataLine;
  }

  lemma StalePops(s: Link, code: nat)
    requires Stale(s, code) && Undisturbed(s, RecvPops)
    ensures Stale(Next(s, RecvPops), code) && Taken(Next(s, RecvPops)) == Taken(s)
  {
    assert s.dataFifo[0] in s.dataFifo;
  }

  lemma StaleElsewhere(s: Link, e: Event, code: nat)
    requires Stale(s, code) && Undisturbed(s, e)
    requires !e.SendGetsAck? && !e.SendTimesOut? && !e.DataArrives? && !e.RecvPops?
    ensures Stale(Next(s, e), code) && Taken(Next(s, e)) == Taken(s)
  {
    assert Taken(Next(s, e)) == Taken(s);
  }

  lemma {:induction false} StaleRun(s: Link, events: seq<Event>, code: nat)
    requires Stale(s, code) && UndisturbedRun(s, events)
    ensures Taken(Play(s, events)) == Taken(s)
    decreases |events|
  {
    if events != [] {
      var e := events[0];
      hide Stale, Next, Taken;
      if e.SendGetsAck? || e.SendTimesOut? {
        StaleSend(s, e, code);
      } else if e == DataArrives {
        StaleArrives(s, code);
      } else if e == RecvPops {
        StalePops(s, code);
      } else {
        StaleElsewhere(s, e, code);
      }
      StaleRun(Next(s, e), events[1..], code);
    }
  }

  /** A message sent under the code finished last is never taken, however many packets it has, whatever is
      lost and whenever timeouts fire, unless a reader fails in between. */
  lemma UsedCodeNeverTaken(s: Link, m: seq<byte>, events: seq<Event>)
    requires s.dataLine == [] && (s.app.Receiving? ==> s.dataFifo == [])
    requires Enabled(s, SendCall(m, LastCode(s)))
    requires UndisturbedRun(Next(s, SendCall(m, LastCode(s))), events)
    ensures Taken(Play(Next(s, SendCall(m, LastCode(s))), events)) == Taken(s)
  {
    var n := Next(s, SendCall(m, LastCode(s)));
    assert n.dataLine == [Current(n.tx.value)];
    assert Taken(n) == Taken(s);
    StaleRun(n, events, LastCode(s));
  }
}
