/** What each assumption of SdtlExactlyOnce.dfy is needed for: runs that keep all the others and lose, repeat
    or misreport a message. */
module SdtlLapses {

  import opened Bytes
  import opened SdtlChannel
  import opened SdtlLink
  import opened SdtlExactlyOnce

  /** A new message under the code finished last, a timeout while something is under way, or a reader that
      gives up waiting. */
  datatype Lapse = UsedCode | EarlyTimeout | FailingReader

  /** Allowed by the discipline, except for the one lapse. */
  predicate AllowedBut(s: Link, e: Event, maxMessage: nat, lapse: Lapse) {
    Enabled(s, e) &&
    match e
    case SendCall(data, seqCode) => |data| <= maxMessage && (lapse.UsedCode? || FreshCode(s, seqCode))
    case SendTimesOut => lapse.EarlyTimeout? || Quiet(s)
    case RecvCall(size) => size >= maxMessage
    case RecvFails(rv) => lapse.FailingReader? && rv == TimedOut
    case _ => true
  }

  /** The lapses are all there is besides the discipline. */
  lemma AllowedWithoutLapse(s: Link, e: Event, maxMessage: nat)
    ensures Allowed(s, e, maxMessage) <==> forall lapse :: AllowedBut(s, e, maxMessage, lapse)
  {
    assert AllowedBut(s, e, maxMessage, UsedCode) && AllowedBut(s, e, maxMessage, EarlyTimeout)
           ==> Allowed(s, e, maxMessage);
  }

  predicate AllowedButRun(s: Link, events: seq<Event>, maxMessage: nat, lapse: Lapse): (allowed: bool)
    ensures allowed ==> EnabledRun(s, events)
    decreases |events|
  {
    events != [] ==>
      && AllowedBut(s, events[0], maxMessage, lapse)
      && AllowedButRun(Next(s, events[0]), events[1..], maxMessage, lapse)
  }

  /** Such a run from `s` to `t`. */
  ghost predicate Leads(s: Link, events: seq<Event>, t: Link, maxMessage: nat, lapse: Lapse) {
    AllowedButRun(s, events, maxMessage, lapse) && Play(s, events) == t
  }

  lemma StandStill(s: Link, maxMessage: nat, lapse: Lapse)
    ensures Leads(s, [], s, maxMessage, lapse)
  {
  }

  lemma {:induction false} RunSnoc(s: Link, events: seq<Event>, e: Event, maxMessage: nat, lapse: Lapse)
    requires AllowedButRun(s, events, maxMessage, lapse) && AllowedBut(Play(s, events), e, maxMessage, lapse)
    ensures AllowedButRun(s, events + [e], maxMessage, lapse)
    decreases |events|
  {
    hide Next, AllowedBut;
    if events == [] {
      assert events + [e] == [e];
    } else {
      assert (events + [e])[1..] == events[1..] + [e];
      RunSnoc(Next(s, events[0]), events[1..], e, maxMessage, lapse);
    }
  }

  /** One more event at the end of a run. */
  lemma Extend(s: Link, events: seq<Event>, t: Link, e: Event, maxMessage: nat, lapse: Lapse)
    returns (longer: seq<Event>, u: Link)
    requires Leads(s, events, t, maxMessage, lapse) && AllowedBut(t, e, maxMessage, lapse)
    ensures u == Next(t, e) && Leads(s, longer, u, maxMessage, lapse)
  {
    assert Enabled(t, e);
    hide Next, AllowedBut, Enabled;
    longer, u := events + [e], Next(t, e);
    RunSnoc(s, events, e, maxMessage, lapse);
    PlayOne(t, e);
    PlayConcat(s, events, [e]);
  }

  // ------------------------------------------------------------------ a message, packet by packet

  /** The reader holds everything before the current packet. */
  predicate Holds(rc: Rc, t: LiveTx) {
    && rc.size >= |t.data| && rc.data == t.data[..t.offset] && t.pktn < 256
    && if t.offset == 0 then t.first && t.pktn == 0 && rc.prevPktNum == -1 && !rc.sequenceStarted
       else !t.first && rc.sequenceStarted && rc.prevPktNum >= 0 && (rc.prevPktNum + 1) % 256 == t.pktn
  }

  /** The current packet is on its way to a waiting reader, and nothing else is. */
  ghost predicate UnderWay(s: Link, t: LiveTx, rc: Rc) {
    && s.tx == Some(t) && s.dataLine == [Current(t)] && s.dataFifo == [] && s.ackLine == [] && s.ackFifo == []
    && s.app == Receiving(rc) && s.ch.mode == RxWaitData && Holds(rc, t)
  }

  /** The reader once it has taken the current packet. */
  function TakenRc(rc: Rc, t: LiveTx): Rc {
    Rc(rc.size, t.data[..t.offset + DSize(t)], if t.first then 0 else rc.prevPktNum + 1, true)
  }

  lemma PacketTaken(rc: Rc, t: LiveTx)
    requires Holds(rc, t)
    ensures AfterData(rc, DataPopped(Current(t)), CondNone)
         == RcNext(TakenRc(rc, t), [Ack(t.pktn, GotPkt)], if DSize(t) == t.left then Some(Ok) else None)
  {
    assert t.data[..t.offset] + Current(t).payload == t.data[..t.offset + DSize(t)];
  }

  lemma StillHolds(rc: Rc, t: LiveTx)
    requires Holds(rc, t) && DSize(t) < t.left
    ensures TxValid(Advance(t)) && Holds(TakenRc(rc, t), Advance(t))
  {
    CountOn(rc.prevPktNum + 1);
  }

  lemma CountOn(n: int)
    ensures (n + 1) % 256 == (n % 256 + 1) % 256
  {
  }

  /** The state with another packet on its way. */
  function Moved(s: Link, t: LiveTx, rc: Rc): Link {
    s.(tx := Some(t), dataLine := [Current(t)], app := Receiving(rc))
  }

  /** The packet reaches the reader and is acknowledged. */
  lemma Arrives(s0: Link, events: seq<Event>, s: Link, t: LiveTx, rc: Rc, maxMessage: nat, lapse: Lapse)
    returns (longer: seq<Event>)
    requires Leads(s0, events, s, maxMessage, lapse) && UnderWay(s, t, rc)
    requires DSize(t) < t.left || s.ch.lastSeq != t.seqCode
    ensures Leads(s0, longer, Popped(s, t, rc), maxMessage, lapse)
  {
    PacketTaken(rc, t);
    assert Current(t).seqCode == t.seqCode && (DSize(t) == t.left ==> TakenRc(rc, t).data == t.data);
    assert Current(t).last <==> DSize(t) == t.left;
    hide Leads, AfterData, Current, Holds, TakenRc;
    var u: Link;
    longer, u := Extend(s0, events, s, DataArrives, maxMessage, lapse);
    assert u == s.(dataLine := [], dataFifo := [Current(t)]);
    longer, u := Extend(s0, longer, u, RecvPops, maxMessage, lapse);
    assert u == Popped(s, t, rc);
  }

  function Popped(s: Link, t: LiveTx, rc: Rc): Link {
    s.(dataLine := [], ackLine := [Ack(t.pktn, GotPkt)],
       app := if DSize(t) == t.left then Finishing(t.seqCode, t.data) else Receiving(TakenRc(rc, t)))
  }

  /** A packet that is not the last is taken, acknowledged, and followed by the next. */
  lemma PacketThrough(s0: Link, events: seq<Event>, s: Link, t: LiveTx, rc: Rc, maxMessage: nat, lapse: Lapse)
    returns (longer: seq<Event>)
    requires Leads(s0, events, s, maxMessage, lapse) && UnderWay(s, t, rc) && DSize(t) < t.left
    ensures TxValid(Advance(t)) && Leads(s0, longer, Moved(s, Advance(t), TakenRc(rc, t)), maxMessage, lapse)
    ensures UnderWay(Moved(s, Advance(t), TakenRc(rc, t)), Advance(t), TakenRc(rc, t))
  {
    StillHolds(rc, t);
    assert AfterWait(t, AckPopped(Ack(t.pktn, GotPkt)), CondNone) == Keep(Advance(t));
    hide Leads, AfterData, AfterWait, Current, Holds, TakenRc, Advance;
    longer := Arrives(s0, events, s, t, rc, maxMessage, lapse);
    var u := Popped(s, t, rc);
    longer, u := Extend(s0, longer, u, AckArrives, maxMessage, lapse);
    assert u.ackFifo == [Ack(t.pktn, GotPkt)] && u.ackLine == [];
    longer, u := Extend(s0, longer, u, SendGetsAck, maxMessage, lapse);
    assert u == Moved(s, Advance(t), TakenRc(rc, t));
  }

  lemma {:induction false} UpToLast(s0: Link, events: seq<Event>, s: Link, t: LiveTx, rc: Rc, maxMessage: nat,
                                    lapse: Lapse)
    returns (longer: seq<Event>, last: LiveTx, held: Rc)
    requires Leads(s0, events, s, maxMessage, lapse) && UnderWay(s, t, rc)
    ensures Leads(s0, longer, Moved(s, last, held), maxMessage, lapse) && UnderWay(Moved(s, last, held), last, held)
    ensures DSize(last) == last.left && last.data == t.data && last.seqCode == t.seqCode
    ensures DSize(t) == t.left ==> last == t
    decreases t.left
  {
    if DSize(t) == t.left {
      longer, last, held := events, t, rc;
      assert Moved(s, t, rc) == s;
    } else {
      longer := PacketThrough(s0, events, s, t, rc, maxMessage, lapse);
      var u, v, q := Moved(s, Advance(t), TakenRc(rc, t)), Advance(t), TakenRc(rc, t);
      assert v.data == t.data && v.seqCode == t.seqCode && v.left < t.left;
      hide Leads, UnderWay, Advance, TakenRc;
      longer, last, held := UpToLast(s0, longer, u, v, q, maxMessage, lapse);
      assert Moved(u, last, held) == Moved(s, last, held);
    }
  }

  /** Nothing is under way and nobody is waiting. */
  predicate Ready(s: Link) {
    s.maxPayload > 0 && s.tx == None && s.app == AppIdle && s.dataLine == [] && s.ackLine == []
  }

  /** A reader calls, then a sender. */
  function Begun(s: Link, m: seq<byte>, code: nat, size: nat): Link
    requires s.maxPayload > 0 && m != []
  {
    var t: LiveTx := TxStart(m, code, s.maxPayload);
    Moved(s.(ch := s.ch.(mode := RxWaitData), dataFifo := [], ackFifo := []), t, RcStart(size))
  }

  lemma Begins(s0: Link, events: seq<Event>, s: Link, m: seq<byte>, code: nat, maxMessage: nat, lapse: Lapse)
    returns (longer: seq<Event>)
    requires Leads(s0, events, s, maxMessage, lapse) && Ready(s) && m != [] && |m| <= maxMessage
    requires 0 < code < 0x1_0000 && (lapse.UsedCode? || code != s.ch.lastSeq)
    ensures Leads(s0, longer, Begun(s, m, code, maxMessage + s.maxPayload), maxMessage, lapse)
    ensures var t: LiveTx := TxStart(m, code, s.maxPayload);
            UnderWay(Begun(s, m, code, maxMessage + s.maxPayload), t, RcStart(maxMessage + s.maxPayload))
  {
    hide Leads, Current;
    var size := maxMessage + s.maxPayload;
    var u: Link;
    longer, u := Extend(s0, events, s, RecvCall(size), maxMessage, lapse);
    longer, u := Extend(s0, longer, u, RecvFlushes, maxMessage, lapse);
    longer, u := Extend(s0, longer, u, SendCall(m, code), maxMessage, lapse);
    assert u == Begun(s, m, code, size);
  }

  /** The reader has returned with the whole message, and its last acknowledgement is on the line. */
  ghost predicate AwaitsAck(s: Link, t: LiveTx, before: Link) {
    && s == before.(tx := Some(t), ch := ChState(RxSeqDone, t.seqCode), ackLine := [Ack(t.pktn, GotPkt)],
                    dataFifo := [], ackFifo := [], received := before.received + [t.data])
    && Ready(before) && DSize(t) == t.left && t.seqCode > 0
  }

  lemma Delivers(s0: Link, events: seq<Event>, s: Link, m: seq<byte>, code: nat, maxMessage: nat, lapse: Lapse)
    returns (longer: seq<Event>, u: Link, t: LiveTx)
    requires Leads(s0, events, s, maxMessage, lapse) && Ready(s) && m != [] && |m| <= maxMessage
    requires 0 < code < 0x1_0000 && code != s.ch.lastSeq
    ensures Leads(s0, longer, u, maxMessage, lapse) && AwaitsAck(u, t, s) && t.data == m && t.seqCode == code
    ensures |m| <= s.maxPayload ==> t == TxStart(m, code, s.maxPayload)
  {
    longer := Begins(s0, events, s, m, code, maxMessage, lapse);
    var begun := Begun(s, m, code, maxMessage + s.maxPayload);
    var held: Rc;
    longer, t, held := UpToLast(s0, longer, begun, begun.tx.value, begun.app.rc, maxMessage, lapse);
    longer := LastTaken(s0, longer, Moved(begun, t, held), t, held, maxMessage, lapse);
    u := Returned(Moved(begun, t, held), t);
    hide Leads;
    assert u == s.(tx := Some(t), ch := ChState(RxSeqDone, t.seqCode), ackLine := [Ack(t.pktn, GotPkt)],
                   dataFifo := [], ackFifo := [], received := s.received + [t.data]);
  }

  function Returned(s: Link, t: LiveTx): Link {
    s.(dataLine := [], app := AppIdle, ch := ChState(RxSeqDone, t.seqCode), ackLine := [Ack(t.pktn, GotPkt)],
       received := s.received + [t.data])
  }

  lemma LastTaken(s0: Link, events: seq<Event>, s: Link, t: LiveTx, rc: Rc, maxMessage: nat, lapse: Lapse)
    returns (longer: seq<Event>)
    requires Leads(s0, events, s, maxMessage, lapse) && UnderWay(s, t, rc) && DSize(t) == t.left
    requires s.ch.lastSeq != t.seqCode
    ensures Leads(s0, longer, Returned(s, t), maxMessage, lapse)
  {
    hide Leads, UnderWay;
    longer := Arrives(s0, events, s, t, rc, maxMessage, lapse);
    var u: Link;
    longer, u := Extend(s0, longer, Popped(s, t, rc), RecvReturns, maxMessage, lapse);
    assert u == Returned(s, t);
  }

  /** The sender takes the first acknowledgement on the line for its last packet. */
  lemma AckEnds(s0: Link, events: seq<Event>, s: Link, t: LiveTx, maxMessage: nat, lapse: Lapse)
    returns (longer: seq<Event>)
    requires Leads(s0, events, s, maxMessage, lapse) && s.tx == Some(t) && DSize(t) == t.left
    requires s.ackLine != [] && s.ackLine[0].code == GotPkt && s.ackFifo == []
    ensures Leads(s0, longer, s.(tx := None, ackLine := s.ackLine[1..], sent := s.sent + [t.data]), maxMessage, lapse)
  {
    assert AfterWait(t, AckPopped(s.ackLine[0]), CondNone) == Stop(Ok);
    hide Leads, AfterWait;
    var u: Link;
    longer, u := Extend(s0, events, s, AckArrives, maxMessage, lapse);
    assert u.ackFifo == [s.ackLine[0]];
    longer, u := Extend(s0, longer, u, SendGetsAck, maxMessage, lapse);
    assert u == s.(tx := None, ackLine := s.ackLine[1..], sent := s.sent + [t.data]);
  }

  /** After `m` has gone through. */
  function Transferred(s: Link, m: seq<byte>, code: nat): Link {
    s.(ch := ChState(RxSeqDone, code), dataFifo := [], ackFifo := [],
       received := s.received + [m], sent := s.sent + [m])
  }

  lemma Transfers(s0: Link, events: seq<Event>, s: Link, m: seq<byte>, code: nat, maxMessage: nat, lapse: Lapse)
    returns (longer: seq<Event>)
    requires Leads(s0, events, s, maxMessage, lapse) && Ready(s) && m != [] && |m| <= maxMessage
    requires 0 < code < 0x1_0000 && code != s.ch.lastSeq
    ensures Leads(s0, longer, Transferred(s, m, code), maxMessage, lapse)
  {
    hide Leads;
    var u: Link, t: LiveTx;
    longer, u, t := Delivers(s0, events, s, m, code, maxMessage, lapse);
    longer := AckEnds(s0, longer, u, t, maxMessage, lapse);
    assert u.(tx := None, ackLine := u.ackLine[1..], sent := u.sent + [t.data]) == Transferred(s, m, code);
  }

  // ------------------------------------------------------------------ a used code

  /** The last packet under the code finished last is answered by the receive thread. */
  lemma LastAnswered(s0: Link, events: seq<Event>, s: Link, t: LiveTx, maxMessage: nat, lapse: Lapse)
    returns (longer: seq<Event>)
    requires Leads(s0, events, s, maxMessage, lapse) && s.tx == Some(t) && s.dataLine == [Current(t)]
    requires DSize(t) == t.left && s.ch.lastSeq == t.seqCode
    ensures Leads(s0, longer, s.(dataLine := [], ackLine := s.ackLine + [Ack(t.pktn, GotPkt)]), maxMessage, lapse)
  {
    assert Current(t).last && Current(t).seqCode == t.seqCode && Current(t).cnt == t.pktn;
    hide Leads, Current;
    var u: Link;
    longer, u := Extend(s0, events, s, DataArrives, maxMessage, lapse);
    assert u == s.(dataLine := [], ackLine := s.ackLine + [Ack(t.pktn, GotPkt)]);
  }

  /** If a message reuses the code the receiver finished last, its sender is told OK and the receiver
      never sees all of it, without any loss, timeout or failure. */
  lemma RepeatedCodeLosesMessage(maxPayload: nat, a: seq<byte>, b: seq<byte>, code: nat)
    returns (events: seq<Event>, s: Link)
    requires maxPayload > 0 && a != [] && b != [] && 0 < code < 0x1_0000
    ensures Leads(Init(maxPayload), events, s, |a| + |b|, UsedCode)
    ensures s.tx == None && s.sent == [a, b] && Taken(s) == [a] && s.dataLine == s.dataFifo == []
  {
    hide Leads;
    var s0, max := Init(maxPayload), |a| + |b|;
    StandStill(s0, max, UsedCode);
    events := Transfers(s0, [], s0, a, code, max, UsedCode);
    s := Transferred(s0, a, code);
    events := Begins(s0, events, s, b, code, max, UsedCode);
    s := Begun(s, b, code, max + maxPayload);
    var t: LiveTx, held: Rc;
    events, t, held := UpToLast(s0, events, s, s.tx.value, s.app.rc, max, UsedCode);
    s := Moved(s, t, held);
    events := LastAnswered(s0, events, s, t, max, UsedCode);
    s := s.(dataLine := [], ackLine := s.ackLine + [Ack(t.pktn, GotPkt)]);
    events := AckEnds(s0, events, s, t, max, UsedCode);
    s := s.(tx := None, ackLine := s.ackLine[1..], sent := s.sent + [t.data]);
  }

  // ------------------------------------------------------------------ early timeouts

  predicate AllGotPkt(acks: seq<Ack>) {
    forall i :: 0 <= i < |acks| ==> acks[i].code == GotPkt
  }

  /** Each early timeout makes the receive thread acknowledge the last packet once more. */
  lemma {:induction false} PileUp(s0: Link, events: seq<Event>, s: Link, t: LiveTx, n: nat, maxMessage: nat)
    returns (longer: seq<Event>, acks: seq<Ack>)
    requires Leads(s0, events, s, maxMessage, EarlyTimeout) && s.tx == Some(t) && s.dataLine == []
    requires DSize(t) == t.left && s.ch.lastSeq == t.seqCode && AllGotPkt(s.ackLine)
    ensures Leads(s0, longer, s.(ackLine := acks), maxMessage, EarlyTimeout)
    ensures |acks| == |s.ackLine| + n && AllGotPkt(acks)
    decreases n
  {
    if n == 0 {
      longer, acks := events, s.ackLine;
    } else {
      hide Leads, Current;
      var u: Link;
      longer, u := Extend(s0, events, s, SendTimesOut, maxMessage, EarlyTimeout);
      assert u.dataLine == [Current(t)];
      longer := LastAnswered(s0, longer, u, t, maxMessage, EarlyTimeout);
      u := u.(dataLine := [], ackLine := s.ackLine + [Ack(t.pktn, GotPkt)]);
      longer, acks := PileUp(s0, longer, u, t, n - 1, maxMessage);
      assert u.(ackLine := acks) == s.(ackLine := acks);
    }
  }

  /** A message all of whose packets are lost is taken to be acknowledged by what is left on the line. */
  lemma {:induction false} Drains(s0: Link, events: seq<Event>, s: Link, t: LiveTx, maxMessage: nat)
    returns (longer: seq<Event>, acks: seq<Ack>)
    requires Leads(s0, events, s, maxMessage, EarlyTimeout) && s.tx == Some(t) && s.dataLine == [Current(t)]
    requires t.left <= |s.ackLine| && AllGotPkt(s.ackLine) && s.ackFifo == []
    ensures Leads(s0, longer, s.(tx := None, dataLine := [], ackLine := acks, sent := s.sent + [t.data]), maxMessage,
                  EarlyTimeout)
    decreases t.left
  {
    var u: Link;
    hide Leads, AfterWait, Current;
    longer, u := Extend(s0, events, s, LoseData(0), maxMessage, EarlyTimeout);
    assert u == s.(dataLine := []);
    if DSize(t) == t.left {
      longer := AckEnds(s0, longer, u, t, maxMessage, EarlyTimeout);
      acks := s.ackLine[1..];
    } else {
      var v := Advance(t);
      longer := NextSent(s0, longer, u, t, maxMessage);
      u := s.(tx := Some(v), dataLine := [Current(v)], ackLine := s.ackLine[1..]);
      longer, acks := Drains(s0, longer, u, v, maxMessage);
      assert u.(tx := None, dataLine := [], ackLine := acks, sent := s.sent + [v.data])
          == s.(tx := None, dataLine := [], ackLine := acks, sent := s.sent + [t.data]);
    }
  }

  lemma NextSent(s0: Link, events: seq<Event>, s: Link, t: LiveTx, maxMessage: nat) returns (longer: seq<Event>)
    requires Leads(s0, events, s, maxMessage, EarlyTimeout) && s.tx == Some(t) && s.dataLine == []
    requires s.ackLine != [] && s.ackLine[0].code == GotPkt && s.ackFifo == [] && DSize(t) < t.left
    ensures TxValid(Advance(t))
    ensures Leads(s0, longer, s.(tx := Some(Advance(t)), dataLine := [Current(Advance(t))], ackLine := s.ackLine[1..]),
                  maxMessage, EarlyTimeout)
  {
    assert AfterWait(t, AckPopped(s.ackLine[0]), CondNone) == Keep(Advance(t));
    hide Leads, AfterWait, Current, Advance;
    var u: Link;
    longer, u := Extend(s0, events, s, AckArrives, maxMessage, EarlyTimeout);
    assert u.ackFifo == [s.ackLine[0]];
    longer, u := Extend(s0, longer, u, SendGetsAck, maxMessage, EarlyTimeout);
    assert u == s.(tx := Some(Advance(t)), dataLine := [Current(Advance(t))], ackLine := s.ackLine[1..]);
  }

  /** Timeouts that fire while the acknowledgement is still on its way leave acknowledgements behind, and a
      following message, every packet of it lost, is taken to be acknowledged by them. */
  lemma EarlyTimeoutLosesMessage(maxPayload: nat, a: seq<byte>, b: seq<byte>, code: nat, code': nat)
    returns (events: seq<Event>, s: Link)
    requires maxPayload > 0 && a != [] && b != []
    requires 0 < code < 0x1_0000 && 0 < code' < 0x1_0000 && code != code'
    ensures Leads(Init(maxPayload), events, s, |a| + |b|, EarlyTimeout)
    ensures s.tx == None && s.sent == [a, b] && Taken(s) == [a] && s.dataLine == s.dataFifo == []
  {
    hide Leads, Current;
    var s0, max := Init(maxPayload), |a| + |b|;
    StandStill(s0, max, EarlyTimeout);
    var t: LiveTx, acks: seq<Ack>;
    events, s, t := Delivers(s0, [], s0, a, code, max, EarlyTimeout);
    events, acks := PileUp(s0, events, s, t, |b|, max);
    s := s.(ackLine := acks);
    events := AckEnds(s0, events, s, t, max, EarlyTimeout);
    s := s.(tx := None, ackLine := acks[1..], sent := s.sent + [a]);
    events, s := Extend(s0, events, s, SendCall(b, code'), max, EarlyTimeout);
    t := TxStart(b, code', maxPayload);
    assert s.dataLine == [Current(t)];
    events, acks := Drains(s0, events, s, t, max);
    s := s.(tx := None, dataLine := [], ackLine := acks, sent := s.sent + [b]);
  }

  // ------------------------------------------------------------------ a failing reader

  lemma CallFails(s0: Link, events: seq<Event>, s: Link, size: nat, maxMessage: nat) returns (longer: seq<Event>)
    requires Leads(s0, events, s, maxMessage, FailingReader) && s.app == AppIdle
    requires size >= s.maxPayload && size >= maxMessage
    ensures Leads(s0, longer, s.(ch := ChState(RxRcvCanceled, 0), dataFifo := []), maxMessage, FailingReader)
  {
    hide Leads;
    var u: Link;
    longer, u := Extend(s0, events, s, RecvCall(size), maxMessage, FailingReader);
    longer, u := Extend(s0, longer, u, RecvFlushes, maxMessage, FailingReader);
    longer, u := Extend(s0, longer, u, RecvFails(TimedOut), maxMessage, FailingReader);
    assert u == s.(ch := ChState(RxRcvCanceled, 0), dataFifo := []);
  }

  /** `m` has been taken, its last acknowledgement is lost, and the next call of the reader times out. */
  lemma ReaderGivesUp(maxPayload: nat, m: seq<byte>, code: nat) returns (events: seq<Event>, s: Link, t: LiveTx)
    requires maxPayload > 0 && m != [] && 0 < code < 0x1_0000
    ensures Leads(Init(maxPayload), events, s, |m|, FailingReader)
    ensures s == Init(maxPayload).(tx := Some(t), ch := ChState(RxRcvCanceled, 0), received := [m])
    ensures DSize(t) == t.left && t.seqCode == code && (|m| <= maxPayload ==> t == TxStart(m, code, maxPayload))
  {
    hide Leads, Current;
    var s0 := Init(maxPayload);
    StandStill(s0, |m|, FailingReader);
    events, s, t := Delivers(s0, [], s0, m, code, |m|, FailingReader);
    events, s := Extend(s0, events, s, LoseAck(0), |m|, FailingReader);
    assert s == s0.(tx := Some(t), ch := ChState(RxSeqDone, code), received := [m]);
    events := CallFails(s0, events, s, |m| + maxPayload, |m|);
    s := s.(ch := ChState(RxRcvCanceled, 0), dataFifo := []);
  }

  /** A one-packet message is taken twice if the reader then calls again. */
  lemma FailingReaderTakesTwice(maxPayload: nat, m: seq<byte>, code: nat) returns (events: seq<Event>, s: Link)
    requires 1 <= |m| <= maxPayload && 0 < code < 0x1_0000
    ensures Leads(Init(maxPayload), events, s, |m|, FailingReader)
    ensures Taken(s) == [m, m] && s.sent == []
  {
    hide Leads, Current;
    var s0, t := Init(maxPayload), TxStart(m, code, maxPayload);
    var rc := RcStart(|m| + maxPayload);
    events, s, t := ReaderGivesUp(maxPayload, m, code);
    events, s := Extend(s0, events, s, RecvCall(|m| + maxPayload), |m|, FailingReader);
    events, s := Extend(s0, events, s, RecvFlushes, |m|, FailingReader);
    events, s := Extend(s0, events, s, SendTimesOut, |m|, FailingReader);
    assert s.dataLine == [Current(t)];
    events := LastTaken(s0, events, s, t, rc, |m|, FailingReader);
    s := Returned(s, t);
  }

  /** A reader that has given up has the packet refused, which ends the call of the sender. */
  lemma LastRefused(s0: Link, events: seq<Event>, s: Link, t: LiveTx, maxMessage: nat) returns (longer: seq<Event>)
    requires Leads(s0, events, s, maxMessage, FailingReader) && s.tx == Some(t) && s.dataLine == [Current(t)]
    requires s.ch == ChState(RxRcvCanceled, 0) && t.seqCode > 0 && s.ackLine == s.ackFifo == []
    ensures Leads(s0, longer, s.(tx := None, dataLine := []), maxMessage, FailingReader)
  {
    var ack := Ack(t.pktn, Canceled);
    assert OnData(s.ch, Current(t)) == AckNow(ack);
    assert AfterWait(t, AckPopped(ack), CondNone) == Stop(RemoteRxCanceled);
    hide Leads, Current, AfterWait, OnData;
    var u: Link;
    longer, u := Extend(s0, events, s, DataArrives, maxMessage, FailingReader);
    assert u == s.(dataLine := [], ackLine := [ack]);
    longer, u := Extend(s0, longer, u, AckArrives, maxMessage, FailingReader);
    assert u.ackFifo == [ack];
    longer, u := Extend(s0, longer, u, SendGetsAck, maxMessage, FailingReader);
    assert u == s.(tx := None, dataLine := []);
  }

  /** A message of any length is reported as refused although it has been taken. */
  lemma FailingReaderMisreports(maxPayload: nat, m: seq<byte>, code: nat) returns (events: seq<Event>, s: Link)
    requires maxPayload > 0 && m != [] && 0 < code < 0x1_0000
    ensures Leads(Init(maxPayload), events, s, |m|, FailingReader)
    ensures s.tx == None && s.sent == [] && Taken(s) == [m]
  {
    hide Leads, Current;
    var s0 := Init(maxPayload);
    var t: LiveTx;
    events, s, t := ReaderGivesUp(maxPayload, m, code);
    events, s := Extend(s0, events, s, SendTimesOut, |m|, FailingReader);
    assert s.dataLine == [Current(t)];
    events := LastRefused(s0, events, s, t, |m|);
    s := s.(tx := None, dataLine := []);
  }
}
