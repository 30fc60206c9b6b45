/** The bound of SdtlPrefix.dfy is exact: for every message of 258 packets or more there is a run in
    which the receiver returns OK with a part of the message missing. */
module SdtlOverrun {

  // Early timeouts make the receiver acknowledge packet 0 again and again; with 256 acknowledgements in
  // hand the sender skips 256 packets, which the 8-bit packet counter cannot tell from none.

  import opened Bytes
  import opened Sequences
  import opened SdtlChannel
  import opened SdtlLink
  import opened SdtlPrefix

  /** The run `events` takes the initial state to `t`. */
  ghost predicate Shows(events: seq<Event>, t: Link, size: nat, m: seq<byte>, code: nat) {
    OneMessageRun(Init(size), events, m, code, false) && Play(Init(size), events) == t
  }

  lemma {:induction false} OneMessageSnoc(s: Link, events: seq<Event>, e: Event, m: seq<byte>, code: nat, called: bool)
    requires OneMessageRun(s, events, m, code, called) && Enabled(Play(s, events), e) && !e.SendCall?
    ensures OneMessageRun(s, events + [e], m, code, called) && Play(s, events + [e]) == Next(Play(s, events), e)
    decreases |events|
  {
    hide Next, Enabled;
    if events == [] {
      assert OneMessageRun(Next(s, e), [], m, code, called);
      assert events + [e] == [e];
      assert Play(s, [e]) == Play(Next(s, e), []);
    } else {
      assert (events + [e])[1..] == events[1..] + [e];
      OneMessageSnoc(Next(s, events[0]), events[1..], e, m, code, called || events[0].SendCall?);
    }
  }

  lemma Move(events: seq<Event>, s: Link, e: Event, size: nat, m: seq<byte>, code: nat)
    returns (longer: seq<Event>, t: Link)
    requires Shows(events, s, size, m, code) && Enabled(s, e) && !e.SendCall?
    ensures t == Next(s, e) && Shows(longer, t, size, m, code)
  {
    hide Next, Enabled;
    longer, t := events + [e], Next(s, e);
    OneMessageSnoc(Init(size), events, e, m, code, false);
  }

  /** The sender stands at packet `i`, the receiver holds the first `held` packets, `acks`
      acknowledgements are on the line, and packet `i` is on the line or nothing is. */
  ghost predicate Stand(s: Link, m: seq<byte>, code: nat, i: nat, held: nat, acks: nat, onLine: bool)
    requires s.maxPayload > 0 && m != []
  {
    var cs := Chunks(m, s.maxPayload);
    && s.tx.Some? && SenderAt(s.tx.value, i, m, code, s.maxPayload)
    && s.dataLine == (if onLine then [Pkt(cs, code, i)] else []) && s.dataFifo == []
    && s.ch == ChState(RxWaitData, 0) && code != 0
    && |s.ackLine| == acks && (forall a :: a in s.ackLine ==> a.code == GotPkt) && s.ackFifo == []
    && s.app.Receiving? && s.app.rc.sequenceStarted && s.app.rc.size >= |m|
    && 0 < held <= |cs| && s.app.rc.prevPktNum == held - 1 && s.app.rc.data == Flatten(cs[..held])
  }

  /** A run leading to such a state. */
  ghost predicate Reached(events: seq<Event>, s: Link, size: nat, m: seq<byte>, code: nat,
                          i: nat, held: nat, acks: nat, onLine: bool) {
    && size > 0 && m != [] && s.maxPayload == size
    && Shows(events, s, size, m, code) && Stand(s, m, code, i, held, acks, onLine)
  }

  lemma LoseKeepsStand(s: Link, m: seq<byte>, code: nat, i: nat, held: nat, acks: nat)
    requires s.maxPayload > 0 && m != [] && Stand(s, m, code, i, held, acks, true)
    ensures Enabled(s, LoseData(0)) && Stand(Next(s, LoseData(0)), m, code, i, held, acks, false)
  {
  }

  lemma TimeoutResends(s: Link, m: seq<byte>, code: nat, i: nat, held: nat, acks: nat)
    requires s.maxPayload > 0 && m != [] && Stand(s, m, code, i, held, acks, false)
    ensures Enabled(s, SendTimesOut) && Stand(Next(s, SendTimesOut), m, code, i, held, acks, true)
  {
    CurrentIsPkt(s.tx.value, i, m, code, s.maxPayload);
    assert Next(s, SendTimesOut).dataLine == [Pkt(Chunks(m, s.maxPayload), code, i)];
  }

  /** The state between the arrival of packet `i` and its being popped. */
  function Arrived(s: Link): Link
    requires s.dataLine != []
  {
    s.(dataLine := s.dataLine[1..], dataFifo := s.dataFifo + [s.dataLine[0]])
  }

  lemma ArrivalQueued(s: Link, m: seq<byte>, code: nat, i: nat, held: nat, acks: nat)
    requires s.maxPayload > 0 && m != [] && Stand(s, m, code, i, held, acks, true)
    ensures Enabled(s, DataArrives) && Next(s, DataArrives) == Arrived(s)
    ensures Arrived(s).dataFifo == [Pkt(Chunks(m, s.maxPayload), code, i)] && Arrived(s).dataLine == []
  {
  }

  /** A packet the receiver already holds is acknowledged once more. */
  lemma RepeatAcked(s: Link, m: seq<byte>, code: nat, i: nat, acks: nat)
    requires s.maxPayload > 0 && m != [] && Stand(s, m, code, i, i + 1, acks, true)
    ensures Enabled(Arrived(s), RecvPops) && Stand(Next(Arrived(s), RecvPops), m, code, i, i + 1, acks + 1, false)
  {
    hide SenderAt, Flatten;
    var cs := Chunks(m, s.maxPayload);
    var p := Pkt(cs, code, i);
    var u := Arrived(s);
    assert u.dataFifo == [p];
    assert AfterData(u.app.rc, DataPopped(p), CondNone) == RcNext(u.app.rc, [Ack(p.cnt, GotPkt)], None);
  }

  /** The next packet is taken. */
  lemma NextTaken(s: Link, m: seq<byte>, code: nat, i: nat, acks: nat)
    requires s.maxPayload > 0 && m != [] && Stand(s, m, code, i, i, acks, true)
    requires i + 1 < |Chunks(m, s.maxPayload)|
    ensures Enabled(Arrived(s), RecvPops) && Stand(Next(Arrived(s), RecvPops), m, code, i, i + 1, acks + 1, false)
  {
    hide SenderAt;
    var cs := Chunks(m, s.maxPayload);
    var p := Pkt(cs, code, i);
    var u := Arrived(s);
    assert u.dataFifo == [p];
    FlattenNext(cs, i);
    FitsBuffer(cs, m, s.maxPayload, i);
    hide Flatten;
  }

  lemma FitsBuffer(cs: seq<seq<byte>>, m: seq<byte>, size: nat, i: nat)
    requires size > 0 && m != [] && cs == Chunks(m, size) && i < |cs|
    ensures |Flatten(cs[..i])| + |cs[i]| <= |m|
  {
    FlattenNext(cs, i);
    FlattenPrefix(cs, i + 1);
    ChunksJoin(m, size);
  }

  lemma AckAdvances(s: Link, m: seq<byte>, code: nat, i: nat, held: nat, acks: nat)
    requires s.maxPayload > 0 && m != [] && Stand(s, m, code, i, held, acks, false)
    requires acks > 0 && i + 1 < |Chunks(m, s.maxPayload)|
    ensures Enabled(s, AckArrives) && Enabled(Next(s, AckArrives), SendGetsAck)
    ensures Stand(Next(Next(s, AckArrives), SendGetsAck), m, code, i + 1, held, acks - 1, true)
  {
    hide Flatten;
    var t := s.tx.value;
    var u := Next(s, AckArrives);
    assert s.ackLine[0] in s.ackLine && u.ackFifo == [s.ackLine[0]];
    MoreToSend(t, i, m, code, s.maxPayload);
    AdvanceIsNext(t, i, m, code, s.maxPayload);
    CurrentIsPkt(Advance(t), i + 1, m, code, s.maxPayload);
    assert forall a :: a in s.ackLine[1..] ==> a in s.ackLine;
    hide SenderAt;
    var v := Next(u, SendGetsAck);
    assert v.dataLine == [Pkt(Chunks(m, s.maxPayload), code, i + 1)];
  }

  lemma MoreToSend(t: LiveTx, i: nat, m: seq<byte>, code: nat, size: nat)
    requires size > 0 && m != [] && SenderAt(t, i, m, code, size) && i + 1 < |Chunks(m, size)|
    ensures Advance(t).left > 0
  {
    assert |Chunks(m[t.offset..], size)| == |Chunks(m, size)| - i;
  }

  // ------------------------------------------------------------------ the run

  /** A message call with a reader waiting, up to the moment packet 0 has been taken. */
  lemma Opening(size: nat, m: seq<byte>, code: nat) returns (events: seq<Event>, s: Link)
    requires size > 0 && m != [] && 0 < code < 0x1_0000 && |Chunks(m, size)| > 1
    ensures Reached(events, s, size, m, code, 0, 1, 1, false)
  {
    var cs := Chunks(m, size);
    var called := Called0(size, m, code);
    CallRun(size, m, code);
    FirstPacketSent(TxStart(m, code, size), m, code, size);
    CurrentIsPkt(TxStart(m, code, size), 0, m, code, size);
    events, s := [RecvCall(|m| + size), RecvFlushes, SendCall(m, code)], called;
    assert s.dataLine == [Pkt(cs, code, 0)];
    events, s := Move(events, s, DataArrives, size, m, code);
    assert s.dataFifo == [Pkt(cs, code, 0)] && s.dataLine == [];
    FitsBuffer(cs, m, size, 0);
    FlattenNext(cs, 0);
    assert cs[..0] == [] && cs[0] != [];
    events, s := Move(events, s, RecvPops, size, m, code);
    hide Flatten;
  }

  /** The state when the sender has just been called. */
  function Called0(size: nat, m: seq<byte>, code: nat): Link
    requires size > 0 && m != []
  {
    var t: LiveTx := TxStart(m, code, size);
    Init(size).(app := Receiving(RcStart(|m| + size)), ch := ChState(RxWaitData, 0),
                tx := Some(t), dataLine := [Current(t)])
  }

  lemma CallRun(size: nat, m: seq<byte>, code: nat)
    requires size > 0 && m != [] && 0 < code < 0x1_0000
    ensures Shows([RecvCall(|m| + size), RecvFlushes, SendCall(m, code)], Called0(size, m, code), size, m, code)
  {
    var e0, e1, e2 := RecvCall(|m| + size), RecvFlushes, SendCall(m, code);
    var s1 := Next(Init(size), e0);
    var s2 := Next(s1, e1);
    var s3 := Next(s2, e2);
    assert s3 == Called0(size, m, code);
    hide Next;
    assert [e2][1..] == [] && OneMessageRun(s3, [], m, code, true) && Play(s3, []) == s3;
    assert OneMessageRun(s2, [e2], m, code, false) && Play(s2, [e2]) == s3;
    assert [e1, e2][1..] == [e2];
    assert OneMessageRun(s1, [e1, e2], m, code, false) && Play(s1, [e1, e2]) == s3;
    assert [e0, e1, e2][1..] == [e1, e2];
  }

  /** `times` early timeouts: each makes the receiver acknowledge packet 0 once more. */
  lemma {:induction false} PileUpAcks(events: seq<Event>, s: Link, size: nat, m: seq<byte>, code: nat, acks: nat,
                                      times: nat)
    returns (longer: seq<Event>, t: Link)
    requires Reached(events, s, size, m, code, 0, 1, acks, false)
    ensures Reached(longer, t, size, m, code, 0, 1, acks + times, false)
    decreases times
  {
    hide Next, Enabled, Stand, Shows, Chunks;
    longer, t := events, s;
    if times > 0 {
      TimeoutResends(t, m, code, 0, 1, acks);
      SameSize(t, SendTimesOut);
      longer, t := Move(longer, t, SendTimesOut, size, m, code);
      ArrivalQueued(t, m, code, 0, 1, acks);
      RepeatAcked(t, m, code, 0, acks);
      SameSize(t, DataArrives);
      longer, t := Move(longer, t, DataArrives, size, m, code);
      SameSize(t, RecvPops);
      longer, t := Move(longer, t, RecvPops, size, m, code);
      longer, t := PileUpAcks(longer, t, size, m, code, acks + 1, times - 1);
    }
  }

  lemma SameSize(s: Link, e: Event)
    requires Enabled(s, e)
    ensures Next(s, e).maxPayload == s.maxPayload
  {
  }

  /** The sender takes one acknowledgement for the current packet. */
  lemma TakeAck(events: seq<Event>, s: Link, size: nat, m: seq<byte>, code: nat, i: nat, held: nat, acks: nat)
    returns (longer: seq<Event>, t: Link)
    requires Reached(events, s, size, m, code, i, held, acks, false)
    requires acks > 0 && i + 1 < |Chunks(m, size)|
    ensures Reached(longer, t, size, m, code, i + 1, held, acks - 1, true)
  {
    hide Next, Enabled, Stand, Shows, Chunks;
    AckAdvances(s, m, code, i, held, acks);
    SameSize(s, AckArrives);
    longer, t := Move(events, s, AckArrives, size, m, code);
    SameSize(t, SendGetsAck);
    longer, t := Move(longer, t, SendGetsAck, size, m, code);
  }

  /** In step, with 256 acknowledgements always in hand, up to packet `j`. */
  lemma {:induction false} InStep(events: seq<Event>, s: Link, size: nat, m: seq<byte>, code: nat, i: nat, j: nat)
    returns (longer: seq<Event>, t: Link)
    requires Reached(events, s, size, m, code, i, i, 256, true) && i <= j < |Chunks(m, size)|
    ensures Reached(longer, t, size, m, code, j, j, 256, true)
    decreases j - i
  {
    hide Next, Enabled, Stand, Shows, Chunks;
    longer, t := events, s;
    if i < j {
      ArrivalQueued(t, m, code, i, i, 256);
      NextTaken(t, m, code, i, 256);
      SameSize(t, DataArrives);
      longer, t := Move(longer, t, DataArrives, size, m, code);
      SameSize(t, RecvPops);
      longer, t := Move(longer, t, RecvPops, size, m, code);
      longer, t := TakeAck(longer, t, size, m, code, i, i + 1, 257);
      longer, t := InStep(longer, t, size, m, code, i + 1, j);
    }
  }

  /** The sender runs ahead: it spends one acknowledgement per lost packet. */
  lemma {:induction false} RunAhead(events: seq<Event>, s: Link, size: nat, m: seq<byte>, code: nat, i: nat, held: nat,
                                    acks: nat)
    returns (longer: seq<Event>, t: Link)
    requires Reached(events, s, size, m, code, i, held, acks, true) && i + acks < |Chunks(m, size)|
    ensures Reached(longer, t, size, m, code, i + acks, held, 0, true)
    decreases acks
  {
    hide Next, Enabled, Stand, Shows, Chunks;
    longer, t := events, s;
    if acks > 0 {
      LoseKeepsStand(t, m, code, i, held, acks);
      SameSize(t, LoseData(0));
      longer, t := Move(longer, t, LoseData(0), size, m, code);
      longer, t := TakeAck(longer, t, size, m, code, i, held, acks);
      longer, t := RunAhead(longer, t, size, m, code, i + 1, held, acks - 1);
    }
  }

  /** Packet `held + 256` is the last one, and is taken for packet `held`. */
  lemma LastTakenEarly(s: Link, m: seq<byte>, code: nat, held: nat)
    requires s.maxPayload > 0 && m != [] && Stand(s, m, code, held + 256, held, 0, true)
    requires held + 257 == |Chunks(m, s.maxPayload)|
    ensures Enabled(Arrived(s), RecvPops)
    ensures var cs := Chunks(m, s.maxPayload);
            Next(Arrived(s), RecvPops).app == Finishing(code, Flatten(cs[..held]) + cs[held + 256])
    ensures Next(Arrived(s), RecvPops).received == s.received
  {
    hide SenderAt, Flatten, Chunks;
    var cs := Chunks(m, s.maxPayload);
    var p := Pkt(cs, code, held + 256);
    var u := Arrived(s);
    assert u.dataFifo == [p] && p.cnt == held % 256;
    SkippedLength(cs, m, s.maxPayload, held);
  }

  lemma SkippedLength(cs: seq<seq<byte>>, m: seq<byte>, size: nat, held: nat)
    requires size > 0 && m != [] && cs == Chunks(m, size) && held + 257 == |cs|
    ensures |Flatten(cs[..held]) + cs[held + 256]| < |m|
  {
    var last := held + 256;
    ChunksJoin(m, size);
    assert cs[..last + 1] == cs;
    FlattenNext(cs, last);
    FlattenNext(cs[..last], held);
    assert cs[..last][..held + 1] == cs[..held + 1] && cs[..last][..held] == cs[..held];
    FlattenPrefix(cs[..last], held + 1);
  }

  /** A run that ends with the receiver returning OK without the whole message. */
  lemma PartTakenForWhole(size: nat, m: seq<byte>, code: nat) returns (events: seq<Event>)
    requires size > 0 && m != [] && 0 < code < 0x1_0000 && |Chunks(m, size)| >= 258
    ensures OneMessageRun(Init(size), events, m, code, false)
    ensures exists part :: part in Taken(Play(Init(size), events)) && |part| < |m|
  {
    hide Next, Enabled, Stand, Shows, Chunks;
    var n := |Chunks(m, size)|;
    var s: Link;
    events, s := Opening(size, m, code);
    events, s := PileUpAcks(events, s, size, m, code, 1, 256);
    events, s := TakeAck(events, s, size, m, code, 0, 1, 257);
    events, s := InStep(events, s, size, m, code, 1, n - 257);
    events, s := RunAhead(events, s, size, m, code, n - 257, n - 257, 256);
    events := Finale(events, s, size, m, code, n - 257);
  }

  lemma Finale(events: seq<Event>, s: Link, size: nat, m: seq<byte>, code: nat, held: nat) returns (longer: seq<Event>)
    requires Reached(events, s, size, m, code, held + 256, held, 0, true) && held + 257 == |Chunks(m, size)|
    ensures OneMessageRun(Init(size), longer, m, code, false)
    ensures exists part :: part in Taken(Play(Init(size), longer)) && |part| < |m|
  {
    hide Next, Enabled, Stand, Chunks;
    var t: Link;
    ArrivalQueued(s, m, code, held + 256, held, 0);
    LastTakenEarly(s, m, code, held);
    longer, t := Move(events, s, DataArrives, size, m, code);
    longer, t := Move(longer, t, RecvPops, size, m, code);
    var cs := Chunks(m, size);
    SkippedLength(cs, m, size, held);
    var part := Flatten(cs[..held]) + cs[held + 256];
    assert part in Taken(t);
  }

  // ------------------------------------------------------------------ the exact bound

  /** No run with this one message ever gives the receiver anything but a prefix, or returns anything
      but the whole. */
  ghost predicate AlwaysSound(size: nat, m: seq<byte>, code: nat) {
    forall events :: OneMessageRun(Init(size), events, m, code, false) ==> Sound(Play(Init(size), events), m)
  }

  /** A message survives every behaviour of the lines and the clock if and only if it fits in 257
      packets. */
  lemma SoundExactlyUpTo257(size: nat, m: seq<byte>, code: nat)
    requires size > 0 && m != [] && 0 < code < 0x1_0000
    ensures AlwaysSound(size, m, code) <==> |m| <= 257 * size
  {
    ChunksCount(m, size, 257);
    hide Chunks, Next, OneMessageRun;
    if |m| <= 257 * size {
      forall events | OneMessageRun(Init(size), events, m, code, false)
        ensures Sound(Play(Init(size), events), m)
      {
        PrefixSafety(Init(size), events, m, code);
      }
    } else {
      var events := PartTakenForWhole(size, m, code);
      var part :| part in Taken(Play(Init(size), events)) && |part| < |m|;
      assert part != m;
      assert !Sound(Play(Init(size), events), m);
    }
  }
}
