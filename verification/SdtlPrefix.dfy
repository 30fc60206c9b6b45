/** One message over a reliable SDTL channel with no timing assumption at all. */
module SdtlPrefix {

  // Timeouts fire at any moment, retransmissions and stale acknowledgements pile up, anything is lost, and the
  // receiver may give up and start again. The lines keep their order.
  //
  // The sender does not look at the packet number of an acknowledgement, so stale ones let it run
  // ahead of the receiver; the receiver sees packet numbers modulo 256. What it accumulates is a
  // prefix of the message, and what it returns the whole message, exactly as long as the message has
  // at most 257 packets.

  import opened Bytes
  import opened Sequences
  import opened SdtlChannel
  import opened SdtlLink

  /** The payloads of the packets of a message. */
  function Chunks(m: seq<byte>, size: nat): (cs: seq<seq<byte>>)
    requires size > 0 && m != []
    ensures |cs| > 0 && forall i :: 0 <= i < |cs| ==> cs[i] != []
    decreases |m|
  {
    if |m| <= size then [m] else [m[..size]] + Chunks(m[size..], size)
  }

  lemma {:induction false} ChunksJoin(m: seq<byte>, size: nat)
    requires size > 0 && m != []
    ensures Flatten(Chunks(m, size)) == m
    decreases |m|
  {
    if |m| <= size {
      assert Flatten([m]) == m + Flatten([]);
    } else {
      ChunksJoin(m[size..], size);
    }
  }

  /** The number of packets is the length over the payload size, rounded up. */
  lemma {:induction false} ChunksCount(m: seq<byte>, size: nat, n: nat)
    requires size > 0 && m != []
    ensures |Chunks(m, size)| <= n <==> |m| <= n * size
    decreases |m|
  {
    if n == 0 || |m| <= size {
      TimesAtLeast(n, size);
    } else {
      ChunksCount(m[size..], size, n - 1);
      assert n * size == (n - 1) * size + size;
    }
  }

  lemma TimesAtLeast(n: nat, size: nat)
    ensures n > 0 ==> n * size >= size
    ensures n == 0 ==> n * size == 0
  {
    if n > 0 {
      assert n * size == (n - 1) * size + size;
    }
  }

  /** Packet number `k` of the message cut into `cs`, as it appears on the line. */
  function Pkt(cs: seq<seq<byte>>, code: nat, k: nat): Packet
    requires k < |cs|
  {
    Packet(k % 256, k == 0, k == |cs| - 1, code, cs[k])
  }

  // ------------------------------------------------------------------ runs with one message

  /** A run in which the sender is called at most once, for `m`. */
  predicate OneMessageRun(s: Link, events: seq<Event>, m: seq<byte>, code: nat, called: bool): (possible: bool)
    ensures possible ==> EnabledRun(s, events)
    decreases |events|
  {
    events != [] ==>
      && Enabled(s, events[0])
      && (events[0].SendCall? ==> !called && events[0] == SendCall(m, code))
      && OneMessageRun(Next(s, events[0]), events[1..], m, code, called || events[0].SendCall?)
  }

  /** Where the sender stands and which packets of the message are under way. */
  datatype Aux = Aux(k: nat, fifo: seq<nat>, line: seq<nat>)

  ghost predicate Carries(ps: seq<Packet>, ks: seq<nat>, cs: seq<seq<byte>>, code: nat) {
    |ps| == |ks| && forall i :: 0 <= i < |ks| ==> ks[i] < |cs| && ps[i] == Pkt(cs, code, ks[i])
  }

  ghost predicate Sorted(ks: seq<nat>) {
    forall i, j :: 0 <= i < j < |ks| ==> ks[i] <= ks[j]
  }

  ghost predicate SenderAt(t: LiveTx, k: nat, m: seq<byte>, code: nat, size: nat)
    requires size > 0 && m != []
  {
    var cs := Chunks(m, size);
    && t.data == m && t.seqCode == code && t.maxPayload == size
    && t.pktn == k % 256 && (t.first <==> k == 0)
    && k < |cs| && Chunks(m[t.offset..], size) == cs[k..]
  }

  ghost predicate AtMost(ks: seq<nat>, k: nat) {
    forall i :: 0 <= i < |ks| ==> ks[i] <= k
  }

  ghost predicate AtLeast(ks: seq<nat>, k: int) {
    forall i :: 0 <= i < |ks| ==> k <= ks[i]
  }

  /** The reader holds the packets up to number `prevPktNum`, and the sender is no further back. */
  ghost predicate ReaderAt(rc: Rc, cs: seq<seq<byte>>, k: nat) {
    if rc.sequenceStarted then
      && 0 <= rc.prevPktNum < |cs| - 1 && rc.prevPktNum <= k
      && rc.data == Flatten(cs[..rc.prevPktNum + 1])
    else
      rc.prevPktNum == -1 && rc.data == []
  }

  ghost predicate Called(s: Link, a: Aux, m: seq<byte>, code: nat)
    requires s.maxPayload > 0 && m != []
  {
    var cs := Chunks(m, s.maxPayload);
    var underWay := a.fifo + a.line;
    && (s.tx.Some? ==> SenderAt(s.tx.value, a.k, m, code, s.maxPayload))
    && Carries(s.dataFifo, a.fifo, cs, code) && Carries(s.dataLine, a.line, cs, code)
    && Sorted(underWay) && AtMost(underWay, a.k)
    && (s.app.Receiving? ==> ReaderAt(s.app.rc, cs, a.k) && AtLeast(underWay, s.app.rc.prevPktNum))
    && (s.app.Finishing? ==> s.app.data == m)
    && (forall r :: r in s.received ==> r == m)
  }

  /** Before the call: the data line is clear and the reader holds nothing; acknowledgements may be left over. */
  ghost predicate NotCalled(s: Link) {
    && s.tx.None? && s.dataLine == s.dataFifo == [] && s.received == []
    && !s.app.Finishing?
    && (s.app.Receiving? ==> !s.app.rc.sequenceStarted && s.app.rc.prevPktNum == -1 && s.app.rc.data == [])
  }

  ghost predicate Inv(s: Link, a: Aux, m: seq<byte>, code: nat, called: bool) {
    && s.maxPayload > 0 && m != []
    && if called then Called(s, a, m, code) else NotCalled(s)
  }

  lemma FirstPacketSent(t: LiveTx, m: seq<byte>, code: nat, size: nat)
    requires m != [] && size > 0 && t == TxStart(m, code, size)
    ensures SenderAt(t, 0, m, code, size)
  {
    assert m[0..] == m;
  }

  lemma CurrentIsPkt(t: LiveTx, k: nat, m: seq<byte>, code: nat, size: nat)
    requires m != [] && size > 0 && SenderAt(t, k, m, code, size)
    ensures Current(t) == Pkt(Chunks(m, size), code, k)
  {
    var rest := m[t.offset..];
    assert Chunks(rest, size)[0] == Chunks(m, size)[k];
    assert |Chunks(rest, size)| == |Chunks(m, size)| - k;
    if |rest| <= size {
      assert t.data[t.offset..t.offset + DSize(t)] == rest;
    } else {
      assert t.data[t.offset..t.offset + DSize(t)] == rest[..size];
    }
  }

  lemma AdvanceIsNext(t: LiveTx, k: nat, m: seq<byte>, code: nat, size: nat)
    requires m != [] && size > 0 && SenderAt(t, k, m, code, size) && Advance(t).left > 0
    ensures SenderAt(Advance(t), k + 1, m, code, size)
  {
    var rest := m[t.offset..];
    assert rest[size..] == m[t.offset + size..];
    assert Chunks(rest, size)[1..] == Chunks(rest[size..], size);
    assert Chunks(m, size)[k..][1..] == Chunks(m, size)[k + 1..];
  }

  // ------------------------------------------------------------------ every event keeps the invariant

  /** Putting packet `k` on the line. */
  lemma TransmitKeeps(s: Link, t: LiveTx, a: Aux, k: nat, m: seq<byte>, code: nat)
    requires s.maxPayload > 0 && m != [] && s.tx.None? && Called(s, a, m, code)
    requires a.k <= k && SenderAt(t, k, m, code, s.maxPayload)
    ensures Called(Transmit(s, t), Aux(k, a.fifo, a.line + [k]), m, code)
  {
    CurrentIsPkt(t, k, m, code, s.maxPayload);
    var b := Aux(k, a.fifo, a.line + [k]);
    assert b.fifo + b.line == (a.fifo + a.line) + [k];
  }

  lemma CallKeeps(s: Link, a: Aux, m: seq<byte>, code: nat) returns (b: Aux)
    requires Inv(s, a, m, code, false) && Enabled(s, SendCall(m, code))
    ensures Inv(Next(s, SendCall(m, code)), b, m, code, true)
  {
    var t := TxStart(m, code, s.maxPayload);
    FirstPacketSent(t, m, code, s.maxPayload);
    var before := s.(ackFifo := []);
    assert Called(before, Aux(0, [], []), m, code);
    TransmitKeeps(before, t, Aux(0, [], []), 0, m, code);
    b := Aux(0, [], [] + [0]);
  }

  lemma SenderTurnKeeps(s: Link, a: Aux, e: Event, m: seq<byte>, code: nat) returns (b: Aux)
    requires Inv(s, a, m, code, true) && Enabled(s, e) && (e.SendGetsAck? || e.SendTimesOut?)
    ensures Inv(Next(s, e), b, m, code, true)
  {
    var t := s.tx.value;
    var idle := s.(tx := None);
    assert Called(idle, a, m, code);
    if e.SendTimesOut? {
      TransmitKeeps(idle, t, a, a.k, m, code);
      b := Aux(a.k, a.fifo, a.line + [a.k]);
    } else {
      match AfterWait(t, AckPopped(s.ackFifo[0]), CondNone)
      case Stop(_) => b := a;
      case Keep(u) =>
        AdvanceIsNext(t, a.k, m, code, s.maxPayload);
        var popped := idle.(ackFifo := s.ackFifo[1..]);
        assert Called(popped, a, m, code);
        TransmitKeeps(popped, u, a, a.k + 1, m, code);
        b := Aux(a.k + 1, a.fifo, a.line + [a.k + 1]);
    }
  }

  /** Dropping one packet from those under way. */
  lemma DropKeeps(ks: seq<nat>, at: nat, k: nat, low: int)
    requires at < |ks| && Sorted(ks) && AtMost(ks, k)
    ensures var rest := ks[..at] + ks[at + 1..];
            Sorted(rest) && AtMost(rest, k) && (AtLeast(ks, low) ==> AtLeast(rest, low))
  {
  }

  lemma DataArrivesKeeps(s: Link, a: Aux, m: seq<byte>, code: nat) returns (b: Aux)
    requires Inv(s, a, m, code, true) && Enabled(s, DataArrives)
    ensures Inv(Next(s, DataArrives), b, m, code, true)
  {
    match OnData(s.ch, s.dataLine[0])
    case AckNow(_) =>
      b := a.(line := a.line[1..]);
      DropKeeps(a.fifo + a.line, |a.fifo|, a.k, if s.app.Receiving? then s.app.rc.prevPktNum else 0);
      assert b.fifo + b.line == (a.fifo + a.line)[..|a.fifo|] + (a.fifo + a.line)[|a.fifo| + 1..];
    case Enqueue =>
      b := Aux(a.k, a.fifo + [a.line[0]], a.line[1..]);
      assert b.fifo + b.line == a.fifo + a.line;
  }

  lemma LoseDataKeeps(s: Link, a: Aux, at: nat, m: seq<byte>, code: nat) returns (b: Aux)
    requires Inv(s, a, m, code, true) && Enabled(s, LoseData(at))
    ensures Inv(Next(s, LoseData(at)), b, m, code, true)
  {
    b := a.(line := a.line[..at] + a.line[at + 1..]);
    var ks, i := a.fifo + a.line, |a.fifo| + at;
    DropKeeps(ks, i, a.k, if s.app.Receiving? then s.app.rc.prevPktNum else 0);
    assert b.fifo + b.line == ks[..i] + ks[i + 1..];
  }

  lemma FlushKeeps(s: Link, a: Aux, m: seq<byte>, code: nat) returns (b: Aux)
    requires Inv(s, a, m, code, true) && Enabled(s, RecvFlushes)
    ensures Inv(Next(s, RecvFlushes), b, m, code, true)
  {
    b := a.(fifo := []);
    assert a.line == (a.fifo + a.line)[|a.fifo|..];
    assert b.fifo + b.line == a.line;
  }

  /** The packet the reader takes next is the one it expects: with at most 257 packets, the only
      number not below the last one taken and right modulo 256. */
  lemma ExpectedNumber(prev: nat, k: nat, n: nat)
    requires prev <= k < n <= 257
    requires (k % 256 - prev % 256) % 256 == 1
    ensures k == prev + 1
  {
  }

  /** What wait_data makes of packet `k`: it is accepted only as the very next one. */
  lemma AcceptedNumber(rc: Rc, cs: seq<seq<byte>>, code: nat, k: nat, top: nat)
    requires 0 < |cs| <= 257 && (forall i :: 0 <= i < |cs| ==> cs[i] != [])
    requires k < |cs| && rc.prevPktNum <= k && ReaderAt(rc, cs, top)
    ensures var rv := WaitDataRv(rc, DataPopped(Pkt(cs, code, k)), CondNone);
            && (rv == FirstPacket ==> !rc.sequenceStarted && k == 0)
            && (rv == DataOk ==> rc.sequenceStarted && k == rc.prevPktNum + 1)
            && (rv != DataStop(Ok))
  {
    if rc.sequenceStarted && (k % 256 - rc.prevPktNum % 256) % 256 == 1 {
      ExpectedNumber(rc.prevPktNum, k, |cs|);
    }
  }

  lemma HeldGrows(data: seq<byte>, cs: seq<seq<byte>>, k: nat)
    requires k < |cs| && (if k == 0 then data == [] else data == Flatten(cs[..k]))
    ensures data + cs[k] == Flatten(cs[..k + 1])
    ensures k == |cs| - 1 ==> data + cs[k] == Flatten(cs)
  {
    FlattenNext(cs, k);
    assert cs[..|cs|] == cs;
    assert Flatten(cs[..0]) == [];
  }

  lemma AcceptKeeps(rc: Rc, cs: seq<seq<byte>>, code: nat, k: nat, top: nat, rv: DataRv)
    requires k < |cs| && k <= top && ReaderAt(rc, cs, top)
    requires || (rv == FirstPacket && !rc.sequenceStarted && k == 0)
             || (rv == DataOk && rc.sequenceStarted && k == rc.prevPktNum + 1)
    ensures var started := if rv == FirstPacket then rc.(sequenceStarted := true, prevPktNum := 0) else rc;
            var next := Accept(started, Pkt(cs, code, k), rv);
            && next.rc.prevPktNum == k
            && (next.done.None? ==> ReaderAt(next.rc, cs, top))
            && (next.done.Some? ==> next.done == Some(Ok) && next.rc.data == Flatten(cs))
  {
    var p := Pkt(cs, code, k);
    assert p.payload == cs[k] && (p.last <==> k == |cs| - 1);
    hide Flatten, Pkt;
    HeldGrows(rc.data, cs, k);
  }

  /** One packet under way reaches the reader. */
  lemma ReaderTakes(rc: Rc, cs: seq<seq<byte>>, code: nat, k: nat, top: nat)
    requires 0 < |cs| <= 257 && (forall i :: 0 <= i < |cs| ==> cs[i] != [])
    requires k < |cs| && rc.prevPktNum <= k <= top && ReaderAt(rc, cs, top)
    ensures var next := AfterData(rc, DataPopped(Pkt(cs, code, k)), CondNone);
            && (next.done.None? ==> ReaderAt(next.rc, cs, top) && next.rc.prevPktNum <= k)
            && (next.done == Some(Ok) ==> next.rc.data == Flatten(cs))
  {
    hide ReaderAt, WaitDataRv, Accept, Pkt;
    AcceptedNumber(rc, cs, code, k, top);
    var rv := WaitDataRv(rc, DataPopped(Pkt(cs, code, k)), CondNone);
    if rv == FirstPacket || rv == DataOk {
      AcceptKeeps(rc, cs, code, k, top, rv);
    }
  }

  lemma PopKeeps(s: Link, a: Aux, m: seq<byte>, code: nat) returns (b: Aux)
    requires Inv(s, a, m, code, true) && Enabled(s, RecvPops)
    requires |Chunks(m, s.maxPayload)| <= 257
    ensures Inv(Next(s, RecvPops), b, m, code, true)
  {
    hide AfterData, ReaderAt, Chunks, SenderAt, Pkt;
    var cs := Chunks(m, s.maxPayload);
    var k := a.fifo[0];
    var ks := a.fifo + a.line;
    assert ks[0] == k;
    b := a.(fifo := a.fifo[1..]);
    assert b.fifo + b.line == ks[1..];
    ReaderTakes(s.app.rc, cs, code, k, a.k);
    ChunksJoin(m, s.maxPayload);
  }

  lemma EventKeeps(s: Link, a: Aux, e: Event, m: seq<byte>, code: nat, called: bool) returns (b: Aux)
    requires Inv(s, a, m, code, called) && Enabled(s, e)
    requires e.SendCall? ==> !called && e == SendCall(m, code)
    requires |Chunks(m, s.maxPayload)| <= 257
    ensures Inv(Next(s, e), b, m, code, called || e.SendCall?) && Next(s, e).maxPayload == s.maxPayload
  {
    b := a;
    match e
    case SendCall(_, _) => b := CallKeeps(s, a, m, code);
    case SendGetsAck => b := SenderTurnKeeps(s, a, e, m, code);
    case SendTimesOut => b := SenderTurnKeeps(s, a, e, m, code);
    case LoseData(at) => b := LoseDataKeeps(s, a, at, m, code);
    case DataArrives => b := DataArrivesKeeps(s, a, m, code);
    case RecvFlushes => if called { b := FlushKeeps(s, a, m, code); }
    case RecvPops => b := PopKeeps(s, a, m, code);
    case _ =>
  }

  lemma {:induction false} RunKeeps(s: Link, a: Aux, events: seq<Event>, m: seq<byte>, code: nat, called: bool)
    returns (b: Aux, calledAfter: bool)
    requires Inv(s, a, m, code, called) && OneMessageRun(s, events, m, code, called)
    requires |Chunks(m, s.maxPayload)| <= 257
    ensures Inv(Play(s, events), b, m, code, calledAfter) && Play(s, events).maxPayload == s.maxPayload
    decreases |events|
  {
    hide Inv, Next;
    if events == [] {
      b, calledAfter := a, called;
    } else {
      var c := EventKeeps(s, a, events[0], m, code, called);
      b, calledAfter := RunKeeps(Next(s, events[0]), c, events[1..], m, code, called || events[0].SendCall?);
    }
  }

  /** Whatever the receiver holds is a prefix of the message, and whatever it returns is all of it. */
  ghost predicate Sound(s: Link, m: seq<byte>) {
    && (s.app.Receiving? ==> s.app.rc.data <= m)
    && (forall r :: r in Taken(s) ==> r == m)
  }

  /** With at most 257 packets nothing that can happen on the lines breaks this, whatever acknowledgements
      earlier calls have left behind. */
  lemma PrefixSafety(s: Link, events: seq<Event>, m: seq<byte>, code: nat)
    requires s.maxPayload > 0 && NotCalled(s) && m != [] && |m| <= 257 * s.maxPayload
    requires OneMessageRun(s, events, m, code, false)
    ensures Sound(Play(s, events), m)
  {
    ChunksCount(m, s.maxPayload, 257);
    var b, called := RunKeeps(s, Aux(0, [], []), events, m, code, false);
    var u := Play(s, events);
    ChunksJoin(m, s.maxPayload);
    if called && u.app.Receiving? && u.app.rc.sequenceStarted {
      FlattenPrefix(Chunks(m, s.maxPayload), u.app.rc.prevPktNum + 1);
    }
  }
}
