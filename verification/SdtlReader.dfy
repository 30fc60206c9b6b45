/** What the receive loop gives its caller, said over whole runs of the loop. */
module SdtlReader {

  // How a call ends, which packets it takes, and that it never holds more than the caller's buffer: first for
  // any sequence of turns, then for every run of the two-ended machine.

  import opened Bytes
  import opened Sequences
  import opened SdtlChannel
  import opened SdtlLink

  // ------------------------------------------------------------------ how a call ends

  /** The packet the reader is waiting for: the one after the last it took. */
  predicate Due(rc: Rc, p: Packet) {
    rc.prevPktNum >= 0 && p.payload != [] && p.cnt == (rc.prevPktNum + 1) % 256
  }

  /** The first packet of a sequence, which nothing has come before. */
  predicate Opens(rc: Rc, p: Packet) {
    rc.prevPktNum == -1 && p.payload != [] && p.first
  }

  predicate Room(rc: Rc, p: Packet) {
    |rc.data| + |p.payload| <= rc.size
  }

  /** The turn meets the condition, before the data queue is looked at or by a wake-up. */
  predicate Meets(turn: RecvTurn, condition: Condition) {
    || turn.before == condition
    || (turn.before == CondNone && turn.wait.DataPopped? && turn.wait.packet.payload == [] && turn.after == condition)
  }

  predicate Waited(turn: RecvTurn, wait: DataWait) {
    turn.before == CondNone && turn.wait == wait
  }

  /** A reader in this state returns `rv` in this turn. */
  predicate Returns(rc: Rc, turn: RecvTurn, rv: Rv) {
    match rv
    case AppReset => Meets(turn, CondReset)
    case AppCancel => Meets(turn, CondCancel)
    case TimedOut => Waited(turn, DataTimedOut)
    case RxFifoOverflow => Waited(turn, DataUnderrun)
    case EswbErr => Waited(turn, DataFailed)
    case RxBufSmall =>
      turn.before == CondNone && turn.wait.DataPopped? && Due(rc, turn.wait.packet) && !Room(rc, turn.wait.packet)
    case Ok =>
      && turn.before == CondNone && turn.wait.DataPopped? && turn.wait.packet.last
      && (Opens(rc, turn.wait.packet) || (Due(rc, turn.wait.packet) && Room(rc, turn.wait.packet)))
    case _ => false
  }

  /** The locals of a call in progress. */
  predicate InCall(rc: Rc) {
    rc.prevPktNum >= -1 && (rc.sequenceStarted <==> rc.prevPktNum >= 0) && (rc.prevPktNum == -1 ==> rc.data == [])
  }

  /** Packets come from the line: counters have eight bits, and the fake packet of a wake-up is no data packet. */
  predicate FromLine(turns: seq<RecvTurn>) {
    forall k :: 0 <= k < |turns| && turns[k].wait.DataPopped? ==>
      && turns[k].wait.packet.cnt < 256
      && (turns[k].wait.packet.payload == [] ==> !turns[k].wait.packet.last)
  }

  /** `n` turns are over and the call goes on. */
  ghost predicate GoesOn(r: Rc, turns: seq<RecvTurn>, n: nat)
    requires n <= |turns|
  {
    RecvRun(r, turns[..n]).done == None
  }

  lemma OneTurn(r: Rc, turn: RecvTurn, rv: Rv)
    requires InCall(r) && FromLine([turn])
    ensures RecvRun(r, [turn]).done == Some(rv) <==> Returns(r, turn, rv)
  {
    assert [turn][0] == turn;
    if turn.before == CondNone {
      TurnDone(r, turn, rv);
      hide AfterData, Returns;
    }
  }

  lemma TurnDone(r: Rc, turn: RecvTurn, rv: Rv)
    requires InCall(r) && turn.before == CondNone && (turn.wait.DataPopped? ==> turn.wait.packet.cnt < 256)
    requires turn.wait.DataPopped? && turn.wait.packet.payload == [] ==> !turn.wait.packet.last
    ensures AfterData(r, turn.wait, turn.after).done == Some(rv) <==> Returns(r, turn, rv)
  {
    if turn.wait.DataPopped? && turn.wait.packet.payload != [] {
      PacketDone(r, turn.wait.packet, turn.after, rv);
      hide AfterData, Due, Opens, Room, InCall;
    }
  }

  /** What wait_data says of a data packet. */
  lemma PacketVerdict(r: Rc, p: Packet, after: Condition)
    requires InCall(r) && p.cnt < 256 && p.payload != []
    ensures var rv := WaitDataRv(r, DataPopped(p), after);
            && (rv == FirstPacket <==> Opens(r, p)) && (rv == DataOk <==> Due(r, p) && Room(r, p))
            && (rv == DataStop(RxBufSmall) <==> Due(r, p) && !Room(r, p))
            && (rv.DataStop? ==> rv.rv == RxBufSmall)
  {
  }

  lemma PacketDone(r: Rc, p: Packet, after: Condition, rv: Rv)
    requires InCall(r) && p.cnt < 256 && p.payload != []
    ensures AfterData(r, DataPopped(p), after).done == Some(rv) <==>
              || (rv == Ok && p.last && (Opens(r, p) || (Due(r, p) && Room(r, p))))
              || (rv == RxBufSmall && Due(r, p) && !Room(r, p))
  {
    PacketVerdict(r, p, after);
    assert Due(r, p) ==> r.sequenceStarted;
    hide WaitDataRv, Due, Opens, Room, InCall;
  }

  lemma TurnInCall(r: Rc, turn: RecvTurn)
    requires InCall(r)
    ensures RecvRun(r, [turn]).done == None ==> InCall(RecvRun(r, [turn]).rc)
  {
    assert [turn][0] == turn;
  }

  lemma {:induction false} RunConcat(r: Rc, a: seq<RecvTurn>, b: seq<RecvTurn>)
    ensures var first := RecvRun(r, a);
            RecvRun(r, a + b) == if first.done.Some? then first
                                 else RecvRun(first.rc, b).(acks := first.acks + RecvRun(first.rc, b).acks)
    decreases |a|
  {
    if a == [] {
      assert a + b == b && [] + RecvRun(r, b).acks == RecvRun(r, b).acks;
    } else {
      assert (a + b)[1..] == a[1..] + b;
      hide AfterData;
      if a[0].before == CondNone {
        var next := AfterData(r, a[0].wait, a[0].after);
        RunConcat(next.rc, a[1..], b);
        Assoc(next.acks, RecvRun(next.rc, a[1..]).acks, RecvRun(RecvRun(next.rc, a[1..]).rc, b).acks);
      }
    }
  }

  lemma {:induction false} StaysInCall(r: Rc, turns: seq<RecvTurn>)
    requires InCall(r) && FromLine(turns)
    ensures RecvRun(r, turns).done == None ==> InCall(RecvRun(r, turns).rc)
    decreases |turns|
  {
    if turns != [] {
      TurnInCall(r, turns[0]);
      RunConcat(r, [turns[0]], turns[1..]);
      assert turns == [turns[0]] + turns[1..];
      hide RecvRun, InCall;
      if RecvRun(r, [turns[0]]).done == None {
        StaysInCall(RecvRun(r, [turns[0]]).rc, turns[1..]);
      }
    }
  }

  /** A call returns `rv` if and only if there is a turn in which a reader in its state does. */
  lemma {:induction false} ResultExactly(r: Rc, turns: seq<RecvTurn>, rv: Rv)
    requires InCall(r) && FromLine(turns)
    ensures RecvRun(r, turns).done == Some(rv) <==>
              exists k :: 0 <= k < |turns| && GoesOn(r, turns, k) && Returns(RecvRun(r, turns[..k]).rc, turns[k], rv)
    decreases |turns|
  {
    if turns != [] {
      var n := |turns| - 1;
      var front, last := turns[..n], turns[n];
      assert turns == front + [last];
      forall k | 0 <= k <= n
        ensures turns[..k] == front[..k]
      {
      }
      RunConcat(r, front, [last]);
      StaysInCall(r, front);
      ResultExactly(r, front, rv);
      if RecvRun(r, front).done == None {
        OneTurn(RecvRun(r, front).rc, last, rv);
      }
    }
  }

  // ------------------------------------------------------------------ which packets it takes

  /** The packet a reader takes that has taken `n` so far: the opening one, then always the next by number. */
  predicate IsNext(n: nat, p: Packet) {
    if n == 0 then p.first else p.cnt == n % 256
  }

  predicate IsRepeat(n: nat, p: Packet) {
    n > 0 && p.cnt == (n - 1) % 256
  }

  /** Those it takes, up to the last. */
  function Accepted(n: nat, packets: seq<Packet>): seq<Packet>
    decreases |packets|
  {
    if packets == [] then []
    else if !IsNext(n, packets[0]) then Accepted(n, packets[1..])
    else [packets[0]] + if packets[0].last then [] else Accepted(n + 1, packets[1..])
  }

  /** It acknowledges those, and the one before again. */
  function Answers(n: nat, packets: seq<Packet>): seq<Ack>
    decreases |packets|
  {
    if packets == [] then []
    else
      var ack := [Ack(packets[0].cnt, GotPkt)];
      if IsNext(n, packets[0]) then ack + if packets[0].last then [] else Answers(n + 1, packets[1..])
      else (if IsRepeat(n, packets[0]) then ack else []) + Answers(n, packets[1..])
  }

  function Payloads(packets: seq<Packet>): (r: seq<seq<byte>>)
    ensures |r| == |packets| && forall k :: 0 <= k < |packets| ==> r[k] == packets[k].payload
  {
    seq(|packets|, k requires 0 <= k < |packets| => packets[k].payload)
  }

  function Pops(packets: seq<Packet>): (turns: seq<RecvTurn>)
    ensures |turns| == |packets|
    ensures forall k :: 0 <= k < |packets| ==> turns[k] == RecvTurn(CondNone, DataPopped(packets[k]), CondNone)
  {
    seq(|packets|, k requires 0 <= k < |packets| => RecvTurn(CondNone, DataPopped(packets[k]), CondNone))
  }

  /** Data packets as they come from the line. */
  predicate DataPackets(packets: seq<Packet>) {
    forall k :: 0 <= k < |packets| ==> packets[k].cnt < 256 && packets[k].payload != []
  }

  lemma TurnTakes(r: Rc, n: nat, p: Packet)
    requires InCall(r) && r.prevPktNum == n - 1 && p.cnt < 256 && p.payload != []
    ensures var next := AfterData(r, DataPopped(p), CondNone);
            if IsNext(n, p) then
              |r.data| + |p.payload| <= r.size ==>
                next == RcNext(Rc(r.size, r.data + p.payload, n, true), [Ack(p.cnt, GotPkt)],
                               if p.last then Some(Ok) else None)
            else next == RcNext(r, if IsRepeat(n, p) then [Ack(p.cnt, GotPkt)] else [], None)
  {
  }

  lemma PopsUnfold(r: Rc, p: Packet, rest: seq<Packet>)
    ensures var next := AfterData(r, DataPopped(p), CondNone);
            var run := RecvRun(r, Pops([p] + rest));
            if next.done.Some? then run.rc == next.rc && run.acks == next.acks && run.done == next.done
            else run == RecvRun(next.rc, Pops(rest)).(acks := next.acks + RecvRun(next.rc, Pops(rest)).acks)
  {
    hide AfterData;
    assert Pops([p] + rest)[1..] == Pops(rest);
  }

  lemma FlattenCons(x: seq<byte>, rest: seq<seq<byte>>)
    ensures Flatten([x] + rest) == x + Flatten(rest)
  {
    assert ([x] + rest)[1..] == rest;
  }

  /** The outcome of a run in which `taken` were taken behind `data` and `answers` sent. */
  ghost predicate Delivers(data: seq<byte>, taken: seq<Packet>, answers: seq<Ack>, run: RecvOutcome) {
    && run.rc.data == data + Flatten(Payloads(taken)) && run.acks == answers
    && run.done == if taken != [] && taken[|taken| - 1].last then Some(Ok) else None
  }

  lemma PayloadsCons(p: Packet, more: seq<Packet>)
    ensures Flatten(Payloads([p] + more)) == p.payload + Flatten(Payloads(more))
  {
    assert Payloads([p] + more) == [p.payload] + Payloads(more);
    FlattenCons(p.payload, Payloads(more));
  }

  lemma DeliversNothing(data: seq<byte>, run: RecvOutcome)
    requires run.rc.data == data && run.acks == [] && run.done == None
    ensures Delivers(data, [], [], run)
  {
    assert data + [] == data && Payloads([]) == [];
  }

  lemma DeliversLast(data: seq<byte>, p: Packet, ack: Ack, run: RecvOutcome)
    requires p.last && run.rc.data == data + p.payload && run.acks == [ack] && run.done == Some(Ok)
    ensures Delivers(data, [p], [ack], run)
  {
    PayloadsCons(p, []);
    assert [p] + [] == [p] && Payloads([]) == [] && p.payload + [] == p.payload;
  }

  lemma DeliversNext(data: seq<byte>, p: Packet, more: seq<Packet>, ack: Ack, answers: seq<Ack>, run: RecvOutcome)
    requires !p.last && Delivers(data + p.payload, more, answers, run)
    ensures Delivers(data, [p] + more, [ack] + answers, run.(acks := [ack] + run.acks))
  {
    PayloadsCons(p, more);
    Assoc(data, p.payload, Flatten(Payloads(more)));
    hide Payloads, Flatten;
    assert more != [] ==> ([p] + more)[|more|] == more[|more| - 1];
  }

  lemma DeliversAnother(data: seq<byte>, taken: seq<Packet>, acks: seq<Ack>, answers: seq<Ack>, run: RecvOutcome)
    requires Delivers(data, taken, answers, run)
    ensures Delivers(data, taken, acks + answers, run.(acks := acks + run.acks))
  {
    hide Payloads, Flatten;
  }

  lemma TakesUnfold(n: nat, p: Packet, rest: seq<Packet>)
    ensures Accepted(n, [p] + rest) == if !IsNext(n, p) then Accepted(n, rest)
                                       else [p] + if p.last then [] else Accepted(n + 1, rest)
    ensures Answers(n, [p] + rest)
         == if IsNext(n, p) then [Ack(p.cnt, GotPkt)] + if p.last then [] else Answers(n + 1, rest)
            else (if IsRepeat(n, p) then [Ack(p.cnt, GotPkt)] else []) + Answers(n, rest)
  {
    hide IsNext, IsRepeat;
    assert ([p] + rest)[1..] == rest;
  }

  /** If the buffer is large enough, the reader ends with exactly the payloads of the packets it is to take,
      answers exactly those and repetitions, and returns OK exactly if the last of them is the last of its
      sequence. */
  lemma {:induction false} DataExactly(r: Rc, n: nat, packets: seq<Packet>)
    requires InCall(r) && r.prevPktNum == n - 1 && DataPackets(packets)
    requires |r.data| + |Flatten(Payloads(Accepted(n, packets)))| <= r.size
    ensures Delivers(r.data, Accepted(n, packets), Answers(n, packets), RecvRun(r, Pops(packets)))
    decreases |packets|
  {
    if packets == [] {
      DeliversNothing(r.data, RecvRun(r, Pops(packets)));
    } else {
      var p, rest := packets[0], packets[1..];
      assert packets == [p] + rest;
      PopsUnfold(r, p, rest);
      TakesUnfold(n, p, rest);
      TurnTakes(r, n, p);
      var ack, next := Ack(p.cnt, GotPkt), Rc(r.size, r.data + p.payload, n, true);
      hide AfterData, RecvRun, Flatten, Payloads, Pops, IsNext, IsRepeat, Delivers, Accepted, Answers;
      if !IsNext(n, p) {
        DataExactly(r, n, rest);
        DeliversAnother(r.data, Accepted(n, rest), if IsRepeat(n, p) then [ack] else [], Answers(n, rest),
                        RecvRun(r, Pops(rest)));
      } else if p.last {
        PayloadsCons(p, []);
        assert [p] + [] == [p];
        DeliversLast(r.data, p, ack, RecvRun(r, Pops(packets)));
      } else {
        PayloadsCons(p, Accepted(n + 1, rest));
        DataExactly(next, n + 1, rest);
        DeliversNext(r.data, p, Accepted(n + 1, rest), ack, Answers(n + 1, rest), RecvRun(next, Pops(rest)));
      }
    }
  }

  // ------------------------------------------------------------------ the buffer

  lemma TurnFits(r: Rc, turn: RecvTurn)
    requires InCall(r) && |r.data| <= r.size && FromLine([turn])
    requires turn.wait.DataPopped? ==> |turn.wait.packet.payload| <= r.size
    ensures var next := RecvRun(r, [turn]).rc;
            next.size == r.size && |next.data| <= next.size
  {
    assert [turn][0] == turn;
  }

  /** Whatever the queue produces, the reader holds no more than the buffer it was given. */
  lemma {:induction false} NeverMoreThanBuffer(r: Rc, turns: seq<RecvTurn>)
    requires InCall(r) && |r.data| <= r.size && FromLine(turns)
    requires forall k :: 0 <= k < |turns| && turns[k].wait.DataPopped? ==> |turns[k].wait.packet.payload| <= r.size
    ensures RecvRun(r, turns).rc.size == r.size && |RecvRun(r, turns).rc.data| <= r.size
    decreases |turns|
  {
    if turns != [] {
      var first, rest := turns[0], turns[1..];
      assert turns == [first] + rest;
      TurnFits(r, first);
      StaysInCall(r, [first]);
      RunConcat(r, [first], rest);
      hide RecvRun, InCall;
      if RecvRun(r, [first]).done == None {
        NeverMoreThanBuffer(RecvRun(r, [first]).rc, rest);
      }
    }
  }

  // ------------------------------------------------------------------ in every run of the machine

  predicate SmallPackets(ps: seq<Packet>, maxPayload: nat) {
    forall k :: 0 <= k < |ps| ==> 0 < |ps[k].payload| <= maxPayload && ps[k].cnt < 256
  }

  /** The reader holds no more than its buffer, and no packet on its way is larger than any buffer. */
  predicate Bounded(s: Link) {
    && SmallPackets(s.dataLine, s.maxPayload) && SmallPackets(s.dataFifo, s.maxPayload)
    && (s.tx.Some? ==> s.tx.value.maxPayload == s.maxPayload && s.tx.value.pktn < 256)
    && (s.app.Armed? ==> s.maxPayload <= s.app.size)
    && (s.app.Receiving? ==> InCall(s.app.rc) && s.maxPayload <= s.app.rc.size && |s.app.rc.data| <= s.app.rc.size)
  }

  lemma CurrentSmall(t: LiveTx)
    requires t.pktn < 256
    ensures 0 < |Current(t).payload| <= t.maxPayload && Current(t).cnt < 256
  {
  }

  lemma SenderKeepsBounded(s: Link, e: Event)
    requires Enabled(s, e) && Bounded(s) && (e.SendCall? || e.SendGetsAck? || e.SendTimesOut?)
    ensures Bounded(Next(s, e))
  {
    hide InCall, Current;
    var n := Next(s, e);
    if n.tx.Some? {
      CurrentSmall(n.tx.value);
      assert n.dataLine == s.dataLine + [Current(n.tx.value)];
    }
  }

  lemma PopKeepsBounded(s: Link)
    requires Enabled(s, RecvPops) && Bounded(s)
    ensures Bounded(Next(s, RecvPops))
    ensures Next(s, RecvPops).app.Receiving? ==> Next(s, RecvPops).app.rc.size == s.app.rc.size
    ensures Next(s, RecvPops).app.Finishing? ==> |Next(s, RecvPops).app.data| <= s.app.rc.size
  {
    var turn := RecvTurn(CondNone, DataPopped(s.dataFifo[0]), CondNone);
    assert [turn][0] == turn && [turn][1..] == [];
    TurnFits(s.app.rc, turn);
    StaysInCall(s.app.rc, [turn]);
    hide AfterData, InCall;
  }

  lemma EventKeepsBounded(s: Link, e: Event)
    requires Enabled(s, e) && Bounded(s)
    ensures Bounded(Next(s, e))
  {
    if e.SendCall? || e.SendGetsAck? || e.SendTimesOut? {
      SenderKeepsBounded(s, e);
    } else if e == RecvPops {
      PopKeepsBounded(s);
    }
  }

  /** In every run of the machine the reader holds no more than the buffer of its call. */
  lemma {:induction false} AlwaysBounded(s: Link, events: seq<Event>)
    requires EnabledRun(s, events) && Bounded(s)
    ensures Bounded(Play(s, events))
    decreases |events|
  {
    if events != [] {
      EventKeepsBounded(s, events[0]);
      hide Next, Enabled, Bounded;
      AlwaysBounded(Next(s, events[0]), events[1..]);
    }
  }

  /** The call under way, if any, has a buffer of this size. */
  predicate CallOf(s: Link, size: nat) {
    match s.app
    case Armed(n) => n == size
    case Receiving(rc) => rc.size == size
    case _ => true
  }

  /** What has been taken since. */
  ghost predicate TakenSince(before: seq<seq<byte>>, now: seq<seq<byte>>, size: nat) {
    before <= now && forall k :: |before| <= k < |now| ==> |now[k]| <= size
  }

  lemma EventTakesWhatFits(s: Link, e: Event, size: nat)
    requires Enabled(s, e) && !e.RecvCall? && Bounded(s) && CallOf(s, size)
    ensures CallOf(Next(s, e), size) && TakenSince(Taken(s), Taken(Next(s, e)), size)
  {
    if e == RecvPops {
      PopKeepsBounded(s);
    } else {
      assert Taken(Next(s, e)) == Taken(s);
    }
  }

  /** A message longer than the reader's buffer is never taken by that call, whatever happens on the lines. */
  lemma {:induction false} CallTakesWhatFits(s: Link, events: seq<Event>, size: nat)
    requires EnabledRun(s, events) && Bounded(s) && CallOf(s, size)
    requires forall k :: 0 <= k < |events| ==> !events[k].RecvCall?
    ensures TakenSince(Taken(s), Taken(Play(s, events)), size)
    decreases |events|
  {
    if events != [] {
      EventTakesWhatFits(s, events[0], size);
      EventKeepsBounded(s, events[0]);
      hide Next, Enabled, Bounded, CallOf, Taken;
      CallTakesWhatFits(Next(s, events[0]), events[1..], size);
    }
  }

  /** The same from the beginning: what the reader holds, and what any of its calls can take. */
  lemma NothingOverruns(maxPayload: nat, events: seq<Event>, size: nat, more: seq<Event>)
    requires EnabledRun(Init(maxPayload), events) && Enabled(Play(Init(maxPayload), events), RecvCall(size))
    requires var called := Next(Play(Init(maxPayload), events), RecvCall(size));
             EnabledRun(called, more) && forall k :: 0 <= k < |more| ==> !more[k].RecvCall?
    ensures var s := Play(Init(maxPayload), events);
            s.app.Receiving? ==> |s.app.rc.data| <= s.app.rc.size
    ensures var s := Play(Init(maxPayload), events);
            TakenSince(Taken(s), Taken(Play(Next(s, RecvCall(size)), more)), size)
  {
    AlwaysBounded(Init(maxPayload), events);
    var s := Play(Init(maxPayload), events);
    EventKeepsBounded(s, RecvCall(size));
    CallTakesWhatFits(Next(s, RecvCall(size)), more, size);
    assert Taken(Next(s, RecvCall(size))) == Taken(s);
  }

  // ------------------------------------------------------------------ the receive thread

  /** What becomes of a packet that reaches the receive thread: the last packet of the sequence finished last is
      acknowledged again; any other is queued for a waiting reader, refused as cancelled after a reader has
      given up, and refused for want of a reader otherwise. */
  lemma AnsweredExactly(s: Link)
    requires Enabled(s, DataArrives)
    ensures var p, n := s.dataLine[0], Next(s, DataArrives);
            var again := p.last && p.seqCode == s.ch.lastSeq;
            && (n.dataFifo == s.dataFifo + [p] <==> !again && s.ch.mode == RxWaitData)
            && (n.ackLine == s.ackLine + [Ack(p.cnt, GotPkt)] <==> again)
            && (n.ackLine == s.ackLine + [Ack(p.cnt, Canceled)] <==> !again && s.ch.mode == RxRcvCanceled)
            && (n.ackLine == s.ackLine + [Ack(p.cnt, NoReceiver)] <==>
                  !again && (s.ch.mode == RxIdle || s.ch.mode == RxSeqDone))
  {
    var p, n := s.dataLine[0], Next(s, DataArrives);
    Longer(s.dataFifo, p);
    DifferentEnds(s.ackLine, Ack(p.cnt, GotPkt), Ack(p.cnt, Canceled));
    DifferentEnds(s.ackLine, Ack(p.cnt, GotPkt), Ack(p.cnt, NoReceiver));
    DifferentEnds(s.ackLine, Ack(p.cnt, Canceled), Ack(p.cnt, NoReceiver));
    Longer(s.ackLine, Ack(p.cnt, GotPkt));
    Longer(s.ackLine, Ack(p.cnt, Canceled));
    Longer(s.ackLine, Ack(p.cnt, NoReceiver));
  }

  lemma Longer<T>(s: seq<T>, x: T)
    ensures s != s + [x]
  {
    assert |s + [x]| == |s| + 1;
  }

  lemma DifferentEnds(s: seq<Ack>, a: Ack, b: Ack)
    requires a != b
    ensures s + [a] != s + [b]
  {
    assert (s + [a])[|s|] == a && (s + [b])[|s|] == b;
  }
}
