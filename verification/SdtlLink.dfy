/** Two ends of a reliable SDTL channel and the lines between them, as a state machine.

    One event is one thing a thread does between two points at which it can be interrupted: a call
    begins, a queue is popped, a packet reaches the receive thread, something is lost. The lines and
    queues keep their order; anything on a line may be lost. The turns of the send loop, the receive
    loop and the receive thread are those of SdtlChannel.dfy. */
module SdtlLink {

  import opened Bytes
  import opened SdtlChannel

  /** Where the receiving application is: outside channel_recv_data, between marking the channel and
      emptying its queue, in the loop, or between the loop and recording the finished sequence. */
  datatype App = AppIdle | Armed(size: nat) | Receiving(rc: Rc) | Finishing(seqCode: nat, data: seq<byte>)

  /** `sent` and `received` are the messages of the calls that have returned OK. */
  datatype Link = Link(maxPayload: nat,
                       tx: Option<LiveTx>, dataLine: seq<Packet>, dataFifo: seq<Packet>,
                       ch: ChState, app: App, ackLine: seq<Ack>, ackFifo: seq<Ack>,
                       sent: seq<seq<byte>>, received: seq<seq<byte>>)

  function Init(maxPayload: nat): Link {
    Link(maxPayload, None, [], [], ChState(RxIdle, 0), AppIdle, [], [], [], [])
  }

  datatype Event =
    | SendCall(data: seq<byte>, seqCode: nat)
    | SendGetsAck
    | SendTimesOut
    | LoseData(at: nat)
    | DataArrives
    | LoseAck(at: nat)
    | AckArrives
    | RecvCall(size: nat)
    | RecvFlushes
    | RecvPops
    | RecvReturns
    | RecvFails(rv: Rv)

  /** The event makes sense in the state. */
  predicate Enabled(s: Link, e: Event) {
    match e
    case SendCall(data, seqCode) => s.tx.None? && data != [] && s.maxPayload > 0 && 0 < seqCode < 0x1_0000
    case SendGetsAck => s.tx.Some? && s.ackFifo != []
    case SendTimesOut => s.tx.Some?
    case LoseData(at) => at < |s.dataLine|
    case DataArrives => s.dataLine != []
    case LoseAck(at) => at < |s.ackLine|
    case AckArrives => s.ackLine != []
    case RecvCall(size) => s.app.AppIdle? && size >= s.maxPayload
    case RecvFlushes => s.app.Armed?
    case RecvPops => s.app.Receiving? && s.dataFifo != []
    case RecvReturns => s.app.Finishing?
    case RecvFails(rv) => s.app.Receiving? && rv != Ok
  }

  function Transmit(s: Link, t: LiveTx): Link {
    s.(tx := Some(t), dataLine := s.dataLine + [Current(t)])
  }

  function OnSendGetsAck(s: Link): Link
    requires Enabled(s, SendGetsAck)
  {
    var popped := s.(ackFifo := s.ackFifo[1..]);
    match AfterWait(s.tx.value, AckPopped(s.ackFifo[0]), CondNone)
    case Keep(u) => Transmit(popped, u)
    case Stop(rv) => popped.(tx := None, sent := if rv == Ok then s.sent + [s.tx.value.data] else s.sent)
  }

  function OnDataArrives(s: Link): Link
    requires Enabled(s, DataArrives)
  {
    var arrived := s.(dataLine := s.dataLine[1..]);
    match OnData(s.ch, s.dataLine[0])
    case AckNow(ack) => arrived.(ackLine := s.ackLine + [ack])
    case Enqueue => arrived.(dataFifo := s.dataFifo + [s.dataLine[0]])
  }

  function OnRecvPops(s: Link): Link
    requires Enabled(s, RecvPops)
  {
    var p := s.dataFifo[0];
    var next := AfterData(s.app.rc, DataPopped(p), CondNone);
    var popped := s.(dataFifo := s.dataFifo[1..], ackLine := s.ackLine + next.acks);
    match next.done
    case None => popped.(app := Receiving(next.rc))
    case Some(rv) =>
      if rv == Ok then popped.(app := Finishing(p.seqCode, next.rc.data))
      else popped.(app := AppIdle, ch := AfterRecv(rv, 0))
  }

  function Next(s: Link, e: Event): Link
    requires Enabled(s, e)
  {
    match e
    case SendCall(data, seqCode) => Transmit(s.(ackFifo := []), TxStart(data, seqCode, s.maxPayload))
    case SendGetsAck => OnSendGetsAck(s)
    case SendTimesOut => Transmit(s, s.tx.value)
    case LoseData(at) => s.(dataLine := s.dataLine[..at] + s.dataLine[at + 1..])
    case DataArrives => OnDataArrives(s)
    case LoseAck(at) => s.(ackLine := s.ackLine[..at] + s.ackLine[at + 1..])
    case AckArrives => s.(ackLine := s.ackLine[1..], ackFifo := s.ackFifo + [s.ackLine[0]])
    case RecvCall(size) => s.(app := Armed(size), ch := s.ch.(mode := RxWaitData))
    case RecvFlushes => s.(app := Receiving(RcStart(s.app.size)), dataFifo := [])
    case RecvPops => OnRecvPops(s)
    case RecvReturns =>
      s.(app := AppIdle, ch := AfterRecv(Ok, s.app.seqCode), received := s.received + [s.app.data])
    case RecvFails(rv) => s.(app := AppIdle, ch := AfterRecv(rv, 0))
  }

  /** The messages the receiver has in hand: those returned, and one about to be. */
  function Taken(s: Link): seq<seq<byte>> {
    s.received + if s.app.Finishing? then [s.app.data] else []
  }

  // ------------------------------------------------------------------ runs

  predicate EnabledRun(s: Link, events: seq<Event>)
    decreases |events|
  {
    events == [] || (Enabled(s, events[0]) && EnabledRun(Next(s, events[0]), events[1..]))
  }

  /** The state after a run. */
  function Play(s: Link, events: seq<Event>): Link
    requires EnabledRun(s, events)
    decreases |events|
  {
    if events == [] then s else Play(Next(s, events[0]), events[1..])
  }

  lemma {:induction false} PlayConcat(s: Link, a: seq<Event>, b: seq<Event>)
    requires EnabledRun(s, a) && EnabledRun(Play(s, a), b)
    ensures EnabledRun(s, a + b) && Play(s, a + b) == Play(Play(s, a), b)
    decreases |a|
  {
    hide Next;
    if a == [] {
      assert a + b == b;
    } else {
      assert (a + b)[1..] == a[1..] + b;
      PlayConcat(Next(s, a[0]), a[1..], b);
    }
  }

  lemma PlayOne(s: Link, e: Event)
    requires Enabled(s, e)
    ensures EnabledRun(s, [e]) && Play(s, [e]) == Next(s, e)
  {
    hide Next;
    assert EnabledRun(Next(s, e), []);
    assert Play(s, [e]) == Play(Next(s, e), []);
  }
}
