/** One end of a reliable SDTL channel (sdtl.c): how a message is cut into packets, what one turn of
    the send loop and of the receive loop does, and what the receive thread does with a packet.

    The functions describe single turns; the class runs the loops of channel_send_data and
    channel_recv_data over whatever the acknowledgement and data queues produce, and is proved to
    fold these turns. The other modules build the two-ended protocol from the same turns. */
module SdtlChannel {

  import opened Bytes
  import opened Sequences

  const UNSIGNED := 0x1_0000_0000

  datatype Option<+T> = None | Some(value: T)

  /** Result codes of the channel calls. */
  datatype Rv = Ok | TimedOut | RemoteRxCanceled | RemoteRxNoClient | AppReset | AppCancel
              | EswbErr | RxBufSmall | RxFifoOverflow | InvalidChType | TxBufSmall | MediaErr

  /** A data packet: 8-bit counter, position flags, sequence code and payload. */
  datatype Packet = Packet(cnt: nat, first: bool, last: bool, seqCode: nat, payload: seq<byte>)

  datatype AckCode = GotPkt | GotCmd | NoReceiver | Canceled | PayloadTooBig | OutBandEvent

  datatype Ack = Ack(cnt: nat, code: AckCode)

  /** What ch_state_return_condition finds in the condition flags. */
  datatype Condition = CondNone | CondReset | CondCancel

  function ConditionRv(c: Condition): Rv {
    match c
    case CondNone => Ok
    case CondReset => AppReset
    case CondCancel => AppCancel
  }

  // ------------------------------------------------------------------ sending

  /** The locals of channel_send_data: `left` is what the C code keeps in `l`. */
  datatype Tx = Tx(data: seq<byte>, seqCode: nat, maxPayload: nat,
                   offset: nat, left: nat, pktn: nat, first: bool)

  function TxStart(data: seq<byte>, seqCode: nat, maxPayload: nat): Tx {
    Tx(data, seqCode, maxPayload, 0, |data|, 0, true)
  }

  predicate TxValid(t: Tx) {
    t.maxPayload > 0 && t.left > 0 && t.offset + t.left == |t.data|
  }

  /** The locals of a call with something left to send. */
  type LiveTx = t: Tx | TxValid(t) witness Tx([0], 1, 1, 0, 1, 0, true)

  function DSize(t: Tx): nat {
    if t.maxPayload < t.left then t.maxPayload else t.left
  }

  function Current(t: LiveTx): Packet {
    Packet(t.pktn, t.first, DSize(t) == t.left, t.seqCode, t.data[t.offset..t.offset + DSize(t)])
  }

  function Advance(t: Tx): Tx {
    t.(first := false, pktn := (t.pktn + 1) % 256, left := t.left - DSize(t), offset := t.offset + DSize(t))
  }

  /** What popping the acknowledgement queue comes to. */
  datatype AckWait = AckPopped(ack: Ack) | AckTimedOut | AckFailed

  /** wait_ack. */
  function WaitAckRv(wait: AckWait, after: Condition): Rv {
    match wait
    case AckPopped(ack) => if ack.code == OutBandEvent then ConditionRv(after) else Ok
    case AckTimedOut => TimedOut
    case AckFailed => EswbErr
  }

  datatype TxNext = Keep(tx: LiveTx) | Stop(rv: Rv)

  /** What the send loop does once wait_ack has returned. The packet number in the acknowledgement
      plays no part. */
  function AfterWait(t: LiveTx, wait: AckWait, after: Condition): TxNext {
    var rv := WaitAckRv(wait, after);
    if rv == TimedOut then Keep(t)
    else if rv != Ok then Stop(rv)
    else if wait.ack.code == Canceled then Stop(RemoteRxCanceled)
    else if wait.ack.code == NoReceiver then Stop(RemoteRxNoClient)
    else if Advance(t).left == 0 then Stop(Ok)
    else Keep(Advance(t))
  }

  /** What one turn of the inner send loop meets: the flags before sending, the outcome of the wait,
      and the flags if the wait was ended by an out-of-band event. */
  datatype SendTurn = SendTurn(before: Condition, wait: AckWait, after: Condition)

  /** The packets put on the line, and the result if the call has returned. */
  function SendRun(t: LiveTx, turns: seq<SendTurn>): (seq<Packet>, Option<Rv>)
    decreases |turns|
  {
    if turns == [] then ([], None)
    else if turns[0].before != CondNone then ([], Some(ConditionRv(turns[0].before)))
    else
      match AfterWait(t, turns[0].wait, turns[0].after)
      case Stop(rv) => ([Current(t)], Some(rv))
      case Keep(u) =>
        var (packets, rv) := SendRun(u, turns[1..]);
        ([Current(t)] + packets, rv)
  }

  /** `whole` is what has been sent, followed by the run that is still to come. */
  ghost predicate Remaining(whole: (seq<Packet>, Option<Rv>), sent: seq<Packet>, t: Tx, turns: seq<SendTurn>) {
    TxValid(t) && whole == (sent + SendRun(t, turns).0, SendRun(t, turns).1)
  }

  /** The same for locals that may have nothing left to send. */
  ghost predicate Progress(whole: (seq<Packet>, Option<Rv>), sent: seq<Packet>, t: Tx, turns: seq<SendTurn>) {
    if t.left == 0 then whole == (sent, Some(Ok)) else Remaining(whole, sent, t, turns)
  }

  lemma ProgressMeans(whole: (seq<Packet>, Option<Rv>), sent: seq<Packet>, t: Tx, turns: seq<SendTurn>)
    requires Progress(whole, sent, t, turns)
    ensures if t.left == 0 then whole == (sent, Some(Ok)) else Remaining(whole, sent, t, turns)
  {
  }

  lemma RemainingStart(t: LiveTx, turns: seq<SendTurn>)
    ensures Remaining(SendRun(t, turns), [], t, turns)
  {
    assert [] + SendRun(t, turns).0 == SendRun(t, turns).0;
  }

  lemma RemainingTurn(whole: (seq<Packet>, Option<Rv>), sent: seq<Packet>, t: LiveTx, turns: seq<SendTurn>)
    requires Remaining(whole, sent, t, turns)
    ensures turns == [] ==> whole == (sent, None)
    ensures turns != [] && turns[0].before != CondNone ==> whole == (sent, Some(ConditionRv(turns[0].before)))
    ensures turns != [] && turns[0].before == CondNone ==>
              match AfterWait(t, turns[0].wait, turns[0].after)
              case Stop(rv) => whole == (sent + [Current(t)], Some(rv))
              case Keep(u) => Remaining(whole, sent + [Current(t)], u, turns[1..])
  {
    assert sent + [] == sent;
    if turns != [] && turns[0].before == CondNone {
      match AfterWait(t, turns[0].wait, turns[0].after)
      case Stop(rv) =>
      case Keep(u) =>
        assert sent + ([Current(t)] + SendRun(u, turns[1..]).0) == (sent + [Current(t)]) + SendRun(u, turns[1..]).0;
    }
  }

  /** How the locals of channel_send_data make up the packet and change when it is acknowledged. */
  lemma LocalsOfTurn(t: LiveTx, dsize: nat)
    requires dsize == DSize(t)
    ensures 0 < dsize <= t.left
    ensures Current(t) == Packet(t.pktn, t.first, dsize == t.left, t.seqCode, t.data[t.offset..t.offset + dsize])
    ensures Advance(t)
         == Tx(t.data, t.seqCode, t.maxPayload, t.offset + dsize, t.left - dsize, (t.pktn + 1) % 256, false)
  {
  }

  // ------------------------------------------------------------------ receiving

  /** The locals of channel_recv_data: `data` is what has been copied to the caller's buffer. */
  datatype Rc = Rc(size: nat, data: seq<byte>, prevPktNum: int, sequenceStarted: bool)

  function RcStart(size: nat): Rc {
    Rc(size, [], -1, false)
  }

  datatype DataWait = DataPopped(packet: Packet) | DataTimedOut | DataUnderrun | DataFailed

  datatype DataRv = DataOk | FirstPacket | Repeated | Omit | Missed | DataStop(rv: Rv)

  /** wait_data. The sequence code plays no part. */
  function WaitDataRv(r: Rc, wait: DataWait, after: Condition): DataRv {
    match wait
    case DataTimedOut => DataStop(TimedOut)
    case DataUnderrun => DataStop(RxFifoOverflow)
    case DataFailed => DataStop(EswbErr)
    case DataPopped(p) =>
      if p.payload == [] then
        if after == CondNone then DataOk else DataStop(ConditionRv(after))
      else if r.prevPktNum != -1 then
        var difference := p.cnt - r.prevPktNum % 256;
        var dc := if difference < 0 then difference + 256 else difference;
        if dc > 1 then Missed
        else if dc == 0 then Repeated
        else if r.size - |r.data| < |p.payload| then DataStop(RxBufSmall)
        else DataOk
      else if p.first then FirstPacket
      else Omit
  }

  /** One turn of the receive loop: the new locals, the acknowledgements sent, and the result if the
      loop ends. */
  datatype RcNext = RcNext(rc: Rc, acks: seq<Ack>, done: Option<Rv>)

  function Accept(r: Rc, p: Packet, rv: DataRv): RcNext {
    var copied := r.(data := r.data + p.payload,
                     prevPktNum := if rv == DataOk then r.prevPktNum + 1 else r.prevPktNum);
    RcNext(copied, [Ack(p.cnt, GotPkt)], if p.last then Some(Ok) else None)
  }

  function AfterData(r: Rc, wait: DataWait, after: Condition): RcNext {
    var rv := WaitDataRv(r, wait, after);
    match rv
    case DataStop(e) => RcNext(r, [], Some(e))
    case Repeated => RcNext(r, [Ack(wait.packet.cnt, GotPkt)], None)
    case Omit => RcNext(r, [], None)
    case Missed => RcNext(r, [], None)
    case FirstPacket => Accept(r.(sequenceStarted := true, prevPktNum := 0), wait.packet, rv)
    case DataOk => if r.sequenceStarted then Accept(r, wait.packet, rv) else RcNext(r, [], None)
  }

  datatype RecvTurn = RecvTurn(before: Condition, wait: DataWait, after: Condition)

  /** The locals at the end, the acknowledgements sent, the result if the loop has ended, and the
      sequence code of the packet it ended with. */
  datatype RecvOutcome = RecvOutcome(rc: Rc, acks: seq<Ack>, done: Option<Rv>, seqCode: nat)

  function SeqCodeOf(wait: DataWait): nat {
    if wait.DataPopped? then wait.packet.seqCode else 0
  }

  function RecvRun(r: Rc, turns: seq<RecvTurn>): RecvOutcome
    decreases |turns|
  {
    if turns == [] then RecvOutcome(r, [], None, 0)
    else if turns[0].before != CondNone then RecvOutcome(r, [], Some(ConditionRv(turns[0].before)), 0)
    else
      var next := AfterData(r, turns[0].wait, turns[0].after);
      if next.done.Some? then RecvOutcome(next.rc, next.acks, next.done, SeqCodeOf(turns[0].wait))
      else
        var rest := RecvRun(next.rc, turns[1..]);
        rest.(acks := next.acks + rest.acks)
  }

  /** `whole` is the acknowledgements sent so far, followed by the run that is still to come. */
  ghost predicate StillToCome(whole: RecvOutcome, acks: seq<Ack>, r: Rc, turns: seq<RecvTurn>) {
    whole == RecvRun(r, turns).(acks := acks + RecvRun(r, turns).acks)
  }

  lemma StillToComeStart(r: Rc, turns: seq<RecvTurn>)
    ensures StillToCome(RecvRun(r, turns), [], r, turns)
  {
    assert [] + RecvRun(r, turns).acks == RecvRun(r, turns).acks;
  }

  lemma StillToComeTurn(whole: RecvOutcome, acks: seq<Ack>, r: Rc, turns: seq<RecvTurn>)
    requires StillToCome(whole, acks, r, turns)
    ensures turns == [] ==> whole == RecvOutcome(r, acks, None, 0)
    ensures turns != [] && turns[0].before != CondNone ==>
              whole == RecvOutcome(r, acks, Some(ConditionRv(turns[0].before)), 0)
    ensures turns != [] && turns[0].before == CondNone ==>
              var next := AfterData(r, turns[0].wait, turns[0].after);
              if next.done.Some? then
                whole == RecvOutcome(next.rc, acks + next.acks, next.done, SeqCodeOf(turns[0].wait))
              else StillToCome(whole, acks + next.acks, next.rc, turns[1..])
  {
    assert acks + [] == acks;
    if turns != [] && turns[0].before == CondNone {
      var next := AfterData(r, turns[0].wait, turns[0].after);
      var rest := RecvRun(next.rc, turns[1..]);
      assert acks + (next.acks + rest.acks) == (acks + next.acks) + rest.acks;
    }
  }

  // ------------------------------------------------------------------ the receive thread

  datatype RxMode = RxIdle | RxWaitData | RxSeqDone | RxRcvCanceled

  /** The channel state both threads of the receiving end share. */
  datatype ChState = ChState(mode: RxMode, lastSeq: nat)

  datatype RxAction = AckNow(ack: Ack) | Enqueue

  /** rx_process_data: answer at once or pass the packet to the waiting reader. */
  function OnData(ch: ChState, p: Packet): RxAction {
    if p.last && p.seqCode == ch.lastSeq then AckNow(Ack(p.cnt, GotPkt))
    else
      match ch.mode
      case RxRcvCanceled => AckNow(Ack(p.cnt, Canceled))
      case RxSeqDone => AckNow(Ack(p.cnt, NoReceiver))
      case RxIdle => AckNow(Ack(p.cnt, NoReceiver))
      case RxWaitData => Enqueue
  }

  /** The channel state when channel_recv_data returns. */
  function AfterRecv(rv: Rv, seqCode: nat): ChState {
    if rv == Ok then ChState(RxSeqDone, seqCode) else ChState(RxRcvCanceled, 0)
  }

  /** generate_seq_code, the clock being a parameter. */
  function GenerateSeqCode(seqNum: nat, nanoseconds: nat): (code: nat)
    ensures 0 < code < 0x1_0000
  {
    var raw := (seqNum + nanoseconds / 1024) % 0x1_0000;
    if raw == 0 then 0xFFFF else raw
  }

  lemma DropOne<T>(s: seq<T>, i: nat)
    requires i < |s|
    ensures s[i..][0] == s[i] && s[i..][1..] == s[i + 1..]
  {
  }

  // ------------------------------------------------------------------ the loops

  /** One end of a channel, with what it has put on the line. */
  class ChannelHandle {
    var mode: RxMode
    var lastReceivedSeq: nat
    var maxPayloadSize: nat
    var dataFifo: seq<Packet>
    var ackFifo: seq<Ack>
    var packetsOut: seq<Packet>
    var acksOut: seq<Ack>
    var txSeqNum: nat

    ghost function State(): ChState
      reads this
    {
      ChState(mode, lastReceivedSeq)
    }

    method SendData(packet: Packet)
      modifies this`packetsOut
      ensures packetsOut == old(packetsOut) + [packet]
    {
      packetsOut := packetsOut + [packet];
    }

    method SendAck(cnt: nat, code: AckCode)
      modifies this`acksOut
      ensures acksOut == old(acksOut) + [Ack(cnt, code)]
    {
      acksOut := acksOut + [Ack(cnt, code)];
    }

    /** rx_process_data. */
    method RxProcessData(p: Packet)
      modifies this`acksOut, this`dataFifo
      ensures match OnData(State(), p)
              case AckNow(ack) => acksOut == old(acksOut) + [ack] && dataFifo == old(dataFifo)
              case Enqueue => acksOut == old(acksOut) && dataFifo == old(dataFifo) + [p]
    {
      if p.last && p.seqCode == lastReceivedSeq {
        SendAck(p.cnt, GotPkt);
      } else {
        match mode {
          case RxRcvCanceled => SendAck(p.cnt, Canceled);
          case RxSeqDone => SendAck(p.cnt, NoReceiver);
          case RxIdle => SendAck(p.cnt, NoReceiver);
          case RxWaitData => dataFifo := dataFifo + [p];
        }
      }
    }

    /** The inner loop of channel_send_data: send the packet until it is acknowledged, or the call
        has to return, or `turns` run out. */
    method SendUntilAcked(packet: Packet, turns: seq<SendTurn>, start: nat,
                          ghost t: LiveTx, ghost whole: (seq<Packet>, Option<Rv>), ghost before: seq<Packet>)
      returns (acked: bool, result: Option<Rv>, next: nat, ghost sent: seq<Packet>)
      requires start <= |turns| && Remaining(whole, before, t, turns[start..]) && packet == Current(t)
      modifies this`packetsOut
      ensures next <= |turns| && packetsOut == old(packetsOut) + sent
      ensures !acked ==> whole == (before + sent, result) && result != Some(Ok)
      ensures acked ==> Progress(whole, before + sent, Advance(t), turns[next..])
    {
      hide SendRun, Remaining;
      acked, result, next, sent := false, None, start, [];
      assert before + sent == before;
      while !acked
        invariant next <= |turns| && packetsOut == old(packetsOut) + sent && result == None
        invariant acked ==> Progress(whole, before + sent, Advance(t), turns[next..])
        invariant !acked ==> Remaining(whole, before + sent, t, turns[next..])
        decreases !acked, |turns| - next
      {
        RemainingTurn(whole, before + sent, t, turns[next..]);
        if next == |turns| {
          return;
        }
        var turn := turns[next];
        if turn.before != CondNone {
          result := Some(ConditionRv(turn.before));
          return;
        }
        SendData(packet);
        Assoc(before, sent, [packet]);
        sent := sent + [packet];
        var rv := WaitAckRv(turn.wait, turn.after);
        DropOne(turns, next);
        next := next + 1;
        match rv {
          case Ok =>
            match turn.wait.ack.code {
              case Canceled => result := Some(RemoteRxCanceled); return;
              case NoReceiver => result := Some(RemoteRxNoClient); return;
              case _ => acked := true;
            }
          case TimedOut =>
          case _ => result := Some(rv); return;
        }
      }
    }

    /** channel_send_data on a reliable channel. The clock is a parameter, and `turns` is what the
        acknowledgement queue and the condition flags produce; the result is None if they run out while
        the call is waiting. */
    method ChannelSendData(d: seq<byte>, nanoseconds: nat, turns: seq<SendTurn>) returns (result: Option<Rv>)
      requires d != [] && maxPayloadSize > 0
      modifies this`packetsOut, this`ackFifo, this`txSeqNum
      ensures ackFifo == []
      ensures var run := SendRun(TxStart(d, GenerateSeqCode(old(txSeqNum), nanoseconds), maxPayloadSize), turns);
              packetsOut == old(packetsOut) + run.0 && result == run.1
      ensures txSeqNum == if result == Some(Ok) then (old(txSeqNum) + 1) % UNSIGNED else old(txSeqNum)
    {
      var seqCode := GenerateSeqCode(txSeqNum, nanoseconds);
      ghost var whole := SendRun(TxStart(d, seqCode, maxPayloadSize), turns);
      ghost var sent: seq<Packet> := [];
      var offset: nat, l: nat := 0, |d|;
      var pktnInSeq: nat, firstFlag, lastFlag := 0, true, false;
      var i: nat := 0;
      ackFifo := [];
      assert turns[0..] == turns;
      RemainingStart(TxStart(d, seqCode, maxPayloadSize), turns);
      assert Progress(whole, sent, TxStart(d, seqCode, maxPayloadSize), turns[i..]);
      hide SendRun, Remaining, Current, Advance, Progress, AfterWait, GenerateSeqCode;
      ghost var t := TxStart(d, seqCode, maxPayloadSize);
      while l > 0
        invariant i <= |turns| && offset + l == |d|
        invariant t == Tx(d, seqCode, maxPayloadSize, offset, l, pktnInSeq, firstFlag)
        invariant packetsOut == old(packetsOut) + sent && ackFifo == [] && txSeqNum == old(txSeqNum)
        invariant (l > 0 ==> !lastFlag) && Progress(whole, sent, t, turns[i..])
      {
        ProgressMeans(whole, sent, t, turns[i..]);
        var dsize := if maxPayloadSize < l then maxPayloadSize else l;
        lastFlag := lastFlag || dsize == l;
        LocalsOfTurn(t, dsize);
        var packet := Packet(pktnInSeq, firstFlag, lastFlag, seqCode, d[offset..offset + dsize]);
        var acked, rv, next;
        ghost var more;
        acked, rv, next, more := SendUntilAcked(packet, turns, i, t, whole, sent);
        Assoc(old(packetsOut), sent, more);
        sent := sent + more;
        if !acked {
          return rv;
        }
        i := next;
        firstFlag := false;
        pktnInSeq := (pktnInSeq + 1) % 256;
        l := l - dsize;
        offset := offset + dsize;
        t := Advance(t);
      }
      ProgressMeans(whole, sent, t, turns[i..]);
      txSeqNum := (txSeqNum + 1) % UNSIGNED;
      result := Some(Ok);
    }

    /** The switch of the receive loop over what wait_data reports: one turn. */
    method HandleData(r: Rc, wait: DataWait, after: Condition) returns (next: Rc, done: Option<Rv>)
      modifies this`acksOut
      ensures var turn := AfterData(r, wait, after);
              next == turn.rc && done == turn.done && acksOut == old(acksOut) + turn.acks
    {
      next, done := r, None;
      var rv := WaitDataRv(r, wait, after);
      match rv {
        case DataStop(e) => done := Some(e);
        case Repeated => SendAck(wait.packet.cnt, GotPkt);
        case Omit =>
        case Missed =>
        case _ =>
          if rv == FirstPacket {
            next := next.(sequenceStarted := true, prevPktNum := 0);
          }
          if next.sequenceStarted {
            SendAck(wait.packet.cnt, GotPkt);
            next := next.(data := next.data + wait.packet.payload);
            if rv == DataOk {
              next := next.(prevPktNum := next.prevPktNum + 1);
            }
            if wait.packet.last {
              done := Some(Ok);
            }
          }
      }
    }

    /** ch_state_set_rx as channel_recv_data calls it on its way out. */
    method SetRxOnReturn(rv: Rv, seqCode: nat)
      modifies this`mode, this`lastReceivedSeq
      ensures State() == AfterRecv(rv, seqCode)
    {
      if rv == Ok {
        mode, lastReceivedSeq := RxSeqDone, seqCode;
      } else {
        mode, lastReceivedSeq := RxRcvCanceled, 0;
      }
    }

    /** One turn of the receive loop: the condition flags, then the data queue. */
    method ReceiveTurn(r: Rc, turn: RecvTurn, ghost whole: RecvOutcome, ghost acks: seq<Ack>,
                       ghost turns: seq<RecvTurn>)
      returns (next: Rc, done: Option<Rv>, ghost more: seq<Ack>)
      requires turns != [] && turns[0] == turn && StillToCome(whole, acks, r, turns)
      modifies this`acksOut
      ensures acksOut == old(acksOut) + more
      ensures done.Some? ==> whole.rc == next && whole.acks == acks + more && whole.done == done
      ensures done == Some(Ok) ==> whole.seqCode == SeqCodeOf(turn.wait)
      ensures done.None? ==> StillToCome(whole, acks + more, next, turns[1..])
    {
      hide RecvRun, StillToCome, AfterData;
      StillToComeTurn(whole, acks, r, turns);
      if turn.before != CondNone {
        next, done, more := r, Some(ConditionRv(turn.before)), [];
        assert acks + [] == acks;
        return;
      }
      more := AfterData(r, turn.wait, turn.after).acks;
      next, done := HandleData(r, turn.wait, turn.after);
    }

    /** channel_recv_data on a reliable channel. `turns` is what the data queue and the condition
        flags produce. The call marks the channel as waiting, empties the data queue, loops, and
        records the sequence it finished, or that it gave up. */
    method ChannelRecvData(size: nat, turns: seq<RecvTurn>) returns (result: Option<Rv>, data: seq<byte>)
      modifies this`mode, this`lastReceivedSeq, this`dataFifo, this`acksOut
      ensures dataFifo == []
      ensures var run := RecvRun(RcStart(size), turns);
              acksOut == old(acksOut) + run.acks && result == run.done && data == run.rc.data
      ensures result == None ==> State() == ChState(RxWaitData, old(lastReceivedSeq))
      ensures result.Some? ==> State() == AfterRecv(result.value, RecvRun(RcStart(size), turns).seqCode)
    {
      ghost var whole := RecvRun(RcStart(size), turns);
      ghost var acks: seq<Ack> := [];
      var r := RcStart(size);
      var i: nat := 0;
      mode := RxWaitData;
      dataFifo := [];
      assert turns[0..] == turns;
      StillToComeStart(r, turns);
      hide RecvRun, StillToCome, AfterData;
      while i < |turns|
        invariant i <= |turns| && dataFifo == [] && State() == ChState(RxWaitData, old(lastReceivedSeq))
        invariant acksOut == old(acksOut) + acks && StillToCome(whole, acks, r, turns[i..])
      {
        var done;
        ghost var more;
        r, done, more := ReceiveTurn(r, turns[i], whole, acks, turns[i..]);
        Assoc(old(acksOut), acks, more);
        DropOne(turns, i);
        acks := acks + more;
        if done.Some? {
          SetRxOnReturn(done.value, SeqCodeOf(turns[i].wait));
          return done, r.data;
        }
        i := i + 1;
      }
      StillToComeTurn(whole, acks, r, turns[i..]);
      return None, r.data;
    }
  }
}
