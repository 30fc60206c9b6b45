/** What the send loop puts on the line and returns, and which sequence codes successive calls carry. */
module SdtlSender {

  // Every turn puts on the line the packet whose number is that of the acknowledgements accepted so far, and the
  // call returns OK with the one that completes the message. Two calls in a row carry different codes except in
  // the cases named by RepeatsNext.

  import opened Bytes
  import opened SdtlChannel
  import opened SdtlLink
  import opened SdtlExactlyOnce
  import opened SdtlPrefix

  // ------------------------------------------------------------------ packets and result

  /** The turn ends with an acknowledgement that moves the sender on. */
  predicate Accepting(turn: SendTurn) {
    && turn.before == CondNone && turn.wait.AckPopped?
    && turn.wait.ack.code != Canceled && turn.wait.ack.code != NoReceiver
    && (turn.wait.ack.code == OutBandEvent ==> turn.after == CondNone)
  }

  function Acked(turns: seq<SendTurn>): nat {
    if turns == [] then 0 else (if Accepting(turns[0]) then 1 else 0) + Acked(turns[1..])
  }

  /** The turn meets the condition, before sending or by a wake-up. */
  predicate Meets(turn: SendTurn, condition: Condition) {
    || turn.before == condition
    || (turn.before == CondNone && turn.wait.AckPopped? && turn.wait.ack.code == OutBandEvent
        && turn.after == condition)
  }

  /** A sender with `acked` of `n` packets acknowledged returns `rv` in this turn. */
  predicate Returns(acked: nat, n: nat, turn: SendTurn, rv: Rv) {
    match rv
    case AppReset => Meets(turn, CondReset)
    case AppCancel => Meets(turn, CondCancel)
    case RemoteRxCanceled => turn.before == CondNone && turn.wait.AckPopped? && turn.wait.ack.code == Canceled
    case RemoteRxNoClient => turn.before == CondNone && turn.wait.AckPopped? && turn.wait.ack.code == NoReceiver
    case EswbErr => turn.before == CondNone && turn.wait == AckFailed
    case Ok => Accepting(turn) && acked + 1 == n
    case _ => false
  }

  lemma LastChunk(t: LiveTx, j: nat, m: seq<byte>, code: nat, size: nat)
    requires size > 0 && m != [] && SenderAt(t, j, m, code, size)
    ensures Advance(t).left == 0 <==> j + 1 == |Chunks(m, size)|
  {
    assert |Chunks(m[t.offset..], size)| == |Chunks(m, size)| - j;
  }

  lemma TurnOutcome(t: LiveTx, j: nat, n: nat, turn: SendTurn, rv: Rv)
    requires turn.before == CondNone && (Advance(t).left == 0 <==> j + 1 == n)
    ensures match AfterWait(t, turn.wait, turn.after)
            case Stop(r) => r == rv <==> Returns(j, n, turn, rv)
            case Keep(u) => !Returns(j, n, turn, rv) && u == if Accepting(turn) then Advance(t) else t
    ensures AfterWait(t, turn.wait, turn.after).Keep? && Accepting(turn) ==> Advance(t).left > 0
  {
    hide Advance;
  }

  /** What one turn comes to. */
  lemma OneTurn(t: LiveTx, j: nat, m: seq<byte>, code: nat, turn: SendTurn, rv: Rv)
    requires m != [] && SenderAt(t, j, m, code, t.maxPayload) && turn.before == CondNone
    ensures var n := |Chunks(m, t.maxPayload)|;
            match AfterWait(t, turn.wait, turn.after)
            case Stop(r) => r == rv <==> Returns(j, n, turn, rv)
            case Keep(u) =>
              && !Returns(j, n, turn, rv) && u.maxPayload == t.maxPayload
              && SenderAt(u, j + if Accepting(turn) then 1 else 0, m, code, t.maxPayload)
  {
    LastChunk(t, j, m, code, t.maxPayload);
    TurnOutcome(t, j, |Chunks(m, t.maxPayload)|, turn, rv);
    hide AfterWait, Returns, Accepting, Chunks, SenderAt;
    if Advance(t).left > 0 {
      AdvanceIsNext(t, j, m, code, t.maxPayload);
    }
  }

  /** After `k` turns the call goes on, and turn `k` returns `rv`. */
  ghost predicate EndsAt(t: LiveTx, j: nat, n: nat, turns: seq<SendTurn>, rv: Rv, k: nat)
    requires k < |turns|
  {
    SendRun(t, turns[..k]).1 == None && Returns(j + Acked(turns[..k]), n, turns[k], rv)
  }

  /** The turn in which a call ends or the turns run out. */
  ghost predicate Begun(turns: seq<SendTurn>, run: (seq<Packet>, Option<Rv>)) {
    |run.0| <= |turns| && (run.1 == None ==> |run.0| == |turns|)
  }

  /** The packets, for a sender that stands at packet `j`. */
  ghost predicate PacketsFrom(run: seq<Packet>, j: nat, cs: seq<seq<byte>>, code: nat, turns: seq<SendTurn>) {
    |run| <= |turns| &&
    forall i :: 0 <= i < |run| ==> j + Acked(turns[..i]) < |cs| && run[i] == Pkt(cs, code, j + Acked(turns[..i]))
  }

  lemma AckedCons(turn: SendTurn, rest: seq<SendTurn>, i: nat)
    requires i <= |rest|
    ensures ([turn] + rest)[..i + 1] == [turn] + rest[..i]
    ensures Acked(([turn] + rest)[..i + 1]) == (if Accepting(turn) then 1 else 0) + Acked(rest[..i])
  {
    assert ([turn] + rest)[..i + 1] == [turn] + rest[..i];
    assert ([turn] + rest[..i])[1..] == rest[..i];
    hide Accepting;
  }

  lemma PacketsCons(p: Packet, more: seq<Packet>, j: nat, cs: seq<seq<byte>>, code: nat, turn: SendTurn,
                    rest: seq<SendTurn>)
    requires j < |cs| && p == Pkt(cs, code, j)
    requires PacketsFrom(more, j + if Accepting(turn) then 1 else 0, cs, code, rest)
    ensures PacketsFrom([p] + more, j, cs, code, [turn] + rest)
  {
    hide Accepting, Pkt;
    forall i | 0 <= i < |[p] + more|
      ensures j + Acked(([turn] + rest)[..i]) < |cs|
              && ([p] + more)[i] == Pkt(cs, code, j + Acked(([turn] + rest)[..i]))
    {
      if i > 0 {
        AckedCons(turn, rest, i - 1);
      } else {
        assert ([turn] + rest)[..0] == [];
      }
    }
  }

  /** In every turn the packet on the line is the one whose number is that of the acknowledgements accepted. */
  lemma {:induction false} PacketsExactly(t: LiveTx, j: nat, m: seq<byte>, code: nat, turns: seq<SendTurn>)
    requires m != [] && SenderAt(t, j, m, code, t.maxPayload)
    ensures PacketsFrom(SendRun(t, turns).0, j, Chunks(m, t.maxPayload), code, turns)
    ensures Begun(turns, SendRun(t, turns))
    decreases |turns|
  {
    if turns != [] && turns[0].before == CondNone {
      var cs := Chunks(m, t.maxPayload);
      var turn, rest := turns[0], turns[1..];
      assert turns == [turn] + rest;
      CurrentIsPkt(t, j, m, code, t.maxPayload);
      OneTurn(t, j, m, code, turn, Ok);
      assert j < |cs|;
      hide SenderAt, Chunks, Pkt, AfterWait, Current, Accepting, PacketsFrom;
      match AfterWait(t, turn.wait, turn.after)
      case Stop(_) =>
        NoPackets(j + if Accepting(turn) then 1 else 0, cs, code, rest);
        PacketsCons(Current(t), [], j, cs, code, turn, rest);
        assert [Current(t)] + [] == [Current(t)];
      case Keep(u) =>
        PacketsExactly(u, j + if Accepting(turn) then 1 else 0, m, code, rest);
        PacketsCons(Current(t), SendRun(u, rest).0, j, cs, code, turn, rest);
    }
  }

  lemma NoPackets(j: nat, cs: seq<seq<byte>>, code: nat, turns: seq<SendTurn>)
    ensures PacketsFrom([], j, cs, code, turns)
  {
  }

  lemma EndsLater(t: LiveTx, u: LiveTx, j: nat, n: nat, turn: SendTurn, rest: seq<SendTurn>, rv: Rv, k: nat)
    requires turn.before == CondNone && AfterWait(t, turn.wait, turn.after) == Keep(u) && k < |rest|
    ensures EndsAt(t, j, n, [turn] + rest, rv, k + 1) <==>
            EndsAt(u, j + if Accepting(turn) then 1 else 0, n, rest, rv, k)
  {
    hide AfterWait, Accepting, Returns;
    AckedCons(turn, rest, k);
    assert ([turn] + rest[..k])[1..] == rest[..k];
  }

  lemma EndsFirst(t: LiveTx, j: nat, n: nat, turns: seq<SendTurn>, rv: Rv)
    requires turns != []
    ensures EndsAt(t, j, n, turns, rv, 0) <==> Returns(j, n, turns[0], rv)
  {
    assert turns[..0] == [];
  }

  lemma EndsThere(t: LiveTx, j: nat, n: nat, turn: SendTurn, rest: seq<SendTurn>, rv: Rv, k: nat)
    requires k < |rest| && SendRun(t, [turn]).1.Some?
    ensures !EndsAt(t, j, n, [turn] + rest, rv, k + 1)
  {
    hide AfterWait, Returns;
    assert ([turn] + rest)[..k + 1] == [turn] + rest[..k];
    assert ([turn] + rest[..k])[0] == turn && [turn][0] == turn;
  }

  lemma FirstTurnReturns(t: LiveTx, j: nat, m: seq<byte>, code: nat, turn: SendTurn, rest: seq<SendTurn>, rv: Rv)
    requires m != [] && SenderAt(t, j, m, code, t.maxPayload)
    requires turn.before != CondNone || AfterWait(t, turn.wait, turn.after).Stop?
    ensures SendRun(t, [turn]).1.Some? && SendRun(t, [turn] + rest).1 == SendRun(t, [turn]).1
    ensures SendRun(t, [turn] + rest).1 == Some(rv) <==> Returns(j, |Chunks(m, t.maxPayload)|, turn, rv)
  {
    assert ([turn] + rest)[0] == turn && [turn][0] == turn;
    if turn.before == CondNone {
      OneTurn(t, j, m, code, turn, rv);
      hide AfterWait, Returns, SenderAt, Chunks;
    }
  }

  /** A call returns `rv` if and only if there is a turn in which a sender with that many packets acknowledged
      does. */
  lemma {:induction false} ResultExactly(t: LiveTx, j: nat, m: seq<byte>, code: nat, turns: seq<SendTurn>, rv: Rv)
    requires m != [] && SenderAt(t, j, m, code, t.maxPayload)
    ensures SendRun(t, turns).1 == Some(rv) <==>
              exists k :: 0 <= k < |turns| && EndsAt(t, j, |Chunks(m, t.maxPayload)|, turns, rv, k)
    decreases |turns|
  {
    if turns != [] {
      var turn, rest, n := turns[0], turns[1..], |Chunks(m, t.maxPayload)|;
      assert turns == [turn] + rest;
      EndsFirst(t, j, n, turns, rv);
      if turn.before != CondNone || AfterWait(t, turn.wait, turn.after).Stop? {
        FirstTurnReturns(t, j, m, code, turn, rest, rv);
        forall k | 0 < k < |turns|
          ensures !EndsAt(t, j, n, turns, rv, k)
        {
          EndsThere(t, j, n, turn, rest, rv, k - 1);
        }
      } else {
        var u := AfterWait(t, turn.wait, turn.after).tx;
        var i := j + if Accepting(turn) then 1 else 0;
        OneTurn(t, j, m, code, turn, rv);
        hide SenderAt, Chunks, AfterWait, Accepting, EndsAt, Returns;
        ResultExactly(u, i, m, code, rest, rv);
        forall k | 0 <= k < |rest|
          ensures EndsAt(t, j, n, turns, rv, k + 1) <==> EndsAt(u, i, n, rest, rv, k)
        {
          EndsLater(t, u, j, n, turn, rest, rv, k);
        }
        if k :| 0 <= k < |turns| && EndsAt(t, j, n, turns, rv, k) {
          assert EndsAt(u, i, n, rest, rv, k - 1);
        }
      }
    }
  }

  /** The whole call: its packets, and how it ends. */
  lemma CallExactly(m: seq<byte>, code: nat, size: nat, turns: seq<SendTurn>, rv: Rv)
    requires m != [] && size > 0
    ensures var t, cs := TxStart(m, code, size), Chunks(m, size);
            && PacketsFrom(SendRun(t, turns).0, 0, cs, code, turns) && Begun(turns, SendRun(t, turns))
            && (SendRun(t, turns).1 == Some(rv) <==>
                  exists k :: 0 <= k < |turns| && EndsAt(t, 0, |cs|, turns, rv, k))
  {
    var t: LiveTx := TxStart(m, code, size);
    FirstPacketSent(t, m, code, size);
    PacketsExactly(t, 0, m, code, turns);
    ResultExactly(t, 0, m, code, turns, rv);
  }

  // ------------------------------------------------------------------ the codes of successive calls

  /** Counter and clock as they go into the code. */
  function Mixed(seqNum: nat, nanoseconds: nat): nat {
    (seqNum + nanoseconds / 1024) % 0x1_0000
  }

  /** Equal but for 0, in whose place 65535 is sent. */
  predicate SameOnLine(x: nat, y: nat) {
    x == y || (x == 0 && y == 0xFFFF) || (x == 0xFFFF && y == 0)
  }

  /** The codes of two calls are equal if and only if counter and clock agree modulo 65536, or come to 0 and
      65535; and every value but 0 is sent as it is. */
  lemma SameCodeExactly(seqNum: nat, n: nat, seqNum': nat, n': nat)
    ensures GenerateSeqCode(seqNum, n) == GenerateSeqCode(seqNum', n') <==>
            SameOnLine(Mixed(seqNum, n), Mixed(seqNum', n'))
    ensures Mixed(seqNum, n) != 0 ==> GenerateSeqCode(seqNum, n) == Mixed(seqNum, n)
  {
  }

  /** The next call, with the counter one higher and the clock at another reading, repeats the code. */
  predicate RepeatsNext(seqNum: nat, n: nat, n': nat) {
    var x, step := Mixed(seqNum, n), (1 + n' / 1024 - n / 1024) % 0x1_0000;
    step == 0 || (x == 0xFFFF && step == 1) || (x == 0 && step == 0xFFFF)
  }

  lemma MixedNext(seqNum: nat, n: nat, n': nat)
    ensures Mixed((seqNum + 1) % UNSIGNED, n')
         == (Mixed(seqNum, n) + (1 + n' / 1024 - n / 1024) % 0x1_0000) % 0x1_0000
  {
    var a, b, c := seqNum, n / 1024, n' / 1024;
    ModOut(a + 1 + c, UNSIGNED, 0x1_0000, a + 1);
    ModSum(a + b, 1 + c - b);
  }

  /** A counter that wraps at 2^32 is the same modulo 2^16. */
  lemma ModOut(sum: nat, big: nat, small: nat, counter: nat)
    requires small == 0x1_0000 && big == 0x1_0000_0000 && counter <= sum
    ensures (counter % big + (sum - counter)) % small == sum % small
  {
    var q := counter / big;
    assert counter % big + (sum - counter) == sum - q * 0x1_0000 * 0x1_0000;
  }

  lemma ModSum(a: nat, d: int)
    requires a + d >= 0
    ensures (a + d) % 0x1_0000 == (a % 0x1_0000 + d % 0x1_0000) % 0x1_0000
  {
  }

  lemma NextCodeExactly(seqNum: nat, n: nat, n': nat)
    ensures GenerateSeqCode(seqNum, n) == GenerateSeqCode((seqNum + 1) % UNSIGNED, n') <==> RepeatsNext(seqNum, n, n')
  {
    MixedNext(seqNum, n, n');
    SameCodeExactly(seqNum, n, (seqNum + 1) % UNSIGNED, n');
    var x, y := Mixed(seqNum, n), Mixed((seqNum + 1) % UNSIGNED, n');
    hide GenerateSeqCode;
    Stepped(x, (1 + n' / 1024 - n / 1024) % 0x1_0000, y);
    hide Mixed;
  }

  lemma Stepped(x: nat, step: nat, y: nat)
    requires x < 0x1_0000 && step < 0x1_0000 && y == (x + step) % 0x1_0000
    ensures SameOnLine(x, y) <==> step == 0 || (x == 0xFFFF && step == 1) || (x == 0 && step == 0xFFFF)
  {
  }

  predicate AllCarry(packets: seq<Packet>, code: nat) {
    forall k :: 0 <= k < |packets| ==> packets[k].seqCode == code
  }

  /** Two calls in a row that both return OK: their packets carry different codes unless RepeatsNext. */
  method SendTwo(h: ChannelHandle, a: seq<byte>, n: nat, turns: seq<SendTurn>, b: seq<byte>, n': nat,
                 turns': seq<SendTurn>)
    returns (first: Option<Rv>, second: Option<Rv>, ghost packets: (seq<Packet>, seq<Packet>), ghost codes: (nat, nat))
    requires a != [] && b != [] && h.maxPayloadSize > 0
    modifies h`packetsOut, h`ackFifo, h`txSeqNum
    ensures h.packetsOut == old(h.packetsOut) + packets.0 + packets.1
    ensures AllCarry(packets.0, codes.0) && AllCarry(packets.1, codes.1)
    ensures (first == Some(Ok) ==> packets.0 != []) && (second == Some(Ok) ==> packets.1 != [])
    ensures first == second == Some(Ok) ==>
              (codes.0 != codes.1 <==> !RepeatsNext(old(h.txSeqNum), n, n'))
  {
    ghost var c := GenerateSeqCode(h.txSeqNum, n);
    ghost var p := SendRun(TxStart(a, c, h.maxPayloadSize), turns).0;
    CallCarries(a, c, h.maxPayloadSize, turns);
    NextCodeExactly(h.txSeqNum, n, n');
    first := h.ChannelSendData(a, n, turns);
    ghost var c' := GenerateSeqCode(h.txSeqNum, n');
    CallCarries(b, c', h.maxPayloadSize, turns');
    packets, codes := (p, SendRun(TxStart(b, c', h.maxPayloadSize), turns').0), (c, c');
    second := h.ChannelSendData(b, n', turns');
  }

  lemma OkSends(t: LiveTx, turns: seq<SendTurn>)
    ensures SendRun(t, turns).1 == Some(Ok) ==> SendRun(t, turns).0 != []
  {
    hide AfterWait, Current;
  }

  lemma CallCarries(m: seq<byte>, code: nat, size: nat, turns: seq<SendTurn>)
    requires m != [] && size > 0
    ensures var run := SendRun(TxStart(m, code, size), turns);
            AllCarry(run.0, code) && (run.1 == Some(Ok) ==> run.0 != [])
  {
    CallExactly(m, code, size, turns, Ok);
    OkSends(TxStart(m, code, size), turns);
    hide SendRun, Chunks, Acked;
  }

  /** So the next call keeps to the discipline of SdtlExactlyOnce.dfy, as far as codes go, if and only if not
      RepeatsNext. */
  lemma NextIsFreshExactly(s: Link, seqNum: nat, n: nat, n': nat)
    requires !s.app.Finishing? && s.ch.lastSeq == GenerateSeqCode(seqNum, n)
    ensures FreshCode(s, GenerateSeqCode((seqNum + 1) % UNSIGNED, n')) <==> !RepeatsNext(seqNum, n, n')
  {
    NextCodeExactly(seqNum, n, n');
    hide GenerateSeqCode, RepeatsNext;
  }
}
