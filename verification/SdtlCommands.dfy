/** Out-of-band commands on a reliable SDTL channel: channel_send_cmd repeats a command until it is
    acknowledged, rx_process_cmd acknowledges every copy and acts on a copy only if its sequence code
    differs from the last one it saw. */
module SdtlCommands {

  import opened Sequences
  import opened SdtlChannel

  datatype CmdCode = Reset | Cancel | OtherCmd(n: nat)

  datatype Cmd = Cmd(seqCode: nat, code: CmdCode)

  /** The condition flags of a channel. */
  datatype Flags = Flags(appReset: bool, appCancel: bool)

  function Raise(f: Flags, code: CmdCode): Flags {
    match code
    case Reset => f.(appReset := true)
    case Cancel => f.(appCancel := true)
    case OtherCmd(_) => f
  }

  // ------------------------------------------------------------------ the receiving end

  /** What a copy of a command does: the code remembered, the flags, whether the application is woken
      up, and the acknowledgement. */
  datatype CmdEffect = CmdEffect(last: nat, flags: Flags, wakeUp: bool, ack: Ack)

  function ProcessCmd(last: nat, flags: Flags, cmd: Cmd): CmdEffect {
    var ack := Ack(cmd.seqCode % 256, GotCmd);
    if last != cmd.seqCode then CmdEffect(cmd.seqCode, Raise(flags, cmd.code), true, ack)
    else CmdEffect(last, flags, false, ack)
  }

  /** What one copy after the other does. */
  datatype CmdsEffect = CmdsEffect(last: nat, flags: Flags, wakeUps: nat, acks: seq<Ack>)

  function ProcessAll(last: nat, flags: Flags, cmds: seq<Cmd>): CmdsEffect
    decreases |cmds|
  {
    if cmds == [] then CmdsEffect(last, flags, 0, [])
    else
      var effect := ProcessCmd(last, flags, cmds[0]);
      var rest := ProcessAll(effect.last, effect.flags, cmds[1..]);
      rest.(wakeUps := (if effect.wakeUp then 1 else 0) + rest.wakeUps, acks := [effect.ack] + rest.acks)
  }

  /** The code remembered when command `i` comes. */
  function Remembered(last: nat, cmds: seq<Cmd>, i: nat): nat
    requires i <= |cmds|
  {
    if i == 0 then last else cmds[i - 1].seqCode
  }

  /** Command `i` is the first copy in a row and carries this code. */
  predicate TakesEffect(last: nat, cmds: seq<Cmd>, i: nat, code: CmdCode)
    requires i < |cmds|
  {
    cmds[i].seqCode != Remembered(last, cmds, i) && cmds[i].code == code
  }

  /** Every copy is acknowledged under the low byte of its code, the last code is remembered, and a flag is up
      exactly if it was or a first copy raised it. */
  lemma {:induction false} ProcessAllExactly(last: nat, flags: Flags, cmds: seq<Cmd>)
    ensures var effect := ProcessAll(last, flags, cmds);
            && |effect.acks| == |cmds| && effect.last == Remembered(last, cmds, |cmds|)
            && (forall i :: 0 <= i < |cmds| ==> effect.acks[i] == Ack(cmds[i].seqCode % 256, GotCmd))
            && (effect.flags.appReset <==>
                  flags.appReset || exists i :: 0 <= i < |cmds| && TakesEffect(last, cmds, i, Reset))
            && (effect.flags.appCancel <==>
                  flags.appCancel || exists i :: 0 <= i < |cmds| && TakesEffect(last, cmds, i, Cancel))
    decreases |cmds|
  {
    if cmds != [] {
      var effect, rest := ProcessCmd(last, flags, cmds[0]), cmds[1..];
      ProcessAllExactly(effect.last, effect.flags, rest);
      assert effect.last == cmds[0].seqCode;
      forall i, code | 0 <= i < |rest|
        ensures TakesEffect(effect.last, rest, i, code) <==> TakesEffect(last, cmds, i + 1, code)
      {
      }
      EffectsShift(last, cmds, effect.last, Reset);
      EffectsShift(last, cmds, effect.last, Cancel);
      hide TakesEffect;
    }
  }

  lemma EffectsShift(last: nat, cmds: seq<Cmd>, next: nat, code: CmdCode)
    requires cmds != [] && next == cmds[0].seqCode
    ensures (exists i :: 0 <= i < |cmds| && TakesEffect(last, cmds, i, code)) <==>
            || TakesEffect(last, cmds, 0, code)
            || exists i :: 0 <= i < |cmds[1..]| && TakesEffect(next, cmds[1..], i, code)
  {
    var rest := cmds[1..];
    forall i | 0 <= i < |rest|
      ensures TakesEffect(next, rest, i, code) <==> TakesEffect(last, cmds, i + 1, code)
    {
    }
    hide TakesEffect;
    if i :| 0 < i < |cmds| && TakesEffect(last, cmds, i, code) {
      assert TakesEffect(next, rest, i - 1, code);
    }
  }

  /** One end of a channel as far as commands go: its flags, and the fake entries that wake up a
      reader waiting for data and a sender waiting for an acknowledgement. */
  class CommandReceiver {
    var rxCmdLastSeqCode: nat
    var flags: Flags
    var dataFifo: seq<Packet>
    var ackFifo: seq<Ack>
    var acksOut: seq<Ack>

    /** rx_process_cmd. */
    method RxProcessCmd(cmd: Cmd)
      modifies this
      ensures var effect := ProcessCmd(old(rxCmdLastSeqCode), old(flags), cmd);
              && rxCmdLastSeqCode == effect.last && flags == effect.flags && acksOut == old(acksOut) + [effect.ack]
              && dataFifo == old(dataFifo) + (if effect.wakeUp then [Packet(0, false, false, 0, [])] else [])
              && ackFifo == old(ackFifo) + (if effect.wakeUp then [Ack(0, OutBandEvent)] else [])
    {
      if rxCmdLastSeqCode != cmd.seqCode {
        rxCmdLastSeqCode := cmd.seqCode;
        if cmd.code == Reset {
          flags := flags.(appReset := true);
        }
        if cmd.code == Cancel {
          flags := flags.(appCancel := true);
        }
        dataFifo := dataFifo + [Packet(0, false, false, 0, [])];
        ackFifo := ackFifo + [Ack(0, OutBandEvent)];
      }
      acksOut := acksOut + [Ack(rxCmdLastSeqCode % 256, GotCmd)];
    }

    /** The commands handed over by one read of the line, one after the other. */
    method ReceiveCmds(cmds: seq<Cmd>)
      modifies this
      ensures var effect := ProcessAll(old(rxCmdLastSeqCode), old(flags), cmds);
              && rxCmdLastSeqCode == effect.last && flags == effect.flags && acksOut == old(acksOut) + effect.acks
              && |dataFifo| == |old(dataFifo)| + effect.wakeUps && |ackFifo| == |old(ackFifo)| + effect.wakeUps
    {
      ghost var whole := ProcessAll(rxCmdLastSeqCode, flags, cmds);
      assert cmds[0..] == cmds;
      for i := 0 to |cmds|
        invariant |dataFifo| >= |old(dataFifo)| && |ackFifo| - |old(ackFifo)| == |dataFifo| - |old(dataFifo)|
        invariant old(acksOut) <= acksOut
        invariant var rest := ProcessAll(rxCmdLastSeqCode, flags, cmds[i..]);
                  && whole.last == rest.last && whole.flags == rest.flags
                  && old(acksOut) + whole.acks == acksOut + rest.acks
                  && |old(dataFifo)| + whole.wakeUps == |dataFifo| + rest.wakeUps
      {
        ghost var acks, effect := acksOut, ProcessCmd(rxCmdLastSeqCode, flags, cmds[i]);
        DropOne(cmds, i);
        RxProcessCmd(cmds[i]);
        Assoc(acks, [effect.ack], ProcessAll(rxCmdLastSeqCode, flags, cmds[i + 1..]).acks);
      }
    }
  }

  // ------------------------------------------------------------------ the sending end

  /** What the loop of channel_send_cmd does after wait_ack: None means it sends once more. */
  function AfterCmdWait(wait: AckWait, after: Condition): Option<Rv> {
    match WaitAckRv(wait, after)
    case AppReset => Some(Ok)
    case AppCancel => Some(Ok)
    case Ok => if wait.ack.code == GotCmd then Some(Ok) else None
    case TimedOut => None
    case other => Some(other)
  }

  /** What one turn of the loop meets: whether the copy could be sent, the outcome of the wait, and the flags
      if the wait was ended by an out-of-band event. */
  datatype CmdTurn = CmdTurn(sent: Rv, wait: AckWait, after: Condition)

  /** The turn sends a copy and goes on. */
  predicate Repeats(turn: CmdTurn) {
    turn.sent == Ok && AfterCmdWait(turn.wait, turn.after) == None
  }

  /** The attempts to send, and the result if the call has returned. */
  function CmdSendRun(turns: seq<CmdTurn>): (nat, Option<Rv>) {
    if turns == [] then (0, None)
    else if turns[0].sent != Ok then (1, Some(turns[0].sent))
    else
      match AfterCmdWait(turns[0].wait, turns[0].after)
      case Some(rv) => (1, Some(rv))
      case None =>
        var (attempts, rv) := CmdSendRun(turns[1..]);
        (1 + attempts, rv)
  }

  function Later(attempts: nat, run: (nat, Option<Rv>)): (nat, Option<Rv>) {
    (attempts + run.0, run.1)
  }

  /** channel_send_cmd over the turns it meets: the number of attempts to send, the result if the call has
      returned, and tx_cmd_seq_num, which a failed attempt leaves alone. */
  method ChannelSendCmd(reliable: bool, txCmdSeqNum: nat, turns: seq<CmdTurn>)
    returns (attempts: nat, result: Option<Rv>, seqNum: nat)
    ensures reliable ==> (attempts, result) == CmdSendRun(turns)
    ensures !reliable ==> attempts == 0 && result == Some(InvalidChType) && seqNum == txCmdSeqNum
    ensures attempts <= |turns| && forall i :: 0 <= i < attempts - 1 ==> Repeats(turns[i])
    ensures result == None ==> attempts == |turns| && (attempts > 0 ==> Repeats(turns[attempts - 1]))
                               && seqNum == txCmdSeqNum
    ensures reliable && result != None ==>
              && attempts > 0 && var turn := turns[attempts - 1];
              if turn.sent == Ok then
                result == AfterCmdWait(turn.wait, turn.after) && seqNum == (txCmdSeqNum + 1) % UNSIGNED
              else result == Some(turn.sent) && seqNum == txCmdSeqNum
  {
    attempts, result, seqNum := 0, None, txCmdSeqNum;
    if !reliable {
      return 0, Some(InvalidChType), seqNum;
    }
    assert turns[0..] == turns;
    while attempts < |turns| && result == None
      invariant attempts <= |turns| && seqNum == txCmdSeqNum
      invariant result == None ==> CmdSendRun(turns) == Later(attempts, CmdSendRun(turns[attempts..]))
      invariant result != None ==> CmdSendRun(turns) == (attempts, result)
      invariant forall i :: 0 <= i < attempts - 1 ==> Repeats(turns[i])
      invariant result == None && attempts > 0 ==> Repeats(turns[attempts - 1])
      invariant result != None ==> attempts > 0 && turns[attempts - 1].sent == Ok
                                   && result == AfterCmdWait(turns[attempts - 1].wait, turns[attempts - 1].after)
      decreases |turns| - attempts
    {
      var turn := turns[attempts];
      DropOne(turns, attempts);
      attempts := attempts + 1;
      if turn.sent != Ok {
        return attempts, Some(turn.sent), seqNum;
      }
      var rv := WaitAckRv(turn.wait, turn.after);
      match rv {
        case AppReset => result := Some(Ok);
        case AppCancel => result := Some(Ok);
        case Ok =>
          if turn.wait.ack.code == GotCmd {
            result := Some(Ok);
          }
        case TimedOut =>
        case _ => result := Some(rv);
      }
    }
    if result != None {
      seqNum := (seqNum + 1) % UNSIGNED;
    }
  }

  /** The turn in which the call returns `rv`: a copy that cannot be sent, an acknowledgement of a command, a
      wake-up by a reset or cancel, which counts as success, or a failing queue. */
  predicate CmdReturns(turn: CmdTurn, rv: Rv) {
    if turn.sent != Ok then rv == turn.sent
    else
      match turn.wait
      case AckFailed => rv == EswbErr
      case AckTimedOut => false
      case AckPopped(ack) =>
        rv == Ok && (ack.code == GotCmd || (ack.code == OutBandEvent && turn.after != CondNone))
  }

  lemma TurnReturns(turn: CmdTurn, rv: Rv)
    ensures turn.sent == Ok ==> (AfterCmdWait(turn.wait, turn.after) == Some(rv) <==> CmdReturns(turn, rv))
  {
  }

  /** The call returns with the first such turn, having tried to send once for each turn up to it. */
  lemma {:induction false} CmdResultExactly(turns: seq<CmdTurn>, rv: Rv)
    ensures var run := CmdSendRun(turns);
            && run.0 <= |turns| && (run.1 == None ==> run.0 == |turns|)
            && (forall i, other :: 0 <= i < run.0 - 1 ==> !CmdReturns(turns[i], other))
            && (run.1 == Some(rv) <==> run.0 > 0 && CmdReturns(turns[run.0 - 1], rv))
    decreases |turns|
  {
    if turns != [] {
      forall other
        ensures turns[0].sent == Ok ==>
                  (AfterCmdWait(turns[0].wait, turns[0].after) == Some(other) <==> CmdReturns(turns[0], other))
      {
        TurnReturns(turns[0], other);
      }
      hide AfterCmdWait;
      CmdResultExactly(turns[1..], rv);
    }
  }

  // ------------------------------------------------------------------ both ends and the lines

  /** A copy of a command on the line. The number of the call it belongs to is bookkeeping; nothing
      looks at it. */
  datatype Copy = Copy(call: nat, cmd: Cmd)

  /** `calls` are all calls so far, the last of them still running if `busy`; `done` are the numbers
      of the calls that have returned OK, `applied` those whose flags were raised. */
  datatype CmdLink = CmdLink(calls: seq<Cmd>, busy: bool, line: seq<Copy>, ackLine: seq<Ack>, ackFifo: seq<Ack>,
                             rxLast: nat, flags: Flags, done: seq<nat>, applied: seq<nat>)

  function CmdInit(): CmdLink {
    CmdLink([], false, [], [], [], 0, Flags(false, false), [], [])
  }

  datatype CmdEvent = CmdCall(cmd: Cmd) | CmdGetsAck | CmdTimesOut | LoseCmd(at: nat) | CmdArrives
                    | LoseCmdAck(at: nat) | CmdAckArrives

  predicate CmdEnabled(s: CmdLink, e: CmdEvent) {
    match e
    case CmdCall(cmd) => !s.busy && 0 < cmd.seqCode < 0x1_0000
    case CmdGetsAck => s.busy && s.calls != [] && s.ackFifo != []
    case CmdTimesOut => s.busy && s.calls != []
    case LoseCmd(at) => at < |s.line|
    case CmdArrives => s.line != []
    case LoseCmdAck(at) => at < |s.ackLine|
    case CmdAckArrives => s.ackLine != []
  }

  function SendCopy(s: CmdLink): CmdLink
    requires s.calls != []
  {
    s.(line := s.line + [Copy(|s.calls| - 1, s.calls[|s.calls| - 1])])
  }

  function OnCmdArrives(s: CmdLink): CmdLink
    requires CmdEnabled(s, CmdArrives)
  {
    var copy := s.line[0];
    var effect := ProcessCmd(s.rxLast, s.flags, copy.cmd);
    s.(line := s.line[1..], rxLast := effect.last, flags := effect.flags,
       ackLine := s.ackLine + [effect.ack],
       applied := if effect.wakeUp then s.applied + [copy.call] else s.applied)
  }

  function CmdNext(s: CmdLink, e: CmdEvent): CmdLink
    requires CmdEnabled(s, e)
  {
    match e
    case CmdCall(cmd) => SendCopy(s.(calls := s.calls + [cmd], busy := true))
    case CmdGetsAck =>
      var popped := s.(ackFifo := s.ackFifo[1..]);
      (match AfterCmdWait(AckPopped(s.ackFifo[0]), CondNone)
       case None => SendCopy(popped)
       case Some(rv) => popped.(busy := false, done := if rv == Ok then s.done + [|s.calls| - 1] else s.done))
    case CmdTimesOut => SendCopy(s)
    case LoseCmd(at) => s.(line := s.line[..at] + s.line[at + 1..])
    case CmdArrives => OnCmdArrives(s)
    case LoseCmdAck(at) => s.(ackLine := s.ackLine[..at] + s.ackLine[at + 1..])
    case CmdAckArrives => s.(ackLine := s.ackLine[1..], ackFifo := s.ackFifo + [s.ackLine[0]])
  }

  predicate CmdRun(s: CmdLink, events: seq<CmdEvent>)
    decreases |events|
  {
    events != [] ==> CmdEnabled(s, events[0]) && CmdRun(CmdNext(s, events[0]), events[1..])
  }

  function CmdPlay(s: CmdLink, events: seq<CmdEvent>): CmdLink
    requires CmdRun(s, events)
    decreases |events|
  {
    if events == [] then s else CmdPlay(CmdNext(s, events[0]), events[1..])
  }

  // ------------------------------------------------------------------ at most once, in every run

  predicate Increasing(ks: seq<nat>) {
    forall i, j :: 0 <= i < j < |ks| ==> ks[i] < ks[j]
  }

  /** The flags raised by the given calls. */
  function FlagsOf(calls: seq<Cmd>, ks: seq<nat>): Flags {
    if ks == [] then Flags(false, false)
    else
      var before := FlagsOf(calls, ks[..|ks| - 1]);
      var k := ks[|ks| - 1];
      if k < |calls| then Raise(before, calls[k].code) else before
  }

  /** `top` is one more than the number of the last call any copy of which has arrived. */
  ghost predicate CmdInv(s: CmdLink, top: nat) {
    && top <= |s.calls|
    && (s.busy ==> s.calls != [])
    && (forall i :: 0 <= i < |s.line| ==> top <= s.line[i].call + 1 && s.line[i].call < |s.calls|
                                          && s.line[i].cmd == s.calls[s.line[i].call])
    && (forall i, j :: 0 <= i < j < |s.line| ==> s.line[i].call <= s.line[j].call)
    && s.rxLast == (if top == 0 then 0 else s.calls[top - 1].seqCode)
    && Increasing(s.applied) && (forall i :: 0 <= i < |s.applied| ==> s.applied[i] < top)
    && s.flags == FlagsOf(s.calls, s.applied)
  }

  lemma {:induction false} FlagsKept(calls: seq<Cmd>, more: seq<Cmd>, ks: seq<nat>)
    requires forall i :: 0 <= i < |ks| ==> ks[i] < |calls|
    ensures FlagsOf(calls + more, ks) == FlagsOf(calls, ks)
    decreases |ks|
  {
    if ks != [] {
      FlagsKept(calls, more, ks[..|ks| - 1]);
    }
  }

  lemma CmdCallKeeps(s: CmdLink, cmd: Cmd, top: nat)
    requires CmdInv(s, top) && CmdEnabled(s, CmdCall(cmd))
    ensures CmdInv(CmdNext(s, CmdCall(cmd)), top)
  {
    FlagsKept(s.calls, [cmd], s.applied);
    var n := CmdNext(s, CmdCall(cmd));
    assert forall k :: 0 <= k < |s.calls| ==> n.calls[k] == s.calls[k];
  }

  lemma CmdArrivesKeeps(s: CmdLink, top: nat)
    requires CmdInv(s, top) && CmdEnabled(s, CmdArrives)
    ensures CmdInv(CmdNext(s, CmdArrives), s.line[0].call + 1)
  {
    var k := s.line[0].call;
    var n := CmdNext(s, CmdArrives);
    assert k + 1 >= top && s.line[0].cmd == s.calls[k];
    assert forall i :: 0 <= i < |n.line| ==> n.line[i] == s.line[i + 1];
    if s.rxLast != s.calls[k].seqCode {
      assert n.applied[..|n.applied| - 1] == s.applied;
    }
  }

  lemma CmdOtherKeeps(s: CmdLink, e: CmdEvent, top: nat)
    requires CmdInv(s, top) && CmdEnabled(s, e) && !e.CmdCall? && !e.CmdArrives? && !e.LoseCmd?
    ensures CmdInv(CmdNext(s, e), top)
  {
    hide FlagsOf, Increasing, AfterCmdWait;
    var n := CmdNext(s, e);
    assert n.line == s.line || n.line == SendCopy(s).line;
  }

  lemma CmdEventKeeps(s: CmdLink, e: CmdEvent, top: nat) returns (top': nat)
    requires CmdInv(s, top) && CmdEnabled(s, e)
    ensures CmdInv(CmdNext(s, e), top')
  {
    hide CmdInv, CmdNext;
    top' := top;
    match e
    case CmdCall(cmd) => CmdCallKeeps(s, cmd, top);
    case CmdArrives => top' := s.line[0].call + 1; CmdArrivesKeeps(s, top);
    case LoseCmd(at) => CmdLossKeeps(s, at, top);
    case _ => CmdOtherKeeps(s, e, top);
  }

  lemma CmdLossKeeps(s: CmdLink, at: nat, top: nat)
    requires CmdInv(s, top) && CmdEnabled(s, LoseCmd(at))
    ensures CmdInv(CmdNext(s, LoseCmd(at)), top)
  {
    hide FlagsOf;
    var n := CmdNext(s, LoseCmd(at));
    assert forall i :: 0 <= i < |n.line| ==> n.line[i] == s.line[if i < at then i else i + 1];
  }

  lemma {:induction false} CmdRunKeeps(s: CmdLink, events: seq<CmdEvent>, top: nat) returns (top': nat)
    requires CmdInv(s, top) && CmdRun(s, events)
    ensures CmdInv(CmdPlay(s, events), top')
    decreases |events|
  {
    hide CmdInv, CmdNext;
    top' := top;
    if events != [] {
      top' := CmdEventKeeps(s, events[0], top);
      top' := CmdRunKeeps(CmdNext(s, events[0]), events[1..], top');
    }
  }

  /** One of these calls carries the code. */
  ghost predicate SomeCall(calls: seq<Cmd>, ks: seq<nat>, code: CmdCode) {
    exists i :: 0 <= i < |ks| && ks[i] < |calls| && calls[ks[i]].code == code
  }

  /** The application is told to reset exactly by a reset, and to cancel exactly by a cancel. */
  lemma {:induction false} FlagsExactly(calls: seq<Cmd>, ks: seq<nat>)
    ensures FlagsOf(calls, ks).appReset <==> SomeCall(calls, ks, Reset)
    ensures FlagsOf(calls, ks).appCancel <==> SomeCall(calls, ks, Cancel)
    decreases |ks|
  {
    if ks != [] {
      var front, k := ks[..|ks| - 1], ks[|ks| - 1];
      FlagsExactly(calls, front);
      SomeCallSnoc(calls, front, k, Reset);
      SomeCallSnoc(calls, front, k, Cancel);
      assert ks == front + [k];
      hide SomeCall;
    }
  }

  lemma SomeCallSnoc(calls: seq<Cmd>, front: seq<nat>, k: nat, code: CmdCode)
    ensures SomeCall(calls, front + [k], code) <==>
            SomeCall(calls, front, code) || (k < |calls| && calls[k].code == code)
  {
    var ks := front + [k];
    if SomeCall(calls, front, code) {
      var i :| 0 <= i < |front| && front[i] < |calls| && calls[front[i]].code == code;
      assert ks[i] == front[i];
    }
    if k < |calls| && calls[k].code == code {
      assert ks[|front|] == k;
    }
  }

  /** However copies and acknowledgements are lost, repeated early or left over, each call takes
      effect at most once, in the order of the calls, and the flags are exactly those of the calls
      that took effect. */
  lemma CommandsAtMostOnce(events: seq<CmdEvent>)
    requires CmdRun(CmdInit(), events)
    ensures var s := CmdPlay(CmdInit(), events);
            && Increasing(s.applied) && (forall i :: 0 <= i < |s.applied| ==> s.applied[i] < |s.calls|)
            && (s.flags.appReset <==> SomeCall(s.calls, s.applied, Reset))
            && (s.flags.appCancel <==> SomeCall(s.calls, s.applied, Cancel))
  {
    var top := CmdRunKeeps(CmdInit(), events, 0);
    FlagsExactly(CmdPlay(CmdInit(), events).calls, CmdPlay(CmdInit(), events).applied);
  }

  // ------------------------------------------------------------------ exactly once, with honest timeouts

  /** Timeouts fire only when nothing is under way, and adjacent calls carry different codes. */
  predicate CmdAllowed(s: CmdLink, e: CmdEvent) {
    CmdEnabled(s, e) &&
    match e
    case CmdCall(cmd) => s.calls != [] ==> cmd.seqCode != s.calls[|s.calls| - 1].seqCode
    case CmdTimesOut => s.line == [] && s.ackLine == [] && s.ackFifo == []
    case _ => true
  }

  predicate CmdAllowedRun(s: CmdLink, events: seq<CmdEvent>): (allowed: bool)
    ensures allowed ==> CmdRun(s, events)
    decreases |events|
  {
    events != [] ==> CmdAllowed(s, events[0]) && CmdAllowedRun(CmdNext(s, events[0]), events[1..])
  }

  function UpTo(n: nat): (ks: seq<nat>)
    ensures |ks| == n
  {
    seq(n, i => i)
  }

  function CmdInFlight(s: CmdLink): nat {
    |s.line| + |s.ackLine| + |s.ackFifo|
  }

  ghost predicate OnlyGotCmd(acks: seq<Ack>) {
    forall a :: a in acks ==> a.code == GotCmd
  }

  ghost predicate CmdStrict(s: CmdLink) {
    var n := |s.calls|;
    && OnlyGotCmd(s.ackLine) && OnlyGotCmd(s.ackFifo) && (s.busy ==> s.calls != [])
    && (forall i :: 0 < i < n ==> s.calls[i].seqCode != s.calls[i - 1].seqCode)
    && (forall i :: 0 <= i < n ==> s.calls[i].seqCode != 0)
    && s.done == UpTo(if s.busy then n - 1 else n)
    && s.rxLast == (if |s.applied| == 0 then 0 else if |s.applied| <= n then s.calls[|s.applied| - 1].seqCode else 0)
    && if !s.busy then
         CmdInFlight(s) == 0 && s.applied == UpTo(n)
       else
         && n > 0 && CmdInFlight(s) <= 1
         && (forall c :: c in s.line ==> c == Copy(n - 1, s.calls[n - 1]))
         && (s.applied == UpTo(n) || (s.applied == UpTo(n - 1) && s.ackLine == [] && s.ackFifo == []))
  }

  lemma CmdStrictArrives(s: CmdLink)
    requires CmdStrict(s) && CmdEnabled(s, CmdArrives)
    ensures CmdStrict(CmdNext(s, CmdArrives))
  {
    var n := |s.calls|;
    assert s.line[0] in s.line;
    assert s.line == [Copy(n - 1, s.calls[n - 1])];
    assert UpTo(n) == UpTo(n - 1) + [n - 1];
  }

  lemma CmdStrictCall(s: CmdLink, e: CmdEvent)
    requires CmdStrict(s) && e.CmdCall? && CmdAllowed(s, e)
    ensures CmdStrict(CmdNext(s, e))
  {
    var n := |s.calls|;
    assert UpTo(n + 1) == UpTo(n) + [n];
  }

  lemma CmdStrictAcked(s: CmdLink)
    requires CmdStrict(s) && CmdAllowed(s, CmdGetsAck)
    ensures CmdStrict(CmdNext(s, CmdGetsAck))
  {
    var n := |s.calls|;
    assert s.ackFifo[0] in s.ackFifo;
    assert UpTo(n) == UpTo(n - 1) + [n - 1];
  }

  lemma CmdStrictKeeps(s: CmdLink, e: CmdEvent)
    requires CmdStrict(s) && CmdAllowed(s, e)
    ensures CmdStrict(CmdNext(s, e))
  {
    match e
    case CmdCall(_) => CmdStrictCall(s, e);
    case CmdGetsAck => CmdStrictAcked(s);
    case CmdArrives => CmdStrictArrives(s);
    case CmdAckArrives => assert s.ackLine[0] in s.ackLine;
    case _ =>
  }

  lemma {:induction false} CmdStrictRun(s: CmdLink, events: seq<CmdEvent>)
    requires CmdStrict(s) && CmdAllowedRun(s, events)
    ensures CmdStrict(CmdPlay(s, events))
    decreases |events|
  {
    hide CmdStrict, CmdNext;
    if events != [] {
      CmdStrictKeeps(s, events[0]);
      CmdStrictRun(CmdNext(s, events[0]), events[1..]);
    }
  }

  /** If timeouts fire only when nothing is under way and adjacent calls carry different codes, the
      calls that took effect are all those that returned, in order, and possibly the running one. */
  lemma CommandsExactlyOnce(events: seq<CmdEvent>)
    requires CmdAllowedRun(CmdInit(), events)
    ensures var s := CmdPlay(CmdInit(), events);
            && (s.busy ==> s.calls != [])
            && s.done == UpTo(if s.busy then |s.calls| - 1 else |s.calls|)
            && (s.applied == s.done || (s.busy && s.applied == s.done + [|s.calls| - 1]))
  {
    CmdStrictRun(CmdInit(), events);
    var s := CmdPlay(CmdInit(), events);
    if s.busy {
      assert UpTo(|s.calls|) == UpTo(|s.calls| - 1) + [|s.calls| - 1];
    }
  }
}
