/** What the receiver makes of everything that is not a good frame, and how it counts. */
module BbeeCounters {

  import opened Bytes
  import opened Sequences
  import opened BbeeFraming
  import opened BbeeRoundTrip

  /** The counters after something: each is the old one and so many more. */
  predicate Counts(was: Stats, now: Stats, good: nat, overflow: nat, invalid: nat, empty: nat, restart: nat,
                   loose: nat)
  {
    && now.goodFrames == was.goodFrames + good && now.bufOverflow == was.bufOverflow + overflow
    && now.invCrc == was.invCrc + invalid && now.gotEmptyFrame == was.gotEmptyFrame + empty
    && now.frameRestart == was.frameRestart + restart && now.nonFramedBytes == was.nonFramedBytes + loose
  }

  predicate Idle(s: Rx) {
    !s.gotBegin && !s.started && s.buf == []
  }

  /** A frame up to the end of its body. */
  function Front(code: byte, body: seq<byte>): seq<byte> {
    [BEGIN, BEGIN, code] + Stuff(body)
  }

  lemma OpensInto(s: Rx, code: byte, body: seq<byte>)
    requires !s.gotBegin && !IsSync(code) && |body| <= s.max && 0 < s.max
    ensures Frames(s, Front(code, body)) == []
    ensures var t := Run(s, Front(code, body));
            && InBody(t, code) && t.max == s.max && t.buf == body
            && Counts(s.stats, t.stats, 0, 0, 0, 0, if s.started then 1 else 0, 0)
  {
    hide Inv, Run, Frames, Stuff;
    FrameOpens(s, code);
    BodyBuffered(Opened(s, code), code, body);
    RunConcat(s, [BEGIN, BEGIN, code], Stuff(body));
    assert Opened(s, code).buf + body == body;
  }

  /** What comes behind the body adds to the counters. */
  lemma Behind(s: Rx, front: seq<byte>, back: seq<byte>, restart: nat, overflow: nat, empty: nat)
    requires Frames(s, front) == [] && Counts(s.stats, Run(s, front).stats, 0, 0, 0, 0, restart, 0)
    requires var t := Run(s, front);
             && Frames(t, back) == [] && Idle(Run(t, back))
             && Counts(t.stats, Run(t, back).stats, 0, overflow, 0, empty, 0, 0)
    ensures Frames(s, front + back) == [] && Idle(Run(s, front + back))
    ensures Counts(s.stats, Run(s, front + back).stats, 0, overflow, 0, empty, restart, 0)
  {
    hide Run, Frames;
    RunConcat(s, front, back);
  }

  lemma ShortCloses(s: Rx, code: byte)
    requires InBody(s, code) && |s.buf| < 3
    ensures Frames(s, [END, END]) == []
    ensures Idle(Run(s, [END, END])) && Counts(s.stats, Run(s, [END, END]).stats, 0, 0, 0, 1, 0, 0)
  {
    hide Inv, Run, Frames, CrcTrails;
    TwoSteps(s, END, END);
  }

  /** A frame with fewer than three bytes between its code and its end is dropped and counted as empty. */
  lemma EmptyFrameDropped(s: Rx, code: byte, body: seq<byte>)
    requires !s.gotBegin && !IsSync(code) && |body| < 3 && |body| <= s.max && 0 < s.max
    ensures var wire := Frame(code, body);
            && Frames(s, wire) == [] && Idle(Run(s, wire))
            && Counts(s.stats, Run(s, wire).stats, 0, 0, 0, 1, if s.started then 1 else 0, 0)
  {
    OpensInto(s, code, body);
    assert Frame(code, body) == Front(code, body) + [END, END];
    hide Inv, Run, Frames, Front, Frame, Counts, Idle;
    ShortCloses(Run(s, Front(code, body)), code);
    Behind(s, Front(code, body), [END, END], if s.started then 1 else 0, 0, 1);
  }

  /** A frame of at least three bytes is counted as good or as having a wrong checksum, and as a restart if it
      cuts off another. */
  lemma FrameCounted(s: Rx, code: byte, body: seq<byte>)
    requires !s.gotBegin && !IsSync(code) && 3 <= |body| <= s.max
    ensures var good := GoodBody(code, body);
            && Idle(Run(s, Frame(code, body)))
            && Counts(s.stats, Run(s, Frame(code, body)).stats, if good then 1 else 0, 0, if good then 0 else 1, 0,
                      if s.started then 1 else 0, 0)
  {
    hide Run, Frames, Frame, GoodBody;
    FrameOutcome(s, code, body);
  }

  lemma FullOverflows(s: Rx, code: byte, b: byte)
    requires InBody(s, code) && |s.buf| >= s.max
    ensures Frames(s, StuffOne(b)) == []
    ensures Idle(Run(s, StuffOne(b))) && Counts(s.stats, Run(s, StuffOne(b)).stats, 0, 1, 0, 0, 0, 0)
  {
    hide Inv, Run, Frames, CrcTrails;
    if IsSync(b) {
      TwoSteps(s, b, 0);
    } else {
      OneStep(s, b);
    }
  }

  /** A frame is dropped with the first byte the buffer has no room for, and counted as an overflow. */
  lemma OverlongFrameDropped(s: Rx, code: byte, body: seq<byte>, b: byte)
    requires !s.gotBegin && !IsSync(code) && |body| == s.max && 0 < s.max
    ensures var wire := Front(code, body + [b]);
            && Frames(s, wire) == [] && Idle(Run(s, wire))
            && Counts(s.stats, Run(s, wire).stats, 0, 1, 0, 0, if s.started then 1 else 0, 0)
  {
    OpensInto(s, code, body);
    FrontSnoc(code, body, b);
    hide Inv, Run, Frames, Front, StuffOne, Counts, Idle;
    FullOverflows(Run(s, Front(code, body)), code, b);
    Behind(s, Front(code, body), StuffOne(b), if s.started then 1 else 0, 1, 0);
  }

  lemma FrontSnoc(code: byte, body: seq<byte>, b: byte)
    ensures Front(code, body + [b]) == Front(code, body) + StuffOne(b)
  {
    StuffConcat(body, [b]);
    assert Stuff([b]) == StuffOne(b) + Stuff([]) == StuffOne(b);
    hide Stuff, StuffOne;
    Assoc([BEGIN, BEGIN, code], Stuff(body), StuffOne(b));
  }

  /** The bytes that are no end characters. */
  function Loose(noise: seq<byte>): nat {
    if noise == [] then 0 else (if noise[0] == END then 0 else 1) + Loose(noise[1..])
  }

  /** Bytes outside a frame are counted, end characters excepted, and change nothing else. */
  lemma {:induction false} NoiseCounted(s: Rx, noise: seq<byte>)
    requires !s.gotBegin && !s.started && BEGIN !in noise
    ensures Frames(s, noise) == []
    ensures var t := Run(s, noise);
            && !t.gotBegin && !t.started && t.buf == s.buf && Counts(s.stats, t.stats, 0, 0, 0, 0, 0, Loose(noise))
    decreases |noise|
  {
    if noise != [] {
      var t := Step(s, noise[0]).0;
      assert noise[0] in noise;
      assert !t.gotBegin && !t.started && t.buf == s.buf && Step(s, noise[0]).1 == [];
      assert Counts(s.stats, t.stats, 0, 0, 0, 0, 0, if noise[0] == END then 0 else 1);
      hide Step;
      NoiseCounted(t, noise[1..]);
    }
  }
}
