/** The receiver undoes the composer: round trip, resynchronisation, and streams of frames between noise.

    A frame is followed through the receiver in three parts. The opening B B code starts a frame from
    every state without a pending begin character, also from the middle of a frame that was cut off.
    Each byte of the body, stuffed or not, is appended to the buffer while the checksum trails two
    bytes behind. The closing E E compares the two, and its second byte hands the frame over.

    With a begin character pending the opening is one character long: the first B already starts the
    frame, the second stays pending behind the code, and the first byte of the body is stored as a B.
    Only from such a state can a composed frame fail to get through, and it fails unless its payload
    happens to start with the end character. */
module BbeeRoundTrip {

  import opened Bytes
  import opened Sequences
  import opened Crc16
  import opened BbeeFraming

  /** The receiver is inside a frame, past the code, with no sync character pending. */
  ghost predicate InBody(s: Rx, code: byte) {
    Inv(s) && s.started && s.gotCode && s.code == code && !s.gotBegin && !s.gotEnd
  }

  lemma TwoSteps(s: Rx, a: byte, b: byte)
    ensures Run(s, [a, b]) == Step(Step(s, a).0, b).0
    ensures Frames(s, [a, b]) == Step(s, a).1 + Step(Step(s, a).0, b).1
  {
    hide Step;
    var t := Step(s, a).0;
    assert Run(t, [b]) == Run(Step(t, b).0, []) && Frames(t, [b]) == Step(t, b).1 + Frames(Step(t, b).0, []);
    assert [a, b][1..] == [b];
  }

  lemma OneStep(s: Rx, a: byte)
    ensures Run(s, [a]) == Step(s, a).0 && Frames(s, [a]) == Step(s, a).1
  {
    hide Step;
    assert Run(s, [a]) == Run(Step(s, a).0, []) && Frames(s, [a]) == Step(s, a).1 + Frames(Step(s, a).0, []);
  }

  /** `t` is `s` with `body` appended to its buffer, and nothing else changed but the checksum. */
  ghost predicate Buffered(s: Rx, t: Rx, code: byte, body: seq<byte>) {
    InBody(t, code) && t.max == s.max && t.stats == s.stats && t.buf == s.buf + body
  }

  function StuffOne(b: byte): seq<byte> {
    if IsSync(b) then [b, 0] else [b]
  }

  /** One stuffed body byte is buffered, whatever it is. */
  lemma ByteBuffered(s: Rx, code: byte, b: byte)
    requires InBody(s, code) && |s.buf| < s.max
    ensures Buffered(s, Run(s, StuffOne(b)), code, [b]) && Frames(s, StuffOne(b)) == []
  {
    hide Update, Divide, Bits, Run, Frames;
    if IsSync(b) {
      TwoSteps(s, b, 0);
      StepInv(s, b);
      StepInv(Step(s, b).0, 0);
    } else {
      OneStep(s, b);
      StepInv(s, b);
    }
  }

  lemma {:induction false} BodyBuffered(s: Rx, code: byte, body: seq<byte>)
    requires InBody(s, code) && |s.buf| + |body| <= s.max
    ensures Buffered(s, Run(s, Stuff(body)), code, body) && Frames(s, Stuff(body)) == []
    decreases |body|
  {
    hide Inv, Step;
    if body == [] {
      assert s.buf + [] == s.buf;
    } else {
      hide Run, Frames;
      ByteBuffered(s, code, body[0]);
      var t := Run(s, StuffOne(body[0]));
      BodyBuffered(t, code, body[1..]);
      assert Stuff(body) == StuffOne(body[0]) + Stuff(body[1..]);
      RunConcat(s, StuffOne(body[0]), Stuff(body[1..]));
      assert s.buf + body == (s.buf + [body[0]]) + body[1..];
    }
  }

  /** The receiver right after the opening of a frame. */
  function Opened(s: Rx, code: byte): Rx {
    var restarts := s.stats.frameRestart + (if s.started then 1 else 0);
    Reset(s).(started := true, gotCode := true, code := code, crc := Update(INIT, code),
              stats := s.stats.(frameRestart := restarts))
  }

  lemma ThreeSteps(s: Rx, a: byte, b: byte, c: byte)
    ensures Run(s, [a, b, c]) == Step(Step(Step(s, a).0, b).0, c).0
    ensures Frames(s, [a, b, c]) == Step(s, a).1 + Step(Step(s, a).0, b).1 + Step(Step(Step(s, a).0, b).0, c).1
  {
    hide Step;
    TwoSteps(s, a, b);
    OneStep(Step(Step(s, a).0, b).0, c);
    RunConcat(s, [a, b], [c]);
    assert [a, b] + [c] == [a, b, c];
  }

  /** Two begin characters open a frame from every state without a pending begin character, also from
      the middle of a truncated frame. */
  lemma FrameOpens(s: Rx, code: byte)
    requires !s.gotBegin && !IsSync(code) && s.max > 0
    ensures Run(s, [BEGIN, BEGIN, code]) == Opened(s, code)
    ensures Frames(s, [BEGIN, BEGIN, code]) == []
    ensures InBody(Opened(s, code), code) && Opened(s, code).buf == [] && Opened(s, code).max == s.max
  {
    hide Update, Divide, Bits, Run, Frames;
    ThreeSteps(s, BEGIN, BEGIN, code);
    CodeCovered(code);
    assert [code] + [] == [code];
  }

  /** Whether the last two bytes of a body are the checksum of the rest. */
  predicate GoodBody(code: byte, body: seq<byte>)
    requires |body| >= 2
  {
    CrcBytes(code, body[..|body| - 2]) == body[|body| - 2..]
  }

  function Outcome(code: byte, body: seq<byte>): seq<Delivery>
    requires |body| >= 2
  {
    if GoodBody(code, body) then [Delivery(code, body[..|body| - 2])] else []
  }

  /** How the counters read after a frame with this body. */
  function Counted(stats: Stats, code: byte, body: seq<byte>): Stats
    requires |body| >= 2
  {
    if GoodBody(code, body) then stats.(goodFrames := stats.goodFrames + 1)
    else stats.(invCrc := stats.invCrc + 1)
  }

  lemma FrameCloses(s: Rx, code: byte)
    requires InBody(s, code) && |s.buf| >= 3
    ensures Frames(s, [END]) == []
    ensures Frames(s, [END, END]) == Outcome(code, s.buf)
    ensures Run(s, [END, END]) == Reset(s).(stats := Counted(s.stats, code, s.buf))
  {
    hide Update, Divide, Bits, Run, Frames, RegisterBytes;
    OneStep(s, END);
    TwoSteps(s, END, END);
    assert Covered(s) == [code] + s.buf[..|s.buf| - 2];
    assert CrcBytes(code, s.buf[..|s.buf| - 2]) == RegisterBytes(Finalize(s.crc));
  }

  lemma ResetForgets(s: Rx, u: Rx, stats: Stats)
    requires u.max == s.max
    ensures Reset(u).(stats := stats) == Reset(s).(stats := stats)
  {
  }

  lemma FrameBuffered(s: Rx, code: byte, body: seq<byte>)
    requires !s.gotBegin && !IsSync(code) && 3 <= |body| <= s.max
    ensures var wire := [BEGIN, BEGIN, code] + Stuff(body);
            && Frames(s, wire) == []
            && Buffered(Opened(s, code), Run(s, wire), code, body)
            && Run(s, wire).max == s.max && Run(s, wire).buf == body
  {
    hide Inv, Run, Frames, Reset, Opened;
    FrameOpens(s, code);
    var t := Opened(s, code);
    BodyBuffered(t, code, body);
    RunConcat(s, [BEGIN, BEGIN, code], Stuff(body));
    assert t.buf + body == body;
  }

  /** What one whole frame does to a receiver without a pending begin character: the frame is handed
      over, on its very last byte, if and only if its body ends in the right checksum. */
  lemma FrameOutcome(s: Rx, code: byte, body: seq<byte>)
    requires !s.gotBegin && !IsSync(code) && 3 <= |body| <= s.max
    ensures var wire := Frame(code, body);
            && Frames(s, wire[..|wire| - 1]) == []
            && Frames(s, wire) == Outcome(code, body)
            && Run(s, wire) == Reset(s).(stats := Counted(Opened(s, code).stats, code, body))
  {
    hide Inv, Run, Frames, Reset, Counted, Outcome, Opened, Stuff;
    var wire := Frame(code, body);
    var front := [BEGIN, BEGIN, code] + Stuff(body);
    FrameBuffered(s, code, body);
    var u := Run(s, front);
    FrameCloses(u, code);
    RunConcat(s, front, [END]);
    RunConcat(s, front, [END, END]);
    assert wire == front + [END, END];
    assert wire[..|wire| - 1] == front + [END];
    ResetForgets(s, u, Counted(u.stats, code, body));
  }

  // ------------------------------------------------------------------ composed frames

  /** The receiver undoes the composer: from every state without a pending begin character, exactly
      the last byte of a composed frame hands over the code and payload that were composed. */
  lemma RoundTrip(s: Rx, code: byte, payload: seq<byte>)
    requires !s.gotBegin && !IsSync(code) && 1 <= |payload| <= s.max - 2
    ensures var wire := Composed(code, payload);
            && Frames(s, wire[..|wire| - 1]) == []
            && Frames(s, wire) == [Delivery(code, payload)]
            && !Run(s, wire).gotBegin && !Run(s, wire).started && Run(s, wire).max == s.max
  {
    hide Run, Frames, CrcBytes, Frame, Opened;
    var body := payload + CrcBytes(code, payload);
    FrameOutcome(s, code, body);
    assert body[..|body| - 2] == payload && body[|body| - 2..] == CrcBytes(code, payload);
  }

  lemma {:induction false} StuffConcat(a: seq<byte>, b: seq<byte>)
    ensures Stuff(a + b) == Stuff(a) + Stuff(b)
    decreases |a|
  {
    if a == [] {
      assert a + b == b;
    } else {
      assert (a + b)[1..] == a[1..] + b;
      StuffConcat(a[1..], b);
    }
  }

  // ------------------------------------------------------------------ a begin character pending

  /** The opening of a frame seen by a receiver that already holds one begin character: the second
      one of the frame is left pending behind the code. */
  lemma PendingOpens(s: Rx, code: byte)
    requires s.gotBegin && !IsSync(code) && s.max > 0
    ensures Run(s, [BEGIN, BEGIN, code]) == Opened(s, code).(gotBegin := true)
    ensures Frames(s, [BEGIN, BEGIN, code]) == []
    ensures Inv(Opened(s, code).(gotBegin := true))
  {
    hide Update, Divide, Bits, Run, Frames;
    ThreeSteps(s, BEGIN, BEGIN, code);
    CodeCovered(code);
    assert [code] + [] == [code];
  }

  /** What the pending begin character makes of the first payload byte `b`: the code and the first
      byte the receiver believes in. */
  function Misread(code: byte, b: byte): (byte, seq<byte>) {
    if b == END then (code, [END])
    else if b == BEGIN then (0, [])
    else (code, [BEGIN])
  }

  lemma PendingFirstByte(s: Rx, code: byte, b: byte)
    requires Inv(s) && s.started && s.gotCode && s.code == code && s.gotBegin && !s.gotEnd && s.buf == [] && s.max > 0
    ensures var t := Run(s, StuffOne(b));
            && Frames(s, StuffOne(b)) == []
            && InBody(t, Misread(code, b).0) && t.buf == Misread(code, b).1 && t.max == s.max
  {
    hide Update, Divide, Bits, Run, Frames;
    if IsSync(b) {
      TwoSteps(s, b, 0);
      StepInv(s, b);
      StepInv(Step(s, b).0, 0);
    } else {
      OneStep(s, b);
      StepInv(s, b);
    }
  }

  /** The body the receiver ends up with when it started with a begin character pending. */
  lemma PendingBuffered(s: Rx, code: byte, body: seq<byte>)
    requires s.gotBegin && !IsSync(code) && 3 <= |body| <= s.max
    ensures var wire := [BEGIN, BEGIN, code] + Stuff(body);
            var (code', first) := Misread(code, body[0]);
            && Frames(s, wire) == []
            && InBody(Run(s, wire), code')
            && Run(s, wire).buf == first + body[1..]
  {
    hide Inv, Run, Frames;
    var open := [BEGIN, BEGIN, code];
    PendingOpens(s, code);
    var t := Run(s, open);
    PendingFirstByte(t, code, body[0]);
    var u := Run(t, StuffOne(body[0]));
    BodyBuffered(u, Misread(code, body[0]).0, body[1..]);
    RunConcat(t, StuffOne(body[0]), Stuff(body[1..]));
    RunConcat(s, open, StuffOne(body[0]) + Stuff(body[1..]));
    assert Stuff(body) == StuffOne(body[0]) + Stuff(body[1..]);
  }

  lemma ShortFrameCloses(s: Rx, code: byte)
    requires InBody(s, code) && |s.buf| < 3
    ensures Frames(s, [END, END]) == []
  {
    hide Update, Divide, Bits, Run, Frames, RegisterBytes;
    TwoSteps(s, END, END);
  }

  /** Replacing the first payload byte alone changes the checksum. */
  lemma FirstByteMatters(code: byte, payload: seq<byte>, b: byte)
    requires |payload| > 0 && payload[0] != b
    ensures CrcBytes(code, payload) != CrcBytes(code, [b] + payload[1..])
  {
    hide RegisterBytes, Checksum, ByteBits;
    var s, t := [code] + payload, [code] + ([b] + payload[1..]);
    assert s == [code] + ([payload[0]] + payload[1..]);
    BitsOfThree(code, payload[0], payload[1..]);
    BitsOfThree(code, b, payload[1..]);
    assert s[1] != t[1];
    BurstDetected(s, t, 8);
    if CrcBytes(code, payload) == CrcBytes(code, [b] + payload[1..]) {
      RegisterBytesInjective(Checksum(s), Checksum(t));
    }
  }

  lemma BitsOfThree(a: byte, b: byte, rest: seq<byte>)
    ensures Bits([a] + ([b] + rest)) == ByteBits(a) + ByteBits(b) + Bits(rest)
  {
    hide ByteBits;
    assert ([a] + ([b] + rest))[1..] == [b] + rest && ([b] + rest)[1..] == rest;
  }

  lemma PendingDelivery(s: Rx, code: byte, payload: seq<byte>)
    requires s.gotBegin && !IsSync(code) && 1 <= |payload| <= s.max - 2
    ensures Frames(s, Composed(code, payload)) == [Delivery(code, payload)] <==> payload[0] == END
    ensures !IsSync(payload[0]) ==> Frames(s, Composed(code, payload)) == []
  {
    hide Inv, Run, Frames, CrcBytes, Stuff;
    var body := payload + CrcBytes(code, payload);
    var front := [BEGIN, BEGIN, code] + Stuff(body);
    PendingBuffered(s, code, body);
    var t := Run(s, front);
    var (code', first) := Misread(code, payload[0]);
    RunConcat(s, front, [END, END]);
    if |t.buf| < 3 {
      ShortFrameCloses(t, code');
    } else {
      FrameCloses(t, code');
      assert t.buf[..|t.buf| - 2] == first + payload[1..];
      assert t.buf[|t.buf| - 2..] == CrcBytes(code, payload);
      if payload[0] == END {
        assert first + payload[1..] == payload;
      } else if payload[0] != BEGIN {
        FirstByteMatters(code, payload, BEGIN);
      } else {
        assert |first + payload[1..]| < |payload|;
        assert Delivery(code', first + payload[1..]).payload != payload;
        assert Outcome(code', t.buf) != [Delivery(code, payload)];
      }
    }
  }

  /** A composed frame comes through if and only if the receiver has no begin character pending, or
      the payload happens to start with the end character. */
  lemma RoundTripExactly(s: Rx, code: byte, payload: seq<byte>)
    requires !IsSync(code) && 1 <= |payload| <= s.max - 2
    ensures Frames(s, Composed(code, payload)) == [Delivery(code, payload)]
       <==> (!s.gotBegin || payload[0] == END)
  {
    hide Run, Frames, Composed;
    if s.gotBegin {
      PendingDelivery(s, code, payload);
    } else {
      RoundTrip(s, code, payload);
    }
  }

  // ------------------------------------------------------------------ streams and chunks

  lemma {:induction false} NoiseIgnored(s: Rx, noise: seq<byte>)
    requires !s.gotBegin && !s.started && BEGIN !in noise
    ensures Frames(s, noise) == []
    ensures var t := Run(s, noise); !t.gotBegin && !t.started && t.max == s.max
    decreases |noise|
  {
    if noise != [] {
      var t := Step(s, noise[0]).0;
      assert !t.gotBegin && !t.started && t.max == s.max && Step(s, noise[0]).1 == [] by {
        assert noise[0] in noise;
      }
      hide Step;
      NoiseIgnored(t, noise[1..]);
    }
  }

  /** A frame on the line with the noise in front of it. */
  datatype Item = Item(noise: seq<byte>, code: byte, payload: seq<byte>)

  ghost predicate Sendable(item: Item, max: nat) {
    BEGIN !in item.noise && !IsSync(item.code) && 1 <= |item.payload| <= max - 2
  }

  function Line(items: seq<Item>): seq<byte> {
    if items == [] then []
    else (items[0].noise + Composed(items[0].code, items[0].payload)) + Line(items[1..])
  }

  function Deliveries(items: seq<Item>): seq<Delivery> {
    if items == [] then [] else [Delivery(items[0].code, items[0].payload)] + Deliveries(items[1..])
  }

  lemma ItemDelivered(s: Rx, item: Item)
    requires !s.gotBegin && !s.started && Sendable(item, s.max)
    ensures var wire := item.noise + Composed(item.code, item.payload);
            && Frames(s, wire) == [Delivery(item.code, item.payload)]
            && !Run(s, wire).gotBegin && !Run(s, wire).started && Run(s, wire).max == s.max
  {
    hide Run, Frames, Composed;
    NoiseIgnored(s, item.noise);
    RoundTrip(Run(s, item.noise), item.code, item.payload);
    RunConcat(s, item.noise, Composed(item.code, item.payload));
  }

  /** Composed frames separated by noise without begin characters arrive exactly and in order. */
  lemma {:induction false} StreamDelivered(s: Rx, items: seq<Item>)
    requires !s.gotBegin && !s.started
    requires forall i :: 0 <= i < |items| ==> Sendable(items[i], s.max)
    ensures Frames(s, Line(items)) == Deliveries(items)
    decreases |items|
  {
    hide Run, Composed, Step, Sendable;
    if items != [] {
      hide Frames;
      var wire := items[0].noise + Composed(items[0].code, items[0].payload);
      ItemDelivered(s, items[0]);
      StreamDelivered(Run(s, wire), items[1..]);
      RunConcat(s, wire, Line(items[1..]));
    }
  }

  /** The receiver and the frames handed over when the stream arrives in the given reads. */
  function RunChunks(s: Rx, chunks: seq<seq<byte>>): (Rx, seq<Delivery>)
    decreases |chunks|
  {
    if chunks == [] then (s, [])
    else
      var (t, frames) := RunChunks(Run(s, chunks[0]), chunks[1..]);
      (t, Frames(s, chunks[0]) + frames)
  }

  /** However a stream is cut into reads, the receiver ends in the same state with the same counters
      and has handed over the same frames. */
  lemma {:induction false} ChunkingIrrelevant(s: Rx, chunks: seq<seq<byte>>)
    ensures RunChunks(s, chunks) == (Run(s, Flatten(chunks)), Frames(s, Flatten(chunks)))
    decreases |chunks|
  {
    if chunks != [] {
      RunConcat(s, chunks[0], Flatten(chunks[1..]));
      hide Run, Frames;
      ChunkingIrrelevant(Run(s, chunks[0]), chunks[1..]);
    }
  }
}
