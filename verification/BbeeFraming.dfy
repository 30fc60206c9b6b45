/** The byte-stuffed frames of bbee_framing.c and the receive loop around them in sdtl.c.

    A frame is B B code, the payload and its two checksum bytes with a zero byte stuffed after every
    B or E, and E E. `RxByte` is what the receiver does with one byte; the classes in
    BbeeReceiver.dfy are proved to compute it.

    The receiver can be stopped and resumed between any two bytes. Its state between bytes keeps one
    invariant on arbitrary input: once the code is known, the running checksum is that of the code
    and of all but the last two buffered bytes, which may turn out to be the checksum themselves. */
module BbeeFraming {

  import opened Bytes
  import opened Crc16

  const BEGIN: byte := 66
  const END: byte := 69

  datatype FrameRv = FrmOk | InvCrc | GotFrame | BufOverflow | GotEmptyFrame | SmallBuf | InvCode

  predicate IsSync(b: byte) {
    b == BEGIN || b == END
  }

  // ------------------------------------------------------------------ the composer

  function Stuff(bytes: seq<byte>): (wire: seq<byte>)
    ensures |bytes| <= |wire| <= 2 * |bytes|
  {
    if bytes == [] then []
    else (if IsSync(bytes[0]) then [bytes[0], 0] else [bytes[0]]) + Stuff(bytes[1..])
  }

  function CrcBytes(code: byte, payload: seq<byte>): (bytes: seq<byte>)
    ensures |bytes| == 2
  {
    RegisterBytes(Checksum([code] + payload))
  }

  /** A frame around an arbitrary body; the body of a good frame ends in its checksum. */
  function Frame(code: byte, body: seq<byte>): seq<byte> {
    [BEGIN, BEGIN, code] + Stuff(body) + [END, END]
  }

  /** The bytes the composer puts on the wire. */
  function Composed(code: byte, payload: seq<byte>): seq<byte> {
    Frame(code, payload + CrcBytes(code, payload))
  }

  // ------------------------------------------------------------------ the receiver

  datatype Stats = Stats(goodFrames: nat, bufOverflow: nat, invCrc: nat, gotEmptyFrame: nat,
                         frameRestart: nat, nonFramedBytes: nat)

  /** The receiver: `buf` is the part of the payload buffer in front of its write pointer. */
  datatype Rx = Rx(max: nat, buf: seq<byte>, code: byte, crc: Register,
                   gotBegin: bool, gotEnd: bool, gotCode: bool, started: bool, stats: Stats)

  datatype Delivery = Delivery(code: byte, payload: seq<byte>)

  function Reset(s: Rx): Rx {
    s.(buf := [], code := 0, crc := INIT, gotBegin := false, gotEnd := false, gotCode := false, started := false)
  }

  function InitState(max: nat): Rx {
    Rx(max, [], 0, INIT, false, false, false, false, Stats(0, 0, 0, 0, 0, 0))
  }

  function RxBegin(s: Rx): Rx {
    if s.gotBegin then
      var counted := if s.started then s.(stats := s.stats.(frameRestart := s.stats.frameRestart + 1)) else s;
      Reset(counted).(started := true)
    else
      s.(gotBegin := true)
  }

  function RxEnd(s: Rx): (Rx, FrameRv) {
    if !s.gotEnd then (s.(gotEnd := true), FrmOk)
    else if !s.started then (s, FrmOk)
    else if |s.buf| >= 3 then
      var cut := |s.buf| - 2;
      var crc := Finalize(s.crc);
      (s.(buf := s.buf[..cut], crc := crc, started := false),
       if RegisterBytes(crc) == s.buf[cut..] then GotFrame else InvCrc)
    else (s, GotEmptyFrame)
  }

  /** The checksum runs over every buffered byte but the last two, which may be the frame's own. */
  function CrcTrails(s: Rx): Rx {
    if |s.buf| > 2 then s.(crc := Update(s.crc, s.buf[|s.buf| - 3])) else s
  }

  function RxOther(s: Rx, b: byte): (Rx, FrameRv) {
    if !s.started then (s.(stats := s.stats.(nonFramedBytes := s.stats.nonFramedBytes + 1)), FrmOk)
    else if |s.buf| >= s.max then (s, BufOverflow)
    else
      var t :=
        if !s.gotCode then s.(code := b, gotCode := true, crc := Update(s.crc, b))
        else if s.gotEnd then s.(buf := s.buf + [END], gotEnd := false, gotBegin := false)
        else if s.gotBegin then s.(buf := s.buf + [BEGIN], gotBegin := false)
        else s.(buf := s.buf + [b]);
      (CrcTrails(t), FrmOk)
  }

  /** One turn of the loop of bbee_frm_rx_iteration. */
  function RxByte(s: Rx, b: byte): (Rx, FrameRv) {
    if b == BEGIN then (RxBegin(s), FrmOk)
    else if b == END then RxEnd(s)
    else RxOther(s, b)
  }

  /** What bbee_frm_process_rx_buf does with the outcome of an iteration. */
  function Settle(s: Rx, rv: FrameRv): Rx {
    match rv
    case BufOverflow => Reset(s.(stats := s.stats.(bufOverflow := s.stats.bufOverflow + 1)))
    case InvCrc => Reset(s.(stats := s.stats.(invCrc := s.stats.invCrc + 1)))
    case GotEmptyFrame => Reset(s.(stats := s.stats.(gotEmptyFrame := s.stats.gotEmptyFrame + 1)))
    case GotFrame => Reset(s.(stats := s.stats.(goodFrames := s.stats.goodFrames + 1)))
    case _ => s
  }

  function Delivered(s: Rx, rv: FrameRv): seq<Delivery> {
    if rv == GotFrame then [Delivery(s.code, s.buf)] else []
  }

  /** One byte of the stream: the new receiver and the frame handed to the handler, if any. */
  function Step(s: Rx, b: byte): (Rx, seq<Delivery>) {
    var (t, rv) := RxByte(s, b);
    (Settle(t, rv), Delivered(t, rv))
  }

  /** The receiver after a stream, taken byte by byte. */
  function Run(s: Rx, bytes: seq<byte>): Rx
    decreases |bytes|
  {
    if bytes == [] then s else Run(Step(s, bytes[0]).0, bytes[1..])
  }

  /** The frames handed to the handler during a stream. */
  function Frames(s: Rx, bytes: seq<byte>): seq<Delivery>
    decreases |bytes|
  {
    if bytes == [] then [] else Step(s, bytes[0]).1 + Frames(Step(s, bytes[0]).0, bytes[1..])
  }

  lemma {:induction false} RunConcat(s: Rx, a: seq<byte>, b: seq<byte>)
    ensures Run(s, a + b) == Run(Run(s, a), b)
    ensures Frames(s, a + b) == Frames(s, a) + Frames(Run(s, a), b)
    decreases |a|
  {
    if a == [] {
      assert a + b == b;
    } else {
      assert (a + b)[1..] == a[1..] + b;
      RunConcat(Step(s, a[0]).0, a[1..], b);
    }
  }

  // ------------------------------------------------------------------ soundness on arbitrary bytes

  /** The bytes the running checksum covers. */
  function Covered(s: Rx): seq<byte> {
    [s.code] + if |s.buf| > 2 then s.buf[..|s.buf| - 2] else []
  }

  /** What holds between bytes, whatever has been received. */
  ghost predicate Inv(s: Rx) {
    && |s.buf| <= s.max
    && (s.gotCode ==> s.started && s.crc == Divide(INIT, Bits(Covered(s))))
    && (!s.gotCode ==> s.buf == [] && s.crc == INIT)
  }

  lemma CodeCovered(code: byte)
    ensures Divide(INIT, Bits([code])) == Update(INIT, code)
  {
    UpdateSnoc(INIT, [], code);
    assert [] + [code] == [code];
  }

  lemma AppendInv(s: Rx, b: byte)
    requires Inv(s) && s.gotCode && |s.buf| < s.max
    ensures Inv(CrcTrails(s.(buf := s.buf + [b])))
  {
    hide Divide, Update, Bits;
    var t := s.(buf := s.buf + [b]);
    if |t.buf| > 2 {
      assert Covered(t) == Covered(s) + [t.buf[|t.buf| - 3]];
      UpdateSnoc(INIT, Covered(s), t.buf[|t.buf| - 3]);
    }
  }

  lemma StepInv(s: Rx, b: byte)
    requires Inv(s)
    ensures Inv(Step(s, b).0) && Step(s, b).0.max == s.max
  {
    hide Divide, Update, Bits, Finalize, RegisterBytes;
    if s.started && |s.buf| < s.max && !IsSync(b) {
      if !s.gotCode {
        CodeCovered(b);
        assert [b] + [] == [b];
      } else {
        var flagged := s.(gotBegin := false, gotEnd := false);
        AppendInv(flagged, if s.gotEnd then END else if s.gotBegin then BEGIN else b);
      }
    }
  }

  /** In every run from the initial state the running checksum is that of the code and all but the
      last two buffered bytes, and the buffer stays within its size. */
  lemma {:induction false} RunInv(s: Rx, bytes: seq<byte>)
    requires Inv(s)
    ensures Inv(Run(s, bytes)) && Run(s, bytes).max == s.max
    decreases |bytes|
  {
    if bytes != [] {
      StepInv(s, bytes[0]);
      RunInv(Step(s, bytes[0]).0, bytes[1..]);
    }
  }

  /** A frame is handed over only if the two bytes received after its payload are the checksum of
      the code and payload handed over. */
  lemma DeliveryChecked(max: nat, bytes: seq<byte>, b: byte)
    ensures var s := Run(InitState(max), bytes);
            forall d :: d in Step(s, b).1 ==>
              1 <= |d.payload| <= max - 2 && s.buf == d.payload + CrcBytes(d.code, d.payload)
  {
    hide Divide, Update, Bits, RegisterBytes, Run;
    var s := Run(InitState(max), bytes);
    RunInv(InitState(max), bytes);
    if |s.buf| >= 3 {
      var payload := s.buf[..|s.buf| - 2];
      assert s.buf == payload + s.buf[|s.buf| - 2..];
      assert Covered(s) == [s.code] + payload;
      assert s.gotCode;
      assert CrcBytes(s.code, payload) == RegisterBytes(Finalize(s.crc));
    }
  }
}
