/** The loops and the in-place state of bbee_framing.c and of bbee_frm_process_rx_buf in sdtl.c, proved
    to compute the functions of BbeeFraming.dfy.

    The composer writes through an index into a caller's array and reports the bytes used; its loops
    over the pieces of a message are proved piece by piece and put together in ComposeFrame. The
    receiver is a class over the payload buffer it was given: the pointer into the buffer is the number
    of bytes held, and `View` is the state machine's state. One iteration consumes bytes up to the first
    event, and the outer loop over a read settles each event before it goes on. */
module BbeeReceiver {

  import opened Bytes
  import opened Sequences
  import opened Crc16
  import opened BbeeFraming
  import opened BbeeRoundTrip

  // ------------------------------------------------------------------ the composer

  /** Appending one body byte to the frame adds its stuffed form. */
  lemma StuffSnoc(a: seq<byte>, b: byte)
    ensures Stuff(a + [b]) == Stuff(a) + StuffOne(b)
  {
    StuffConcat(a, [b]);
    assert Stuff([b]) == StuffOne(b) + Stuff([]);
  }

  method PayloadSize(iovec: seq<seq<byte>>) returns (size: nat)
    ensures size == |Flatten(iovec)|
  {
    size := 0;
    for i := 0 to |iovec|
      invariant size == |Flatten(iovec[..i])|
    {
      FlattenNext(iovec, i);
      size := size + |iovec[i]|;
    }
    assert iovec[..|iovec|] == iovec;
  }

  /** Writes one stuffed byte at the moving pointer. */
  method PutStuffed(frameBuf: array<byte>, fb0: nat, b: byte) returns (fb: nat)
    requires fb0 + 2 <= frameBuf.Length
    modifies frameBuf
    ensures fb == fb0 + |StuffOne(b)|
    ensures frameBuf[..fb] == old(frameBuf[..fb0]) + StuffOne(b) && frameBuf[fb..] == old(frameBuf[fb..])
  {
    fb := fb0;
    frameBuf[fb] := b;
    if IsSync(b) {
      fb := fb + 1;
      frameBuf[fb] := 0;
    }
    fb := fb + 1;
  }

  /** The inner loop of the composer: one buffer of the vector, stuffed and added to the checksum. */
  method PutBytes(frameBuf: array<byte>, fb0: nat, crc0: Register, bytes: seq<byte>) returns (fb: nat, crc: Register)
    requires fb0 + 2 * |bytes| <= frameBuf.Length
    modifies frameBuf
    ensures fb0 <= fb <= fb0 + 2 * |bytes|
    ensures frameBuf[..fb] == old(frameBuf[..fb0]) + Stuff(bytes) && frameBuf[fb..] == old(frameBuf[fb..])
    ensures crc == Divide(crc0, Bits(bytes))
  {
    hide Update, Divide, Bits, Stuff;
    fb, crc := fb0, crc0;
    NothingPut(crc0);
    for j := 0 to |bytes|
      invariant fb0 <= fb <= fb0 + 2 * j
      invariant frameBuf[..fb] == old(frameBuf[..fb0]) + Stuff(bytes[..j]) && frameBuf[fb..] == old(frameBuf[fb..])
      invariant crc == Divide(crc0, Bits(bytes[..j]))
    {
      UpdateSnoc(crc0, bytes[..j], bytes[j]);
      StuffSnoc(bytes[..j], bytes[j]);
      assert bytes[..j + 1] == bytes[..j] + [bytes[j]];
      crc := Crc16CcittUpdate(crc, bytes[j]);
      ghost var was, fb1 := frameBuf[..], fb;
      fb := PutStuffed(frameBuf, fb, bytes[j]);
      assert was[fb..] == was[fb1..][fb - fb1..];
    }
    assert bytes[..|bytes|] == bytes;
  }

  lemma NothingPut(crc: Register)
    ensures Stuff([]) == [] && Divide(crc, Bits([])) == crc
  {
  }

  lemma PutMore(crc: Register, a: seq<byte>, b: seq<byte>)
    ensures Stuff(a + b) == Stuff(a) + Stuff(b)
    ensures Divide(Divide(crc, Bits(a)), Bits(b)) == Divide(crc, Bits(a + b))
  {
    StuffConcat(a, b);
    BitsConcat(a, b);
    DivideConcat(crc, Bits(a), Bits(b));
  }

  /** The outer loop of the composer: all the buffers of the vector. */
  method PutVector(frameBuf: array<byte>, fb0: nat, crc0: Register, iovec: seq<seq<byte>>)
    returns (fb: nat, crc: Register)
    requires fb0 + 2 * |Flatten(iovec)| <= frameBuf.Length
    modifies frameBuf
    ensures fb0 <= fb <= fb0 + 2 * |Flatten(iovec)|
    ensures frameBuf[..fb] == old(frameBuf[..fb0]) + Stuff(Flatten(iovec)) && frameBuf[fb..] == old(frameBuf[fb..])
    ensures crc == Divide(crc0, Bits(Flatten(iovec)))
  {
    hide Update, Divide, Bits, Stuff;
    fb, crc := fb0, crc0;
    NothingPut(crc0);
    for i := 0 to |iovec|
      invariant |Flatten(iovec[..i])| <= |Flatten(iovec)|
      invariant fb0 <= fb <= fb0 + 2 * |Flatten(iovec[..i])|
      invariant frameBuf[..fb] == old(frameBuf[..fb0]) + Stuff(Flatten(iovec[..i]))
      invariant frameBuf[fb..] == old(frameBuf[fb..])
      invariant crc == Divide(crc0, Bits(Flatten(iovec[..i])))
    {
      FlattenNext(iovec, i);
      FlattenPrefix(iovec, i + 1);
      PutMore(crc0, Flatten(iovec[..i]), iovec[i]);
      fb, crc := PutBytes(frameBuf, fb, crc, iovec[i]);
    }
    assert iovec[..|iovec|] == iovec;
  }

  /** The loop over the two bytes of the finalized checksum. */
  method PutCrc(frameBuf: array<byte>, fb0: nat, pcrc: seq<byte>) returns (fb: nat)
    requires |pcrc| == 2 && fb0 + 4 <= frameBuf.Length
    modifies frameBuf
    ensures fb0 <= fb <= fb0 + 4
    ensures frameBuf[..fb] == old(frameBuf[..fb0]) + Stuff(pcrc) && frameBuf[fb..] == old(frameBuf[fb..])
  {
    fb := fb0;
    for i := 0 to 2
      invariant fb0 <= fb <= fb0 + 2 * i
      invariant frameBuf[..fb] == old(frameBuf[..fb0]) + Stuff(pcrc[..i]) && frameBuf[fb..] == old(frameBuf[fb..])
    {
      StuffSnoc(pcrc[..i], pcrc[i]);
      assert pcrc[..i + 1] == pcrc[..i] + [pcrc[i]];
      fb := PutStuffed(frameBuf, fb, pcrc[i]);
    }
    assert pcrc[..2] == pcrc;
  }

  /** What the composer writes between the opening and the end: the payload with its checksum. */
  method PutBody(frameBuf: array<byte>, fb0: nat, code: byte, iovec: seq<seq<byte>>) returns (fb: nat)
    requires fb0 + 2 * |Flatten(iovec)| + 4 <= frameBuf.Length
    modifies frameBuf
    ensures var payload := Flatten(iovec);
            && fb0 <= fb <= fb0 + 2 * |payload| + 4
            && frameBuf[..fb] == old(frameBuf[..fb0]) + Stuff(payload + CrcBytes(code, payload))
            && frameBuf[fb..] == old(frameBuf[fb..])
  {
    hide Update, Divide, Bits, Stuff, RegisterBytes, Flatten;
    ghost var payload, was := Flatten(iovec), frameBuf[..];
    var crc := Crc16CcittUpdate(INIT, code);
    fb, crc := PutVector(frameBuf, fb0, crc, iovec);
    assert crc == Divide(INIT, Bits([code] + payload)) by {
      CodeCovered(code);
      PutMore(INIT, [code], payload);
    }
    crc := Crc16CcittFinalize(crc);
    ghost var fb1, between := fb, frameBuf[..];
    fb := PutCrc(frameBuf, fb, RegisterBytes(crc));
    Behind(was, between, frameBuf[..], fb1, fb);
    StuffConcat(payload, RegisterBytes(crc));
  }

  lemma Behind(a: seq<byte>, b: seq<byte>, c: seq<byte>, j: nat, k: nat)
    requires |a| == |b| == |c| && j <= k <= |a| && a[j..] == b[j..] && b[k..] == c[k..]
    ensures a[k..] == c[k..]
  {
    assert a[k..] == a[j..][k - j..] && b[k..] == b[j..][k - j..];
  }

  /** bbee_frm_compose4tx_v: refuses exactly the buffers below the worst case and the sync codes, and
      otherwise writes the frame. */
  method ComposeFrame(code: byte, iovec: seq<seq<byte>>, frameBuf: array<byte>)
    returns (rv: FrameRv, frameSize: nat)
    modifies frameBuf
    ensures var payload := Flatten(iovec);
            if frameBuf.Length < 2 * |payload| + 9 then
              rv == SmallBuf && frameBuf[..] == old(frameBuf[..])
            else if IsSync(code) then
              rv == InvCode && frameBuf[..] == old(frameBuf[..])
            else
              && rv == FrmOk && frameSize <= 2 * |payload| + 9 && frameBuf[..frameSize] == Composed(code, payload)
              && frameBuf[frameSize..] == old(frameBuf[frameSize..])
  {
    hide CrcBytes, Stuff, Flatten;
    frameSize := 0;
    var payloadSize := PayloadSize(iovec);
    if frameBuf.Length < 2 * payloadSize + 4 + 2 + 2 + 1 {
      return SmallBuf, 0;
    }
    if IsSync(code) {
      return InvCode, 0;
    }
    frameBuf[0], frameBuf[1], frameBuf[2] := BEGIN, BEGIN, code;
    assert frameBuf[..3] == [BEGIN, BEGIN, code];
    var fb := PutBody(frameBuf, 3, code, iovec);
    frameBuf[fb], frameBuf[fb + 1] := END, END;
    frameSize := fb + 2;
    assert frameBuf[..frameSize] == frameBuf[..fb] + [END, END];
    rv := FrmOk;
  }

  // ------------------------------------------------------------------ the receiver

  /** The outcome of one call of bbee_frm_rx_iteration: it stops at the first byte that is not
      uneventful. */
  function Iterate(s: Rx, bytes: seq<byte>): (r: (Rx, FrameRv, nat))
    requires bytes != []
    ensures 1 <= r.2 <= |bytes|
    decreases |bytes|
  {
    var (t, rv) := RxByte(s, bytes[0]);
    if rv != FrmOk || |bytes| == 1 then (t, rv, 1)
    else
      var (u, last, n) := Iterate(t, bytes[1..]);
      (u, last, n + 1)
  }

  /** An iteration, settled, is a run over the bytes it processed. */
  lemma {:induction false} IterateIsRun(s: Rx, bytes: seq<byte>)
    requires bytes != []
    ensures var (u, rv, n) := Iterate(s, bytes);
            Run(s, bytes[..n]) == Settle(u, rv) && Frames(s, bytes[..n]) == Delivered(u, rv)
    decreases |bytes|
  {
    hide RxByte, Settle, Delivered;
    var (t, rv) := RxByte(s, bytes[0]);
    OneStep(s, bytes[0]);
    if rv != FrmOk || |bytes| == 1 {
      assert bytes[..1] == [bytes[0]];
    } else {
      Uneventful(t);
      var n := Iterate(t, bytes[1..]).2;
      IterateIsRun(t, bytes[1..]);
      assert bytes[..n + 1] == [bytes[0]] + bytes[1..][..n];
      RunConcat(s, [bytes[0]], bytes[1..][..n]);
    }
  }

  lemma Uneventful(s: Rx)
    ensures Settle(s, FrmOk) == s && Delivered(s, FrmOk) == []
  {
  }

  class RxState {
    const payloadBuffer: array<byte>
    var ptr: nat
    var currentPayloadSize: nat
    var currentCommandCode: byte
    var crc: Register
    var gotBeginChar: bool
    var gotEndChar: bool
    var gotCommandCode: bool
    var payloadStarted: bool
    var stats: Stats
    var statProcessings: nat

    ghost predicate Valid()
      reads this, payloadBuffer
    {
      ptr <= payloadBuffer.Length
    }

    ghost function View(): Rx
      requires Valid()
      reads this, payloadBuffer
    {
      Rx(payloadBuffer.Length, payloadBuffer[..ptr], currentCommandCode, crc,
         gotBeginChar, gotEndChar, gotCommandCode, payloadStarted, stats)
    }

    constructor (buffer: array<byte>)
      ensures Valid() && payloadBuffer == buffer && statProcessings == 0
      ensures View() == InitState(buffer.Length)
    {
      payloadBuffer := buffer;
      ptr, currentPayloadSize := 0, 0;
      currentCommandCode, crc := 0, INIT;
      gotBeginChar, gotEndChar, gotCommandCode, payloadStarted := false, false, false, false;
      stats := Stats(0, 0, 0, 0, 0, 0);
      statProcessings := 0;
    }

    method ResetState()
      requires Valid()
      modifies this
      ensures Valid() && View() == Reset(old(View())) && statProcessings == old(statProcessings)
      ensures currentPayloadSize == 0
    {
      ptr := 0;
      crc := INIT;
      gotBeginChar, gotEndChar, payloadStarted := false, false, false;
      currentPayloadSize := 0;
      currentCommandCode, gotCommandCode := 0, false;
    }

    /** The branch of the loop body for a begin character. */
    method OnBegin()
      requires Valid()
      modifies this
      ensures Valid() && View() == RxBegin(old(View())) && statProcessings == old(statProcessings)
    {
      if gotBeginChar {
        if payloadStarted {
          stats := stats.(frameRestart := stats.frameRestart + 1);
        }
        ResetState();
        payloadStarted := true;
      } else {
        gotBeginChar := true;
      }
    }

    /** The branch for an end character. */
    method OnEnd() returns (rv: FrameRv)
      requires Valid()
      modifies this
      ensures Valid() && (View(), rv) == RxEnd(old(View())) && statProcessings == old(statProcessings)
      ensures rv == GotFrame ==> currentPayloadSize == ptr
    {
      hide RegisterBytes, Finalize;
      rv := FrmOk;
      if gotEndChar {
        if payloadStarted {
          if ptr >= 3 {
            ghost var before := payloadBuffer[..ptr];
            ptr := ptr - 2;
            crc := Crc16CcittFinalize(crc);
            var frameCrc := [payloadBuffer[ptr], payloadBuffer[ptr + 1]];
            assert frameCrc == before[|before| - 2..];
            assert payloadBuffer[..ptr] == before[..|before| - 2];
            payloadStarted := false;
            if RegisterBytes(crc) == frameCrc {
              rv := GotFrame;
            } else {
              rv := InvCrc;
            }
          } else {
            rv := GotEmptyFrame;
          }
          currentPayloadSize := ptr;
        }
      } else {
        gotEndChar := true;
      }
    }

    method Append(b: byte)
      requires Valid() && ptr < payloadBuffer.Length
      modifies this`ptr, payloadBuffer
      ensures Valid() && View() == old(View()).(buf := old(View()).buf + [b])
    {
      payloadBuffer[ptr] := b;
      ptr := ptr + 1;
      assert payloadBuffer[..ptr] == old(payloadBuffer[..ptr]) + [b];
    }

    /** The branch for every other byte. */
    method OnOther(b: byte) returns (rv: FrameRv)
      requires Valid()
      modifies this, payloadBuffer
      ensures Valid() && (View(), rv) == RxOther(old(View()), b) && statProcessings == old(statProcessings)
      ensures rv != GotFrame
    {
      hide Update;
      rv := FrmOk;
      if payloadStarted {
        if ptr < payloadBuffer.Length {
          if !gotCommandCode {
            currentCommandCode := b;
            gotCommandCode := true;
            crc := Crc16CcittUpdate(crc, b);
          } else if gotEndChar {
            Append(END);
            gotEndChar := false;
            gotBeginChar := false;
          } else if gotBeginChar {
            Append(BEGIN);
            gotBeginChar := false;
          } else {
            Append(b);
          }
          if ptr > 2 {
            crc := Crc16CcittUpdate(crc, payloadBuffer[ptr - 3]);
          }
        } else {
          rv := BufOverflow;
        }
      } else {
        stats := stats.(nonFramedBytes := stats.nonFramedBytes + 1);
      }
    }

    /** bbee_frm_rx_iteration. */
    method RxIteration(rxBuf: seq<byte>) returns (rv: FrameRv, processed: nat)
      requires Valid() && rxBuf != []
      modifies this, payloadBuffer
      ensures Valid() && statProcessings == old(statProcessings)
      ensures (View(), rv, processed) == Iterate(old(View()), rxBuf)
      ensures rv == GotFrame ==> currentPayloadSize == ptr
    {
      hide RxBegin, RxEnd, RxOther;
      ghost var whole := Iterate(View(), rxBuf);
      var i := 0;
      rv := FrmOk;
      while true
        invariant i < |rxBuf| && rv == FrmOk && Valid() && statProcessings == old(statProcessings)
        invariant var (u, last, n) := Iterate(View(), rxBuf[i..]); whole == (u, last, i + n)
        decreases |rxBuf| - i
      {
        var b := rxBuf[i];
        assert rxBuf[i..][0] == b && rxBuf[i..][1..] == rxBuf[i + 1..];
        if b == BEGIN {
          OnBegin();
        } else if b == END {
          rv := OnEnd();
        } else {
          rv := OnOther(b);
        }
        i := i + 1;
        if !(i < |rxBuf| && rv == FrmOk) {
          break;
        }
      }
      processed := i;
    }

    /** The switch after an iteration: count, hand over, reset. */
    method SettleIteration(rv: FrameRv) returns (handled: seq<Delivery>)
      requires Valid() && (rv == GotFrame ==> currentPayloadSize == ptr)
      modifies this
      ensures Valid() && statProcessings == old(statProcessings)
      ensures View() == Settle(old(View()), rv) && handled == Delivered(old(View()), rv)
    {
      handled := [];
      match rv {
        case BufOverflow =>
          stats := stats.(bufOverflow := stats.bufOverflow + 1);
          ResetState();
        case InvCrc =>
          stats := stats.(invCrc := stats.invCrc + 1);
          ResetState();
        case GotEmptyFrame =>
          stats := stats.(gotEmptyFrame := stats.gotEmptyFrame + 1);
          ResetState();
        case GotFrame =>
          handled := [Delivery(currentCommandCode, payloadBuffer[..currentPayloadSize])];
          ResetState();
          stats := stats.(goodFrames := stats.goodFrames + 1);
        case _ =>
      }
    }

    /** bbee_frm_process_rx_buf, with the calls of the frame handler returned as a list: one read
        leaves the receiver and its counters as the byte-by-byte run does, and hands over the same
        frames. */
    method ProcessRxBuf(rxBuf: seq<byte>) returns (handled: seq<Delivery>)
      requires Valid() && rxBuf != []
      modifies this, payloadBuffer
      ensures Valid() && statProcessings == old(statProcessings) + 1
      ensures View() == Run(old(View()), rxBuf)
      ensures handled == Frames(old(View()), rxBuf)
    {
      hide Run, Frames, Iterate, RxByte, Settle, Delivered;
      statProcessings := statProcessings + 1;
      handled := [];
      var totalBr := 0;
      ghost var start := View();
      while true
        invariant totalBr < |rxBuf| && Valid() && statProcessings == old(statProcessings) + 1
        invariant Run(start, rxBuf) == Run(View(), rxBuf[totalBr..])
        invariant Frames(start, rxBuf) == handled + Frames(View(), rxBuf[totalBr..])
        decreases |rxBuf| - totalBr
      {
        ghost var before := View();
        ghost var rest := rxBuf[totalBr..];
        var rv, bp := RxIteration(rxBuf[totalBr..]);
        IterateIsRun(before, rest);
        RunConcat(before, rest[..bp], rest[bp..]);
        assert rest == rest[..bp] + rest[bp..] && rest[bp..] == rxBuf[totalBr + bp..];
        var now := SettleIteration(rv);
        handled := handled + now;
        totalBr := totalBr + bp;
        if totalBr >= |rxBuf| {
          break;
        }
      }
      NoBytes(View());
    }
  }

  lemma NoBytes(s: Rx)
    ensures Run(s, []) == s && Frames(s, []) == []
  {
  }
}
