/** The checksum without appended zeros: the usual bit-serial form, started from 0x1D0F. */
module Crc16Direct {

  // The form of crc16-ccitt.c lets every bit of the text run through the whole register and flushes it with
  // sixteen zeros. The usual form compares each bit with the one leaving the register and needs no flush. Both
  // give the same checksum, for the start value 0xFFFF of the first and 0x1D0F of the second.

  import opened Bytes
  import opened Crc16
  import opened CrcMultiples

  function DirectStep(r: Register, bit: bool): Register {
    if r[0] != bit then XorBits(r[1..] + [false], POLY) else r[1..] + [false]
  }

  function Direct(r: Register, bits: seq<bool>): Register
    decreases |bits|
  {
    if bits == [] then r else Direct(DirectStep(r, bits[0]), bits[1..])
  }

  /** 0x1D0F. */
  const START: Register :=
    [false, false, false, true, true, true, false, true, false, false, false, false, true, true, true, true]

  function LastBit(bit: bool): Register {
    Zeros(15) + [bit]
  }

  lemma StepSplit(r: Register, bit: bool)
    ensures DivStep(r, bit) == XorBits(DivStep(r, false), LastBit(bit))
  {
  }

  lemma StepDirect(r: Register, bit: bool)
    ensures DirectStep(r, bit) == XorBits(DivStep(r, false), if bit then POLY else Zeros(16))
  {
  }

  /** A one shifted through the whole register leaves the generator behind. */
  lemma LastBitFlushed(bit: bool)
    ensures Finalize(LastBit(bit)) == if bit then POLY else Zeros(16)
  {
    var top := [bit] + Zeros(15);
    assert Zeros(15) + [false] == Zeros(16) && Zeros(16)[..15] == Zeros(15);
    ShortDividend([bit] + Zeros(15));
    assert Zeros(0) + top == top;
    ShortDividend([bit]);
    assert Zeros(15) + [bit] == LastBit(bit);
    DivideConcat(Zeros(16), [bit], Zeros(15));
    DivideSnoc(LastBit(bit), Zeros(15), false);
    assert DivStep(top, false) == if bit then POLY else Zeros(16);
    hide Divide, DivStep;
  }

  lemma FlushStep(r: Register)
    ensures Finalize(DivStep(r, false)) == DivStep(Finalize(r), false)
  {
    var zeros := Zeros(16);
    assert [false] + zeros == zeros + [false];
    assert ([false] + zeros)[1..] == zeros;
    DivideSnoc(r, zeros, false);
    assert Divide(r, [false] + zeros) == Divide(DivStep(r, false), zeros);
    hide Divide, DivStep;
  }

  lemma FlushLinear(r: Register, q: Register)
    ensures Finalize(XorBits(r, q)) == XorBits(Finalize(r), Finalize(q))
  {
    DivideLinear(r, q, Zeros(16), Zeros(16));
    SelfXor(Zeros(16));
    hide Divide;
  }

  lemma StepsAgree(r: Register, bit: bool)
    ensures Finalize(DivStep(r, bit)) == DirectStep(Finalize(r), bit)
  {
    StepSplit(r, bit);
    FlushLinear(DivStep(r, false), LastBit(bit));
    FlushStep(r);
    LastBitFlushed(bit);
    StepDirect(Finalize(r), bit);
    hide DivStep, DirectStep, Finalize, LastBit;
  }

  lemma {:induction false} FormsAgree(r: Register, bits: seq<bool>)
    ensures Finalize(Divide(r, bits)) == Direct(Finalize(r), bits)
    decreases |bits|
  {
    hide DivStep, DirectStep, Finalize;
    if bits != [] {
      StepsAgree(r, bits[0]);
      FormsAgree(DivStep(r, bits[0]), bits[1..]);
    }
  }

  /** A register is a dividend of sixteen bits brought down into an empty one. */
  lemma RegisterFirst(r: Register, bits: seq<bool>)
    ensures Divide(Zeros(16), r + bits) == Divide(r, bits)
  {
    DivideConcat(Zeros(16), r, bits);
    ShortDividend(r);
    assert Zeros(0) + r == r;
  }

  /** `q` is what `r` leaves, `n` zeros later, exactly if `r` followed by `n` zeros and by `q` differ by a
      multiple of the generator. */
  lemma RemainderAfter(r: Register, n: nat, q: Register)
    ensures Divide(r, Zeros(n)) == q <==> Divide(Zeros(16), XorBits(r + Zeros(n), Zeros(n) + q)) == Zeros(16)
  {
    RegisterFirst(r, Zeros(n));
    RegisterFirst(Zeros(16), q);
    LeadingZeros(Zeros(n), q);
    ShortDividend(q);
    assert Zeros(0) + q == q;
    DivideLinear(Zeros(16), Zeros(16), r + Zeros(n), Zeros(n) + q);
    SelfXor(Zeros(16));
    SelfXor(q);
    hide Divide;
    XorNothing(Divide(r, Zeros(n)), q);
  }

  lemma XorNothing(a: seq<bool>, b: seq<bool>)
    requires |a| == |b| == 16
    ensures XorBits(a, b) == Zeros(16) <==> a == b
  {
    if XorBits(a, b) == Zeros(16) {
      assert forall i :: 0 <= i < 16 ==> !XorBits(a, b)[i];
    } else {
      SelfXor(a);
    }
  }

  /** What the division of sixteen ones and sixteen zeros puts into the quotient. */
  const QUOTIENT: seq<bool> :=
    [true, true, true, true, false, false, false, false, true, true, true, false, true, true, true, true]

  lemma QuotientBits(i: nat)
    requires i < 32
    ensures TimesBit(QUOTIENT, i) == (INIT + START)[i]
  {
  }

  lemma StartFlushed()
    ensures Finalize(INIT) == START
  {
    hide Divide, TimesBit;
    forall i | 0 <= i < 32
      ensures Times(QUOTIENT)[i] == XorBits(INIT + Zeros(16), Zeros(16) + START)[i]
    {
      QuotientBits(i);
    }
    assert Times(QUOTIENT) == XorBits(INIT + Zeros(16), Zeros(16) + START);
    MultipleDivides(QUOTIENT);
    RemainderAfter(INIT, 16, START);
  }

  /** Eight zeros do not lead back to sixteen ones: no multiple of the generator is eight ones, eight zeros and
      eight ones. */
  lemma NotAfterEight()
    ensures Divide(INIT, Zeros(8)) != INIT
  {
    hide Divide;
    RemainderAfter(INIT, 8, INIT);
    var d := XorBits(INIT + Zeros(8), Zeros(8) + INIT);
    assert d[0] && d[3] && d[7] && !d[11];
    if Divide(Zeros(16), d) == Zeros(16) {
      var q := Quotient(d);
      SomeBits(q);
    }
  }

  lemma SomeBits(q: seq<bool>)
    requires |q| == 8
    ensures Times(q)[0] == q[0] && Times(q)[3] == q[3] && Times(q)[7] == (q[7] != q[3])
    ensures Times(q)[11] == (q[7] != q[0])
  {
  }

  /** The checksum of any text is the usual one without appended zeros, started from 0x1D0F. */
  lemma DirectChecksum(s: seq<byte>)
    ensures Checksum(s) == Direct(START, Bits(s))
  {
    FormsAgree(INIT, Bits(s));
    StartFlushed();
    hide Divide, Bits, Direct, Finalize;
  }

  /** Two registers never become equal again. */
  lemma {:induction false} StayDifferent(r: Register, q: Register, bits: seq<bool>)
    requires r != q
    ensures Divide(r, bits) != Divide(q, bits)
  {
    var x := XorBits(r, q);
    var k :| 0 <= k < 16 && r[k] != q[k];
    assert x[k];
    DivideLinear(r, q, bits, bits);
    SelfXor(bits);
    ZerosKeepRemainder(x, Zeros(|bits|));
    SelfXor(Divide(r, bits));
  }

  /** A zero byte put in front of a text changes its checksum. */
  lemma LeadingZeroByte(s: seq<byte>)
    ensures Checksum([0] + s) != Checksum(s)
  {
    var zeros := Zeros(8);
    assert ([0] + s)[1..] == s;
    ZeroByteBits();
    DivideConcat(INIT, zeros, Bits(s));
    NotAfterEight();
    hide Divide, Bits, ByteBits;
    StayDifferent(Divide(INIT, zeros), INIT, Bits(s));
    StayDifferent(Divide(Divide(INIT, zeros), Bits(s)), Divide(INIT, Bits(s)), Zeros(16));
  }

  lemma ZeroByteBits()
    ensures ByteBits(0) == Zeros(8)
  {
    forall k | 0 <= k < 8
      ensures !ByteBits(0)[k]
    {
      NumberBitAt(0, 8, k);
    }
  }
}
