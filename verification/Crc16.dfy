/** The bit-serial CRC of crc16-ccitt.c: generator x^16 + x^12 + x^5 + 1, start value 0xFFFF and
    sixteen zero bits appended by the finalizer. */
module Crc16 {

  // The 16-bit register is held as its bits, most significant first, that is as a polynomial of
  // degree below 16 over GF(2). The methods are the loops of the C file; they are proved to perform
  // long division by the generator, and what the code is for, error detection, is proved about that
  // division.

  import opened Bytes

  /** A 16-bit register, most significant bit first. */
  type Register = r: seq<bool> | |r| == 16 witness Zeros(16)

  function Zeros(n: nat): (bits: seq<bool>)
    ensures |bits| == n && AllZero(bits)
  {
    seq(n, _ => false)
  }

  predicate AllZero(bits: seq<bool>) {
    forall k :: 0 <= k < |bits| ==> !bits[k]
  }

  /** Exclusive-or, which is addition over GF(2). */
  function XorBits(a: seq<bool>, b: seq<bool>): (x: seq<bool>)
    requires |a| == |b|
    ensures |x| == |a| && forall i :: 0 <= i < |a| ==> x[i] == (a[i] != b[i])
  {
    seq(|a|, i requires 0 <= i < |a| => a[i] != b[i])
  }

  /** 0x1021, that is x^12 + x^5 + 1: the generator without its leading term. */
  const POLY: Register := Zeros(16)[15 - 12 := true][15 - 5 := true][15 - 0 := true]

  /** 0xFFFF. */
  const INIT: Register :=
    [true, true, true, true, true, true, true, true, true, true, true, true, true, true, true, true]

  /** The low `n` bits of a number, most significant first. */
  function NumberBits(v: nat, n: nat): (bits: seq<bool>)
    ensures |bits| == n
  {
    if n == 0 then [] else NumberBits(v / 2, n - 1) + [v % 2 == 1]
  }

  /** The number with the given bits. */
  function BitsNumber(bits: seq<bool>): nat {
    if bits == [] then 0
    else 2 * BitsNumber(bits[..|bits| - 1]) + (if bits[|bits| - 1] then 1 else 0)
  }

  /** The bits of a byte, most significant first. */
  function ByteBits(b: byte): (bits: seq<bool>)
    ensures |bits| == 8
  {
    NumberBits(b, 8)
  }

  /** The bits of a byte string, most significant first. */
  function Bits(s: seq<byte>): (bits: seq<bool>)
    ensures |bits| == 8 * |s|
  {
    if s == [] then [] else ByteBits(s[0]) + Bits(s[1..])
  }

  // ------------------------------------------------------------------ what the code computes

  /** One step of long division by the generator: bring down the next bit of the dividend and
      subtract the generator if the leading coefficient was one. */
  function DivStep(r: Register, bit: bool): Register {
    if r[0] then XorBits(r[1..] + [bit], POLY) else r[1..] + [bit]
  }

  /** The remainder `r` after the bits `bits` of the dividend have been brought down. */
  function Divide(r: Register, bits: seq<bool>): Register
    decreases |bits|
  {
    if bits == [] then r else Divide(DivStep(r, bits[0]), bits[1..])
  }

  function Update(r: Register, data: byte): Register {
    Divide(r, ByteBits(data))
  }

  function Finalize(r: Register): Register {
    Divide(r, Zeros(16))
  }

  /** The checksum of the bytes `s`: the remainder of their bits, started from sixteen ones and
      followed by sixteen zeros. */
  function Checksum(s: seq<byte>): Register {
    Finalize(Divide(INIT, Bits(s)))
  }

  lemma {:induction false} DivideConcat(r: Register, a: seq<bool>, b: seq<bool>)
    ensures Divide(r, a + b) == Divide(Divide(r, a), b)
    decreases |a|
  {
    if a == [] {
      assert a + b == b;
    } else {
      assert (a + b)[1..] == a[1..] + b;
      DivideConcat(DivStep(r, a[0]), a[1..], b);
    }
  }

  lemma NextBit(r: Register, bits: seq<bool>, i: nat)
    requires i < |bits|
    ensures Divide(r, bits[..i + 1]) == DivStep(Divide(r, bits[..i]), bits[i])
  {
    assert bits[..i + 1] == bits[..i] + [bits[i]];
    DivideConcat(r, bits[..i], [bits[i]]);
    assert Divide(Divide(r, bits[..i]), [bits[i]]) == Divide(DivStep(Divide(r, bits[..i]), bits[i]), []);
  }

  lemma {:induction false} BitsConcat(s: seq<byte>, t: seq<byte>)
    ensures Bits(s + t) == Bits(s) + Bits(t)
    decreases |s|
  {
    if s == [] {
      assert s + t == t;
    } else {
      assert (s + t)[1..] == s[1..] + t;
      BitsConcat(s[1..], t);
    }
  }

  /** Feeding one more byte to the running register. */
  lemma UpdateSnoc(r: Register, s: seq<byte>, b: byte)
    ensures Divide(r, Bits(s + [b])) == Update(Divide(r, Bits(s)), b)
  {
    BitsConcat(s, [b]);
    assert Bits([b]) == ByteBits(b) + Bits([]) == ByteBits(b);
    DivideConcat(r, Bits(s), ByteBits(b));
  }

  /** The value of the update loop's mask before its i-th turn. */
  function Mask(i: nat): nat {
    match i
    case 0 => 0x80
    case 1 => 0x40
    case 2 => 0x20
    case 3 => 0x10
    case 4 => 0x08
    case 5 => 0x04
    case 6 => 0x02
    case 7 => 0x01
    case _ => 0
  }

  /** `b & v` is not zero, for a one-bit mask `v`. */
  predicate Test(b: byte, v: nat)
    requires v > 0
  {
    b / v % 2 == 1
  }

  lemma {:induction false} NumberBitAt(v: nat, n: nat, k: nat)
    requires k < n
    ensures Halve(v, n - 1 - k) % 2 == 1 <==> NumberBits(v, n)[k]
    decreases n
  {
    if k < n - 1 {
      NumberBitAt(v / 2, n - 1, k);
    }
  }

  function Halve(v: nat, times: nat): nat {
    if times == 0 then v else Halve(v / 2, times - 1)
  }

  lemma HalveByte(b: byte)
    ensures Halve(b, 0) == b && Halve(b, 1) == b / 2 && Halve(b, 2) == b / 4 && Halve(b, 3) == b / 8
    ensures Halve(b, 4) == b / 16 && Halve(b, 5) == b / 32 && Halve(b, 6) == b / 64 && Halve(b, 7) == b / 128
  {
    assert Halve(b, 1) == b / 2;
    assert Halve(b, 2) == Halve(b / 2, 1) == b / 2 / 2;
    assert Halve(b, 3) == Halve(b / 2, 2) == b / 2 / 2 / 2;
    assert Halve(b, 4) == Halve(b / 2, 3) == b / 2 / 2 / 2 / 2;
    assert Halve(b, 5) == Halve(b / 2, 4) == b / 2 / 2 / 2 / 2 / 2;
    assert Halve(b, 6) == Halve(b / 2, 5) == b / 2 / 2 / 2 / 2 / 2 / 2;
    assert Halve(b, 7) == Halve(b / 2, 6) == b / 2 / 2 / 2 / 2 / 2 / 2 / 2;
  }

  lemma MaskSelectsBit(b: byte, i: nat)
    requires i < 8
    ensures Mask(i) > 0 && Mask(i + 1) == Mask(i) / 2 && ByteBits(b)[i] == Test(b, Mask(i))
  {
    NumberBitAt(b, 8, i);
    HalveByte(b);
  }

  /** The statements of the loop bodies are one division step. */
  lemma StepStatements(r: Register, bit: bool)
    ensures var shifted := r[1..] + [false];
            var appended := if bit then shifted[15 := true] else shifted;
            DivStep(r, bit) == if r[0] then XorBits(appended, POLY) else appended
  {
    assert (if bit then (r[1..] + [false])[15 := true] else r[1..] + [false]) == r[1..] + [bit];
    if !r[0] {
      NoReduction(r, bit);
    }
  }

  lemma NoReduction(r: Register, bit: bool)
    requires !r[0]
    ensures DivStep(r, bit) == r[1..] + [bit]
  {
  }

  /** The loop of crc16_ccitt_update. */
  method Crc16CcittUpdate(crc0: Register, data: byte) returns (crc: Register)
    ensures crc == Update(crc0, data)
  {
    crc := crc0;
    var v := 0x80;
    for i := 0 to 8
      invariant v == Mask(i)
      invariant crc == Divide(crc0, ByteBits(data)[..i])
    {
      NextBit(crc0, ByteBits(data), i);
      MaskSelectsBit(data, i);
      StepStatements(crc, ByteBits(data)[i]);
      var xorFlag := crc[0];
      crc := crc[1..] + [false];
      if Test(data, v) {
        crc := crc[15 := true];
      }
      if xorFlag {
        crc := XorBits(crc, POLY);
      }
      v := v / 2;
    }
    assert ByteBits(data)[..8] == ByteBits(data);
  }

  /** The loop of crc16_ccitt_finalize. */
  method Crc16CcittFinalize(crc0: Register) returns (crc: Register)
    ensures crc == Finalize(crc0)
  {
    crc := crc0;
    for i := 0 to 16
      invariant crc == Divide(crc0, Zeros(16)[..i])
    {
      NextBit(crc0, Zeros(16), i);
      StepStatements(crc, false);
      var xorFlag := crc[0];
      crc := crc[1..] + [false];
      if xorFlag {
        crc := XorBits(crc, POLY);
      }
    }
    assert Zeros(16)[..16] == Zeros(16);
  }

  // ------------------------------------------------------------------ error detection

  lemma StepLinear(r: Register, q: Register, a: bool, b: bool)
    ensures XorBits(DivStep(r, a), DivStep(q, b)) == DivStep(XorBits(r, q), a != b)
  {
  }

  /** Division is linear: the remainders differ exactly by the remainder of the difference. */
  lemma {:induction false} DivideLinear(r: Register, q: Register, a: seq<bool>, b: seq<bool>)
    requires |a| == |b|
    ensures XorBits(Divide(r, a), Divide(q, b)) == Divide(XorBits(r, q), XorBits(a, b))
    decreases |a|
  {
    if a != [] {
      StepLinear(r, q, a[0], b[0]);
      DivideLinear(DivStep(r, a[0]), DivStep(q, b[0]), a[1..], b[1..]);
      assert XorBits(a, b)[1..] == XorBits(a[1..], b[1..]);
    }
  }

  /** Dividing on by zero bits neither creates nor destroys a remainder. */
  lemma {:induction false} ZerosKeepRemainder(r: Register, bits: seq<bool>)
    requires AllZero(bits)
    ensures AllZero(Divide(r, bits)) <==> AllZero(r)
    decreases |bits|
  {
    if bits != [] {
      var q := DivStep(r, false);
      assert AllZero(q) <==> AllZero(r) by {
        if r[0] {
          assert q[15];
        } else {
          assert forall k :: 1 <= k < 16 ==> r[k] == q[k - 1];
        }
      }
      ZerosKeepRemainder(q, bits[1..]);
    }
  }

  lemma DivideSnoc(r: Register, init: seq<bool>, last: bool)
    ensures Divide(r, init + [last]) == DivStep(Divide(r, init), last)
  {
    DivideConcat(r, init, [last]);
    hide DivStep;
    var q := Divide(r, init);
    assert Divide(q, [last]) == Divide(DivStep(q, last), []);
  }

  lemma ShiftIn(n: nat, init: seq<bool>, last: bool)
    requires n > 0
    ensures (Zeros(n) + init)[1..] + [last] == Zeros(n - 1) + (init + [last])
  {
  }

  /** Up to sixteen bits brought down into an empty register are still there, unreduced. */
  lemma {:induction false} ShortDividend(bits: seq<bool>)
    requires |bits| <= 16
    ensures Divide(Zeros(16), bits) == Zeros(16 - |bits|) + bits
    decreases |bits|
  {
    if bits == [] {
      assert Zeros(16) + bits == Zeros(16);
    } else {
      hide Divide, DivStep;
      var init, last := bits[..|bits| - 1], bits[|bits| - 1];
      var r := Divide(Zeros(16), init);
      assert bits == init + [last];
      ShortDividend(init);
      DivideSnoc(Zeros(16), init, last);
      assert !r[0];
      NoReduction(r, last);
      ShiftIn(16 - |init|, init, last);
    }
  }

  lemma ShortDividendKeepsOnes(bits: seq<bool>)
    requires |bits| <= 16 && !AllZero(bits)
    ensures !AllZero(Divide(Zeros(16), bits))
  {
    ShortDividend(bits);
    var k :| 0 <= k < |bits| && bits[k];
    assert (Zeros(16 - |bits|) + bits)[16 - |bits| + k];
  }

  lemma LeadingZeros(zeros: seq<bool>, bits: seq<bool>)
    requires AllZero(zeros)
    ensures Divide(Zeros(16), zeros + bits) == Divide(Zeros(16), bits)
  {
    DivideConcat(Zeros(16), zeros, bits);
    ZerosKeepRemainder(Zeros(16), zeros);
    var r := Divide(Zeros(16), zeros);
    assert r == Zeros(16);
  }

  /** A difference pattern confined to sixteen consecutive positions leaves a remainder. */
  lemma BurstLeavesRemainder(before: seq<bool>, burst: seq<bool>, after: seq<bool>)
    requires AllZero(before) && AllZero(after) && |burst| <= 16 && !AllZero(burst)
    ensures !AllZero(Divide(Zeros(16), before + (burst + after)))
  {
    LeadingZeros(before, burst + after);
    DivideConcat(Zeros(16), burst, after);
    ShortDividendKeepsOnes(burst);
    ZerosKeepRemainder(Divide(Zeros(16), burst), after);
  }

  lemma {:induction false} NumberFromItsBits(v: nat, n: nat, bound: nat)
    requires v < bound && bound == Power(n)
    ensures BitsNumber(NumberBits(v, n)) == v
    decreases n
  {
    if n > 0 {
      NumberFromItsBits(v / 2, n - 1, bound / 2);
      assert NumberBits(v, n)[..n - 1] == NumberBits(v / 2, n - 1);
    }
  }

  lemma {:induction false} BitsFromTheirNumber(bits: seq<bool>)
    ensures BitsNumber(bits) < Power(|bits|)
    ensures NumberBits(BitsNumber(bits), |bits|) == bits
    decreases |bits|
  {
    if bits != [] {
      BitsFromTheirNumber(bits[..|bits| - 1]);
      assert BitsNumber(bits) / 2 == BitsNumber(bits[..|bits| - 1]);
    }
  }

  function Power(n: nat): nat {
    if n == 0 then 1 else 2 * Power(n - 1)
  }

  lemma PowerEight()
    ensures Power(8) == 256
  {
    assert Power(4) == 16 && Power(6) == 64;
  }

  lemma {:induction false} BitsDetermineBytes(s: seq<byte>, t: seq<byte>)
    requires |s| == |t| && Bits(s) == Bits(t)
    ensures s == t
    decreases |s|
  {
    if s != [] {
      assert Bits(s)[..8] == ByteBits(s[0]) && Bits(t)[..8] == ByteBits(t[0]);
      PowerEight();
      NumberFromItsBits(s[0], 8, 256);
      NumberFromItsBits(t[0], 8, 256);
      assert Bits(s)[8..] == Bits(s[1..]) && Bits(t)[8..] == Bits(t[1..]);
      BitsDetermineBytes(s[1..], t[1..]);
    }
  }

  lemma SelfXor(a: seq<bool>)
    ensures XorBits(a, a) == Zeros(|a|)
  {
  }

  /** The remainders of two dividends of one length, started alike, differ by the remainder of their
      difference. */
  lemma RemainderDifference(r: Register, a: seq<bool>, b: seq<bool>)
    requires |a| == |b|
    ensures XorBits(Finalize(Divide(r, a)), Finalize(Divide(r, b)))
         == Finalize(Divide(Zeros(16), XorBits(a, b)))
  {
    DivideLinear(r, r, a, b);
    DivideLinear(Divide(r, a), Divide(r, b), Zeros(16), Zeros(16));
    SelfXor(r);
    SelfXor(Zeros(16));
  }

  lemma DifferentBit(s: seq<byte>, t: seq<byte>) returns (k: nat)
    requires |s| == |t| && s != t
    ensures k < 8 * |s| && Bits(s)[k] != Bits(t)[k]
  {
    if Bits(s) == Bits(t) {
      BitsDetermineBytes(s, t);
    }
    k :| 0 <= k < 8 * |s| && Bits(s)[k] != Bits(t)[k];
  }

  lemma BurstSplit(x: seq<bool>, start: nat, k: nat) returns (end: nat)
    requires k < |x| && x[k]
    requires forall i :: 0 <= i < |x| && !(start <= i < start + 16) ==> !x[i]
    ensures start < end <= |x| && end - start <= 16
    ensures x == x[..start] + (x[start..end] + x[end..])
    ensures AllZero(x[..start]) && AllZero(x[end..]) && !AllZero(x[start..end])
  {
    end := if start + 16 < |x| then start + 16 else |x|;
    assert x[start..end][k - start];
  }

  /** Every burst error of up to 16 bits is detected: two different byte strings of one length that
      differ only inside some window of 16 consecutive bits have different checksums. */
  lemma BurstDetected(s: seq<byte>, t: seq<byte>, start: nat)
    requires |s| == |t| && s != t
    requires forall k :: 0 <= k < 8 * |s| && !(start <= k < start + 16) ==> Bits(s)[k] == Bits(t)[k]
    ensures Checksum(s) != Checksum(t)
  {
    var x := XorBits(Bits(s), Bits(t));
    var k := DifferentBit(s, t);
    var end := BurstSplit(x, start, k);
    BurstLeavesRemainder(x[..start], x[start..end], x[end..]);
    ZerosKeepRemainder(Divide(Zeros(16), x), Zeros(16));
    RemainderDifference(INIT, Bits(s), Bits(t));
    if Checksum(s) == Checksum(t) {
      SelfXor(Checksum(s));
    }
  }

  // ------------------------------------------------------------------ the checksum in a frame

  function BitsToByte(bits: seq<bool>): byte
    requires |bits| == 8
  {
    BitsFromTheirNumber(bits);
    PowerEight();
    BitsNumber(bits)
  }

  /** The two bytes of a register in memory, low byte first. */
  function RegisterBytes(r: Register): (bytes: seq<byte>)
    ensures |bytes| == 2
  {
    [BitsToByte(r[8..]), BitsToByte(r[..8])]
  }

  lemma RegisterBytesInjective(r: Register, q: Register)
    requires RegisterBytes(r) == RegisterBytes(q)
    ensures r == q
  {
    assert BitsToByte(r[8..]) == RegisterBytes(r)[0] == RegisterBytes(q)[0] == BitsToByte(q[8..]);
    assert BitsToByte(r[..8]) == RegisterBytes(r)[1] == RegisterBytes(q)[1] == BitsToByte(q[..8]);
    BitsFromTheirNumber(r[8..]);
    BitsFromTheirNumber(q[8..]);
    BitsFromTheirNumber(r[..8]);
    BitsFromTheirNumber(q[..8]);
    assert r == r[..8] + r[8..] && q == q[..8] + q[8..];
  }
}
