/** What a burst of up to sixteen bits does to a frame, its checksum bytes included. */
module FrameDamage {

  // Inside code and payload, or inside the checksum, every such burst is noticed. The checksum goes on the
  // line low byte first, so a burst across the boundary in front of it is not a burst of the polynomial, and
  // whether it can pass depends on how many of its bits lie in front of the boundary.

  import opened Bytes
  import opened Crc16
  import opened CrcMultiples
  import opened BbeeFraming
  import opened BbeeRoundTrip

  // ------------------------------------------------------------------ bits and bytes

  /** The bits of a register in the order in which its bytes go on the line, and back. */
  function SwapBytes(bits: seq<bool>): (r: seq<bool>)
    requires |bits| == 16
    ensures |r| == 16
  {
    bits[8..] + bits[..8]
  }

  function Unbits(bits: seq<bool>): (s: seq<byte>)
    requires |bits| % 8 == 0
    ensures 8 * |s| == |bits|
    decreases |bits|
  {
    if bits == [] then [] else [BitsToByte(bits[..8])] + Unbits(bits[8..])
  }

  lemma ByteOfBits(bits: seq<bool>)
    requires |bits| == 8
    ensures ByteBits(BitsToByte(bits)) == bits
  {
    BitsFromTheirNumber(bits);
  }

  lemma {:induction false} BitsOfUnbits(bits: seq<bool>)
    requires |bits| % 8 == 0
    ensures Bits(Unbits(bits)) == bits
    decreases |bits|
  {
    if bits != [] {
      ByteOfBits(bits[..8]);
      BitsOfUnbits(bits[8..]);
      hide BitsToByte, ByteBits;
      assert Unbits(bits)[0] == BitsToByte(bits[..8]) && Unbits(bits)[1..] == Unbits(bits[8..]);
      assert bits == bits[..8] + bits[8..];
    }
  }

  lemma ChecksumOnLine(r: Register)
    ensures Bits(RegisterBytes(r)) == SwapBytes(r)
  {
    ByteOfBits(r[8..]);
    ByteOfBits(r[..8]);
    hide BitsToByte, ByteBits;
    var low, high := BitsToByte(r[8..]), BitsToByte(r[..8]);
    assert [low, high][1..] == [high] && [high][1..] == [];
    assert Bits([low, high]) == ByteBits(low) + (ByteBits(high) + []);
  }

  lemma SwapXor(a: seq<bool>, b: seq<bool>)
    requires |a| == |b| == 16
    ensures SwapBytes(XorBits(a, b)) == XorBits(SwapBytes(a), SwapBytes(b)) && SwapBytes(SwapBytes(a)) == a
  {
  }

  // ------------------------------------------------------------------ when a damaged body is accepted

  /** The remainder behind a difference `d` in the data and `w` in the checksum register. */
  lemma RemainderOf(d: seq<bool>, w: seq<bool>)
    requires |w| == 16
    ensures Divide(Zeros(16), d + w) == XorBits(Divide(Zeros(16), d + Zeros(16)), w)
  {
    hide Divide;
    var zeros := Zeros(|d|);
    DivideLinear(Zeros(16), Zeros(16), d + Zeros(16), zeros + w);
    SelfXor(Zeros(16));
    assert XorBits(d + Zeros(16), zeros + w) == d + w;
    LeadingZeros(zeros, w);
    ShortDividend(w);
    assert Zeros(0) + w == w;
  }

  /** A damaged text `y` with checksum bytes `u`, where `x` with `t` was sent, is accepted if and only if the
      difference leaves no remainder, its last sixteen bits taken in the order of the register. */
  lemma AcceptedDifference(x: seq<byte>, t: seq<byte>, y: seq<byte>, u: seq<byte>)
    requires |x| == |y| && |u| == 2 && t == RegisterBytes(Checksum(x))
    ensures u == RegisterBytes(Checksum(y)) <==>
            Divide(Zeros(16), XorBits(Bits(x), Bits(y)) + SwapBytes(XorBits(Bits(t), Bits(u)))) == Zeros(16)
  {
    var cx, cy, v := Checksum(x), Checksum(y), SwapBytes(Bits(u));
    var d := XorBits(Bits(x), Bits(y));
    RemainderDifference(INIT, Bits(x), Bits(y));
    DivideConcat(Zeros(16), d, Zeros(16));
    ChecksumOnLine(cx);
    SwapXor(Bits(t), Bits(u));
    SwapXor(cx, cx);
    RemainderOf(d, XorBits(cx, v));
    OnLineExactly(cy, u);
    hide Divide, Bits, RegisterBytes;
    SameDifference(cx, cy, v);
  }

  lemma SameDifference(a: seq<bool>, b: seq<bool>, v: seq<bool>)
    requires |a| == |b| == |v| == 16
    ensures XorBits(XorBits(a, b), XorBits(a, v)) == Zeros(16) <==> b == v
  {
    var x := XorBits(XorBits(a, b), XorBits(a, v));
    assert forall i :: 0 <= i < 16 ==> x[i] == (b[i] != v[i]);
    if x == Zeros(16) {
      assert forall i :: 0 <= i < 16 ==> !x[i];
    }
  }

  /** Two bytes are the checksum bytes of a register if and only if their bits are its bits. */
  lemma OnLineExactly(r: Register, u: seq<byte>)
    requires |u| == 2
    ensures u == RegisterBytes(r) <==> SwapBytes(Bits(u)) == r
  {
    ChecksumOnLine(r);
    SwapXor(r, r);
    SwapXor(Bits(u), Bits(u));
    if SwapBytes(Bits(u)) == r {
      assert Bits(u) == Bits(RegisterBytes(r));
      BitsDetermineBytes(u, RegisterBytes(r));
    }
  }

  // ------------------------------------------------------------------ windows

  /** All ones lie in the window of sixteen bits that begins at `start`. */
  ghost predicate Confined(d: seq<bool>, start: nat) {
    forall i :: 0 <= i < |d| && !(start <= i < start + 16) ==> !d[i]
  }

  /** A window that lies on one side of the boundary at bit `p`, or has 7, 9 or 11 bits in front of it. */
  predicate Safe(p: nat, start: nat) {
    || start + 16 <= p || p <= start
    || p - start == 7 || p - start == 9 || p - start == 11
  }

  /** The difference as the division sees it. */
  function Seen(d: seq<bool>, p: nat): seq<bool>
    requires |d| == p + 16
  {
    d[..p] + SwapBytes(d[p..])
  }

  lemma InFront(d: seq<bool>, p: nat, start: nat)
    requires |d| == p + 16 && Confined(d, start) && start + 16 <= p && !AllZero(d)
    ensures Divide(Zeros(16), Seen(d, p)) != Zeros(16)
  {
    hide Divide, Seen, SwapBytes;
    var data, behind := d[..p], SwapBytes(d[p..]);
    var k := OneInFront(d, p, start);
    var end := BurstSplit(data, start, k);
    hide AllZero;
    assert Seen(d, p) == data[..start] + (data[start..end] + (data[end..] + behind)) by {
      SeenInParts(d, p, start, end);
    }
    BothZero(data[end..], behind);
    BurstLeavesRemainder(data[..start], data[start..end], data[end..] + behind);
    ZerosAllZero();
  }

  lemma ZerosAllZero()
    ensures AllZero(Zeros(16))
  {
  }

  lemma BothZero(a: seq<bool>, b: seq<bool>)
    requires AllZero(a) && AllZero(b)
    ensures AllZero(a + b)
  {
  }

  lemma SeenInParts(d: seq<bool>, p: nat, start: nat, end: nat)
    requires |d| == p + 16 && start <= end <= p
    ensures Seen(d, p) == d[..p][..start] + (d[..p][start..end] + (d[..p][end..] + SwapBytes(d[p..])))
  {
    hide SwapBytes;
    var data := d[..p];
    assert data == data[..start] + (data[start..end] + data[end..]);
  }

  lemma OneInFront(d: seq<bool>, p: nat, start: nat) returns (k: nat)
    requires |d| == p + 16 && Confined(d, start) && start + 16 <= p && !AllZero(d)
    ensures k < p && d[..p][k] && AllZero(SwapBytes(d[p..]))
    ensures forall i :: 0 <= i < p && !(start <= i < start + 16) ==> !d[..p][i]
  {
    k :| 0 <= k < |d| && d[k];
  }

  lemma Behind(d: seq<bool>, p: nat, start: nat)
    requires |d| == p + 16 && Confined(d, start) && p <= start && !AllZero(d)
    ensures Divide(Zeros(16), Seen(d, p)) != Zeros(16)
  {
    var k :| 0 <= k < |d| && d[k];
    var w := SwapBytes(d[p..]);
    assert w[Place(k - p)];
    assert AllZero(d[..p]);
    LeadingZeros(d[..p], w);
    ShortDividendKeepsOnes(w);
  }

  /** A difference across the boundary that leaves no remainder is a multiple of the generator by a quotient
      of as many bits as lie in front. */
  lemma Straddling(d: seq<bool>, p: nat, start: nat) returns (q: seq<bool>)
    requires |d| == p + 16 && Confined(d, start) && start < p < start + 16
    requires Divide(Zeros(16), Seen(d, p)) == Zeros(16)
    ensures |q| == p - start && d[start..p] + SwapBytes(d[p..]) == Times(q)
  {
    var tail := d[start..p] + SwapBytes(d[p..]);
    assert Seen(d, p) == d[..start] + tail;
    assert AllZero(d[..start]);
    LeadingZeros(d[..start], tail);
    q := Quotient(tail);
  }

  /** Where bit `j` on the line is in the register. */
  function Place(j: int): int {
    if j < 8 then j + 8 else j - 8
  }

  /** The last bits of a product, against the window: no bit behind the window is set. */
  ghost predicate FitsWindow(q: seq<bool>)
    requires 0 < |q| < 16
  {
    forall j :: 16 - |q| <= j < 16 ==> !TimesBit(q, |q| + Place(j))
  }

  lemma OutsideWindow(d: seq<bool>, p: nat, start: nat, q: seq<bool>)
    requires |d| == p + 16 && Confined(d, start) && start < p < start + 16
    requires |q| == p - start && d[start..p] + SwapBytes(d[p..]) == Times(q)
    ensures FitsWindow(q)
  {
    var k := |q|;
    var line := d[p..];
    forall j | 16 - k <= j < 16
      ensures !TimesBit(q, k + Place(j))
    {
      var m := Place(j);
      assert SwapBytes(line)[m] == line[j] == d[p + j];
      assert Times(q)[k + m] == (d[start..p] + SwapBytes(line))[k + m] == SwapBytes(line)[m];
    }
  }

  lemma FitsAt(q: seq<bool>, j: nat)
    requires 0 < |q| < 16 && FitsWindow(q) && 16 - |q| <= j < 16
    ensures var i := |q| + Place(j);
            !Odd(At(q, i), At(q, i - 4), At(q, i - 11), At(q, i - 16))
  {
    hide Odd, At;
    assert !TimesBit(q, |q| + Place(j));
  }

  lemma NoneOfSeven(q: seq<bool>)
    requires |q| == 7 && FitsWindow(q)
    ensures AllZero(q)
  {
    hide FitsWindow;
    FitsAt(q, 9);
    FitsAt(q, 10);
    FitsAt(q, 11);
    FitsAt(q, 12);
    FitsAt(q, 13);
    FitsAt(q, 14);
    FitsAt(q, 15);
    assert !q[4] && !q[5] && !q[6];
    assert !q[0] && !q[1] && !q[2] && !q[3];
  }

  lemma NoneOfNine(q: seq<bool>)
    requires |q| == 9 && FitsWindow(q)
    ensures AllZero(q)
  {
    hide FitsWindow;
    FitsAt(q, 7);
    FitsAt(q, 8);
    FitsAt(q, 9);
    FitsAt(q, 10);
    FitsAt(q, 11);
    FitsAt(q, 12);
    FitsAt(q, 13);
    FitsAt(q, 14);
    FitsAt(q, 15);
    assert !q[8] && !q[5] && !q[6] && !q[2] && !q[3] && !q[4];
    assert !q[1] && !q[0];
    assert !q[7];
  }

  lemma NoneOfEleven(q: seq<bool>)
    requires |q| == 11 && FitsWindow(q)
    ensures AllZero(q)
  {
    hide FitsWindow;
    FitsAt(q, 5);
    FitsAt(q, 6);
    FitsAt(q, 7);
    FitsAt(q, 8);
    FitsAt(q, 9);
    FitsAt(q, 10);
    FitsAt(q, 11);
    FitsAt(q, 12);
    FitsAt(q, 13);
    FitsAt(q, 14);
    FitsAt(q, 15);
    assert !q[8] && !q[9] && !q[10] && !q[4];
    assert !q[1] && !q[2] && !q[3];
    assert !q[6] && !q[7];
    assert !q[0];
    assert !q[5];
  }

  lemma {:induction false} ZeroTimes(q: seq<bool>)
    requires AllZero(q)
    ensures AllZero(Times(q))
  {
    forall i | 0 <= i < |q| + 16
      ensures !TimesBit(q, i)
    {
      assert !At(q, i) && !At(q, i - 4) && !At(q, i - 11) && !At(q, i - 16);
    }
  }

  /** In a safe window no damage goes unnoticed. */
  lemma SafeLeavesRemainder(d: seq<bool>, p: nat, start: nat)
    requires |d| == p + 16 && Confined(d, start) && Safe(p, start) && !AllZero(d)
    ensures Divide(Zeros(16), Seen(d, p)) != Zeros(16)
  {
    if start + 16 <= p {
      InFront(d, p, start);
    } else if p <= start {
      Behind(d, p, start);
    } else if Divide(Zeros(16), Seen(d, p)) == Zeros(16) {
      var q := Straddling(d, p, start);
      OutsideWindow(d, p, start, q);
      hide FitsWindow, AllZero;
      if |q| == 7 {
        NoneOfSeven(q);
      } else if |q| == 9 {
        NoneOfNine(q);
      } else {
        NoneOfEleven(q);
      }
      ZeroTimes(q);
      NothingInWindow(d, p, start);
    }
  }

  lemma NothingInWindow(d: seq<bool>, p: nat, start: nat)
    requires |d| == p + 16 && Confined(d, start) && start < p < start + 16
    requires AllZero(d[start..p] + SwapBytes(d[p..]))
    ensures AllZero(d)
  {
    var tail := d[start..p] + SwapBytes(d[p..]);
    forall i | 0 <= i < |d|
      ensures !d[i]
    {
      if start <= i < p {
        assert !tail[i - start];
      } else if p <= i {
        var j := i - p;
        assert SwapBytes(d[p..])[Place(j)] == d[i];
        assert !tail[p - start + Place(j)];
      }
    }
  }

  // ------------------------------------------------------------------ damage that passes in any other window

  /** A quotient whose product fits the window with `k` bits in front of the boundary. */
  function Culprit(k: nat): (q: seq<bool>)
    requires 0 < k < 16 && k != 7 && k != 9 && k != 11
    ensures |q| == k
  {
    if k <= 4 then Zeros(k)[k - 1 := true]
    else if k <= 6 then Zeros(k)[k - 3 := true]
    else if k == 8 then Zeros(k)[0 := true][7 := true]
    else if k == 10 then Zeros(k)[0 := true][5 := true][7 := true]
    else if k <= 14 then Zeros(k)[k - 12 := true][k - 7 := true]
    else Zeros(k)[2 := true][7 := true]
  }

  lemma CulpritFits(k: nat)
    requires 0 < k < 16 && k != 7 && k != 9 && k != 11
    ensures FitsWindow(Culprit(k)) && !AllZero(Culprit(k)) && (k == 15 ==> !Culprit(k)[0])
  {
    assert Culprit(k)[if k <= 4 then k - 1 else if k <= 6 then k - 3 else 7 - (if 12 <= k <= 14 then 14 - k else 0)];
  }

  lemma {:induction false} TimesKeepsOnes(q: seq<bool>, i: nat)
    requires i < |q| && q[i]
    ensures !AllZero(Times(q))
    decreases i
  {
    if j :| 0 <= j < i && q[j] {
      TimesKeepsOnes(q, j);
    } else {
      assert At(q, i) && !At(q, i - 4) && !At(q, i - 11) && !At(q, i - 16);
      assert Times(q)[i];
    }
  }

  /** A difference that fits the window, its last sixteen bits in the order of the line. */
  function Pattern(p: nat, k: nat, q: seq<bool>): (d: seq<bool>)
    requires |q| == k <= p
    ensures |d| == p + 16
  {
    Zeros(p - k) + Times(q)[..k] + SwapBytes(Times(q)[k..])
  }

  lemma PatternSeen(p: nat, k: nat, q: seq<bool>)
    requires |q| == k <= p
    ensures Seen(Pattern(p, k, q), p) == Zeros(p - k) + Times(q)
    ensures Divide(Zeros(16), Seen(Pattern(p, k, q), p)) == Zeros(16)
  {
    hide Times, Divide;
    var m := Times(q);
    SeenParts(Zeros(p - k) + m[..k], SwapBytes(m[k..]), p);
    SwapXor(m[k..], m[k..]);
    Halves(Zeros(p - k), m, k);
    LeadingZeros(Zeros(p - k), m);
    MultipleDivides(q);
  }

  lemma Halves(a: seq<bool>, m: seq<bool>, k: nat)
    requires k <= |m|
    ensures a + m[..k] + m[k..] == a + m
  {
  }

  lemma SeenParts(a: seq<bool>, b: seq<bool>, p: nat)
    requires |a| == p && |b| == 16
    ensures Seen(a + b, p) == a + SwapBytes(b)
  {
    assert (a + b)[..p] == a && (a + b)[p..] == b;
  }

  lemma PatternConfined(p: nat, start: nat, q: seq<bool>)
    requires start < p < start + 16 && |q| == p - start && FitsWindow(q)
    ensures Confined(Pattern(p, p - start, q), start)
  {
    var k, m := p - start, Times(q);
    var d := Pattern(p, k, q);
    hide Times;
    forall i | 0 <= i < |d| && !(start <= i < start + 16)
      ensures !d[i]
    {
      if start + 16 <= i {
        var j := i - p;
        assert 16 - k <= j < 16 && !TimesBit(q, k + Place(j));
        assert d[i] == SwapBytes(m[k..])[j] == m[k..][Place(j)] == m[k + Place(j)];
        TimesAt(q, k + Place(j));
      }
    }
  }

  lemma TimesAt(q: seq<bool>, i: nat)
    requires i < |q| + 16
    ensures Times(q)[i] == TimesBit(q, i)
  {
  }

  lemma PatternNotZero(p: nat, k: nat, q: seq<bool>)
    requires |q| == k <= p && !AllZero(q)
    ensures !AllZero(Pattern(p, k, q))
  {
    var i :| 0 <= i < |q| && q[i];
    TimesKeepsOnes(q, i);
    hide Times;
    var m, d := Times(q), Pattern(p, k, q);
    var j :| 0 <= j < |m| && m[j];
    assert j < k ==> d[p - k + j] == m[j];
    assert j >= k ==> d[p + Place(j - k)] == m[k..][j - k] == m[j];
  }

  /** The pattern for a window that is not safe. Its second bit is clear, so that it turns a code 0 into no
      sync character. */
  lemma UnsafePattern(p: nat, start: nat) returns (d: seq<bool>)
    requires p >= 16 && !Safe(p, start)
    ensures |d| == p + 16 && Confined(d, start) && !AllZero(d) && !d[1]
    ensures Divide(Zeros(16), Seen(d, p)) == Zeros(16)
  {
    var k := p - start;
    var q := Culprit(k);
    CulpritFits(k);
    d := Pattern(p, k, q);
    PatternSeen(p, k, q);
    PatternConfined(p, start, q);
    PatternNotZero(p, k, q);
    if k == 15 {
      assert d[start] == Times(q)[0] == TimesBit(q, 0);
    }
  }

  // ------------------------------------------------------------------ frames

  /** What is sent between the opening and the end of a frame, escapes left out. */
  function Inside(code: byte, payload: seq<byte>): seq<byte> {
    [code] + payload + CrcBytes(code, payload)
  }

  /** Something arrives changed, but only within sixteen consecutive bits. */
  ghost predicate Hit(sent: seq<byte>, received: seq<byte>, start: nat) {
    && |sent| == |received| && sent != received
    && forall k :: 0 <= k < 8 * |sent| && !(start <= k < start + 16) ==> Bits(sent)[k] == Bits(received)[k]
  }

  /** Where the checksum begins. */
  function Boundary(n: nat): nat {
    8 * (1 + n)
  }

  lemma HitPattern(sent: seq<byte>, received: seq<byte>, start: nat)
    requires |sent| == |received|
    ensures var d := XorBits(Bits(sent), Bits(received));
            Hit(sent, received, start) <==> !AllZero(d) && Confined(d, start)
  {
    var d := XorBits(Bits(sent), Bits(received));
    if sent != received {
      var k := DifferentBit(sent, received);
      assert d[k];
    } else {
      SelfXor(Bits(sent));
    }
  }

  /** A received body is good if and only if the difference leaves no remainder. */
  lemma GoodExactly(code: byte, payload: seq<byte>, code': byte, body': seq<byte>)
    requires |body'| == |payload| + 2
    ensures var d := XorBits(Bits(Inside(code, payload)), Bits([code'] + body'));
            GoodBody(code', body') <==> Divide(Zeros(16), Seen(d, Boundary(|payload|))) == Zeros(16)
  {
    hide Bits, Divide, Checksum, RegisterBytes, Seen;
    var x, t := [code] + payload, CrcBytes(code, payload);
    var y, u := [code'] + body'[..|payload|], body'[|payload|..];
    assert Inside(code, payload) == x + t && [code'] + body' == y + u;
    BitsConcat(x, t);
    BitsConcat(y, u);
    AcceptedDifference(x, t, y, u);
    XorParts(Bits(x), Bits(t), Bits(y), Bits(u));
    SeenParts(XorBits(Bits(x), Bits(y)), XorBits(Bits(t), Bits(u)), Boundary(|payload|));
  }

  lemma XorParts(a: seq<bool>, b: seq<bool>, c: seq<bool>, e: seq<bool>)
    requires |a| == |c| && |b| == |e|
    ensures XorBits(a + b, c + e) == XorBits(a, c) + XorBits(b, e)
  {
  }

  /** A frame damaged by a burst in a safe window, checksum bytes included, is dropped and counted. */
  lemma DamagedFrameDropped(s: Rx, code: byte, payload: seq<byte>, code': byte, body': seq<byte>, start: nat)
    requires !s.gotBegin && !IsSync(code') && 1 <= |payload| && |body'| == |payload| + 2 <= s.max
    requires Hit(Inside(code, payload), [code'] + body', start) && Safe(Boundary(|payload|), start)
    ensures Frames(s, Frame(code', body')) == []
    ensures Run(s, Frame(code', body')).stats.invCrc == s.stats.invCrc + 1
  {
    var d := XorBits(Bits(Inside(code, payload)), Bits([code'] + body'));
    HitPattern(Inside(code, payload), [code'] + body', start);
    GoodExactly(code, payload, code', body');
    SafeLeavesRemainder(d, Boundary(|payload|), start);
    hide Run, Frames, Frame, Bits, GoodBody, Divide;
    FrameOutcome(s, code', body');
  }

  function ZeroBytes(n: nat): (s: seq<byte>)
    ensures |s| == n
  {
    if n == 0 then [] else [0] + ZeroBytes(n - 1)
  }

  lemma ZeroByte()
    ensures AllZero(ByteBits(0))
  {
    forall k | 0 <= k < 8
      ensures !ByteBits(0)[k]
    {
      NumberBitAt(0, 8, k);
    }
  }

  /** The sync characters have their second bit set. */
  lemma SecondBit(code: byte)
    requires !ByteBits(code)[1]
    ensures !IsSync(code)
  {
    NumberBitAt(66, 8, 1);
    NumberBitAt(69, 8, 1);
  }

  /** In every other window there is damage that passes: the frame of a payload of zeros, damaged so that
      what arrives is good, and delivered. */
  lemma DamagedFrameAccepted(n: nat, start: nat) returns (payload: seq<byte>, code': byte, body': seq<byte>)
    requires 1 <= n && !Safe(Boundary(n), start)
    ensures |payload| == n && |body'| == n + 2 && !IsSync(code')
    ensures Hit(Inside(0, payload), [code'] + body', start) && GoodBody(code', body')
    ensures Delivered(code', body')
  {
    hide Divide, Seen, Safe, Confined, GoodBody, Bits, Hit, Checksum, RegisterBytes, Delivered;
    payload := ZeroBytes(n);
    var d := UnsafePattern(Boundary(n), start);
    var sent := Inside(0, payload);
    var received := Unbits(XorBits(Bits(sent), d));
    BitsOfUnbits(XorBits(Bits(sent), d));
    XorBack(Bits(sent), d);
    code', body' := received[0], received[1..];
    assert [code'] + body' == received;
    HitPattern(sent, received, start);
    GoodExactly(0, payload, code', body');
    CodeOfZeros(payload, received, d);
    GoodDelivered(code', body');
  }

  /** Every receiver without a pending begin character hands the body over. */
  ghost predicate Delivered(code: byte, body: seq<byte>)
    requires |body| >= 2
  {
    forall s: Rx :: !s.gotBegin && |body| <= s.max ==>
      Frames(s, Frame(code, body)) == [Delivery(code, body[..|body| - 2])]
  }

  lemma GoodDelivered(code: byte, body: seq<byte>)
    requires |body| >= 3 && !IsSync(code) && GoodBody(code, body)
    ensures Delivered(code, body)
  {
    forall s: Rx | !s.gotBegin && |body| <= s.max
      ensures Frames(s, Frame(code, body)) == [Delivery(code, body[..|body| - 2])]
    {
      hide Run, Frame, GoodBody;
      FrameOutcome(s, code, body);
    }
  }

  lemma XorBack(a: seq<bool>, d: seq<bool>)
    requires |a| == |d|
    ensures XorBits(a, XorBits(a, d)) == d
  {
  }

  /** The code 0 is not damaged into a sync character. */
  lemma CodeOfZeros(payload: seq<byte>, received: seq<byte>, d: seq<bool>)
    requires received != [] && |d| == 8 * |Inside(0, payload)| && !d[1]
    requires Bits(received) == XorBits(Bits(Inside(0, payload)), d)
    ensures !IsSync(received[0])
  {
    ZeroByte();
    assert Bits(received)[1] == ByteBits(received[0])[1];
    assert Bits(Inside(0, payload))[1] == ByteBits(0)[1];
    SecondBit(received[0]);
  }

  /** Whatever the frame, and whatever a burst in this window makes of it, the receiver drops it. */
  ghost predicate AlwaysDropped(n: nat, start: nat) {
    forall s: Rx, code: byte, payload: seq<byte>, code': byte, body': seq<byte> ::
      !s.gotBegin && !IsSync(code) && !IsSync(code') && |payload| == n && |body'| == n + 2 <= s.max
      && Hit(Inside(code, payload), [code'] + body', start)
      ==> Frames(s, Frame(code', body')) == []
  }

  /** A window of sixteen bits is one in which no damage to a frame with `n` bytes of payload passes if and
      only if it lies on one side of the checksum's beginning, or has 7, 9 or 11 bits in front of it. */
  lemma BurstDroppedExactly(n: nat, start: nat)
    requires 1 <= n
    ensures AlwaysDropped(n, start) <==> Safe(Boundary(n), start)
  {
    hide Frames, Frame, Hit, Safe, Inside, Run;
    if Safe(Boundary(n), start) {
      forall s: Rx, code: byte, payload: seq<byte>, code': byte, body': seq<byte> |
        !s.gotBegin && !IsSync(code) && !IsSync(code') && |payload| == n && |body'| == n + 2 <= s.max
        && Hit(Inside(code, payload), [code'] + body', start)
        ensures Frames(s, Frame(code', body')) == []
      {
        DamagedFrameDropped(s, code, payload, code', body', start);
      }
    } else {
      var payload, code', body' := DamagedFrameAccepted(n, start);
      var s := InitState(n + 2);
      assert Frames(s, Frame(code', body')) != [];
      assert !IsSync(0);
    }
  }
}
