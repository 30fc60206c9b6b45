/** Which bit strings the division of Crc16.dfy leaves no remainder of: exactly the multiples of the generator,
    each of them the exclusive-or of four shifted copies of its quotient. */
module CrcMultiples {

  import opened Crc16

  /** The bit of `q` at a position, false outside. */
  predicate At(q: seq<bool>, i: int) {
    0 <= i < |q| && q[i]
  }

  /** An odd number of them holds. */
  predicate Odd(a: bool, b: bool, c: bool, d: bool) {
    (a != b) != (c != d)
  }

  predicate TimesBit(q: seq<bool>, i: int) {
    Odd(At(q, i), At(q, i - 4), At(q, i - 11), At(q, i - 16))
  }

  /** The quotient times the generator: shifted for x^16, x^12, x^5 and 1. */
  function Times(q: seq<bool>): (bits: seq<bool>)
    ensures |bits| == |q| + 16
  {
    seq(|q| + 16, i => TimesBit(q, i))
  }

  /** The generator with `n` zeros behind it. */
  function Generator(n: nat): (bits: seq<bool>)
    ensures |bits| == 17 + n
  {
    [true] + POLY + Zeros(n)
  }

  lemma GeneratorAt(n: nat, i: nat)
    requires i < 17 + n
    ensures Generator(n)[i] == Term(i)
  {
  }

  /** The places of the ones in the generator. */
  predicate Term(i: int) {
    i == 0 || i == 4 || i == 11 || i == 16
  }

  lemma BitCons(b: bool, q: seq<bool>, i: nat)
    requires i < |q| + 17
    ensures TimesBit([b] + q, i) == ((b && Term(i)) != TimesBit(q, i - 1))
  {
    AtCons(b, q, i);
    AtCons(b, q, i - 4);
    AtCons(b, q, i - 11);
    AtCons(b, q, i - 16);
    NothingBefore(q);
    hide At;
  }

  lemma TimesConsAt(b: bool, q: seq<bool>, i: nat)
    requires i < |q| + 17
    ensures Times([b] + q)[i] == ((b && Term(i)) != ([false] + Times(q))[i])
  {
    BitCons(b, q, i);
    NothingBefore(q);
    hide At, Odd, Term;
    if i == 0 {
      assert !TimesBit(q, -1) by {
        assert Odd(false, false, false, false) == false by {
          NoneIsEven();
        }
      }
    } else {
      assert ([false] + Times(q))[i] == Times(q)[i - 1];
    }
  }

  lemma NoneIsEven()
    ensures !Odd(false, false, false, false)
  {
  }

  lemma NothingBefore(q: seq<bool>)
    ensures forall i :: i < 0 ==> !At(q, i)
  {
  }

  lemma TimesCons(b: bool, q: seq<bool>)
    ensures Times([b] + q) == if b then XorBits(Generator(|q|), [false] + Times(q)) else [false] + Times(q)
  {
    var shifted := [false] + Times(q);
    hide Times, Generator, Term;
    forall i | 0 <= i < |q| + 17
      ensures Times([b] + q)[i] == ((b && Term(i)) != shifted[i]) && Generator(|q|)[i] == Term(i)
    {
      TimesConsAt(b, q, i);
      GeneratorAt(|q|, i);
    }
  }

  lemma AtCons(b: bool, q: seq<bool>, i: int)
    ensures At([b] + q, i) == if i == 0 then b else At(q, i - 1)
  {
  }

  /** The generator itself leaves no remainder. */
  lemma GeneratorDivides(n: nat)
    ensures Divide(Zeros(16), Generator(n)) == Zeros(16)
  {
    var front := [true] + POLY[..15];
    assert Generator(n) == front + ([POLY[15]] + Zeros(n));
    DivideConcat(Zeros(16), front, [POLY[15]] + Zeros(n));
    ShortDividend(front);
    assert Zeros(0) + front == front;
    OneSubtraction(n);
    ZerosKeepRemainder(Zeros(16), Zeros(n));
    AllZeros(Divide(Zeros(16), Zeros(n)));
  }

  lemma OneSubtraction(n: nat)
    ensures Divide([true] + POLY[..15], [POLY[15]] + Zeros(n)) == Divide(Zeros(16), Zeros(n))
  {
    var front := [true] + POLY[..15];
    assert front[1..] + [POLY[15]] == POLY;
    SelfXor(POLY);
    assert DivStep(front, POLY[15]) == Zeros(16);
    assert ([POLY[15]] + Zeros(n))[1..] == Zeros(n);
    hide DivStep;
  }

  lemma AllZeros(r: seq<bool>)
    ensures AllZero(r) <==> r == Zeros(|r|)
  {
  }

  lemma XorTwice(a: seq<bool>, b: seq<bool>)
    requires |a| == |b|
    ensures XorBits(XorBits(a, b), b) == a
  {
  }

  /** Subtracting the generator does not change whether there is a remainder. */
  lemma Subtract(bits: seq<bool>)
    requires |bits| >= 17
    ensures Divide(Zeros(16), XorBits(bits, Generator(|bits| - 17))) == Divide(Zeros(16), bits)
  {
    var g := Generator(|bits| - 17);
    DivideLinear(Zeros(16), Zeros(16), bits, g);
    GeneratorDivides(|bits| - 17);
    SelfXor(Zeros(16));
    hide Divide;
    var r := Divide(Zeros(16), bits);
    assert XorBits(r, Zeros(16)) == r;
  }

  lemma DropZero(bits: seq<bool>)
    ensures Divide(Zeros(16), [false] + bits) == Divide(Zeros(16), bits)
  {
    LeadingZeros([false], bits);
  }

  lemma TimesNothing()
    ensures Times([]) == Zeros(16)
  {
    hide Odd;
    NoneIsEven();
  }

  /** Every multiple of the generator leaves no remainder. */
  lemma {:induction false} MultipleDivides(q: seq<bool>)
    ensures Divide(Zeros(16), Times(q)) == Zeros(16)
    decreases |q|
  {
    hide Divide, Times;
    if q == [] {
      TimesNothing();
      ZerosKeepRemainder(Zeros(16), Zeros(16));
      AllZeros(Divide(Zeros(16), Zeros(16)));
    } else {
      var b, rest := q[0], q[1..];
      assert q == [b] + rest;
      MultipleDivides(rest);
      TimesCons(b, rest);
      DropZero(Times(rest));
      if b {
        var shifted := [false] + Times(rest);
        Subtract(shifted);
        XorCommutes(Generator(|rest|), shifted);
      }
    }
  }

  lemma XorCommutes(a: seq<bool>, b: seq<bool>)
    requires |a| == |b|
    ensures XorBits(a, b) == XorBits(b, a)
  {
  }

  /** Whatever leaves no remainder is a multiple of the generator. */
  lemma {:induction false} Quotient(bits: seq<bool>) returns (q: seq<bool>)
    requires |bits| >= 16 && Divide(Zeros(16), bits) == Zeros(16)
    ensures |q| == |bits| - 16 && bits == Times(q)
    decreases |bits|
  {
    hide Divide, Times;
    if |bits| == 16 {
      ShortDividend(bits);
      assert Zeros(0) + bits == bits;
      q := [];
      TimesNothing();
    } else {
      var g := Generator(|bits| - 17);
      var shifted := if bits[0] then XorBits(bits, g) else bits;
      Subtract(bits);
      GeneratorAt(|bits| - 17, 0);
      assert !shifted[0] && shifted == [false] + shifted[1..];
      DropZero(shifted[1..]);
      var rest := Quotient(shifted[1..]);
      q := [bits[0]] + rest;
      TimesCons(bits[0], rest);
      XorTwice(bits, g);
      XorCommutes(g, shifted);
    }
  }
}
