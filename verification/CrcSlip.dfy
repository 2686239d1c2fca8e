/**
  One checksum alone misses a burst of four bytes that runs from the last byte of the message
  into the checksum, because the checksum is sent with its high byte first.
 */
module CrcSlip {
  import opened Bits
  import opened Crc32
  import opened CrcBursts
  import opened CrcPolynomials

  /** Changing these digits of the last byte leaves the low eight digits of the register alone. */
  const SLIP: byte := 0x5D

  const I := true
  const O := false

  /** 0x3B78, without its highest digit. */
  predicate LowDigits(p: Word) {
    && !p[0] && !p[1] && !p[2] && p[3] && p[4] && p[5] && p[6] && !p[7]
    && p[8] && p[9] && !p[10] && p[11] && p[12] && p[13] && !p[14]
  }

  lemma LowPolynomial()
    ensures LowDigits(Polynomial(CASTAGNOLI))
  {
    hide Polynomial;
    CastagnoliPowers();
  }

  lemma LiteralSlip()
    ensures Digits(SLIP, 8) == [I, O, I, I, I, O, I, O]
  {
  }

  /** Every digit of a step but the last, from its neighbour and the lowest digit. */
  predicate Follows(p: Word, v: Word, t: Word) {
    forall i :: 0 <= i < 31 ==> t[i] == (v[i + 1] != (v[0] && p[i]))
  }

  lemma StepFollows(p: Word, v: Word)
    ensures Follows(p, v, Step(p, v)) && Step(p, v)[31] == (v[0] && p[31])
  {
  }

  function Step4(p: Word, v: Word): Word { Step(p, Step(p, Step(p, Step(p, v)))) }

  lemma FourFollow(p: Word, v: Word)
    ensures var a := Step(p, v); var b := Step(p, a); var c := Step(p, b);
      Follows(p, v, a) && Follows(p, a, b) && Follows(p, b, c) && Follows(p, c, Step4(p, v))
    ensures Steps(p, v, 4) == Step4(p, v)
  {
    hide Step, Follows;
    var a := Step(p, v);
    var b := Step(p, a);
    StepFollows(p, v);
    StepFollows(p, a);
    StepFollows(p, b);
    StepFollows(p, Step(p, b));
    assert Steps(p, v, 4) == Steps(p, b, 2);
  }

  lemma SlipLeavesLowDigits(p: Word)
    requires LowDigits(p)
    ensures Steps(p, Digits(SLIP, 8) + Zeros(24), 8)[..8] == Zeros(8)
  {
    var v := Digits(SLIP, 8) + Zeros(24);
    LiteralSlip();
    hide Step, Steps, Digits;
    StepsAdd(p, v, 4, 4);
    FirstFour(p, v);
    LastFour(p, Step4(p, v));
    FourFollow(p, v);
    FourFollow(p, Step4(p, v));
  }

  lemma FirstFour(p: Word, v: Word)
    requires LowDigits(p) && v[..16] == [I, O, I, I, I, O, I, O, O, O, O, O, O, O, O, O]
    ensures var w := Step4(p, v);
      !w[0] && w[1] && w[2] && w[3] && !w[4] && w[5] && !w[6] && w[7] && w[8] && !w[9] && !w[10] && !w[11]
  {
    hide Step, Step4;
    assert forall i :: 0 <= i < 16 ==> v[i] == v[..16][i];
    FourFollow(p, v);
  }

  lemma LastFour(p: Word, w: Word)
    requires LowDigits(p)
    requires !w[0] && w[1] && w[2] && w[3] && !w[4] && w[5] && !w[6] && w[7] && w[8] && !w[9] && !w[10] && !w[11]
    ensures Step4(p, w)[..8] == Zeros(8)
  {
    hide Step, Step4;
    FourFollow(p, w);
  }

  /** The byte with those digits changed. */
  function Slip(b: byte): (c: byte)
    ensures Digits(c, 8) == Xor(Digits(b, 8), Digits(SLIP, 8))
  {
    var d := Xor(Digits(b, 8), Digits(SLIP, 8));
    DigitsOfValue(d, 8);
    assert Pow2(8) == 256;
    assert d + Zeros(0) == d;
    Value(d)
  }

  lemma SlipChanges(b: byte)
    ensures Slip(b) != b
  {
    LiteralSlip();
    assert Digits(Slip(b), 8)[0] != Digits(b, 8)[0];
  }

  lemma SlipDigits(b: byte)
    ensures Digits(Slip(b), 8) + Zeros(24) == Xor(Digits(b, 8) + Zeros(24), Digits(SLIP, 8) + Zeros(24))
  {
    hide Digits, Slip;
  }

  lemma SlippedRegister(v: Word, b: byte)
    ensures ByteStep(Polynomial(CASTAGNOLI), v, Slip(b))[..8] == ByteStep(Polynomial(CASTAGNOLI), v, b)[..8]
  {
    var p := Polynomial(CASTAGNOLI);
    var x, y := Digits(b, 8) + Zeros(24), Digits(SLIP, 8) + Zeros(24);
    hide *;
    ByteStepIsEightSteps(p, v, b);
    ByteStepIsEightSteps(p, v, Slip(b));
    LowPolynomial();
    SlipLeavesLowDigits(p);
    SlipDigits(b);
    XorAssociative(v, x, y);
    StepsLinear(p, Xor(v, x), y, 8);
    SameLow(Steps(p, Xor(v, x), 8), Steps(p, y, 8));
  }

  lemma SameLow(a: Word, b: Word)
    requires b[..8] == Zeros(8)
    ensures Xor(a, b)[..8] == a[..8]
  {
    forall i | 0 <= i < 8 ensures !b[i] {
      assert b[..8][i] == Zeros(8)[i];
    }
  }

  /** The two checksums end in the same byte, so the messages differ in one byte and their checksums in three. */
  lemma SlippedChecksum(before: seq<byte>, b: byte)
    ensures var p := Polynomial(CASTAGNOLI);
      Slip(b) != b && Checksum(p, before + [Slip(b)])[3] == Checksum(p, before + [b])[3]
  {
    var p := Polynomial(CASTAGNOLI);
    hide Polynomial, ByteStep, Packed, Slip, Value;
    SlipChanges(b);
    var v := Register(p, Ones(), before);
    SlippedRegister(v, b);
    assert (before + [b])[..|before|] == before && (before + [Slip(b)])[..|before|] == before;
    var r, t := ByteStep(p, v, b), ByteStep(p, v, Slip(b));
    assert Xor(r, Ones())[..8] == Xor(r[..8], Ones()[..8]) && Xor(t, Ones())[..8] == Xor(t[..8], Ones()[..8]);
    PackedBytes(Xor(r, Ones()));
    PackedBytes(Xor(t, Ones()));
  }

  // ---------- two zero bytes and four ----------

  /** From all ones, the lowest digit after fifteen steps. */
  lemma FifteenSteps(p: Word, v: Word)
    requires LowDigits(p) && forall i :: 0 <= i < 32 ==> v[i]
    ensures !Step(p, Step(p, Step(p, Step4(p, Step4(p, Step4(p, v))))))[0]
  {
    hide Step, Step4;
    var a := Step4(p, v);
    var b := Step4(p, a);
    var c := Step4(p, b);
    FourFollow(p, v);
    FourFollow(p, a);
    FourFollow(p, b);
    FourFollow(p, c);
  }

  lemma SixteenSteps(p: Word)
    requires LowDigits(p)
    ensures Steps(p, Ones(), 16) != Ones()
  {
    var v := Ones();
    var a, b, c := Step4(p, v), Step4(p, Step4(p, v)), Step4(p, Step4(p, Step4(p, v)));
    FifteenSteps(p, v);
    hide Step, Steps;
    FourFollow(p, v);
    FourFollow(p, a);
    FourFollow(p, b);
    FourFollow(p, c);
    StepsAdd(p, v, 4, 4);
    StepsAdd(p, v, 8, 4);
    StepsAdd(p, v, 12, 4);
    StepFollows(p, Step(p, Step(p, Step(p, c))));
  }

  lemma ZeroBytes(p: Word, v: Word)
    ensures Register(p, v, [0, 0]) == Steps(p, v, 16)
  {
    hide ByteStep, Steps;
    ByteStepIsEightSteps(p, v, 0);
    ByteStepIsEightSteps(p, Steps(p, v, 8), 0);
    ZeroDigits(8);
    NoChange(v);
    NoChange(Steps(p, v, 8));
    StepsAdd(p, v, 8, 8);
    assert [0, 0][..1] == [0] && [0][..0] == [];
    assert Register(p, v, [0]) == ByteStep(p, v, 0);
  }

  lemma NoChange(v: Word)
    ensures Xor(v, Zeros(8) + Zeros(24)) == v
  {
  }

  /** CRC-32C tells two zero bytes from four. */
  lemma ZerosDiffer(p: Word)
    requires p == Polynomial(CASTAGNOLI) && p[31]
    ensures Checksum(p, [0, 0]) != Checksum(p, [0, 0, 0, 0])
  {
    hide Polynomial, Steps, Checksum, Register;
    LowPolynomial();
    SixteenSteps(p);
    var r := Steps(p, Ones(), 16);
    assert [0, 0, 0, 0] == [0, 0] + [0, 0];
    RegisterConcat(p, Ones(), [0, 0], [0, 0]);
    ZeroBytes(p, Ones());
    ZeroBytes(p, r);
    if Checksum(p, [0, 0]) == Checksum(p, [0, 0, 0, 0]) {
      ChecksumInjective(p, [0, 0], [0, 0, 0, 0]);
      StepsInjective(p, r, Ones(), 16);
    }
  }

  lemma EmptyChecksum(p: Word)
    ensures Checksum(p, []) == [0, 0, 0, 0]
  {
    assert Xor(Ones(), Ones()) == Zeros(32);
    ZeroValue(32);
    BigEndianZero();
  }

  lemma {:induction false} ZeroValue(n: nat)
    ensures Value(Zeros(n)) == 0
  {
    if n > 0 {
      assert Zeros(n)[1..] == Zeros(n - 1);
      ZeroValue(n - 1);
    }
  }
}
