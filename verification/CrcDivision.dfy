/** The table-driven checksum is the polynomial division of section 12.1 of RFC 3720. */
module CrcDivision {
  import opened Bits
  import opened Crc32

  /**
    The remainder of schoolbook division over GF(2): coefficients run from the highest
    power down, the divisor is x^32 followed by `p`, and a leading coefficient of one
    cancels by xoring the divisor in.
   */
  function Remainder(p: Word, dividend: seq<bool>): Word
    requires |dividend| >= 32
    decreases |dividend|
  {
    if |dividend| == 32 then dividend
    else if dividend[0] then Remainder(p, Xor(dividend[1..33], p) + dividend[33..])
    else Remainder(p, dividend[1..])
  }

  /** The message times x^32, with `v` added to its first 32 coefficients. */
  function Dividend(v: Word, data: seq<byte>): (d: seq<bool>)
    ensures |d| == 8 * |data| + 32
  {
    var d := AllDigits(data) + Zeros(32);
    Xor(d[..32], v) + d[32..]
  }

  /** One digit of the quotient. */
  lemma DivideOnce(p: Word, w: Word, rest: seq<bool>)
    requires rest != []
    ensures Remainder(p, w + rest) == Remainder(p, Xor(Step(p, w), Zeros(31) + rest[..1]) + rest[1..])
  {
    hide Step, Xor, Zeros;
    var d := w + rest;
    StepIn(p, w, rest[..1]);
    assert d[1..33] == w[1..] + rest[..1] && d[33..] == rest[1..] && d[1..] == d[1..33] + d[33..];
    Unfold(p, d);
  }

  lemma Unfold(p: Word, d: seq<bool>)
    requires |d| > 32
    ensures Remainder(p, d) == Remainder(p, (if d[0] then Xor(d[1..33], p) else d[1..33]) + d[33..])
  {
    hide Xor;
    assert d[1..] == d[1..33] + d[33..];
  }

  /** A step that takes in the next digit of the dividend. */
  lemma StepIn(p: Word, w: Word, next: seq<bool>)
    requires |next| == 1
    ensures Xor(Step(p, w), Zeros(31) + next) == if w[0] then Xor(w[1..] + next, p) else w[1..] + next
  {
  }

  lemma {:induction false} DivideBlock(p: Word, w: Word, rest: seq<bool>, k: nat)
    requires k <= 32 && k <= |rest|
    ensures Remainder(p, w + rest) == Remainder(p, Xor(Steps(p, w, k), Zeros(32 - k) + rest[..k]) + rest[k..])
    decreases k
  {
    if k == 0 {
      assert Xor(w, Zeros(32) + []) == w;
    } else {
      var bit := Zeros(31) + rest[..1];
      DivideOnce(p, w, rest);
      DivideBlock(p, Xor(Step(p, w), bit), rest[1..], k - 1);
      StepsLinear(p, Step(p, w), bit, k - 1);
      assert bit == Zeros(k - 1) + (Zeros(32 - k) + rest[..1]);
      ShiftOut(p, Zeros(32 - k) + rest[..1], k - 1);
      XorAssociative(Steps(p, w, k), Zeros(32 - k) + rest[..1] + Zeros(k - 1), Zeros(33 - k) + rest[1..][..k - 1]);
      JoinDigits(rest, k);
      assert rest[1..][k - 1..] == rest[k..];
    }
  }

  lemma JoinDigits(rest: seq<bool>, k: nat)
    requires 0 < k <= 32 && k <= |rest|
    ensures Xor(Zeros(32 - k) + rest[..1] + Zeros(k - 1), Zeros(33 - k) + rest[1..][..k - 1]) == Zeros(32 - k) + rest[..k]
  {
  }

  /** Dividing out one byte leaves the dividend of the remaining bytes. */
  lemma DivideByte(p: Word, v: Word, b: byte, data: seq<byte>)
    ensures Remainder(p, Dividend(v, [b] + data)) == Remainder(p, Dividend(ByteStep(p, v, b), data))
  {
    hide Remainder, ByteStep, Steps, Digits;
    AllDigitsConcat([b], data);
    assert AllDigits([b]) == Digits(b, 8);
    var d := AllDigits(data) + Zeros(32);
    var first, rest := Digits(b, 8) + d[..24], d[24..];
    assert (AllDigits([b] + data) + Zeros(32))[..32] == first;
    assert (AllDigits([b] + data) + Zeros(32))[32..] == rest;
    DivideBlock(p, Xor(first, v), rest, 8);
    FirstWord(p, v, b, d[..24]);
    StepsLinear(p, Xor(v, Digits(b, 8) + Zeros(24)), Zeros(8) + d[..24], 8);
    ShiftOut(p, d[..24], 8);
    ByteStepIsEightSteps(p, v, b);
    var s := ByteStep(p, v, b);
    XorAssociative(s, d[..24] + Zeros(8), Zeros(24) + rest[..8]);
    XorParts(d[..24], rest[..8]);
    assert d[..24] + rest[..8] == d[..32];
    XorSwap(s, d[..32]);
    assert rest[8..] == d[32..];
  }

  lemma FirstWord(p: Word, v: Word, b: byte, next: seq<bool>)
    requires |next| == 24
    ensures Xor(Digits(b, 8) + next, v) == Xor(Xor(v, Digits(b, 8) + Zeros(24)), Zeros(8) + next)
  {
  }

  lemma XorSwap(a: seq<bool>, b: seq<bool>)
    requires |a| == |b|
    ensures Xor(a, b) == Xor(b, a)
  {
  }

  /** The table loop computes the remainder of the whole message at once. */
  lemma {:induction false} RegisterIsRemainder(p: Word, v: Word, data: seq<byte>)
    ensures Register(p, v, data) == Remainder(p, Dividend(v, data))
    decreases |data|
  {
    if data == [] {
      assert Dividend(v, []) == v by { XorZero(v); }
    } else {
      var rest := data[1..];
      assert data == [data[0]] + rest;
      RegisterConcat(p, v, [data[0]], rest);
      assert [data[0]][..0] == [];
      assert Register(p, v, [data[0]]) == ByteStep(p, v, data[0]);
      RegisterIsRemainder(p, ByteStep(p, v, data[0]), rest);
      DivideByte(p, v, data[0], rest);
    }
  }

  lemma XorZero(v: Word)
    ensures Dividend(v, []) == v
  {
    assert AllDigits([]) + Zeros(32) == Zeros(32);
    assert Zeros(32)[..32] == Zeros(32) && Zeros(32)[32..] == [];
    assert Xor(Zeros(32), v) == v;
  }

  /**
    The 256-entry table form is the standard's division: complement the first 32
    coefficients, multiply by x^32, divide, complement the remainder. The four bytes are the
    remainder's number, the most significant byte first.
   */
  lemma ChecksumIsDivision(p: Word, data: seq<byte>)
    ensures FromBigEndian(Checksum(p, data)) == Value(Xor(Remainder(p, Dividend(Ones(), data)), Ones()))
    ensures forall i :: 0 <= i < 4 ==>
      Checksum(p, data)[i] as int == Value(Xor(Remainder(p, Dividend(Ones(), data)), Ones())[24 - 8 * i..32 - 8 * i])
  {
    RegisterIsRemainder(p, Ones(), data);
    var w := Xor(Remainder(p, Dividend(Ones(), data)), Ones());
    assert Checksum(p, data) == Packed(w);
    hide *;
    PackedBytes(w);
  }
}
