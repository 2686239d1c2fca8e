/**
  The two polynomials by their powers: bit i of the reflected constant is the coefficient of
  the power 31 - i, and the power 32 is left out.
 */
module CrcPolynomials {
  import opened Basics
  import opened Bits
  import opened Crc32

  const I := true
  const O := false

  lemma DoubleProduct(hi: nat, p: nat)
    ensures hi * (2 * p) == 2 * (hi * p)
  {
  }

  lemma {:induction false} DigitsSplit(n: nat, hi: nat, lo: nat, j: nat, k: nat)
    requires lo < Pow2(j) && n == hi * Pow2(j) + lo
    ensures Digits(n, j + k) == Digits(lo, j) + Digits(hi, k)
    decreases j
  {
    if j > 0 {
      var a := hi * Pow2(j - 1);
      DoubleProduct(hi, Pow2(j - 1));
      assert n == 2 * a + lo;
      DigitsSplit(a + lo / 2, hi, lo / 2, j - 1, k);
      assert n / 2 == a + lo / 2 && n % 2 == lo % 2;
      assert [lo % 2 == 1] + (Digits(lo / 2, j - 1) + Digits(hi, k)) == [lo % 2 == 1] + Digits(lo / 2, j - 1) + Digits(hi, k);
    }
  }

  lemma DigitsOfNext(n: nat, low: byte, high: nat, e: nat, k: nat)
    requires n == low as int + 256 * high && e == 8
    ensures Digits(n, e + k) == Digits(low, e) + Digits(high, k)
  {
    assert Pow2(8) == 256;
    hide *;
    DigitsSplit(n, high, low, e, k);
  }

  /** Two bytes below the rest, with the eight digits of a byte as `e`. */
  lemma DigitsOfTwo(n: nat, a: byte, b: byte, high: nat, e: nat, k: nat)
    requires n == a as int + 256 * (b as int + 256 * high) && e == 8
    ensures Digits(n, e + (e + k)) == Digits(a, e) + Digits(b, e) + Digits(high, k)
  {
    hide *;
    var rest := b as int + 256 * high;
    DigitsOfNext(n, a, rest, e, e + k);
    DigitsOfNext(rest, b, high, e, k);
    Associative(Digits(a, e), Digits(b, e), Digits(high, k));
  }

  lemma Byte78()
    ensures Digits(0x78, 8) == [O, O, O, I, I, I, I, O]
  {
  }

  lemma Byte3B()
    ensures Digits(0x3B, 8) == [I, I, O, I, I, I, O, O]
  {
  }

  lemma ByteF6()
    ensures Digits(0xF6, 8) == [O, I, I, O, I, I, I, I]
  {
  }

  lemma Byte82()
    ensures Digits(0x82, 8) == [O, I, O, O, O, O, O, I]
  {
  }

  /** CRC-32C, section 12.1 of RFC 3720: 0x11EDC6F41. */
  lemma CastagnoliPowers()
    ensures forall i :: 0 <= i < 32 ==>
      (Polynomial(CASTAGNOLI)[i] <==> 31 - i in {28, 27, 26, 25, 23, 22, 20, 19, 18, 14, 13, 11, 10, 9, 8, 6, 0})
  {
    hide Digits;
    Byte78();
    Byte3B();
    ByteF6();
    Byte82();
    DigitsOfTwo(CASTAGNOLI, 0x78, 0x3B, 0x82F6, 8, 16);
    DigitsOfNext(0x82F6, 0xF6, 0x82, 8, 8);
    assert Polynomial(CASTAGNOLI)
        == [O, O, O, I, I, I, I, O] + [I, I, O, I, I, I, O, O]
           + [O, I, I, O, I, I, I, I] + [O, I, O, O, O, O, O, I];
  }

  lemma Byte20()
    ensures Digits(0x20, 8) == [O, O, O, O, O, I, O, O]
  {
  }

  lemma Byte83()
    ensures Digits(0x83, 8) == [I, I, O, O, O, O, O, I]
  {
  }

  lemma ByteB8()
    ensures Digits(0xB8, 8) == [O, O, O, I, I, I, O, I]
  {
  }

  lemma ByteED()
    ensures Digits(0xED, 8) == [I, O, I, I, O, I, I, I]
  {
  }

  /** CRC-32, section 8 of RFC 1952: 0x104C11DB7. */
  lemma IeeePowers()
    ensures forall i :: 0 <= i < 32 ==>
      (Polynomial(IEEE)[i] <==> 31 - i in {26, 23, 22, 16, 12, 11, 10, 8, 7, 5, 4, 2, 1, 0})
  {
    hide Digits;
    Byte20();
    Byte83();
    ByteB8();
    ByteED();
    DigitsOfTwo(IEEE, 0x20, 0x83, 0xEDB8, 8, 16);
    DigitsOfNext(0xEDB8, 0xB8, 0xED, 8, 8);
    assert Polynomial(IEEE)
        == [O, O, O, O, O, I, O, O] + [I, I, O, O, O, O, O, I]
           + [O, O, O, I, I, I, O, I] + [I, O, I, I, O, I, I, I];
  }
}
