/** The reflected CRC-32 detects every burst of 32 digits and misses some of 33. */
module CrcBursts {
  import opened Basics
  import opened Bits
  import opened Crc32
  import opened CrcDivision

  lemma {:induction false} AllDigitsInjective(x: seq<byte>, y: seq<byte>)
    requires |x| == |y| && AllDigits(x) == AllDigits(y)
    ensures x == y
  {
    if x != [] {
      var n := |x| - 1;
      assert AllDigits(x)[..8 * n] == AllDigits(x[..n]) && AllDigits(y)[..8 * n] == AllDigits(y[..n]);
      assert AllDigits(x)[8 * n..] == Digits(x[n], 8) && AllDigits(y)[8 * n..] == Digits(y[n], 8);
      AllDigitsInjective(x[..n], y[..n]);
      ValueOfDigits8(x[n]);
      ValueOfDigits8(y[n]);
      assert x == x[..n] + [x[n]] && y == y[..n] + [y[n]];
    }
  }

  lemma PackedInjective(v: Word, w: Word)
    requires Packed(v) == Packed(w)
    ensures v == w
  {
    DigitsOfValue(v, 32);
    DigitsOfValue(w, 32);
    FromBigEndianInverts(Value(v), 4);
    FromBigEndianInverts(Value(w), 4);
    assert v == v + Zeros(0) && w == w + Zeros(0);
  }

  lemma ChecksumInjective(p: Word, v: seq<byte>, w: seq<byte>)
    requires Checksum(p, v) == Checksum(p, w)
    ensures Register(p, Ones(), v) == Register(p, Ones(), w)
  {
    var a, b := Register(p, Ones(), v), Register(p, Ones(), w);
    PackedInjective(Xor(a, Ones()), Xor(b, Ones()));
    XorCancel(a, b, Ones());
  }

  // ---------- division is linear and sees no leading zeros ----------

  lemma {:induction false} RemainderLinear(p: Word, a: seq<bool>, b: seq<bool>)
    requires |a| == |b| >= 32
    ensures Remainder(p, Xor(a, b)) == Xor(Remainder(p, a), Remainder(p, b))
    decreases |a|
  {
    if |a| > 32 {
      var a1 := Reduce(p, a);
      var b1 := Reduce(p, b);
      RemainderLinear(p, a1, b1);
      ReduceLinear(p, a, b);
    }
  }

  /** The dividend after its leading coefficient is cancelled. */
  function Reduce(p: Word, d: seq<bool>): (r: seq<bool>)
    requires |d| > 32
    ensures |r| == |d| - 1
    ensures Remainder(p, d) == Remainder(p, r)
  {
    if d[0] then Xor(d[1..33], p) + d[33..] else d[1..]
  }

  lemma ReduceLinear(p: Word, a: seq<bool>, b: seq<bool>)
    requires |a| == |b| > 32
    ensures Reduce(p, Xor(a, b)) == Xor(Reduce(p, a), Reduce(p, b))
  {
    hide Reduce;
    var c, r := Xor(a, b), Xor(Reduce(p, a), Reduce(p, b));
    forall i | 0 <= i < |a| - 1 ensures Reduce(p, c)[i] == r[i] {
      ReduceAt(p, a, i);
      ReduceAt(p, b, i);
      ReduceAt(p, c, i);
    }
  }

  lemma ReduceAt(p: Word, d: seq<bool>, i: nat)
    requires i < |d| - 1
    requires |d| > 32
    ensures Reduce(p, d)[i] == (d[i + 1] != (d[0] && i < 32 && p[i]))
  {
  }

  lemma {:induction false} RemainderOfZeros(p: Word, n: nat)
    ensures Remainder(p, Zeros(32 + n)) == Zeros(32)
  {
    if n > 0 {
      assert Zeros(32 + n)[1..] == Zeros(31 + n);
      RemainderOfZeros(p, n - 1);
    }
  }

  lemma {:induction false} LeadingZeros(p: Word, n: nat, d: seq<bool>)
    requires |d| >= 32
    ensures Remainder(p, Zeros(n) + d) == Remainder(p, d)
  {
    if n == 0 {
      assert Zeros(0) + d == d;
    } else {
      assert (Zeros(n) + d)[1..] == Zeros(n - 1) + d;
      LeadingZeros(p, n - 1, d);
    }
  }

  /** Trailing zeros are single steps. */
  lemma {:induction false} TrailingZeros(p: Word, w: Word, n: nat)
    ensures Remainder(p, w + Zeros(n)) == Steps(p, w, n)
    decreases n
  {
    if n == 0 {
      assert w + Zeros(0) == w;
    } else {
      DivideOnce(p, w, Zeros(n));
      assert Zeros(31) + Zeros(n)[..1] == Zeros(32) && Zeros(n)[1..] == Zeros(n - 1);
      XorWithZeros(Step(p, w));
      TrailingZeros(p, Step(p, w), n - 1);
    }
  }

  // ---------- 32 digits are detected ----------

  /** A difference inside 32 digits that leaves no remainder is none. */
  lemma BurstLeavesRemainder(p: Word, d: seq<bool>, low: nat)
    requires p[31] && low + 32 <= |d| && SameOutside(d, Zeros(|d|), low, low + 32)
    requires Remainder(p, d) == Zeros(32)
    ensures d == Zeros(|d|)
  {
    var w, n := d[low..low + 32], |d| - low - 32;
    assert d == Zeros(low) + (w + Zeros(n));
    hide Remainder, Steps;
    LeadingZeros(p, low, w + Zeros(n));
    TrailingZeros(p, w, n);
    TrailingZeros(p, Zeros(32), n);
    RemainderOfZeros(p, n);
    assert Zeros(32) + Zeros(n) == Zeros(32 + n);
    StepsInjective(p, w, Zeros(32), n);
  }

  lemma DifferenceOfDividends(x: seq<byte>, y: seq<byte>)
    requires |x| == |y|
    ensures Xor(Dividend(Ones(), x), Dividend(Ones(), y)) == Xor(AllDigits(x), AllDigits(y)) + Zeros(32)
  {
    hide AllDigits;
  }

  /**
    Messages of one length whose digits, in the order of the division, agree outside any 32
    consecutive ones have different checksums or are equal. The 32 digits may lie in five bytes.
   */
  lemma BurstChangesChecksum(p: Word, x: seq<byte>, y: seq<byte>, low: nat)
    requires p[31] && SameOutside(AllDigits(x), AllDigits(y), low, low + 32)
    requires Checksum(p, x) == Checksum(p, y)
    ensures x == y
  {
    hide Checksum, Register, Remainder, AllDigits, Dividend;
    var r := Register(p, Ones(), x);
    ChecksumInjective(p, x, y);
    RegisterIsRemainder(p, Ones(), x);
    RegisterIsRemainder(p, Ones(), y);
    RemainderLinear(p, Dividend(Ones(), x), Dividend(Ones(), y));
    DifferenceOfDividends(x, y);
    assert Xor(r, r) == Zeros(32);
    var e := Xor(AllDigits(x), AllDigits(y));
    if low < |e| {
      BurstLeavesRemainder(p, e + Zeros(32), low);
      assert e == (e + Zeros(32))[..|e|] == Zeros(|e|);
    }
    NoDifference(AllDigits(x), AllDigits(y));
    AllDigitsInjective(x, y);
  }

  lemma NoDifference(a: seq<bool>, b: seq<bool>)
    requires |a| == |b| && Xor(a, b) == Zeros(|a|)
    ensures a == b
  {
    forall i | 0 <= i < |a| ensures a[i] == b[i] {
      assert Xor(a, b)[i] == Zeros(|a|)[i];
    }
  }

  lemma AllDigitsSnoc(data: seq<byte>, b: byte)
    ensures AllDigits(data + [b]) == AllDigits(data) + Digits(b, 8)
  {
    assert (data + [b])[..|data|] == data;
  }

  // ---------- 33 digits need not be ----------

  /** The divisor itself, 33 digits, as the start of five bytes. */
  function Divisor(p: Word): (d: seq<bool>)
    ensures |d| == 40
  {
    [true] + p + Zeros(7)
  }

  lemma DivisorLeavesNothing(p: Word, n: nat)
    ensures Remainder(p, Divisor(p) + Zeros(n)) == Zeros(32)
  {
    var d := Divisor(p) + Zeros(n);
    assert d[1..33] == p;
    assert Xor(p, p) == Zeros(32);
    assert Reduce(p, d) == Zeros(32 + 7 + n);
    RemainderOfZeros(p, 7 + n);
  }

  /** Eight digits a byte. */
  function BytesOf(d: seq<bool>, n: nat): (b: seq<byte>)
    requires |d| == 8 * n
    ensures |b| == n
  {
    if n == 0 then [] else
    DigitsOfValue(d[8 * n - 8..], 8);
    assert Pow2(8) == 256;
    BytesOf(d[..8 * n - 8], n - 1) + [Value(d[8 * n - 8..])]
  }

  lemma DigitsOfEight(d: seq<bool>)
    requires |d| == 8
    ensures Value(d) < 256 && Digits(Value(d), 8) == d
  {
    DigitsOfValue(d, 8);
    assert Pow2(8) == 256;
    assert d + Zeros(0) == d;
  }

  lemma {:induction false} DigitsOfBytes(d: seq<bool>, n: nat)
    requires |d| == 8 * n
    ensures AllDigits(BytesOf(d, n)) == d
    decreases n
  {
    hide Value, Digits;
    if n > 0 {
      var high, low := d[..8 * n - 8], d[8 * n - 8..];
      DigitsOfEight(low);
      DigitsOfBytes(high, n - 1);
      assert BytesOf(d, n) == BytesOf(high, n - 1) + [Value(low)];
      hide *;
      AllDigitsSnoc(BytesOf(high, n - 1), Value(low));
      assert d == high + low;
    }
  }

  /** Five bytes with the divisor xored in. */
  function Flip(p: Word, x: seq<byte>): (y: seq<byte>)
    requires |x| == 5
    ensures |y| == 5
  {
    BytesOf(Xor(AllDigits(x), Divisor(p)), 5)
  }

  lemma FlipChanges(p: Word, x: seq<byte>)
    requires |x| == 5
    ensures Flip(p, x) != x
  {
    DigitsOfBytes(Xor(AllDigits(x), Divisor(p)), 5);
    assert Xor(AllDigits(x), Divisor(p))[0] != AllDigits(x)[0];
  }

  lemma FlipDividend(p: Word, v: Word, x: seq<byte>)
    requires |x| == 5
    ensures Dividend(v, Flip(p, x)) == Xor(Dividend(v, x), Divisor(p) + Zeros(32))
  {
    DigitsOfBytes(Xor(AllDigits(x), Divisor(p)), 5);
    hide Flip, AllDigits, Divisor;
    XorDividend(v, x, Flip(p, x), Divisor(p));
  }

  lemma XorDividend(v: Word, x: seq<byte>, y: seq<byte>, e: seq<bool>)
    requires |e| == 8 * |x| && AllDigits(y) == Xor(AllDigits(x), e)
    ensures Dividend(v, y) == Xor(Dividend(v, x), e + Zeros(32))
  {
    hide AllDigits;
    var a, b := AllDigits(x) + Zeros(32), AllDigits(y) + Zeros(32);
    assert b == Xor(a, e + Zeros(32));
  }

  /** The change is confined to 33 digits. */
  lemma FlippedDigits(p: Word, x: seq<byte>)
    requires |x| == 5
    ensures SameOutside(AllDigits(Flip(p, x)), AllDigits(x), 0, 33)
  {
    DigitsOfBytes(Xor(AllDigits(x), Divisor(p)), 5);
  }

  /** A burst of 33 digits, in five bytes, can leave every register, hence every checksum, unchanged. */
  lemma FlipGoesUnnoticed(p: Word, before: seq<byte>, x: seq<byte>, after: seq<byte>)
    requires |x| == 5
    ensures Checksum(p, before + Flip(p, x) + after) == Checksum(p, before + x + after)
    ensures Flip(p, x) != x
  {
    FlipChanges(p, x);
    var v := Register(p, Ones(), before);
    RegisterIsRemainder(p, v, x);
    RegisterIsRemainder(p, v, Flip(p, x));
    FlipDividend(p, v, x);
    RemainderLinear(p, Dividend(v, x), Divisor(p) + Zeros(32));
    DivisorLeavesNothing(p, 32);
    XorWithZeros(Remainder(p, Dividend(v, x)));
    RegisterConcat(p, Ones(), before, x);
    RegisterConcat(p, Ones(), before, Flip(p, x));
    RegisterConcat(p, Ones(), before + x, after);
    RegisterConcat(p, Ones(), before + Flip(p, x), after);
  }

  lemma XorWithZeros(w: Word)
    ensures Xor(w, Zeros(32)) == w
  {
  }
}
