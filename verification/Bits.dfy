/** Bytes, binary digits and byte orders, as Python's integers and `struct` use them. */
module Bits {
  import opened Basics

  type byte = x: int | 0 <= x < 256

  function Pow2(k: nat): (p: nat)
    ensures p > 0
  {
    if k == 0 then 1 else 2 * Pow2(k - 1)
  }

  // ---------- binary digits, least significant first ----------

  function Zeros(n: nat): (z: seq<bool>)
    ensures |z| == n
  {
    seq(n, _ => false)
  }

  function Xor(a: seq<bool>, b: seq<bool>): (r: seq<bool>)
    requires |a| == |b|
    ensures |r| == |a|
  {
    seq(|a|, i requires 0 <= i < |a| => a[i] != b[i])
  }

  /** The low `k` binary digits of `n`. */
  function Digits(n: nat, k: nat): (d: seq<bool>)
    ensures |d| == k
  {
    if k == 0 then [] else [n % 2 == 1] + Digits(n / 2, k - 1)
  }

  /** Digit i is the one that counts 2^i. */
  lemma {:induction false} DigitAt(n: nat, k: nat, i: nat)
    requires i < k
    ensures Digits(n, k)[i] <==> n / Pow2(i) % 2 == 1
  {
    if i > 0 {
      DigitAt(n / 2, k - 1, i - 1);
      HalfAgain(n, Pow2(i - 1));
    }
  }

  lemma HalfAgain(n: nat, p: nat)
    requires p > 0
    ensures n / 2 / p == n / (2 * p)
  {
    var q, r := n / 2 / p, n / 2 % p;
    var m := q * p;
    assert n / 2 == m + r;
    assert q * (2 * p) == 2 * m;
    Quotient(n, q, 2 * p, 2 * r + n % 2);
  }

  function Value(d: seq<bool>): nat {
    if d == [] then 0 else (if d[0] then 1 else 0) + 2 * Value(d[1..])
  }

  lemma {:induction false} ValueOfDigits(n: nat, k: nat)
    requires n < Pow2(k)
    ensures Value(Digits(n, k)) == n
  {
    if k > 0 {
      ValueOfDigits(n / 2, k - 1);
      assert Digits(n, k)[1..] == Digits(n / 2, k - 1);
    }
  }

  lemma {:induction false} DigitsOfValue(d: seq<bool>, k: nat)
    requires |d| <= k
    ensures Value(d) < Pow2(|d|)
    ensures Digits(Value(d), k) == d + Zeros(k - |d|)
  {
    if d == [] {
      ZeroDigits(k);
    } else {
      DigitsOfValue(d[1..], k - 1);
      assert Value(d) / 2 == Value(d[1..]);
      assert d == [d[0]] + d[1..];
    }
  }

  lemma {:induction false} ZeroDigits(k: nat)
    ensures Digits(0, k) == Zeros(k)
  {
    if k > 0 {
      ZeroDigits(k - 1);
    }
  }

  // ---------- Python's `|` on naturals ----------

  function BitOr(a: nat, b: nat): nat
    decreases a + b
  {
    if a == 0 then b else if b == 0 then a else
    (if a % 2 == 1 || b % 2 == 1 then 1 else 0) + 2 * BitOr(a / 2, b / 2)
  }

  /** Or-ing a number into the digits below a shifted one adds it. */
  lemma {:induction false} BitOrAdds(high: nat, low: nat, k: nat)
    requires low < Pow2(k)
    ensures BitOr(high * Pow2(k), low) == high * Pow2(k) + low
  {
    if k > 0 && high != 0 && low != 0 {
      var p := Pow2(k - 1);
      var a := high * p;
      assert high * Pow2(k) == 2 * a by { assert high * (2 * p) == 2 * (high * p); }
      BitOrAdds(high, low / 2, k - 1);
      assert a != 0;
      assert (2 * a) / 2 == a;
    }
  }

  // ---------- byte orders ----------

  function BigEndian(n: nat, k: nat): (b: seq<byte>)
    ensures |b| == k
  {
    if k == 0 then [] else BigEndian(n / 256, k - 1) + [n % 256]
  }

  function FromBigEndian(b: seq<byte>): nat {
    if b == [] then 0 else FromBigEndian(b[..|b| - 1]) * 256 + b[|b| - 1]
  }

  lemma {:induction false} FromBigEndianInverts(n: nat, k: nat)
    requires n < Pow2(8 * k)
    ensures FromBigEndian(BigEndian(n, k)) == n
  {
    if k > 0 {
      EightDoublings(8 * (k - 1));
      FromBigEndianInverts(n / 256, k - 1);
      assert BigEndian(n, k)[..k - 1] == BigEndian(n / 256, k - 1);
    }
  }

  lemma {:induction false} BigEndianInverts(b: seq<byte>)
    ensures FromBigEndian(b) < Pow2(8 * |b|)
    ensures BigEndian(FromBigEndian(b), |b|) == b
  {
    if b != [] {
      var head := b[..|b| - 1];
      EightDoublings(8 * |head|);
      BigEndianInverts(head);
      assert b == head + [b[|b| - 1]];
    }
  }

  lemma {:induction false} ValueSplit(d: seq<bool>, k: nat)
    requires k <= |d|
    ensures Value(d) == Value(d[..k]) + Pow2(k) * Value(d[k..])
  {
    if k == 0 {
      assert d[0..] == d;
    } else {
      ValueSplit(d[1..], k - 1);
      assert d[..k][1..] == d[1..][..k - 1] && d[1..][k - 1..] == d[k..];
      Doubled(Pow2(k - 1), Value(d[k..]));
    }
  }

  lemma Doubled(p: nat, x: nat)
    ensures 2 * p * x == 2 * (p * x)
  {
  }

  lemma BigEndianZero()
    ensures BigEndian(0, 2) == [0, 0] && BigEndian(0, 4) == [0, 0, 0, 0]
  {
    assert BigEndian(0, 1) == BigEndian(0, 0) + [0];
    assert BigEndian(0, 2) == BigEndian(0, 1) + [0];
    assert BigEndian(0, 3) == BigEndian(0, 2) + [0];
  }

  /** Cut into eights, the digits are the bytes, the highest eight first. */
  lemma {:induction false} BytesOfDigits(d: seq<bool>, k: nat, i: nat)
    requires |d| == 8 * k && i < k
    ensures BigEndian(Value(d), k)[i] as int == Value(d[8 * (k - 1 - i)..8 * (k - i)])
    decreases k
  {
    hide Value;
    var low, high := d[..8], d[8..];
    ValueSplit(d, 8);
    assert Pow2(8) == 256;
    DigitsOfValue(low, 8);
    LowByte(Value(low), Value(high));
    if i < k - 1 {
      BytesOfDigits(high, k - 1, i);
      assert high[8 * (k - 2 - i)..8 * (k - 1 - i)] == d[8 * (k - 1 - i)..8 * (k - i)];
    }
  }

  lemma LowByte(low: nat, high: nat)
    requires low < 256
    ensures (low + 256 * high) % 256 == low && (low + 256 * high) / 256 == high
  {
  }

  lemma EightDoublings(k: nat)
    ensures Pow2(k + 8) == 256 * Pow2(k)
  {
    assert Pow2(k + 2) == 4 * Pow2(k);
    assert Pow2(k + 4) == 16 * Pow2(k);
    assert Pow2(k + 6) == 64 * Pow2(k);
  }

  lemma FieldSizes()
    ensures Pow2(16) == 0x1_0000 && Pow2(32) == 0x1_0000_0000
  {
    assert Pow2(8) == 256;
    EightDoublings(8);
    EightDoublings(16);
    EightDoublings(24);
  }

  // ---------- Python slices ----------

  function Bound(i: int, n: nat): (j: nat)
    ensures j <= n
  {
    if i < 0 then (if i + n < 0 then 0 else i + n) else if i > n then n else i
  }

  /** data[low:high] with Python's treatment of negative and out-of-range bounds. */
  function Slice<T>(data: seq<T>, low: int, high: int): seq<T> {
    var a, b := Bound(low, |data|), Bound(high, |data|);
    if a <= b then data[a..b] else []
  }
}
