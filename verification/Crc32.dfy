/**
  The reflected CRC-32 of `hk-bridge.py` (CRC-32C, section 12.1 of RFC 3720) and of
  Zephyr's `crc32_ieee_update` (section 8 of RFC 1952), for any 32-bit polynomial.
  A register is the list of its 32 binary digits, least significant first, so `>> k`
  drops k digits from the front and `^` works digit by digit.
 */
module Crc32 {
  import opened Bits

  type Word = w: seq<bool> | |w| == 32 witness Zeros(32)

  const CASTAGNOLI := 0x82F63B78
  const IEEE := 0xEDB88320

  function Polynomial(p: nat): Word { Digits(p, 32) }

  function Ones(): (w: Word)
    ensures forall i :: 0 <= i < 32 ==> w[i]
  {
    seq(32, _ => true)
  }

  /** (value >> 1) ^ (polynomial if value & 1 else 0) */
  function Step(p: Word, v: Word): Word {
    Xor(v[1..] + [false], if v[0] then p else Zeros(32))
  }

  function Steps(p: Word, v: Word, n: nat): Word
    decreases n
  {
    if n == 0 then v else Steps(p, Step(p, v), n - 1)
  }

  function TableEntry(p: Word, index: byte): Word {
    Steps(p, Digits(index, 32), 8)
  }

  /** (value ^ byte) & 0xFF */
  function Index(v: Word, b: byte): byte {
    DigitsOfValue(Xor(v, Digits(b, 32))[..8], 8);
    assert Pow2(8) == 256;
    Value(Xor(v, Digits(b, 32))[..8])
  }

  /** table[(value ^ byte) & 0xFF] ^ (value >> 8) */
  function ByteStep(p: Word, v: Word, b: byte): Word {
    Xor(TableEntry(p, Index(v, b)), v[8..] + Zeros(8))
  }

  function Register(p: Word, v: Word, data: seq<byte>): Word {
    if data == [] then v else ByteStep(p, Register(p, v, data[..|data| - 1]), data[|data| - 1])
  }

  function Packed(w: Word): seq<byte> { BigEndian(Value(w), 4) }

  function Checksum(p: Word, data: seq<byte>): (c: seq<byte>)
    ensures |c| == 4
  {
    Packed(Xor(Register(p, Ones(), data), Ones()))
  }

  /** The four bytes are the register's number, its highest eight digits first. */
  lemma PackedBytes(w: Word)
    ensures FromBigEndian(Packed(w)) == Value(w)
    ensures forall i :: 0 <= i < 4 ==> Packed(w)[i] as int == Value(w[24 - 8 * i..32 - 8 * i])
  {
    DigitsOfValue(w, 32);
    hide Value, BigEndian, FromBigEndian, Pow2, Digits, Zeros;
    FromBigEndianInverts(Value(w), 4);
    forall i | 0 <= i < 4 ensures Packed(w)[i] as int == Value(w[24 - 8 * i..32 - 8 * i]) {
      PackedByte(w, i);
    }
  }

  lemma PackedByte(w: Word, i: nat)
    requires i < 4
    ensures Packed(w)[i] as int == Value(w[24 - 8 * i..32 - 8 * i])
  {
    hide Value, BigEndian;
    BytesOfDigits(w, 4, i);
  }

  // ---------- the loops of the source ----------

  method BuildTable(p: Word) returns (table: seq<Word>)
    ensures |table| == 256
    ensures forall i :: 0 <= i < 256 ==> table[i] == TableEntry(p, i)
  {
    hide Xor, Digits;
    table := [];
    for index := 0 to 256
      invariant |table| == index
      invariant forall i :: 0 <= i < index ==> table[i] == TableEntry(p, i)
    {
      var value: Word := Digits(index, 32);
      for k := 0 to 8
        invariant Steps(p, value, 8 - k) == TableEntry(p, index)
      {
        value := Xor(value[1..] + [false], if value[0] then p else Zeros(32));
      }
      table := table + [value];
    }
  }

  method Compute(p: Word, table: seq<Word>, data: seq<byte>) returns (checksum: seq<byte>)
    requires |table| == 256
    requires forall i :: 0 <= i < 256 ==> table[i] == TableEntry(p, i)
    ensures checksum == Checksum(p, data)
  {
    var value: Word := Ones();
    for i := 0 to |data|
      invariant value == Register(p, Ones(), data[..i])
    {
      assert data[..i + 1][..i] == data[..i];
      value := Xor(table[Index(value, data[i])], value[8..] + Zeros(8));
    }
    assert data[..|data|] == data;
    checksum := BigEndian(Value(Xor(value, Ones())), 4);
  }

  // ---------- one step is linear and one-to-one ----------

  lemma XorCancel(a: seq<bool>, b: seq<bool>, x: seq<bool>)
    requires |a| == |b| == |x| && Xor(a, x) == Xor(b, x)
    ensures a == b
  {
    forall i | 0 <= i < |a| ensures a[i] == b[i] {
      assert Xor(a, x)[i] == Xor(b, x)[i];
    }
  }

  lemma XorAssociative(a: seq<bool>, b: seq<bool>, c: seq<bool>)
    requires |a| == |b| == |c|
    ensures Xor(Xor(a, b), c) == Xor(a, Xor(b, c))
  {
  }

  lemma XorParts(a: seq<bool>, b: seq<bool>)
    ensures Xor(a + Zeros(|b|), Zeros(|a|) + b) == a + b
  {
  }

  lemma {:induction false} StepsLinear(p: Word, a: Word, b: Word, n: nat)
    ensures Steps(p, Xor(a, b), n) == Xor(Steps(p, a, n), Steps(p, b, n))
    decreases n
  {
    if n > 0 {
      assert Step(p, Xor(a, b)) == Xor(Step(p, a), Step(p, b));
      StepsLinear(p, Step(p, a), Step(p, b), n - 1);
    }
  }

  lemma StepInjective(p: Word, a: Word, b: Word)
    requires p[31]
    requires Step(p, a) == Step(p, b)
    ensures a == b
  {
    assert Step(p, a)[31] == a[0] && Step(p, b)[31] == b[0];
    forall i | 1 <= i < 32 ensures a[i] == b[i] {
      assert Step(p, a)[i - 1] == Step(p, b)[i - 1];
    }
  }

  lemma {:induction false} StepsInjective(p: Word, a: Word, b: Word, n: nat)
    requires p[31]
    requires Steps(p, a, n) == Steps(p, b, n)
    ensures a == b
    decreases n
  {
    if n > 0 {
      StepsInjective(p, Step(p, a), Step(p, b), n - 1);
      StepInjective(p, a, b);
    }
  }

  lemma {:induction false} StepsAdd(p: Word, v: Word, m: nat, n: nat)
    ensures Steps(p, v, m + n) == Steps(p, Steps(p, v, m), n)
    decreases m
  {
    if m > 0 {
      StepsAdd(p, Step(p, v), m - 1, n);
    }
  }

  /** Leading zero digits only shift out. */
  lemma {:induction false} ShiftOut(p: Word, high: seq<bool>, k: nat)
    requires |high| + k == 32
    ensures Steps(p, Zeros(k) + high, k) == high + Zeros(k)
    decreases k
  {
    if k == 0 {
      assert Zeros(0) + high == high + Zeros(0);
    } else {
      assert Step(p, Zeros(k) + high) == Zeros(k - 1) + (high + [false]);
      ShiftOut(p, high + [false], k - 1);
      assert high + [false] + Zeros(k - 1) == high + Zeros(k);
    }
  }

  lemma DigitsOfByte(b: byte)
    ensures Digits(b, 32) == Digits(b, 8) + Zeros(24)
  {
    ValueOfDigits8(b);
    DigitsOfValue(Digits(b, 8), 32);
  }

  /** The table entry is what eight steps make of the low eight digits alone. */
  lemma TableEntryOfLow(p: Word, v: Word, b: byte)
    ensures TableEntry(p, Index(v, b)) == Steps(p, Xor(v, Digits(b, 32))[..8] + Zeros(24), 8)
  {
    DigitsOfValue(Xor(v, Digits(b, 32))[..8], 32);
  }

  lemma SplitLow(v: Word, b: byte)
    ensures Xor(v, Digits(b, 8) + Zeros(24))
         == Xor(Xor(v, Digits(b, 32))[..8] + Zeros(24), Zeros(8) + v[8..])
  {
    DigitsOfByte(b);
  }

  /** The table step is eight single steps on the register with the byte xored in. */
  lemma ByteStepIsEightSteps(p: Word, v: Word, b: byte)
    ensures ByteStep(p, v, b) == Steps(p, Xor(v, Digits(b, 8) + Zeros(24)), 8)
  {
    TableEntryOfLow(p, v, b);
    SplitLow(v, b);
    StepsLinear(p, Xor(v, Digits(b, 32))[..8] + Zeros(24), Zeros(8) + v[8..], 8);
    ShiftOut(p, v[8..], 8);
  }

  lemma ValueOfDigits8(b: byte)
    ensures Value(Digits(b, 8)) == b
  {
    assert Pow2(8) == 256;
    ValueOfDigits(b, 8);
  }

  function AllDigits(data: seq<byte>): (d: seq<bool>)
    ensures |d| == 8 * |data|
  {
    if data == [] then [] else AllDigits(data[..|data| - 1]) + Digits(data[|data| - 1], 8)
  }

  lemma {:induction false} RegisterConcat(p: Word, v: Word, a: seq<byte>, b: seq<byte>)
    ensures Register(p, v, a + b) == Register(p, Register(p, v, a), b)
  {
    if b == [] {
      assert a + b == a;
    } else {
      assert (a + b)[..|a + b| - 1] == a + b[..|b| - 1];
      RegisterConcat(p, v, a, b[..|b| - 1]);
    }
  }

  lemma {:induction false} AllDigitsConcat(a: seq<byte>, b: seq<byte>)
    ensures AllDigits(a + b) == AllDigits(a) + AllDigits(b)
  {
    hide Digits;
    if b == [] {
      assert a + b == a;
    } else {
      assert (a + b)[..|a + b| - 1] == a + b[..|b| - 1];
      AllDigitsConcat(a, b[..|b| - 1]);
    }
  }
}
