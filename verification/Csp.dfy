/** CSP headers of `hk-bridge.py`: 32 bits for CSP 1 and 48 bits for CSP 2, big endian. */
module Csp {
  import opened Basics
  import opened Bits

  datatype Version = Csp1 | Csp2

  datatype Header = Header(destination: nat, source: nat, dport: nat, sport: nat, flags: nat)

  /** None is the OverflowError of `to_bytes`. */
  datatype Encoded = Overflow | Encoded(bytes: seq<byte>)

  const PRIO_NORM := 2
  const FLAG_CRC32 := 1

  function HeaderBytes(v: Version): nat { if v.Csp1? then 4 else 6 }

  /** first | fields[0] | fields[1] | ... */
  function OrAll(first: nat, fields: seq<nat>): nat
    decreases |fields|
  {
    if fields == [] then first else OrAll(BitOr(first, fields[0]), fields[1..])
  }

  /** The shifted fields or-ed together, in the order of the source. */
  function PackedHeader(v: Version, h: Header): nat {
    if v.Csp1? then
      OrAll(PRIO_NORM * 0x4000_0000,
            [h.source * 0x200_0000, h.destination * 0x10_0000, h.dport * 16384, h.sport * 256, h.flags])
    else
      OrAll(PRIO_NORM * 0x4000_0000_0000,
            [h.destination * 0x1_0000_0000, h.source * 0x4_0000, h.dport * 4096, h.sport * 64, h.flags])
  }

  function Encode(v: Version, h: Header): Encoded {
    var packed := PackedHeader(v, h);
    if v.Csp1? then
      if packed < 0x1_0000_0000 then Encoded(BigEndian(packed, 4)) else Overflow
    else
      if packed < 0x1_0000_0000_0000_0000 then Encoded(BigEndian(packed, 8)[2..]) else Overflow
  }

  function Parse(v: Version, frame: seq<byte>): Header {
    if v.Csp1? then
      var packed := FromBigEndian(Slice(frame, 0, 4));
      Header(packed / 0x10_0000 % 32, packed / 0x200_0000 % 32, packed / 16384 % 64, packed / 256 % 64, packed % 256)
    else
      var packed := FromBigEndian(Slice(frame, 0, 6));
      Header(packed / 0x1_0000_0000 % 16384, packed / 0x4_0000 % 16384, packed / 4096 % 64, packed / 64 % 64,
             packed % 64)
  }

  /** The field widths of the two header layouts. */
  predicate InRange(v: Version, h: Header) {
    && h.destination < (if v.Csp1? then 32 else 16384)
    && h.source < (if v.Csp1? then 32 else 16384)
    && h.dport < 64
    && h.sport < 64
    && h.flags < (if v.Csp1? then 256 else 64)
  }

  lemma Powers()
    ensures Pow2(6) == 64 && Pow2(8) == 256 && Pow2(12) == 4096 && Pow2(14) == 16384 && Pow2(18) == 262144
    ensures Pow2(20) == 0x10_0000 && Pow2(25) == 0x200_0000 && Pow2(30) == 0x4000_0000 && Pow2(32) == 0x1_0000_0000
    ensures Pow2(46) == 0x4000_0000_0000 && Pow2(48) == 0x1_0000_0000_0000 && Pow2(64) == 0x1_0000_0000_0000_0000
  {
    assert Pow2(4) == 16;
    EightDoublings(4);
    EightDoublings(6);
    EightDoublings(12);
    EightDoublings(10);
    EightDoublings(17);
    assert Pow2(25) == 2 * Pow2(24);
    EightDoublings(16);
    EightDoublings(22);
    EightDoublings(24);
    EightDoublings(32);
    EightDoublings(38);
    EightDoublings(30);
    EightDoublings(40);
    EightDoublings(48);
    EightDoublings(56);
  }

  /** One `|` of a packed header: `high` is a multiple of p = 2^k and `low` fits below p. */
  lemma OrField(high: nat, q: nat, low: nat, p: nat, k: nat, rest: seq<nat>, next: nat)
    requires Pow2(k) == p && high == q * p && low < p && next == high + low
    ensures OrAll(high, [low] + rest) == OrAll(next, rest)
  {
    BitOrAdds(q, low, k);
    assert ([low] + rest)[1..] == rest;
  }

  lemma PackedSum1(h: Header)
    requires InRange(Csp1, h)
    ensures PackedHeader(Csp1, h)
         == 2 * 0x4000_0000 + h.source * 0x200_0000 + h.destination * 0x10_0000 + h.dport * 16384 + h.sport * 256 + h.flags
  {
    hide Pow2, BitOr;
    Powers();
    var a, b, c, d, e := h.source * 0x200_0000, h.destination * 0x10_0000, h.dport * 16384, h.sport * 256, h.flags;
    var q1 := 2 * 32 + h.source;
    var q2 := q1 * 32 + h.destination;
    var q3 := q2 * 64 + h.dport;
    var q4 := q3 * 64 + h.sport;
    OrFive(a, b, c, d, e);
    OrField(0x8000_0000, 2, a, 0x4000_0000, 30, [b, c, d, e], q1 * 0x200_0000);
    OrField(q1 * 0x200_0000, q1, b, 0x200_0000, 25, [c, d, e], q2 * 0x10_0000);
    OrField(q2 * 0x10_0000, q2, c, 0x10_0000, 20, [d, e], q3 * 16384);
    OrField(q3 * 16384, q3, d, 16384, 14, [e], q4 * 256);
    OrField(q4 * 256, q4, e, 256, 8, [], q4 * 256 + e);
  }

  lemma PackedSum2(h: Header)
    requires InRange(Csp2, h)
    ensures PackedHeader(Csp2, h)
         == 2 * 0x4000_0000_0000 + h.destination * 0x1_0000_0000 + h.source * 0x4_0000 + h.dport * 4096 + h.sport * 64 + h.flags
  {
    hide Pow2, BitOr;
    Powers();
    var a, b, c, d, e := h.destination * 0x1_0000_0000, h.source * 0x4_0000, h.dport * 4096, h.sport * 64, h.flags;
    var q1 := 2 * 16384 + h.destination;
    var q2 := q1 * 16384 + h.source;
    var q3 := q2 * 64 + h.dport;
    var q4 := q3 * 64 + h.sport;
    OrFive(a, b, c, d, e);
    OrField(0x8000_0000_0000, 2, a, 0x4000_0000_0000, 46, [b, c, d, e], q1 * 0x1_0000_0000);
    OrField(q1 * 0x1_0000_0000, q1, b, 0x1_0000_0000, 32, [c, d, e], q2 * 0x4_0000);
    OrField(q2 * 0x4_0000, q2, c, 0x4_0000, 18, [d, e], q3 * 4096);
    OrField(q3 * 4096, q3, d, 4096, 12, [e], q4 * 64);
    OrField(q4 * 64, q4, e, 64, 6, [], q4 * 64 + e);
  }

  /** The list of the source, taken apart one field at a time. */
  lemma OrFive(a: nat, b: nat, c: nat, d: nat, e: nat)
    ensures [a, b, c, d, e] == [a] + [b, c, d, e] && [b, c, d, e] == [b] + [c, d, e]
    ensures [c, d, e] == [c] + [d, e] && [d, e] == [d] + [e] && [e] == [e] + []
  {
  }

  lemma {:induction false} BigEndianTail(n: nat, k: nat)
    ensures BigEndian(n, k + 2)[2..] == BigEndian(n, k)
  {
    if k > 0 {
      BigEndianTail(n / 256, k - 1);
      assert BigEndian(n, k + 2)[2..] == BigEndian(n / 256, k + 1)[2..] + [n % 256];
    }
  }

  lemma EncodeInRange(v: Version, h: Header)
    requires InRange(v, h)
    ensures Encode(v, h).Encoded? && |Encode(v, h).bytes| == HeaderBytes(v)
    ensures FromBigEndian(Encode(v, h).bytes) == PackedHeader(v, h)
  {
    Powers();
    if v.Csp1? {
      PackedSum1(h);
      FromBigEndianInverts(PackedHeader(v, h), 4);
    } else {
      PackedSum2(h);
      BigEndianTail(PackedHeader(v, h), 6);
      FromBigEndianInverts(PackedHeader(v, h), 6);
    }
  }

  /** (n >> k) & (width - 1), with p = 2^k: the digits above and below fall away. */
  lemma Field(n: nat, above: nat, field: nat, width: nat, p: nat, below: nat)
    requires 0 < p && field < width && below < p
    requires n == (above * width + field) * p + below
    ensures n / p % width == field
  {
    Quotient(n, above * width + field, p, below);
    Quotient(above * width + field, above, width, field);
  }

  lemma ParseSum1(frame: seq<byte>, h: Header)
    requires InRange(Csp1, h)
    requires FromBigEndian(Slice(frame, 0, 4))
          == 2 * 0x4000_0000 + h.source * 0x200_0000 + h.destination * 0x10_0000 + h.dport * 16384 + h.sport * 256 + h.flags
    ensures Parse(Csp1, frame) == h
  {
    var n := FromBigEndian(Slice(frame, 0, 4));
    var q1 := 2 * 32 + h.source;
    var q2 := q1 * 32 + h.destination;
    var q3 := q2 * 64 + h.dport;
    Field(n, 2, h.source, 32, 0x200_0000, h.destination * 0x10_0000 + h.dport * 16384 + h.sport * 256 + h.flags);
    Field(n, q1, h.destination, 32, 0x10_0000, h.dport * 16384 + h.sport * 256 + h.flags);
    Field(n, q2, h.dport, 64, 16384, h.sport * 256 + h.flags);
    Field(n, q3, h.sport, 64, 256, h.flags);
    Field(n, q3 * 64 + h.sport, h.flags, 256, 1, 0);
  }

  lemma ParseSum2(frame: seq<byte>, h: Header)
    requires InRange(Csp2, h)
    requires FromBigEndian(Slice(frame, 0, 6))
          == 2 * 0x4000_0000_0000 + h.destination * 0x1_0000_0000 + h.source * 0x4_0000 + h.dport * 4096 + h.sport * 64 + h.flags
    ensures Parse(Csp2, frame) == h
  {
    var n := FromBigEndian(Slice(frame, 0, 6));
    var q1 := 2 * 16384 + h.destination;
    var q2 := q1 * 16384 + h.source;
    var q3 := q2 * 64 + h.dport;
    Field(n, 2, h.destination, 16384, 0x1_0000_0000, h.source * 0x4_0000 + h.dport * 4096 + h.sport * 64 + h.flags);
    Field(n, q1, h.source, 16384, 0x4_0000, h.dport * 4096 + h.sport * 64 + h.flags);
    Field(n, q2, h.dport, 64, 4096, h.sport * 64 + h.flags);
    Field(n, q3, h.sport, 64, 64, h.flags);
    Field(n, q3 * 64 + h.sport, h.flags, 64, 1, 0);
  }

  lemma ParseEncoded(v: Version, h: Header, rest: seq<byte>)
    requires InRange(v, h)
    ensures Encode(v, h).Encoded? && |Encode(v, h).bytes| == HeaderBytes(v)
    ensures Parse(v, Encode(v, h).bytes + rest) == h
  {
    EncodeInRange(v, h);
    var bytes := Encode(v, h).bytes;
    assert Slice(bytes + rest, 0, HeaderBytes(v)) == bytes;
    if v.Csp1? {
      PackedSum1(h);
      ParseSum1(bytes + rest, h);
    } else {
      PackedSum2(h);
      ParseSum2(bytes + rest, h);
    }
  }

  /** A header is read back exactly when every field fits its width. */
  lemma HeaderRoundTrip(v: Version, h: Header, rest: seq<byte>)
    ensures InRange(v, h) <==> Encode(v, h).Encoded? && Parse(v, Encode(v, h).bytes + rest) == h
  {
    if InRange(v, h) {
      ParseEncoded(v, h, rest);
    } else if Encode(v, h).Encoded? {
      assert InRange(v, Parse(v, Encode(v, h).bytes + rest));
    }
  }
}
