/**
  The signed-image check of `f746-validate.py`: an MCUboot header, the payload, and a list of
  type-length-value entries that must fill the rest of the file.
 */
module SignedImage {
  import opened Basics
  import opened Bits

  /** The cryptographic library, as functions of bytes. */
  datatype Crypto = Crypto(sha256: seq<byte> -> seq<byte>,
                           isP256: seq<byte> -> bool,
                           verifies: (seq<byte>, seq<byte>, seq<byte>) -> bool)

  datatype Verdict = Refused(reason: string) | Accepted(digest: seq<byte>)

  datatype Tlv = Tlv(kind: byte, value: seq<byte>)

  const IMAGE_MAGIC := 0x96F3B83D
  const TLV_MAGIC := 0x6907
  const KEY_HASH: byte := 0x01
  const IMAGE_HASH: byte := 0x10
  const SIGNATURE: byte := 0x22
  const KINDS: set<byte> := {KEY_HASH, IMAGE_HASH, SIGNATURE}

  // ---------- little-endian fields ----------

  function LittleEndian(n: nat, k: nat): (b: seq<byte>)
    ensures |b| == k
  {
    if k == 0 then [] else [n % 256] + LittleEndian(n / 256, k - 1)
  }

  function FromLittleEndian(b: seq<byte>): nat {
    if b == [] then 0 else b[0] + 256 * FromLittleEndian(b[1..])
  }

  lemma {:induction false} LittleEndianInverts(b: seq<byte>)
    ensures LittleEndian(FromLittleEndian(b), |b|) == b
  {
    if b != [] {
      var low, high := b[0], FromLittleEndian(b[1..]);
      LittleEndianInverts(b[1..]);
      LowByte(low, high);
      assert LittleEndian(low as int + 256 * high, |b|) == [low] + LittleEndian(high, |b| - 1);
    }
  }

  lemma {:induction false} FromLittleEndianBound(b: seq<byte>)
    ensures FromLittleEndian(b) < Pow2(8 * |b|)
  {
    if b != [] {
      EightDoublings(8 * (|b| - 1));
      FromLittleEndianBound(b[1..]);
    }
  }

  lemma {:induction false} FromLittleEndianInverts(n: nat, k: nat)
    requires n < Pow2(8 * k)
    ensures FromLittleEndian(LittleEndian(n, k)) == n
  {
    if k > 0 {
      EightDoublings(8 * (k - 1));
      FromLittleEndianInverts(n / 256, k - 1);
      assert LittleEndian(n, k)[1..] == LittleEndian(n / 256, k - 1);
    }
  }

  /** struct.unpack_from for one unsigned field. */
  function Field(data: seq<byte>, at: nat, k: nat): nat
    requires at + k <= |data|
  {
    FromLittleEndian(data[at..at + k])
  }

  /** A field reads as n exactly when its bytes are those of n. */
  lemma FieldIs(data: seq<byte>, at: nat, k: nat, n: nat)
    requires at + k <= |data| && n < Pow2(8 * k)
    ensures Field(data, at, k) == n <==> data[at..at + k] == LittleEndian(n, k)
  {
    FromLittleEndianInverts(n, k);
    LittleEndianInverts(data[at..at + k]);
  }

  // ---------- the entries ----------

  function TlvBytes(ts: seq<Tlv>): seq<byte> {
    if ts == [] then [] else
    [ts[0].kind, 0] + LittleEndian(|ts[0].value|, 2) + ts[0].value + TlvBytes(ts[1..])
  }

  predicate Distinct(ts: seq<Tlv>, known: set<byte>) {
    && (forall i :: 0 <= i < |ts| ==> ts[i].kind !in known && 0 < |ts[i].value| < 0x1_0000)
    && (forall i, j :: 0 <= i < j < |ts| ==> ts[i].kind != ts[j].kind)
  }

  /** The walk over the entries to the end of the file; None is any of its refusals. */
  function TlvsFrom(data: seq<byte>, position: nat, known: set<byte>): Option<seq<Tlv>>
    requires position <= |data|
    decreases |data| - position
  {
    if position == |data| then Some([])
    else if position + 4 > |data| then None
    else
      var kind, reserved, length := data[position], data[position + 1], Field(data, position + 2, 2);
      var start := position + 4;
      if reserved != 0 || length == 0 || start + length > |data| || kind in known then None
      else
        match TlvsFrom(data, start + length, known + {kind})
        case None => None
        case Some(ts) => Some([Tlv(kind, data[start..start + length])] + ts)
  }

  lemma DistinctCons(t: Tlv, ts: seq<Tlv>, known: set<byte>)
    ensures Distinct([t] + ts, known)
       <==> t.kind !in known && 0 < |t.value| < 0x1_0000 && Distinct(ts, known + {t.kind})
  {
    var all := [t] + ts;
    if Distinct(all, known) {
      forall i | 0 <= i < |ts| ensures ts[i].kind !in known + {t.kind} && 0 < |ts[i].value| < 0x1_0000 {
        assert all[i + 1] == ts[i] && all[0] == t;
      }
      forall i, j | 0 <= i < j < |ts| ensures ts[i].kind != ts[j].kind {
        assert all[i + 1] == ts[i] && all[j + 1] == ts[j];
      }
    }
  }

  lemma TlvBytesCons(t: Tlv, ts: seq<Tlv>)
    ensures TlvBytes([t] + ts) == [t.kind, 0] + LittleEndian(|t.value|, 2) + t.value + TlvBytes(ts)
  {
    assert ([t] + ts)[1..] == ts;
  }

  /** The walk succeeds with `ts` exactly on the serialisation of `ts`: no gap, no padding, no repeat. */
  lemma {:induction false} TlvsExact(data: seq<byte>, position: nat, known: set<byte>, ts: seq<Tlv>)
    requires position <= |data|
    ensures TlvsFrom(data, position, known) == Some(ts) <==> data[position..] == TlvBytes(ts) && Distinct(ts, known)
    decreases |data| - position
  {
    hide Field, Distinct, TlvBytes, LittleEndian;
    if TlvsFrom(data, position, known) == Some(ts) {
      TlvsReadBack(data, position, known, ts);
    }
    if data[position..] == TlvBytes(ts) && Distinct(ts, known) {
      TlvsAreRead(data, position, known, ts);
    }
  }

  lemma NoTlvs(known: set<byte>)
    ensures TlvBytes([]) == [] && Distinct([], known)
  {
  }

  lemma {:induction false} TlvsReadBack(data: seq<byte>, position: nat, known: set<byte>, ts: seq<Tlv>)
    requires position <= |data| && TlvsFrom(data, position, known) == Some(ts)
    ensures data[position..] == TlvBytes(ts) && Distinct(ts, known)
    decreases |data| - position
  {
    hide Distinct, TlvBytes, LittleEndian;
    if position == |data| {
      NoTlvs(known);
    } else {
      var length, start := Field(data, position + 2, 2), position + 4;
      var t, rest := ts[0], ts[1..];
      assert ts == [t] + rest;
      TlvsReadBack(data, start + length, known + {t.kind}, rest);
      TlvBytesCons(t, rest);
      DistinctCons(t, rest, known);
      LengthBytes(data, position + 2);
      TakeApart(data, position, length);
    }
  }

  lemma LengthBytes(data: seq<byte>, at: nat)
    requires at + 2 <= |data|
    ensures Field(data, at, 2) < 0x1_0000 && data[at..at + 2] == LittleEndian(Field(data, at, 2), 2)
  {
    FieldSizes();
    FromLittleEndianBound(data[at..at + 2]);
    LittleEndianInverts(data[at..at + 2]);
  }

  lemma TakeApart(data: seq<byte>, p: nat, n: nat)
    requires p + 4 + n <= |data|
    ensures data[p..] == [data[p], data[p + 1]] + data[p + 2..p + 4] + data[p + 4..p + 4 + n] + data[p + 4 + n..]
  {
  }

  lemma {:induction false} TlvsAreRead(data: seq<byte>, position: nat, known: set<byte>, ts: seq<Tlv>)
    requires position <= |data| && data[position..] == TlvBytes(ts) && Distinct(ts, known)
    ensures TlvsFrom(data, position, known) == Some(ts)
    decreases |ts|
  {
    hide Distinct, TlvBytes, LittleEndian, Field;
    if ts == [] {
      NoTlvs(known);
    } else {
      var t, rest := ts[0], ts[1..];
      assert ts == [t] + rest;
      TlvBytesCons(t, rest);
      DistinctCons(t, rest, known);
      var length, start := |t.value|, position + 4;
      FirstTlv(data, position, t, TlvBytes(rest));
      FieldSizes();
      FieldIs(data, position + 2, 2, length);
      TlvsAreRead(data, start + length, known + {t.kind}, rest);
    }
  }

  lemma FirstTlv(data: seq<byte>, p: nat, t: Tlv, tail: seq<byte>)
    requires p <= |data| && data[p..] == [t.kind, 0] + LittleEndian(|t.value|, 2) + t.value + tail
    ensures var n := |t.value|;
      && p + 4 + n <= |data| && data[p] == t.kind && data[p + 1] == 0
      && data[p + 2..p + 4] == LittleEndian(n, 2)
      && data[p + 4..p + 4 + n] == t.value && data[p + 4 + n..] == tail
  {
    hide LittleEndian;
    var s, n := data[p..], |t.value|;
    assert data[p] == s[0] && data[p + 1] == s[1];
    assert data[p + 2..p + 4] == s[2..4] && data[p + 4..p + 4 + n] == s[4..4 + n] && data[p + 4 + n..] == s[4 + n..];
  }

  function ValueOf(ts: seq<Tlv>, kind: byte): seq<byte> {
    if ts == [] then [] else if ts[0].kind == kind then ts[0].value else ValueOf(ts[1..], kind)
  }

  function Kinds(ts: seq<Tlv>): set<byte> {
    set i | 0 <= i < |ts| :: ts[i].kind
  }

  // ---------- the whole file ----------

  /** The checks in the order of the source. */
  function Check(c: Crypto, data: seq<byte>, limit: nat, header: nat, public: seq<byte>): Verdict {
    if !(32 <= |data| <= limit) then Refused("signed image exceeds budget or is truncated")
    else if Field(data, 0, 4) != IMAGE_MAGIC || Field(data, 4, 4) != 0 || Field(data, 8, 2) != header || Field(data, 16, 4) != 0
    then Refused("wrong MCUboot header, load address, header size or flags")
    else if Field(data, 10, 2) != 0 then Refused("unexpected protected TLVs in phase 1")
    else
      var size := Field(data, 12, 4);
      var end := header + size;
      if size == 0 || end + 4 > |data| then Refused("truncated image payload")
      else if Field(data, end, 2) != TLV_MAGIC || end + Field(data, end + 2, 2) != |data|
      then Refused("invalid TLV length or unexpected padding/trailer")
      else CheckEntries(c, data, end, public)
  }

  function CheckEntries(c: Crypto, data: seq<byte>, end: nat, public: seq<byte>): Verdict
    requires end + 4 <= |data|
  {
    match TlvsFrom(data, end + 4, {})
    case None => Refused("truncated, invalid or duplicate TLV")
    case Some(ts) =>
      if Kinds(ts) != KINDS then Refused("missing hash/key/signature or unsupported TLV")
      else CheckValues(c, data[..end], ts, public)
  }

  function CheckValues(c: Crypto, signed: seq<byte>, ts: seq<Tlv>, public: seq<byte>): Verdict {
    if ValueOf(ts, IMAGE_HASH) != c.sha256(signed) then Refused("image hash mismatch")
    else if ValueOf(ts, KEY_HASH) != c.sha256(public) then Refused("wrong signing key")
    else if !c.isP256(public) then Refused("expected ECDSA P-256 public key")
    else if !c.verifies(public, ValueOf(ts, SIGNATURE), signed) then Refused("invalid signature")
    else Accepted(ValueOf(ts, IMAGE_HASH))
  }

  /** Reading past the end does not occur: each field is read after its length check. */
  method Validate(c: Crypto, data: seq<byte>, limit: nat, header: nat, public: seq<byte>) returns (v: Verdict)
    ensures v == Check(c, data, limit, header, public)
  {
    hide Field, CheckEntries;
    if !(32 <= |data| <= limit) {
      return Refused("signed image exceeds budget or is truncated");
    }
    if Field(data, 0, 4) != IMAGE_MAGIC || Field(data, 4, 4) != 0 || Field(data, 8, 2) != header || Field(data, 16, 4) != 0 {
      return Refused("wrong MCUboot header, load address, header size or flags");
    }
    if Field(data, 10, 2) != 0 {
      return Refused("unexpected protected TLVs in phase 1");
    }
    var size := Field(data, 12, 4);
    var end := header + size;
    if size == 0 || end + 4 > |data| {
      return Refused("truncated image payload");
    }
    if Field(data, end, 2) != TLV_MAGIC || end + Field(data, end + 2, 2) != |data| {
      return Refused("invalid TLV length or unexpected padding/trailer");
    }
    v := ValidateEntries(c, data, end, public);
  }

  method ValidateEntries(c: Crypto, data: seq<byte>, end: nat, public: seq<byte>) returns (v: Verdict)
    requires end + 4 <= |data|
    ensures v == CheckEntries(c, data, end, public)
  {
    hide CheckValues, TlvsFrom, Kinds;
    var ok, ts := WalkTlvs(data, end + 4);
    if !ok {
      return Refused("truncated, invalid or duplicate TLV");
    }
    if Kinds(ts) != KINDS {
      return Refused("missing hash/key/signature or unsupported TLV");
    }
    v := CheckValues(c, data[..end], ts, public);
  }

  /** The loop; `values` of the source is the list of entries with their distinct kinds. */
  method WalkTlvs(data: seq<byte>, start: nat) returns (ok: bool, values: seq<Tlv>)
    requires start <= |data|
    ensures ok <==> TlvsFrom(data, start, {}).Some?
    ensures ok ==> TlvsFrom(data, start, {}) == Some(values)
  {
    hide Field;
    var position, kinds: set<byte> := start, {};
    values := [];
    assert forall ts: seq<Tlv> :: values + ts == ts;
    while position < |data|
      invariant start <= position <= |data|
      invariant TlvsFrom(data, start, {})
        == match TlvsFrom(data, position, kinds) case None => None case Some(ts) => Some(values + ts)
      decreases |data| - position
    {
      if position + 4 > |data| {
        return false, values;
      }
      var kind, reserved, length := data[position], data[position + 1], Field(data, position + 2, 2);
      var next := position + 4;
      if reserved != 0 || length == 0 || next + length > |data| || kind in kinds {
        return false, values;
      }
      var t := Tlv(kind, data[next..next + length]);
      assert forall ts: seq<Tlv> :: values + ([t] + ts) == values + [t] + ts;
      values := values + [t];
      kinds := kinds + {kind};
      position := next + length;
    }
    assert values + [] == values;
    ok := true;
  }

  // ---------- every byte is accounted for ----------

  /**
    The parts of an image: the size its header claims, the signed bytes behind the twenty
    that are read from the header, and the entries.
   */
  datatype Image = Image(header: nat, rest: seq<byte>, tlvs: seq<Tlv>) {
    /** What follows the header, which may be claimed shorter than the bytes read from it. */
    function PayloadSize(): int { FIXED_HEADER + |rest| - header }
  }

  const FIXED_HEADER := 20

  function FixedHeader(header: nat, size: nat): (h: seq<byte>)
    ensures |h| == FIXED_HEADER
  {
    LittleEndian(IMAGE_MAGIC, 4) + LittleEndian(0, 4) + LittleEndian(header, 2) + LittleEndian(0, 2)
    + LittleEndian(size, 4) + LittleEndian(0, 4)
  }

  /** What the fields have room for, and the three entries. */
  predicate WellFormed(img: Image) {
    && img.header < 0x1_0000
    && 0 < img.PayloadSize() < 0x1_0000_0000
    && 4 + |TlvBytes(img.tlvs)| < 0x1_0000
    && Distinct(img.tlvs, {})
    && Kinds(img.tlvs) == KINDS
  }

  /** What is hashed and signed: header and payload. */
  function SignedPart(img: Image): seq<byte>
    requires img.PayloadSize() > 0
  {
    FixedHeader(img.header, img.PayloadSize()) + img.rest
  }

  function Serialize(img: Image): seq<byte>
    requires img.PayloadSize() > 0
  {
    SignedPart(img) + LittleEndian(TLV_MAGIC, 2) + LittleEndian(4 + |TlvBytes(img.tlvs)|, 2) + TlvBytes(img.tlvs)
  }

  /** The file is the serialisation of a well-formed image whose hash, key and signature are right. */
  predicate Genuine(c: Crypto, data: seq<byte>, limit: nat, header: nat, public: seq<byte>, img: Image) {
    && WellFormed(img)
    && data == Serialize(img)
    && 32 <= |data| <= limit
    && img.header == header
    && Vouched(c, SignedPart(img), img.tlvs, public)
  }

  /** The three entries: the hash of the key, the hash of what is signed, and a signature that verifies. */
  predicate Vouched(c: Crypto, signed: seq<byte>, ts: seq<Tlv>, public: seq<byte>) {
    && Tlv(0x01, c.sha256(public)) in ts
    && Tlv(0x10, c.sha256(signed)) in ts
    && c.isP256(public)
    && exists t :: t in ts && t.kind == 0x22 && c.verifies(public, t.value, signed)
  }

  /** The value found for a kind is the value of the only entry of that kind. */
  lemma {:induction false} ValueOfExact(ts: seq<Tlv>, kind: byte, value: seq<byte>, known: set<byte>)
    requires Distinct(ts, known) && kind in Kinds(ts)
    ensures ValueOf(ts, kind) == value <==> Tlv(kind, value) in ts
    decreases |ts|
  {
    var first, rest := ts[0], ts[1..];
    assert ts == [first] + rest;
    DistinctCons(first, rest, known);
    if first.kind == kind {
      assert forall i :: 0 <= i < |rest| ==> rest[i].kind != kind;
    } else {
      var i :| 0 <= i < |ts| && ts[i].kind == kind;
      assert rest[i - 1].kind == kind;
      ValueOfExact(rest, kind, value, known + {first.kind});
    }
  }

  /** The three values are accepted exactly when the entries vouch for the image. */
  lemma ValuesExact(c: Crypto, signed: seq<byte>, ts: seq<Tlv>, public: seq<byte>, digest: seq<byte>)
    requires Distinct(ts, {}) && Kinds(ts) == KINDS
    ensures CheckValues(c, signed, ts, public) == Accepted(digest) <==> Vouched(c, signed, ts, public) && digest == c.sha256(signed)
  {
    hide ValueOf, Kinds, Distinct;
    ValueOfExact(ts, 0x01, c.sha256(public), {});
    ValueOfExact(ts, 0x10, c.sha256(signed), {});
    ValueOfExact(ts, 0x22, ValueOf(ts, 0x22), {});
    forall t | t in ts && t.kind == 0x22 ensures t.value == ValueOf(ts, 0x22) {
      ValueOfExact(ts, 0x22, t.value, {});
    }
  }

  /** The header fields of an accepted file are the bytes of FixedHeader. */
  lemma HeaderBytes(data: seq<byte>, header: nat, size: nat)
    requires FIXED_HEADER <= |data| && header < 0x1_0000 && size < 0x1_0000_0000
    ensures (Field(data, 0, 4) == IMAGE_MAGIC && Field(data, 4, 4) == 0 && Field(data, 8, 2) == header
             && Field(data, 10, 2) == 0 && Field(data, 12, 4) == size && Field(data, 16, 4) == 0)
       <==> data[..FIXED_HEADER] == FixedHeader(header, size)
  {
    hide Field, LittleEndian;
    Word(data, 0, IMAGE_MAGIC);
    Word(data, 4, 0);
    Half(data, 8, header);
    Half(data, 10, 0);
    Word(data, 12, size);
    Word(data, 16, 0);
    SixFields(data, LittleEndian(IMAGE_MAGIC, 4), LittleEndian(0, 4), LittleEndian(header, 2),
              LittleEndian(0, 2), LittleEndian(size, 4), LittleEndian(0, 4));
  }

  lemma Half(data: seq<byte>, at: nat, n: nat)
    requires at + 2 <= |data| && n < 0x1_0000
    ensures Field(data, at, 2) == n <==> data[at..at + 2] == LittleEndian(n, 2)
  {
    hide Field, LittleEndian;
    FieldSizes();
    FieldIs(data, at, 2, n);
  }

  lemma Word(data: seq<byte>, at: nat, n: nat)
    requires at + 4 <= |data| && n < 0x1_0000_0000
    ensures Field(data, at, 4) == n <==> data[at..at + 4] == LittleEndian(n, 4)
  {
    hide Field, LittleEndian;
    FieldSizes();
    FieldIs(data, at, 4, n);
  }

  lemma SixFields(data: seq<byte>, a: seq<byte>, b: seq<byte>, d: seq<byte>, e: seq<byte>, f: seq<byte>, g: seq<byte>)
    requires FIXED_HEADER <= |data|
    requires |a| == |b| == |f| == |g| == 4 && |d| == |e| == 2
    ensures (data[0..4] == a && data[4..8] == b && data[8..10] == d && data[10..12] == e && data[12..16] == f && data[16..20] == g)
       <==> data[..FIXED_HEADER] == a + b + d + e + f + g
  {
    var all := a + b + d + e + f + g;
    var h := data[..FIXED_HEADER];
    assert all[0..4] == a && all[4..8] == b && all[8..10] == d && all[10..12] == e && all[12..16] == f && all[16..20] == g;
    assert h[0..4] == data[0..4] && h[4..8] == data[4..8] && h[8..10] == data[8..10] && h[10..12] == data[10..12]
        && h[12..16] == data[12..16] && h[16..20] == data[16..20];
    assert h == h[0..4] + h[4..8] + h[8..10] + h[10..12] + h[12..16] + h[16..20];
  }

  /** The structural half of the check: everything but the three values. */
  predicate Framed(data: seq<byte>, header: nat, size: nat, ts: seq<Tlv>) {
    && 20 <= |data|
    && Field(data, 0, 4) == IMAGE_MAGIC && Field(data, 4, 4) == 0 && Field(data, 8, 2) == header
    && Field(data, 10, 2) == 0 && Field(data, 12, 4) == size && Field(data, 16, 4) == 0
    && size > 0 && header + size + 4 <= |data|
    && Field(data, header + size, 2) == TLV_MAGIC
    && header + size + Field(data, header + size + 2, 2) == |data|
    && TlvsFrom(data, header + size + 4, {}) == Some(ts)
    && Kinds(ts) == KINDS
  }

  lemma CheckIsFramed(c: Crypto, data: seq<byte>, limit: nat, header: nat, public: seq<byte>, size: nat, ts: seq<Tlv>)
    ensures Check(c, data, limit, header, public).Accepted? && size == Field(data, 12, 4)
            && TlvsFrom(data, header + size + 4, {}) == Some(ts)
       ==> Framed(data, header, size, ts) && 32 <= |data| <= limit
            && CheckValues(c, data[..header + size], ts, public) == Check(c, data, limit, header, public)
    ensures Framed(data, header, size, ts) && 32 <= |data| <= limit
       ==> Check(c, data, limit, header, public) == CheckValues(c, data[..header + size], ts, public)
  {
    hide Field, TlvsFrom, Kinds, CheckValues;
  }

  /** The two magic numbers as they stand in a file. */
  lemma MagicBytes(data: seq<byte>, at: nat)
    requires at + 4 <= |data|
    ensures Field(data, at, 4) == IMAGE_MAGIC <==> data[at..at + 4] == [0x3D, 0xB8, 0xF3, 0x96]
    ensures Field(data, at, 2) == TLV_MAGIC <==> data[at..at + 2] == [0x07, 0x69]
  {
    hide Field;
    FourBytes(data, at);
    TwoBytes(data, at);
    assert data[at..at + 4] == [data[at], data[at + 1], data[at + 2], data[at + 3]];
    assert data[at..at + 2] == [data[at], data[at + 1]];
  }

  lemma FirstByte(data: seq<byte>, at: nat, k: nat)
    requires k > 0 && at + k <= |data|
    ensures Field(data, at, k) == data[at] as int + 256 * Field(data, at + 1, k - 1)
  {
    assert data[at..at + k][1..] == data[at + 1..at + k];
  }

  lemma TwoBytes(data: seq<byte>, at: nat)
    requires at + 2 <= |data|
    ensures Field(data, at, 2) == data[at] as int + 256 * data[at + 1] as int
  {
    FirstByte(data, at, 2);
    FirstByte(data, at + 1, 1);
    assert Field(data, at + 2, 0) == 0;
  }

  lemma FourBytes(data: seq<byte>, at: nat)
    requires at + 4 <= |data|
    ensures Field(data, at, 4)
         == data[at] as int + 256 * (data[at + 1] as int + 256 * (data[at + 2] as int + 256 * data[at + 3] as int))
  {
    FirstByte(data, at, 4);
    FirstByte(data, at + 1, 3);
    TwoBytes(data, at + 2);
  }

  /** Whatever size the header claims, the entries cannot begin inside its first twenty bytes. */
  lemma EndBehindHeader(data: seq<byte>, header: nat, size: nat, ts: seq<Tlv>)
    requires Framed(data, header, size, ts)
    ensures header + size >= FIXED_HEADER
  {
    hide Field, TlvsFrom, Kinds;
    FourBytes(data, 0);
    FourBytes(data, 4);
    TwoBytes(data, 8);
    TwoBytes(data, 10);
    FourBytes(data, 12);
    FourBytes(data, 16);
    TwoBytes(data, header + size);
  }

  lemma TailSplits(data: seq<byte>, end: nat)
    requires FIXED_HEADER <= end && end + 4 <= |data|
    ensures data == data[..FIXED_HEADER] + data[FIXED_HEADER..end] + data[end..end + 2] + data[end + 2..end + 4] + data[end + 4..]
    ensures data[..end] == data[..FIXED_HEADER] + data[FIXED_HEADER..end]
  {
  }

  /** Re-serialising the parts of a framed file gives the file. */
  lemma FramedIsSerialized(data: seq<byte>, header: nat, size: nat, ts: seq<Tlv>) returns (img: Image)
    requires Framed(data, header, size, ts)
    ensures img.header == header && img.tlvs == ts && header + size <= |data|
    ensures WellFormed(img) && data == Serialize(img) && SignedPart(img) == data[..header + size]
  {
    hide *;
    EndBehindHeader(data, header, size, ts);
    FramedHead(data, header, size, ts);
    FramedTail(data, header + size, size, ts);
    img := Image(header, data[FIXED_HEADER..header + size], ts);
    Reassembled(data, img, header + size);
  }

  lemma FramedHead(data: seq<byte>, header: nat, size: nat, ts: seq<Tlv>)
    requires Framed(data, header, size, ts)
    ensures header < 0x1_0000 && size < 0x1_0000_0000 && data[..FIXED_HEADER] == FixedHeader(header, size)
  {
    hide TlvsFrom, Kinds, FixedHeader;
    TwoBytes(data, 8);
    FourBytes(data, 12);
    HeaderBytes(data, header, size);
  }

  lemma FramedTail(data: seq<byte>, end: nat, size: nat, ts: seq<Tlv>)
    requires size <= end && Framed(data, end - size, size, ts)
    ensures end + 4 <= |data| && size > 0 && Kinds(ts) == KINDS
    ensures data[end..end + 2] == LittleEndian(TLV_MAGIC, 2) && data[end + 2..end + 4] == LittleEndian(4 + |TlvBytes(ts)|, 2)
    ensures 4 + |TlvBytes(ts)| < 0x1_0000 && data[end + 4..] == TlvBytes(ts) && Distinct(ts, {})
  {
    hide TlvsFrom, Kinds, TlvBytes, LittleEndian, Distinct;
    TlvsExact(data, end + 4, {}, ts);
    var n := Field(data, end + 2, 2);
    assert Field(data, end, 2) == TLV_MAGIC && n == |data| - end == 4 + |TlvBytes(ts)|;
    hide Framed, Field;
    Half(data, end, TLV_MAGIC);
    TwoBytes(data, end + 2);
    Half(data, end + 2, n);
  }

  /** The parts put together again. */
  lemma Reassembled(data: seq<byte>, img: Image, end: nat)
    requires FIXED_HEADER <= end && end + 4 <= |data| && img.header < end && end - img.header < 0x1_0000_0000 && img.header < 0x1_0000
    requires img.rest == data[FIXED_HEADER..end] && data[..FIXED_HEADER] == FixedHeader(img.header, end - img.header)
    requires data[end..end + 2] == LittleEndian(TLV_MAGIC, 2) && data[end + 2..end + 4] == LittleEndian(4 + |TlvBytes(img.tlvs)|, 2)
    requires 4 + |TlvBytes(img.tlvs)| < 0x1_0000 && data[end + 4..] == TlvBytes(img.tlvs)
    requires Distinct(img.tlvs, {}) && Kinds(img.tlvs) == KINDS
    ensures WellFormed(img) && data == Serialize(img) && SignedPart(img) == data[..end]
  {
    hide TlvBytes, LittleEndian, FixedHeader, Distinct, Kinds;
    TailSplits(data, end);
  }

  lemma SerializedParts(img: Image, data: seq<byte>)
    requires img.PayloadSize() > 0 && data == Serialize(img)
    ensures var end := FIXED_HEADER + |img.rest|;
      && end + 4 + |TlvBytes(img.tlvs)| == |data|
      && data[..FIXED_HEADER] == FixedHeader(img.header, img.PayloadSize())
      && data[..end] == SignedPart(img)
      && data[end..end + 2] == LittleEndian(TLV_MAGIC, 2)
      && data[end + 2..end + 4] == LittleEndian(4 + |TlvBytes(img.tlvs)|, 2)
      && data[end + 4..] == TlvBytes(img.tlvs)
  {
    hide LittleEndian, TlvBytes, FixedHeader;
  }

  lemma TailFields(img: Image, data: seq<byte>, end: nat)
    requires 4 + |TlvBytes(img.tlvs)| < 0x1_0000 && Distinct(img.tlvs, {})
    requires end + 4 + |TlvBytes(img.tlvs)| == |data|
    requires data[end..end + 2] == LittleEndian(TLV_MAGIC, 2)
    requires data[end + 2..end + 4] == LittleEndian(4 + |TlvBytes(img.tlvs)|, 2)
    requires data[end + 4..] == TlvBytes(img.tlvs)
    ensures Field(data, end, 2) == TLV_MAGIC && end + Field(data, end + 2, 2) == |data|
    ensures TlvsFrom(data, end + 4, {}) == Some(img.tlvs)
  {
    hide TlvsFrom, TlvBytes, LittleEndian, Distinct, Field;
    FieldSizes();
    FieldIs(data, end, 2, TLV_MAGIC);
    FieldIs(data, end + 2, 2, 4 + |TlvBytes(img.tlvs)|);
    TlvsExact(data, end + 4, {}, img.tlvs);
  }

  /** Every serialised well-formed image is framed. */
  lemma SerializedIsFramed(img: Image, data: seq<byte>)
    requires WellFormed(img) && data == Serialize(img)
    ensures Framed(data, img.header, img.PayloadSize(), img.tlvs)
    ensures SignedPart(img) == data[..img.header + img.PayloadSize()]
  {
    hide TlvsFrom, Kinds, TlvBytes, LittleEndian, Distinct, Field, Serialize, SignedPart, FixedHeader;
    SerializedParts(img, data);
    HeaderBytes(data, img.header, img.PayloadSize());
    TailFields(img, data, FIXED_HEADER + |img.rest|);
  }

  /**
    An image is accepted if and only if it is the serialisation of a well-formed image within
    the limit whose hash, key hash and signature are right; the answer is the hash of the
    signed part.
   */
  lemma AcceptedExact(c: Crypto, data: seq<byte>, limit: nat, header: nat, public: seq<byte>, digest: seq<byte>)
    ensures Check(c, data, limit, header, public) == Accepted(digest)
       <==> exists img :: Genuine(c, data, limit, header, public, img) && digest == c.sha256(SignedPart(img))
  {
    if Check(c, data, limit, header, public) == Accepted(digest) {
      AcceptedIsGenuine(c, data, limit, header, public, digest);
    }
    if exists img :: Genuine(c, data, limit, header, public, img) && digest == c.sha256(SignedPart(img)) {
      var img :| Genuine(c, data, limit, header, public, img) && digest == c.sha256(SignedPart(img));
      GenuineIsAccepted(c, data, limit, header, public, img);
    }
  }

  lemma AcceptedIsGenuine(c: Crypto, data: seq<byte>, limit: nat, header: nat, public: seq<byte>, digest: seq<byte>)
    requires Check(c, data, limit, header, public) == Accepted(digest)
    ensures exists img :: Genuine(c, data, limit, header, public, img) && digest == c.sha256(SignedPart(img))
  {
    var size := Field(data, 12, 4);
    AcceptedHasEntries(c, data, limit, header, public, size);
    var ts := TlvsFrom(data, header + size + 4, {}).value;
    assert Framed(data, header, size, ts) && 32 <= |data| <= limit
        && CheckValues(c, data[..header + size], ts, public) == Accepted(digest) by {
      hide Field, TlvsFrom, Kinds, Framed, CheckValues;
      CheckIsFramed(c, data, limit, header, public, size, ts);
    }
    hide *;
    var img := FramedIsSerialized(data, header, size, ts);
    FramedIsGenuine(c, data, limit, header, public, img, digest);
  }

  lemma AcceptedHasEntries(c: Crypto, data: seq<byte>, limit: nat, header: nat, public: seq<byte>, size: nat)
    requires Check(c, data, limit, header, public).Accepted? && size == Field(data, 12, 4)
    ensures header + size + 4 <= |data| && TlvsFrom(data, header + size + 4, {}).Some?
  {
    hide Field, TlvsFrom, Kinds, CheckValues;
  }

  /** Why a framed file within the limit is refused: the first thing that does not vouch for it. */
  lemma RefusedForItsValues(c: Crypto, data: seq<byte>, limit: nat, header: nat, public: seq<byte>, size: nat, ts: seq<Tlv>)
    requires Framed(data, header, size, ts) && Distinct(ts, {}) && 32 <= |data| <= limit
    ensures var v, signed := Check(c, data, limit, header, public), data[..header + size];
      && (v == Refused("image hash mismatch") <==> Tlv(0x10, c.sha256(signed)) !in ts)
      && (v == Refused("wrong signing key") <==> Tlv(0x10, c.sha256(signed)) in ts && Tlv(0x01, c.sha256(public)) !in ts)
      && (v == Refused("expected ECDSA P-256 public key") <==>
            Tlv(0x10, c.sha256(signed)) in ts && Tlv(0x01, c.sha256(public)) in ts && !c.isP256(public))
      && (v == Refused("invalid signature") <==>
            Tlv(0x10, c.sha256(signed)) in ts && Tlv(0x01, c.sha256(public)) in ts && c.isP256(public)
            && !Vouched(c, signed, ts, public))
  {
    var signed := data[..header + size];
    CheckIsFramed(c, data, limit, header, public, size, ts);
    hide Check, Field, TlvsFrom, Distinct, ValueOf, Kinds;
    ValueOfExact(ts, 0x01, c.sha256(public), {});
    ValueOfExact(ts, 0x10, c.sha256(signed), {});
    ValuesExact(c, signed, ts, public, c.sha256(signed));
  }

  lemma FramedIsGenuine(c: Crypto, data: seq<byte>, limit: nat, header: nat, public: seq<byte>, img: Image, digest: seq<byte>)
    requires WellFormed(img) && data == Serialize(img) && img.header == header && 32 <= |data| <= limit
    requires CheckValues(c, SignedPart(img), img.tlvs, public) == Accepted(digest)
    ensures Genuine(c, data, limit, header, public, img) && digest == c.sha256(SignedPart(img))
  {
    hide Serialize, SignedPart, CheckValues, Vouched;
    ValuesExact(c, SignedPart(img), img.tlvs, public, digest);
  }

  lemma GenuineIsAccepted(c: Crypto, data: seq<byte>, limit: nat, header: nat, public: seq<byte>, img: Image)
    requires Genuine(c, data, limit, header, public, img)
    ensures Check(c, data, limit, header, public) == Accepted(c.sha256(SignedPart(img)))
  {
    hide Field, TlvsFrom, Kinds, SignedPart, Serialize, Check, CheckValues, Vouched;
    ValuesExact(c, SignedPart(img), img.tlvs, public, c.sha256(SignedPart(img)));
    SerializedIsFramed(img, data);
    CheckIsFramed(c, data, limit, header, public, img.PayloadSize(), img.tlvs);
  }

  // ---------- where the program starts ----------

  const BASE := 0x0800_0000

  datatype Partition = Boot | Slot1 | Slot0 | Storage

  function Offset(p: Partition): nat {
    match p case Boot => 0 case Slot1 => 0x10000 case Slot0 => 0x40000 case Storage => 0x80000
  }

  function Size(p: Partition): nat {
    match p case Boot => 0x10000 case Slot1 => 0x30000 case Slot0 => 0x40000 case Storage => 0x80000
  }

  predicate Inside(p: Partition, address: nat) {
    BASE + Offset(p) <= address < BASE + Offset(p) + Size(p)
  }

  /** The entry point with its Thumb bit cleared, if the ELF header is the expected one. */
  function EntryPoint(elf: seq<byte>): Option<nat> {
    if |elf| < 28 || elf[..7] != [0x7F, 0x45, 0x4C, 0x46, 1, 1, 1] then None
    else if Field(elf, 16, 2) != 2 || Field(elf, 18, 2) != 40 then None
    else Some(Field(elf, 24, 4) - Field(elf, 24, 4) % 2)
  }

  /** The first bytes of a 32-bit little-endian ARM executable, and its entry address with the Thumb bit set or not. */
  lemma EntryPointExact(elf: seq<byte>, address: nat)
    requires address < 0xFFFF_FFFF
    ensures EntryPoint(elf) == Some(address) <==>
      && |elf| >= 28 && elf[..7] == [0x7F, 0x45, 0x4C, 0x46, 1, 1, 1]
      && elf[16] == 2 && elf[17] == 0 && elf[18] == 40 && elf[19] == 0
      && address % 2 == 0
      && (elf[24..28] == LittleEndian(address, 4) || elf[24..28] == LittleEndian(address + 1, 4))
  {
    hide Field, LittleEndian;
    if |elf| >= 28 {
      TwoBytes(elf, 16);
      TwoBytes(elf, 18);
      Word(elf, 24, address);
      Word(elf, 24, address + 1);
    }
  }

  predicate EntryCheck(elf: seq<byte>, image: seq<byte>, start: nat, header: nat)
    requires header != 0 ==> |image| >= 16
  {
    var payloadEnd := if header != 0 then header + Field(image, 12, 4) else |image|;
    EntryPoint(elf).Some? && start + header <= EntryPoint(elf).value < start + payloadEnd
  }

  /** For a signed image the check says that the program starts in a byte of the payload. */
  lemma EntryInPayload(elf: seq<byte>, img: Image, start: nat)
    requires WellFormed(img) && img.header > 0
    ensures |Serialize(img)| >= 16
    ensures EntryCheck(elf, Serialize(img), start, img.header) <==>
      EntryPoint(elf).Some? && start + img.header <= EntryPoint(elf).value < start + img.header + img.PayloadSize()
  {
    hide EntryPoint, Serialize;
    SerializedIsFramed(img, Serialize(img));
    hide Field, TlvsFrom, Kinds;
  }

  /** The partitions tile the flash, so an address lies in at most one. */
  lemma PartitionsDisjoint(p: Partition, q: Partition, address: nat)
    requires Inside(p, address) && Inside(q, address)
    ensures p == q
  {
  }

  /** The four partitions and their order, which fill one mebibyte. */
  lemma MapExact(address: nat)
    ensures Inside(Boot, address) <==> 0x0800_0000 <= address < 0x0801_0000
    ensures Inside(Slot1, address) <==> 0x0801_0000 <= address < 0x0804_0000
    ensures Inside(Slot0, address) <==> 0x0804_0000 <= address < 0x0808_0000
    ensures Inside(Storage, address) <==> 0x0808_0000 <= address < 0x0810_0000
  {
  }

  /** An accepted image that passes the entry check starts inside its own partition and no other. */
  lemma EntryInOnePartition(c: Crypto, elf: seq<byte>, image: seq<byte>, header: nat, public: seq<byte>, p: Partition, q: Partition)
    requires header != 0 && Check(c, image, Size(p), header, public).Accepted?
    requires EntryCheck(elf, image, BASE + Offset(p), header)
    ensures Inside(q, EntryPoint(elf).value) <==> q == p
  {
    hide Field, TlvsFrom, Kinds, CheckValues, EntryPoint;
    if Inside(q, EntryPoint(elf).value) {
      PartitionsDisjoint(p, q, EntryPoint(elf).value);
    }
  }

  /** The bootloader has no header; its image must fit the budget instead. */
  lemma BootEntryInOnePartition(elf: seq<byte>, image: seq<byte>, p: Partition, q: Partition)
    requires |image| <= Size(p) && EntryCheck(elf, image, BASE + Offset(p), 0)
    ensures Inside(q, EntryPoint(elf).value) <==> q == p
  {
    hide Field, EntryPoint;
    if Inside(q, EntryPoint(elf).value) {
      PartitionsDisjoint(p, q, EntryPoint(elf).value);
    }
  }
}
