/**
  Housekeeping frames of `hk-bridge.py`: sample validation, the request, and the decoder
  that checks the two nested checksums.
 */
module Housekeeping {
  import opened Basics
  import opened Bits
  import opened Crc32
  import opened CrcBursts
  import opened CrcPolynomials
  import opened CrcSlip
  import opened Csp
  import Kiss

  const HK_PROTOCOL_VERSION := 1
  const HK_HEADER_BYTES := 10

  /** What the source prints for a dropped frame, in the order of the checks. */
  datatype Problem =
    | ShortFrame | UnsupportedFlags | KissChecksum | CspChecksum
    | SampleLength | VersionOrReport | CountOrFlags | TruncatedValues | ClockFlag

  datatype DecodeResult = Ignored | Dropped(problem: Problem) | Sample(bytes: seq<byte>)

  datatype Verdict = Valid | Invalid(problem: Problem)

  /** The module globals of the source: the CSP version, the housekeeping port, the polynomial. */
  datatype Wire = Wire(version: Version, hkPort: nat, polynomial: Word)

  /** The settings in use: `polynomial` is CRC-32C. */
  function Crc32c(version: Version, hkPort: nat): (w: Wire)
    ensures w.polynomial[31]
  {
    CastagnoliIsMonic();
    Wire(version, hkPort, Polynomial(CASTAGNOLI))
  }

  function Crc(w: Wire, data: seq<byte>): (c: seq<byte>)
    ensures |c| == 4
  {
    Checksum(w.polynomial, data)
  }

  /** A payload followed by its checksum. */
  function Seal(w: Wire, payload: seq<byte>): seq<byte> { payload + Crc(w, payload) }

  function ValidateSample(s: seq<byte>): Verdict {
    if !(HK_HEADER_BYTES <= |s| <= Kiss.HK_SAMPLE_MAX) then Invalid(SampleLength) else
    var version, report, seconds, count, flags := s[0], s[1], FromBigEndian(s[4..8]), s[8], s[9];
    if version != HK_PROTOCOL_VERSION || report >= 16 then Invalid(VersionOrReport)
    else if !(1 <= count <= 64) || flags >= 4 then Invalid(CountOrFlags)
    else if |s| < HK_HEADER_BYTES + count then Invalid(TruncatedValues)
    else if (flags / 2 % 2 == 1) != (seconds == 0) then Invalid(ClockFlag)
    else Valid
  }

  // ---------- what a valid sample is ----------

  /** The fields of a sample; the clock flag is not one of them, since `seconds` decides it. */
  datatype SampleParts = SampleParts(report: byte, sequence: nat, seconds: nat, count: byte, incomplete: bool, values: seq<byte>)

  predicate FieldsFit(p: SampleParts) {
    && p.report < 16
    && p.sequence < 0x1_0000
    && p.seconds < 0x1_0000_0000
    && 1 <= p.count <= 64
    && p.count as int <= |p.values| <= Kiss.HK_SAMPLE_MAX - HK_HEADER_BYTES
  }

  function Flags(p: SampleParts): byte {
    (if p.incomplete then 1 else 0) + (if p.seconds == 0 then 2 else 0)
  }

  /** struct.pack(">BBHIBB", ...) and the values. */
  function PackSample(p: SampleParts): seq<byte> {
    [HK_PROTOCOL_VERSION, p.report] + BigEndian(p.sequence, 2) + BigEndian(p.seconds, 4) + [p.count, Flags(p)] + p.values
  }

  lemma PackedAt(p: SampleParts)
    ensures var s := PackSample(p);
      && |s| == HK_HEADER_BYTES + |p.values| && s[0] == HK_PROTOCOL_VERSION && s[1] == p.report
      && s[4..8] == BigEndian(p.seconds, 4) && s[8] == p.count && s[9] == Flags(p)
  {
    hide BigEndian;
  }

  lemma SampleTakenApart(s: seq<byte>, p: SampleParts)
    requires |s| >= HK_HEADER_BYTES && s[0] == HK_PROTOCOL_VERSION && s[1] == p.report
    requires s[2..4] == BigEndian(p.sequence, 2) && s[4..8] == BigEndian(p.seconds, 4)
    requires s[8] == p.count && s[9] == Flags(p) && s[10..] == p.values
    ensures s == PackSample(p)
  {
    hide BigEndian, Flags;
    assert s == s[..2] + s[2..4] + s[4..8] + s[8..10] + s[10..];
    assert s[..2] == [HK_PROTOCOL_VERSION, p.report] && s[8..10] == [p.count, Flags(p)];
  }

  lemma PackedIsValid(p: SampleParts)
    requires FieldsFit(p)
    ensures ValidateSample(PackSample(p)).Valid?
  {
    PackedAt(p);
    hide PackSample, BigEndian, FromBigEndian, Pow2;
    FieldSizes();
    FromBigEndianInverts(p.seconds, 4);
  }

  lemma PartsOfValid(s: seq<byte>) returns (p: SampleParts)
    requires ValidateSample(s).Valid?
    ensures FieldsFit(p) && s == PackSample(p)
  {
    hide BigEndian, FromBigEndian, Pow2, PackSample;
    FieldSizes();
    BigEndianInverts(s[2..4]);
    BigEndianInverts(s[4..8]);
    p := SampleParts(s[1], FromBigEndian(s[2..4]), FromBigEndian(s[4..8]), s[8], s[9] % 2 == 1, s[10..]);
    assert s[9] == Flags(p);
    SampleTakenApart(s, p);
  }

  /** The valid samples are exactly the packings of fields that fit. */
  lemma ValidExact(s: seq<byte>)
    ensures ValidateSample(s).Valid? <==> exists p :: FieldsFit(p) && s == PackSample(p)
  {
    hide ValidateSample, PackSample, FieldsFit;
    if ValidateSample(s).Valid? {
      var p := PartsOfValid(s);
    }
    if p :| FieldsFit(p) && s == PackSample(p) {
      PackedIsValid(p);
    }
  }

  datatype Unsealed = Mismatch | Payload(bytes: seq<byte>)

  /** body[-4:] against the checksum of body[:-4]. */
  function Unseal(w: Wire, body: seq<byte>): Unsealed {
    if |body| < 4 || body[|body| - 4..] != Crc(w, body[..|body| - 4]) then Mismatch
    else Payload(body[..|body| - 4])
  }

  /** The checks behind the header, for the two values of the flags that are supported. */
  function DecodeBody(w: Wire, flags: nat, body: seq<byte>): DecodeResult {
    match Unseal(w, body)
    case Mismatch => Dropped(KissChecksum)
    case Payload(inner) =>
      if flags % 2 == 0 then Judge(inner) else
      match Unseal(w, inner)
      case Mismatch => Dropped(CspChecksum)
      case Payload(sample) => Judge(sample)
  }

  function Judge(sample: seq<byte>): DecodeResult {
    match ValidateSample(sample)
    case Valid => Sample(sample)
    case Invalid(problem) => Dropped(problem)
  }

  function Decode(w: Wire, node: nat, frame: seq<byte>): DecodeResult {
    if |frame| < HeaderBytes(w.version) + 4 then Dropped(ShortFrame) else
    var header := Parse(w.version, frame);
    if header.sport != w.hkPort || header.source != node then Ignored
    else if header.flags != 0 && header.flags != FLAG_CRC32 then Dropped(UnsupportedFlags)
    else DecodeBody(w, header.flags, frame[HeaderBytes(w.version)..])
  }

  // ---------- exactly which frames are accepted ----------

  /** Its leading coefficient makes a checksum step one-to-one. */
  lemma CastagnoliIsMonic()
    ensures Polynomial(CASTAGNOLI)[31]
  {
    hide Polynomial;
    CastagnoliPowers();
  }

  lemma UnsealExact(w: Wire, body: seq<byte>, payload: seq<byte>)
    ensures Unseal(w, body) == Payload(payload) <==> body == Seal(w, payload)
  {
    if |body| >= 4 {
      assert body == body[..|body| - 4] + body[|body| - 4..];
    }
    if body == Seal(w, payload) {
      assert body[..|body| - 4] == payload;
    }
  }

  lemma DecodeBodyExact(w: Wire, flags: nat, body: seq<byte>, s: seq<byte>)
    requires flags == 0 || flags == FLAG_CRC32
    ensures DecodeBody(w, flags, body) == Sample(s)
       <==> ValidateSample(s).Valid? && body == (if flags == 0 then Seal(w, s) else Seal(w, Seal(w, s)))
  {
    hide Crc;
    UnsealExact(w, body, s);
    UnsealExact(w, body, Seal(w, s));
    if Unseal(w, body).Payload? {
      UnsealExact(w, Unseal(w, body).bytes, s);
      UnsealExact(w, body, Unseal(w, body).bytes);
    }
  }

  /** The frames that carry a sample: one layout for each value of the CRC flag. */
  predicate Carries(w: Wire, node: nat, frame: seq<byte>, s: seq<byte>) {
    && |frame| >= HeaderBytes(w.version)
    && Parse(w.version, frame).sport == w.hkPort
    && Parse(w.version, frame).source == node
    && ValidateSample(s).Valid?
    && (|| (Parse(w.version, frame).flags == FLAG_CRC32 && frame[HeaderBytes(w.version)..] == Seal(w, Seal(w, s)))
        || (Parse(w.version, frame).flags == 0 && frame[HeaderBytes(w.version)..] == Seal(w, s)))
  }

  /** The decoder accepts a frame as sample `s` if and only if the frame is built that way. */
  lemma DecodeExact(w: Wire, node: nat, frame: seq<byte>, s: seq<byte>)
    ensures Decode(w, node, frame) == Sample(s) <==> Carries(w, node, frame, s)
  {
    if |frame| >= HeaderBytes(w.version) {
      var flags, body := Parse(w.version, frame).flags, frame[HeaderBytes(w.version)..];
      if flags == 0 || flags == FLAG_CRC32 {
        DecodeBodyExact(w, flags, body, s);
      }
    }
  }

  /** Which frames are nobody's fault, and which are refused before their sample is looked at, and why. */
  lemma RefusalExact(w: Wire, node: nat, frame: seq<byte>)
    ensures var d, h, body := Decode(w, node, frame), Parse(w.version, frame), frame[Cut(w.version, frame)..];
      && (d == Dropped(ShortFrame) <==> |frame| < (if w.version.Csp1? then 8 else 10))
      && (d == Ignored <==> |frame| >= (if w.version.Csp1? then 8 else 10) && (h.sport != w.hkPort || h.source != node))
      && (d == Dropped(UnsupportedFlags) <==>
            Addressed(w, node, frame) && h.flags != 0 && h.flags != 1)
      && (d == Dropped(KissChecksum) <==>
            Addressed(w, node, frame) && h.flags <= 1 && forall x :: body != Seal(w, x))
      && (d == Dropped(CspChecksum) <==>
            Addressed(w, node, frame) && h.flags == 1 && (exists x :: body == Seal(w, x)) && forall x :: body != Seal(w, Seal(w, x)))
  {
    hide Crc, Parse, ValidateSample;
    OtherProblems();
    var body := frame[Cut(w.version, frame)..];
    SealedExact(w, body);
    if Unseal(w, body).Payload? {
      SealedExact(w, Unseal(w, body).bytes);
    }
  }

  /** Where the body begins, or the end of a shorter frame. */
  function Cut(v: Version, frame: seq<byte>): (n: nat)
    ensures n <= |frame|
  {
    if |frame| < HeaderBytes(v) then |frame| else HeaderBytes(v)
  }

  /** Long enough, from the housekeeping port of the node. */
  predicate Addressed(w: Wire, node: nat, frame: seq<byte>) {
    && |frame| >= (if w.version.Csp1? then 8 else 10)
    && Parse(w.version, frame).sport == w.hkPort
    && Parse(w.version, frame).source == node
  }

  lemma SealedExact(w: Wire, body: seq<byte>)
    ensures Unseal(w, body).Mismatch? <==> forall x :: body != Seal(w, x)
    ensures Unseal(w, body).Payload? ==> body == Seal(w, Unseal(w, body).bytes) && forall x :: body == Seal(w, x) ==> x == Unseal(w, body).bytes
  {
    hide Crc, Seal, Unseal;
    if Unseal(w, body).Payload? {
      UnsealExact(w, body, Unseal(w, body).bytes);
    }
    forall x | body == Seal(w, x) ensures Unseal(w, body) == Payload(x) {
      UnsealExact(w, body, x);
    }
  }

  /** The first rule that a sample breaks. */
  lemma ProblemExact(s: seq<byte>)
    ensures var v := ValidateSample(s);
      && (v == Invalid(SampleLength) <==> |s| < 10 || |s| > 240)
      && (10 <= |s| <= 240 ==>
            && (v == Invalid(VersionOrReport) <==> s[0] != 1 || s[1] > 15)
            && (v == Invalid(CountOrFlags) <==> s[0] == 1 && s[1] <= 15 && (s[8] == 0 || s[8] > 64 || s[9] > 3))
            && (v == Invalid(TruncatedValues) <==>
                  s[0] == 1 && s[1] <= 15 && 1 <= s[8] <= 64 && s[9] <= 3 && |s| - 10 < s[8] as int)
            && (v == Invalid(ClockFlag) <==>
                  s[0] == 1 && s[1] <= 15 && 1 <= s[8] <= 64 && s[9] <= 3 && |s| - 10 >= s[8] as int
                  && (s[9] >= 2) != (s[4..8] == [0, 0, 0, 0])))
    ensures ValidateSample(s).Invalid? ==> ValidateSample(s).problem !in {ShortFrame, UnsupportedFlags, KissChecksum, CspChecksum}
  {
    if 10 <= |s| <= 240 {
      ZeroSeconds(s[4..8]);
    }
    hide FromBigEndian;
  }

  lemma OtherProblems()
    ensures forall s: seq<byte> :: ValidateSample(s).Invalid? ==>
      ValidateSample(s).problem !in {ShortFrame, UnsupportedFlags, KissChecksum, CspChecksum}
  {
  }

  lemma ZeroSeconds(b: seq<byte>)
    requires |b| == 4
    ensures FromBigEndian(b) == 0 <==> b == [0, 0, 0, 0]
  {
    BigEndianInverts(b);
    BigEndianZero();
    FromBigEndianInverts(0, 4);
  }

  // ---------- a sample passes the whole stack ----------

  function WireFrame(w: Wire, h: Header, payload: seq<byte>): seq<byte>
    requires InRange(w.version, h)
  {
    EncodeInRange(w.version, h);
    Csp.Encode(w.version, h).bytes + Seal(w, Seal(w, payload))
  }

  lemma WireFrameFacts(w: Wire, h: Header, payload: seq<byte>)
    requires InRange(w.version, h)
    ensures |WireFrame(w, h, payload)| == HeaderBytes(w.version) + |payload| + 8
    ensures WireFrame(w, h, payload)[HeaderBytes(w.version)..] == Seal(w, Seal(w, payload))
    ensures Parse(w.version, WireFrame(w, h, payload)) == h
  {
    EncodeInRange(w.version, h);
    ParseEncoded(w.version, h, Seal(w, Seal(w, payload)));
  }

  /**
    After any stream a payload in a wire frame comes out of the reader, with its header,
    exactly when it is no longer than 240 bytes; one byte more and the frame is dropped.
   */
  lemma CapIsTight(w: Wire, h: Header, payload: seq<byte>, before: seq<byte>)
    requires InRange(w.version, h)
    ensures Kiss.Frames(before + Kiss.Encode(WireFrame(w, h, payload)), Kiss.Cap(w.version))
         == Kiss.Frames(before + [Kiss.FEND], Kiss.Cap(w.version))
            + (if |payload| <= 240 then [WireFrame(w, h, payload)] else [])
    ensures Parse(w.version, WireFrame(w, h, payload)) == h
  {
    WireFrameFacts(w, h, payload);
    Kiss.ReadEncoded(before, WireFrame(w, h, payload), Kiss.Cap(w.version));
  }

  /** Every valid sample survives escaping, reassembly, header parsing and both checks. */
  lemma SampleTransport(w: Wire, h: Header, s: seq<byte>, before: seq<byte>)
    requires InRange(w.version, h) && h.sport == w.hkPort && h.flags == FLAG_CRC32 && ValidateSample(s).Valid?
    ensures Kiss.Frames(before + Kiss.Encode(WireFrame(w, h, s)), Kiss.Cap(w.version))
         == Kiss.Frames(before + [Kiss.FEND], Kiss.Cap(w.version)) + [WireFrame(w, h, s)]
    ensures Decode(w, h.source, WireFrame(w, h, s)) == Sample(s)
  {
    CapIsTight(w, h, s, before);
    WireFrameFacts(w, h, s);
    DecodeExact(w, h.source, WireFrame(w, h, s), s);
  }

  /** A frame as the node sends it: sealed twice with the CRC flag, once with no flag. */
  function ReplyFrame(w: Wire, h: Header, payload: seq<byte>): seq<byte>
    requires InRange(w.version, h)
  {
    EncodeInRange(w.version, h);
    Csp.Encode(w.version, h).bytes + (if h.flags == 0 then Seal(w, payload) else Seal(w, Seal(w, payload)))
  }

  lemma ReplyDecodes(w: Wire, h: Header, s: seq<byte>)
    requires InRange(w.version, h) && h.sport == w.hkPort && h.flags <= 1 && ValidateSample(s).Valid?
    ensures Parse(w.version, ReplyFrame(w, h, s)) == h && Decode(w, h.source, ReplyFrame(w, h, s)) == Sample(s)
  {
    hide Crc, Seal, ValidateSample, Decode, Parse;
    var body := if h.flags == 0 then Seal(w, s) else Seal(w, Seal(w, s));
    EncodeInRange(w.version, h);
    ParseEncoded(w.version, h, body);
    DecodeExact(w, h.source, ReplyFrame(w, h, s), s);
  }

  // ---------- error detection ----------

  lemma SealInjective(w: Wire, x: seq<byte>, y: seq<byte>)
    requires Seal(w, x) == Seal(w, y)
    ensures x == y
  {
    assert |x| == |y|;
    assert Seal(w, x)[..|x|] == x && Seal(w, y)[..|y|] == y;
  }

  lemma Halves<T>(a: seq<T>, b: seq<T>, x: seq<T>, y: seq<T>, low: nat, width: nat)
    requires |a| == |b| && SameOutside(a + x, b + y, low, low + width)
    ensures SameOutside(a, b, low, low + width)
    ensures low + width <= |a| ==> x == y
    ensures |a| <= low ==> a == b
    ensures a == b ==> var from := if low < |a| then 0 else low - |a|; SameOutside(x, y, from, from + width)
  {
    forall i | 0 <= i < |a| && !(low <= i < low + width) ensures a[i] == b[i] {
      assert (a + x)[i] == a[i] && (b + y)[i] == b[i];
    }
    forall i | 0 <= i < |x| && !(low <= |a| + i < low + width) ensures x[i] == y[i] {
      assert (a + x)[|a| + i] == x[i] && (b + y)[|a| + i] == y[i];
    }
  }

  /** Payloads sealed twice whose digits agree outside 32 consecutive ones are equal. */
  lemma SealedWindow(w: Wire, s: seq<byte>, t: seq<byte>, low: nat)
    requires w.polynomial[31] && |s| == |t|
    requires SameOutside(AllDigits(Seal(w, Seal(w, s))), AllDigits(Seal(w, Seal(w, t))), low, low + 32)
    ensures s == t
  {
    hide AllDigits, Checksum;
    var x, y := Seal(w, s), Seal(w, t);
    AllDigitsConcat(x, Crc(w, x));
    AllDigitsConcat(y, Crc(w, y));
    Halves(AllDigits(x), AllDigits(y), AllDigits(Crc(w, x)), AllDigits(Crc(w, y)), low, 32);
    if low <= 8 * |s| {
      AllDigitsInjective(Crc(w, x), Crc(w, y));
      BurstChangesChecksum(w.polynomial, x, y, low);
      SealInjective(w, s, t);
    } else {
      AllDigitsConcat(s, Crc(w, s));
      AllDigitsConcat(t, Crc(w, t));
      Halves(AllDigits(s), AllDigits(t), AllDigits(Crc(w, s)), AllDigits(Crc(w, t)), low, 32);
      AllDigitsInjective(s, t);
    }
  }

  /**
    Two accepted frames with one header (CRC flag set) and one length are equal or differ
    over more than 32 consecutive digits, in the order in which a serial line sends them.
   */
  lemma BurstDetected(w: Wire, node: nat, f: seq<byte>, g: seq<byte>, low: nat)
    requires w.polynomial[31]
    requires Decode(w, node, f).Sample? && Decode(w, node, g).Sample?
    requires Parse(w.version, f).flags == FLAG_CRC32 && Parse(w.version, g) == Parse(w.version, f)
    requires f[..HeaderBytes(w.version)] == g[..HeaderBytes(w.version)]
    requires SameOutside(AllDigits(f), AllDigits(g), low, low + 32)
    ensures f == g
  {
    hide Crc, Parse, AllDigits, Decode, ValidateSample;
    var s, t := Decode(w, node, f).bytes, Decode(w, node, g).bytes;
    var h := HeaderBytes(w.version);
    DecodeExact(w, node, f, s);
    DecodeExact(w, node, g, t);
    assert f[h..] == Seal(w, Seal(w, s)) && g[h..] == Seal(w, Seal(w, t)) && h <= |f|;
    hide *;
    assert f == f[..h] + f[h..] && g == g[..h] + g[h..];
    AllDigitsConcat(f[..h], f[h..]);
    AllDigitsConcat(g[..h], g[h..]);
    Halves(AllDigits(f[..h]), AllDigits(g[..h]), AllDigits(f[h..]), AllDigits(g[h..]), low, 32);
    SealedWindow(w, s, t, if low < 8 * h then 0 else low - 8 * h);
  }

  /** In whole bytes and for the polynomial in use: the frames differ over more than four consecutive bytes. */
  lemma FourBytesDetected(version: Version, hkPort: nat, node: nat, f: seq<byte>, g: seq<byte>, low: nat)
    requires var w := Crc32c(version, hkPort);
      && Decode(w, node, f).Sample? && Decode(w, node, g).Sample?
      && Parse(version, f).flags == FLAG_CRC32 && Parse(version, g) == Parse(version, f)
    requires f[..HeaderBytes(version)] == g[..HeaderBytes(version)]
    requires SameOutside(f, g, low, low + 4)
    ensures f == g
  {
    hide Decode, Parse, Polynomial, AllDigits;
    DigitsOutside(f, g, low, low + 4);
    BurstDetected(Crc32c(version, hkPort), node, f, g, 8 * low);
  }

  lemma {:induction false} DigitsOutside(f: seq<byte>, g: seq<byte>, low: nat, high: nat)
    requires SameOutside(f, g, low, high)
    ensures SameOutside(AllDigits(f), AllDigits(g), 8 * low, 8 * high)
    decreases |f|
  {
    hide Digits;
    if f != [] {
      DigitsOutside(f[..|f| - 1], g[..|g| - 1], low, high);
    }
  }

  // ---------- the bound is tight, and needs both checksums ----------

  /** The frame with the five bytes at `low` of its sample changed by the divisor's digits. */
  function Tamper(w: Wire, f: seq<byte>, low: nat): (g: seq<byte>)
    requires HeaderBytes(w.version) + low + 5 <= |f|
    ensures SameOutside(f, g, HeaderBytes(w.version) + low, HeaderBytes(w.version) + low + 5)
  {
    var k := HeaderBytes(w.version) + low;
    f[..k] + Flip(w.polynomial, f[k..k + 5]) + f[k + 5..]
  }

  /** The change is confined to 33 consecutive digits. */
  lemma TamperedDigits(w: Wire, f: seq<byte>, low: nat)
    requires HeaderBytes(w.version) + low + 5 <= |f|
    ensures var from := 8 * (HeaderBytes(w.version) + low);
      SameOutside(AllDigits(Tamper(w, f, low)), AllDigits(f), from, from + 33)
  {
    hide AllDigits, SameOutside, Flip;
    var k := HeaderBytes(w.version) + low;
    var a, x, b := f[..k], f[k..k + 5], f[k + 5..];
    assert Tamper(w, f, low) == a + Flip(w.polynomial, x) + b;
    hide *;
    Thirds(f, k, 5);
    FlippedDigitsInside(w.polynomial, a, x, b);
  }

  lemma Thirds<T>(f: seq<T>, k: nat, n: nat)
    requires k + n <= |f|
    ensures f == f[..k] + f[k..k + n] + f[k + n..]
  {
  }

  lemma FlippedDigitsInside(p: Word, a: seq<byte>, x: seq<byte>, b: seq<byte>)
    requires |x| == 5
    ensures SameOutside(AllDigits(a + Flip(p, x) + b), AllDigits(a + x + b), 8 * |a|, 8 * |a| + 33)
  {
    hide *;
    var y := Flip(p, x);
    assert a + x + b == a + (x + b) && a + y + b == a + (y + b);
    AllDigitsConcat(a, x + b);
    AllDigitsConcat(a, y + b);
    AllDigitsConcat(x, b);
    AllDigitsConcat(y, b);
    FlippedDigits(p, x);
    InTheMiddle(AllDigits(a), AllDigits(y), AllDigits(x), AllDigits(b), 33);
  }

  lemma InTheMiddle<T>(a: seq<T>, x: seq<T>, y: seq<T>, b: seq<T>, width: nat)
    requires SameOutside(x, y, 0, width)
    ensures SameOutside(a + (x + b), a + (y + b), |a|, |a| + width)
  {
  }

  /** A sample with five value bytes changed that way keeps both checksums. */
  lemma TamperedSeals(w: Wire, s: seq<byte>, low: nat) returns (t: seq<byte>)
    requires HK_HEADER_BYTES <= low <= |s| - 5 && ValidateSample(s).Valid?
    ensures t == s[..low] + Flip(w.polynomial, s[low..low + 5]) + s[low + 5..]
    ensures t != s && ValidateSample(t).Valid?
    ensures Crc(w, t) == Crc(w, s) && Crc(w, Seal(w, t)) == Crc(w, Seal(w, s))
  {
    hide Checksum, Flip, ValidateSample;
    var a, x, b := s[..low], s[low..low + 5], s[low + 5..];
    var y := Flip(w.polynomial, x);
    t := a + y + b;
    assert s == a + x + b;
    FlipGoesUnnoticed(w.polynomial, a, x, b);
    FlipGoesUnnoticed(w.polynomial, a, x, b + Crc(w, s));
    assert Seal(w, s) == a + x + (b + Crc(w, s));
    assert Seal(w, t) == a + y + (b + Crc(w, s));
    assert s[low..low + 5] == x && t[low..low + 5] == y;
    assert s[..HK_HEADER_BYTES] == t[..HK_HEADER_BYTES];
    SameHeaderSameVerdict(s, t);
  }

  lemma SameHeaderSameVerdict(s: seq<byte>, t: seq<byte>)
    requires |s| == |t| >= HK_HEADER_BYTES && s[..HK_HEADER_BYTES] == t[..HK_HEADER_BYTES]
    ensures ValidateSample(s) == ValidateSample(t)
  {
    assert s[4..8] == s[..HK_HEADER_BYTES][4..8] && t[4..8] == t[..HK_HEADER_BYTES][4..8];
    assert s[0] == t[0] && s[1] == t[1] && s[8] == t[8] && s[9] == t[9];
  }

  lemma TamperInSample(w: Wire, f: seq<byte>, s: seq<byte>, rest: seq<byte>, low: nat)
    requires HeaderBytes(w.version) <= |f| && f[HeaderBytes(w.version)..] == s + rest && low + 5 <= |s|
    ensures Tamper(w, f, low)[..HeaderBytes(w.version)] == f[..HeaderBytes(w.version)]
    ensures Tamper(w, f, low)[HeaderBytes(w.version)..]
         == s[..low] + Flip(w.polynomial, s[low..low + 5]) + s[low + 5..] + rest
  {
    hide Flip, AllDigits, SameOutside;
    var h := HeaderBytes(w.version);
    var x := f[h + low..h + low + 5];
    assert Tamper(w, f, low) == f[..h + low] + Flip(w.polynomial, x) + f[h + low + 5..];
    hide *;
    PartsOfRest(f, h, s, rest, low, 5);
    ChangedMiddle(f[..h], s[..low], Flip(w.polynomial, x), s[low + 5..], rest);
  }

  lemma PartsOfRest<T>(f: seq<T>, h: nat, s: seq<T>, rest: seq<T>, low: nat, n: nat)
    requires h <= |f| && f[h..] == s + rest && low + n <= |s|
    ensures h + low + n <= |f| && f[..h + low] == f[..h] + s[..low]
    ensures f[h + low..h + low + n] == s[low..low + n] && f[h + low + n..] == s[low + n..] + rest
  {
    assert f == f[..h] + (s + rest);
  }

  lemma ChangedMiddle<T>(head: seq<T>, a: seq<T>, x: seq<T>, b: seq<T>, rest: seq<T>)
    ensures var g := head + a + x + (b + rest); g[..|head|] == head && g[|head|..] == a + x + b + rest
  {
  }

  /** What follows the sample in a body. */
  function Tail(w: Wire, flags: nat, s: seq<byte>): seq<byte> {
    if flags == 0 then Crc(w, s) else Crc(w, s) + Crc(w, Seal(w, s))
  }

  lemma CarriesTail(w: Wire, node: nat, f: seq<byte>, s: seq<byte>)
    requires |f| >= HeaderBytes(w.version) && Parse(w.version, f).flags <= 1
    ensures Carries(w, node, f, s)
       <==> && Parse(w.version, f).sport == w.hkPort && Parse(w.version, f).source == node
            && ValidateSample(s).Valid?
            && f[HeaderBytes(w.version)..] == s + Tail(w, Parse(w.version, f).flags, s)
  {
    hide Crc, Parse, ValidateSample;
    assert Seal(w, Seal(w, s)) == s + (Crc(w, s) + Crc(w, Seal(w, s)));
  }

  /**
    In every accepted frame whose sample holds five value bytes from `low`, those five
    bytes can change without either checksum noticing.
   */
  lemma BurstBoundIsTight(w: Wire, node: nat, f: seq<byte>, s: seq<byte>, low: nat)
    requires Decode(w, node, f) == Sample(s) && HK_HEADER_BYTES <= low <= |s| - 5
    ensures HeaderBytes(w.version) + low + 5 <= |f|
    ensures Tamper(w, f, low) != f && Decode(w, node, Tamper(w, f, low)).Sample?
  {
    hide Crc, Flip, Parse, ValidateSample, Decode, Tamper;
    DecodeExact(w, node, f, s);
    CarriesTail(w, node, f, s);
    var rest := Tail(w, Parse(w.version, f).flags, s);
    var t := TamperedSeals(w, s, low);
    TamperInSample(w, f, s, rest, low);
    var g := Tamper(w, f, low);
    SameHeaderSameFields(w.version, f, g);
    CarriesTail(w, node, g, t);
    DecodeExact(w, node, g, t);
    DifferentFront(t, s, rest);
  }

  lemma DifferentFront(s: seq<byte>, t: seq<byte>, rest: seq<byte>)
    requires |s| == |t| && s != t
    ensures s + rest != t + rest
  {
    assert (s + rest)[..|s|] == s && (t + rest)[..|t|] == t;
  }

  lemma SameHeaderSameFields(v: Version, f: seq<byte>, g: seq<byte>)
    requires |f| == |g| >= HeaderBytes(v) && f[..HeaderBytes(v)] == g[..HeaderBytes(v)]
    ensures Parse(v, f) == Parse(v, g)
  {
    assert Slice(f, 0, HeaderBytes(v)) == Slice(g, 0, HeaderBytes(v));
  }

  /** The sample with its last byte slipped. */
  function Slipped(s: seq<byte>): (t: seq<byte>)
    requires s != []
    ensures |t| == |s|
  {
    s[..|s| - 1] + [Slip(s[|s| - 1])]
  }

  lemma SlippedSample(w: Wire, s: seq<byte>)
    requires w.polynomial == Polynomial(CASTAGNOLI) && ValidateSample(s).Valid?
    ensures |s| > HK_HEADER_BYTES && ValidateSample(Slipped(s)).Valid? && Slipped(s) != s
    ensures Crc(w, Slipped(s))[3] == Crc(w, s)[3]
  {
    hide Checksum, Slip, Polynomial;
    var head, b := s[..|s| - 1], s[|s| - 1];
    assert s == head + [b];
    SlippedChecksum(head, b);
    assert Slipped(s)[..HK_HEADER_BYTES] == s[..HK_HEADER_BYTES];
    SameHeaderSameVerdict(s, Slipped(s));
    assert Slipped(s)[|s| - 1] != b;
  }

  /**
    With the CRC flag clear there is one checksum only, and then every accepted frame can
    change inside four consecutive bytes and still be accepted: BurstDetected needs the flag.
   */
  lemma OneChecksumIsNotEnough(w: Wire, node: nat, f: seq<byte>, s: seq<byte>) returns (g: seq<byte>)
    requires w.polynomial == Polynomial(CASTAGNOLI)
    requires Decode(w, node, f) == Sample(s) && Parse(w.version, f).flags == 0
    ensures f != g && Decode(w, node, g).Sample?
    ensures f[..HeaderBytes(w.version)] == g[..HeaderBytes(w.version)]
    ensures |f| >= 5 && SameOutside(f, g, |f| - 5, |f| - 1)
  {
    hide Crc, Parse, ValidateSample, Slip, Polynomial, Decode;
    DecodeExact(w, node, f, s);
    SlippedSample(w, s);
    var h, t := HeaderBytes(w.version), Slipped(s);
    g := f[..h] + Seal(w, t);
    assert f == f[..h] + Seal(w, s);
    SameHeaderSameFields(w.version, f, g);
    assert g[h..] == Seal(w, t);
    DecodeExact(w, node, g, t);
    SlippedSeals(w, f[..h], s);
    SealInjectiveOn(w, s, t);
  }

  lemma SealInjectiveOn(w: Wire, x: seq<byte>, y: seq<byte>)
    requires |x| == |y| && x != y
    ensures forall head: seq<byte> :: head + Seal(w, x) != head + Seal(w, y)
  {
    hide Crc;
    forall head: seq<byte> ensures head + Seal(w, x) != head + Seal(w, y) {
      var n := |head|;
      assert (head + Seal(w, x))[n..n + |x|] == x && (head + Seal(w, y))[n..n + |y|] == y;
    }
  }

  lemma SlippedSeals(w: Wire, head: seq<byte>, s: seq<byte>)
    requires s != [] && Crc(w, Slipped(s))[3] == Crc(w, s)[3]
    ensures var f, g := head + Seal(w, s), head + Seal(w, Slipped(s)); SameOutside(f, g, |f| - 5, |f| - 1)
  {
    hide Crc, Slip;
  }
}
