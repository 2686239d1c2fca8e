/** The two ends of the packet exchange in `firmware_fixture.py`, which every smoke test shares. */
module FirmwareFixture {
  import opened Bits
  import opened Crc32
  import opened CrcSlip
  import opened Csp
  import opened Housekeeping
  import Kiss

  datatype Packet = Packet(header: Header, payload: seq<byte>)

  predicate Sendable(v: Version, p: Packet) {
    InRange(v, p.header) && p.header.flags == FLAG_CRC32
  }

  /** What one call writes to the port. */
  function SendPacket(w: Wire, p: Packet): seq<byte>
    requires Sendable(w.version, p)
  {
    Kiss.Encode(WireFrame(w, p.header, p.payload))
  }

  /** What one frame yields: the slices count six header bytes, whatever the CSP version. */
  function PacketOf(w: Wire, frame: seq<byte>): (r: seq<Packet>)
    ensures |r| <= 1
  {
    var data := Slice(frame, 6, -8);
    if Slice(frame, -4, |frame|) != Crc(w, Slice(frame, 6, -4)) || Slice(frame, -8, -4) != Crc(w, data) then []
    else [Packet(Parse(w.version, frame), data)]
  }

  function PacketsOf(w: Wire, frames: seq<Kiss.Frame>): seq<Packet> {
    if frames == [] then [] else
    PacketsOf(w, frames[..|frames| - 1]) + PacketOf(w, frames[|frames| - 1])
  }

  /** The receiving loop over the reads made before its deadline. */
  method Packets(w: Wire, chunks: seq<seq<byte>>) returns (received: seq<Packet>)
    ensures received == PacketsOf(w, Kiss.Frames(Kiss.Flatten(chunks), Kiss.Cap(w.version)))
  {
    hide PacketOf, Kiss.Run;
    var reader := new Kiss.KissReader(w.version);
    received := [];
    assert chunks[..0] == [];
    for n := 0 to |chunks|
      invariant reader.version == w.version && fresh(reader)
      invariant reader.Current() == Kiss.RunChunks(Kiss.FRESH, chunks[..n], Kiss.Cap(w.version)).state
      invariant received == PacketsOf(w, Kiss.RunChunks(Kiss.FRESH, chunks[..n], Kiss.Cap(w.version)).frames)
    {
      var frames := reader.Feed(chunks[n]);
      assert chunks[..n + 1][..n] == chunks[..n];
      var packets := Sift(w, frames);
      PacketsConcat(w, Kiss.RunChunks(Kiss.FRESH, chunks[..n], Kiss.Cap(w.version)).frames, frames);
      received := received + packets;
    }
    assert chunks[..|chunks|] == chunks;
    Kiss.ChunksDoNotMatter(Kiss.FRESH, chunks, Kiss.Cap(w.version));
  }

  method Sift(w: Wire, frames: seq<Kiss.Frame>) returns (packets: seq<Packet>)
    ensures packets == PacketsOf(w, frames)
  {
    hide PacketOf;
    packets := [];
    for i := 0 to |frames|
      invariant packets == PacketsOf(w, frames[..i])
    {
      assert frames[..i + 1][..i] == frames[..i];
      packets := packets + PacketOf(w, frames[i]);
    }
    assert frames[..|frames|] == frames;
  }

  lemma {:induction false} PacketsConcat(w: Wire, a: seq<Kiss.Frame>, b: seq<Kiss.Frame>)
    ensures PacketsOf(w, a + b) == PacketsOf(w, a) + PacketsOf(w, b)
  {
    hide PacketOf;
    if b == [] {
      assert a + b == a;
    } else {
      assert (a + b)[..|a + b| - 1] == a + b[..|b| - 1];
      PacketsConcat(w, a, b[..|b| - 1]);
    }
  }

  // ---------- one packet ----------

  lemma BodySlices(head: seq<byte>, s: seq<byte>, t: seq<byte>, u: seq<byte>)
    requires |head| == 6 && |t| == |u| == 4
    ensures var f := head + s + t + u;
      && Slice(f, 6, -8) == s && Slice(f, -8, -4) == t && Slice(f, -4, |f|) == u && Slice(f, 6, -4) == s + t
  {
  }

  lemma WireFrameParts(w: Wire, p: Packet)
    requires Sendable(w.version, p)
    ensures var f := WireFrame(w, p.header, p.payload);
      f == f[..HeaderBytes(w.version)] + p.payload + Crc(w, p.payload) + Crc(w, Seal(w, p.payload))
  {
    hide Crc, Csp.Encode;
    WireFrameFacts(w, p.header, p.payload);
    var f := WireFrame(w, p.header, p.payload);
    assert f == f[..HeaderBytes(w.version)] + f[HeaderBytes(w.version)..];
  }

  /** With CSP 2 headers a sent frame is read as the packet it carries. */
  lemma PacketReadBack(w: Wire, p: Packet)
    requires Sendable(w.version, p) && w.version.Csp2?
    ensures PacketOf(w, WireFrame(w, p.header, p.payload)) == [p]
  {
    hide Crc, WireFrame, Parse;
    WireFrameFacts(w, p.header, p.payload);
    WireFrameParts(w, p);
    BodySlices(WireFrame(w, p.header, p.payload)[..6], p.payload, Crc(w, p.payload), Crc(w, Seal(w, p.payload)));
  }

  /** Twelve bytes without a payload: the slices take the checksum of two bytes of a checksum. */
  lemma EmptyPayload(w: Wire, p: Packet)
    requires Sendable(w.version, p) && w.version.Csp1? && p.payload == [] && w.polynomial == Polynomial(CASTAGNOLI)
    ensures PacketOf(w, WireFrame(w, p.header, p.payload)) == []
  {
    CastagnoliIsMonic();
    ZerosDiffer(w.polynomial);
    EmptyFrame(w, p);
    assert Crc(w, [0, 0]) != Crc(w, [0, 0, 0, 0]) by {
      hide Checksum;
    }
    hide *;
    var f := WireFrame(w, p.header, p.payload);
    EmptySlices(f[..4], Crc(w, [0, 0, 0, 0]));
    Unread(w, f);
  }

  lemma EmptyFrame(w: Wire, p: Packet)
    requires Sendable(w.version, p) && w.version.Csp1? && p.payload == []
    ensures var f := WireFrame(w, p.header, p.payload);
      |f| == 12 && f == f[..4] + [0, 0, 0, 0] + Crc(w, [0, 0, 0, 0])
  {
    EmptyChecksum(w.polynomial);
    assert Crc(w, []) == [0, 0, 0, 0] && Seal(w, []) == [0, 0, 0, 0] by {
      hide Checksum;
    }
    hide Checksum, WireFrame, Parse, PacketOf, Seal, Crc;
    WireFrameFacts(w, p.header, p.payload);
    WireFrameParts(w, p);
    assert WireFrame(w, p.header, p.payload)[..4] + [] == WireFrame(w, p.header, p.payload)[..4];
  }

  lemma EmptySlices(head: seq<byte>, t: seq<byte>)
    requires |head| == |t| == 4
    ensures var f := head + [0, 0, 0, 0] + t; Slice(f, -4, |f|) == t && Slice(f, 6, -4) == [0, 0]
  {
  }

  lemma Unread(w: Wire, f: seq<byte>)
    requires Slice(f, -4, |f|) != Crc(w, Slice(f, 6, -4))
    ensures PacketOf(w, f) == []
  {
  }

  /** The six-byte slices make the fixture a CSP 2 tool: with CSP 1 no packet comes back as it was sent. */
  lemma ReadBackNeedsCsp2(w: Wire, p: Packet)
    requires Sendable(w.version, p) && (p.payload != [] || w.polynomial == Polynomial(CASTAGNOLI))
    ensures PacketOf(w, WireFrame(w, p.header, p.payload)) == [p] <==> w.version.Csp2?
  {
    hide Crc, WireFrame, Parse, Polynomial;
    if w.version.Csp2? {
      PacketReadBack(w, p);
    } else if p.payload == [] {
      EmptyPayload(w, p);
    } else {
      WireFrameFacts(w, p.header, p.payload);
      var f := WireFrame(w, p.header, p.payload);
      assert |Slice(f, 6, -8)| != |p.payload|;
      if PacketOf(w, f) != [] {
        assert PacketOf(w, f)[0] != p;
      }
    }
  }

  // ---------- exactly which frames are packets ----------

  function ZeroBytes(n: nat): (z: seq<byte>)
    ensures |z| == n
  {
    seq(n, _ => 0)
  }

  /** A frame with room for a header and both checksums is a packet exactly when what follows six bytes is sealed twice. */
  lemma PacketExact(w: Wire, f: seq<byte>, p: Packet)
    requires |f| >= 14
    ensures PacketOf(w, f) == [p] <==> p.header == Parse(w.version, f) && f[6..] == Seal(w, Seal(w, p.payload))
  {
    hide Crc, Parse;
    LongSlices(f);
    var n := |f|;
    var data := f[6..n - 8];
    assert f[6..] == data + f[n - 8..n - 4] + f[n - 4..] && f[6..n - 4] == data + f[n - 8..n - 4];
    SealedTwice(w, f[6..], data, f[n - 8..n - 4], f[n - 4..], p.payload);
  }

  lemma LongSlices(f: seq<byte>)
    requires |f| >= 14
    ensures Slice(f, 6, -8) == f[6..|f| - 8] && Slice(f, -8, -4) == f[|f| - 8..|f| - 4]
    ensures Slice(f, -4, |f|) == f[|f| - 4..] && Slice(f, 6, -4) == f[6..|f| - 4]
  {
  }

  lemma SealedTwice(w: Wire, body: seq<byte>, data: seq<byte>, t: seq<byte>, u: seq<byte>, payload: seq<byte>)
    requires body == data + t + u && |t| == |u| == 4
    ensures body == Seal(w, Seal(w, payload)) <==> payload == data && t == Crc(w, data) && u == Crc(w, data + t)
  {
    hide Crc;
    if body == Seal(w, Seal(w, payload)) {
      assert |payload| == |data|;
      assert body[..|data|] == data && Seal(w, Seal(w, payload))[..|data|] == payload;
      assert body[|data|..|data| + 4] == t && body[|data| + 4..] == u;
    }
  }

  /**
    A shorter frame has no payload, and it is still taken for a packet when eight of its bytes
    happen to fit: no length is checked.
   */
  lemma ShortFrameExact(w: Wire, f: seq<byte>, p: Packet)
    requires |f| < 14
    ensures PacketOf(w, f) == [p] <==>
      && |f| >= 8 && p == Packet(Parse(w.version, f), [])
      && f[|f| - 8..|f| - 4] == [0, 0, 0, 0]
      && f[|f| - 4..] == Crc(w, ZeroBytes(if |f| > 10 then |f| - 10 else 0))
  {
    EmptyChecksum(w.polynomial);
    assert Crc(w, []) == [0, 0, 0, 0] by {
      hide Checksum;
    }
    hide Crc, Checksum, Parse;
    ShortSlices(f);
    if |f| >= 8 && f[|f| - 8..|f| - 4] == [0, 0, 0, 0] {
      ZerosBetween(f);
    }
  }

  lemma ShortSlices(f: seq<byte>)
    requires |f| < 14
    ensures Slice(f, 6, -8) == [] && (|f| < 8 ==> |Slice(f, -8, -4)| < 4)
    ensures |f| >= 8 ==> Slice(f, -8, -4) == f[|f| - 8..|f| - 4] && Slice(f, -4, |f|) == f[|f| - 4..]
    ensures |f| >= 8 ==> Slice(f, 6, -4) == if |f| > 10 then f[6..|f| - 4] else []
  {
  }

  lemma ZerosBetween(f: seq<byte>)
    requires 8 <= |f| < 14 && f[|f| - 8..|f| - 4] == [0, 0, 0, 0]
    ensures (if |f| > 10 then f[6..|f| - 4] else []) == ZeroBytes(if |f| > 10 then |f| - 10 else 0)
  {
    assert forall i :: |f| - 8 <= i < |f| - 4 ==> f[i] == f[|f| - 8..|f| - 4][i - (|f| - 8)];
  }

  /** Eight zero bytes are received as an empty packet. */
  lemma ZeroFrame(w: Wire)
    ensures PacketOf(w, ZeroBytes(8)) == [Packet(Parse(w.version, ZeroBytes(8)), [])]
  {
    EmptyChecksum(w.polynomial);
    assert Crc(w, ZeroBytes(0)) == [0, 0, 0, 0] by {
      hide Checksum;
      assert ZeroBytes(0) == [];
    }
    hide Crc, Checksum, Parse, PacketOf;
    ShortFrameExact(w, ZeroBytes(8), Packet(Parse(w.version, ZeroBytes(8)), []));
    assert ZeroBytes(8)[0..4] == [0, 0, 0, 0] && ZeroBytes(8)[4..] == [0, 0, 0, 0];
  }

  // ---------- whole exchanges ----------

  predicate AllSendable(v: Version, ps: seq<Packet>) {
    forall i :: 0 <= i < |ps| ==> Sendable(v, ps[i])
  }

  function WireFrames(w: Wire, ps: seq<Packet>): seq<Kiss.Frame>
    requires AllSendable(w.version, ps)
  {
    if ps == [] then [] else
    WireFrames(w, ps[..|ps| - 1]) + [WireFrame(w, ps[|ps| - 1].header, ps[|ps| - 1].payload)]
  }

  /** The bytes of one call after another. */
  function SentAll(w: Wire, ps: seq<Packet>): seq<byte>
    requires AllSendable(w.version, ps)
  {
    if ps == [] then [] else SentAll(w, ps[..|ps| - 1]) + SendPacket(w, ps[|ps| - 1])
  }

  /** The packets whose payload the reader has room for. */
  function Fitting(ps: seq<Packet>): seq<Packet> {
    if ps == [] then [] else
    Fitting(ps[..|ps| - 1]) + (if |ps[|ps| - 1].payload| <= Kiss.HK_SAMPLE_MAX then [ps[|ps| - 1]] else [])
  }

  lemma {:induction false} SentIsEncoded(w: Wire, ps: seq<Packet>)
    requires AllSendable(w.version, ps)
    ensures SentAll(w, ps) == Kiss.EncodeAll(WireFrames(w, ps)) && |WireFrames(w, ps)| == |ps|
  {
    hide WireFrame, Kiss.Encode;
    if ps != [] {
      SentIsEncoded(w, ps[..|ps| - 1]);
      assert WireFrames(w, ps)[..|ps| - 1] == WireFrames(w, ps[..|ps| - 1]);
    }
  }

  lemma DeliverOne(w: Wire, frames: seq<Kiss.Frame>, p: Packet)
    requires Sendable(w.version, p) && w.version.Csp2?
    ensures PacketsOf(w, Kiss.Deliverable(frames + [WireFrame(w, p.header, p.payload)], Kiss.Cap(w.version)))
         == PacketsOf(w, Kiss.Deliverable(frames, Kiss.Cap(w.version)))
            + (if |p.payload| <= Kiss.HK_SAMPLE_MAX then [p] else [])
  {
    hide WireFrame, PacketOf;
    var frame := WireFrame(w, p.header, p.payload);
    PacketReadBack(w, p);
    WireFrameFacts(w, p.header, p.payload);
    assert (frames + [frame])[..|frames|] == frames;
    var rest := Kiss.Deliverable(frames, Kiss.Cap(w.version));
    if |p.payload| <= Kiss.HK_SAMPLE_MAX {
      assert (rest + [frame])[..|rest|] == rest;
    } else {
      assert Kiss.Deliverable(frames + [frame], Kiss.Cap(w.version)) == rest;
      assert PacketsOf(w, rest) + [] == PacketsOf(w, rest);
    }
  }

  lemma {:induction false} DeliveredPackets(w: Wire, ps: seq<Packet>)
    requires AllSendable(w.version, ps) && w.version.Csp2?
    ensures PacketsOf(w, Kiss.Deliverable(WireFrames(w, ps), Kiss.Cap(w.version))) == Fitting(ps)
  {
    hide WireFrame, PacketOf;
    if ps != [] {
      DeliveredPackets(w, ps[..|ps| - 1]);
      DeliverOne(w, WireFrames(w, ps[..|ps| - 1]), ps[|ps| - 1]);
    }
  }

  /**
    After any garbage, in any chunks, all packets with room come out complete, in order and
    unchanged. Before them comes what the garbage itself yielded and at most one leftover.
   */
  lemma Exchange(w: Wire, garbage: seq<byte>, ps: seq<Packet>, chunks: seq<seq<byte>>)
    requires w.version.Csp2? && ps != [] && AllSendable(w.version, ps)
    requires Kiss.Flatten(chunks) == garbage + SentAll(w, ps)
    ensures exists leftover ::
      && |leftover| <= 1
      && PacketsOf(w, Kiss.RunChunks(Kiss.FRESH, chunks, Kiss.Cap(w.version)).frames)
         == PacketsOf(w, Kiss.Frames(garbage, Kiss.Cap(w.version))) + leftover + Fitting(ps)
  {
    hide PacketsOf, Kiss.Run, Kiss.Frames, Kiss.Deliverable, WireFrames;
    var cap := Kiss.Cap(w.version);
    var ended := Kiss.Frames(garbage + [Kiss.FEND], cap);
    SentIsEncoded(w, ps);
    Kiss.ChunksDoNotMatter(Kiss.FRESH, chunks, cap);
    WholeStream(garbage + SentAll(w, ps), cap);
    Kiss.Resynchronise(garbage, WireFrames(w, ps), cap);
    PacketsConcat(w, ended, Kiss.Deliverable(WireFrames(w, ps), cap));
    DeliveredPackets(w, ps);
    var leftover := Leftover(w, garbage);
  }

  lemma WholeStream(stream: seq<byte>, cap: nat)
    ensures Kiss.Run(Kiss.FRESH, stream, cap).frames == Kiss.Frames(stream, cap)
  {
  }

  /** The FEND of the first packet flushes one frame at most. */
  lemma Leftover(w: Wire, garbage: seq<byte>) returns (leftover: seq<Packet>)
    ensures |leftover| <= 1
    ensures PacketsOf(w, Kiss.Frames(garbage + [Kiss.FEND], Kiss.Cap(w.version)))
         == PacketsOf(w, Kiss.Frames(garbage, Kiss.Cap(w.version))) + leftover
  {
    hide PacketOf, Kiss.Frames;
    var cap := Kiss.Cap(w.version);
    var before, after := Kiss.Frames(garbage, cap), Kiss.Frames(garbage + [Kiss.FEND], cap);
    Kiss.AtMostOneLeftover(garbage, cap);
    if after == before {
      leftover := [];
    } else {
      var frame :| after == before + [frame];
      leftover := PacketOf(w, frame);
      assert after[..|after| - 1] == before;
    }
  }
}
