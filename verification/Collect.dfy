/** One poll of `hk-bridge.py`: ask, read until enough distinct replies came, or time out. */
module Collect {
  import opened Bits
  import opened Csp
  import opened Housekeeping
  import Kiss

  datatype ClassMask = NoMask | Mask(bits: byte)

  /** The command line: the bridge's own address, the node it watches, and what it wants. */
  datatype Options = Options(source: nat, node: nat, report: byte, classMask: ClassMask)

  datatype Reply = Reply(sample: seq<byte>, matching: bool)

  datatype Ending = Finished | TimedOut(received: nat)

  // ---------- the request ----------

  /** struct.pack(">BBBH", ...), with one more byte when a class mask selects across reports. */
  function RequestPayload(o: Options, count: byte): seq<byte> {
    match o.classMask
    case NoMask => [HK_PROTOCOL_VERSION, o.report, count] + BigEndian(0, 2)
    case Mask(bits) => [HK_PROTOCOL_VERSION, 255, count] + BigEndian(0, 2) + [bits]
  }

  function RequestHeader(w: Wire, o: Options, sport: nat): Header {
    Header(o.node, o.source, w.hkPort, sport, FLAG_CRC32)
  }

  function BuildRequest(w: Wire, o: Options, sport: nat, count: byte): seq<byte>
    requires InRange(w.version, RequestHeader(w, o, sport))
  {
    Kiss.Encode(WireFrame(w, RequestHeader(w, o, sport), RequestPayload(o, count)))
  }

  /** The bytes of a request: version 1, the report, the count, no age, and the mask if there is one. */
  predicate Asks(o: Options, count: byte, payload: seq<byte>) {
    match o.classMask
    case NoMask => |payload| == 5 && payload[0] == 1 && payload[1] == o.report && payload[2] == count && payload[3..] == [0, 0]
    case Mask(bits) =>
      |payload| == 6 && payload[0] == 1 && payload[1] == 255 && payload[2] == count && payload[3..5] == [0, 0] && payload[5] == bits
  }

  /** A reader on the other side gets one frame with the right header, both checks pass, and the payload asks for what was wanted. */
  lemma RequestArrives(w: Wire, o: Options, sport: nat, count: byte) returns (frame: seq<byte>, payload: seq<byte>)
    requires InRange(w.version, RequestHeader(w, o, sport))
    ensures Kiss.Frames(BuildRequest(w, o, sport, count), Kiss.Cap(w.version)) == [frame]
    ensures Parse(w.version, frame) == Header(o.node, o.source, w.hkPort, sport, 1)
    ensures |frame| >= HeaderBytes(w.version)
    ensures Unseal(w, frame[HeaderBytes(w.version)..]) == Payload(Seal(w, payload))
    ensures Unseal(w, Seal(w, payload)) == Payload(payload)
    ensures Asks(o, count, payload)
  {
    hide Crc, Asks;
    var h := RequestHeader(w, o, sport);
    payload := RequestPayload(o, count);
    frame := WireFrame(w, h, payload);
    CapIsTight(w, h, payload, []);
    WireFrameFacts(w, h, payload);
    assert [] + Kiss.Encode(frame) == BuildRequest(w, o, sport, count);
    Kiss.RunSnoc(Kiss.FRESH, [], Kiss.FEND, Kiss.Cap(w.version));
    UnsealExact(w, Seal(w, Seal(w, payload)), Seal(w, payload));
    UnsealExact(w, Seal(w, payload), payload);
    PayloadAsks(o, count);
  }

  lemma PayloadAsks(o: Options, count: byte)
    ensures Asks(o, count, RequestPayload(o, count))
  {
    BigEndianZero();
  }

  // ---------- the replies ----------

  function Matching(w: Wire, o: Options, sport: nat, frame: seq<byte>, sample: seq<byte>): bool
    requires |sample| >= 2
  {
    var header := Parse(w.version, frame);
    header.destination == o.source && header.dport == sport && (o.classMask.Mask? || sample[1] == o.report)
  }

  /** What one frame yields. */
  function ReplyOf(w: Wire, o: Options, sport: nat, frame: seq<byte>): (r: seq<Reply>)
    ensures |r| <= 1
  {
    match Decode(w, o.node, frame)
    case Ignored => []
    case Dropped(_) => []
    case Sample(s) =>
      DecodeExact(w, o.node, frame, s);
      [Reply(s, Matching(w, o, sport, frame, s))]
  }

  function Replies(w: Wire, o: Options, sport: nat, frames: seq<Kiss.Frame>): seq<Reply> {
    if frames == [] then [] else
    Replies(w, o, sport, frames[..|frames| - 1]) + ReplyOf(w, o, sport, frames[|frames| - 1])
  }

  /** The distinct samples among the matching replies. */
  function Matched(replies: seq<Reply>): set<seq<byte>> {
    set r | r in replies && r.matching :: r.sample
  }

  /** The frames that answer: for this bridge and this request, and with the report asked for unless a mask selects. */
  predicate Answers(w: Wire, o: Options, sport: nat, frame: seq<byte>, s: seq<byte>) {
    && Carries(w, o.node, frame, s)
    && Parse(w.version, frame).destination == o.source
    && Parse(w.version, frame).dport == sport
    && (o.classMask == NoMask ==> |s| > 1 && s[1] == o.report)
  }

  /** The samples counted are exactly those of the frames that answer. */
  lemma {:induction false} MatchedExact(w: Wire, o: Options, sport: nat, frames: seq<Kiss.Frame>, s: seq<byte>)
    ensures s in Matched(Replies(w, o, sport, frames)) <==> exists f :: f in frames && Answers(w, o, sport, f, s)
  {
    hide ReplyOf, Answers, Matched;
    if frames == [] {
      NothingYet(w, o, sport, Kiss.FRESH);
    } else {
      var front, last := frames[..|frames| - 1], frames[|frames| - 1];
      assert frames == front + [last];
      MatchedExact(w, o, sport, front, s);
      MatchedGrows(Replies(w, o, sport, front), ReplyOf(w, o, sport, last));
      OneAnswer(w, o, sport, last, s);
    }
  }

  /** What one frame yields: the sample it carries, marked if it answers, or nothing. */
  lemma OneReply(w: Wire, o: Options, sport: nat, frame: seq<byte>)
    ensures forall s :: Carries(w, o.node, frame, s) ==> ReplyOf(w, o, sport, frame) == [Reply(s, Answers(w, o, sport, frame, s))]
    ensures (forall s :: !Carries(w, o.node, frame, s)) ==> ReplyOf(w, o, sport, frame) == []
  {
    hide Decode, Parse, Carries;
    forall s | Carries(w, o.node, frame, s) ensures ReplyOf(w, o, sport, frame) == [Reply(s, Answers(w, o, sport, frame, s))] {
      DecodeExact(w, o.node, frame, s);
      LongEnough(w, o.node, frame, s);
    }
    if Decode(w, o.node, frame).Sample? {
      DecodeExact(w, o.node, frame, Decode(w, o.node, frame).bytes);
    }
  }

  lemma OneAnswer(w: Wire, o: Options, sport: nat, frame: seq<byte>, s: seq<byte>)
    ensures s in Matched(ReplyOf(w, o, sport, frame)) <==> Answers(w, o, sport, frame, s)
  {
    hide Carries, Parse, ReplyOf;
    OneReply(w, o, sport, frame);
    if t :| Carries(w, o.node, frame, t) {
      assert Matched([Reply(t, Answers(w, o, sport, frame, t))]) == if Answers(w, o, sport, frame, t) then {t} else {};
      if Carries(w, o.node, frame, s) {
        assert [Reply(s, Answers(w, o, sport, frame, s))][0] == [Reply(t, Answers(w, o, sport, frame, t))][0];
      }
    }
  }

  lemma LongEnough(w: Wire, node: nat, frame: seq<byte>, s: seq<byte>)
    requires Carries(w, node, frame, s)
    ensures |s| > 1
  {
  }

  /** A reply counts if and only if it is for this bridge, this request's port and the report asked for. */
  lemma ReplyCounts(w: Wire, o: Options, sport: nat, h: Header, p: SampleParts)
    requires InRange(w.version, h) && h.sport == w.hkPort && h.source == o.node && h.flags <= 1 && FieldsFit(p)
    ensures Matched(Replies(w, o, sport, [ReplyFrame(w, h, PackSample(p))])) ==
      if h.destination == o.source && h.dport == sport && (o.classMask != NoMask || p.report == o.report) then {PackSample(p)} else {}
  {
    var s := PackSample(p);
    PackedIsValid(p);
    PackedAt(p);
    ReplyDecodes(w, h, s);
    hide *;
    var frame := ReplyFrame(w, h, s);
    forall t ensures t in Matched(Replies(w, o, sport, [frame])) <==>
      t == s && h.destination == o.source && h.dport == sport && (o.classMask != NoMask || p.report == o.report)
    {
      MatchedExact(w, o, sport, [frame], t);
      AnswersOne(w, o, sport, frame, h, s, t);
      assert forall f :: f in [frame] <==> f == frame;
    }
  }

  lemma AnswersOne(w: Wire, o: Options, sport: nat, frame: seq<byte>, h: Header, s: seq<byte>, t: seq<byte>)
    requires Parse(w.version, frame) == h && Decode(w, o.node, frame) == Sample(s) && |s| > 1
    ensures Answers(w, o, sport, frame, t) <==>
      t == s && h.destination == o.source && h.dport == sport && (o.classMask != NoMask || s[1] == o.report)
  {
    hide Decode, Parse, Carries;
    DecodeExact(w, o.node, frame, t);
    DecodeExact(w, o.node, frame, s);
  }

  /** Everything the bytes of some chunks yield, from a reader in a given state. */
  function RepliesOf(w: Wire, o: Options, sport: nat, s: Kiss.State, chunks: seq<seq<byte>>): seq<Reply> {
    Replies(w, o, sport, Kiss.RunChunks(s, chunks, Kiss.Cap(w.version)).frames)
  }

  lemma {:induction false} RepliesConcat(w: Wire, o: Options, sport: nat, a: seq<Kiss.Frame>, b: seq<Kiss.Frame>)
    ensures Replies(w, o, sport, a + b) == Replies(w, o, sport, a) + Replies(w, o, sport, b)
  {
    hide ReplyOf;
    if b == [] {
      assert a + b == a;
    } else {
      assert (a + b)[..|a + b| - 1] == a + b[..|b| - 1];
      RepliesConcat(w, o, sport, a, b[..|b| - 1]);
    }
  }

  lemma RepliesOfSnoc(w: Wire, o: Options, sport: nat, s: Kiss.State, chunks: seq<seq<byte>>, n: nat)
    requires n < |chunks|
    ensures RepliesOf(w, o, sport, s, chunks[..n + 1])
         == RepliesOf(w, o, sport, s, chunks[..n])
            + Replies(w, o, sport, Kiss.Run(Kiss.RunChunks(s, chunks[..n], Kiss.Cap(w.version)).state, chunks[n], Kiss.Cap(w.version)).frames)
    ensures Kiss.RunChunks(s, chunks[..n + 1], Kiss.Cap(w.version)).state
         == Kiss.Run(Kiss.RunChunks(s, chunks[..n], Kiss.Cap(w.version)).state, chunks[n], Kiss.Cap(w.version)).state
  {
    hide Kiss.Run, Replies;
    assert chunks[..n + 1][..n] == chunks[..n];
    RepliesConcat(w, o, sport, Kiss.RunChunks(s, chunks[..n], Kiss.Cap(w.version)).frames,
                  Kiss.Run(Kiss.RunChunks(s, chunks[..n], Kiss.Cap(w.version)).state, chunks[n], Kiss.Cap(w.version)).frames);
  }

  lemma MatchedGrows(a: seq<Reply>, b: seq<Reply>)
    ensures Matched(a + b) == Matched(a) + Matched(b)
    ensures |Matched(a)| <= |Matched(a + b)|
  {
    forall x | x in Matched(a) + Matched(b) ensures x in Matched(a + b) {
      if x in Matched(a) {
        var r :| r in a && r.matching && r.sample == x;
        assert r in a + b;
      } else {
        var r :| r in b && r.matching && r.sample == x;
        assert r in a + b;
      }
    }
    assert Matched(a + b) == Matched(a) + Matched(b);
    SubsetSize(Matched(a), Matched(a + b));
  }

  lemma {:induction false} SubsetSize<T>(a: set<T>, b: set<T>)
    requires a <= b
    ensures |a| <= |b|
    decreases |a|
  {
    if a != {} {
      var x :| x in a;
      SubsetSize(a - {x}, b - {x});
    }
  }

  /** Enough distinct matching samples among the first n chunks. */
  predicate Enough(w: Wire, o: Options, sport: nat, s: Kiss.State, chunks: seq<seq<byte>>, count: nat, n: nat)
    requires n <= |chunks|
  {
    |Matched(RepliesOf(w, o, sport, s, chunks[..n]))| >= count
  }

  lemma {:induction false} EnoughGrows(w: Wire, o: Options, sport: nat, s: Kiss.State, chunks: seq<seq<byte>>, count: nat,
                                       m: nat, n: nat)
    requires m <= n <= |chunks| && Enough(w, o, sport, s, chunks, count, m)
    ensures Enough(w, o, sport, s, chunks, count, n)
    decreases n
  {
    hide RepliesOf, Matched;
    if m < n {
      EnoughGrows(w, o, sport, s, chunks, count, m, n - 1);
      RepliesOfSnoc(w, o, sport, s, chunks, n - 1);
      MatchedGrows(RepliesOf(w, o, sport, s, chunks[..n - 1]),
                   Replies(w, o, sport, Kiss.Run(Kiss.RunChunks(s, chunks[..n - 1], Kiss.Cap(w.version)).state,
                                                 chunks[n - 1], Kiss.Cap(w.version)).frames));
    }
  }

  lemma NothingYet(w: Wire, o: Options, sport: nat, s: Kiss.State)
    ensures RepliesOf(w, o, sport, s, []) == [] && Matched([]) == {}
  {
  }

  /** The replies in the frames of one read, and the samples they add to `matched`. */
  method Sift(w: Wire, o: Options, sport: nat, ask: bool, frames: seq<Kiss.Frame>)
    returns (replies: seq<Reply>, samples: set<seq<byte>>)
    ensures replies == Replies(w, o, sport, frames)
    ensures samples == if ask then Matched(replies) else {}
  {
    hide ReplyOf;
    replies, samples := [], {};
    for i := 0 to |frames|
      invariant replies == Replies(w, o, sport, frames[..i])
      invariant samples == if ask then Matched(replies) else {}
    {
      var one := ReplyOf(w, o, sport, frames[i]);
      assert frames[..i + 1][..i] == frames[..i];
      MatchedGrows(replies, one);
      if one != [] {
        assert Matched(one) == if one[0].matching then {one[0].sample} else {};
        if ask && one[0].matching {
          samples := samples + {one[0].sample};
        }
      }
      replies := replies + one;
    }
    assert frames[..|frames|] == frames;
  }

  /**
    The loop. `chunks` are the reads the link delivers before the deadline. Samples come out
    in stream order from the chunks that were made; the poll ends early only when enough
    distinct replies came, and it ends normally exactly when all the chunks hold enough.
   */
  method Poll(reader: Kiss.KissReader, w: Wire, o: Options, sport: nat, count: byte, ask: bool, chunks: seq<seq<byte>>)
    returns (written: seq<byte>, yielded: seq<Reply>, ending: Ending, made: nat)
    requires reader.version == w.version
    requires ask ==> InRange(w.version, RequestHeader(w, o, sport))
    modifies reader
    ensures written == if ask then BuildRequest(w, o, sport, count) else []
    ensures made <= |chunks|
    ensures yielded == RepliesOf(w, o, sport, old(reader.Current()), chunks[..made])
    ensures reader.Current() == Kiss.RunChunks(old(reader.Current()), chunks[..made], Kiss.Cap(w.version)).state
    ensures made < |chunks| ==> ask && Enough(w, o, sport, old(reader.Current()), chunks, count, made)
    ensures forall n :: 0 <= n < made && ask ==> !Enough(w, o, sport, old(reader.Current()), chunks, count, n)
    ensures ending.Finished? <==> !ask || Enough(w, o, sport, old(reader.Current()), chunks, count, |chunks|)
    ensures ending.TimedOut? ==> ending.received == |Matched(yielded)|
  {
    hide Replies, Matched, Kiss.Run, WireFrame, Kiss.Encode;
    ghost var start := reader.Current();
    written := [];
    if ask {
      written := BuildRequest(w, o, sport, count);
    }
    var matched: set<seq<byte>> := {};
    yielded, made := [], 0;
    assert chunks[..0] == [];
    NothingYet(w, o, sport, start);
    while made < |chunks|
      invariant made <= |chunks|
      invariant reader.Current() == Kiss.RunChunks(start, chunks[..made], Kiss.Cap(w.version)).state
      invariant yielded == RepliesOf(w, o, sport, start, chunks[..made])
      invariant ask ==> matched == Matched(yielded)
      invariant forall n :: 0 <= n < made && ask ==> !Enough(w, o, sport, start, chunks, count, n)
    {
      if ask && |matched| >= count {
        break;
      }
      var frames := reader.Feed(chunks[made]);
      var replies, samples := Sift(w, o, sport, ask, frames);
      ghost var before := yielded;
      yielded, matched := yielded + replies, matched + samples;
      MatchedGrows(before, replies);
      RepliesOfSnoc(w, o, sport, start, chunks, made);
      made := made + 1;
    }
    if ask && |matched| < count {
      ending := TimedOut(|matched|);
      assert chunks[..|chunks|] == chunks[..made];
    } else {
      ending := Finished;
      if ask {
        EnoughGrows(w, o, sport, start, chunks, count, made, |chunks|);
      }
    }
  }

  /** How the chunks are cut into chunks makes no difference to what they hold. */
  lemma ReadsDoNotMatter(w: Wire, o: Options, sport: nat, s: Kiss.State, a: seq<seq<byte>>, b: seq<seq<byte>>)
    requires Kiss.Flatten(a) == Kiss.Flatten(b)
    ensures RepliesOf(w, o, sport, s, a) == RepliesOf(w, o, sport, s, b)
  {
    Kiss.ChunksDoNotMatter(s, a, Kiss.Cap(w.version));
    Kiss.ChunksDoNotMatter(s, b, Kiss.Cap(w.version));
  }
}
