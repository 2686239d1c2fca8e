/**
  KISS framing of `hk-bridge.py`: the escaper and the byte-at-a-time reader that
  drops a damaged frame up to the next FEND.
 */
module Kiss {
  import opened Bits
  import opened Csp

  const FEND: byte := 0xC0
  const FESC: byte := 0xDB
  const TFEND: byte := 0xDC
  const TFESC: byte := 0xDD
  const TNC_DATA: byte := 0x00
  const HK_SAMPLE_MAX := 240

  type Frame = seq<byte>

  // ---------- the encoder ----------

  function EscapeByte(b: byte): (e: seq<byte>)
    ensures |e| > 0
  {
    if b == FEND then [FESC, TFEND] else if b == FESC then [FESC, TFESC] else [b]
  }

  function Escape(frame: seq<byte>): seq<byte> {
    if frame == [] then [] else Escape(frame[..|frame| - 1]) + EscapeByte(frame[|frame| - 1])
  }

  /** An encoded frame without its closing FEND. */
  function Opening(frame: seq<byte>): seq<byte> {
    [FEND, TNC_DATA] + Escape(frame)
  }

  function Encode(frame: seq<byte>): seq<byte> {
    Opening(frame) + [FEND]
  }

  method KissEncode(frame: seq<byte>) returns (out: seq<byte>)
    ensures out == Encode(frame)
  {
    out := [FEND, TNC_DATA];
    for i := 0 to |frame|
      invariant out == Opening(frame[..i])
    {
      assert frame[..i + 1][..i] == frame[..i];
      if frame[i] == FEND {
        out := out + [FESC, TFEND];
      } else if frame[i] == FESC {
        out := out + [FESC, TFESC];
      } else {
        out := out + [frame[i]];
      }
    }
    assert frame[..|frame|] == frame;
    out := out + [FEND];
  }

  // ---------- the reader ----------

  datatype State = State(frame: seq<byte>, started: bool, escaped: bool, skipTypeByte: bool)

  datatype Outcome = Outcome(state: State, frames: seq<Frame>)

  const FRESH := State([], false, false, false)
  const OPENED := State([], true, false, true)

  /** The longest frame the reader keeps: header, sample and two checksums. */
  function Cap(v: Version): nat { HeaderBytes(v) + HK_SAMPLE_MAX + 8 }

  function Bounded(s: State, cap: nat): State {
    if |s.frame| > cap then s.(started := false, frame := []) else s
  }

  function Step(s: State, b: byte, cap: nat): Outcome {
    if b == FEND then
      Outcome(OPENED, if s.started && s.frame != [] && !s.escaped then [s.frame] else [])
    else if !s.started then
      Outcome(s, [])
    else if s.skipTypeByte then
      Outcome(s.(skipTypeByte := false, started := b == TNC_DATA), [])
    else if s.escaped then
      if b != TFEND && b != TFESC then
        Outcome(s.(started := false, frame := []), [])
      else
        Outcome(Bounded(s.(frame := s.frame + [if b == TFEND then FEND else FESC], escaped := false), cap), [])
    else if b == FESC then
      Outcome(Bounded(s.(escaped := true), cap), [])
    else
      Outcome(Bounded(s.(frame := s.frame + [b]), cap), [])
  }

  function Run(s: State, data: seq<byte>, cap: nat): Outcome {
    if data == [] then Outcome(s, []) else
    var before := Run(s, data[..|data| - 1], cap);
    var last := Step(before.state, data[|data| - 1], cap);
    Outcome(last.state, before.frames + last.frames)
  }

  /** All frames of a stream read from the start. */
  function Frames(stream: seq<byte>, cap: nat): seq<Frame> { Run(FRESH, stream, cap).frames }

  class KissReader {
    var frame: seq<byte>
    var started: bool
    var escaped: bool
    var skipTypeByte: bool
    const version: Version

    function Current(): State
      reads this
    {
      State(frame, started, escaped, skipTypeByte)
    }

    constructor (version: Version)
      ensures this.version == version && Current() == FRESH
    {
      this.version := version;
      frame, started, escaped, skipTypeByte := [], false, false, false;
    }

    method Feed(data: seq<byte>) returns (frames: seq<Frame>)
      modifies this
      ensures Current() == Run(old(Current()), data, Cap(version)).state
      ensures frames == Run(old(Current()), data, Cap(version)).frames
    {
      frames := [];
      for i := 0 to |data|
        invariant Current() == Run(old(Current()), data[..i], Cap(version)).state
        invariant frames == Run(old(Current()), data[..i], Cap(version)).frames
      {
        var b := data[i];
        assert data[..i + 1][..i] == data[..i];
        if b == FEND {
          if started && frame != [] && !escaped {
            frames := frames + [frame];
          }
          frame, started, escaped, skipTypeByte := [], true, false, true;
          continue;
        }
        if !started {
          continue;
        }
        if skipTypeByte {
          skipTypeByte := false;
          started := b == TNC_DATA;
          continue;
        }
        if escaped {
          if b != TFEND && b != TFESC {
            started := false;
            frame := [];
            continue;
          }
          frame := frame + [if b == TFEND then FEND else FESC];
          escaped := false;
        } else if b == FESC {
          escaped := true;
        } else {
          frame := frame + [b];
        }
        if |frame| > Cap(version) {
          started := false;
          frame := [];
        }
      }
      assert data[..|data|] == data;
    }
  }

  lemma {:induction false} EscapeConcat(a: seq<byte>, b: seq<byte>)
    ensures Escape(a + b) == Escape(a) + Escape(b)
  {
    hide EscapeByte;
    if b == [] {
      assert a + b == a;
    } else {
      assert (a + b)[..|a + b| - 1] == a + b[..|b| - 1];
      EscapeConcat(a, b[..|b| - 1]);
    }
  }

  /** On the wire: C0 becomes DB DC, DB becomes DB DD, any other byte stays, between C0 00 and C0. */
  lemma EncodeExact(a: seq<byte>, b: byte, c: seq<byte>)
    ensures Escape(a + [b] + c)
         == Escape(a) + (if b == 0xC0 then [0xDB, 0xDC] else if b == 0xDB then [0xDB, 0xDD] else [b]) + Escape(c)
    ensures Encode(a) == [0xC0, 0x00] + Escape(a) + [0xC0] && Escape([]) == []
  {
    EscapeConcat(a + [b], c);
    EscapeConcat(a, [b]);
    assert [b][..0] == [];
  }

  // ---------- chunk boundaries ----------

  lemma {:induction false} RunConcat(s: State, a: seq<byte>, b: seq<byte>, cap: nat)
    ensures Run(s, a + b, cap).state == Run(Run(s, a, cap).state, b, cap).state
    ensures Run(s, a + b, cap).frames == Run(s, a, cap).frames + Run(Run(s, a, cap).state, b, cap).frames
  {
    if b == [] {
      assert a + b == a;
    } else {
      assert (a + b)[..|a + b| - 1] == a + b[..|b| - 1];
      RunConcat(s, a, b[..|b| - 1], cap);
    }
  }

  function Flatten<T>(chunks: seq<seq<T>>): seq<T> {
    if chunks == [] then [] else Flatten(chunks[..|chunks| - 1]) + chunks[|chunks| - 1]
  }

  /** Feeding chunk after chunk. */
  function RunChunks(s: State, chunks: seq<seq<byte>>, cap: nat): Outcome {
    if chunks == [] then Outcome(s, []) else
    var before := RunChunks(s, chunks[..|chunks| - 1], cap);
    var last := Run(before.state, chunks[|chunks| - 1], cap);
    Outcome(last.state, before.frames + last.frames)
  }

  lemma {:induction false} ChunksDoNotMatter(s: State, chunks: seq<seq<byte>>, cap: nat)
    ensures RunChunks(s, chunks, cap) == Run(s, Flatten(chunks), cap)
  {
    if chunks != [] {
      var n := |chunks| - 1;
      ChunksDoNotMatter(s, chunks[..n], cap);
      RunConcat(s, Flatten(chunks[..n]), chunks[n], cap);
    }
  }

  // ---------- exact recognition ----------

  predicate EndsWith(s: seq<byte>, t: seq<byte>) {
    |t| <= |s| && s[|s| - |t|..] == t
  }

  /** What the reader must have seen since the last FEND to be in a started state. */
  function Trail(s: State): seq<byte> {
    if s.skipTypeByte then [FEND]
    else Opening(s.frame) + (if s.escaped then [FESC] else [])
  }

  predicate Explained(s: State, stream: seq<byte>, cap: nat) {
    s.started ==>
      && EndsWith(stream, Trail(s))
      && |s.frame| <= cap
      && (s.skipTypeByte ==> s.frame == [] && !s.escaped)
  }

  lemma EndsWithSnoc(s: seq<byte>, t: seq<byte>, b: byte)
    requires EndsWith(s, t)
    ensures EndsWith(s + [b], t + [b])
  {
    assert (s + [b])[|s| - |t|..] == s[|s| - |t|..] + [b];
  }

  lemma EscapeSnoc(f: seq<byte>, b: byte)
    ensures Escape(f + [b]) == Escape(f) + EscapeByte(b)
  {
    assert (f + [b])[..|f|] == f;
  }

  lemma StepExplained(s: State, stream: seq<byte>, b: byte, cap: nat)
    requires Explained(s, stream, cap)
    ensures Explained(Step(s, b, cap).state, stream + [b], cap)
  {
    var t := Step(s, b, cap).state;
    if b == FEND {
      assert EndsWith(stream + [b], [FEND]);
    } else if s.started && t.started {
      EndsWithSnoc(stream, Trail(s), b);
      StepTrail(s, b, cap);
    }
  }

  lemma EscapeNothing()
    ensures Escape([]) == []
  {
  }

  lemma StepTrail(s: State, b: byte, cap: nat)
    requires s.started && b != FEND && Step(s, b, cap).state.started
    requires s.skipTypeByte ==> s.frame == [] && !s.escaped
    ensures Trail(Step(s, b, cap).state) == Trail(s) + [b]
  {
    hide Escape;
    var t := Step(s, b, cap).state;
    var start := [FEND, TNC_DATA];
    if s.skipTypeByte {
      EscapeNothing();
      assert Trail(t) == start + [] + [];
    } else if s.escaped {
      EscapeSnoc(s.frame, if b == TFEND then FEND else FESC);
      assert Trail(t) == start + Escape(t.frame) + [];
    } else if b == FESC {
      assert Trail(t) == start + Escape(s.frame) + [b];
    } else {
      EscapeSnoc(s.frame, b);
      assert Trail(t) == start + Escape(t.frame) + [];
    }
  }

  lemma {:induction false} RunExplained(stream: seq<byte>, cap: nat)
    ensures Explained(Run(FRESH, stream, cap).state, stream, cap)
  {
    if stream != [] {
      var head := stream[..|stream| - 1];
      RunExplained(head, cap);
      StepExplained(Run(FRESH, head, cap).state, head, stream[|stream| - 1], cap);
      assert stream == head + [stream[|stream| - 1]];
    }
  }

  /** Inside a data frame, with the bytes of `frame` collected. */
  function Reading(frame: seq<byte>): State { State(frame, true, false, false) }

  /** Reading an escaped frame rebuilds it, whatever its bytes. */
  lemma {:induction false} RunEscape(frame: seq<byte>, cap: nat)
    requires |frame| <= cap
    ensures Run(Reading([]), Escape(frame), cap) == Outcome(Reading(frame), [])
  {
    if frame != [] {
      var head, b := frame[..|frame| - 1], frame[|frame| - 1];
      assert frame == head + [b];
      RunEscape(head, cap);
      RunEscapeSnoc(head, b, cap);
    }
  }

  lemma RunEscapeSnoc(head: seq<byte>, b: byte, cap: nat)
    requires |head| < cap
    requires Run(Reading([]), Escape(head), cap) == Outcome(Reading(head), [])
    ensures Run(Reading([]), Escape(head + [b]), cap) == Outcome(Reading(head + [b]), [])
  {
    EscapeSnoc(head, b);
    RunEscapeByte(head, b, cap);
    RunConcat(Reading([]), Escape(head), EscapeByte(b), cap);
  }

  lemma RunEscapeByte(head: seq<byte>, b: byte, cap: nat)
    requires |head| < cap
    ensures Run(Reading(head), EscapeByte(b), cap) == Outcome(Reading(head + [b]), [])
  {
    var s := Reading(head);
    RunOne(s, EscapeByte(b)[0], cap);
    if b == FEND || b == FESC {
      var x, y := EscapeByte(b)[0], EscapeByte(b)[1];
      assert EscapeByte(b) == [x] + [y];
      RunConcat(s, [x], [y], cap);
      RunOne(Step(s, x, cap).state, y, cap);
    }
  }

  lemma RunOne(s: State, b: byte, cap: nat)
    ensures Run(s, [b], cap) == Step(s, b, cap)
  {
    assert [b][..0] == [];
    assert Run(s, [], cap) == Outcome(s, []);
  }

  /** After any stream, an encoded frame within the cap is read back by its last byte. */
  lemma RunEncoded(s: State, frame: seq<byte>, cap: nat)
    requires |frame| <= cap
    ensures Run(s, Opening(frame), cap)
         == Outcome(Reading(frame), Step(s, FEND, cap).frames)
  {
    var t := Step(s, FEND, cap).state;
    assert [FEND, TNC_DATA] == [FEND] + [TNC_DATA];
    RunConcat(s, [FEND], [TNC_DATA], cap);
    RunOne(s, FEND, cap);
    RunOne(t, TNC_DATA, cap);
    RunConcat(s, [FEND, TNC_DATA], Escape(frame), cap);
    RunEscape(frame, cap);
  }

  /** What the reader emits at byte `b` after the bytes of `before`. */
  function Emitted(before: seq<byte>, b: byte, cap: nat): seq<Frame> {
    Step(Run(FRESH, before, cap).state, b, cap).frames
  }

  lemma EmittedIsEncoded(before: seq<byte>, b: byte, frame: seq<byte>, cap: nat)
    requires Emitted(before, b, cap) == [frame]
    ensures 1 <= |frame| <= cap && EndsWith(before + [b], Encode(frame))
  {
    var s := Run(FRESH, before, cap).state;
    RunExplained(before, cap);
    SameElement(s.frame, frame);
    EndsWithSnoc(before, Trail(s), b);
    assert Trail(s) == Opening(frame);
  }

  lemma EndsWithSplit(before: seq<byte>, b: byte, t: seq<byte>, c: byte)
    requires EndsWith(before + [b], t + [c])
    ensures b == c && EndsWith(before, t) && before == before[..|before| - |t|] + t
  {
    var s := before + [b];
    assert s[|s| - |t| - 1..] == before[|before| - |t|..] + [b];
    assert (t + [c])[..|t|] == t && (t + [c])[|t|] == c;
    assert (before[|before| - |t|..] + [b])[..|t|] == before[|before| - |t|..];
  }

  lemma EncodedIsEmitted(before: seq<byte>, b: byte, frame: seq<byte>, cap: nat)
    requires 1 <= |frame| <= cap && EndsWith(before + [b], Encode(frame))
    ensures Emitted(before, b, cap) == [frame]
  {
    EndsWithSplit(before, b, Opening(frame), FEND);
    var prefix := before[..|before| - |Opening(frame)|];
    RunConcat(FRESH, prefix, Opening(frame), cap);
    RunEncoded(Run(FRESH, prefix, cap).state, frame, cap);
  }

  /**
    Exact recognition: a byte makes the reader emit `frame` if and only if the stream up
    to that byte ends in the encoding of `frame` and its length is within 1..cap.
   */
  lemma Recognition(before: seq<byte>, b: byte, frame: seq<byte>, cap: nat)
    ensures Emitted(before, b, cap) == [frame] <==> 1 <= |frame| <= cap && EndsWith(before + [b], Encode(frame))
  {
    if Emitted(before, b, cap) == [frame] {
      EmittedIsEncoded(before, b, frame, cap);
    }
    if 1 <= |frame| <= cap && EndsWith(before + [b], Encode(frame)) {
      EncodedIsEmitted(before, b, frame, cap);
    }
  }

  lemma SameElement(f: seq<byte>, g: seq<byte>)
    ensures [f] == [g] ==> f == g
  {
    if [f] == [g] {
      assert [f][0] == [g][0];
    }
  }

  /** The encoding determines the frame. */
  lemma EncodingUnique(before: seq<byte>, b: byte, f: seq<byte>, g: seq<byte>)
    requires f != [] && g != []
    requires EndsWith(before + [b], Encode(f)) && EndsWith(before + [b], Encode(g))
    ensures f == g
  {
    hide Emitted, EndsWith, Encode;
    EncodedIsEmitted(before, b, f, |f| + |g|);
    EncodedIsEmitted(before, b, g, |f| + |g|);
    SameElement(f, g);
  }

  // ---------- resynchronisation ----------

  function EncodeAll(frames: seq<Frame>): seq<byte> {
    if frames == [] then [] else EncodeAll(frames[..|frames| - 1]) + Encode(frames[|frames| - 1])
  }

  function Deliverable(frames: seq<Frame>, cap: nat): seq<Frame> {
    if frames == [] then [] else
    var last := frames[|frames| - 1];
    Deliverable(frames[..|frames| - 1], cap) + (if 1 <= |last| <= cap then [last] else [])
  }

  lemma {:induction false} EscapeHasNoFend(frame: seq<byte>)
    ensures FEND !in Escape(frame)
  {
    if frame != [] {
      EscapeHasNoFend(frame[..|frame| - 1]);
    }
  }

  /** Only a FEND makes the reader emit. */
  lemma {:induction false} SilentWithoutFend(s: State, data: seq<byte>, cap: nat)
    requires FEND !in data
    ensures Run(s, data, cap).frames == []
  {
    if data != [] {
      SilentWithoutFend(s, data[..|data| - 1], cap);
    }
  }

  /** An encoding is read as its own frame or, when its length does not allow, as nothing. */
  lemma EmittedAfter(prefix: seq<byte>, frame: seq<byte>, cap: nat)
    ensures Emitted(prefix + Opening(frame), FEND, cap) == (if 1 <= |frame| <= cap then [frame] else [])
  {
    var before := prefix + Opening(frame);
    assert EndsWith(before + [FEND], Encode(frame));
    if 1 <= |frame| <= cap {
      EncodedIsEmitted(before, FEND, frame, cap);
    } else if Emitted(before, FEND, cap) != [] {
      var g := Run(FRESH, before, cap).state.frame;
      EmittedIsEncoded(before, FEND, g, cap);
      EmptyFrameUnique(before + [FEND], frame, g);
      EncodingUnique(before, FEND, frame, g);
    }
  }

  lemma EmptyFrameUnique(stream: seq<byte>, f: seq<byte>, g: seq<byte>)
    requires g != []
    requires EndsWith(stream, Encode(f)) && EndsWith(stream, Encode(g))
    ensures f != []
  {
    EscapeHasNoFend(g);
    assert |Escape(g)| > 0;
    assert Encode(g)[|Encode(g)| - 3] != FEND;
    if f == [] {
      assert false;
    }
  }

  lemma RunSnoc(s: State, data: seq<byte>, b: byte, cap: nat)
    ensures Run(s, data + [b], cap).state == Step(Run(s, data, cap).state, b, cap).state
    ensures Run(s, data + [b], cap).frames == Run(s, data, cap).frames + Step(Run(s, data, cap).state, b, cap).frames
  {
    assert (data + [b])[..|data|] == data;
  }

  lemma ReadOpening(stream: seq<byte>, frame: seq<byte>, cap: nat)
    ensures Frames(stream + Opening(frame), cap) == Frames(stream + [FEND], cap)
  {
    var inner := [TNC_DATA] + Escape(frame);
    EscapeHasNoFend(frame);
    assert stream + Opening(frame) == stream + [FEND] + inner;
    RunConcat(FRESH, stream + [FEND], inner, cap);
    SilentWithoutFend(Run(FRESH, stream + [FEND], cap).state, inner, cap);
  }

  /** One encoded frame after any stream: the leftover, then the frame if its length allows. */
  lemma ReadEncoded(stream: seq<byte>, frame: seq<byte>, cap: nat)
    ensures Frames(stream + Encode(frame), cap)
         == Frames(stream + [FEND], cap) + (if 1 <= |frame| <= cap then [frame] else [])
    ensures Run(FRESH, stream + Encode(frame), cap).state == OPENED
  {
    var before := stream + Opening(frame);
    assert stream + Encode(frame) == before + [FEND];
    ReadOpening(stream, frame, cap);
    EmittedAfter(stream, frame, cap);
    RunSnoc(FRESH, before, FEND, cap);
  }

  /** After a FEND, another one yields nothing. */
  lemma SecondFend(stream: seq<byte>, cap: nat)
    requires Run(FRESH, stream, cap).state == OPENED
    ensures Frames(stream + [FEND], cap) == Frames(stream, cap)
  {
    RunSnoc(FRESH, stream, FEND, cap);
  }

  /**
    Whatever came before, a run of encoded frames is read back complete and in order; only
    frames that are empty or longer than the cap are lost, and before them comes what the
    earlier bytes yield when a FEND ends them.
   */
  lemma {:induction false} Resynchronise(garbage: seq<byte>, frames: seq<Frame>, cap: nat)
    requires frames != []
    ensures Frames(garbage + EncodeAll(frames), cap) == Frames(garbage + [FEND], cap) + Deliverable(frames, cap)
    ensures Run(FRESH, garbage + EncodeAll(frames), cap).state == OPENED
  {
    hide Run, Encode;
    var n := |frames| - 1;
    var before := garbage + EncodeAll(frames[..n]);
    assert garbage + EncodeAll(frames) == before + Encode(frames[n]);
    if n == 0 {
      assert before == garbage;
    } else {
      Resynchronise(garbage, frames[..n], cap);
      SecondFend(before, cap);
    }
    ReadEncoded(before, frames[n], cap);
  }

  /** A FEND adds at most one leftover frame. */
  lemma AtMostOneLeftover(garbage: seq<byte>, cap: nat)
    ensures Frames(garbage + [FEND], cap) == Frames(garbage, cap)
         || exists leftover :: Frames(garbage + [FEND], cap) == Frames(garbage, cap) + [leftover]
  {
    RunConcat(FRESH, garbage, [FEND], cap);
    RunOne(Run(FRESH, garbage, cap).state, FEND, cap);
  }
}
