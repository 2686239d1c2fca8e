/** The byte dropper of `lossy-link.py`: periodic bursts of loss, and one stretch of deafness. */
module LossyLink {
  import opened Basics
  import opened Bits
  import opened Csp
  import Kiss

  // ---------- the closed form ----------

  /** One period: `every` bytes go through, then `burst` are lost. */
  datatype Settings = Settings(version: Version, every: nat, dropBytes: int, cutAfter: nat, cutFor: real) {
    predicate Valid() { every >= 1 }

    /** A negative run length never starts a run. */
    function Burst(): nat { if dropBytes > 0 then dropBytes else 0 }

    function Period(): (p: nat)
      requires Valid()
      ensures p > 0
    {
      every + Burst()
    }
  }

  /** The n-th byte heard, counted from zero over both directions, is lost. */
  predicate Lost(s: Settings, n: nat)
    requires s.Valid()
  {
    n % s.Period() >= s.every
  }

  function Min(a: nat, b: nat): nat { if a <= b then a else b }

  function Max(a: nat, b: nat): nat { if a >= b then a else b }

  /** How many of the first n bytes heard go through. */
  function Through(s: Settings, n: nat): nat
    requires s.Valid()
  {
    n / s.Period() * s.every + Min(n % s.Period(), s.every)
  }

  /** The bytes of a chunk that go through when n bytes were heard before it. */
  function Kept(s: Settings, chunk: seq<byte>, n: nat): seq<byte>
    requires s.Valid()
  {
    if chunk == [] then [] else
    Kept(s, chunk[..|chunk| - 1], n) + (if Lost(s, n + |chunk| - 1) then [] else [chunk[|chunk| - 1]])
  }

  // ---------- counting by division ----------

  lemma Successor(n: nat, p: nat)
    requires p > 0
    ensures n % p + 1 < p ==> (n + 1) / p == n / p && (n + 1) % p == n % p + 1
    ensures n % p + 1 == p ==> (n + 1) / p == n / p + 1 && (n + 1) % p == 0
  {
    var q, r := n / p, n % p;
    assert n == q * p + r;
    if r + 1 < p {
      Quotient(n + 1, q, p, r + 1);
    } else {
      assert (q + 1) * p == q * p + p;
      Quotient(n + 1, q + 1, p, 0);
    }
  }

  /** One more byte: it goes through or it is lost, and the count follows. */
  lemma OneMore(s: Settings, n: nat)
    requires s.Valid()
    ensures Through(s, n + 1) == Through(s, n) + (if Lost(s, n) then 0 else 1)
  {
    Successor(n, s.Period());
    var q := n / s.Period();
    assert (q + 1) * s.every == q * s.every + s.every;
  }

  /** What is left of the current run of losses after n bytes. */
  function Remaining(s: Settings, n: nat): nat
    requires s.Valid()
  {
    if Lost(s, n) then s.Period() - n % s.Period() else 0
  }

  lemma RemainingExact(s: Settings, n: nat)
    requires s.Valid()
    ensures Remaining(s, n) > 0 <==> Lost(s, n)
  {
  }

  lemma MultipleAtEnd(e: nat, q: nat, r: nat)
    requires r < e
    ensures (q * e + (r + 1)) % e == 0 <==> r + 1 == e
  {
    if r + 1 < e {
      Quotient(q * e + (r + 1), q, e, r + 1);
    } else {
      assert q * e + (r + 1) == (q + 1) * e;
      Quotient((q + 1) * e, q + 1, e, 0);
    }
  }

  /** The test `forwarded % drop_every == 0` finds exactly the end of the part that goes through. */
  lemma EndOfRun(s: Settings, n: nat)
    requires s.Valid() && !Lost(s, n)
    ensures Through(s, n + 1) % s.every == 0 <==> n % s.Period() + 1 == s.every
    ensures Remaining(s, n + 1) == if Through(s, n + 1) % s.every == 0 then s.Burst() else 0
  {
    OneMore(s, n);
    MultipleAtEnd(s.every, n / s.Period(), n % s.Period());
    assert Through(s, n + 1) == n / s.Period() * s.every + (n % s.Period() + 1);
    AfterThrough(s, n);
  }

  lemma AfterThrough(s: Settings, n: nat)
    requires s.Valid() && !Lost(s, n)
    ensures Remaining(s, n + 1) == if n % s.Period() + 1 == s.every then s.Burst() else 0
  {
    Successor(n, s.Period());
  }

  lemma InRun(s: Settings, n: nat)
    requires s.Valid() && Lost(s, n)
    ensures Remaining(s, n) > 0 && Remaining(s, n + 1) == Remaining(s, n) - 1
  {
    Successor(n, s.Period());
  }

  // ---------- the link ----------

  /** A download chunk on its way to whoever asked for it. */
  predicate Counts(s: Settings, frame: seq<byte>) {
    && |frame| >= HeaderBytes(s.version) + 12
    && Parse(s.version, frame).sport == 9
    && frame[HeaderBytes(s.version)..HeaderBytes(s.version) + 2] == [0x01, 0x0E]
  }

  /** At least twelve payload bytes from port 9 that begin with 1 and 14. */
  lemma CountsExact(s: Settings, h: Header, payload: seq<byte>)
    requires InRange(s.version, h)
    ensures Csp.Encode(s.version, h).Encoded?
    ensures Counts(s, Csp.Encode(s.version, h).bytes + payload)
       <==> h.sport == 9 && |payload| >= 12 && payload[0] == 1 && payload[1] == 14
  {
    hide Parse, Csp.Encode;
    EncodeInRange(s.version, h);
    ParseEncoded(s.version, h, payload);
    var head := Csp.Encode(s.version, h).bytes;
    if |payload| >= 12 {
      assert (head + payload)[|head|..|head| + 2] == [payload[0], payload[1]];
    }
  }

  function CountIn(s: Settings, frames: seq<Kiss.Frame>): nat {
    if frames == [] then 0 else
    CountIn(s, frames[..|frames| - 1]) + (if Counts(s, frames[|frames| - 1]) then 1 else 0)
  }

  /** One chunk that was read, and its side. */
  datatype Read = Read(fromLeft: bool, chunk: seq<byte>)

  function AllBytes(chunks: seq<Read>): seq<byte> {
    if chunks == [] then [] else AllBytes(chunks[..|chunks| - 1]) + chunks[|chunks| - 1].chunk
  }

  lemma KeptNothing(s: Settings, n: nat)
    requires s.Valid()
    ensures Kept(s, [], n) == []
  {
  }

  class Link {
    const settings: Settings
    var forwarded: nat
    var dropped: nat
    var skipRemaining: int
    var chunksSeen: nat
    var deafUntil: real
    var cutSpent: bool
    const left: Kiss.KissReader
    const right: Kiss.KissReader

    /** Bytes that arrived while the link was not deaf, bytes that arrived at all, and cuts. */
    ghost var heard: nat
    ghost var arrived: nat
    ghost var cuts: nat

    ghost predicate Valid()
      reads this
    {
      && settings.Valid()
      && left.version == right.version == settings.version
      && forwarded == Through(settings, heard)
      && (if Lost(settings, heard) then skipRemaining == Remaining(settings, heard) else skipRemaining <= 0)
      && forwarded + dropped == arrived
      && cuts == (if cutSpent then 1 else 0)
      && (deafUntil != 0.0 ==> cutSpent)
      && (settings.cutAfter > 0 ==> (cutSpent <==> chunksSeen >= settings.cutAfter))
    }

    constructor (settings: Settings)
      requires settings.Valid()
      ensures Valid() && this.settings == settings && heard == arrived == cuts == forwarded == dropped == 0
      ensures deafUntil == 0.0 && left != right && fresh(left) && fresh(right)
      ensures left.Current() == right.Current() == Kiss.FRESH
    {
      this.settings := settings;
      forwarded, dropped, skipRemaining, chunksSeen, deafUntil, cutSpent := 0, 0, 0, 0, 0.0, false;
      left := new Kiss.KissReader(settings.version);
      right := new Kiss.KissReader(settings.version);
      heard, arrived, cuts := 0, 0, 0;
      new;
      Start(settings);
    }

    /** The check at the top of the loop, on the clock. */
    method Tick(now: real)
      requires Valid()
      modifies this
      ensures Valid() && forwarded == old(forwarded) && dropped == old(dropped) && heard == old(heard)
      ensures arrived == old(arrived) && cuts == old(cuts)
      ensures deafUntil == if now >= old(deafUntil) then 0.0 else old(deafUntil)
    {
      if deafUntil != 0.0 && now >= deafUntil {
        deafUntil := 0.0;
      }
      assert deafUntil == 0.0 || now < deafUntil;
    }

    /** The byte loop over a chunk that arrives while the link is not deaf. */
    method Forward(chunk: seq<byte>) returns (output: seq<byte>)
      requires Valid()
      modifies this
      ensures Valid() && output == Kept(settings, chunk, old(heard))
      ensures heard == old(heard) + |chunk| && arrived == old(arrived) + |chunk|
      ensures cuts == old(cuts) && deafUntil == old(deafUntil) && cutSpent == old(cutSpent)
    {
      hide Through, Lost, Remaining;
      output := [];
      for i := 0 to |chunk|
        invariant Valid() && output == Kept(settings, chunk[..i], old(heard))
        invariant heard == old(heard) + i && arrived == old(arrived) + i
        invariant cuts == old(cuts) && deafUntil == old(deafUntil) && cutSpent == old(cutSpent)
      {
        assert chunk[..i + 1][..i] == chunk[..i];
        OneMore(settings, heard);
        RemainingExact(settings, heard);
        RemainingExact(settings, heard + 1);
        if skipRemaining > 0 {
          InRun(settings, heard);
          skipRemaining := skipRemaining - 1;
          dropped := dropped + 1;
        } else {
          EndOfRun(settings, heard);
          output := output + [chunk[i]];
          forwarded := forwarded + 1;
          if forwarded % settings.every == 0 {
            skipRemaining := settings.dropBytes;
          }
        }
        heard, arrived := heard + 1, arrived + 1;
      }
      assert chunk[..|chunk|] == chunk;
    }

    /**
      The frames of one chunk end the pass with the download chunk that makes up the number,
      and only once: from then on nothing is counted.
     */
    method Watch(frames: seq<Kiss.Frame>, now: real)
      requires Valid() && settings.cutAfter > 0
      modifies this
      ensures Valid() && forwarded == old(forwarded) && dropped == old(dropped) && heard == old(heard)
      ensures arrived == old(arrived)
      ensures chunksSeen == Max(old(chunksSeen), Min(old(chunksSeen) + CountIn(settings, frames), settings.cutAfter))
      ensures deafUntil == if cutSpent && !old(cutSpent) then now + settings.cutFor else old(deafUntil)
    {
      hide Through, Lost, Remaining, Counts;
      for i := 0 to |frames|
        invariant Valid() && forwarded == old(forwarded) && dropped == old(dropped) && heard == old(heard)
        invariant arrived == old(arrived)
        invariant chunksSeen == Max(old(chunksSeen), Min(old(chunksSeen) + CountIn(settings, frames[..i]), settings.cutAfter))
        invariant deafUntil == if cutSpent && !old(cutSpent) then now + settings.cutFor else old(deafUntil)
      {
        assert frames[..i + 1][..i] == frames[..i];
        if !cutSpent && Counts(settings, frames[i]) {
          chunksSeen := chunksSeen + 1;
          if chunksSeen >= settings.cutAfter {
            cutSpent, deafUntil := true, now + settings.cutFor;
            cuts := cuts + 1;
          }
        }
      }
      assert frames[..|frames|] == frames;
    }

    /**
      One chunk: watched, then lost whole while deaf, else passed on byte by byte. The pass
      ends with the chunk in which the download chunks of its side make up the number.
     */
    method Handle(fromLeft: bool, chunk: seq<byte>, now: real) returns (output: seq<byte>)
      requires Valid() && left != right
      modifies this, left, right
      ensures Valid() && arrived == old(arrived) + |chunk|
      ensures deafUntil != 0.0 ==> output == [] && heard == old(heard) && dropped == old(dropped) + |chunk|
      ensures deafUntil == 0.0 ==> output == Kept(settings, chunk, old(heard)) && heard == old(heard) + |chunk|
      ensures deafUntil == if cutSpent && !old(cutSpent) then now + settings.cutFor else old(deafUntil)
      ensures settings.cutAfter == 0 ==> cutSpent == old(cutSpent)
      ensures settings.cutAfter > 0 ==>
        var frames := Kiss.Run(old(Side(fromLeft).Current()), chunk, Kiss.Cap(settings.version)).frames;
        (cutSpent <==> old(cutSpent) || old(chunksSeen) + CountIn(settings, frames) >= settings.cutAfter)
      ensures settings.cutAfter > 0 ==>
        Side(fromLeft).Current() == Kiss.Run(old(Side(fromLeft).Current()), chunk, Kiss.Cap(settings.version)).state
      ensures Side(!fromLeft).Current() == old(Side(!fromLeft).Current())
    {
      hide Through, Lost, Remaining, Kept, CountIn, Kiss.Run;
      if settings.cutAfter > 0 {
        var frames := Side(fromLeft).Feed(chunk);
        Watch(frames, now);
      }
      if deafUntil != 0.0 {
        dropped := dropped + |chunk|;
        arrived := arrived + |chunk|;
        return [];
      }
      output := Forward(chunk);
    }

    /**
      One turn of the endless loop: the clock, then every chunk that is ready. Unless the
      pass ends in this turn, the chunks are lost together or thinned like one stream.
     */
    method Turn(chunks: seq<Read>, now: real) returns (outputs: seq<seq<byte>>)
      requires Valid() && left != right
      modifies this, left, right
      ensures Valid() && |outputs| == |chunks| && arrived == old(arrived) + |AllBytes(chunks)|
      ensures old(cutSpent) ==> cutSpent && deafUntil == if now >= old(deafUntil) then 0.0 else old(deafUntil)
      ensures cutSpent == old(cutSpent) ==>
        Kiss.Flatten(outputs)
        == if old(deafUntil) != 0.0 && now < old(deafUntil) then [] else Kept(settings, AllBytes(chunks), old(heard))
    {
      hide Through, Lost, Remaining, Kept, CountIn, Kiss.Run;
      Tick(now);
      outputs := [];
      KeptNothing(settings, heard);
      for i := 0 to |chunks|
        invariant Valid() && |outputs| == i && arrived == old(arrived) + |AllBytes(chunks[..i])|
        invariant old(cutSpent) ==> cutSpent
        invariant cutSpent == old(cutSpent) ==> deafUntil == if now >= old(deafUntil) then 0.0 else old(deafUntil)
        invariant cutSpent == old(cutSpent) && deafUntil == 0.0 ==>
          heard == old(heard) + |AllBytes(chunks[..i])|
          && Kiss.Flatten(outputs) == Kept(settings, AllBytes(chunks[..i]), old(heard))
        invariant cutSpent == old(cutSpent) && deafUntil != 0.0 ==> Kiss.Flatten(outputs) == []
      {
        ghost var before := outputs;
        var output := Handle(chunks[i].fromLeft, chunks[i].chunk, now);
        outputs := outputs + [output];
        assert outputs[..i] == before && chunks[..i + 1][..i] == chunks[..i];
        KeptConcat(settings, AllBytes(chunks[..i]), chunks[i].chunk, old(heard));
      }
      assert chunks[..|chunks|] == chunks;
    }

    /** Each direction has a reader of its own. */
    function Side(fromLeft: bool): Kiss.KissReader { if fromLeft then left else right }
  }

  // ---------- whole runs ----------

  /** The counter runs on across chunks and across both directions. */
  lemma {:induction false} KeptConcat(s: Settings, a: seq<byte>, b: seq<byte>, n: nat)
    requires s.Valid()
    ensures Kept(s, a + b, n) == Kept(s, a, n) + Kept(s, b, n + |a|)
    decreases |b|
  {
    if b == [] {
      assert a + b == a;
    } else {
      assert (a + b)[..|a + b| - 1] == a + b[..|b| - 1];
      KeptConcat(s, a, b[..|b| - 1], n);
    }
  }

  /** Of N bytes heard, N / (E + D) * E + min(N mod (E + D), E) go through. */
  lemma {:induction false} KeptCount(s: Settings, chunk: seq<byte>, n: nat)
    requires s.Valid()
    ensures |Kept(s, chunk, n)| == Through(s, n + |chunk|) - Through(s, n)
    decreases |chunk|
  {
    hide Through, Lost;
    if chunk != [] {
      KeptCount(s, chunk[..|chunk| - 1], n);
      OneMore(s, n + |chunk| - 1);
    }
  }

  /** The places in a chunk of `length` bytes that go through. */
  function Positions(s: Settings, n: nat, length: nat): seq<nat>
    requires s.Valid()
  {
    if length == 0 then [] else
    Positions(s, n, length - 1) + (if Lost(s, n + length - 1) then [] else [length - 1])
  }

  /** They rise, and they are exactly the places that are not lost. */
  lemma {:induction false} PositionsExact(s: Settings, n: nat, length: nat)
    requires s.Valid()
    ensures forall i: nat :: i in Positions(s, n, length) <==> i < length && !Lost(s, n + i)
    ensures forall j, k :: 0 <= j < k < |Positions(s, n, length)| ==> Positions(s, n, length)[j] < Positions(s, n, length)[k]
  {
    hide Lost;
    if length > 0 {
      PositionsExact(s, n, length - 1);
      var p := Positions(s, n, length - 1);
      assert forall k :: 0 <= k < |p| ==> p[k] in p;
    }
  }

  /** The output is the chunk read at those places: a subsequence in the order of arrival. */
  lemma {:induction false} KeptIsSubsequence(s: Settings, chunk: seq<byte>, n: nat)
    requires s.Valid()
    ensures |Kept(s, chunk, n)| == |Positions(s, n, |chunk|)|
    ensures forall k :: 0 <= k < |Kept(s, chunk, n)| ==>
      Positions(s, n, |chunk|)[k] < |chunk| && Kept(s, chunk, n)[k] == chunk[Positions(s, n, |chunk|)[k]]
    decreases |chunk|
  {
    hide Lost;
    if chunk != [] {
      KeptIsSubsequence(s, chunk[..|chunk| - 1], n);
    }
  }

  lemma Start(s: Settings)
    requires s.Valid()
    ensures Through(s, 0) == 0 && !Lost(s, 0)
  {
    Quotient(0, 0, s.Period(), 0);
  }
}
