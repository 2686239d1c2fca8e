/**
  The pacing of `4800baud_link.py`. Time is real-valued seconds of a monotonic clock that
  starts at zero or later; a sleep may last longer than asked, never shorter.
 */
module PacedRelay {

  const CHUNK := 256

  /** One read: its side, its size, when it returned and the clock was read, and how much too long the sleep was. */
  datatype Arrival = Arrival(fromLeft: bool, length: nat, now: real, late: real)

  /** One write on the other side. */
  datatype Write = Write(fromLeft: bool, length: nat, at: real)

  function Max(a: real, b: real): real { if a >= b then a else b }

  datatype Budgets = Budgets(left: real, right: real) {
    function Get(fromLeft: bool): real { if fromLeft then left else right }

    function Set(fromLeft: bool, value: real): Budgets {
      if fromLeft then this.(left := value) else this.(right := value)
    }
  }

  /** budget = max(budget, now) + len / rate, if there is a rate at all */
  function Charged(b: Budgets, a: Arrival, rate: real): Budgets {
    if rate > 0.0 then b.Set(a.fromLeft, Max(b.Get(a.fromLeft), a.now) + a.length as real / rate) else b
  }

  function WriteOf(b: Budgets, a: Arrival, rate: real): Write {
    Write(a.fromLeft, a.length,
          if rate > 0.0 then a.now + Max(0.0, Charged(b, a, rate).Get(a.fromLeft) - a.now) + a.late else a.now)
  }

  datatype RelayRun = RelayRun(budgets: Budgets, writes: seq<Write>)

  function Run(arrivals: seq<Arrival>, rate: real): (r: RelayRun)
    ensures |r.writes| == |arrivals|
  {
    if arrivals == [] then RelayRun(Budgets(0.0, 0.0), []) else
    var before := Run(arrivals[..|arrivals| - 1], rate);
    var a := arrivals[|arrivals| - 1];
    RelayRun(Charged(before.budgets, a, rate), before.writes + [WriteOf(before.budgets, a, rate)])
  }

  /** The reads up to the first that returns nothing, which ends the relay. */
  function UntilEnd(arrivals: seq<Arrival>): (n: nat)
    ensures n <= |arrivals| && (n < |arrivals| ==> arrivals[n].length == 0)
    ensures forall i :: 0 <= i < n ==> arrivals[i].length > 0
  {
    if arrivals == [] || arrivals[0].length == 0 then 0 else
    var n := 1 + UntilEnd(arrivals[1..]);
    assert forall i :: 1 <= i < n ==> arrivals[i] == arrivals[1..][i - 1];
    n
  }

  /** The loop over the reads that did not block; an empty one is the end of the file. */
  method Relay(arrivals: seq<Arrival>, rate: real) returns (writes: seq<Write>)
    ensures writes == Run(arrivals[..UntilEnd(arrivals)], rate).writes
  {
    hide UntilEnd;
    writes := [];
    var budget := Budgets(0.0, 0.0);
    var i := 0;
    while i < |arrivals|
      invariant i <= UntilEnd(arrivals) && RelayRun(budget, writes) == Run(arrivals[..i], rate)
      decreases |arrivals| - i
    {
      var a := arrivals[i];
      if a.length == 0 {
        return;
      }
      assert arrivals[..i + 1][..i] == arrivals[..i];
      var at := a.now;
      if rate > 0.0 {
        budget := budget.Set(a.fromLeft, Max(budget.Get(a.fromLeft), a.now) + a.length as real / rate);
        at := a.now + Max(0.0, budget.Get(a.fromLeft) - a.now) + a.late;
      }
      writes := writes + [Write(a.fromLeft, a.length, at)];
      i := i + 1;
    }
  }

  /** Without a rate every chunk goes on at the moment it is read. */
  lemma {:induction false} UnpacedAtOnce(arrivals: seq<Arrival>, rate: real)
    requires rate <= 0.0
    ensures forall i :: 0 <= i < |arrivals| ==> Run(arrivals, rate).writes[i].at == arrivals[i].now
  {
    if arrivals != [] {
      UnpacedAtOnce(arrivals[..|arrivals| - 1], rate);
    }
  }

  /** Reads of 1 to 256 bytes, sleeps that are not early, and a clock read only after the write before. */
  predicate Causal(arrivals: seq<Arrival>, rate: real)
    requires rate > 0.0
  {
    && (forall i :: 0 <= i < |arrivals| ==> 1 <= arrivals[i].length <= CHUNK && arrivals[i].late >= 0.0 && arrivals[i].now >= 0.0)
    && (forall i :: 1 <= i < |arrivals| ==> arrivals[i].now >= Run(arrivals, rate).writes[i - 1].at)
  }

  /** Bytes of the writes from i up to j, in both directions. */
  function Bytes(writes: seq<Write>, i: nat, j: nat): nat
    requires i <= j <= |writes|
  {
    if i == j then 0 else Bytes(writes, i, j - 1) + writes[j - 1].length
  }

  /** Bytes of the writes from i up to j in one direction. */
  function BytesFrom(writes: seq<Write>, side: bool, i: nat, j: nat): nat
    requires i <= j <= |writes|
  {
    if i == j then 0 else
    BytesFrom(writes, side, i, j - 1) + (if writes[j - 1].fromLeft == side then writes[j - 1].length else 0)
  }

  lemma {:induction false} RunPrefix(arrivals: seq<Arrival>, rate: real, n: nat)
    requires n <= |arrivals|
    ensures Run(arrivals[..n], rate).writes == Run(arrivals, rate).writes[..n]
    decreases |arrivals|
  {
    if n == |arrivals| {
      assert arrivals[..n] == arrivals;
    } else {
      var front := arrivals[..|arrivals| - 1];
      RunPrefix(front, rate, n);
      assert front[..n] == arrivals[..n];
    }
  }

  lemma RunAt(arrivals: seq<Arrival>, rate: real, i: nat)
    requires i < |arrivals|
    ensures Run(arrivals, rate).writes[i] == WriteOf(Run(arrivals[..i], rate).budgets, arrivals[i], rate)
  {
    RunPrefix(arrivals, rate, i + 1);
    assert arrivals[..i + 1][..i] == arrivals[..i];
    assert Run(arrivals, rate).writes[..i + 1][i] == Run(arrivals, rate).writes[i];
  }

  /** A write happens at least length / rate after its clock was read. */
  lemma WriteWaits(arrivals: seq<Arrival>, rate: real, i: nat)
    requires rate > 0.0 && i < |arrivals| && arrivals[i].late >= 0.0
    ensures Run(arrivals, rate).writes[i].at >= arrivals[i].now + arrivals[i].length as real / rate
    ensures Run(arrivals, rate).writes[i].length == arrivals[i].length
    ensures Run(arrivals, rate).writes[i].fromLeft == arrivals[i].fromLeft
  {
    RunAt(arrivals, rate, i);
    hide Run;
  }

  /** No budget ever lies ahead of the last write. */
  lemma {:induction false} BudgetsBehind(arrivals: seq<Arrival>, rate: real, k: nat)
    requires rate > 0.0 && Causal(arrivals, rate) && k <= |arrivals|
    ensures var r := Run(arrivals[..k], rate);
      if k == 0 then r.budgets == Budgets(0.0, 0.0)
      else r.budgets.left <= r.writes[k - 1].at && r.budgets.right <= r.writes[k - 1].at && 0.0 <= r.writes[k - 1].at
    decreases k
  {
    if k > 0 {
      BudgetsBehind(arrivals, rate, k - 1);
      assert arrivals[..k][..k - 1] == arrivals[..k - 1];
      if k > 1 {
        RunPrefix(arrivals, rate, k - 1);
      }
      assert arrivals[k - 1].length as real / rate > 0.0;
    }
  }

  /**
    The exact instant of every write: its line time after its clock was read, and the lateness
    of its sleep. The budgets never add to that, because each is slept off before the next read.
   */
  lemma WriteExact(arrivals: seq<Arrival>, rate: real, i: nat)
    requires rate > 0.0 && Causal(arrivals, rate) && i < |arrivals|
    ensures var a := arrivals[i];
      Run(arrivals, rate).writes[i] == Write(a.fromLeft, a.length, a.now + a.length as real / rate + a.late)
  {
    BudgetsBehind(arrivals, rate, i);
    RunAt(arrivals, rate, i);
    if i > 0 {
      RunPrefix(arrivals, rate, i);
    }
    var a, b := arrivals[i], Run(arrivals[..i], rate).budgets;
    assert b.Get(a.fromLeft) <= a.now && a.length > 0;
    hide *;
    WriteBehind(b, a, rate);
  }

  /** With no budget ahead of the clock. */
  lemma WriteBehind(b: Budgets, a: Arrival, rate: real)
    requires rate > 0.0 && b.Get(a.fromLeft) <= a.now && a.length > 0
    ensures WriteOf(b, a, rate) == Write(a.fromLeft, a.length, a.now + a.length as real / rate + a.late)
  {
    assert a.length as real / rate > 0.0;
  }

  /** The instant of a write in bytes of line time. */
  function Due(writes: seq<Write>, rate: real, k: nat): real
    requires k < |writes|
  {
    rate * writes[k].at
  }

  lemma Scale(x: real, y: real, n: nat, rate: real)
    requires rate > 0.0 && y >= x + n as real / rate
    ensures rate * y >= rate * x + n as real
  {
    assert rate * (n as real / rate) == n as real;
    assert rate * (y - x) >= rate * (n as real / rate);
    assert rate * (y - x) == rate * y - rate * x;
  }

  /** Every write after the first is at least its own line time after the one before. */
  lemma OneApart(arrivals: seq<Arrival>, rate: real, k: nat)
    requires rate > 0.0 && Causal(arrivals, rate) && 1 <= k < |arrivals|
    ensures var w := Run(arrivals, rate).writes; Due(w, rate, k) >= Due(w, rate, k - 1) + w[k].length as real
  {
    hide Run;
    var w := Run(arrivals, rate).writes;
    assert arrivals[k].late >= 0.0 && arrivals[k].now >= w[k - 1].at;
    hide Causal;
    WriteWaits(arrivals, rate, k);
    Scale(w[k - 1].at, w[k].at, w[k].length, rate);
  }

  /** After write i, what is written up to write j fits the time since. */
  lemma {:induction false} PacedAfter(arrivals: seq<Arrival>, rate: real, i: nat, j: nat)
    requires rate > 0.0 && Causal(arrivals, rate) && i <= j < |arrivals|
    ensures var w := Run(arrivals, rate).writes;
      Bytes(w, i + 1, j + 1) as real <= Due(w, rate, j) - Due(w, rate, i)
    decreases j
  {
    hide Run, Due, Causal;
    if i < j {
      PacedAfter(arrivals, rate, i, j - 1);
      OneApart(arrivals, rate, j);
    }
  }

  lemma {:induction false} OneSideOfBoth(writes: seq<Write>, side: bool, i: nat, j: nat)
    requires i <= j <= |writes|
    ensures BytesFrom(writes, side, i, j) <= Bytes(writes, i, j)
    ensures BytesFrom(writes, true, i, j) + BytesFrom(writes, false, i, j) == Bytes(writes, i, j)
  {
    if i < j {
      OneSideOfBoth(writes, side, i, j - 1);
    }
  }

  lemma {:induction false} BytesFirst(writes: seq<Write>, i: nat, j: nat)
    requires i < j <= |writes|
    ensures Bytes(writes, i, j) == writes[i].length + Bytes(writes, i + 1, j)
  {
    if i + 1 < j {
      BytesFirst(writes, i, j - 1);
    }
  }

  /**
    Any writes i to j that fall into a window of length `width` carry at most rate * width
    bytes and one chunk more. The bound holds for both directions together, because one
    thread sleeps for both, and so for each of them.
   */
  lemma WindowBound(arrivals: seq<Arrival>, rate: real, i: nat, j: nat, width: real, side: bool)
    requires rate > 0.0 && Causal(arrivals, rate) && i <= j < |arrivals|
    requires Run(arrivals, rate).writes[j].at - Run(arrivals, rate).writes[i].at <= width
    ensures Bytes(Run(arrivals, rate).writes, i, j + 1) as real <= rate * width + 256.0
    ensures BytesFrom(Run(arrivals, rate).writes, side, i, j + 1) as real <= rate * width + 256.0
  {
    hide Run, Causal, Due, Bytes, BytesFrom;
    var w := Run(arrivals, rate).writes;
    SizeBound(arrivals, rate, i);
    PacedAfter(arrivals, rate, i, j);
    DueSpan(w, rate, i, j, width);
    WithFirst(w, i, j + 1, CHUNK, Due(w, rate, j) - Due(w, rate, i));
    OneSide(w, side, i, j + 1);
  }

  lemma SizeBound(arrivals: seq<Arrival>, rate: real, i: nat)
    requires rate > 0.0 && Causal(arrivals, rate) && i < |arrivals|
    ensures Run(arrivals, rate).writes[i].length <= CHUNK
  {
    WriteWaits(arrivals, rate, i);
  }

  lemma WithFirst(writes: seq<Write>, i: nat, j: nat, first: nat, span: real)
    requires i < j <= |writes| && writes[i].length <= first && Bytes(writes, i + 1, j) as real <= span
    ensures Bytes(writes, i, j) as real <= span + first as real
  {
    hide Bytes;
    BytesFirst(writes, i, j);
  }

  lemma OneSide(writes: seq<Write>, side: bool, i: nat, j: nat)
    requires i <= j <= |writes|
    ensures BytesFrom(writes, side, i, j) as real <= Bytes(writes, i, j) as real
  {
    hide Bytes, BytesFrom;
    OneSideOfBoth(writes, side, i, j);
  }

  lemma DueSpan(writes: seq<Write>, rate: real, i: nat, j: nat, width: real)
    requires rate > 0.0 && i <= j < |writes| && writes[j].at - writes[i].at <= width
    ensures Due(writes, rate, j) - Due(writes, rate, i) <= rate * width
  {
    Distribute(writes[i].at, writes[j].at, rate);
    assert rate * (writes[j].at - writes[i].at) <= rate * width;
  }

  lemma Distribute(x: real, y: real, rate: real)
    ensures rate * (y - x) == rate * y - rate * x
  {
  }

  /** From the start of the clock the relay never runs ahead of the rate. */
  lemma StartBound(arrivals: seq<Arrival>, rate: real, j: nat, start: real, side: bool)
    requires rate > 0.0 && Causal(arrivals, rate) && j < |arrivals| && arrivals[0].now >= start
    ensures Bytes(Run(arrivals, rate).writes, 0, j + 1) as real <= rate * (Run(arrivals, rate).writes[j].at - start)
    ensures BytesFrom(Run(arrivals, rate).writes, side, 0, j + 1) as real <= rate * (Run(arrivals, rate).writes[j].at - start)
  {
    hide Run, Causal, Due, Bytes, BytesFrom;
    var w := Run(arrivals, rate).writes;
    FirstDue(arrivals, rate, start);
    PacedAfter(arrivals, rate, 0, j);
    WithFirst(w, 0, j + 1, w[0].length, Due(w, rate, j) - Due(w, rate, 0));
    OneSide(w, side, 0, j + 1);
    FromStart(w, rate, j, start);
  }

  lemma FirstDue(arrivals: seq<Arrival>, rate: real, start: real)
    requires rate > 0.0 && Causal(arrivals, rate) && arrivals != [] && arrivals[0].now >= start
    ensures var w := Run(arrivals, rate).writes; Due(w, rate, 0) >= rate * start + w[0].length as real
  {
    var w := Run(arrivals, rate).writes;
    WriteWaits(arrivals, rate, 0);
    Scale(start, w[0].at, w[0].length, rate);
  }

  lemma FromStart(writes: seq<Write>, rate: real, j: nat, start: real)
    requires j < |writes|
    ensures rate * (writes[j].at - start) == Due(writes, rate, j) - rate * start
  {
    Distribute(start, writes[j].at, rate);
  }
}
