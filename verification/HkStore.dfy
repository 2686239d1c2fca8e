/** The `gap` view of `hk_store.py`: what was not heard, from sixteen-bit sequence numbers. */
module HkStore {
  import opened Bits

  const SEQUENCE_MODULUS := 0x1_0000

  datatype Key = Key(node: nat, report: nat)

  /** One reception, in the order of its row id. */
  datatype Row = Row(key: Key, sequence: nat)

  datatype Gap = Gap(key: Key, after: nat, before: nat, missing: nat)

  // ---------- the view ----------

  /** (next_sequence - sequence - 1 + 65536) % 65536; the sum is never negative, so SQL's % agrees. */
  function Missing(sequence: nat, next: nat): nat
    requires sequence < SEQUENCE_MODULUS && next < SEQUENCE_MODULUS
  {
    (next - sequence - 1 + SEQUENCE_MODULUS) % SEQUENCE_MODULUS
  }

  predicate InRange(rows: seq<Row>) {
    forall i :: 0 <= i < |rows| ==> rows[i].sequence < SEQUENCE_MODULUS
  }

  /** LEAD(sequence) OVER (PARTITION BY node, report ORDER BY id), with |rows| for NULL. */
  function Lead(key: Key, rows: seq<Row>): (i: nat)
    ensures i <= |rows| && (i < |rows| ==> rows[i].key == key)
    ensures forall j :: 0 <= j < i ==> rows[j].key != key
  {
    if rows == [] || rows[0].key == key then 0 else 1 + Lead(key, rows[1..])
  }

  /** The view's row for the first of some receptions, if it shows one. */
  function GapAfter(row: Row, rest: seq<Row>): seq<Gap>
    requires row.sequence < SEQUENCE_MODULUS && InRange(rest)
  {
    var i := Lead(row.key, rest);
    if i == |rest| then []
    else
      var missing := Missing(row.sequence, rest[i].sequence);
      if missing == 0 then [] else [Gap(row.key, row.sequence, rest[i].sequence, missing)]
  }

  function View(rows: seq<Row>): seq<Gap>
    requires InRange(rows)
  {
    if rows == [] then [] else GapAfter(rows[0], rows[1..]) + View(rows[1..])
  }

  // ---------- one series at a time ----------

  predicate AllSequences(s: seq<nat>) {
    forall i :: 0 <= i < |s| ==> s[i] < SEQUENCE_MODULUS
  }

  function Series(rows: seq<Row>, key: Key): (s: seq<nat>)
    ensures InRange(rows) ==> AllSequences(s)
  {
    if rows == [] then [] else
    (if rows[0].key == key then [rows[0].sequence] else []) + Series(rows[1..], key)
  }

  function Shown(gaps: seq<Gap>, key: Key): seq<Gap> {
    if gaps == [] then [] else (if gaps[0].key == key then [gaps[0]] else []) + Shown(gaps[1..], key)
  }

  /** The gaps of one series alone: its neighbours that are more than one step apart. */
  function SeriesGaps(key: Key, s: seq<nat>): seq<Gap>
    requires AllSequences(s)
  {
    if |s| < 2 then [] else
    (if Missing(s[0], s[1]) == 0 then [] else [Gap(key, s[0], s[1], Missing(s[0], s[1]))]) + SeriesGaps(key, s[1..])
  }

  lemma {:induction false} LeadIsNext(key: Key, rows: seq<Row>)
    ensures Lead(key, rows) == |rows| <==> Series(rows, key) == []
    ensures Lead(key, rows) < |rows| ==> Series(rows, key)[0] == rows[Lead(key, rows)].sequence
  {
    if rows != [] && rows[0].key != key {
      LeadIsNext(key, rows[1..]);
    }
  }

  lemma ShownConcat(a: seq<Gap>, b: seq<Gap>, key: Key)
    requires |a| <= 1
    ensures Shown(a + b, key) == Shown(a, key) + Shown(b, key)
  {
    if |a| == 1 {
      assert (a + b)[1..] == b && a[1..] == [];
    } else {
      assert a + b == b;
    }
  }

  lemma ShownOfOne(row: Row, rest: seq<Row>, key: Key)
    requires row.sequence < SEQUENCE_MODULUS && InRange(rest)
    ensures Shown(GapAfter(row, rest), key) == if row.key == key then GapAfter(row, rest) else []
  {
    if GapAfter(row, rest) != [] {
      assert GapAfter(row, rest)[1..] == [];
    }
  }

  /** What the view shows of a series is what that series shows alone: other series change nothing. */
  lemma {:induction false} ViewOfSeries(rows: seq<Row>, key: Key)
    requires InRange(rows)
    ensures AllSequences(Series(rows, key))
    ensures Shown(View(rows), key) == SeriesGaps(key, Series(rows, key))
  {
    if rows != [] {
      var row, rest := rows[0], rows[1..];
      ViewOfSeries(rest, key);
      LeadIsNext(row.key, rest);
      ShownConcat(GapAfter(row, rest), View(rest), key);
      ShownOfOne(row, rest, key);
      if row.key == key {
        assert Series(rows, key)[1..] == Series(rest, key);
        if Series(rest, key) == [] {
          assert SeriesGaps(key, Series(rows, key)) == [] && SeriesGaps(key, Series(rest, key)) == [];
        }
      } else {
        assert [] + Series(rest, key) == Series(rest, key);
        assert [] + Shown(View(rest), key) == Shown(View(rest), key);
      }
    }
  }

  /** Two receptions in a row, and what was missed between them. */
  predicate IsGap(key: Key, s: seq<nat>, g: Gap, i: nat) {
    && i + 1 < |s|
    && g.key == key && g.after == s[i] && g.before == s[i + 1]
    && 0 < g.missing < 65536
    && (g.after + 1 + g.missing) % 65536 == g.before
  }

  lemma MissingBetween(a: nat, b: nat, missing: nat)
    requires a < 65536 && b < 65536
    ensures missing == Missing(a, b) <==> missing < 65536 && (a + 1 + missing) % 65536 == b
  {
  }

  /** The rows of a series are exactly its steps over something missed. */
  lemma {:induction false} GapsExact(key: Key, s: seq<nat>, g: Gap)
    requires AllSequences(s)
    ensures g in SeriesGaps(key, s) <==> exists i: nat :: IsGap(key, s, g, i)
  {
    hide Missing;
    if |s| >= 2 {
      var rest := s[1..];
      GapsExact(key, rest, g);
      MissingBetween(s[0], s[1], Missing(s[0], s[1]));
      MissingBetween(s[0], s[1], g.missing);
      if i: nat :| IsGap(key, s, g, i) {
        if i > 0 {
          assert IsGap(key, rest, g, i - 1);
        }
      }
      if i: nat :| IsGap(key, rest, g, i) {
        assert IsGap(key, s, g, i + 1);
      }
      if g == Gap(key, s[0], s[1], Missing(s[0], s[1])) && Missing(s[0], s[1]) != 0 {
        assert IsGap(key, s, g, 0);
      }
    }
  }

  // ---------- against the counter that was never sent ----------

  /** A step of the counter is reported in full exactly when it is a real step of at most one lap. */
  lemma MissingExact(counter: nat, step: nat)
    ensures Missing(counter % SEQUENCE_MODULUS, (counter + step) % SEQUENCE_MODULUS) == step - 1
       <==> 1 <= step <= SEQUENCE_MODULUS
    ensures Missing(counter % SEQUENCE_MODULUS, (counter + step) % SEQUENCE_MODULUS) == 0 <==> step % SEQUENCE_MODULUS == 1
    ensures step % SEQUENCE_MODULUS == 0 ==>
      Missing(counter % SEQUENCE_MODULUS, (counter + step) % SEQUENCE_MODULUS) == SEQUENCE_MODULUS - 1
  {
  }

  /** Steps of 1 to 65536. */
  predicate Climbs(counter: seq<nat>) {
    forall i :: 0 <= i < |counter| - 1 ==> counter[i] < counter[i + 1] <= counter[i] + SEQUENCE_MODULUS
  }

  function Wrapped(counter: seq<nat>): (s: seq<nat>)
    ensures |s| == |counter| && AllSequences(s)
  {
    seq(|counter|, i requires 0 <= i < |counter| => counter[i] % SEQUENCE_MODULUS)
  }

  function Total(gaps: seq<Gap>): nat {
    if gaps == [] then 0 else gaps[0].missing + Total(gaps[1..])
  }

  lemma TotalCons(a: seq<Gap>, b: seq<Gap>)
    requires |a| <= 1
    ensures Total(a + b) == Total(a) + Total(b)
  {
    if |a| == 1 {
      assert (a + b)[1..] == b && a[1..] == [];
    } else {
      assert a + b == b;
    }
  }

  /** The counter values between the first and the last that were never heard. */
  function NeverHeard(counter: seq<nat>): set<nat>
    requires counter != []
  {
    set x: nat | counter[0] < x < counter[|counter| - 1] && x !in counter
  }

  function Between(low: nat, high: nat): set<nat> {
    if high <= low + 1 then {} else Between(low, high - 1) + {high - 1}
  }

  lemma {:induction false} BetweenExact(low: nat, high: nat)
    requires low < high
    ensures forall x: nat :: x in Between(low, high) <==> low < x < high
    ensures |Between(low, high)| == high - low - 1
    decreases high
  {
    if low + 1 < high {
      BetweenExact(low, high - 1);
    }
  }

  lemma {:induction false} Rising(counter: seq<nat>)
    requires Climbs(counter)
    ensures forall i, j :: 0 <= i < j < |counter| ==> counter[i] < counter[j]
  {
    if |counter| > 1 {
      var rest := counter[1..];
      assert forall i :: 0 <= i < |rest| ==> rest[i] == counter[i + 1];
      Rising(rest);
      forall i, j | 0 <= i < j < |counter| ensures counter[i] < counter[j] {
        assert counter[j] == rest[j - 1] && counter[1] == rest[0];
        if i > 0 {
          assert counter[i] == rest[i - 1];
        }
      }
    }
  }

  /** The first step's unheard values, then those of the rest. */
  lemma NeverHeardCons(counter: seq<nat>)
    requires Climbs(counter) && |counter| >= 2
    ensures NeverHeard(counter) == Between(counter[0], counter[1]) + NeverHeard(counter[1..])
    ensures Between(counter[0], counter[1]) !! NeverHeard(counter[1..])
  {
    hide Between;
    Rising(counter);
    BetweenExact(counter[0], counter[1]);
    forall x: nat ensures x in NeverHeard(counter) <==> x in Between(counter[0], counter[1]) + NeverHeard(counter[1..]) {
      NeverHeardAt(counter, x);
    }
  }

  lemma NeverHeardAt(counter: seq<nat>, x: nat)
    requires |counter| >= 2 && forall i, j :: 0 <= i < j < |counter| ==> counter[i] < counter[j]
    ensures x in NeverHeard(counter) <==> counter[0] < x < counter[1] || x in NeverHeard(counter[1..])
  {
    var rest := counter[1..];
    assert counter == [counter[0]] + rest;
    assert x in counter <==> x == counter[0] || x in rest;
    if counter[0] < x < counter[1] {
      assert forall i :: 0 <= i < |rest| ==> rest[i] == counter[i + 1];
    }
  }

  lemma ClimbsOn(counter: seq<nat>)
    requires Climbs(counter) && |counter| >= 2
    ensures Climbs(counter[1..]) && counter[0] < counter[1] <= counter[0] + SEQUENCE_MODULUS
  {
  }

  /** The missing values add up to exactly the counter values never heard. */
  lemma {:induction false} MissingIsNeverHeard(key: Key, counter: seq<nat>)
    requires Climbs(counter) && counter != []
    ensures Total(SeriesGaps(key, Wrapped(counter))) == |NeverHeard(counter)|
    decreases |counter|
  {
    if |counter| == 1 {
      assert NeverHeard(counter) == {};
    } else {
      hide NeverHeard, Between, Climbs, SeriesGaps, Wrapped, Missing;
      ClimbsOn(counter);
      MissingIsNeverHeard(key, counter[1..]);
      NeverHeardCons(counter);
      BetweenExact(counter[0], counter[1]);
      TotalOfFirstStep(key, counter);
    }
  }

  lemma TotalOfFirstStep(key: Key, counter: seq<nat>)
    requires |counter| >= 2 && counter[0] < counter[1] <= counter[0] + SEQUENCE_MODULUS
    ensures Total(SeriesGaps(key, Wrapped(counter)))
         == counter[1] - counter[0] - 1 + Total(SeriesGaps(key, Wrapped(counter[1..])))
  {
    hide Missing, Total;
    var s := Wrapped(counter);
    assert s[1..] == Wrapped(counter[1..]);
    MissingExact(counter[0], counter[1] - counter[0]);
    TotalOfFirstGap(key, s);
  }

  lemma TotalOfFirstGap(key: Key, s: seq<nat>)
    requires AllSequences(s) && |s| >= 2
    ensures Total(SeriesGaps(key, s)) == Missing(s[0], s[1]) + Total(SeriesGaps(key, s[1..]))
  {
    hide Missing;
    TotalCons(if Missing(s[0], s[1]) == 0 then [] else [Gap(key, s[0], s[1], Missing(s[0], s[1]))], SeriesGaps(key, s[1..]));
  }

  /** A whole table: the rows the view shows of one report add up to what that report lost. */
  lemma ReportLosses(rows: seq<Row>, key: Key, counter: seq<nat>)
    requires InRange(rows) && Climbs(counter) && counter != [] && Series(rows, key) == Wrapped(counter)
    ensures Total(Shown(View(rows), key)) == |NeverHeard(counter)|
  {
    ViewOfSeries(rows, key);
    MissingIsNeverHeard(key, counter);
  }

  /** A sample that is received twice shows as a gap of 65535. */
  lemma RepeatIsAGap(key: Key, sequence: nat)
    requires sequence < SEQUENCE_MODULUS
    ensures View([Row(key, sequence), Row(key, sequence)]) == [Gap(key, sequence, sequence, SEQUENCE_MODULUS - 1)]
  {
    var row := Row(key, sequence);
    assert [row, row][1..] == [row] && [row][1..] == [];
    assert Lead(key, [row]) == 0 && Lead(key, []) == 0;
    assert View([row]) == [];
  }

  // ---------- the table grows ----------

  lemma {:induction false} SeriesSnoc(rows: seq<Row>, row: Row, key: Key)
    ensures Series(rows + [row], key) == Series(rows, key) + (if row.key == key then [row.sequence] else [])
  {
    if rows == [] {
      assert ([row])[1..] == [];
    } else {
      assert (rows + [row])[1..] == rows[1..] + [row];
      SeriesSnoc(rows[1..], row, key);
    }
  }

  /** The gap between the last reception of a series and a new one. */
  function LastGap(key: Key, s: seq<nat>, sequence: nat): seq<Gap>
    requires AllSequences(s) && sequence < SEQUENCE_MODULUS
  {
    if s == [] then [] else
    var last := s[|s| - 1];
    if Missing(last, sequence) == 0 then [] else [Gap(key, last, sequence, Missing(last, sequence))]
  }

  lemma {:induction false} SeriesGapsSnoc(key: Key, s: seq<nat>, sequence: nat)
    requires AllSequences(s) && sequence < SEQUENCE_MODULUS
    ensures SeriesGaps(key, s + [sequence]) == SeriesGaps(key, s) + LastGap(key, s, sequence)
  {
    hide Missing;
    if |s| == 1 {
      assert (s + [sequence])[1..] == [sequence];
    } else if |s| > 1 {
      assert (s + [sequence])[1..] == s[1..] + [sequence];
      SeriesGapsSnoc(key, s[1..], sequence);
    }
  }

  /** One more reception adds at most one row to the view: behind its own series, against the last reception there. */
  lemma OneReception(rows: seq<Row>, row: Row, key: Key)
    requires InRange(rows) && row.sequence < SEQUENCE_MODULUS
    ensures InRange(rows + [row]) && AllSequences(Series(rows, key))
    ensures Shown(View(rows + [row]), key)
         == Shown(View(rows), key) + (if row.key == key then LastGap(key, Series(rows, key), row.sequence) else [])
  {
    assert InRange(rows + [row]);
    hide View, Shown, Series, SeriesGaps, LastGap, InRange, AllSequences;
    ViewOfSeries(rows, key);
    ViewOfSeries(rows + [row], key);
    SeriesSnoc(rows, row, key);
    if row.key == key {
      SeriesGapsSnoc(key, Series(rows, key), row.sequence);
    } else {
      assert Series(rows, key) + [] == Series(rows, key);
      assert Shown(View(rows), key) + [] == Shown(View(rows), key);
    }
  }

  function TwoBytes(high: byte, low: byte): (n: nat)
    ensures n < SEQUENCE_MODULUS
  {
    high as int * 256 + low as int
  }

  lemma ReadTwoBytes(b: seq<byte>)
    requires |b| == 2
    ensures FromBigEndian(b) == TwoBytes(b[0], b[1])
  {
    assert b[..1] == [b[0]] && b[..1][..0] == [];
    assert FromBigEndian(b[..1]) == FromBigEndian(b[..1][..0]) * 256 + b[0] as int;
  }

  class Store {
    var rows: seq<Row>

    predicate Valid()
      reads this
    {
      InRange(rows)
    }

    constructor ()
      ensures Valid() && rows == []
    {
      rows := [];
    }

    /**
      The header fields the view uses; the sample was validated before it came here. What the
      view shows of a series grows by the gap before this reception, and of no other series.
     */
    method Record(node: nat, sample: seq<byte>)
      requires Valid() && |sample| >= 10
      modifies this
      ensures Valid() && rows == old(rows) + [Row(Key(node, sample[1]), TwoBytes(sample[2], sample[3]))]
      ensures forall key ::
        Shown(View(rows), key)
        == Shown(View(old(rows)), key)
           + (if key == Key(node, sample[1]) then LastGap(key, Series(old(rows), key), TwoBytes(sample[2], sample[3])) else [])
    {
      var row := Row(Key(node, sample[1]), FromBigEndian(sample[2..4]));
      ReadTwoBytes(sample[2..4]);
      hide *;
      forall key ensures Shown(View(rows + [row]), key)
        == Shown(View(rows), key) + (if row.key == key then LastGap(key, Series(rows, key), row.sequence) else [])
      {
        OneReception(rows, row, key);
      }
      rows := rows + [row];
    }
  }
}
