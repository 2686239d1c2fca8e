/**
  The duplicate filter of `hk-bridge.py`: an insertion-ordered dictionary kept short by age
  and by size, against a plain history of everything that was ever accepted.
 */
module RecentSamples {
  import opened Bits

  datatype Key = Key(node: nat, sample: seq<byte>)

  /** One entry of the dictionary: its key and the time it was accepted. */
  datatype Entry = Entry(key: Key, at: real)

  const MAX_AGE := 60.0
  const MAX_RECORDS := 1024

  predicate HasKey(entries: seq<Entry>, key: Key) {
    exists i :: 0 <= i < |entries| && entries[i].key == key
  }

  predicate Fresh(e: Entry, now: real) { now - e.at < MAX_AGE }

  // ---------- what the filter promises ----------

  /** Where the last MAX_RECORDS acceptances begin. */
  function First(history: seq<Entry>): (n: nat)
    ensures n <= |history| <= n + MAX_RECORDS
  {
    if |history| <= MAX_RECORDS then 0 else |history| - MAX_RECORDS
  }

  /** The same node and sample is among the last 1024 acceptances and less than 60 s old. */
  predicate Duplicate(history: seq<Entry>, key: Key, now: real) {
    exists i :: First(history) <= i < |history| && history[i].key == key && Fresh(history[i], now)
  }

  /** One answer of the plain history: it forgets nothing and accepts what is no duplicate. */
  function Remember(history: seq<Entry>, key: Key, now: real): seq<Entry> {
    if Duplicate(history, key, now) then history else history + [Entry(key, now)]
  }

  /** At most 1024 acceptances back, and less than 60 seconds. */
  lemma DuplicateExact(history: seq<Entry>, key: Key, now: real)
    ensures Duplicate(history, key, now) <==>
      exists i :: 0 <= i < |history| && |history| - i <= 1024 && history[i].key == key && now - history[i].at < 60.0
  {
    if Duplicate(history, key, now) {
      var i :| First(history) <= i < |history| && history[i].key == key && Fresh(history[i], now);
      assert |history| - i <= 1024;
    }
    if i :| 0 <= i < |history| && |history| - i <= 1024 && history[i].key == key && now - history[i].at < 60.0 {
      assert First(history) <= i && Fresh(history[i], now);
    }
  }

  // ---------- the store ----------

  predicate InOrder(history: seq<Entry>, clock: real) {
    && (forall i, j :: 0 <= i < j < |history| ==> history[i].at <= history[j].at)
    && (forall i :: 0 <= i < |history| ==> history[i].at <= clock)
  }

  predicate NoRepeats(store: seq<Entry>) {
    forall i, j :: 0 <= i < j < |store| ==> store[i].key != store[j].key
  }

  /** The store holds the newest acceptances; whatever it let go of early is stale at `clock`. */
  predicate Agrees(store: seq<Entry>, history: seq<Entry>, clock: real) {
    && |store| <= |history| - First(history)
    && store == history[|history| - |store|..]
    && (forall i :: First(history) <= i < |history| - |store| ==> !Fresh(history[i], clock))
    && NoRepeats(store)
    && InOrder(history, clock)
  }

  /** How many entries at the front are too old. */
  function Stale(store: seq<Entry>, now: real): (n: nat)
    ensures n <= |store|
    ensures forall i :: 0 <= i < n ==> !Fresh(store[i], now)
    ensures n < |store| ==> Fresh(store[n], now)
  {
    if store != [] && !Fresh(store[0], now) then
      assert forall i :: 1 <= i < |store| ==> store[i] == store[1..][i - 1];
      1 + Stale(store[1..], now)
    else 0
  }

  function Purge(store: seq<Entry>, now: real): seq<Entry> { store[Stale(store, now)..] }

  function Stored(store: seq<Entry>, key: Key, now: real): seq<Entry> {
    var kept := Purge(store, now);
    if HasKey(kept, key) then kept
    else if |kept| >= MAX_RECORDS then kept[1..] + [Entry(key, now)]
    else kept + [Entry(key, now)]
  }

  class RecentSamples {
    var seen: seq<Entry>
    ghost var history: seq<Entry>
    ghost var clock: real

    ghost predicate Valid()
      reads this
    {
      Agrees(seen, history, clock)
    }

    constructor ()
      ensures Valid() && seen == [] && history == []
    {
      seen, history, clock := [], [], 0.0;
    }

    /** Under a clock that does not run backwards, `ok` is exactly the plain history's answer. */
    method Accept(node: nat, sample: seq<byte>, now: real) returns (ok: bool)
      requires Valid() && (history != [] ==> clock <= now)
      modifies this
      ensures Valid() && clock == now
      ensures ok <==> !Duplicate(old(history), Key(node, sample), now)
      ensures history == Remember(old(history), Key(node, sample), now)
      ensures seen == Stored(old(seen), Key(node, sample), now)
      ensures |seen| <= MAX_RECORDS
    {
      hide Agrees, Duplicate, HasKey;
      var before := seen;
      while seen != [] && now - seen[0].at >= MAX_AGE
        invariant Purge(seen, now) == Purge(before, now)
        invariant history == old(history) && clock == old(clock)
        decreases |seen|
      {
        PurgeFirst(seen, now);
        seen := seen[1..];
      }
      PurgeNone(seen, now);
      var key := Key(node, sample);
      AcceptAgrees(before, history, clock, key, now);
      clock := now;
      if HasKey(seen, key) {
        return false;
      }
      assert seen != [] ==> seen[1..] + [Entry(key, now)] == (seen + [Entry(key, now)])[1..];
      seen := seen + [Entry(key, now)];
      history := history + [Entry(key, now)];
      if |seen| > MAX_RECORDS {
        seen := seen[1..];
      }
      return true;
    }
  }

  // ---------- one answer, then whole runs ----------

  lemma PurgeFirst(store: seq<Entry>, now: real)
    requires store != [] && !Fresh(store[0], now)
    ensures Purge(store, now) == Purge(store[1..], now)
  {
  }

  lemma PurgeNone(store: seq<Entry>, now: real)
    requires store != [] ==> Fresh(store[0], now)
    ensures Purge(store, now) == store
  {
  }

  lemma PurgeAgrees(store: seq<Entry>, history: seq<Entry>, clock: real, now: real)
    requires Agrees(store, history, clock) && (history != [] ==> clock <= now)
    ensures Agrees(Purge(store, now), history, now)
    ensures forall i :: 0 <= i < |Purge(store, now)| ==> Fresh(Purge(store, now)[i], now)
  {
    hide Stale;
    var n, kept := Stale(store, now), Purge(store, now);
    var base := |history| - |store|;
    assert forall i :: 0 <= i < |store| ==> history[base + i] == store[i];
    assert kept == history[base + n..] && base + n == |history| - |kept|;
    forall i | First(history) <= i < base + n ensures !Fresh(history[i], now) {
      if i >= base {
        assert history[base + (i - base)] == store[i - base];
      }
    }
    assert NoRepeats(kept) && InOrder(history, now) by {
      assert forall i :: 0 <= i < |kept| ==> kept[i] == store[n + i];
    }
    hide NoRepeats;
    forall i | 0 <= i < |kept| ensures Fresh(kept[i], now) {
      assert kept[i] == history[base + n + i] && history[base + n] == store[n];
    }
  }

  lemma KeptIsFresh(kept: seq<Entry>, history: seq<Entry>, key: Key, now: real)
    requires Agrees(kept, history, now)
    requires forall i :: 0 <= i < |kept| ==> Fresh(kept[i], now)
    ensures HasKey(kept, key) <==> Duplicate(history, key, now)
  {
    var base := |history| - |kept|;
    if HasKey(kept, key) {
      var i :| 0 <= i < |kept| && kept[i].key == key;
      assert history[base + i] == kept[i];
    }
    if Duplicate(history, key, now) {
      var i :| First(history) <= i < |history| && history[i].key == key && Fresh(history[i], now);
      assert history[i] == kept[i - base];
    }
  }

  lemma AppendInOrder(history: seq<Entry>, e: Entry)
    requires InOrder(history, e.at)
    ensures InOrder(history + [e], e.at)
  {
  }

  lemma AppendNoRepeats(store: seq<Entry>, e: Entry)
    requires NoRepeats(store) && !HasKey(store, e.key)
    ensures NoRepeats(store + [e]) && (store != [] ==> NoRepeats(store[1..] + [e]))
  {
    assert forall i :: 0 <= i < |store| - 1 ==> store[1..][i] == store[i + 1];
  }

  lemma AppendAgrees(kept: seq<Entry>, history: seq<Entry>, e: Entry)
    requires Agrees(kept, history, e.at) && !HasKey(kept, e.key)
    ensures |kept| < MAX_RECORDS ==> Agrees(kept + [e], history + [e], e.at)
    ensures |kept| == MAX_RECORDS ==> Agrees(kept[1..] + [e], history + [e], e.at)
  {
    AppendInOrder(history, e);
    AppendNoRepeats(kept, e);
    hide NoRepeats, InOrder, HasKey;
    var after := history + [e];
    var base := |history| - |kept|;
    if |kept| < MAX_RECORDS {
      assert kept + [e] == after[base..];
    } else {
      assert kept[1..] + [e] == after[base + 1..];
    }
  }

  lemma StoreIsShort(store: seq<Entry>, history: seq<Entry>, clock: real)
    requires Agrees(store, history, clock)
    ensures |store| <= MAX_RECORDS
  {
  }

  /** One call answers as the history does, and the store goes on agreeing with it. */
  lemma AcceptAgrees(store: seq<Entry>, history: seq<Entry>, clock: real, key: Key, now: real)
    requires Agrees(store, history, clock) && (history != [] ==> clock <= now)
    ensures HasKey(Purge(store, now), key) <==> Duplicate(history, key, now)
    ensures Agrees(Stored(store, key, now), Remember(history, key, now), now)
    ensures |Stored(store, key, now)| <= MAX_RECORDS
  {
    hide Agrees, Purge, Duplicate, HasKey;
    PurgeAgrees(store, history, clock, now);
    KeptIsFresh(Purge(store, now), history, key, now);
    StoreIsShort(Purge(store, now), history, now);
    if !HasKey(Purge(store, now), key) {
      AppendAgrees(Purge(store, now), history, Entry(key, now));
    }
  }

  /** One offered sample. */
  datatype Offer = Offer(key: Key, now: real)

  datatype FilterRun = FilterRun(store: seq<Entry>, answers: seq<bool>)

  function RunFilter(offers: seq<Offer>): FilterRun {
    if offers == [] then FilterRun([], []) else
    var before := RunFilter(offers[..|offers| - 1]);
    var o := offers[|offers| - 1];
    FilterRun(Stored(before.store, o.key, o.now), before.answers + [!HasKey(Purge(before.store, o.now), o.key)])
  }

  function RunHistory(offers: seq<Offer>): FilterRun {
    if offers == [] then FilterRun([], []) else
    var before := RunHistory(offers[..|offers| - 1]);
    var o := offers[|offers| - 1];
    FilterRun(Remember(before.store, o.key, o.now), before.answers + [!Duplicate(before.store, o.key, o.now)])
  }

  /**
    Over every run with a clock that does not run backwards, the bounded store answers as
    the unbounded history does, and it is always a duplicate-free end of that history.
   */
  lemma {:induction false} FilterRefinesHistory(offers: seq<Offer>)
    requires forall i, j :: 0 <= i < j < |offers| ==> offers[i].now <= offers[j].now
    ensures RunFilter(offers).answers == RunHistory(offers).answers
    ensures Agrees(RunFilter(offers).store, RunHistory(offers).store, if offers == [] then 0.0 else offers[|offers| - 1].now)
    ensures |RunFilter(offers).store| <= MAX_RECORDS
  {
    if offers != [] {
      var before, o := offers[..|offers| - 1], offers[|offers| - 1];
      FilterRefinesHistory(before);
      if before == [] {
        AcceptAgrees([], [], 0.0, o.key, o.now);
      } else {
        AcceptAgrees(RunFilter(before).store, RunHistory(before).store, before[|before| - 1].now, o.key, o.now);
      }
    }
  }
}
