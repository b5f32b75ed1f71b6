/** The delta engine of postgres_queries.go: cumulative counters in, per-window deltas out. */
module CounterDelta {
  import opened Collections
  import opened Text

  /** One row of the pg_stat_statements snapshot, without its text. */
  datatype Row = Row(queryId: string, user: string, calls: int, totalMs: real, rows: int)

  datatype Counter = Counter(calls: int, totalMs: real, rows: int)

  /** One emitted window. The source emits the query id and the shortened user; the key stands for both here. */
  datatype Stat = Stat(key: string, calls: int, totalMs: real, meanMs: real, rows: int)

  type Counters = map<string, Counter>

  function CounterDelta(current: int, previous: int): int {
    if current < previous then current else current - previous
  }

  function FloatDelta(current: real, previous: real): real {
    if current < previous then current else current - previous
  }

  const SEPARATOR: char := '\0'

  function Key(row: Row): string { row.queryId + [SEPARATOR] + row.user }

  /** Two rows share a key exactly when they share query id and user: query ids hold no NUL. */
  lemma KeyTellsRowsApart(x: Row, y: Row)
    requires '\0' !in x.queryId && '\0' !in y.queryId
    ensures Key(x) == Key(y) <==> x.queryId == y.queryId && x.user == y.user
  {
    if Key(x) == Key(y) { CutAtMark(x.queryId, x.user, y.queryId, y.user, SEPARATOR); }
  }

  predicate Counts(row: Row) { row.queryId != "" && row.calls > 0 }

  function CounterOf(row: Row): Counter { Counter(row.calls, row.totalMs, row.rows) }

  /** What one row emits, given the counters before it. */
  function Emitted(previous: Counters, row: Row): seq<Stat> {
    var key := Key(row);
    if !Counts(row) || key !in previous then []
    else
      var calls := CounterDelta(row.calls, previous[key].calls);
      if calls <= 0 then []
      else
        var totalMs := FloatDelta(row.totalMs, previous[key].totalMs);
        [Stat(key, calls, totalMs, totalMs / calls as real, CounterDelta(row.rows, previous[key].rows))]
  }

  /** The counters after some rows: the last counting row of each key. */
  function After(previous: Counters, rows: seq<Row>): Counters {
    if rows == [] then previous
    else
      var before, row := After(previous, rows[..|rows| - 1]), rows[|rows| - 1];
      if Counts(row) then before[Key(row) := CounterOf(row)] else before
  }

  function Windows(previous: Counters, rows: seq<Row>): seq<Stat> {
    if rows == [] then []
    else
      var n := |rows| - 1;
      Windows(previous, rows[..n]) + Emitted(After(previous, rows[..n]), rows[n])
  }

  class PostgresQueries {
    var previous: Counters

    constructor ()
      ensures previous == map[]
    {
      previous := map[];
    }

    method RunQueryStats(snapshot: seq<Row>) returns (out: seq<Stat>)
      modifies this
      ensures previous == After(old(previous), snapshot)
      ensures out == Windows(old(previous), snapshot)
    {
      out := [];
      for i := 0 to |snapshot|
        invariant previous == After(old(previous), snapshot[..i])
        invariant out == Windows(old(previous), snapshot[..i])
      {
        var row := snapshot[i];
        assert snapshot[..i + 1][..i] == snapshot[..i];
        if row.queryId == "" || row.calls <= 0 {
          continue;
        }
        var current := CounterOf(row);
        var key := Key(row);
        var known := key in previous;
        var last := if known then previous[key] else current;
        previous := previous[key := current];
        if !known {
          continue;
        }
        var calls := CounterDelta(current.calls, last.calls);
        var totalMs := FloatDelta(current.totalMs, last.totalMs);
        var readRows := CounterDelta(current.rows, last.rows);
        if calls <= 0 {
          continue;
        }
        out := out + [Stat(key, calls, totalMs, totalMs / calls as real, readRows)];
      }
      assert snapshot[..|snapshot|] == snapshot;
    }
  }

  // ---- Whole runs ----------------------------------------------------------------------------------

  lemma OneMoreRow(previous: Counters, rows: seq<Row>, row: Row)
    ensures var before := After(previous, rows);
      && After(previous, rows + [row]) == (if Counts(row) then before[Key(row) := CounterOf(row)] else before)
      && Windows(previous, rows + [row]) == Windows(previous, rows) + Emitted(before, row)
  {
    hide Emitted, Key;
    assert (rows + [row])[..|rows|] == rows;
  }

  lemma NoRows(previous: Counters)
    ensures After(previous, []) == previous && Windows(previous, []) == []
  {
  }

  /** Two calls in a row do what one call on both snapshots would: keys may be missing from some snapshots. */
  lemma {:induction false} SnapshotsChain(previous: Counters, a: seq<Row>, b: seq<Row>)
    ensures After(previous, a + b) == After(After(previous, a), b)
    ensures Windows(previous, a + b) == Windows(previous, a) + Windows(After(previous, a), b)
  {
    NoRows(After(previous, a));
    hide *;
    if b == [] {
      assert a + b == a && Windows(previous, a) + [] == Windows(previous, a);
    } else {
      var n := |b| - 1;
      var front, row, mid := b[..n], b[n], After(previous, a);
      assert a + b == (a + front) + [row] && b == front + [row];
      SnapshotsChain(previous, a, front);
      OneMoreRow(previous, a + front, row);
      OneMoreRow(mid, front, row);
      var w, x, e := Windows(previous, a), Windows(mid, front), Emitted(After(mid, front), row);
      assert w + (x + e) == (w + x) + e;
    }
  }

  /** All the calls emitted for a key. */
  function CallsOf(stats: seq<Stat>, key: string): int {
    if stats == [] then 0
    else CallsOf(stats[..|stats| - 1], key) + (if stats[|stats| - 1].key == key then stats[|stats| - 1].calls else 0)
  }

  /** The counter values that a run sees for a key, in order. */
  function Seen(rows: seq<Row>, key: string): seq<int> {
    if rows == [] then []
    else
      var row := rows[|rows| - 1];
      Seen(rows[..|rows| - 1], key) + (if Counts(row) && Key(row) == key then [row.calls] else [])
  }

  /** What the delta rule makes of a sequence of counter values. */
  function DeltaSum(values: seq<int>): int {
    if |values| < 2 then 0
    else DeltaSum(values[..|values| - 1]) + CounterDelta(values[|values| - 1], values[|values| - 2])
  }

  lemma CallsOfAppend(stats: seq<Stat>, stat: Stat, key: string)
    ensures CallsOf(stats + [stat], key) == CallsOf(stats, key) + (if stat.key == key then stat.calls else 0)
  {
    assert (stats + [stat])[..|stats|] == stats;
  }

  lemma {:induction false} SeenArePositive(rows: seq<Row>, key: string)
    ensures forall i | 0 <= i < |Seen(rows, key)| :: Seen(rows, key)[i] > 0
  {
    if rows != [] { SeenArePositive(rows[..|rows| - 1], key); }
  }

  /** The last value seen is the one kept, and the calls emitted are the delta sum of the values seen. */
  predicate Agrees(rows: seq<Row>, key: string) {
    var values, previous := Seen(rows, key), After(map[], rows);
    && (key in previous <==> values != [])
    && (values != [] ==> previous[key].calls == values[|values| - 1])
    && CallsOf(Windows(map[], rows), key) == DeltaSum(values)
  }

  lemma SeenAppend(rows: seq<Row>, row: Row, key: string)
    ensures Seen(rows + [row], key) ==
      if Counts(row) && Key(row) == key then Seen(rows, key) + [row.calls] else Seen(rows, key)
  {
    assert (rows + [row])[..|rows|] == rows;
  }

  lemma EngineStep(before: seq<Row>, row: Row, key: string)
    requires Agrees(before, key)
    ensures Agrees(before + [row], key)
  {
    hide Emitted, Key, CallsOf, DeltaSum, Seen, After, Windows;
    SeenAppend(before, row, key);
    SeenArePositive(before, key);
    EmittedCalls(before, row, key);
    OneMoreRow(map[], before, row);
    DeltaSumAppend(Seen(before, key), row.calls);
  }

  /** Other keys, skipped rows and missing snapshots do not matter to what the engine emits for a key. */
  lemma {:induction false} EngineEmitsDeltas(rows: seq<Row>, key: string)
    ensures Agrees(rows, key)
  {
    if rows != [] {
      var n := |rows| - 1;
      assert rows == rows[..n] + [rows[n]];
      EngineEmitsDeltas(rows[..n], key);
      EngineStep(rows[..n], rows[n], key);
    }
  }

  lemma DeltaSumAppend(values: seq<int>, value: int)
    ensures DeltaSum(values + [value]) == DeltaSum(values)
      + if values == [] then 0 else CounterDelta(value, values[|values| - 1])
  {
    assert (values + [value])[..|values|] == values;
  }

  lemma EmittedCalls(before: seq<Row>, row: Row, key: string)
    ensures var previous := After(map[], before); var stats := Windows(map[], before);
      CallsOf(stats + Emitted(previous, row), key) == CallsOf(stats, key) +
        if Counts(row) && Key(row) == key && key in previous && CounterDelta(row.calls, previous[key].calls) > 0
        then CounterDelta(row.calls, previous[key].calls) else 0
  {
    var previous, stats := After(map[], before), Windows(map[], before);
    var e := Emitted(previous, row);
    if e == [] { assert stats + e == stats; } else { CallsOfAppend(stats, e[0], key); }
  }

  // ---- Against the true counts ---------------------------------------------------------------------

  /** The truth behind one observation: how often the statement has run at all, and how often it had run when
      the server's counter last started from zero. */
  datatype Reading = Reading(calls: nat, base: nat)

  function Value(r: Reading): int { r.calls - r.base }

  /** Between two readings the counter either went on or was reset, once or more, after the first reading. */
  predicate MayFollow(q: Reading, r: Reading) {
    q.calls <= r.calls && r.base <= r.calls && (r.base == q.base || r.base >= q.calls)
  }

  predicate Truthful(readings: seq<Reading>) {
    && (forall i | 0 <= i < |readings| :: readings[i].base < readings[i].calls)
    && (forall i, j | 0 <= i && j == i + 1 < |readings| :: MayFollow(readings[i], readings[j]))
  }

  /** The calls the delta rule does not see between two readings: the ones between the first reading and the
      reset, and, when the counter has already overtaken its old value, as many again as that value. */
  function Lost(q: Reading, r: Reading): int {
    if r.base == q.base then 0
    else if Value(r) < Value(q) then r.base - q.calls
    else r.base - q.calls + Value(q)
  }

  function TotalLost(readings: seq<Reading>): int {
    if |readings| < 2 then 0
    else TotalLost(readings[..|readings| - 1]) + Lost(readings[|readings| - 2], readings[|readings| - 1])
  }

  function Values(readings: seq<Reading>): seq<int> {
    seq(|readings|, i requires 0 <= i < |readings| => Value(readings[i]))
  }

  /** Every true call since the baseline is either emitted once or lost: none is counted twice. */
  lemma {:induction false} CallsAreEmittedOrLost(readings: seq<Reading>)
    requires readings != [] && Truthful(readings)
    ensures DeltaSum(Values(readings)) + TotalLost(readings) == readings[|readings| - 1].calls - readings[0].calls
    ensures TotalLost(readings) >= 0
  {
    hide CounterDelta, Lost, MayFollow, Value;
    if |readings| > 1 {
      var n := |readings| - 1;
      var before := readings[..n];
      assert forall i | 0 <= i < n :: before[i] == readings[i];
      CallsAreEmittedOrLost(before);
      assert Values(readings)[..n] == Values(before);
      DeltaPlusLost(readings[n - 1], readings[n]);
    }
  }

  lemma DeltaPlusLost(q: Reading, r: Reading)
    requires MayFollow(q, r) && q.base < q.calls
    ensures CounterDelta(Value(r), Value(q)) + Lost(q, r) == r.calls - q.calls && Lost(q, r) >= 0
  {
  }

  /** The counter went on, or its reset came right after the first reading and shows as a drop. */
  predicate NoneHidden(q: Reading, r: Reading) {
    r.base != q.base ==> r.base == q.calls && Value(r) < Value(q)
  }

  predicate NoResetHidesCalls(readings: seq<Reading>) {
    forall i, j | 0 <= i && j == i + 1 < |readings| :: NoneHidden(readings[i], readings[j])
  }

  lemma LostNothing(q: Reading, r: Reading)
    requires MayFollow(q, r) && q.base < q.calls
    ensures Lost(q, r) >= 0 && (Lost(q, r) == 0 <==> NoneHidden(q, r))
  {
  }

  lemma {:induction false} NothingLost(readings: seq<Reading>)
    requires Truthful(readings)
    ensures TotalLost(readings) >= 0 && (TotalLost(readings) == 0 <==> NoResetHidesCalls(readings))
  {
    hide Lost, NoneHidden, MayFollow;
    if |readings| > 1 {
      var n := |readings| - 1;
      var before := readings[..n];
      assert forall i | 0 <= i < n :: before[i] == readings[i];
      NothingLost(before);
      LostNothing(readings[n - 1], readings[n]);
    }
  }

  lemma NoDeltas(readings: seq<Reading>)
    ensures readings == [] ==> DeltaSum(Values(readings)) == 0
  {
  }

  /** The delta rule against the truth, for the readings behind the values seen for a key. */
  lemma EmittedAgainstReadings(rows: seq<Row>, key: string, readings: seq<Reading>)
    requires Truthful(readings) && Seen(rows, key) == Values(readings)
    ensures var emitted := CallsOf(Windows(map[], rows), key);
      if readings == [] then emitted == 0
      else 0 <= emitted <= readings[|readings| - 1].calls - readings[0].calls
           && (emitted == readings[|readings| - 1].calls - readings[0].calls <==> NoResetHidesCalls(readings))
  {
    hide Windows, CallsOf, Seen, DeltaSum, TotalLost, Truthful, NoResetHidesCalls;
    EngineEmitsDeltas(rows, key);
    NoDeltas(readings);
    if readings != [] {
      CallsAreEmittedOrLost(readings);
      NothingLost(readings);
      SeenArePositive(rows, key);
      DeltaSumIsNotNegative(Seen(rows, key));
    }
  }

  lemma {:induction false} DeltaSumIsNotNegative(values: seq<int>)
    requires forall i | 0 <= i < |values| :: values[i] > 0
    ensures DeltaSum(values) >= 0
  {
    if |values| > 1 { DeltaSumIsNotNegative(values[..|values| - 1]); }
  }

  /** Without a reset the emitted calls are the last value seen minus the first. */
  lemma {:induction false} WithoutResetDeltasTelescope(values: seq<int>)
    requires values != [] && forall i, j | 0 <= i && j == i + 1 < |values| :: values[i] <= values[j]
    ensures DeltaSum(values) == values[|values| - 1] - values[0]
  {
    if |values| > 1 {
      var n := |values| - 1;
      assert forall i | 0 <= i < n :: values[..n][i] == values[i];
      WithoutResetDeltasTelescope(values[..n]);
    }
  }

  // ---- A run of snapshots --------------------------------------------------------------------------

  function Flat(snapshots: seq<seq<Row>>): seq<Row> {
    if snapshots == [] then [] else Flat(snapshots[..|snapshots| - 1]) + snapshots[|snapshots| - 1]
  }

  function CountersAfter(snapshots: seq<seq<Row>>): Counters {
    if snapshots == [] then map[] else After(CountersAfter(snapshots[..|snapshots| - 1]), snapshots[|snapshots| - 1])
  }

  /** What one call of RunQueryStats after the other emits. */
  function EmittedBy(snapshots: seq<seq<Row>>): seq<Stat> {
    if snapshots == [] then [] else
      var front, last := snapshots[..|snapshots| - 1], snapshots[|snapshots| - 1];
      EmittedBy(front) + Windows(CountersAfter(front), last)
  }

  lemma {:induction false} SnapshotsAreOneRun(snapshots: seq<seq<Row>>)
    ensures CountersAfter(snapshots) == After(map[], Flat(snapshots))
    ensures EmittedBy(snapshots) == Windows(map[], Flat(snapshots))
  {
    hide After, Windows;
    NoRows(map[]);
    if snapshots != [] {
      var front, last := snapshots[..|snapshots| - 1], snapshots[|snapshots| - 1];
      SnapshotsAreOneRun(front);
      SnapshotsChain(map[], Flat(front), last);
    }
  }

  /** The truth behind a run for one key, a reading for each snapshot whether or not it shows the key: the true
      counts go on or are reset from snapshot to snapshot, and every counting row of the key holds the counter. */
  predicate IsTruth(snapshots: seq<seq<Row>>, key: string, truth: seq<Reading>) {
    && |truth| == |snapshots|
    && (forall i, j | 0 <= i && j == i + 1 < |truth| :: MayFollow(truth[i], truth[j]))
    && (forall i, k | 0 <= i < |snapshots| && 0 <= k < |snapshots[i]| ::
          Counts(snapshots[i][k]) && Key(snapshots[i][k]) == key ==> snapshots[i][k].calls == Value(truth[i]))
  }

  /** The reading behind every counting row of the key, in order. */
  function Observed(snapshots: seq<seq<Row>>, key: string, truth: seq<Reading>): seq<Reading>
    requires |truth| == |snapshots|
  {
    if snapshots == [] then [] else
      var n := |snapshots| - 1;
      Observed(snapshots[..n], key, truth[..n]) + Copies(|Seen(snapshots[n], key)|, truth[n])
  }

  function Copies(n: nat, reading: Reading): (readings: seq<Reading>)
    ensures |readings| == n && forall i | 0 <= i < n :: readings[i] == reading
  {
    seq(n, i => reading)
  }

  lemma {:induction false} SeenOfSum(a: seq<Row>, b: seq<Row>, key: string)
    ensures Seen(a + b, key) == Seen(a, key) + Seen(b, key)
  {
    if b == [] {
      assert a + b == a;
    } else {
      var front, row := b[..|b| - 1], b[|b| - 1];
      assert a + b == (a + front) + [row] && b == front + [row];
      SeenOfSum(a, front, key);
      SeenAppend(a + front, row, key);
      SeenAppend(front, row, key);
    }
  }

  lemma {:induction false} SeenInOne(snapshot: seq<Row>, key: string, reading: Reading)
    requires forall k | 0 <= k < |snapshot| && Counts(snapshot[k]) && Key(snapshot[k]) == key ::
      snapshot[k].calls == Value(reading)
    ensures forall i | 0 <= i < |Seen(snapshot, key)| :: Seen(snapshot, key)[i] == Value(reading)
    ensures Seen(snapshot, key) != [] ==> reading.base < reading.calls
  {
    hide Key;
    if snapshot != [] { SeenInOne(snapshot[..|snapshot| - 1], key, reading); }
  }

  /** Readings may follow each other across snapshots that do not show the key. */
  lemma {:induction false} LaterReadingFollows(truth: seq<Reading>, i: nat, j: nat)
    requires i <= j < |truth| && forall k, l | 0 <= k && l == k + 1 < |truth| :: MayFollow(truth[k], truth[l])
    requires truth[i].base < truth[i].calls
    ensures MayFollow(truth[i], truth[j])
    decreases j
  {
    if i < j {
      assert MayFollow(truth[j - 1], truth[j]);
      LaterReadingFollows(truth, i, j - 1);
    }
  }

  /** The values seen for a key are its true counter, row by row, and these readings are truthful. */
  lemma {:induction false} SeenIsObserved(snapshots: seq<seq<Row>>, key: string, truth: seq<Reading>)
    requires IsTruth(snapshots, key, truth)
    ensures var readings := Observed(snapshots, key, truth);
      && Seen(Flat(snapshots), key) == Values(readings) && Truthful(readings)
      && (readings != [] ==> exists i :: 0 <= i < |truth| && truth[i] == readings[|readings| - 1])
  {
    hide Key, Counts, Seen, MayFollow, IsTruth, Truthful, Values, Copies;
    if snapshots == [] {
      NothingSeen(key);
      NoReadings();
    } else {
      var n := |snapshots| - 1;
      FrontIsTruth(snapshots, key, truth);
      var front, early := snapshots[..n], truth[..n];
      SeenIsObserved(front, key, early);
      SeenInOne(snapshots[n], key, truth[n]);
      SeenOfSum(Flat(front), snapshots[n], key);
      var readings := Observed(front, key, early);
      if readings != [] {
        var i :| 0 <= i < |early| && early[i] == readings[|readings| - 1];
        assert truth[i] == early[i];
        TruthfulIsPositive(readings, |readings| - 1);
        LaterReadingFollows(truth, i, n);
      }
      MoreReadings(readings, truth[n], Seen(snapshots[n], key));
    }
  }

  lemma TruthfulIsPositive(readings: seq<Reading>, i: nat)
    requires Truthful(readings) && i < |readings|
    ensures readings[i].base < readings[i].calls
  {
    hide MayFollow;
  }

  lemma NoReadings()
    ensures Truthful([]) && Values([]) == []
  {
  }

  lemma FrontIsTruth(snapshots: seq<seq<Row>>, key: string, truth: seq<Reading>)
    requires IsTruth(snapshots, key, truth) && snapshots != []
    ensures |truth| == |snapshots|
    ensures var n := |snapshots| - 1;
      && IsTruth(snapshots[..n], key, truth[..n])
      && (forall i, j | 0 <= i && j == i + 1 < |truth| :: MayFollow(truth[i], truth[j]))
      && forall k | 0 <= k < |snapshots[n]| && Counts(snapshots[n][k]) && Key(snapshots[n][k]) == key ::
           snapshots[n][k].calls == Value(truth[n])
  {
    hide Key, Counts, MayFollow, Value;
    var n := |snapshots| - 1;
    assert forall i | 0 <= i < n :: snapshots[..n][i] == snapshots[i] && truth[..n][i] == truth[i];
  }

  lemma NothingSeen(key: string)
    ensures Seen([], key) == []
  {
  }

  /** The same reading once more, for every further row that shows it. */
  lemma {:induction false} MoreReadings(readings: seq<Reading>, reading: Reading, seen: seq<int>)
    requires Truthful(readings) && forall i | 0 <= i < |seen| :: seen[i] == Value(reading)
    requires seen != [] ==> reading.base < reading.calls
    requires seen != [] && readings != [] ==> MayFollow(readings[|readings| - 1], reading)
    ensures var all := readings + Copies(|seen|, reading);
      Truthful(all) && Values(all) == Values(readings) + seen && (seen != [] ==> all[|all| - 1] == reading)
  {
    hide MayFollow, Truthful, Values, Value;
    if seen == [] {
      assert readings + Copies(0, reading) == readings && Values(readings) + seen == Values(readings);
    } else {
      var m := |seen| - 1;
      MoreReadings(readings, reading, seen[..m]);
      var most := readings + Copies(m, reading);
      assert readings + Copies(|seen|, reading) == most + [reading];
      FollowsItself(reading);
      OneMoreReading(most, reading);
      Associate(Values(readings), seen[..m], [Value(reading)]);
      assert seen == seen[..m] + [Value(reading)];
    }
  }

  lemma FollowsItself(reading: Reading)
    requires reading.base < reading.calls
    ensures MayFollow(reading, reading)
  {
  }

  lemma OneMoreReading(readings: seq<Reading>, reading: Reading)
    requires Truthful(readings) && reading.base < reading.calls
    requires readings != [] ==> MayFollow(readings[|readings| - 1], reading)
    ensures Truthful(readings + [reading]) && Values(readings + [reading]) == Values(readings) + [Value(reading)]
  {
    hide MayFollow;
  }

  /** The engine against the truth. For every run of snapshots whose rows of a key hold the key's true counter,
      the key missing from as many of them as it may be: the emitted calls never exceed the true calls between the
      first and the last snapshot that show the key, and they are all of them exactly when no reset hid any. */
  lemma EmittedNeverExceedsTruth(snapshots: seq<seq<Row>>, key: string, truth: seq<Reading>)
    requires IsTruth(snapshots, key, truth)
    ensures var emitted, readings := CallsOf(EmittedBy(snapshots), key), Observed(snapshots, key, truth);
      if readings == [] then emitted == 0
      else 0 <= emitted <= readings[|readings| - 1].calls - readings[0].calls
           && (emitted == readings[|readings| - 1].calls - readings[0].calls <==> NoResetHidesCalls(readings))
  {
    hide EmittedBy, Windows, CallsOf, Flat, Seen, Observed, Values, Truthful, NoResetHidesCalls;
    SnapshotsAreOneRun(snapshots);
    SeenIsObserved(snapshots, key, truth);
    EmittedAgainstReadings(Flat(snapshots), key, Observed(snapshots, key, truth));
  }

  // ---- Snapshots whose rows of a key differ --------------------------------------------------------

  /** All counting rows of the key hold one count. */
  predicate OneCount(snapshot: seq<Row>, key: string) {
    forall i, j | 0 <= i < |snapshot| && 0 <= j < |snapshot| && Counts(snapshot[i]) && Counts(snapshot[j])
      && Key(snapshot[i]) == key && Key(snapshot[j]) == key :: snapshot[i].calls == snapshot[j].calls
  }

  predicate AllEqual(values: seq<int>) { forall i, j | 0 <= i < j < |values| :: values[i] == values[j] }

  lemma {:induction false} NoDeltaMeansAllEqual(values: seq<int>)
    requires forall i | 0 <= i < |values| :: values[i] > 0
    ensures DeltaSum(values) >= 0 && (DeltaSum(values) == 0 <==> AllEqual(values))
  {
    if |values| > 1 {
      var n := |values| - 1;
      var front := values[..n];
      assert forall i | 0 <= i < n :: front[i] == values[i];
      NoDeltaMeansAllEqual(front);
      if AllEqual(front) && values[n] == values[n - 1] {
        assert forall i | 0 <= i < n :: values[i] == front[n - 1];
      }
    }
  }

  lemma {:induction false} SeenHolds(rows: seq<Row>, key: string)
    ensures forall v | v in Seen(rows, key) ::
      exists k :: 0 <= k < |rows| && Counts(rows[k]) && Key(rows[k]) == key && rows[k].calls == v
    ensures forall k | 0 <= k < |rows| && Counts(rows[k]) && Key(rows[k]) == key :: rows[k].calls in Seen(rows, key)
  {
    hide Key, Counts;
    if rows != [] {
      var n := |rows| - 1;
      SeenHolds(rows[..n], key);
      assert forall k | 0 <= k < n :: rows[..n][k] == rows[k];
    }
  }

  /** A snapshot read `n` times. */
  function Again(snapshot: seq<Row>, n: nat): seq<seq<Row>> {
    if n == 0 then [] else Again(snapshot, n - 1) + [snapshot]
  }

  lemma {:induction false} SeenAgain(snapshot: seq<Row>, n: nat, key: string)
    requires n >= 1
    ensures forall v :: v in Seen(Flat(Again(snapshot, n)), key) <==> v in Seen(snapshot, key)
  {
    hide Seen;
    var before := Again(snapshot, n - 1);
    assert Again(snapshot, n)[..n - 1] == before by { AgainLength(snapshot, n - 1); }
    AgainLength(snapshot, n);
    SeenOfSum(Flat(before), snapshot, key);
    if n == 1 { NothingSeen(key); } else { SeenAgain(snapshot, n - 1, key); }
  }

  lemma {:induction false} AgainLength(snapshot: seq<Row>, n: nat)
    ensures |Again(snapshot, n)| == n
  {
    if n > 0 { AgainLength(snapshot, n - 1); }
  }

  predicate OneMember(values: seq<int>) { forall v, w | v in values && w in values :: v == w }

  lemma AllEqualByMembers(values: seq<int>)
    ensures AllEqual(values) <==> OneMember(values)
  {
    assert forall i | 0 <= i < |values| :: values[i] in values;
  }

  /** What a snapshot must be for the engine to invent nothing: read any number of times with no call in between, it
      emits no call of a key if and only if all its counting rows of that key hold one count. */
  lemma RereadingEmitsNothing(snapshot: seq<Row>, n: nat, key: string)
    requires n >= 1
    ensures CallsOf(EmittedBy(Again(snapshot, n)), key) == 0 <==> OneCount(snapshot, key)
  {
    hide Key, Counts, After, Windows, CallsOf, EmittedBy, Seen, DeltaSum, Flat, AllEqual;
    var snapshots := Again(snapshot, n);
    var values := Seen(Flat(snapshots), key);
    SnapshotsAreOneRun(snapshots);
    EngineEmitsDeltas(Flat(snapshots), key);
    SeenArePositive(Flat(snapshots), key);
    NoDeltaMeansAllEqual(values);
    AllEqualByMembers(values);
    SeenAgain(snapshot, n, key);
    OneCountByValues(snapshot, key);
  }

  lemma OneCountByValues(snapshot: seq<Row>, key: string)
    ensures OneCount(snapshot, key) <==> OneMember(Seen(snapshot, key))
  {
    hide Key, Counts, Seen;
    SeenHolds(snapshot, key);
    var seen := Seen(snapshot, key);
    if OneCount(snapshot, key) {
      forall v, w | v in seen && w in seen ensures v == w {
        var i :| 0 <= i < |snapshot| && Counts(snapshot[i]) && Key(snapshot[i]) == key && snapshot[i].calls == v;
        var j :| 0 <= j < |snapshot| && Counts(snapshot[j]) && Key(snapshot[j]) == key && snapshot[j].calls == w;
      }
    } else {
      var i, j :| 0 <= i < |snapshot| && 0 <= j < |snapshot| && Counts(snapshot[i]) && Counts(snapshot[j])
        && Key(snapshot[i]) == key && Key(snapshot[j]) == key && snapshot[i].calls != snapshot[j].calls;
      var v, w := snapshot[i].calls, snapshot[j].calls;
      assert v in seen && w in seen && v != w;
    }
  }

  /** How many it invents for two rows of a key, read twice: counts of 100 and 5 make 105 calls out of none. */
  lemma DuplicateRowsInventCalls(x: Row, y: Row)
    requires Counts(x) && Counts(y) && Key(x) == Key(y)
    ensures var emitted := CallsOf(EmittedBy([[x, y], [x, y]]), Key(x));
      && emitted == (if x.calls > y.calls then x.calls + y.calls else if x.calls < y.calls then 2 * y.calls - x.calls else 0)
      && (emitted == 0 <==> x.calls == y.calls)
  {
    hide Key, After, Windows, CallsOf, EmittedBy, Seen, DeltaSum, Flat;
    var snapshots, key := [[x, y], [x, y]], Key(x);
    SnapshotsAreOneRun(snapshots);
    FlatOfTwo([x, y], [x, y]);
    EngineEmitsDeltas(Flat(snapshots), key);
    SeenPair(x, y);
    SeenOfSum([x, y], [x, y], key);
    FourValues(x.calls, y.calls);
  }

  lemma FlatOfTwo(a: seq<Row>, b: seq<Row>)
    ensures Flat([a, b]) == a + b
  {
    assert [a, b][..1] == [a] && [a][..0] == [];
    assert Flat([a]) == [] + a == a;
  }

  lemma SeenPair(x: Row, y: Row)
    requires Counts(x) && Counts(y) && Key(x) == Key(y)
    ensures Seen([x, y], Key(x)) == [x.calls, y.calls]
  {
    hide Key, Counts;
    NothingSeen(Key(x));
    SeenAppend([], x, Key(x));
    assert [] + [x] == [x] && [x] + [y] == [x, y];
    SeenAppend([x], y, Key(x));
  }

  lemma FourValues(a: int, b: int)
    ensures DeltaSum([a, b] + [a, b]) == CounterDelta(b, a) + CounterDelta(a, b) + CounterDelta(b, a)
  {
    assert [a, b] + [a, b] == [a] + [b] + [a] + [b];
    DeltaSumAppend([a] + [b] + [a], b);
    DeltaSumAppend([a] + [b], a);
    DeltaSumAppend([a], b);
  }

  // ---- What a window says --------------------------------------------------------------------------

  function StatsOf(stats: seq<Stat>, key: string): seq<Stat> {
    if stats == [] then []
    else
      var stat := stats[|stats| - 1];
      StatsOf(stats[..|stats| - 1], key) + (if stat.key == key then [stat] else [])
  }

  /** What was read for a key, in order: the counter kept from before, if any, and the rows that count. */
  function CountersOf(previous: Counters, rows: seq<Row>, key: string): seq<Counter> {
    if rows == [] then (if key in previous then [previous[key]] else [])
    else
      var row := rows[|rows| - 1];
      CountersOf(previous, rows[..|rows| - 1], key) + (if Counts(row) && Key(row) == key then [CounterOf(row)] else [])
  }

  /** What two consecutive readings say of the time between them. Each counter starts again from zero when it has
      been reset, and without calls there is nothing to say. */
  predicate Tells(q: Counter, r: Counter, key: string, windows: seq<Stat>) {
    if q.calls == r.calls then windows == []
    else
      && |windows| == 1 && windows[0].key == key
      && windows[0].calls == (if q.calls < r.calls then r.calls - q.calls else r.calls)
      && windows[0].rows == (if q.rows <= r.rows then r.rows - q.rows else r.rows)
      && windows[0].totalMs == (if q.totalMs <= r.totalMs then r.totalMs - q.totalMs else r.totalMs)
      && windows[0].meanMs * windows[0].calls as real == windows[0].totalMs
  }

  /** The windows of a key, in order, tell what was read. */
  predicate AllTell(counters: seq<Counter>, key: string, windows: seq<Stat>) {
    if |counters| < 2 then windows == []
    else
      var n, m := |counters| - 1, |windows| - (if counters[|counters| - 1].calls == counters[|counters| - 2].calls then 0 else 1);
      && 0 <= m && Tells(counters[n - 1], counters[n], key, windows[m..])
      && AllTell(counters[..n], key, windows[..m])
  }

  lemma OneMoreStat(stats: seq<Stat>, stat: Stat, key: string)
    ensures StatsOf(stats + [stat], key) == StatsOf(stats, key) + if stat.key == key then [stat] else []
  {
    assert (stats + [stat])[..|stats|] == stats;
  }

  lemma StatsOfAppend(stats: seq<Stat>, more: seq<Stat>, key: string)
    requires |more| <= 1 && forall i | 0 <= i < |more| :: more[i].key == key
    ensures StatsOf(stats + more, key) == StatsOf(stats, key) + more
  {
    if more == [] {
      assert stats + more == stats;
    } else {
      assert more == [more[0]];
      OneMoreStat(stats, more[0], key);
    }
  }

  lemma OtherStat(stats: seq<Stat>, more: seq<Stat>, key: string)
    requires |more| <= 1 && forall i | 0 <= i < |more| :: more[i].key != key
    ensures StatsOf(stats + more, key) == StatsOf(stats, key)
  {
    if more == [] {
      assert stats + more == stats;
    } else {
      assert more == [more[0]];
      OneMoreStat(stats, more[0], key);
    }
  }

  lemma RowTells(previous: Counters, row: Row)
    requires Counts(row) && Key(row) in previous
    ensures Tells(previous[Key(row)], CounterOf(row), Key(row), Emitted(previous, row))
  {
    hide Key;
  }

  lemma RowOfAnother(previous: Counters, row: Row, key: string)
    requires !Counts(row) || Key(row) != key || key !in previous
    ensures var e := Emitted(previous, row);
      |e| <= 1 && (forall i | 0 <= i < |e| :: e[i].key != key) && (Counts(row) && Key(row) == key ==> e == [])
  {
    hide Key;
  }

  lemma OneMoreCounter(previous: Counters, rows: seq<Row>, row: Row, key: string)
    ensures CountersOf(previous, rows + [row], key)
         == CountersOf(previous, rows, key) + if Counts(row) && Key(row) == key then [CounterOf(row)] else []
  {
    hide Counts, Key;
    assert (rows + [row])[..|rows|] == rows;
  }

  /** What holds of a key after some rows. */
  predicate TellsAll(previous: Counters, rows: seq<Row>, key: string) {
    var counters, after := CountersOf(previous, rows, key), After(previous, rows);
    && AllTell(counters, key, StatsOf(Windows(previous, rows), key))
    && (key in after <==> counters != [])
    && (counters != [] ==> after[key] == counters[|counters| - 1])
  }

  lemma RowTellsAll(previous: Counters, rows: seq<Row>, row: Row, key: string)
    requires TellsAll(previous, rows, key)
    ensures TellsAll(previous, rows + [row], key)
  {
    hide Key, Counts, Emitted, Tells, AllTell, CountersOf, StatsOf, Windows, After;
    var before := After(previous, rows);
    var counters, stats := CountersOf(previous, rows, key), Windows(previous, rows);
    OneMoreRow(previous, rows, row);
    OneMoreCounter(previous, rows, row, key);
    if Counts(row) && Key(row) == key {
      if key in before {
        RowTells(before, row);
        TellsOne(counters[|counters| - 1], CounterOf(row), key, Emitted(before, row));
        StatsOfAppend(stats, Emitted(before, row), key);
        OneMoreTells(counters, CounterOf(row), key, StatsOf(stats, key), Emitted(before, row));
      } else {
        RowOfAnother(before, row, key);
        OtherStat(stats, Emitted(before, row), key);
        FirstTells(CounterOf(row), key, StatsOf(stats, key));
        assert counters == [] && counters + [CounterOf(row)] == [CounterOf(row)];
      }
    } else {
      RowOfAnother(before, row, key);
      OtherStat(stats, Emitted(before, row), key);
      assert counters + [] == counters;
    }
  }

  lemma FirstTells(r: Counter, key: string, windows: seq<Stat>)
    requires AllTell([], key, windows)
    ensures AllTell([r], key, windows)
  {
  }

  /** Every window of the engine tells what its key's counters did between two consecutive readings, and no two
      readings go untold: calls, times, means and rows, for any counters kept from before. */
  lemma {:induction false} WindowsTell(previous: Counters, rows: seq<Row>, key: string)
    ensures TellsAll(previous, rows, key)
  {
    if rows != [] {
      var n := |rows| - 1;
      assert rows == rows[..n] + [rows[n]];
      WindowsTell(previous, rows[..n], key);
      RowTellsAll(previous, rows[..n], rows[n], key);
    }
  }

  lemma TellsOne(q: Counter, r: Counter, key: string, windows: seq<Stat>)
    requires Tells(q, r, key, windows)
    ensures |windows| == (if q.calls == r.calls then 0 else 1) && forall i | 0 <= i < |windows| :: windows[i].key == key
  {
  }

  lemma OneMoreTells(counters: seq<Counter>, r: Counter, key: string, windows: seq<Stat>, more: seq<Stat>)
    requires counters != [] && AllTell(counters, key, windows) && Tells(counters[|counters| - 1], r, key, more)
    ensures AllTell(counters + [r], key, windows + more)
  {
    var all := windows + more;
    assert (counters + [r])[..|counters|] == counters;
    assert all[..|windows|] == windows && all[|windows|..] == more;
  }

  /** A row of a statement and user that has run. */
  predicate IsRowOf(row: Row, queryId: string, user: string) {
    queryId != "" && row.queryId == queryId && row.user == user && row.calls > 0
  }

  /** The only such row of a snapshot. Query ids hold no NUL. */
  predicate IsOnlyRow(snapshot: seq<Row>, i: nat, queryId: string, user: string) {
    && i < |snapshot| && IsRowOf(snapshot[i], queryId, user)
    && forall k | 0 <= k < |snapshot| :: '\0' !in snapshot[k].queryId
         && (k != i ==> !IsRowOf(snapshot[k], queryId, user))
  }

  function KeyOf(queryId: string, user: string): string { queryId + ['\0'] + user }

  lemma RowCounts(row: Row, queryId: string, user: string)
    requires '\0' !in queryId && '\0' !in row.queryId && queryId != ""
    ensures Counts(row) && Key(row) == KeyOf(queryId, user) <==> IsRowOf(row, queryId, user)
  {
    KeyTellsRowsApart(row, Row(queryId, user, 0, 0.0, 0));
  }

  lemma {:induction false} NoRowOfKey(previous: Counters, rows: seq<Row>, key: string)
    requires forall k | 0 <= k < |rows| && Counts(rows[k]) :: Key(rows[k]) != key
    ensures CountersOf(previous, rows, key) == CountersOf(previous, [], key)
  {
    hide Key, Counts;
    if rows != [] { NoRowOfKey(previous, rows[..|rows| - 1], key); }
  }

  lemma {:induction false} OneRowOfKey(previous: Counters, snapshot: seq<Row>, i: nat, queryId: string, user: string)
    requires IsOnlyRow(snapshot, i, queryId, user)
    ensures var key := KeyOf(queryId, user);
      CountersOf(previous, snapshot, key) == CountersOf(previous, [], key) + [CounterOf(snapshot[i])]
  {
    hide Key, Counts, KeyOf, IsRowOf;
    var n, key := |snapshot| - 1, KeyOf(queryId, user);
    IdOfRow(snapshot[i], queryId, user);
    forall k | 0 <= k < |snapshot| ensures Counts(snapshot[k]) && Key(snapshot[k]) == key <==> k == i {
      RowCounts(snapshot[k], queryId, user);
    }
    if i == n {
      NoRowOfKey(previous, snapshot[..n], key);
    } else {
      OneRowOfKey(previous, snapshot[..n], i, queryId, user);
      assert CountersOf(previous, snapshot, key) == CountersOf(previous, snapshot[..n], key) + [];
    }
  }

  lemma IdOfRow(row: Row, queryId: string, user: string)
    requires IsRowOf(row, queryId, user)
    ensures row.queryId == queryId != ""
  {
  }

  /** Two snapshots one after the other, each with one row of a statement and user, whatever else they hold and
      whatever was kept from before: for calls that moved, the second call emits exactly one window for the two. It
      tells the growth of every counter that has not fallen, and the new value of one that has. */
  lemma TwoSnapshots(previous: Counters, a: seq<Row>, i: nat, b: seq<Row>, j: nat, queryId: string, user: string)
    requires IsOnlyRow(a, i, queryId, user) && IsOnlyRow(b, j, queryId, user)
    ensures var q, r := a[i], b[j];
      var windows := StatsOf(Windows(After(previous, a), b), KeyOf(queryId, user));
      if q.calls == r.calls then windows == []
      else
        && |windows| == 1
        && (q.calls < r.calls ==> windows[0].calls == r.calls - q.calls)
        && (q.calls > r.calls ==> windows[0].calls == r.calls)
        && (q.totalMs <= r.totalMs ==> windows[0].totalMs == r.totalMs - q.totalMs)
        && (q.totalMs > r.totalMs ==> windows[0].totalMs == r.totalMs)
        && (q.rows <= r.rows ==> windows[0].rows == r.rows - q.rows)
        && (q.rows > r.rows ==> windows[0].rows == r.rows)
        && windows[0].meanMs * windows[0].calls as real == windows[0].totalMs
  {
    hide Key, Counts, StatsOf, Windows, After, IsOnlyRow;
    TwoSnapshotsTell(previous, a, i, b, j, queryId, user);
  }

  lemma TwoSnapshotsTell(previous: Counters, a: seq<Row>, i: nat, b: seq<Row>, j: nat, queryId: string, user: string)
    requires IsOnlyRow(a, i, queryId, user) && IsOnlyRow(b, j, queryId, user)
    ensures var key := KeyOf(queryId, user);
      Tells(CounterOf(a[i]), CounterOf(b[j]), key, StatsOf(Windows(After(previous, a), b), key))
  {
    hide Key, Counts, StatsOf, Windows, After, AllTell, Tells, KeyOf;
    var mid, key := After(previous, a), KeyOf(queryId, user);
    var q, r := CounterOf(a[i]), CounterOf(b[j]);
    WindowsTell(previous, a, key);
    OneRowOfKey(previous, a, i, queryId, user);
    WindowsTell(mid, b, key);
    OneRowOfKey(mid, b, j, queryId, user);
    var seen := CountersOf(previous, [], key);
    assert (seen + [q])[|seen|] == q;
    assert CountersOf(mid, [], key) == [q];
    TwoTell(q, r, key, StatsOf(Windows(mid, b), key));
  }

  lemma TwoTell(q: Counter, r: Counter, key: string, windows: seq<Stat>)
    requires AllTell([q] + [r], key, windows)
    ensures Tells(q, r, key, windows)
  {
    hide Tells;
    assert ([q] + [r])[..1] == [q];
    var m := |windows| - if q.calls == r.calls then 0 else 1;
    assert windows[..m] == [] ==> windows[m..] == windows;
  }

  function TimeOf(windows: seq<Stat>): real {
    if windows == [] then 0.0 else TimeOf(windows[..|windows| - 1]) + windows[|windows| - 1].totalMs
  }

  function RowsReadBy(windows: seq<Stat>): int {
    if windows == [] then 0 else RowsReadBy(windows[..|windows| - 1]) + windows[|windows| - 1].rows
  }

  /** From reading to reading the calls rise, and time and rows do not fall. */
  predicate Rises(counters: seq<Counter>) {
    forall i, j | 0 <= i && j == i + 1 < |counters| :: counters[i].calls < counters[j].calls
      && counters[i].totalMs <= counters[j].totalMs && counters[i].rows <= counters[j].rows
  }

  lemma {:induction false} RisingAddsUp(counters: seq<Counter>, key: string, windows: seq<Stat>)
    requires counters != [] && Rises(counters) && AllTell(counters, key, windows)
    ensures TimeOf(windows) == counters[|counters| - 1].totalMs - counters[0].totalMs
    ensures RowsReadBy(windows) == counters[|counters| - 1].rows - counters[0].rows
    ensures |windows| == |counters| - 1
  {
    if |counters| > 1 {
      var n := |counters| - 1;
      assert forall i | 0 <= i < n :: counters[..n][i] == counters[i];
      RisingAddsUp(counters[..n], key, windows[..|windows| - 1]);
      assert windows[|windows| - 1..][0] == windows[|windows| - 1];
    }
  }

  /** Without a reset nothing is lost over a run: the emitted times, rows and calls of a key add up to its last
      counters minus its first, however many snapshots show it and whatever else they hold. */
  lemma WithoutResetWindowsAddUp(snapshots: seq<seq<Row>>, key: string)
    requires var counters := CountersOf(map[], Flat(snapshots), key); counters != [] && Rises(counters)
    ensures var counters, windows := CountersOf(map[], Flat(snapshots), key), StatsOf(EmittedBy(snapshots), key);
      var first, last := counters[0], counters[|counters| - 1];
      && TimeOf(windows) == last.totalMs - first.totalMs
      && RowsReadBy(windows) == last.rows - first.rows
      && |windows| == |counters| - 1
  {
    hide StatsOf, Windows, After, CountersOf, EmittedBy, Flat, Rises, AllTell;
    SnapshotsAreOneRun(snapshots);
    WindowsTell(map[], Flat(snapshots), key);
    RisingAddsUp(CountersOf(map[], Flat(snapshots), key), key, StatsOf(EmittedBy(snapshots), key));
  }

  /** A row without a query id or without calls leaves no trace, wherever it stands. */
  lemma SkippedRowsDoNotMatter(previous: Counters, a: seq<Row>, row: Row, b: seq<Row>)
    requires row.queryId == "" || row.calls <= 0
    ensures After(previous, a + [row] + b) == After(previous, a + b)
    ensures Windows(previous, a + [row] + b) == Windows(previous, a + b)
  {
    OneMoreRow(previous, a, row);
    var none := Emitted(After(previous, a), row);
    assert none == [] && Windows(previous, a) + none == Windows(previous, a);
    hide *;
    SnapshotsChain(previous, a + [row], b);
    SnapshotsChain(previous, a, b);
  }
}
