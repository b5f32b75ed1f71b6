/** The ClickHouse query-log reader: `fresh` hands each finished query on once, and RunQueryStats adds the fresh
    rows up by query hash. Times are nanoseconds. */
module QueryLogDedup {
  import opened Collections
  import opened Options

  const SECOND: nat := 1_000_000_000
  const SEEN_TTL: int := 360 * SECOND      // 6 minutes: `now.Sub(observed) > 6*time.Minute`
  const LOOK_BACK: int := 300              // seconds: `event_time>=now()-INTERVAL 5 MINUTE`
  const READ_DELAY: nat := 10 * SECOND     // the time-out of the query

  /** The longest delay between query and `fresh` that the memory outlasts: 59 seconds and one nanosecond. */
  const SLACK: int := SEEN_TTL - (LOOK_BACK + 1) * SECOND + 1

  /** The columns of one query-log row that matter here. A value that is missing or of another type is None. */
  datatype Row = Row(queryId: string, hash: string, durationMs: Option<real>, resultRows: Option<int>)

  type Seen = map<string, int>

  function Purged(seen: Seen, now: int): Seen {
    map id | id in seen && now - seen[id] <= SEEN_TTL :: seen[id]
  }

  /** The rows that have not been seen, each id once. `limit` is the sample limit; the statistics have none. */
  function Scan(seen: Seen, rows: seq<Row>, now: int, limit: Option<nat>): (r: (Seen, seq<Row>))
    decreases |rows|
  {
    if rows == [] || limit == Some(0) then (seen, [])
    else if rows[0].queryId == "" || rows[0].queryId in seen then Scan(seen, rows[1..], now, limit)
    else
      var (after, taken) := Scan(seen[rows[0].queryId := now], rows[1..], now, OneLess(limit));
      (after, [rows[0]] + taken)
  }

  function OneLess(limit: Option<nat>): Option<nat>
    requires limit != Some(0)
  {
    if limit.Some? then Some(limit.value - 1) else None
  }

  lemma ScanRow(seen: Seen, rows: seq<Row>, i: nat, now: int, limit: Option<nat>)
    requires i < |rows| && limit != Some(0)
    ensures var id, scan := rows[i].queryId, Scan(seen, rows[i..], now, limit);
      if id == "" || id in seen then scan == Scan(seen, rows[i + 1..], now, limit)
      else
        var rest := Scan(seen[id := now], rows[i + 1..], now, OneLess(limit));
        scan.0 == rest.0 && scan.1 == [rows[i]] + rest.1
  {
    DropTwice(rows, i, 1);
  }

  lemma ScanStops(seen: Seen, rows: seq<Row>, now: int, limit: Option<nat>)
    requires rows == [] || limit == Some(0)
    ensures Scan(seen, rows, now, limit) == (seen, [])
  {
  }

  /** One call of fresh. */
  function Fresh(seen: Seen, rows: seq<Row>, now: int, limit: Option<nat>): (Seen, seq<Row>) {
    Scan(Purged(seen, now), rows, now, limit)
  }

  /** One aggregated statistic: what DatabaseQueryStat adds up. */
  datatype Entry = Entry(calls: nat, totalMs: real, rows: int)

  class ClickHouseQueries {
    const sampleLimit: nat
    var seenStats: Seen
    var seenSamples: Seen

    constructor (sampleLimit: nat)
      ensures this.sampleLimit == sampleLimit && seenStats == map[] && seenSamples == map[]
    {
      this.sampleLimit := sampleLimit;
      seenStats, seenSamples := map[], map[];
    }

    /** The first loop of fresh: entries older than six minutes go. */
    static method Sweep(seen: Seen, now: int) returns (kept: Seen)
      ensures kept == Purged(seen, now)
    {
      kept := seen;
      var todo := seen.Keys;
      while todo != {}
        invariant todo <= seen.Keys
        invariant kept == map id | id in seen && (id in todo || now - seen[id] <= SEEN_TTL) :: seen[id]
        decreases todo
      {
        var id :| id in todo;
        if now - kept[id] > SEEN_TTL {
          kept := kept - {id};
        }
        todo := todo - {id};
      }
    }

    method FreshRows(rows: seq<Row>, samples: bool, now: int) returns (taken: seq<Row>)
      modifies this
      ensures samples ==>
        seenStats == old(seenStats) && (seenSamples, taken) == Fresh(old(seenSamples), rows, now, Some(sampleLimit))
      ensures !samples ==>
        seenSamples == old(seenSamples) && (seenStats, taken) == Fresh(old(seenStats), rows, now, None)
    {
      hide Scan, Purged;
      var seen := Sweep(if samples then seenSamples else seenStats, now);
      ghost var limit := if samples then Some(sampleLimit) else None;
      ghost var result := Scan(seen, rows, now, limit);
      assert result == Fresh(if samples then seenSamples else seenStats, rows, now, limit);
      taken := [];
      var i := 0;
      assert rows[0..] == rows;
      while i < |rows|
        invariant 0 <= i <= |rows| && seenStats == old(seenStats) && seenSamples == old(seenSamples)
        invariant samples ==> |taken| <= sampleLimit
        invariant
          var rest := Scan(seen, rows[i..], now, if samples then Some(sampleLimit - |taken|) else None);
          result.0 == rest.0 && result.1 == taken + rest.1
      {
        ghost var left := if samples then Some(sampleLimit - |taken|) else None;
        if samples && |taken| >= sampleLimit {
          break;
        }
        var row := rows[i];
        ScanRow(seen, rows, i, now, left);
        if row.queryId != "" && row.queryId !in seen {
          seen := seen[row.queryId := now];
          ghost var rest := Scan(seen, rows[i + 1..], now, OneLess(left)).1;
          Associate(taken, [row], rest);
          taken := taken + [row];
        }
        i := i + 1;
      }
      assert i == |rows| ==> rows[i..] == [];
      ScanStops(seen, rows[i..], now, if samples then Some(sampleLimit - |taken|) else None);
      assert result.0 == seen && result.1 == taken + [] == taken;
      assert result == (seen, taken);
      if samples { seenSamples := seen; } else { seenStats := seen; }
    }

    /** The aggregation loop of RunQueryStats, up to the sort and the cut to queryLimit. */
    method Aggregate(rows: seq<Row>) returns (byHash: map<string, Entry>)
      ensures byHash == ByHash(rows)
    {
      byHash := map[];
      for i := 0 to |rows|
        invariant byHash == ByHash(rows[..i])
      {
        var row := rows[i];
        assert rows[..i + 1] == rows[..i] + [row];
        ByHashStep(rows[..i], row);
        if row.hash == "" {
          continue;
        }
        var entry := if row.hash in byHash then byHash[row.hash] else Entry(0, 0.0, 0);
        entry := entry.(calls := entry.calls + 1);
        if row.durationMs.Some? {
          entry := entry.(totalMs := entry.totalMs + row.durationMs.value);
        }
        if row.resultRows.Some? {
          entry := entry.(rows := entry.rows + row.resultRows.value);
        }
        byHash := byHash[row.hash := entry];
      }
      assert rows[..|rows|] == rows;
    }
  }

  // ---- The sums ------------------------------------------------------------------------------------

  function Hashes(rows: seq<Row>): set<string> {
    if rows == [] then {}
    else Hashes(rows[..|rows| - 1]) + (if rows[|rows| - 1].hash == "" then {} else {rows[|rows| - 1].hash})
  }

  /** What the rows with hash `h` add up to. */
  function EntryOf(rows: seq<Row>, h: string): Entry {
    if rows == [] then Entry(0, 0.0, 0)
    else
      var e, row := EntryOf(rows[..|rows| - 1], h), rows[|rows| - 1];
      if row.hash != h then e
      else Entry(e.calls + 1,
                 e.totalMs + (if row.durationMs.Some? then row.durationMs.value else 0.0),
                 e.rows + (if row.resultRows.Some? then row.resultRows.value else 0))
  }

  function ByHash(rows: seq<Row>): map<string, Entry> {
    map h | h in Hashes(rows) :: EntryOf(rows, h)
  }

  lemma {:induction false} NoRows(rows: seq<Row>, h: string)
    requires h != "" && h !in Hashes(rows)
    ensures EntryOf(rows, h) == Entry(0, 0.0, 0)
  {
    if rows != [] { NoRows(rows[..|rows| - 1], h); }
  }

  function Hashed(rows: seq<Row>): nat {
    if rows == [] then 0 else Hashed(rows[..|rows| - 1]) + (if rows[|rows| - 1].hash != "" then 1 else 0)
  }

  ghost function SumCalls(entries: map<string, Entry>): nat
    decreases |entries|
  {
    if entries == map[] then 0 else var h :| h in entries; entries[h].calls + SumCalls(entries - {h})
  }

  lemma {:induction false} SumCallsTake(entries: map<string, Entry>, h: string)
    requires h in entries
    ensures SumCalls(entries) == entries[h].calls + SumCalls(entries - {h})
    decreases |entries|
  {
    var g :| g in entries && SumCalls(entries) == entries[g].calls + SumCalls(entries - {g});
    if g != h {
      assert entries - {g} - {h} == entries - {h} - {g};
      SumCallsTake(entries - {g}, h);
      SumCallsTake(entries - {h}, g);
    }
  }

  lemma SumCallsUpdate(entries: map<string, Entry>, h: string, e: Entry)
    ensures SumCalls(entries[h := e]) == SumCalls(entries) - (if h in entries then entries[h].calls else 0) + e.calls
  {
    assert entries[h := e] - {h} == entries - {h};
    SumCallsTake(entries[h := e], h);
    if h in entries { SumCallsTake(entries, h); } else { assert entries - {h} == entries; }
  }

  lemma AppendRow(rows: seq<Row>, row: Row, h: string)
    ensures Hashes(rows + [row]) == Hashes(rows) + (if row.hash == "" then {} else {row.hash})
    ensures h != row.hash ==> EntryOf(rows + [row], h) == EntryOf(rows, h)
  {
    assert (rows + [row])[..|rows|] == rows && (rows + [row])[|rows|] == row;
  }

  /** What one more row does to the aggregate. */
  lemma ByHashStep(rows: seq<Row>, row: Row)
    ensures ByHash(rows + [row]) ==
      if row.hash == "" then ByHash(rows) else ByHash(rows)[row.hash := EntryOf(rows + [row], row.hash)]
    ensures row.hash != "" && row.hash !in Hashes(rows) ==> EntryOf(rows, row.hash) == Entry(0, 0.0, 0)
    ensures (rows + [row])[..|rows|] == rows
  {
    hide EntryOf, Hashes;
    AppendRow(rows, row, "");
    forall h | h in Hashes(rows) && h != row.hash ensures EntryOf(rows + [row], h) == EntryOf(rows, h) {
      AppendRow(rows, row, h);
    }
    HashesAreNotEmpty(rows);
    if row.hash != "" && row.hash !in Hashes(rows) { NoRows(rows, row.hash); }
  }

  lemma {:induction false} HashesAreNotEmpty(rows: seq<Row>)
    ensures "" !in Hashes(rows)
  {
    if rows != [] { HashesAreNotEmpty(rows[..|rows| - 1]); }
  }

  /** No call is lost or counted twice by the aggregation: the entries' calls add up to the number of rows that
      have a hash. */
  lemma {:induction false} CallsAddUp(rows: seq<Row>)
    ensures SumCalls(ByHash(rows)) == Hashed(rows)
  {
    if rows == [] {
      assert ByHash(rows) == map[];
    } else {
      var before, row := rows[..|rows| - 1], rows[|rows| - 1];
      assert rows == before + [row];
      CallsAddUp(before);
      ByHashStep(before, row);
      SumCallsUpdate(ByHash(before), row.hash, EntryOf(rows, row.hash));
    }
  }

  /** A quantity of all entries together. */
  ghost function SumOf(entries: map<string, Entry>, of: Entry -> real): real
    decreases |entries|
  {
    if entries == map[] then 0.0 else var h :| h in entries; of(entries[h]) + SumOf(entries - {h}, of)
  }

  lemma {:induction false} SumOfTake(entries: map<string, Entry>, of: Entry -> real, h: string)
    requires h in entries
    ensures SumOf(entries, of) == of(entries[h]) + SumOf(entries - {h}, of)
    decreases |entries|
  {
    var g :| g in entries && SumOf(entries, of) == of(entries[g]) + SumOf(entries - {g}, of);
    if g != h {
      assert entries - {g} - {h} == entries - {h} - {g};
      SumOfTake(entries - {g}, of, h);
      SumOfTake(entries - {h}, of, g);
    }
  }

  lemma SumOfUpdate(entries: map<string, Entry>, of: Entry -> real, h: string, e: Entry)
    ensures SumOf(entries[h := e], of) == SumOf(entries, of) - (if h in entries then of(entries[h]) else 0.0) + of(e)
  {
    assert entries[h := e] - {h} == entries - {h};
    SumOfTake(entries[h := e], of, h);
    if h in entries { SumOfTake(entries, of, h); } else { assert entries - {h} == entries; }
  }

  /** The time of the rows with a hash; a row without a duration has none. */
  function TimeOf(rows: seq<Row>): real {
    if rows == [] then 0.0
    else
      var row := rows[|rows| - 1];
      TimeOf(rows[..|rows| - 1]) + (if row.hash != "" && row.durationMs.Some? then row.durationMs.value else 0.0)
  }

  /** The result rows of the rows with a hash. */
  function ResultsOf(rows: seq<Row>): int {
    if rows == [] then 0
    else
      var row := rows[|rows| - 1];
      ResultsOf(rows[..|rows| - 1]) + (if row.hash != "" && row.resultRows.Some? then row.resultRows.value else 0)
  }

  function TotalMs(e: Entry): real { e.totalMs }

  function ResultRows(e: Entry): real { e.rows as real }

  /** Nor is any time or any result row: the entries' sums are those of the rows that have a hash. */
  lemma {:induction false} TimesAndResultsAddUp(rows: seq<Row>)
    ensures SumOf(ByHash(rows), TotalMs) == TimeOf(rows)
    ensures SumOf(ByHash(rows), ResultRows) == ResultsOf(rows) as real
  {
    hide SumOf, ByHash;
    if rows == [] {
      NoEntries(TotalMs);
      NoEntries(ResultRows);
    } else {
      var before, row := rows[..|rows| - 1], rows[|rows| - 1];
      var e := EntryOf(rows, row.hash);
      assert rows == before + [row];
      TimesAndResultsAddUp(before);
      ByHashStep(before, row);
      if row.hash != "" {
        SumOfUpdate(ByHash(before), TotalMs, row.hash, e);
        SumOfUpdate(ByHash(before), ResultRows, row.hash, e);
        OldEntry(before, row.hash);
      }
    }
  }

  lemma NoEntries(of: Entry -> real)
    ensures ByHash([]) == map[] && SumOf(map[], of) == 0.0
  {
  }

  lemma OldEntry(rows: seq<Row>, h: string)
    requires h != ""
    ensures if h in ByHash(rows) then ByHash(rows)[h] == EntryOf(rows, h) else EntryOf(rows, h) == Entry(0, 0.0, 0)
  {
    hide EntryOf;
    if h !in Hashes(rows) { NoRows(rows, h); }
  }

  // ---- The sample limit ----------------------------------------------------------------------------

  /** The samples are the first of the rows that the statistics would take, as many as the limit allows. */
  lemma SamplesAreTheFirst(seen: Seen, rows: seq<Row>, now: int, limit: nat)
    ensures var samples, all := Fresh(seen, rows, now, Some(limit)).1, Fresh(seen, rows, now, None).1;
      |samples| <= limit && samples <= all && (|samples| < limit ==> samples == all)
  {
    ScanTakesTheFirst(Purged(seen, now), rows, now, limit);
  }

  lemma {:induction false} ScanTakesTheFirst(seen: Seen, rows: seq<Row>, now: int, limit: nat)
    ensures var samples, all := Scan(seen, rows, now, Some(limit)).1, Scan(seen, rows, now, None).1;
      |samples| <= limit && samples <= all && (|samples| < limit ==> samples == all)
    decreases |rows|
  {
    if rows != [] && limit > 0 {
      var id := rows[0].queryId;
      if id == "" || id in seen {
        ScanTakesTheFirst(seen, rows[1..], now, limit);
      } else {
        ScanTakesTheFirst(seen[id := now], rows[1..], now, limit - 1);
      }
    }
  }

  // ---- Whole runs ----------------------------------------------------------------------------------

  /** One poll: the query ran at `queried`, `fresh` ran at `now` and was given `rows`. */
  datatype Poll = Poll(queried: int, now: int, rows: seq<Row>)

  /** An id with the time fresh returned it. */
  datatype Return = Return(id: string, time: int)

  datatype State = State(seen: Seen, returned: seq<Return>, clock: int)

  function Returns(taken: seq<Row>, now: int): seq<Return> {
    seq(|taken|, i requires 0 <= i < |taken| => Return(taken[i].queryId, now))
  }

  function Step(s: State, p: Poll, limit: Option<nat>): State {
    var (seen, taken) := Fresh(s.seen, p.rows, p.now, limit);
    State(seen, s.returned + Returns(taken, p.now), p.now)
  }

  function Run(s: State, polls: seq<Poll>, limit: Option<nat>): State
    decreases |polls|
  {
    if polls == [] then s else Run(Step(s, polls[0], limit), polls[1..], limit)
  }

  /** What the query may return: finished queries that its look-back, in whole seconds, still covers. Each id
      belongs to one query, which finished at `finished(id)`. */
  predicate Visible(finished: string -> int, p: Poll) {
    forall i | 0 <= i < |p.rows| ::
      var at := finished(p.rows[i].queryId);
      at <= p.queried && at / SECOND >= p.queried / SECOND - LOOK_BACK
  }

  /** The calls to `fresh` follow one another, each at most `delay` after its query. */
  predicate Timely(finished: string -> int, delay: nat, clock: int, polls: seq<Poll>)
    decreases |polls|
  {
    polls == [] ||
      (var p := polls[0];
       clock <= p.now && p.queried <= p.now <= p.queried + delay
         && Visible(finished, p) && Timely(finished, delay, p.now, polls[1..]))
  }

  /** Whatever was returned is still remembered, unless it is older than the time to live. */
  ghost predicate Remembered(finished: string -> int, s: State, r: Return) {
    && finished(r.id) <= r.time <= s.clock && r.id != ""
    && (s.clock - r.time > SEEN_TTL || (r.id in s.seen && s.seen[r.id] == r.time))
  }

  ghost predicate IsReturned(s: State, id: string) {
    exists i :: 0 <= i < |s.returned| && s.returned[i].id == id
  }

  ghost predicate Inv(finished: string -> int, s: State) {
    && (forall i | 0 <= i < |s.returned| :: Remembered(finished, s, s.returned[i]))
    && (forall i, j | 0 <= i < j < |s.returned| :: s.returned[i].id != s.returned[j].id)
    && (forall id | id in s.seen :: IsReturned(s, id))
  }

  lemma {:induction false} ScanTakes(seen: Seen, rows: seq<Row>, now: int, limit: Option<nat>)
    ensures var (after, taken) := Scan(seen, rows, now, limit);
      && (forall row | row in taken :: row in rows && row.queryId != "" && row.queryId !in seen)
      && (forall i, j | 0 <= i < j < |taken| :: taken[i].queryId != taken[j].queryId)
    decreases |rows|
  {
    if rows != [] && limit != Some(0) {
      var id := rows[0].queryId;
      if id == "" || id in seen {
        ScanTakes(seen, rows[1..], now, limit);
      } else {
        var rest := OneLess(limit);
        ScanTakes(seen[id := now], rows[1..], now, rest);
        var more := Scan(seen[id := now], rows[1..], now, rest).1;
        assert forall i | 0 <= i < |more| :: more[i] in more;
      }
    }
  }

  lemma {:induction false} ScanRemembers(seen: Seen, rows: seq<Row>, now: int, limit: Option<nat>)
    ensures var (after, taken) := Scan(seen, rows, now, limit);
      && (forall row | row in taken :: row.queryId in after && (row.queryId !in seen ==> after[row.queryId] == now))
      && (forall id | id in seen :: id in after && after[id] == seen[id])
      && (forall id | id in after && id !in seen :: exists i :: 0 <= i < |taken| && taken[i].queryId == id)
      && (limit.None? ==> forall row | row in rows && row.queryId != "" :: row.queryId in after)
    decreases |rows|
  {
    if rows != [] && limit != Some(0) {
      var id := rows[0].queryId;
      if id == "" || id in seen {
        ScanRemembers(seen, rows[1..], now, limit);
      } else {
        var rest := OneLess(limit);
        ScanRemembers(seen[id := now], rows[1..], now, rest);
        var (after, more) := Scan(seen[id := now], rows[1..], now, rest);
        var taken := [rows[0]] + more;
        assert taken[0].queryId == id;
        forall k | k in after && k !in seen ensures exists i :: 0 <= i < |taken| && taken[i].queryId == k {
          if k != id {
            var i :| 0 <= i < |more| && more[i].queryId == k;
            assert taken[i + 1].queryId == k;
          }
        }
      }
    }
  }

  /** Five minutes of look-back, cut to whole seconds, and the read delay: how old a query is when it is handed on. */
  lemma VisibleIsRecent(finished: string -> int, delay: nat, p: Poll, row: Row)
    requires Visible(finished, p) && p.now <= p.queried + delay && row in p.rows
    ensures finished(row.queryId) <= p.queried && p.now - finished(row.queryId) <= SEEN_TTL + delay - SLACK
  {
  }

  /** A row that the sweep has made look unseen has never been returned. */
  lemma NotYetReturned(finished: string -> int, delay: nat, s: State, p: Poll, row: Row, r: Return)
    requires delay <= SLACK
    requires Timely(finished, delay, s.clock, [p]) && row in p.rows && row.queryId !in Purged(s.seen, p.now)
    requires Remembered(finished, s, r)
    ensures r.id != row.queryId
  {
    VisibleIsRecent(finished, delay, p, row);
  }

  lemma TakenIsNew(finished: string -> int, delay: nat, s: State, p: Poll, limit: Option<nat>, row: Row)
    requires delay <= SLACK
    requires Inv(finished, s) && Timely(finished, delay, s.clock, [p])
    requires row in Fresh(s.seen, p.rows, p.now, limit).1
    ensures row.queryId != "" && finished(row.queryId) <= p.queried
    ensures forall j | 0 <= j < |s.returned| :: s.returned[j].id != row.queryId
  {
    hide Scan, Visible;
    ScanTakes(Purged(s.seen, p.now), p.rows, p.now, limit);
    VisibleIsRecent(finished, delay, p, row);
    forall j | 0 <= j < |s.returned| ensures s.returned[j].id != row.queryId {
      NotYetReturned(finished, delay, s, p, row, s.returned[j]);
    }
  }

  lemma SeenWasReturned(s: State, p: Poll, limit: Option<nat>, id: string)
    requires forall id | id in s.seen :: IsReturned(s, id)
    requires id in Step(s, p, limit).seen
    ensures IsReturned(Step(s, p, limit), id)
  {
    hide Scan;
    ScanRemembers(Purged(s.seen, p.now), p.rows, p.now, limit);
    var t, n, taken := Step(s, p, limit), |s.returned|, Fresh(s.seen, p.rows, p.now, limit).1;
    if id in s.seen {
      var i :| 0 <= i < n && s.returned[i].id == id;
      assert t.returned[i].id == id;
    } else {
      var i :| 0 <= i < |taken| && taken[i].queryId == id;
      assert t.returned[n + i].id == id;
    }
  }

  /** What was returned before a poll is still remembered after it. */
  lemma OldIsRemembered(finished: string -> int, delay: nat, s: State, p: Poll, limit: Option<nat>, r: Return)
    requires delay <= SLACK
    requires Timely(finished, delay, s.clock, [p]) && Remembered(finished, s, r)
    ensures Remembered(finished, Step(s, p, limit), r)
  {
    hide Scan, Visible;
    ScanRemembers(Purged(s.seen, p.now), p.rows, p.now, limit);
    var seen := Scan(Purged(s.seen, p.now), p.rows, p.now, limit).0;
    assert Step(s, p, limit).seen == seen && Step(s, p, limit).clock == p.now;
    if p.now - r.time <= SEEN_TTL {
      assert r.id in Purged(s.seen, p.now) && s.seen[r.id] == r.time;
      assert r.id in seen && seen[r.id] == r.time;
    }
  }

  /** And so is what the poll returns. */
  lemma NewIsRemembered(finished: string -> int, delay: nat, s: State, p: Poll, limit: Option<nat>, row: Row)
    requires delay <= SLACK
    requires Inv(finished, s) && Timely(finished, delay, s.clock, [p])
    requires row in Fresh(s.seen, p.rows, p.now, limit).1
    ensures Remembered(finished, Step(s, p, limit), Return(row.queryId, p.now))
  {
    hide Scan, Visible, Inv;
    ScanTakes(Purged(s.seen, p.now), p.rows, p.now, limit);
    ScanRemembers(Purged(s.seen, p.now), p.rows, p.now, limit);
    TakenIsNew(finished, delay, s, p, limit, row);
  }

  lemma StepDistinct(finished: string -> int, delay: nat, s: State, p: Poll, limit: Option<nat>, i: nat, j: nat)
    requires delay <= SLACK
    requires Inv(finished, s) && Timely(finished, delay, s.clock, [p])
    requires i < j < |Step(s, p, limit).returned|
    ensures Step(s, p, limit).returned[i].id != Step(s, p, limit).returned[j].id
  {
    hide Scan, Visible, Remembered, IsReturned;
    ScanTakes(Purged(s.seen, p.now), p.rows, p.now, limit);
    var taken, n := Fresh(s.seen, p.rows, p.now, limit).1, |s.returned|;
    if i < n <= j {
      assert taken[j - n] in taken;
      TakenIsNew(finished, delay, s, p, limit, taken[j - n]);
    }
  }

  lemma StepKeepsInv(finished: string -> int, delay: nat, s: State, p: Poll, limit: Option<nat>)
    requires delay <= SLACK
    requires Inv(finished, s) && Timely(finished, delay, s.clock, [p])
    ensures Inv(finished, Step(s, p, limit))
  {
    hide Fresh, Timely, Remembered, IsReturned;
    var t, n := Step(s, p, limit), |s.returned|;
    var taken := Fresh(s.seen, p.rows, p.now, limit).1;
    forall i | 0 <= i < |t.returned| ensures Remembered(finished, t, t.returned[i]) {
      if i < n {
        OldIsRemembered(finished, delay, s, p, limit, s.returned[i]);
      } else {
        assert taken[i - n] in taken && t.returned[i] == Return(taken[i - n].queryId, p.now);
        NewIsRemembered(finished, delay, s, p, limit, taken[i - n]);
      }
    }
    forall i, j | 0 <= i < j < |t.returned| ensures t.returned[i].id != t.returned[j].id {
      StepDistinct(finished, delay, s, p, limit, i, j);
    }
    forall id | id in t.seen ensures IsReturned(t, id) { SeenWasReturned(s, p, limit, id); }
  }

  lemma {:induction false} RunKeepsInv(
    finished: string -> int, delay: nat, s: State, polls: seq<Poll>, limit: Option<nat>)
    requires delay <= SLACK
    requires Inv(finished, s) && Timely(finished, delay, s.clock, polls)
    ensures Inv(finished, Run(s, polls, limit))
    decreases |polls|
  {
    if polls != [] {
      StepKeepsInv(finished, delay, s, polls[0], limit);
      RunKeepsInv(finished, delay, Step(s, polls[0], limit), polls[1..], limit);
    }
  }

  function Start(clock: int): State { State(map[], [], clock) }

  predicate NothingTwice(returned: seq<Return>) {
    forall i, j | 0 <= i < j < |returned| :: returned[i].id != returned[j].id
  }

  /** In a whole run, statistics or samples, no query is returned twice. */
  lemma AtMostOnce(finished: string -> int, clock: int, polls: seq<Poll>, limit: Option<nat>)
    requires Timely(finished, READ_DELAY, clock, polls)
    ensures NothingTwice(Run(Start(clock), polls, limit).returned)
  {
    RunIsDistinct(finished, READ_DELAY, clock, polls, limit);
  }

  /** No run whose reads are at most `delay` late repeats itself. */
  ghost predicate NeverTwice(delay: nat, limit: Option<nat>) {
    forall finished, clock, polls | Timely(finished, delay, clock, polls) ::
      NothingTwice(Run(Start(clock), polls, limit).returned)
  }

  /** How late a read may be: the six minutes keep every run free of repetition if and only if no read comes more
      than 59 seconds and one nanosecond after its query. */
  lemma DelayDecides(delay: nat, limit: Option<nat>)
    requires limit != Some(0)
    ensures NeverTwice(delay, limit) <==> delay <= 59_000_000_001
  {
    hide Run, NothingTwice, Timely;
    if delay <= SLACK {
      forall finished, clock, polls | Timely(finished, delay, clock, polls)
        ensures NothingTwice(Run(Start(clock), polls, limit).returned)
      {
        RunIsDistinct(finished, delay, clock, polls, limit);
      }
    } else {
      var finished: string -> int := AtZero;
      LateReadIsTimely(delay);
      LateReadRepeats(delay, limit);
      assert Timely(finished, delay, 0, LateRead(delay));
    }
  }

  lemma RunIsDistinct(finished: string -> int, delay: nat, clock: int, polls: seq<Poll>, limit: Option<nat>)
    requires delay <= SLACK && Timely(finished, delay, clock, polls)
    ensures NothingTwice(Run(Start(clock), polls, limit).returned)
  {
    RunKeepsInv(finished, delay, Start(clock), polls, limit);
  }

  function AtZero(id: string): int { 0 }

  const ROW := Row("q", "h", None, None)

  /** A query that finishes at 0 is read at once, and once more as late as the look-back and the delay allow. */
  function LateRead(delay: nat): seq<Poll> {
    var last := (LOOK_BACK + 1) * SECOND - 1;
    [Poll(0, 0, [ROW]), Poll(last, last + delay, [ROW])]
  }

  lemma LateReadIsTimely(delay: nat)
    ensures Timely(AtZero, delay, 0, LateRead(delay))
  {
    var polls := LateRead(delay);
    assert polls[1..] == [polls[1]] && polls[1..][1..] == [];
    assert Timely(AtZero, delay, polls[1].now, []);
    assert Timely(AtZero, delay, polls[0].now, [polls[1]]);
  }

  lemma RowIsFresh(s: State, p: Poll, limit: Option<nat>)
    requires p.rows == [ROW] && "q" !in Purged(s.seen, p.now) && limit != Some(0)
    ensures var t := Step(s, p, limit);
      t.seen == Purged(s.seen, p.now)["q" := p.now] && t.returned == s.returned + [Return("q", p.now)]
  {
    var seen := Purged(s.seen, p.now)["q" := p.now];
    ScanRow(Purged(s.seen, p.now), p.rows, 0, p.now, limit);
    assert p.rows[0..] == p.rows && p.rows[1..] == [];
    ScanStops(seen, p.rows[1..], p.now, OneLess(limit));
    assert Returns([ROW], p.now) == [Return("q", p.now)];
  }

  lemma LateReadRepeats(delay: nat, limit: Option<nat>)
    requires delay > SLACK && limit != Some(0)
    ensures Run(Start(0), LateRead(delay), limit).returned
         == [Return("q", 0), Return("q", (LOOK_BACK + 1) * SECOND - 1 + delay)]
    ensures !NothingTwice(Run(Start(0), LateRead(delay), limit).returned)
  {
    hide Scan, Step;
    var polls, s := LateRead(delay), Start(0);
    RowIsFresh(s, polls[0], limit);
    var t := Step(s, polls[0], limit);
    RowIsFresh(t, polls[1], limit);
    assert polls[1..] == [polls[1]] && polls[1..][1..] == [];
    assert Run(s, polls, limit) == Run(t, polls[1..], limit) == Step(t, polls[1], limit);
    var returned := Run(s, polls, limit).returned;
    assert returned[0].id == returned[1].id;
  }

  lemma {:induction false} ReturnedStays(s: State, polls: seq<Poll>, limit: Option<nat>, id: string)
    requires IsReturned(s, id)
    ensures IsReturned(Run(s, polls, limit), id)
    decreases |polls|
  {
    if polls != [] {
      var t := Step(s, polls[0], limit);
      var i :| 0 <= i < |s.returned| && s.returned[i].id == id;
      assert t.returned[i].id == id;
      ReturnedStays(t, polls[1..], limit, id);
    }
  }

  /** The statistics return every query that some poll reads, however late, and by AtMostOnce only once. */
  lemma {:induction false} ReadMeansReturned(s: State, polls: seq<Poll>, k: nat, row: Row)
    requires forall id | id in s.seen :: IsReturned(s, id)
    requires k < |polls| && row in polls[k].rows && row.queryId != ""
    ensures IsReturned(Run(s, polls, None), row.queryId)
    decreases |polls|
  {
    var t := Step(s, polls[0], None);
    forall id | id in t.seen ensures IsReturned(t, id) { SeenWasReturned(s, polls[0], None, id); }
    if k == 0 {
      ScanRemembers(Purged(s.seen, polls[0].now), polls[0].rows, polls[0].now, None);
      assert row.queryId in t.seen;
      ReturnedStays(t, polls[1..], None, row.queryId);
    } else {
      ReadMeansReturned(t, polls[1..], k - 1, row);
    }
  }

  /** Nothing is made up: what is returned was read by some poll. */
  lemma {:induction false} ReturnedMeansRead(s: State, polls: seq<Poll>, limit: Option<nat>, id: string)
    requires IsReturned(Run(s, polls, limit), id) && !IsReturned(s, id)
    ensures exists k, row :: 0 <= k < |polls| && row in polls[k].rows && row.queryId == id
    decreases |polls|
  {
    var p, t := polls[0], Step(s, polls[0], limit);
    ScanTakes(Purged(s.seen, p.now), p.rows, p.now, limit);
    if IsReturned(t, id) {
      var i :| 0 <= i < |t.returned| && t.returned[i].id == id;
      assert forall j | 0 <= j < |s.returned| :: t.returned[j] == s.returned[j];
      var taken := Fresh(s.seen, p.rows, p.now, limit).1;
      assert taken[i - |s.returned|] in taken;
      assert taken[i - |s.returned|] in polls[0].rows;
    } else {
      ReturnedMeansRead(t, polls[1..], limit, id);
      var k, row :| 0 <= k < |polls[1..]| && row in polls[1..][k].rows && row.queryId == id;
      assert row in polls[k + 1].rows;
    }
  }

  // ---- Calls over a whole run ----------------------------------------------------------------------

  /** The calls in all entries of all polls. */
  ghost function AllCalls(s: State, polls: seq<Poll>): nat
    decreases |polls|
  {
    if polls == [] then 0 else
      SumCalls(ByHash(Fresh(s.seen, polls[0].rows, polls[0].now, None).1)) + AllCalls(Step(s, polls[0], None), polls[1..])
  }

  /** The queries with an id and a hash that some poll reads. */
  function ReadIds(polls: seq<Poll>): set<string>
    decreases |polls|
  {
    if polls == [] then {}
    else (set row | row in polls[0].rows && row.queryId != "" && row.hash != "" :: row.queryId) + ReadIds(polls[1..])
  }

  /** A query is in the log with one hash. */
  predicate HashesAgree(polls: seq<Poll>, hashOf: string -> string) {
    forall k, row | 0 <= k < |polls| && row in polls[k].rows :: row.hash == hashOf(row.queryId)
  }

  function HashedReturns(returned: seq<Return>, hashOf: string -> string): nat {
    if returned == [] then 0 else
      HashedReturns(returned[..|returned| - 1], hashOf) + if hashOf(returned[|returned| - 1].id) != "" then 1 else 0
  }

  lemma {:induction false} HashedReturnsSum(a: seq<Return>, b: seq<Return>, hashOf: string -> string)
    ensures HashedReturns(a + b, hashOf) == HashedReturns(a, hashOf) + HashedReturns(b, hashOf)
  {
    if b == [] {
      assert a + b == a;
    } else {
      assert (a + b)[..|a + b| - 1] == a + b[..|b| - 1];
      HashedReturnsSum(a, b[..|b| - 1], hashOf);
    }
  }

  lemma {:induction false} HashedOfTaken(taken: seq<Row>, now: int, hashOf: string -> string)
    requires forall row | row in taken :: row.hash == hashOf(row.queryId)
    ensures HashedReturns(Returns(taken, now), hashOf) == Hashed(taken)
  {
    if taken != [] {
      var n := |taken| - 1;
      assert Returns(taken, now)[..n] == Returns(taken[..n], now);
      assert taken[n] in taken;
      HashedOfTaken(taken[..n], now, hashOf);
    }
  }

  lemma {:induction false} CallsAreReturns(s: State, polls: seq<Poll>, hashOf: string -> string)
    requires HashesAgree(polls, hashOf)
    ensures HashedReturns(s.returned, hashOf) + AllCalls(s, polls) == HashedReturns(Run(s, polls, None).returned, hashOf)
    decreases |polls|
  {
    hide Fresh, HashedReturns, Hashed, SumCalls, ByHash, Returns;
    if polls != [] {
      var p := polls[0];
      var taken := Fresh(s.seen, p.rows, p.now, None).1;
      FreshAreRead(s, p);
      CallsAddUp(taken);
      HashedOfTaken(taken, p.now, hashOf);
      HashedReturnsSum(s.returned, Returns(taken, p.now), hashOf);
      CallsAreReturns(Step(s, p, None), polls[1..], hashOf);
    }
  }

  lemma FreshAreRead(s: State, p: Poll)
    ensures forall row | row in Fresh(s.seen, p.rows, p.now, None).1 :: row in p.rows
  {
    ScanTakes(Purged(s.seen, p.now), p.rows, p.now, None);
    var taken := Fresh(s.seen, p.rows, p.now, None).1;
    assert forall i | 0 <= i < |taken| :: taken[i] in taken;
  }

  lemma {:induction false} DistinctReturns(returned: seq<Return>, hashOf: string -> string, ids: set<string>)
    requires forall i, j | 0 <= i < j < |returned| :: returned[i].id != returned[j].id
    requires forall id :: id in ids <==> hashOf(id) != "" && exists i :: 0 <= i < |returned| && returned[i].id == id
    ensures HashedReturns(returned, hashOf) == |ids|
  {
    if returned == [] {
      assert ids == {};
    } else {
      var front, last := returned[..|returned| - 1], returned[|returned| - 1];
      var rest := ids - {last.id};
      forall id ensures id in rest <==> hashOf(id) != "" && exists i :: 0 <= i < |front| && front[i].id == id {
        if id in rest {
          var i :| 0 <= i < |returned| && returned[i].id == id;
          assert front[i].id == id;
        }
        if i :| 0 <= i < |front| && front[i].id == id { assert returned[i].id == id; }
      }
      DistinctReturns(front, hashOf, rest);
    }
  }

  lemma {:induction false} ReadIdsAreRead(polls: seq<Poll>, id: string)
    ensures id in ReadIds(polls) <==>
      exists k, row :: 0 <= k < |polls| && row in polls[k].rows && row.queryId == id && id != "" && row.hash != ""
    decreases |polls|
  {
    if polls != [] {
      ReadIdsAreRead(polls[1..], id);
      if k, row :| 0 <= k < |polls| && row in polls[k].rows && row.queryId == id && id != "" && row.hash != "" {
        if k > 0 { assert row in polls[1..][k - 1].rows; }
      }
      if k, row :| 0 <= k < |polls[1..]| && row in polls[1..][k].rows && row.queryId == id && id != "" && row.hash != "" {
        assert row in polls[k + 1].rows;
      }
    }
  }

  /** Over a whole run the statistics count every query with a hash once: the calls of all polls together are the
      number of distinct query ids with a hash that some poll reads, however often it is read. */
  lemma EachQueryIsOneCall(finished: string -> int, delay: nat, hashOf: string -> string, clock: int, polls: seq<Poll>)
    requires delay <= SLACK
    requires Timely(finished, delay, clock, polls) && HashesAgree(polls, hashOf)
    ensures AllCalls(Start(clock), polls) == |ReadIds(polls)|
  {
    hide Run, AllCalls, HashedReturns, ReadIds, Timely;
    var s, t := Start(clock), Run(Start(clock), polls, None);
    CallsAreReturns(s, polls, hashOf);
    NothingReturned(hashOf);
    RunKeepsInv(finished, delay, s, polls, None);
    forall id ensures id in ReadIds(polls) <==> hashOf(id) != "" && IsReturned(t, id) {
      ReadIdsAreRead(polls, id);
      if id in ReadIds(polls) {
        var k, row :| 0 <= k < |polls| && row in polls[k].rows && row.queryId == id && id != "" && row.hash != "";
        ReadMeansReturned(s, polls, k, row);
      }
      if hashOf(id) != "" && IsReturned(t, id) {
        ReturnedMeansRead(s, polls, None, id);
        ReturnedHaveIds(finished, t, id);
      }
    }
    DistinctReturns(t.returned, hashOf, ReadIds(polls));
  }

  lemma NothingReturned(hashOf: string -> string)
    ensures HashedReturns([], hashOf) == 0
  {
  }

  lemma ReturnedHaveIds(finished: string -> int, s: State, id: string)
    requires Inv(finished, s) && IsReturned(s, id)
    ensures id != ""
  {
  }
}
