# Verified model of the agent's hard cores

This project models the parts of the Telvyn agent whose correctness rests on a hidden invariant, and proves those
invariants. `dafny verify dfyconfig.toml` checks everything. There is one module per file, and one module per core
of the agent:

- **SQL text scanners.** `DollarMask` (PostgreSQL dollar quotes with ASCII tags), `SqlWords` (the whole-word search of
  the read-only validator) and `SqlMask` (the Python agent's literal masker) prove the scanners, loop by loop, against
  recursive definitions. The theorems are about those definitions: masking dollar quotes leaves no delimiter that the
  scanner knows and is idempotent, both masks are independent of what a literal they reach holds, the Python mask holds
  no quote outside backtick names, and the search finds every whole word although it skips overlapping matches.
  `SqlPieces` says what the Python masker does to statements written out piece by piece (literals, numbers, comments,
  parameters, names, plain characters) without the masker's own definitions.
  `PostgresLexis` sets the dollar-quote scanner against PostgreSQL's own lexical rules (sections 4.1.1, 4.1.2 and 4.1.5
  of the PostgreSQL manual) and says exactly on which texts the two agree.
- **Shared pools and leases.** `SharedPools` is the reference-counted registry behind the MySQL and PostgreSQL
  checks, with pools and shares as objects. `ConnectionLeases` is the transition system of any number of MySQL
  statistics and sample runs that compete for the pool's connections and for their checks' mutexes: it cannot
  deadlock and every schedule ends.
- **Machines driven by time.** `RateWindow`, `PlanCooldown`, `QueryLogDedup`, `CounterDelta` and `CircuitBreaker`
  are classes with the source's fields. Each method equals a step function on the old state, and the theorems are
  about all runs of these steps, with the history of grants, plans, returned queries, true calls or probes beside
  them. Times are nanoseconds given by the caller.
- **Profiler and request context.** `Profiler` (windows and CPU ticks), `ProfileReport` (what a window becomes) and
  `RequestContext` (which request a span and a thread belong to).
- **Encodings and arithmetic.** `CatalogFingerprint` (the bytes that are hashed), `CidrExpansion` (addresses counted
  up in place), `RttSummary` (round trips and their statistics, over exact reals) and `CpuList`.

`Text`, `Decimal`, `Options` and `Collections` hold what several modules share.

Places where the code does something other than its name, comment or test says; the model follows the code:

- `maskDollarQuotedStrings` knows only tags in ASCII, while PostgreSQL allows the letters of an identifier. A literal
  such as `$é$ x$é$` is passed on, body and delimiters (`UnseenLiteralIsKept`, `AccentedTagIsKept`); which texts still
  hold a delimiter after masking is stated exactly (`WhatMaskingLeaves`), and ASCII texts do not (`AsciiIsMasked`). The
  pattern in `sql_mask` has the same limit.
- It also takes `$$` inside a quoted string, an identifier or a comment for an opening delimiter, which shifts the
  pairing: of `'$$', $$body$$` it leaves `'?body?` (`QuotedDollarsShowTheBody`). It masks PostgreSQL's dollar-quoted
  literals and nothing else if and only if their tags are ASCII and nothing else in the text holds a delimiter of that
  form (`ScannerMasksTheLiterals`).
- `sql_mask` takes a backslash in quotes for an escape in every dialect. Where it is an ordinary character, as in SQLite
  and in PostgreSQL's standard strings, a literal without a backslash is read the same way, and in general one in which
  no quote stands behind a backslash (`StandardLiteralsAreLiterals`). Otherwise the mask can show what follows: of
  `'\', 'text'` it makes `?text?` (`BackslashShowsTheNext`).
- `sql_mask` asks `str.isdigit` where a number starts and a pattern in ASCII where it ends. A digit of another script that
  stands where a number may start is dropped without a trace (`Dropped` in `SqlPieces`).
- The query-log cache keeps an id for 6 minutes and the log is read 5 minutes back. The slack between the two is 59
  seconds and one nanosecond: read later than that after its query, a row is returned twice (`DelayDecides`). The
  10-second time-out keeps well below.
- The "hourly" limit of `allowPostgresRate` (the test's word for it) is a limit per fixed window. Over an arbitrary
  hour the sharp bound is `2 * limit - 1` grants, and a run that reaches it exists for every limit, so the limit is
  an hourly one if and only if it is 1 (`HourlyLimitMeansOne`).
- `expandCIDRs` says it leaves out the network and the broadcast address. It leaves out last bytes 0 and 255, which
  is the same thing exactly for a /24 (`SkipsNetworkAndBroadcast`).
- `allowPlan` forgets a plan after an hour in the MySQL check and after more than an hour in the ClickHouse check;
  both keep their promise (`PlanCooldown`).
- A search word that overlaps itself at a word boundary can be missed by `containsSQLWord`; the words it is used for
  cannot (`SearchIsExactForWords`).
- A thread's request is its only open SERVER span as long as no SERVER span starts past one of two limits
  (`LinkIsExactBelowTheLimits`). When 256 requests are open on one thread, as on the thread of an event loop, the next
  one is not on the thread's list, and the thread is left without a request once the others have ended
  (`FullListHidesTheRequest`). When 65536 spans are tracked, the next request stays on its thread's list after its end
  (`FullTableLeavesStaleLink`).
- When a SERVER span ends, the spans below it lose their request unless a nested SERVER span encloses them, which
  keeps its own (`EndTakesItsOwnSpans`, `NestedServerKeepsItsRequest`).
- The circuit breaker keeps probes a cooldown apart as long as no failure is stored with a time before the last
  probe's; a failure dated earlier breaks the spacing (`FailureTimeDecidesSpacing`).
- `RunQueryStats` takes the counters of a snapshot as one per query id and user. The query does not group by them, and
  rows of one key that hold different counts make it emit calls that never happened; a snapshot is safe exactly when all
  its rows of the key hold one count (`RereadingEmitsNothing`).
- The fingerprint prints a role list and an enum's values with spaces between them, so it cannot tell `a b` from
  `a`, `b`; which catalogs share their bytes is stated exactly (`SameBytesMeansSamePrint`), and so is which lists are
  told apart from all others (`SpacesHideTheSplit`). Of its two separators only the one between fields, 0x1f, must stay
  out of the texts (`SeparatorsMoveBorders`); 0x1e in a text does no harm.

## Model

| member | source | states |
|---|---|---|
| Text.IndexIsFirst | internal/checks/postgres_queries.go:766 | the search used by every scanner returns the first occurrence, and -1 exactly when there is none |
| DollarMask.TagEnd | internal/checks/postgres_queries.go:751-757 | the inner loop stops at the first character that cannot be in a tag |
| DollarMask.MaskDollarQuotedStrings | internal/checks/postgres_queries.go:739-774 | the index-driven scanner computes the recursive mask that the theorems below are about, and terminates |
| DollarMask.DelimiterLengthIsExact | internal/checks/postgres_queries.go:748-765 | the scan sees a delimiter of length k exactly where one with an ASCII tag stands |
| DollarMask.MaskIsDelimiterFree | internal/checks/postgres_queries.go:739-774 | for every input, no dollar-quote delimiter with an ASCII tag occurs anywhere in the output |
| DollarMask.FixedPointsOfMask | internal/checks/postgres_queries.go:739-774 | a text is left unchanged if and only if it holds no delimiter with an ASCII tag |
| DollarMask.MaskIsIdempotent | internal/checks/postgres_queries.go:739-774 | masking a masked text changes nothing |
| DollarMask.StepIsLocal | internal/checks/postgres_queries.go:744-771 | a scan step that ends before a character that is no tag character does not depend on what follows it |
| DollarMask.MaskOfLiteral | internal/checks/postgres_queries.go:765-771 | a literal reached by the scan becomes one `?` and the rest is masked on its own |
| DollarMask.MaskHidesTheBody | internal/checks/postgres_queries.go:739-774 | two texts that differ only in the body of a literal the scan reaches have the same mask, if neither body brings the close forward |
| DollarMask.UnclosedLiteralIsMaskedToTheEnd | internal/checks/postgres_queries.go:765-770 | a literal that is never closed hides everything to the end of the text |
| PostgresLexis.ScannerKnowsAscii | internal/checks/postgres_queries.go:776-782 | the delimiters the scanner knows are PostgreSQL's with ASCII tags |
| PostgresLexis.MasksExactlyAsciiTags | internal/checks/postgres_queries.go:735-774 | for every delimiter of PostgreSQL: all literals between two of it are masked if and only if it is ASCII |
| PostgresLexis.UnseenLiteralIsKept | internal/checks/postgres_queries.go:748-754 | a literal whose tag starts with a letter beyond ASCII is passed on whole, for every body without a dollar sign that does not start like a tag |
| PostgresLexis.AccentedTagIsKept | internal/checks/postgres_queries.go:748-754 | one such literal, `$é$ x$é$` |
| PostgresLexis.WhatMaskingLeaves | internal/checks/postgres_queries.go:739-774 | the mask still holds a delimiter of PostgreSQL if and only if the scan comes by one with a tag beyond ASCII whose last dollar sign opens none that it knows |
| PostgresLexis.AsciiIsMasked | internal/checks/postgres_queries.go:739-774 | masking an ASCII text leaves no delimiter of PostgreSQL |
| PostgresLexis.DollarLengthIsExact | internal/checks/postgres_queries.go:735-738 | the reference reading of a delimiter agrees with PostgreSQL's definition |
| PostgresLexis.ScannerMasksTheLiterals | internal/checks/postgres_queries.go:735-774 | for every text: the mask replaces PostgreSQL's dollar-quoted literals and nothing else if and only if their tags are ASCII and no quoted string, identifier, comment or other element holds what the scanner takes for a delimiter |
| PostgresLexis.QuotedDollarsShowTheBody | internal/checks/postgres_queries.go:765-771 | after `'$$'` the body of the next dollar-quoted literal is written, for every body without a dollar sign |
| PostgresLexis.QuotedDollarsMasked | internal/checks/postgres_queries.go:735-738 | the same text with PostgreSQL's literals masked, for comparison |
| SqlWords.ContainsSqlWord | internal/checks/postgres_custom.go:293-311 | on every input on which the loop ends it answers as the recursive search that resumes after each rejected match, and true for the empty word |
| SqlWords.EmptyWordStandsStill | internal/checks/postgres_custom.go:294-309 | the empty word is accepted at the start exactly when the query does not start with a word character; otherwise the search stands still |
| SqlWords.SearchIsSound | internal/checks/postgres_custom.go:293-311 | a positive answer means a whole-word occurrence exists |
| SqlWords.OverlapIsMissed | internal/checks/postgres_custom.go:293-311 | for a word that overlaps itself at a word boundary, a concrete query with a whole-word occurrence is answered wrongly |
| SqlWords.SearchIsExactForWords | internal/checks/postgres_custom.go:293-315 | the search answers every query rightly if and only if the word does not overlap itself at a word boundary |
| SqlWords.SearchIsExactForKeywords | internal/checks/postgres_custom.go:268-315 | for every non-empty word of ASCII letters, digits and underscores, given by their codes, the answer is true if and only if the word stands somewhere with none of these on either side |
| SqlMask.BlockCommentEnd | telvyn-python-agent/telvyn_privacy.py:15-24 | the nested-comment loop stops where the comment of its depth closes, or at the end |
| SqlMask.QuotedEnd | telvyn-python-agent/telvyn_privacy.py:27-53 | the quoted-run loops, with escapes and doubled quotes, find the closing quote or the end |
| SqlMask.ReadToken | telvyn-python-agent/telvyn_privacy.py:9-77 | one pass of the main loop reads the token that the grammar of tokens gives at that position, given the character before it |
| SqlMask.SqlMask | telvyn-python-agent/telvyn_privacy.py:5-78 | the single-pass masker refines the token-by-token specification and terminates on every statement |
| SqlMask.TokenIsLocal | telvyn-python-agent/telvyn_privacy.py:10-77 | a token that ends before a quote does not depend on what stands after that quote, for all its lookahead |
| SqlMask.ScanOfLiteral | telvyn-python-agent/telvyn_privacy.py:26-53 | a complete literal at top level becomes one `?` and the scan goes on behind it |
| SqlMask.MaskHidesTheLiteral | telvyn-python-agent/telvyn_privacy.py:5-78 | two statements within the size limit that differ only in one complete quoted literal at top level have the same mask |
| SqlMask.UnclosedLiteralIsMaskedToTheEnd | telvyn-python-agent/telvyn_privacy.py:26-53 | a literal or backtick name that is never closed hides everything to the end |
| SqlMask.SameReading | telvyn-python-agent/telvyn_privacy.py:27-53 | a quoted run ends at the same place with and without escapes if and only if no quote in it stands behind an unescaped backslash |
| SqlMask.StandardLiteralsAreLiterals | telvyn-python-agent/telvyn_privacy.py:26-53 | a literal of a dialect without escapes is one for the masker exactly when it holds no such quote, and always when it holds no backslash |
| SqlMask.BackslashShowsTheNext | telvyn-python-agent/telvyn_privacy.py:29-38 | in such a dialect the text of a literal after `'\', ` is written, for every text of characters that the scan keeps |
| SqlMask.MaskLeavesNoQuotes | telvyn-python-agent/telvyn_privacy.py:5-78 | the mask of a statement without backticks holds no single and no double quote |
| SqlPieces.NumberIsRead | telvyn-python-agent/telvyn_privacy.py:69 | every number written out, `0x1F`, `0b01`, `12`, `12.`, `12.5`, `.5`, with or without an exponent, is read to its end and no further |
| SqlPieces.ScanOfNumber | telvyn-python-agent/telvyn_privacy.py:67-72 | such a number, where the character before it is no letter, digit, `_`, `$` or `:`, becomes one `?` and the scan goes on behind it |
| SqlPieces.MaskHidesTheNumber | telvyn-python-agent/telvyn_privacy.py:5-78 | two statements within 32768 characters that differ only in such a number have the same mask, if what follows opens no number or both end in a point or neither does |
| SqlPieces.ScanOfPieces | telvyn-python-agent/telvyn_privacy.py:9-77 | a statement written out in pieces: every literal, number and dollar quote becomes `?`, every comment a space, quoted names, parameters and all other characters stay, for any sequence of pieces that do not run into each other |
| SqlPieces.StripIsJoin | telvyn-python-agent/telvyn_privacy.py:78 | collapsing and stripping leave the words of the text with one space between them and nothing around them |
| SqlPieces.MaskOfPieces | telvyn-python-agent/telvyn_privacy.py:5-78 | the whole of `sql_mask` on such a statement: its mask's words with one space between them, or the fixed text above 32768 characters |
| SharedPools.Registry.constructor | internal/checks/mysql_pool.go:22-30 | a new registry has no key, no pool and no share |
| SharedPools.Registry.Acquire | internal/checks/mysql_pool.go:32-56 | reuses the pool under the key or opens one, adds one reference and hands out a new share; when opening fails nothing changes |
| SharedPools.Registry.Close | internal/checks/mysql_pool.go:113-125 | the first close takes one reference, the last one closes the pool and clears its key; a repeated close changes nothing |
| SharedPools.AcquireKeepsInv | internal/checks/postgres_pool.go:25-39 | handing out a share keeps every count equal to the number of unclosed shares and every open pool under one key |
| SharedPools.CloseKeepsInv | internal/checks/postgres_pool.go:58-68 | so does closing a share |
| SharedPools.EveryRunKeepsInv | internal/checks/mysql_pool.go:22-56 | the invariant holds after every run of acquires and closes, failed and repeated ones included |
| SharedPools.RegistryIsSafe | internal/checks/mysql_pool.go:32-56 | in every reachable state a live share's pool is open, an open pool stands under exactly one key, and with no live share nothing is open or registered |
| SharedPools.CloseLeavesOthersAlone | internal/checks/mysql_pool.go:113-125 | a close, late or repeated, never takes a pool, a key or a reference from another live share |
| ConnectionLeases.StepKeepsInv | internal/checks/mysql_queries.go:111-243 | every step, errors and time-outs included, leases no more connections than the pool has and lets at most one run into a check's mutex |
| ConnectionLeases.WaitersForALeaseHoldNothing | internal/checks/mysql_queries.go:153-208 | whoever waits for a connection holds neither a connection nor the mutex, and whoever is in the mutex waits for nothing; that this order is needed is the next row |
| ConnectionLeases.EagerExplainDeadlocks | internal/checks/mysql_queries.go:167-206 | if the EXPLAIN asked for its connection before the rows close, two runs on the two connections would reach a state from the start in which both are unfinished and neither can step |
| ConnectionLeases.SomeRunCanAdvance | internal/checks/mysql_pool.go:66-152 | no deadlock: in every reachable state with an unfinished run some run can take a step that needs no time-out and no error |
| ConnectionLeases.StepDecreases | internal/checks/mysql_queries.go:111-243 | every step lowers the work that is left |
| ConnectionLeases.EveryScheduleFinishes | internal/checks/mysql_queries.go:111-243 | every schedule is shorter than a bound known at its start, and one that cannot go on has finished every run and returned every connection |
| RateWindow.RateLimiter.AllowPostgresRate | internal/checks/postgres_queries.go:554-575 | the sweep loop and the window update are one step on the old map |
| RateWindow.HourlyBoundHolds | internal/checks/postgres_queries.go:554-575 | after every run with non-decreasing times, a key has at most 2 * limit - 1 grants in any half-open hour and the map at most 5000 keys |
| RateWindow.HourlyBoundIsMet | internal/checks/postgres_queries.go:554-575 | for every limit some run reaches 2 * limit - 1 grants within one hour, so the bound cannot be lowered |
| RateWindow.HourlyLimitMeansOne | internal/checks/postgres_queries.go:554-575 | every run keeps to the limit in every hour if and only if the limit is 1 |
| RateWindow.UnexpiredWindowsStay | internal/checks/postgres_queries.go:556-566 | eviction never forgets an unexpired window, and no call but a granted one for its key changes it |
| RateWindow.RefusalMeansLimitOrFull | internal/checks/postgres_queries.go:554-575 | a call is refused if and only if its unexpired window is used up, or its key is new and the map is full of unexpired windows |
| PlanCooldown.PlanBudget.AllowPlan | internal/checks/mysql_queries.go:210-229 | the spacing test, the sweep and the budget are one step on the old map, for both engines |
| PlanCooldown.RunKeepsInv | internal/checks/clickhouse_queries.go:206-226 | after every run each plan of the last hour is remembered with its time |
| PlanCooldown.PlansAreSpaced | internal/checks/clickhouse_queries.go:206-226 | plans of one digest are at least 15 minutes apart and at most 60 digests have a plan in the last hour |
| PlanCooldown.PlanIsGranted | internal/checks/mysql_queries.go:210-229 | after every run and for both engines: a call is granted if and only if its digest is not empty, no plan of it was granted less than 15 minutes ago, and fewer than 60 digests have a grant that still counts, less than an hour old for MySQL and at most an hour for ClickHouse |
| QueryLogDedup.ClickHouseQueries.FreshRows | internal/checks/clickhouse_queries.go:92-121 | the sweep and the row loop are one step on the cache of statistics or samples, and leave the other cache alone |
| QueryLogDedup.ClickHouseQueries.Aggregate | internal/checks/clickhouse_queries.go:129-150 | the entry of every hash holds the number of its rows and the sums of their durations and results |
| QueryLogDedup.CallsAddUp | internal/checks/clickhouse_queries.go:129-150 | the calls of all entries together are the number of rows with a hash |
| QueryLogDedup.TimesAndResultsAddUp | internal/checks/clickhouse_queries.go:129-150 | so do their durations and result rows: all entries together hold exactly those of the rows with a hash |
| QueryLogDedup.SamplesAreTheFirst | internal/checks/clickhouse_queries.go:92-121 | the samples are the first of the rows the statistics would take, as many as the sample limit allows and never more |
| QueryLogDedup.RunKeepsInv | internal/checks/clickhouse_queries.go:92-121 | after every run with reads at most 59 s + 1 ns late each returned query is still remembered or too old to be read again |
| QueryLogDedup.AtMostOnce | internal/checks/clickhouse_queries.go:17-23 | no query id is returned twice in a whole run: the 6-minute memory outlives the 5-minute look-back and the 10-second read |
| QueryLogDedup.DelayDecides | internal/checks/clickhouse_queries.go:17-105 | for every read delay: no run with reads that late returns an id twice if and only if the delay is at most 59 s + 1 ns |
| QueryLogDedup.ReadMeansReturned | internal/checks/clickhouse_queries.go:92-121 | the statistics return every query id that some poll reads, however late |
| QueryLogDedup.ReturnedMeansRead | internal/checks/clickhouse_queries.go:92-121 | nothing is returned that no poll read |
| QueryLogDedup.EachQueryIsOneCall | internal/checks/clickhouse_queries.go:92-150 | over a whole run with reads at most 59 s + 1 ns late the calls of all entries of all polls are the number of distinct query ids with a hash that some poll reads, however often each is read |
| CounterDelta.PostgresQueries.RunQueryStats | internal/checks/postgres_queries.go:438-466 | the row loop stores the last counter of every key and emits the windows that the specification gives |
| CounterDelta.KeyTellsRowsApart | internal/checks/postgres_queries.go:443 | rows share a key exactly when they share query and user, as query ids hold no NUL |
| CounterDelta.SnapshotsChain | internal/checks/postgres_queries.go:438-466 | two snapshots in a row do what one call on both would |
| CounterDelta.SnapshotsAreOneRun | internal/checks/postgres_queries.go:438-466 | a run of calls, one per snapshot, emits what one call on all rows together would |
| CounterDelta.SeenIsObserved | internal/checks/postgres_queries.go:438-466 | when the rows of a key hold its true counter, the values seen for it are that counter row by row, and the readings behind them are truthful across snapshots that miss the key |
| CounterDelta.EngineEmitsDeltas | internal/checks/postgres_queries.go:438-466 | for each key the emitted calls are the deltas of its own observed counters, whatever rows and gaps lie between |
| CounterDelta.CallsAreEmittedOrLost | internal/checks/postgres_queries.go:699-704 | with arbitrary resets, emitted calls and calls hidden by resets add up to the true calls since the baseline |
| CounterDelta.EmittedNeverExceedsTruth | internal/checks/postgres_queries.go:438-466 | for every run of snapshots whose rows of a key hold its true counter, missing from any of them: the emitted calls never exceed the true calls between the first and the last snapshot that show the key, and equal them if and only if no reset hid any |
| CounterDelta.RereadingEmitsNothing | internal/checks/postgres_queries.go:438-466 | any snapshot, read any number of times with no call in between, emits no call of a key if and only if all its counting rows of that key hold one count |
| CounterDelta.DuplicateRowsInventCalls | internal/checks/postgres_queries.go:438-466 | how many calls two rows of one key, read twice, make out of none: 105 for counts of 100 and 5 |
| CounterDelta.WithoutResetDeltasTelescope | internal/checks/postgres_queries.go:699-704 | without a reset the emitted calls are the last observed value minus the first |
| CounterDelta.WindowsTell | internal/checks/postgres_queries.go:443-463 | for any counters kept from before and any rows: the windows of a key tell, reading after reading, what calls, time and rows did in between, with the mean times the calls equal to the time |
| CounterDelta.TwoSnapshots | internal/checks/postgres_queries.go:438-466 | two snapshots with one row each of a statement and user: exactly one window if the calls moved, with the growth of every counter that has not fallen and the new value of one that has |
| CounterDelta.WithoutResetWindowsAddUp | internal/checks/postgres_queries.go:438-466 | over every run of snapshots in which a key's calls rise and its time and rows do not fall, the emitted times and rows add up to last minus first |
| CounterDelta.SkippedRowsDoNotMatter | internal/checks/postgres_queries.go:439-441 | a row without id or calls changes neither the counters nor the windows, wherever it stands |
| CircuitBreaker.Breaker.constructor | internal/checks/circuit_breaker.go:22-28 | the cooldown is the interval but at least a minute, and the breaker starts closed |
| CircuitBreaker.Breaker.Allow | internal/checks/circuit_breaker.go:31-40 | uncontended, a run is admitted if and only if the breaker is closed or the cooldown is over, and a probe starts a new cooldown |
| CircuitBreaker.Breaker.Failure | internal/checks/circuit_breaker.go:43-46 | dates the last attempt and counts one more error, wrapping at 32 bits |
| CircuitBreaker.Breaker.Success | internal/checks/circuit_breaker.go:49-51 | clears the errors and tells whether the breaker was open |
| CircuitBreaker.HistoryDecides | internal/checks/circuit_breaker.go:29-51 | after any calls one after the other: a run is admitted if and only if fewer failures than the threshold, counted in 32 bits, have come since the last success, or the last failure or probe is at least a cooldown ago |
| CircuitBreaker.RunKeepsInv | internal/checks/circuit_breaker.go:31-51 | under every interleaving of the atomic loads, stores and compare-and-swaps in which no failure is dated before the last probe, the last attempt is never before a probe and a caller about to swap has waited out its cooldown |
| CircuitBreaker.ProbesAreSpaced | internal/checks/circuit_breaker.go:31-40 | in every such run probes are pairwise at least the cooldown apart, and callers that read the same last attempt yield at most one |
| CircuitBreaker.UncontendedCallIsAdmitted | internal/checks/circuit_breaker.go:31-40 | a call alone on an open breaker after the cooldown always ends in a probe |
| CircuitBreaker.FailureTimeDecidesSpacing | internal/checks/circuit_breaker.go:31-46 | after every such run that leaves a probe behind and the breaker open, whoever else is in the middle of a call: some uncontended call after a failure stored at a time is admitted too soon if and only if that time is before the last probe |
| CircuitBreaker.BackdatedFailureBreaksSpacing | internal/checks/circuit_breaker.go:31-46 | for every threshold, a run from the start in which a failure dated 0 lets a second probe follow at the time of the first |
| Profiler.Profiler.Add | telvyn-python-agent/telvyn_profiler.py:107-114 | a weight is added to its key when the stack is kept and the window has or admits the key, and nothing else changes |
| Profiler.Profiler.Flush | telvyn-python-agent/telvyn_profiler.py:191-195 | hands out the current window unchanged and starts an empty one |
| Profiler.Profiler.CpuTick | telvyn-python-agent/telvyn_profiler.py:116-133 | remembers exactly this tick's readings and adds one sample for each due thread, in order |
| Profiler.WeightIsConserved | telvyn-python-agent/telvyn_profiler.py:107-114 | after every run the accepted weight of a key is the sum over the closed windows and the current one |
| Profiler.WindowHoldsItsAdds | telvyn-python-agent/telvyn_profiler.py:191-195 | the current window holds exactly what was accepted since the last flush |
| Profiler.ClosedWindowsAreFinal | telvyn-python-agent/telvyn_profiler.py:191-195 | a closed window never changes |
| Profiler.WindowsAreBounded | telvyn-python-agent/telvyn_profiler.py:108-114 | every window has at most 4096 keys of a kind and no empty or oversized stack |
| Profiler.NothingIsDropped | telvyn-python-agent/telvyn_profiler.py:108-114 | a window accepts every weight with a keepable stack if and only if it is brought at most 4096 different keys of the kind |
| Profiler.TickIsAdds | telvyn-python-agent/telvyn_profiler.py:116-133 | a tick does what a run of single additions does, so conservation covers it |
| Profiler.SamplesAreOfTheirThreads | telvyn-python-agent/telvyn_profiler.py:116-133 | each thread due adds one to its own frame's stack and lines in its own context, in order, and no other thread adds anything |
| Profiler.ReadingsAreKept | telvyn-python-agent/telvyn_profiler.py:117-134 | what a tick remembers is the reading of every watched thread that could be read, and no other |
| Profiler.AtMostOneSample | telvyn-python-agent/telvyn_profiler.py:127-132 | a tick samples a thread at most once, and exactly when it was read before, has a frame and used half a period |
| Profiler.SamplesWithinGrowth | telvyn-python-agent/telvyn_profiler.py:116-133 | whatever the readings do, samples times half a period stay within the growth seen between consecutive ticks |
| Profiler.SamplesWithinCpuTime | telvyn-python-agent/telvyn_profiler.py:116-133 | for non-decreasing readings they stay within last minus first reading, through disappearances of the thread |
| ProfileReport.Emit | telvyn-python-agent/telvyn_profiler.py:153-189 | the report holds exactly the kept samples as origins, each with its own stack, lines and weight, their weights folded by stack, and the first links that fit, each with the trace, span and admissible endpoint of its context; None when nothing is kept |
| ProfileReport.EmitLinks | telvyn-python-agent/telvyn_profiler.py:177-188 | the links shown are the longest prefix within 128 links and 200000 characters |
| ProfileReport.LinkStep | telvyn-python-agent/telvyn_profiler.py:166-167 | one more sample keeps the table of links equal to the weights by context and stack |
| ProfileReport.ReportIsConsistent | telvyn-python-agent/telvyn_profiler.py:153-189 | each folded stack is the sum of its origins, the links never sum to more, and the limits on origins, size and links hold |
| ProfileReport.NothingIsOmitted | telvyn-python-agent/telvyn_profiler.py:156-167 | a window of at most 4096 keys is reported whole if and only if its positive samples fit the size limit |
| ProfileReport.OmittedDoesNotFit | telvyn-python-agent/telvyn_profiler.py:156-163 | a sample is left out if and only if it has no weight, 4096 are kept before it, or its printed form does not fit into 250000 behind theirs; it stops none after it |
| ProfileReport.LinkHoldsItsSamples | telvyn-python-agent/telvyn_profiler.py:166-185 | a link's weight of a stack is that of its context's samples alone |
| ProfileReport.WindowIsReported | telvyn-python-agent/telvyn_profiler.py:107-198 | from additions to the report: a gathered window holds what was accepted since the last flush, and its report folds the window's whole positive weight of every stack, whatever the dictionary's order, if and only if the samples fit the size limit, and never more |
| RequestContext.Requests.OnStart | telvyn-python-agent/telvyn_context.py:25-36 | the new state of spans, thread lists and active requests, as a function of the old one |
| RequestContext.Requests.OnEnd | telvyn-python-agent/telvyn_context.py:38-48 | removes the span; a SERVER span's request becomes inactive and leaves its thread's list, which goes when empty |
| RequestContext.Requests.CurrentRequest | telvyn-python-agent/telvyn_context.py:50-53 | the span's request while that is active |
| RequestContext.Requests.OfThread | telvyn-python-agent/telvyn_context.py:55-65 | the one request on the thread's list, or none |
| RequestContext.RunsAreSound | telvyn-python-agent/telvyn_context.py:25-48 | at any load, every entry leads to the span's nearest enclosing request and only known requests are active |
| RequestContext.NoEmptyList | telvyn-python-agent/telvyn_context.py:25-48 | no run stores an empty list for a thread |
| RequestContext.EndTakesItsOwnSpans | telvyn-python-agent/telvyn_context.py:38-53 | the end of a SERVER span, whether it is in the table or not, takes the current request from exactly the spans whose nearest enclosing request it is and leaves every other span's unchanged |
| RequestContext.NoRequestAfterItsEnd | telvyn-python-agent/telvyn_context.py:38-53 | after the end of a SERVER span no span whose nearest enclosing SERVER span it is, started before or after, in the table or refused by it, ever has a current request again |
| RequestContext.NestedServerKeepsItsRequest | telvyn-python-agent/telvyn_context.py:25-53 | a SERVER span nested in an ended one keeps its own request |
| RequestContext.ThreadContextIsTheOnlyOpen | telvyn-python-agent/telvyn_context.py:55-65 | below the limits, a thread's request is r if and only if r is the only open SERVER span started on it |
| RequestContext.TableInEveryRun | telvyn-python-agent/telvyn_context.py:25-48 | in every run at any load the table holds exactly the tracked spans: those of SERVER kind or started under a tracked span of an open request, while fewer than 65536 were tracked, until they end |
| RequestContext.CurrentIsTheEnclosing | telvyn-python-agent/telvyn_context.py:25-53 | in every run at any load a span has request r if and only if it is tracked, r is its nearest enclosing request and r is open |
| RequestContext.OpenRequestIsCurrent | telvyn-python-agent/telvyn_context.py:50-53 | below the limits the span of an open request has that request |
| RequestContext.ExactBelowCaps | telvyn-python-agent/telvyn_context.py:31-36 | from any state in which table and reference agree, the start of a SERVER span keeps them in agreement if and only if it meets neither limit |
| RequestContext.FullListHidesTheRequest | telvyn-python-agent/telvyn_context.py:32-34 | a SERVER span that starts with 256 requests on its thread's list: once these end the thread has no request although the new one is its only open one |
| RequestContext.FullTableLeavesStaleLink | telvyn-python-agent/telvyn_context.py:35-48 | a SERVER span that starts with 65536 spans tracked: once all requests of its thread have ended, the thread still has the new one |
| RequestContext.LinkIsExactBelowTheLimits | telvyn-python-agent/telvyn_context.py:25-65 | the start of a SERVER span keeps every thread's request the only open one, through every later run that meets no limit, if and only if it meets neither limit itself |
| RequestContext.LimitsAreReached | telvyn-python-agent/telvyn_context.py:25-36 | any requests with distinct spans, up to 256 on a thread and 65536 in all, are open together after some run below the limits, so both limits are met |
| CatalogFingerprint.Write | internal/checks/postgres_catalog.go:431-436 | one record is each printed value and a unit separator, then a record separator |
| CatalogFingerprint.RecordsAreLines | internal/checks/postgres_catalog.go:431-475 | the bytes of each kind of record: its tag and fields in the order of the source, each closed by 0x1f, then 0x1e |
| CatalogFingerprint.WriteCatalog | internal/checks/postgres_catalog.go:429-477 | the nested loops write the bytes of the catalog's items in order |
| CatalogFingerprint.RecordReadsBack | internal/checks/postgres_catalog.go:431-436 | from a text that starts with a record its printed fields and the rest can be read back, when the number of fields is known or no field holds the record separator |
| CatalogFingerprint.SameStartSameFields | internal/checks/postgres_catalog.go:431-475 | the tag at the start of a text tells how many fields the record has, whatever the fields hold |
| CatalogFingerprint.ItemsReadBack | internal/checks/postgres_catalog.go:429-477 | equal bytes mean equal items, one by one |
| CatalogFingerprint.TablesAreInjective | internal/checks/postgres_catalog.go:437-448 | the items determine the tables with their columns, indexes and constraints |
| CatalogFingerprint.ItemsAreInjective | internal/checks/postgres_catalog.go:437-475 | the items determine the whole catalog, section by section |
| CatalogFingerprint.SameBytesMeansSamePrint | internal/checks/postgres_catalog.go:429-477 | for catalogs without 0x1f in their texts: equal bytes if and only if they agree on all but the splitting of the printed lists |
| CatalogFingerprint.PreimageIsInjective | internal/checks/postgres_catalog.go:429-477 | when also no list item is empty or holds a space, equal bytes if and only if the catalogs are equal |
| CatalogFingerprint.SpacesHideTheSplit | internal/checks/postgres_catalog.go:473-475 | for every list of values, some other list gives an enum with the same bytes if and only if the list is not one single non-empty word without a space |
| CatalogFingerprint.SeparatorsMoveBorders | internal/checks/postgres_catalog.go:455-457 | for every name and version, some other catalog, of any shape and texts, has the bytes of that extension if and only if one of the two texts holds 0x1f |
| CidrExpansion.IncIP | internal/checks/icmp_scan.go:239-246 | the slice becomes the next address, carrying in place from the last byte |
| CidrExpansion.IncAddsOne | internal/checks/icmp_scan.go:239-246 | that is adding one modulo 2^(8n) |
| CidrExpansion.MaskRoundsDown | internal/checks/icmp_scan.go:222 | masking bytes rounds the address down to a multiple of the block size |
| CidrExpansion.ContainsIsBlock | internal/checks/icmp_scan.go:223 | a prefix contains exactly the addresses of its block |
| CidrExpansion.InsideUntilDone | internal/checks/icmp_scan.go:223-235 | the loop leaves a block exactly at its end, also at the top of the address space, and for /0 the limit is reached first |
| CidrExpansion.ExpandCIDRs | internal/checks/icmp_scan.go:214-237 | the loops terminate with the result of the block-by-block specification, errors included |
| CidrExpansion.BlockIsExact | internal/checks/icmp_scan.go:223-230 | a prefix gives exactly its addresses without the skipped ones, each once, in ascending order |
| CidrExpansion.ExpandIsExact | internal/checks/icmp_scan.go:214-237 | success if and only if everything parses and the blocks hold at most 4096 addresses, and then the result is the blocks; otherwise which error and why |
| CidrExpansion.OnePrefixLimit | internal/checks/icmp_scan.go:215-233 | one prefix is accepted if and only if at most 12 bits are left to the hosts |
| CidrExpansion.HostsPerGroup | internal/checks/icmp_scan.go:211-213 | a /24 or shorter gives 254 addresses for every 256 |
| CidrExpansion.SkipsNetworkAndBroadcast | internal/checks/icmp_scan.go:224-229 | for IPv4 below /31, what is skipped is exactly the network and broadcast address if and only if the prefix is a /24 |
| RttSummary.RttTracker.OnSend | internal/checks/icmp_rtt.go:43-47 | the send's time is kept under its sequence number |
| RttSummary.RttTracker.OnRecv | internal/checks/icmp_rtt.go:49-62 | the send is used up and a non-negative round trip is appended; an unknown number changes nothing |
| RttSummary.AnswersPairUp | internal/checks/icmp_rtt.go:43-62 | a send is answered by at most one receipt and a receipt answers at most one send |
| RttSummary.PairsAreRoundTrips | internal/checks/icmp_rtt.go:49-62 | each pair of the reference is an answered send whose receipt is not before it |
| RttSummary.RoundTripsArePairs | internal/checks/icmp_rtt.go:49-62 | and no such answered send is missing from it |
| RttSummary.TrackerIsExact | internal/checks/icmp_rtt.go:43-62 | over every run, whatever the clock does, the tracker's times are those of the answered sends in order of receipt: each time is the difference of its pair and not negative, no send has two, none is missing |
| RttSummary.EachSendCountsOnce | internal/checks/icmp_rtt.go:43-62 | outstanding sends and round trips together never exceed the sends |
| RttSummary.SummarizeRTTs | internal/checks/icmp_rtt.go:78-102 | the two loops give the minimum, the maximum, the truncated mean and the truncated root of the population variance |
| RttSummary.VarianceBound | internal/checks/icmp_rtt.go:96-102 | the variance is at most (max - mean) * (mean - min) |
| RttSummary.SummaryIsConsistent | internal/checks/icmp_rtt.go:78-102 | min <= avg <= max after truncation and the deviation is at most half the spread |
| RttSummary.NoVarianceMeansAllEqual | internal/checks/icmp_rtt.go:95-102 | the variance is zero if and only if all round trips are equal |
| CpuList.CpuListCount | internal/checks/k8s_cgroup_memory.go:138-158 | in 64-bit arithmetic without overflow: the size of the union of the ranges, between 1 and 2^32, or zero exactly when a part is malformed, reversed or not above the one before |
| CpuList.SplitIsExact | internal/checks/k8s_cgroup_memory.go:141-142 | splitting loses nothing: the parts hold no separator and join to the text |
| CpuList.RangeIsRead | internal/checks/k8s_cgroup_memory.go:142-152 | a part is one number below 2^32 or two with a dash between them, the second not smaller; anything else is malformed |
| CpuList.OneMorePart | internal/checks/k8s_cgroup_memory.go:154-155 | a range above all others adds its length to the union |
| CpuList.KernelListIsCounted | internal/checks/k8s_cgroup_memory.go:105-115 | a list printed from ascending ranges, with its newline, is read back range by range |
| Decimal.NumeralReadsBack | internal/checks/k8s_cgroup_memory.go:146-150 | reading a printed number gives the number |
| Decimal.DigitsAreDecimal | internal/checks/k8s_cgroup_memory.go:146-150 | a numeral is the one of a tenth and the digit of the remainder |

## Left out

- Database, HTTP, SSH, SNMP, Docker, kubelet, Proxmox and vSphere calls, SQL text, JSON and plan explaining: their
  results come in as rows, readings and times.
- The wiring of `cmd/collector`, check factories, tags and metric construction: field copies without an invariant.
- SHA-256: the fingerprint is modelled up to the bytes that are hashed.
- `sanitizeQueryText` beyond the dollar quotes, `validateReadOnlyQuery` beyond the word search, `limitText`: regular
  expressions and cuts that would add easy members.
- mssql_queries.go, oracle_queries.go, mongo_queries.go and the journald limiter: smaller repeats of the machines here.
- Locks are not modelled where a method holds one from start to end; `ConnectionLeases` and `CircuitBreaker` are the
  two places where steps of different callers interleave.
- Contexts and cancellation, except that a run in `ConnectionLeases` may fail at every step that can time out.
- SqlWords.ContainsSqlWord: leaves out the inputs on which the source's loop does not end, an empty word and a query that starts with
  a word character (`EmptyWordStandsStill`); no caller passes an empty word.
- SqlMask.SqlMask: takes Python's isdigit, isalnum and isspace as parameters, and states the regular expressions as functions;
  a statement that is not a string is not modelled.
- SqlPieces.ScanOfPieces: is about statements whose comments and dollar quotes close; an unclosed quote is the subject of
  `SqlMask.UnclosedLiteralIsMaskedToTheEnd`. It takes Python's tables to be as they are for ASCII.
- PostgresLexis.ScannerMasksTheLiterals: reads a string constant that continues on a second line as two, so escapes in the
  second half of an `E` string are not seen, and takes standard_conforming_strings to be on.
- SqlMask.MaskHidesTheLiteral: is about statements within 32768 characters, as longer ones are all replaced by the same text.
- QueryLogDedup.AtMostOnce: assumes that a query id names one finished query and that the server's clock and the agent's run at the
  same rate; poll times are given to it.
- QueryLogDedup.ClickHouseQueries.Aggregate: leaves out the text of an entry, the sort and the cut to the query limit.
- CounterDelta.PostgresQueries.RunQueryStats: leaves out the text and the cut of the user name; numbers are exact, and the
  counters of 64 bits do not wrap.
- CounterDelta.EmittedNeverExceedsTruth: assumes that all counting rows of a key in a snapshot hold one counter. The query
  (internal/checks/postgres_queries.go:206-218) does not promise that; `RereadingEmitsNothing` says what happens without it.
- CircuitBreaker.FailureTimeDecidesSpacing: asks that the failure leaves the breaker open, so it does not speak of a failure
  that wraps the error count around.
- QueryLogDedup.EachQueryIsOneCall: assumes that all rows of one query id carry the same hash.
- CidrExpansion.ExpandCIDRs: takes the results of net.ParseCIDR, and yields bytes instead of the printed address. An IPv4 address
  mapped into IPv6 is compared like any other of 16 bytes; inside 4096 addresses this makes no difference.
- RttSummary.SummarizeRTTs: works on exact reals; floating-point rounding is not modelled.
- ProfileReport.Emit: takes the printed lengths of an origin and of a set of folded lines as functions, and leaves out the fields
  that only copy the identity and the window.
- Profiler.Profiler.Flush: does not emit; `ProfileReport` says what a window becomes. The heap snapshot and the allocation profiler, which
  call `_emit` with their own tables, are not modelled.
- RequestContext.Requests.OnStart: leaves out the taint sources and findings that a request carries.
- Fork handling, tracing hooks and monkey-patching of the Python agent: tied to the interpreter.
