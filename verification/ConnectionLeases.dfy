/** The calls of MySQL checks that share a small pool of connections: none can block the others forever. */
module ConnectionLeases {

  // Each check has a mutex of its own. Any number of RunQueryStats and RunQuerySamples calls are interleaved in any
  // order.

  datatype Kind = Stats | Samples

  /** Where a run stands. The names say what it holds: a lease is one connection of the server's pool. */
  datatype Place =
    | WantRead      // waiting for the connection of its rows
    | Opened        // leased: USE and the query are on their way
    | WantLock      // Stats, leased: waiting for the check's mutex
    | InLock        // Stats, leased and in the mutex: reading rows
    | Closing       // Stats, leased: the mutex is released, the rows are about to close
    | Reading       // Samples, leased: reading rows
    | WantPlan      // Samples, leased: allowPlan waits for the check's mutex
    | InPlan        // Samples, leased and in the mutex: inside allowPlan
    | WantExplain   // Samples, rows closed: waiting for the connection of one EXPLAIN
    | Explaining    // Samples, leased for one EXPLAIN
    | Done

  /** `rows` are still to be read, `explains` are the plans accepted and not yet asked for. */
  datatype Run = Run(check: nat, kind: Kind, place: Place, rows: nat, explains: nat)

  /** All runs on one server. mysqlServerMaxConns is 2; nothing below needs more than one. */
  datatype System = System(runs: seq<Run>, maxConns: nat)

  predicate Leases(r: Run) {
    r.place in {Opened, WantLock, InLock, Closing, Reading, WantPlan, InPlan, Explaining}
  }

  predicate InMutex(r: Run) { r.place == InLock || r.place == InPlan }

  predicate WaitsForLease(r: Run) { r.place == WantRead || r.place == WantExplain }

  predicate WaitsForMutex(r: Run) { r.place == WantLock || r.place == WantPlan }

  /** How many connections are leased. */
  function Leased(runs: seq<Run>): nat {
    if runs == [] then 0 else (if Leases(runs[0]) then 1 else 0) + Leased(runs[1..])
  }

  predicate LeaseFree(s: System) { Leased(s.runs) < s.maxConns }

  predicate MutexFree(s: System, check: nat) {
    forall j | 0 <= j < |s.runs| && s.runs[j].check == check :: !InMutex(s.runs[j])
  }

  /** The place a Samples run goes to when it has given its connection back. */
  function AfterRelease(r: Run): Run {
    r.(place := if r.explains > 0 then WantExplain else Done)
  }

  /** One step of a run that needs no time-out and no error. */
  predicate Advances(s: System, r: Run, t: Run) {
    match r.place
    case WantRead => LeaseFree(s) && t == r.(place := Opened)
    case Opened => t == r.(place := if r.kind == Stats then WantLock else Reading)
    case WantLock => MutexFree(s, r.check) && t == r.(place := InLock)
    case InLock => t == if r.rows > 0 then r.(rows := r.rows - 1) else r.(place := Closing)
    case Closing => t == r.(place := Done)
    case Reading =>
      if r.rows > 0 then t == r.(rows := r.rows - 1) || t == r.(rows := r.rows - 1, place := WantPlan)
      else t == AfterRelease(r)
    case WantPlan => MutexFree(s, r.check) && t == r.(place := InPlan)
    case InPlan => t == r.(place := Reading) || t == r.(place := Reading, explains := r.explains + 1)
    case WantExplain => LeaseFree(s) && t == r.(place := Explaining)
    case Explaining => r.explains > 0 && t == AfterRelease(r.(explains := r.explains - 1))
    case Done => false
  }

  /** A context that runs out while waiting for a connection, a failed USE or query, a row that cannot be
      scanned: the deferred calls give everything back. A mutex is waited for without a time limit. */
  predicate Fails(r: Run, t: Run) {
    match r.place
    case WantRead => t == r.(place := Done)
    case Opened => t == r.(place := Done)
    case InLock => t == r.(place := Closing)
    case Reading => t == r.(place := Done)
    case WantExplain => r.explains > 0 && t == AfterRelease(r.(explains := r.explains - 1))
    case _ => false
  }

  /** Run `i` takes one step, the others stand still. */
  predicate Step(s: System, i: nat, t: System) {
    && i < |s.runs| == |t.runs|
    && t == s.(runs := s.runs[i := t.runs[i]])
    && (Advances(s, s.runs[i], t.runs[i]) || Fails(s.runs[i], t.runs[i]))
  }

  predicate Initial(s: System) {
    s.maxConns >= 1 && forall i | 0 <= i < |s.runs| :: s.runs[i].place == WantRead && s.runs[i].explains == 0
  }

  ghost predicate Inv(s: System) {
    && 1 <= s.maxConns && Leased(s.runs) <= s.maxConns
    && (forall i | 0 <= i < |s.runs| && (s.runs[i].place == WantExplain || s.runs[i].place == Explaining) ::
          s.runs[i].explains > 0)
    && (forall i, j | 0 <= i < j < |s.runs| && InMutex(s.runs[i]) && InMutex(s.runs[j]) ::
          s.runs[i].check != s.runs[j].check)
  }

  lemma {:induction false} LeasedAfterUpdate(runs: seq<Run>, i: nat, r: Run)
    requires i < |runs|
    ensures Leased(runs[i := r]) == Leased(runs) - (if Leases(runs[i]) then 1 else 0) + (if Leases(r) then 1 else 0)
  {
    if i > 0 {
      assert runs[i := r][1..] == runs[1..][i - 1 := r];
      LeasedAfterUpdate(runs[1..], i - 1, r);
    } else {
      assert runs[i := r][1..] == runs[1..];
    }
  }

  lemma {:induction false} NoneLeased(runs: seq<Run>)
    requires forall i | 0 <= i < |runs| :: !Leases(runs[i])
    ensures Leased(runs) == 0
  {
    if runs != [] { NoneLeased(runs[1..]); }
  }

  lemma InitialInv(s: System)
    requires Initial(s)
    ensures Inv(s)
  {
    NoneLeased(s.runs);
  }

  lemma StepKeepsInv(s: System, i: nat, t: System)
    requires Inv(s) && Step(s, i, t)
    ensures Inv(t)
  {
    hide Leased;
    LeasedAfterUpdate(s.runs, i, t.runs[i]);
  }

  /** The discipline the deadlock freedom rests on: whoever waits for a connection holds nothing, and whoever
      is inside a mutex waits for nothing. */
  lemma WaitersForALeaseHoldNothing(r: Run)
    ensures WaitsForLease(r) ==> !Leases(r) && !InMutex(r)
    ensures InMutex(r) ==> !WaitsForLease(r) && !WaitsForMutex(r)
  {
  }

  /** A run that waits for nothing, or for something that is free, can go on. */
  lemma CanAdvance(s: System, i: nat) returns (t: System)
    requires Inv(s) && i < |s.runs| && s.runs[i].place != Done
    requires WaitsForLease(s.runs[i]) ==> LeaseFree(s)
    requires WaitsForMutex(s.runs[i]) ==> MutexFree(s, s.runs[i].check)
    ensures Step(s, i, t) && Advances(s, s.runs[i], t.runs[i])
  {
    var r := s.runs[i];
    var n := match r.place
      case WantRead => r.(place := Opened)
      case Opened => r.(place := if r.kind == Stats then WantLock else Reading)
      case WantLock => r.(place := InLock)
      case InLock => if r.rows > 0 then r.(rows := r.rows - 1) else r.(place := Closing)
      case Closing => r.(place := Done)
      case Reading => if r.rows > 0 then r.(rows := r.rows - 1) else AfterRelease(r)
      case WantPlan => r.(place := InPlan)
      case InPlan => r.(place := Reading)
      case WantExplain => r.(place := Explaining)
      case Explaining => AfterRelease(r.(explains := r.explains - 1))
      case Done => r;
    t := s.(runs := s.runs[i := n]);
  }

  /** No deadlock: while some run is unfinished, some run can take a step, without a time-out or an error. */
  lemma SomeRunCanAdvance(s: System, unfinished: nat) returns (i: nat, t: System)
    requires Inv(s) && unfinished < |s.runs| && s.runs[unfinished].place != Done
    ensures Step(s, i, t) && Advances(s, s.runs[i], t.runs[i])
  {
    hide Leased, Advances, Fails, Step;
    i := unfinished;
    if WaitsForLease(s.runs[i]) && !LeaseFree(s) {
      // All connections are leased, so somebody holds one and is not waiting for another.
      if forall j | 0 <= j < |s.runs| :: !Leases(s.runs[j]) { NoneLeased(s.runs); }
      i :| 0 <= i < |s.runs| && Leases(s.runs[i]);
    }
    if WaitsForMutex(s.runs[i]) && !MutexFree(s, s.runs[i].check) {
      // The mutex is taken, and its holder waits for nothing.
      i :| 0 <= i < |s.runs| && InMutex(s.runs[i]);
    }
    t := CanAdvance(s, i);
  }

  // ---- Termination ---------------------------------------------------------------------------------

  /** How many more steps a run can take at most. */
  function Left(r: Run): nat {
    match r.place
    case WantRead => 6 * r.rows + 2 * r.explains + 5
    case Opened => 6 * r.rows + 2 * r.explains + 4
    case WantLock => 6 * r.rows + 3
    case InLock => 6 * r.rows + 2
    case Closing => 1
    case Reading => 6 * r.rows + 2 * r.explains + 1
    case WantPlan => 6 * r.rows + 2 * r.explains + 6
    case InPlan => 6 * r.rows + 2 * r.explains + 5
    case WantExplain => 2 * r.explains
    case Explaining => if r.explains > 0 then 2 * r.explains - 1 else 0
    case Done => 0
  }

  function TotalLeft(runs: seq<Run>): nat {
    if runs == [] then 0 else Left(runs[0]) + TotalLeft(runs[1..])
  }

  lemma {:induction false} TotalAfterUpdate(runs: seq<Run>, i: nat, r: Run)
    requires i < |runs|
    ensures TotalLeft(runs[i := r]) == TotalLeft(runs) - Left(runs[i]) + Left(r)
  {
    if i > 0 {
      assert runs[i := r][1..] == runs[1..][i - 1 := r];
      TotalAfterUpdate(runs[1..], i - 1, r);
    } else {
      assert runs[i := r][1..] == runs[1..];
    }
  }

  lemma StepDecreases(s: System, i: nat, t: System)
    requires Inv(s) && Step(s, i, t)
    ensures TotalLeft(t.runs) < TotalLeft(s.runs)
  {
    hide Leased, TotalLeft;
    TotalAfterUpdate(s.runs, i, t.runs[i]);
  }

  ghost predicate Follows(s: System, t: System) {
    exists i :: Step(s, i, t)
  }

  /** A schedule: a sequence of states, each one step after the one before. */
  ghost predicate IsSchedule(states: seq<System>) {
    && states != [] && Initial(states[0])
    && forall j, k | 0 <= j && k == j + 1 < |states| :: Follows(states[j], states[k])
  }

  lemma {:induction false} ScheduleInv(states: seq<System>, k: nat)
    requires IsSchedule(states) && k < |states|
    ensures Inv(states[k]) && TotalLeft(states[k].runs) + k <= TotalLeft(states[0].runs)
  {
    if k == 0 {
      InitialInv(states[0]);
    } else {
      ScheduleInv(states, k - 1);
      var j := k - 1;
      assert Follows(states[j], states[k]);
      var i :| Step(states[j], i, states[k]);
      StepKeepsInv(states[j], i, states[k]);
      StepDecreases(states[j], i, states[k]);
    }
  }

  /** Every schedule is finite, with a bound known in advance, and one that cannot be continued has finished
      every run and returned every connection. */
  lemma EveryScheduleFinishes(states: seq<System>)
    requires IsSchedule(states)
    ensures |states| <= 1 + TotalLeft(states[0].runs)
    ensures var last := states[|states| - 1];
      (forall i, t :: !Step(last, i, t)) ==>
        (forall i | 0 <= i < |last.runs| :: last.runs[i].place == Done) && Leased(last.runs) == 0
  {
    var last := states[|states| - 1];
    ScheduleInv(states, |states| - 1);
    if forall i, t :: !Step(last, i, t) {
      forall i | 0 <= i < |last.runs| ensures last.runs[i].place == Done {
        if last.runs[i].place != Done { var j, t := SomeRunCanAdvance(last, i); }
      }
      NoneLeased(last.runs);
    }
  }

  // ---- Why the rows close first --------------------------------------------------------------------

  // The other order: a Samples run asks for the connection of an EXPLAIN as soon as the plan is accepted, while its
  // rows are open. Here WantExplain holds the connection of the rows, and Explaining holds two.

  function EagerLeases(r: Run): nat {
    if r.place == Explaining then 2 else if r.place == WantExplain || Leases(r) then 1 else 0
  }

  function EagerLeased(runs: seq<Run>): nat {
    if runs == [] then 0 else EagerLeases(runs[0]) + EagerLeased(runs[1..])
  }

  predicate EagerFree(s: System) { EagerLeased(s.runs) < s.maxConns }

  predicate EagerAdvances(s: System, r: Run, t: Run) {
    match r.place
    case WantRead => EagerFree(s) && t == r.(place := Opened)
    case InPlan => t == r.(place := Reading) || t == r.(place := WantExplain)
    case WantExplain => EagerFree(s) && t == r.(place := Explaining)
    case Explaining => t == r.(place := Reading)
    case _ => Advances(s, r, t)
  }

  predicate EagerStep(s: System, i: nat, t: System) {
    && i < |s.runs| == |t.runs|
    && t == s.(runs := s.runs[i := t.runs[i]])
    && EagerAdvances(s, s.runs[i], t.runs[i])
  }

  ghost predicate EagerFollows(s: System, t: System) { exists i :: EagerStep(s, i, t) }

  ghost predicate EagerSchedule(states: seq<System>) {
    && states != [] && Initial(states[0])
    && forall k, l | 0 <= k && l == k + 1 < |states| :: EagerFollows(states[k], states[l])
  }

  /** A Samples run of a check at a place. */
  function Sampler(check: nat, place: Place): Run {
    Run(check, Samples, place, if place in {WantRead, Opened, Reading} then 1 else 0, 0)
  }

  function Two(a: Place, b: Place): System { System([Sampler(0, a), Sampler(1, b)], 2) }

  /** The way of a run with one row to its EXPLAIN. */
  function Stage(n: nat): Place
    requires n <= 5
  {
    if n == 0 then WantRead else if n == 1 then Opened else if n == 2 then Reading
    else if n == 3 then WantPlan else if n == 4 then InPlan else WantExplain
  }

  /** First run 0 goes all the way, then run 1. */
  function StateAt(k: nat): System
    requires k <= 10
  {
    if k <= 5 then Two(Stage(k), WantRead) else Two(WantExplain, Stage(k - 5))
  }

  function ToDeadlock(): seq<System> { seq(11, k requires 0 <= k < 11 => StateAt(k)) }

  lemma LeasedByTwo(s: System)
    requires |s.runs| == 2
    ensures EagerLeased(s.runs) == EagerLeases(s.runs[0]) + EagerLeases(s.runs[1])
  {
    var rest := s.runs[1..];
    assert rest[1..] == [] && rest[0] == s.runs[1];
    assert EagerLeased(rest) == EagerLeases(rest[0]) + EagerLeased(rest[1..]);
  }

  lemma NextStage(s: System, i: nat, n: nat)
    requires |s.runs| == 2 && s.maxConns == 2 && i < 2 && n < 5
    requires s.runs[i] == Sampler(i, Stage(n)) && s.runs[1 - i].check == 1 - i && EagerLeases(s.runs[1 - i]) <= 1
    ensures EagerAdvances(s, s.runs[i], Sampler(i, Stage(n + 1)))
  {
    LeasedByTwo(s);
  }

  lemma StateAtStep(k: nat)
    requires k < 10
    ensures EagerStep(StateAt(k), if k < 5 then 0 else 1, StateAt(k + 1))
  {
    hide EagerAdvances;
    var s, t, i := StateAt(k), StateAt(k + 1), if k < 5 then 0 else 1;
    NextStage(s, i, if k < 5 then k else k - 5);
    assert s.runs[i := t.runs[i]] == t.runs;
  }

  /** In that order two runs on the two connections of the pool can deadlock: from the start they reach a state in
      which both are unfinished and neither can take a step. */
  lemma EagerExplainDeadlocks()
    ensures EagerSchedule(ToDeadlock())
    ensures var last := ToDeadlock()[10]; forall i, t :: !EagerStep(last, i, t)
  {
    hide EagerStep, StateAt, Initial;
    var states := ToDeadlock();
    forall k, l | 0 <= k && l == k + 1 < |states| ensures EagerFollows(states[k], states[l]) {
      StateAtStep(k);
      assert states[k] == StateAt(k) && states[l] == StateAt(k + 1);
      assert EagerStep(states[k], if k < 5 then 0 else 1, states[l]);
    }
    ToDeadlockStarts();
    assert states[0] == StateAt(0);
    forall i, t ensures !EagerStep(states[10], i, t) { StuckAtTheEnd(i, t); }
  }

  lemma ToDeadlockStarts()
    ensures Initial(StateAt(0))
  {
  }

  lemma StuckAtTheEnd(i: nat, t: System)
    ensures !EagerStep(StateAt(10), i, t)
  {
    LeasedByTwo(StateAt(10));
  }
}
