/** The circuit breaker of circuit_breaker.go. Its two fields are atomics, so a call is a few atomic steps that
    other callers' steps may come between. Times are nanoseconds. */
module CircuitBreaker {

  const COOLDOWN_FLOOR: int := 60_000_000_000

  /** The atomic fields. */
  datatype Shared = Shared(errors: int, lastAttempt: int)

  datatype Config = Config(threshold: int, cooldown: int)

  /** errors.Add(1) on an atomic.Int32. */
  function Increment(errors: int): int {
    if errors == 0x7fff_ffff then -0x8000_0000 else errors + 1
  }

  // ---- A call nobody interrupts --------------------------------------------------------------------

  predicate IsOpen(c: Config, b: Shared) { b.errors >= c.threshold }

  predicate CooledDown(c: Config, b: Shared, now: int) { now - b.lastAttempt >= c.cooldown }

  /** Uncontended, an open breaker admits a run exactly when the cooldown is over, and starts a new one. */
  function Asked(c: Config, b: Shared, now: int): (bool, Shared) {
    if !IsOpen(c, b) then (true, b)
    else if CooledDown(c, b, now) then (true, b.(lastAttempt := now))
    else (false, b)
  }

  function Failed(b: Shared, now: int): Shared { Shared(Increment(b.errors), now) }

  function Succeeded(b: Shared): Shared { b.(errors := 0) }

  class Breaker {
    const config: Config
    var shared: Shared

    constructor (threshold: int, interval: int)
      ensures config.threshold == threshold && shared == Shared(0, 0)
      ensures config.cooldown >= 60_000_000_000 && config.cooldown >= interval
      ensures config.cooldown == 60_000_000_000 || config.cooldown == interval
    {
      var cooldown := interval;
      if cooldown < COOLDOWN_FLOOR {
        cooldown := COOLDOWN_FLOOR;
      }
      config := Config(threshold, cooldown);
      shared := Shared(0, 0);
    }

    method Allow(now: int) returns (admitted: bool)
      modifies this
      ensures (admitted, shared) == Asked(config, old(shared), now)
    {
      if shared.errors < config.threshold {
        return true;
      }
      var last := shared.lastAttempt;
      if now - last < config.cooldown {
        return false;
      }
      if shared.lastAttempt == last {
        shared := shared.(lastAttempt := now);
        return true;
      }
      return false;
    }

    method Failure(now: int) returns (count: int)
      modifies this
      ensures shared == Failed(old(shared), now) && count == shared.errors
    {
      shared := shared.(lastAttempt := now);
      shared := shared.(errors := Increment(shared.errors));
      count := shared.errors;
    }

    method Success() returns (wasOpen: bool)
      modifies this
      ensures shared == Succeeded(old(shared)) && (wasOpen <==> IsOpen(config, old(shared)))
    {
      var errors := shared.errors;
      shared := shared.(errors := 0);
      wasOpen := errors >= config.threshold;
    }
  }

  // ---- One caller after the other ------------------------------------------------------------------

  datatype Call = Ask(now: int) | Fail(now: int) | Succeed

  function AfterCall(c: Config, b: Shared, call: Call): Shared {
    match call
    case Ask(now) => Asked(c, b, now).1
    case Fail(now) => Failed(b, now)
    case Succeed => Succeeded(b)
  }

  function AfterCalls(c: Config, calls: seq<Call>): Shared {
    if calls == [] then Shared(0, 0) else AfterCall(c, AfterCalls(c, calls[..|calls| - 1]), calls[|calls| - 1])
  }

  /** The failures since the last success. */
  function Streak(calls: seq<Call>): nat {
    if calls == [] || calls[|calls| - 1].Succeed? then 0
    else Streak(calls[..|calls| - 1]) + if calls[|calls| - 1].Fail? then 1 else 0
  }

  /** A number as an int32 holds it. */
  function Int32(n: int): int { (n + 0x8000_0000) % 0x1_0000_0000 - 0x8000_0000 }

  /** Enough failures since the last success. */
  predicate Broken(threshold: int, calls: seq<Call>) { Int32(Streak(calls)) >= threshold }

  /** The time of the last failure or probe: of the last call that failed, or that was asked while the check was
      broken and the last such time at least a cooldown ago. */
  function LastTry(threshold: int, cooldown: int, calls: seq<Call>): int {
    if calls == [] then 0 else
      var before := LastTry(threshold, cooldown, calls[..|calls| - 1]);
      match calls[|calls| - 1]
      case Fail(now) => now
      case Succeed => before
      case Ask(now) => if Broken(threshold, calls[..|calls| - 1]) && now - before >= cooldown then now else before
  }

  lemma {:induction false} StateIsHistory(c: Config, calls: seq<Call>)
    ensures AfterCalls(c, calls) == Shared(Int32(Streak(calls)), LastTry(c.threshold, c.cooldown, calls))
  {
    hide Int32, Increment;
    NextInt32(0);
    if calls != [] {
      StateIsHistory(c, calls[..|calls| - 1]);
      NextInt32(Streak(calls[..|calls| - 1]));
    }
  }

  lemma NextInt32(n: nat)
    ensures Int32(n + 1) == Increment(Int32(n)) && Int32(0) == 0
  {
  }

  /** When a run is admitted, after any calls one after the other: exactly when fewer failures than the threshold
      have come since the last success, counted in 32 bits, or the last failure or probe is at least a cooldown ago. */
  lemma HistoryDecides(c: Config, calls: seq<Call>, now: int)
    ensures Asked(c, AfterCalls(c, calls), now).0 <==>
      Int32(Streak(calls)) < c.threshold || now - LastTry(c.threshold, c.cooldown, calls) >= c.cooldown
  {
    StateIsHistory(c, calls);
  }

  // ---- Many callers --------------------------------------------------------------------------------

  /** Where a caller stands between two of its atomic steps. */
  datatype Place =
    | Idle
    | SawOpen(now: int)                // allow: errors was at or above the threshold
    | SawLast(now: int, last: int)     // allow: the cooldown since `last` is over, the swap comes next
    | StoredAttempt                    // failure: lastAttempt is stored, errors comes next

  /** A run admitted while the breaker was open: its time and the attempt its swap replaced. */
  datatype Probe = Probe(time: int, last: int)

  datatype System = System(shared: Shared, callers: seq<Place>, probes: seq<Probe>)

  datatype Action =
    | LoadErrors(now: int)
    | LoadLast
    | CompareAndSwap
    | StoreAttempt(now: int)
    | AddError
    | SwapErrors

  /** What an action asks of the caller's place. */
  predicate Enabled(s: System, i: nat, a: Action) {
    i < |s.callers| &&
    match a
    case LoadLast => s.callers[i].SawOpen?
    case CompareAndSwap => s.callers[i].SawLast?
    case AddError => s.callers[i].StoredAttempt?
    case _ => s.callers[i].Idle?
  }

  function Moved(s: System, i: nat, p: Place): System
    requires i < |s.callers|
  {
    s.(callers := s.callers[i := p])
  }

  function Step(c: Config, s: System, i: nat, a: Action): System
    requires Enabled(s, i, a)
  {
    var b := s.shared;
    match a
    case LoadErrors(now) => if b.errors < c.threshold then s else Moved(s, i, SawOpen(now))
    case LoadLast =>
      var now := s.callers[i].now;
      Moved(s, i, if CooledDown(c, b, now) then SawLast(now, b.lastAttempt) else Idle)
    case CompareAndSwap =>
      var now, last := s.callers[i].now, s.callers[i].last;
      if b.lastAttempt == last then
        Moved(s, i, Idle).(shared := b.(lastAttempt := now), probes := s.probes + [Probe(now, last)])
      else Moved(s, i, Idle)
    case StoreAttempt(now) => Moved(s, i, StoredAttempt).(shared := b.(lastAttempt := now))
    case AddError => Moved(s, i, Idle).(shared := b.(errors := Increment(b.errors)))
    case SwapErrors => s.(shared := b.(errors := 0))
  }

  datatype Event = Event(caller: nat, action: Action)

  predicate IsRun(c: Config, s: System, events: seq<Event>)
    decreases |events|
  {
    events == [] ||
      (var e := events[0];
       Enabled(s, e.caller, e.action) && IsRun(c, Step(c, s, e.caller, e.action), events[1..]))
  }

  function Run(c: Config, s: System, events: seq<Event>): System
    requires IsRun(c, s, events)
    decreases |events|
  {
    if events == [] then s else Run(c, Step(c, s, events[0].caller, events[0].action), events[1..])
  }

  /** A failure is stored with a time before the last probe's. */
  predicate Undercuts(s: System, a: Action) {
    a.StoreAttempt? && s.probes != [] && a.now < s.probes[|s.probes| - 1].time
  }

  predicate NoneUndercuts(c: Config, s: System, events: seq<Event>)
    requires IsRun(c, s, events)
    decreases |events|
  {
    events == [] ||
      (var e := events[0];
       !Undercuts(s, e.action) && NoneUndercuts(c, Step(c, s, e.caller, e.action), events[1..]))
  }

  /** The last attempt is not before any probe; a caller about to swap waited out its cooldown. */
  ghost predicate Inv(c: Config, s: System) {
    && c.cooldown > 0
    && (forall i | 0 <= i < |s.callers| && s.callers[i].SawLast? :: s.callers[i].now - s.callers[i].last >= c.cooldown)
    && (forall i | 0 <= i < |s.probes| ::
          s.probes[i].time - s.probes[i].last >= c.cooldown && s.probes[i].time <= s.shared.lastAttempt)
    && (forall i, j | 0 <= i < j < |s.probes| :: s.probes[i].time <= s.probes[j].last)
  }

  lemma StepKeepsInv(c: Config, s: System, i: nat, a: Action)
    requires Inv(c, s) && Enabled(s, i, a) && !Undercuts(s, a)
    ensures Inv(c, Step(c, s, i, a))
  {
    if s.probes != [] {
      var last := s.probes[|s.probes| - 1];
      assert forall k | 0 <= k < |s.probes| :: s.probes[k].time <= last.time;
    }
  }

  lemma {:induction false} RunKeepsInv(c: Config, s: System, events: seq<Event>)
    requires Inv(c, s) && IsRun(c, s, events) && NoneUndercuts(c, s, events)
    ensures Inv(c, Run(c, s, events))
    decreases |events|
  {
    if events != [] {
      StepKeepsInv(c, s, events[0].caller, events[0].action);
      RunKeepsInv(c, Step(c, s, events[0].caller, events[0].action), events[1..]);
    }
  }

  function Start(callers: nat): System {
    System(Shared(0, 0), seq(callers, i => Idle), [])
  }

  /** Any two probes are at least the cooldown apart and replaced different attempts. */
  predicate Spaced(c: Config, probes: seq<Probe>) {
    forall i, j | 0 <= i < j < |probes| :: probes[j].time - probes[i].time >= c.cooldown && probes[i].last != probes[j].last
  }

  /** Whatever the interleaving, if no failure is dated before the last probe then two probes are at least the
      cooldown apart, and callers that read the same last attempt yield at most one probe. */
  lemma ProbesAreSpaced(c: Config, callers: nat, events: seq<Event>)
    requires c.cooldown > 0 && IsRun(c, Start(callers), events) && NoneUndercuts(c, Start(callers), events)
    ensures Spaced(c, Run(c, Start(callers), events).probes)
  {
    RunKeepsInv(c, Start(callers), events);
  }

  lemma FirstEvent(c: Config, s: System, e: Event, rest: seq<Event>)
    ensures IsRun(c, s, [e] + rest) <==>
      Enabled(s, e.caller, e.action) && IsRun(c, Step(c, s, e.caller, e.action), rest)
    ensures IsRun(c, s, [e] + rest) ==> Run(c, s, [e] + rest) == Run(c, Step(c, s, e.caller, e.action), rest)
    ensures IsRun(c, s, [e] + rest) ==>
      (NoneUndercuts(c, s, [e] + rest) <==>
       !Undercuts(s, e.action) && NoneUndercuts(c, Step(c, s, e.caller, e.action), rest))
  {
    hide Step, Enabled, Undercuts;
    assert ([e] + rest)[1..] == rest;
  }

  lemma RunOfNothing(c: Config, s: System)
    ensures IsRun(c, s, []) && Run(c, s, []) == s && NoneUndercuts(c, s, [])
  {
  }

  /** The three steps of an allow that nobody interrupts: what the class does in one call. */
  function AllowSteps(i: nat, now: int): seq<Event> {
    [Event(i, LoadErrors(now)), Event(i, LoadLast), Event(i, CompareAndSwap)]
  }

  /** An uncontended call on an open breaker whose cooldown is over always ends in a probe. */
  lemma UncontendedCallIsAdmitted(c: Config, s: System, i: nat, now: int)
    requires i < |s.callers| && s.callers[i].Idle?
    requires IsOpen(c, s.shared) && CooledDown(c, s.shared, now)
    ensures IsRun(c, s, AllowSteps(i, now))
    ensures Run(c, s, AllowSteps(i, now)) == s.(shared := s.shared.(lastAttempt := now),
                                                probes := s.probes + [Probe(now, s.shared.lastAttempt)])
  {
    hide IsRun, Run, NoneUndercuts;
    var s1 := Step(c, s, i, LoadErrors(now));
    var s2 := Step(c, s1, i, LoadLast);
    var s3 := Step(c, s2, i, CompareAndSwap);
    assert s3.callers == s.callers;
    FirstEvent(c, s, Event(i, LoadErrors(now)), [Event(i, LoadLast), Event(i, CompareAndSwap)]);
    FirstEvent(c, s1, Event(i, LoadLast), [Event(i, CompareAndSwap)]);
    FirstEvent(c, s2, Event(i, CompareAndSwap), []);
    RunOfNothing(c, s3);
    AllowStepsUnfold(i, now);
  }

  lemma AllowStepsUnfold(i: nat, now: int)
    ensures AllowSteps(i, now) == [Event(i, LoadErrors(now))] + [Event(i, LoadLast), Event(i, CompareAndSwap)]
    ensures [Event(i, LoadLast), Event(i, CompareAndSwap)] == [Event(i, LoadLast)] + [Event(i, CompareAndSwap)]
    ensures [Event(i, CompareAndSwap)] == [Event(i, CompareAndSwap)] + []
  {
  }

  lemma {:induction false} RunOfSum(c: Config, s: System, a: seq<Event>, b: seq<Event>)
    requires IsRun(c, s, a)
    ensures IsRun(c, s, a + b) <==> IsRun(c, Run(c, s, a), b)
    ensures IsRun(c, s, a + b) ==> Run(c, s, a + b) == Run(c, Run(c, s, a), b)
    ensures IsRun(c, s, a + b) ==> (NoneUndercuts(c, s, a + b) <==> NoneUndercuts(c, s, a) && NoneUndercuts(c, Run(c, s, a), b))
    decreases |a|
  {
    hide Step, Enabled, Undercuts;
    if a == [] {
      assert a + b == b;
    } else {
      assert (a + b)[1..] == a[1..] + b;
      RunOfSum(c, Step(c, s, a[0].caller, a[0].action), a[1..], b);
    }
  }

  /** What is done of a failure of caller `i` when caller `j` comes next: at least its first step, and all of it
      if it is the same caller. */
  function FailureSteps(i: nat, j: nat, now: int): seq<Event> {
    [Event(i, StoreAttempt(now))] + if i == j then [Event(i, AddError)] else []
  }

  function AfterFailure(s: System, i: nat, j: nat, now: int): System {
    var b := s.shared.(lastAttempt := now);
    if i == j then s.(shared := b.(errors := Increment(b.errors)))
    else if i < |s.callers| then s.(shared := b, callers := s.callers[i := StoredAttempt]) else s
  }

  lemma FailureRun(c: Config, s: System, i: nat, j: nat, now: int)
    requires i < |s.callers| && s.callers[i].Idle?
    ensures IsRun(c, s, FailureSteps(i, j, now)) && Run(c, s, FailureSteps(i, j, now)) == AfterFailure(s, i, j, now)
    ensures NoneUndercuts(c, s, FailureSteps(i, j, now)) <==> !Undercuts(s, StoreAttempt(now))
  {
    hide IsRun, Run, NoneUndercuts;
    var s1 := Step(c, s, i, StoreAttempt(now));
    FirstEvent(c, s, Event(i, StoreAttempt(now)), []);
    RunOfNothing(c, s1);
    assert FailureSteps(i, j, now) == [Event(i, StoreAttempt(now))] + if i == j then [Event(i, AddError)] else [];
    assert [Event(i, AddError)] == [Event(i, AddError)] + [];
    if i == j {
      FirstEvent(c, s, Event(i, StoreAttempt(now)), [Event(i, AddError)]);
      FirstEvent(c, s1, Event(i, AddError), []);
      var s2 := Step(c, s1, i, AddError);
      RunOfNothing(c, s2);
      assert s2.callers == s.callers;
    }
  }

  /** The calls of an allow store no failure, and they are a run only if the cooldown is over. */
  lemma AllowRun(c: Config, s: System, j: nat, later: int)
    requires j < |s.callers| && s.callers[j].Idle? && IsOpen(c, s.shared)
    ensures IsRun(c, s, AllowSteps(j, later)) <==> CooledDown(c, s.shared, later)
    ensures IsRun(c, s, AllowSteps(j, later)) ==> NoneUndercuts(c, s, AllowSteps(j, later))
  {
    hide IsRun, Run, NoneUndercuts;
    var s1 := Step(c, s, j, LoadErrors(later));
    var s2 := Step(c, s1, j, LoadLast);
    FirstEvent(c, s, Event(j, LoadErrors(later)), [Event(j, LoadLast), Event(j, CompareAndSwap)]);
    FirstEvent(c, s1, Event(j, LoadLast), [Event(j, CompareAndSwap)]);
    FirstEvent(c, s2, Event(j, CompareAndSwap), []);
    AllowStepsUnfold(j, later);
    if CooledDown(c, s.shared, later) { RunOfNothing(c, Step(c, s2, j, CompareAndSwap)); }
  }

  /** The run goes on with a failure stored at `now` and then an uncontended call at `later`, which is admitted,
      and its probe comes too soon. */
  ghost predicate BreaksSpacing(c: Config, s: System, events: seq<Event>, i: nat, j: nat, now: int, later: int) {
    var all := events + FailureSteps(i, j, now) + AllowSteps(j, later);
    IsRun(c, s, all) && !Spaced(c, Run(c, s, all).probes)
  }

  /** When a failure may be dated back. After any run that leaves a probe behind and the breaker open, whoever else
      is in the middle of a call: a failure stored at `now` lets an uncontended call be admitted too soon if and
      only if `now` is before the last probe. */
  lemma FailureTimeDecidesSpacing(c: Config, callers: nat, events: seq<Event>, i: nat, j: nat, now: int)
    requires c.cooldown > 0 && IsRun(c, Start(callers), events) && NoneUndercuts(c, Start(callers), events)
    requires var s := Run(c, Start(callers), events);
      && s.probes != [] && i < |s.callers| && s.callers[i].Idle? && j < |s.callers| && s.callers[j].Idle?
      && IsOpen(c, AfterFailure(s, i, j, now).shared)
    ensures var last := Run(c, Start(callers), events).probes[|Run(c, Start(callers), events).probes| - 1];
      (exists later :: BreaksSpacing(c, Start(callers), events, i, j, now, later)) <==> now < last.time
  {
    hide Step, IsRun, Run, NoneUndercuts, Start, Spaced;
    var start := Start(callers);
    var s := Run(c, start, events);
    var t := AfterFailure(s, i, j, now);
    var last := s.probes[|s.probes| - 1];
    FailureRun(c, s, i, j, now);
    RunOfSum(c, start, events, FailureSteps(i, j, now));
    if now < last.time {
      var later := now + c.cooldown;
      AllowRun(c, t, j, later);
      RunOfSum(c, start, events + FailureSteps(i, j, now), AllowSteps(j, later));
      UncontendedCallIsAdmitted(c, t, j, later);
      LastTwoTooClose(c, s.probes, Probe(later, now));
      assert BreaksSpacing(c, start, events, i, j, now, later);
    } else {
      forall later ensures !BreaksSpacing(c, start, events, i, j, now, later) {
        var all := events + FailureSteps(i, j, now) + AllowSteps(j, later);
        AllowRun(c, t, j, later);
        RunOfSum(c, start, events + FailureSteps(i, j, now), AllowSteps(j, later));
        if IsRun(c, start, all) { ProbesAreSpaced(c, callers, all); }
      }
    }
  }

  lemma LastTwoTooClose(c: Config, probes: seq<Probe>, probe: Probe)
    requires probes != [] && probe.time - probes[|probes| - 1].time < c.cooldown
    ensures !Spaced(c, probes + [probe])
  {
    var all := probes + [probe];
    assert all[|probes|].time - all[|probes| - 1].time < c.cooldown;
  }

  /** `n` failures of caller 0, all stored at time 0. */
  function Failures(n: nat): seq<Event> {
    if n == 0 then [] else Failures(n - 1) + FailureSteps(0, 0, 0)
  }

  lemma {:induction false} FailuresAddUp(c: Config, n: nat)
    requires n <= 0x7fff_ffff
    ensures IsRun(c, Start(2), Failures(n)) && NoneUndercuts(c, Start(2), Failures(n))
    ensures Run(c, Start(2), Failures(n)) == System(Shared(n, 0), [Idle, Idle], [])
  {
    hide Step, IsRun, Run, NoneUndercuts;
    if n == 0 {
      NothingHappened(c);
    } else {
      FailuresAddUp(c, n - 1);
      FailureRun(c, Run(c, Start(2), Failures(n - 1)), 0, 0, 0);
      RunOfSum(c, Start(2), Failures(n - 1), FailureSteps(0, 0, 0));
    }
  }

  lemma NothingHappened(c: Config)
    ensures IsRun(c, Start(2), []) && NoneUndercuts(c, Start(2), [])
    ensures Run(c, Start(2), []) == System(Shared(0, 0), [Idle, Idle], [])
  {
  }

  /** A run from the start in which it goes wrong, with two callers and any threshold: the failures that open the
      breaker, a probe when the cooldown is over, a failure still dated 0, and a second probe at the time of the
      first. */
  lemma BackdatedFailureBreaksSpacing(c: Config)
    requires c.cooldown > 0 && 0 <= c.threshold <= 0x7fff_ffff
    ensures BreaksSpacing(c, Start(2), Failures(c.threshold) + AllowSteps(0, c.cooldown), 1, 0, 0, c.cooldown)
  {
    hide Step, IsRun, Run, NoneUndercuts, Start, Spaced, Failures;
    var start, opening := Start(2), Failures(c.threshold);
    var events := opening + AllowSteps(0, c.cooldown);
    FailuresAddUp(c, c.threshold);
    var open := Run(c, start, opening);
    UncontendedCallIsAdmitted(c, open, 0, c.cooldown);
    RunOfSum(c, start, opening, AllowSteps(0, c.cooldown));
    var s := Run(c, start, events);
    FailureRun(c, s, 1, 0, 0);
    RunOfSum(c, start, events, FailureSteps(1, 0, 0));
    var t := AfterFailure(s, 1, 0, 0);
    UncontendedCallIsAdmitted(c, t, 0, c.cooldown);
    RunOfSum(c, start, events + FailureSteps(1, 0, 0), AllowSteps(0, c.cooldown));
    LastTwoTooClose(c, s.probes, Probe(c.cooldown, 0));
  }
}
