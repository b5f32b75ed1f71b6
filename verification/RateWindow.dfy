/** allowPostgresRate: a fixed-window limit per key in a map of bounded size. Times are nanoseconds. */
module RateWindow {
  import opened Collections

  const HOUR: int := 3_600_000_000_000
  const CACHE_SIZE := 5000

  datatype Window = Window(start: int, count: int)

  type Windows = map<string, Window>

  predicate Expired(w: Window, now: int) { now - w.start >= HOUR }

  /** The map after the sweep that a new key causes when the map is full. */
  function Swept(windows: Windows, key: string, now: int): Windows {
    if key !in windows && |windows| >= CACHE_SIZE then map k | k in windows && !Expired(windows[k], now) :: windows[k]
    else windows
  }

  /** One call: whether it is granted, and the map it leaves. */
  function Allow(windows: Windows, key: string, limit: int, now: int): (bool, Windows) {
    var swept := Swept(windows, key, now);
    if key !in windows && |swept| >= CACHE_SIZE then (false, swept)
    else
      var window := if key in windows && !Expired(windows[key], now) then windows[key] else Window(now, 0);
      if window.count >= limit then (false, swept)
      else (true, swept[key := window.(count := window.count + 1)])
  }

  /** planRuns and planSamples of postgresQueries: a map that lives as long as the check does. */
  class RateLimiter {
    var windows: Windows

    constructor ()
      ensures windows == map[]
    {
      windows := map[];
    }

    method AllowPostgresRate(key: string, limit: int, now: int) returns (granted: bool)
      modifies this
      ensures (granted, windows) == Allow(old(windows), key, limit, now)
    {
      var known := key in windows;
      if !known && |windows| >= CACHE_SIZE {
        var before, todo := windows, windows.Keys;
        while todo != {}
          invariant todo <= before.Keys
          invariant windows == map k | k in before && (k in todo || !Expired(before[k], now)) :: before[k]
          decreases todo
        {
          var candidate :| candidate in todo;
          if now - windows[candidate].start >= HOUR {
            windows := windows - {candidate};
          }
          todo := todo - {candidate};
        }
        assert windows == Swept(before, key, now);
        if |windows| >= CACHE_SIZE {
          return false;
        }
      }
      var window := Window(now, 0);
      if known && now - windows[key].start < HOUR {
        window := windows[key];
      }
      if window.count >= limit {
        return false;
      }
      window := window.(count := window.count + 1);
      windows := windows[key := window];
      return true;
    }
  }

  // ---- Whole runs ----------------------------------------------------------------------------------

  datatype Call = Call(key: string, now: int)
  datatype Grant = Grant(key: string, time: int)

  /** The limiter with the history of what it granted and the time of its last call. */
  datatype State = State(windows: Windows, grants: seq<Grant>, clock: int)

  function Step(s: State, limit: int, c: Call): State {
    var (granted, windows) := Allow(s.windows, c.key, limit, c.now);
    State(windows, if granted then s.grants + [Grant(c.key, c.now)] else s.grants, c.now)
  }

  /** The calls' times do not decrease, starting from the state's clock. */
  predicate Ordered(clock: int, calls: seq<Call>)
    decreases |calls|
  {
    calls == [] || (clock <= calls[0].now && Ordered(calls[0].now, calls[1..]))
  }

  function Run(s: State, limit: int, calls: seq<Call>): State
    decreases |calls|
  {
    if calls == [] then s else Run(Step(s, limit, calls[0]), limit, calls[1..])
  }

  /** How many grants `key` got in the half-open interval [from, to). */
  function Count(grants: seq<Grant>, key: string, from: int, to: int): nat {
    if grants == [] then 0
    else
      var g := grants[|grants| - 1];
      Count(grants[..|grants| - 1], key, from, to) + (if g.key == key && from <= g.time < to then 1 else 0)
  }

  lemma CountAppend(grants: seq<Grant>, g: Grant, key: string, from: int, to: int)
    ensures Count(grants + [g], key, from, to)
         == Count(grants, key, from, to) + (if g.key == key && from <= g.time < to then 1 else 0)
  {
    assert (grants + [g])[..|grants|] == grants;
  }

  lemma {:induction false} CountSplit(grants: seq<Grant>, key: string, from: int, mid: int, to: int)
    requires from <= mid <= to
    ensures Count(grants, key, from, to) == Count(grants, key, from, mid) + Count(grants, key, mid, to)
  {
    if grants != [] { CountSplit(grants[..|grants| - 1], key, from, mid, to); }
  }

  /** No grant of `key` falls in the interval. */
  lemma {:induction false} CountNone(grants: seq<Grant>, key: string, from: int, to: int)
    requires forall i | 0 <= i < |grants| :: grants[i].time < from || to <= grants[i].time
    ensures Count(grants, key, from, to) == 0
  {
    if grants != [] { CountNone(grants[..|grants| - 1], key, from, to); }
  }

  lemma CountWithin(grants: seq<Grant>, key: string, from: int, to: int, outerFrom: int, outerTo: int)
    requires outerFrom <= from && to <= outerTo
    ensures Count(grants, key, from, to) <= Count(grants, key, outerFrom, outerTo)
  {
    if from <= to {
      CountSplit(grants, key, outerFrom, from, outerTo);
      CountSplit(grants, key, from, to, outerTo);
    } else {
      CountNone(grants, key, from, to);
    }
  }

  predicate NoneAfter(grants: seq<Grant>, clock: int) {
    forall i | 0 <= i < |grants| :: grants[i].time <= clock
  }

  /** Moving the clock forward past every grant changes no count. */
  lemma CountUpTo(grants: seq<Grant>, key: string, from: int, clock: int, now: int)
    requires NoneAfter(grants, clock) && clock <= now
    ensures Count(grants, key, from, now + 1) == Count(grants, key, from, clock + 1)
  {
    if from <= clock + 1 {
      CountSplit(grants, key, from, clock + 1, now + 1);
      CountNone(grants, key, clock + 1, now + 1);
    } else {
      CountNone(grants, key, from, clock + 1);
      CountNone(grants, key, from, now + 1);
    }
  }

  /** What holds of a key with window `w` at time `clock`. All grants of the window are younger than its start
      and less than an hour older; the first of them is at the start itself. In the hour up to the start there
      are at most limit - 1, because the window before opened, with a grant, more than an hour ago. */
  ghost predicate WindowInv(grants: seq<Grant>, clock: int, limit: int, key: string, w: Window) {
    && w.start <= clock && 1 <= w.count <= limit
    && Count(grants, key, w.start, clock + 1) == w.count
    && Count(grants, key, w.start + 1, clock + 1) < w.count
    && Count(grants, key, w.start + HOUR, clock + 1) == 0
    && Count(grants, key, w.start - HOUR + 1, w.start) < limit
  }

  /** What holds of a key without a window: it was never granted, or its last window ended and was swept out. */
  ghost predicate AbsentInv(grants: seq<Grant>, clock: int, limit: int, key: string) {
    && Count(grants, key, clock - HOUR + 1, clock + 1) < limit
    && Count(grants, key, clock, clock + 1) == 0
  }

  ghost predicate KeyInv(s: State, limit: int, key: string) {
    if key in s.windows then WindowInv(s.grants, s.clock, limit, key, s.windows[key])
    else AbsentInv(s.grants, s.clock, limit, key)
  }

  /** Fewer than 2 * limit grants of `key` in the hour from `from`. */
  ghost predicate HourlyBound(grants: seq<Grant>, limit: int, key: string, from: int) {
    Count(grants, key, from, from + HOUR) <= 2 * limit - 1
  }

  ghost predicate Inv(s: State, limit: int) {
    && limit >= 1 && |s.windows| <= CACHE_SIZE && NoneAfter(s.grants, s.clock)
    && (forall key :: KeyInv(s, limit, key))
    && (forall key, from :: HourlyBound(s.grants, limit, key, from))
  }

  lemma WindowLater(grants: seq<Grant>, clock: int, limit: int, key: string, w: Window, now: int)
    requires WindowInv(grants, clock, limit, key, w) && NoneAfter(grants, clock) && clock <= now
    ensures WindowInv(grants, now, limit, key, w)
  {
    hide Count;
    CountUpTo(grants, key, w.start, clock, now);
    CountUpTo(grants, key, w.start + 1, clock, now);
    CountUpTo(grants, key, w.start + HOUR, clock, now);
  }

  lemma AbsentLater(grants: seq<Grant>, clock: int, limit: int, key: string, now: int)
    requires AbsentInv(grants, clock, limit, key) && NoneAfter(grants, clock) && clock <= now
    ensures AbsentInv(grants, now, limit, key)
  {
    hide Count;
    CountUpTo(grants, key, now - HOUR + 1, clock, now);
    CountWithin(grants, key, now - HOUR + 1, clock + 1, clock - HOUR + 1, clock + 1);
    CountUpTo(grants, key, now, clock, now);
    CountWithin(grants, key, now, clock + 1, clock, clock + 1);
  }

  /** A window that has expired may be forgotten. */
  lemma WindowMayBeSwept(grants: seq<Grant>, now: int, limit: int, key: string, w: Window)
    requires WindowInv(grants, now, limit, key, w) && Expired(w, now)
    ensures AbsentInv(grants, now, limit, key)
  {
    hide Count;
    CountWithin(grants, key, now - HOUR + 1, now + 1, w.start + 1, now + 1);
    CountWithin(grants, key, now, now + 1, w.start + HOUR, now + 1);
  }

  lemma GrantInWindow(grants: seq<Grant>, now: int, limit: int, key: string, w: Window)
    requires WindowInv(grants, now, limit, key, w) && !Expired(w, now) && w.count < limit
    ensures WindowInv(grants + [Grant(key, now)], now, limit, key, w.(count := w.count + 1))
  {
    hide Count;
    var g := Grant(key, now);
    CountAppend(grants, g, key, w.start, now + 1);
    CountAppend(grants, g, key, w.start + 1, now + 1);
    CountAppend(grants, g, key, w.start + HOUR, now + 1);
    CountAppend(grants, g, key, w.start - HOUR + 1, w.start);
  }

  lemma GrantInNewWindow(grants: seq<Grant>, now: int, limit: int, key: string)
    requires AbsentInv(grants, now, limit, key) && NoneAfter(grants, now) && limit >= 1
    ensures WindowInv(grants + [Grant(key, now)], now, limit, key, Window(now, 1))
  {
    hide Count;
    var g := Grant(key, now);
    CountAppend(grants, g, key, now, now + 1);
    CountAppend(grants, g, key, now + 1, now + 1);
    CountNone(grants, key, now + 1, now + 1);
    CountAppend(grants, g, key, now + HOUR, now + 1);
    CountNone(grants, key, now + HOUR, now + 1);
    CountAppend(grants, g, key, now - HOUR + 1, now);
    CountWithin(grants, key, now - HOUR + 1, now, now - HOUR + 1, now + 1);
  }

  lemma OtherKey(grants: seq<Grant>, g: Grant, clock: int, limit: int, key: string)
    requires key != g.key
    ensures AbsentInv(grants + [g], clock, limit, key) <==> AbsentInv(grants, clock, limit, key)
    ensures forall w :: WindowInv(grants + [g], clock, limit, key, w) <==> WindowInv(grants, clock, limit, key, w)
  {
    forall from, to ensures Count(grants + [g], key, from, to) == Count(grants, key, from, to) {
      CountAppend(grants, g, key, from, to);
    }
  }

  lemma StepKeepsKeyInv(s: State, limit: int, c: Call, key: string)
    requires Inv(s, limit) && s.clock <= c.now
    ensures KeyInv(Step(s, limit, c), limit, key)
  {
    hide WindowInv, AbsentInv, Count;
    assert KeyInv(s, limit, key);
    var t := Step(s, limit, c);
    if key in s.windows {
      var w := s.windows[key];
      WindowLater(s.grants, s.clock, limit, key, w, c.now);
      if Expired(w, c.now) { WindowMayBeSwept(s.grants, c.now, limit, key, w); }
    } else {
      AbsentLater(s.grants, s.clock, limit, key, c.now);
    }
    if t.grants != s.grants {
      var g := Grant(c.key, c.now);
      if key != c.key {
        OtherKey(s.grants, g, c.now, limit, key);
      } else if key in s.windows && !Expired(s.windows[key], c.now) {
        GrantInWindow(s.grants, c.now, limit, key, s.windows[key]);
      } else {
        GrantInNewWindow(s.grants, c.now, limit, key);
      }
    }
  }

  lemma StepKeepsBound(s: State, limit: int, c: Call, key: string, from: int)
    requires Inv(s, limit) && s.clock <= c.now
    ensures HourlyBound(Step(s, limit, c).grants, limit, key, from)
  {
    hide Count;
    var t := Step(s, limit, c);
    assert HourlyBound(s.grants, limit, key, from);
    if t.grants != s.grants {
      CountAppend(s.grants, Grant(c.key, c.now), key, from, from + HOUR);
      if key == c.key && from <= c.now < from + HOUR {
        StepKeepsKeyInv(s, limit, c, key);
        HourAroundNow(t.grants, c.now, limit, key, t.windows[key], from);
      }
    }
  }

  /** An hour that contains the present meets the current window and the hour before it, no more. */
  lemma HourAroundNow(grants: seq<Grant>, now: int, limit: int, key: string, w: Window, from: int)
    requires WindowInv(grants, now, limit, key, w) && NoneAfter(grants, now)
    requires !Expired(w, now) && from <= now < from + HOUR
    ensures HourlyBound(grants, limit, key, from)
  {
    hide Count;
    CountWithin(grants, key, from, from + HOUR, from, now + HOUR + 1);
    CountUpTo(grants, key, from, now, now + HOUR);
    if from <= w.start {
      CountSplit(grants, key, from, w.start, now + 1);
      CountWithin(grants, key, from, w.start, w.start - HOUR + 1, w.start);
    } else {
      CountWithin(grants, key, from, now + 1, w.start, now + 1);
    }
  }

  lemma SweptIsSmaller(windows: Windows, key: string, now: int)
    ensures |Swept(windows, key, now)| <= |windows|
  {
    assert Swept(windows, key, now).Keys <= windows.Keys;
    SubsetIsSmaller(Swept(windows, key, now).Keys, windows.Keys);
  }

  lemma StepKeepsInv(s: State, limit: int, c: Call)
    requires Inv(s, limit) && s.clock <= c.now
    ensures Inv(Step(s, limit, c), limit)
  {
    hide KeyInv, HourlyBound, Count;
    var t := Step(s, limit, c);
    SweptIsSmaller(s.windows, c.key, c.now);
    forall key ensures KeyInv(t, limit, key) { StepKeepsKeyInv(s, limit, c, key); }
    forall key, from ensures HourlyBound(t.grants, limit, key, from) { StepKeepsBound(s, limit, c, key, from); }
  }

  function Start(clock: int): State { State(map[], [], clock) }

  lemma {:induction false} RunKeepsInv(s: State, limit: int, calls: seq<Call>)
    requires Inv(s, limit) && Ordered(s.clock, calls)
    ensures Inv(Run(s, limit, calls), limit)
    decreases |calls|
  {
    hide Inv, Swept;
    if calls != [] {
      StepKeepsInv(s, limit, calls[0]);
      RunKeepsInv(Step(s, limit, calls[0]), limit, calls[1..]);
    }
  }

  /** After any run: no key has more than 2 * limit - 1 grants in any hour, and the map is within its size. */
  lemma HourlyBoundHolds(limit: int, clock: int, calls: seq<Call>, key: string, from: int)
    requires limit >= 1 && Ordered(clock, calls)
    ensures var s := Run(Start(clock), limit, calls);
            Count(s.grants, key, from, from + 3_600_000_000_000) <= 2 * limit - 1 && |s.windows| <= 5000
  {
    assert Inv(Start(clock), limit);
    RunKeepsInv(Start(clock), limit, calls);
    assert HourlyBound(Run(Start(clock), limit, calls).grants, limit, key, from);
  }

  /** The sweep never forgets a window that has not expired, so no key gets a fresh window early: in every call
      each unexpired window keeps its start and does not lose a grant. */
  lemma UnexpiredWindowsStay(windows: Windows, key: string, limit: int, now: int, k: string)
    requires k in windows && !Expired(windows[k], now)
    ensures var (granted, after) := Allow(windows, key, limit, now);
      && k in after && after[k].start == windows[k].start
      && after[k].count == windows[k].count + (if granted && k == key then 1 else 0)
  {
  }

  /** A full map refuses a new key only when every window left in it is unexpired. */
  lemma RefusalMeansLimitOrFull(windows: Windows, key: string, limit: int, now: int)
    requires limit >= 1 && |windows| <= CACHE_SIZE
    ensures !Allow(windows, key, limit, now).0 <==>
      if key in windows then now - windows[key].start < 3_600_000_000_000 && windows[key].count >= limit
      else |windows| == 5000 && forall k | k in windows :: now - windows[k].start < 3_600_000_000_000
  {
    var swept := Swept(windows, key, now);
    if key !in windows && |windows| == CACHE_SIZE {
      SweptIsSmaller(windows, key, now);
      if k :| k in windows && Expired(windows[k], now) {
        assert swept.Keys <= windows.Keys - {k};
        SubsetIsSmaller(swept.Keys, windows.Keys - {k});
      } else {
        assert swept == windows;
      }
    }
  }

  // ---- The bound is met ----------------------------------------------------------------------------

  /** `n` calls for one key at one time. */
  function Burst(key: string, now: int, n: nat): seq<Call> { seq(n, i => Call(key, now)) }

  lemma OneGrant(s: State, limit: int, key: string, now: int)
    requires key in s.windows && !Expired(s.windows[key], now) && s.windows[key].count < limit
    ensures Step(s, limit, Call(key, now)) ==
      State(s.windows[key := s.windows[key].(count := s.windows[key].count + 1)], s.grants + [Grant(key, now)], now)
  {
  }

  lemma {:induction false} BurstIsGranted(s: State, limit: int, key: string, now: int, n: nat)
    requires key in s.windows && !Expired(s.windows[key], now) && s.windows[key].count + n <= limit
    requires s.clock <= now
    ensures var calls := Burst(key, now, n); var t := Run(s, limit, calls);
      && Ordered(s.clock, calls)
      && t.windows == s.windows[key := s.windows[key].(count := s.windows[key].count + n)]
      && (n > 0 ==> t.clock == now) && (n == 0 ==> t.clock == s.clock)
      && forall from, to :: Count(t.grants, key, from, to)
           == Count(s.grants, key, from, to) + (if from <= now < to then n else 0)
    decreases n
  {
    hide Step, Count;
    var calls := Burst(key, now, n);
    if n > 0 {
      assert calls[1..] == Burst(key, now, n - 1) && calls[0] == Call(key, now);
      OneGrant(s, limit, key, now);
      var u := Step(s, limit, calls[0]);
      forall from, to
        ensures Count(u.grants, key, from, to) == Count(s.grants, key, from, to) + (if from <= now < to then 1 else 0)
      {
        CountAppend(s.grants, Grant(key, now), key, from, to);
      }
      BurstIsGranted(u, limit, key, now, n - 1);
    }
  }

  lemma {:induction false} RunAppend(s: State, limit: int, a: seq<Call>, b: seq<Call>)
    requires Ordered(s.clock, a) && Ordered(Run(s, limit, a).clock, b)
    ensures Run(s, limit, a + b) == Run(Run(s, limit, a), limit, b) && Ordered(s.clock, a + b)
    decreases |a|
  {
    if a == [] {
      assert a + b == b;
    } else {
      assert (a + b)[1..] == a[1..] + b;
      RunAppend(Step(s, limit, a[0]), limit, a[1..], b);
    }
  }

  /** A window opens at 0, fills just before it ends, and the next one fills at once. */
  function Straddle(limit: nat): seq<Call>
    requires limit >= 1
  {
    Burst("", 0, 1) + (Burst("", HOUR - 1, limit - 1) + (Burst("", HOUR, 1) + Burst("", HOUR, limit - 1)))
  }

  lemma FirstCallIsGranted(s: State, limit: int, key: string, now: int)
    requires limit >= 1 && s.clock <= now && |s.windows| < CACHE_SIZE
    requires key in s.windows ==> Expired(s.windows[key], now)
    ensures var calls := Burst(key, now, 1); var t := Run(s, limit, calls);
      && Ordered(s.clock, calls) && t.clock == now && t.windows == s.windows[key := Window(now, 1)]
      && forall from, to :: Count(t.grants, key, from, to)
           == Count(s.grants, key, from, to) + (if from <= now < to then 1 else 0)
  {
    var calls := Burst(key, now, 1);
    assert calls[1..] == [];
    forall from, to { CountAppend(s.grants, Grant(key, now), key, from, to); }
  }

  /** The bound is the best there is: for every limit some run reaches 2 * limit - 1 grants in one hour, so a
      limit of 60 an hour lets 119 through. */
  lemma HourlyBoundIsMet(limit: nat)
    requires limit >= 1
    ensures var calls := Straddle(limit);
      Ordered(0, calls) && Count(Run(Start(0), limit, calls).grants, "", HOUR - 1, HOUR - 1 + HOUR) == 2 * limit - 1
  {
    hide Count, Run, Step, Burst;
    var s0 := Start(0);
    FirstCallIsGranted(s0, limit, "", 0);
    var s1 := Run(s0, limit, Burst("", 0, 1));
    BurstIsGranted(s1, limit, "", HOUR - 1, limit - 1);
    var s2 := Run(s1, limit, Burst("", HOUR - 1, limit - 1));
    FirstCallIsGranted(s2, limit, "", HOUR);
    var s3 := Run(s2, limit, Burst("", HOUR, 1));
    BurstIsGranted(s3, limit, "", HOUR, limit - 1);
    RunAppend(s2, limit, Burst("", HOUR, 1), Burst("", HOUR, limit - 1));
    RunAppend(s1, limit, Burst("", HOUR - 1, limit - 1), Burst("", HOUR, 1) + Burst("", HOUR, limit - 1));
    RunAppend(s0, limit, Burst("", 0, 1), Burst("", HOUR - 1, limit - 1) + (Burst("", HOUR, 1) + Burst("", HOUR, limit - 1)));
    CountNone([], "", HOUR - 1, HOUR - 1 + HOUR);
  }

  /** The run keeps at most `limit` grants of the key in the hour from `from`. */
  predicate WithinLimit(limit: int, clock: int, calls: seq<Call>, key: string, from: int)
    requires Ordered(clock, calls)
  {
    Count(Run(Start(clock), limit, calls).grants, key, from, from + HOUR) <= limit
  }

  /** For which limits the limit is an hourly one: every run keeps to it in every hour if and only if it is 1. */
  lemma HourlyLimitMeansOne(limit: nat)
    requires limit >= 1
    ensures (forall clock, calls, key, from | Ordered(clock, calls) :: WithinLimit(limit, clock, calls, key, from))
       <==> limit == 1
  {
    hide Count, Run, Straddle, Ordered;
    if limit == 1 {
      forall clock, calls, key, from | Ordered(clock, calls) ensures WithinLimit(limit, clock, calls, key, from) {
        HourlyBoundHolds(limit, clock, calls, key, from);
      }
    } else {
      HourlyBoundIsMet(limit);
      assert !WithinLimit(limit, 0, Straddle(limit), "", HOUR - 1);
    }
  }
}
