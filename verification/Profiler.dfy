/** The sampling profiler's windows: `_add` collects weights, `_flush` closes a window, `_cpu_tick` samples the
    threads that used the CPU. */
module Profiler {
  import opened Options
  import opened Collections

  datatype Context = Context(traceId: string, spanId: string, endpoint: Option<string>)

  datatype Key = Key(stack: string, lines: seq<int>, context: Option<Context>)

  datatype Kind = Cpu | Wall

  type Window = map<Key, int>

  datatype Samples = Samples(cpu: Window, wall: Window)

  const EMPTY := Samples(map[], map[])
  const MAX_STACK := 16000
  const MAX_KEYS := 4096

  function Of(s: Samples, kind: Kind): Window { if kind.Cpu? then s.cpu else s.wall }

  function With(s: Samples, kind: Kind, w: Window): Samples { if kind.Cpu? then s.(cpu := w) else s.(wall := w) }

  function Get<K>(w: map<K, int>, key: K): int { if key in w then w[key] else 0 }

  predicate Admits(w: Window, key: Key) {
    key.stack != "" && |key.stack| <= MAX_STACK && (key in w || |w| < MAX_KEYS)
  }

  /** The samples after one `_add`. */
  function Added(s: Samples, kind: Kind, key: Key, weight: int): Samples {
    var w := Of(s, kind);
    if Admits(w, key) then With(s, kind, w[key := Get(w, key) + weight]) else s
  }

  // ---- Threads and their CPU time ------------------------------------------------------------------

  /** What the sampler sees of a thread: whether it watches it at all (it has a native id, is not the profiler and
      is not one of the agent's own), and the CPU time in nanoseconds it could read. */
  datatype Thread = Thread(ident: int, watched: bool, used: Option<int>)

  datatype Frame = Frame(stack: string, lines: seq<int>, context: Option<Context>)

  datatype Tick = Tick(threads: seq<Thread>, frames: map<int, Frame>)

  /** The readings of one tick. */
  function Seen(threads: seq<Thread>): map<int, int> {
    if threads == [] then map[] else
      var before, last := Seen(threads[..|threads| - 1]), threads[|threads| - 1];
      if last.watched && last.used.Some? then before[last.ident := last.used.value] else before
  }

  /** A thread gets a sample: it was read in the tick before, it has a frame and it used at least half a period. */
  predicate Due(seen: map<int, int>, frames: map<int, Frame>, thread: Thread, period: nat) {
    && thread.watched && thread.used.Some? && thread.ident in seen && thread.ident in frames
    && thread.used.value - seen[thread.ident] >= period * 500000
  }

  function FrameKey(frame: Frame): Key { Key(frame.stack, frame.lines, frame.context) }

  /** The samples after the threads of one tick. */
  function Ticked(s: Samples, seen: map<int, int>, frames: map<int, Frame>, threads: seq<Thread>, period: nat): Samples {
    if threads == [] then s else
      var before, last := Ticked(s, seen, frames, threads[..|threads| - 1], period), threads[|threads| - 1];
      if Due(seen, frames, last, period) then Added(before, Cpu, FrameKey(frames[last.ident]), 1) else before
  }

  class Profiler {
    const period: nat
    var samples: Samples
    var cpuSeen: map<int, int>

    constructor (period: nat)
      ensures this.period == period && samples == EMPTY && cpuSeen == map[]
    {
      this.period := period;
      samples := EMPTY;
      cpuSeen := map[];
    }

    method Add(kind: Kind, stack: string, lines: seq<int>, weight: int, context: Option<Context>)
      modifies this`samples
      ensures samples == Added(old(samples), kind, Key(stack, lines, context), weight)
    {
      if stack == "" || |stack| > MAX_STACK { return; }
      var key := Key(stack, lines, context);
      var window := Of(samples, kind);
      if key in window || |window| < MAX_KEYS {
        samples := With(samples, kind, window[key := Get(window, key) + weight]);
      }
    }

    /** Swaps the window; the closed one is what the profiler goes on to emit. */
    method Flush() returns (window: Samples)
      modifies this`samples
      ensures window == old(samples) && samples == EMPTY
    {
      window, samples := samples, EMPTY;
    }

    method CpuTick(threads: seq<Thread>, frames: map<int, Frame>)
      modifies this
      ensures cpuSeen == Seen(threads)
      ensures samples == Ticked(old(samples), old(cpuSeen), frames, threads, period)
    {
      hide Added;
      var seen: map<int, int> := map[];
      for i := 0 to |threads|
        invariant seen == Seen(threads[..i])
        invariant cpuSeen == old(cpuSeen)
        invariant samples == Ticked(old(samples), old(cpuSeen), frames, threads[..i], period)
      {
        var thread := threads[i];
        assert threads[..i + 1][..i] == threads[..i] && threads[..i + 1][i] == thread;
        if !thread.watched || thread.used == None { continue; }
        var used := thread.used.value;
        seen := seen[thread.ident := used];
        if thread.ident !in cpuSeen || thread.ident !in frames || used - cpuSeen[thread.ident] < period * 500000 { continue; }
        var frame := frames[thread.ident];
        Add(Cpu, frame.stack, frame.lines, 1, frame.context);
      }
      assert threads[..|threads|] == threads;
      cpuSeen := seen;
    }
  }

  // ---- Conservation of weight ----------------------------------------------------------------------

  datatype Event = Add(kind: Kind, key: Key, weight: int) | Flush

  /** The current window and the closed ones. */
  datatype State = State(samples: Samples, closed: seq<Samples>)

  function After(s: State, e: Event): State {
    match e
    case Add(kind, key, weight) => s.(samples := Added(s.samples, kind, key, weight))
    case Flush => State(EMPTY, s.closed + [s.samples])
  }

  function Run(s: State, events: seq<Event>): State {
    if events == [] then s else After(Run(s, events[..|events| - 1]), events[|events| - 1])
  }

  const START := State(EMPTY, [])

  /** Event `i` adds a weight for this kind and key, and it is accepted. */
  predicate Accepted(events: seq<Event>, i: nat, kind: Kind, key: Key) {
    && i < |events| && events[i].Add? && events[i].kind == kind && events[i].key == key
    && Admits(Of(Run(START, events[..i]).samples, kind), key)
  }

  /** The accepted weight of events `i .. j`. */
  function Weight(events: seq<Event>, i: nat, j: nat, kind: Kind, key: Key): int
    requires i <= j <= |events|
    decreases j
  {
    if i == j then 0 else
      Weight(events, i, j - 1, kind, key) + if Accepted(events, j - 1, kind, key) then events[j - 1].weight else 0
  }

  function InWindows(closed: seq<Samples>, kind: Kind, key: Key): int {
    if closed == [] then 0 else InWindows(closed[..|closed| - 1], kind, key) + Get(Of(closed[|closed| - 1], kind), key)
  }

  lemma OneMoreEvent(events: seq<Event>, j: nat)
    requires j < |events|
    ensures Run(START, events[..j + 1]) == After(Run(START, events[..j]), events[j])
  {
    assert events[..j + 1][..j] == events[..j];
  }

  /** One event changes a key's weight by what is accepted for it, unless it closes the window. */
  lemma AddStep(events: seq<Event>, j: nat, kind: Kind, key: Key)
    requires j < |events| && events[j].Add?
    ensures Get(Of(Run(START, events[..j + 1]).samples, kind), key)
         == Get(Of(Run(START, events[..j]).samples, kind), key)
           + if Accepted(events, j, kind, key) then events[j].weight else 0
    ensures Run(START, events[..j + 1]).closed == Run(START, events[..j]).closed
  {
    hide Run;
    OneMoreEvent(events, j);
  }

  /** Every accepted weight is in exactly one window: those closed so far and the current one add up. */
  lemma {:induction false} WeightIsConserved(events: seq<Event>, j: nat, kind: Kind, key: Key)
    requires j <= |events|
    ensures var s := Run(START, events[..j]);
            Weight(events, 0, j, kind, key) == InWindows(s.closed, kind, key) + Get(Of(s.samples, kind), key)
    decreases j
  {
    hide Run, Accepted;
    if j == 0 {
      assert events[..0] == [];
      NothingRun();
    } else {
      WeightIsConserved(events, j - 1, kind, key);
      if events[j - 1].Add? {
        AddStep(events, j - 1, kind, key);
      } else {
        OneMoreEvent(events, j - 1);
        FlushIsNoAdd(events, j - 1, kind, key);
      }
    }
  }

  lemma NothingRun()
    ensures Run(START, []) == START
  {
  }

  lemma FlushIsNoAdd(events: seq<Event>, i: nat, kind: Kind, key: Key)
    requires i < |events| && events[i].Flush?
    ensures !Accepted(events, i, kind, key)
  {
  }

  /** Events `i .. j` are additions, from the start or from a flush on: one window, as far as it got. */
  predicate IsWindow(events: seq<Event>, i: nat, j: nat) {
    i <= j <= |events| && (i > 0 ==> events[i - 1].Flush?) && forall k | i <= k < j :: events[k].Add?
  }

  /** The current window holds exactly what was accepted since the last flush, event `i - 1`. */
  lemma {:induction false} WindowHoldsItsAdds(events: seq<Event>, i: nat, j: nat, kind: Kind, key: Key)
    requires IsWindow(events, i, j)
    ensures Get(Of(Run(START, events[..j]).samples, kind), key) == Weight(events, i, j, kind, key)
    decreases j
  {
    hide Run, Accepted;
    if i < j {
      WindowHoldsItsAdds(events, i, j - 1, kind, key);
      AddStep(events, j - 1, kind, key);
    } else if i > 0 {
      OneMoreEvent(events, i - 1);
    } else {
      assert events[..0] == [];
      NothingRun();
    }
  }

  /** A closed window never changes again. */
  lemma {:induction false} ClosedWindowsAreFinal(events: seq<Event>, i: nat, j: nat)
    requires i <= j <= |events|
    ensures Run(START, events[..i]).closed <= Run(START, events[..j]).closed
    decreases j
  {
    hide Run;
    if i < j {
      ClosedWindowsAreFinal(events, i, j - 1);
      OneMoreEvent(events, j - 1);
    }
  }

  predicate Bounded(w: Window) {
    |w| <= 4096 && forall key | key in w :: 0 < |key.stack| <= 16000
  }

  lemma AddedIsBounded(w: Window, key: Key, weight: int)
    requires Bounded(w) && Admits(w, key)
    ensures Bounded(w[key := weight])
  {
    assert w[key := weight].Keys == w.Keys + {key};
  }

  lemma {:induction false} WindowsAreBounded(events: seq<Event>, kind: Kind)
    ensures var s := Run(START, events);
            Bounded(Of(s.samples, kind)) && forall i | 0 <= i < |s.closed| :: Bounded(Of(s.closed[i], kind))
  {
    hide Bounded;
    NothingIsBounded();
    if events != [] {
      var before := Run(START, events[..|events| - 1]);
      WindowsAreBounded(events[..|events| - 1], kind);
      match events[|events| - 1]
      case Add(k, key, weight) =>
        if k == kind && Admits(Of(before.samples, kind), key) {
          AddedIsBounded(Of(before.samples, kind), key, Get(Of(before.samples, kind), key) + weight);
        }
      case Flush =>
    }
  }

  lemma NothingIsBounded()
    ensures Bounded(map[])
  {
  }

  /** Event `i` brings a weight of a kind whose stack can be kept. */
  predicate Keepable(events: seq<Event>, i: nat, kind: Kind) {
    i < |events| && events[i].Add? && events[i].kind == kind && 0 < |events[i].key.stack| <= 16000
  }

  /** The keys that these events bring for a kind. */
  function KeepableKeys(events: seq<Event>, i: nat, j: nat, kind: Kind): set<Key>
    requires i <= j <= |events|
  {
    set k | i <= k < j && Keepable(events, k, kind) :: events[k].key
  }

  lemma WindowStarts(events: seq<Event>, i: nat, kind: Kind)
    requires IsWindow(events, i, i)
    ensures Of(Run(START, events[..i]).samples, kind) == map[]
  {
    hide Run;
    if i > 0 {
      OneMoreEvent(events, i - 1);
    } else {
      assert events[..0] == [];
      NothingRun();
    }
  }

  /** Every weight of the kind whose stack can be kept is accepted. */
  predicate AllAccepted(events: seq<Event>, i: nat, j: nat, kind: Kind) {
    forall k | i <= k < j && Keepable(events, k, kind) :: Accepted(events, k, kind, events[k].key)
  }

  lemma KeysStep(events: seq<Event>, j: nat, kind: Kind)
    requires j < |events| && events[j].Add?
    ensures Of(Run(START, events[..j + 1]).samples, kind).Keys == Of(Run(START, events[..j]).samples, kind).Keys
      + if Accepted(events, j, kind, events[j].key) then {events[j].key} else {}
    ensures Accepted(events, j, kind, events[j].key) ==> Keepable(events, j, kind)
  {
    hide Run;
    OneMoreEvent(events, j);
  }

  lemma KeepableStep(events: seq<Event>, i: nat, j: nat, kind: Kind)
    requires i <= j < |events| && events[j].Add?
    ensures KeepableKeys(events, i, j + 1, kind) == KeepableKeys(events, i, j, kind)
      + if Keepable(events, j, kind) then {events[j].key} else {}
  {
    hide Keepable;
  }

  /** A window's keys are among the keys it was brought, and all of them if every one of them was accepted. */
  lemma {:induction false} WindowKeys(events: seq<Event>, i: nat, j: nat, kind: Kind)
    requires IsWindow(events, i, j)
    ensures var keys := Of(Run(START, events[..j]).samples, kind).Keys;
      && keys <= KeepableKeys(events, i, j, kind)
      && (AllAccepted(events, i, j, kind) ==> keys == KeepableKeys(events, i, j, kind))
    decreases j
  {
    hide Run, Keepable, Accepted, Of;
    if i == j {
      WindowStarts(events, i, kind);
      assert KeepableKeys(events, i, j, kind) == {};
    } else {
      hide KeepableKeys;
      WindowKeys(events, i, j - 1, kind);
      KeysStep(events, j - 1, kind);
      KeepableStep(events, i, j - 1, kind);
    }
  }

  lemma RoomIsLeft(w: Window, keys: set<Key>, key: Key)
    requires w.Keys <= keys && key in keys && |keys| <= MAX_KEYS
    ensures key in w || |w| < MAX_KEYS
  {
    if key !in w {
      SubsetIsSmaller(w.Keys + {key}, keys);
      assert |w.Keys + {key}| == |w| + 1;
    }
  }

  /** A window accepts every weight whose stack can be kept if and only if it is brought at most 4096 different
      keys of the kind, however many the windows before it were brought. */
  lemma NothingIsDropped(events: seq<Event>, i: nat, j: nat, kind: Kind)
    requires IsWindow(events, i, j)
    ensures AllAccepted(events, i, j, kind) <==> |KeepableKeys(events, i, j, kind)| <= 4096
  {
    hide Run;
    WindowKeys(events, i, j, kind);
    WindowsAreBounded(events[..j], kind);
    if |KeepableKeys(events, i, j, kind)| <= MAX_KEYS {
      forall k | i <= k < j && Keepable(events, k, kind) ensures Accepted(events, k, kind, events[k].key) {
        WindowKeys(events, i, k, kind);
        assert KeepableKeys(events, i, k, kind) <= KeepableKeys(events, i, j, kind);
        assert events[k].key in KeepableKeys(events, i, j, kind);
        RoomIsLeft(Of(Run(START, events[..k]).samples, kind), KeepableKeys(events, i, j, kind), events[k].key);
      }
    }
  }

  // ---- CPU ticks -----------------------------------------------------------------------------------

  /** The samples that one tick adds, as events. */
  function TickAdds(seen: map<int, int>, frames: map<int, Frame>, threads: seq<Thread>, period: nat): seq<Event> {
    if threads == [] then [] else
      var last := threads[|threads| - 1];
      TickAdds(seen, frames, threads[..|threads| - 1], period) +
      if Due(seen, frames, last, period) then [Add(Cpu, FrameKey(frames[last.ident]), 1)] else []
  }

  /** The threads that a tick samples, in order: read in the tick before and now, with a frame, and with at least half
      a period of CPU time in between. */
  function Sampled(seen: map<int, int>, frames: map<int, Frame>, threads: seq<Thread>, period: nat): seq<Thread> {
    if threads == [] then [] else
      var before, last := Sampled(seen, frames, threads[..|threads| - 1], period), threads[|threads| - 1];
      if last.watched && last.used.Some? && last.ident in seen && last.ident in frames
         && 2 * (last.used.value - seen[last.ident]) >= period * 1_000_000
      then before + [last] else before
  }

  /** Each sampled thread adds one to its own stack in its own context, and no other thread adds anything. */
  lemma {:induction false} SamplesAreOfTheirThreads(seen: map<int, int>, frames: map<int, Frame>,
    threads: seq<Thread>, period: nat)
    ensures var sampled, adds := Sampled(seen, frames, threads, period), TickAdds(seen, frames, threads, period);
      && |adds| == |sampled|
      && forall k | 0 <= k < |adds| :: sampled[k].ident in frames && adds[k].Add?
           && var frame, key := frames[sampled[k].ident], adds[k].key;
              && adds[k].kind == Cpu && adds[k].weight == 1
              && key.stack == frame.stack && key.lines == frame.lines && key.context == frame.context
  {
    if threads != [] { SamplesAreOfTheirThreads(seen, frames, threads[..|threads| - 1], period); }
  }

  /** A tick is a run of `_add`, one for each due thread. */
  lemma {:induction false} TickIsAdds(s: State, seen: map<int, int>, frames: map<int, Frame>,
    threads: seq<Thread>, period: nat)
    ensures Run(s, TickAdds(seen, frames, threads, period)) == s.(samples := Ticked(s.samples, seen, frames, threads, period))
  {
    hide Added, Due;
    if threads != [] {
      TickIsAdds(s, seen, frames, threads[..|threads| - 1], period);
      var before := TickAdds(seen, frames, threads[..|threads| - 1], period);
      var all := TickAdds(seen, frames, threads, period);
      assert all != before ==> all[..|all| - 1] == before;
    }
  }

  /** The readings that the profiler remembers after a run of ticks. */
  function Remembered(ticks: seq<Tick>): map<int, int> {
    if ticks == [] then map[] else Seen(ticks[|ticks| - 1].threads)
  }

  /** How many samples one tick adds for a thread. */
  function TickSamples(seen: map<int, int>, frames: map<int, Frame>, threads: seq<Thread>, period: nat, ident: int): nat {
    if threads == [] then 0 else
      var last := threads[|threads| - 1];
      TickSamples(seen, frames, threads[..|threads| - 1], period, ident)
        + if last.ident == ident && Due(seen, frames, last, period) then 1 else 0
  }

  function CountSamples(ticks: seq<Tick>, period: nat, ident: int): nat {
    if ticks == [] then 0 else
      var front, last := ticks[..|ticks| - 1], ticks[|ticks| - 1];
      CountSamples(front, period, ident) + TickSamples(Remembered(front), last.frames, last.threads, period, ident)
  }

  /** threading.enumerate lists a thread once. */
  predicate Distinct(threads: seq<Thread>) {
    forall i, j | 0 <= i < j < |threads| :: threads[i].ident != threads[j].ident
  }

  /** What is remembered of a tick: the reading of each thread that is watched and could be read, and no other. */
  lemma {:induction false} ReadingsAreKept(threads: seq<Thread>, ident: int)
    requires Distinct(threads)
    ensures forall i | 0 <= i < |threads| && threads[i].ident == ident ::
      if threads[i].watched && threads[i].used.Some? then ident in Seen(threads) && Seen(threads)[ident] == threads[i].used.value
      else ident !in Seen(threads)
    ensures (forall i | 0 <= i < |threads| :: threads[i].ident != ident) ==> ident !in Seen(threads)
  {
    if threads != [] {
      var front := threads[..|threads| - 1];
      assert forall i | 0 <= i < |front| :: front[i] == threads[i];
      ReadingsAreKept(front, ident);
    }
  }

  predicate SampledOnce(seen: map<int, int>, tick: Tick, period: nat, ident: int) {
    && ident in Seen(tick.threads) && ident in seen && ident in tick.frames
    && Seen(tick.threads)[ident] - seen[ident] >= period * 500000
  }

  lemma {:induction false} NotThereNotSampled(seen: map<int, int>, frames: map<int, Frame>,
    threads: seq<Thread>, period: nat, ident: int)
    requires forall i | 0 <= i < |threads| :: threads[i].ident != ident
    ensures TickSamples(seen, frames, threads, period, ident) == 0 && ident !in Seen(threads)
  {
    hide Due;
    if threads != [] { NotThereNotSampled(seen, frames, threads[..|threads| - 1], period, ident); }
  }

  lemma {:induction false} AtMostOneSample(seen: map<int, int>, tick: Tick, period: nat, ident: int)
    requires Distinct(tick.threads)
    ensures TickSamples(seen, tick.frames, tick.threads, period, ident)
      == if SampledOnce(seen, tick, period, ident) then 1 else 0
    decreases |tick.threads|
  {
    if tick.threads != [] {
      var front, last := tick.threads[..|tick.threads| - 1], tick.threads[|tick.threads| - 1];
      assert Distinct(front);
      if last.ident == ident {
        NotThereNotSampled(seen, tick.frames, front, period, ident);
      } else {
        AtMostOneSample(seen, tick.(threads := front), period, ident);
      }
    }
  }

  /** The CPU time a thread was seen to use between consecutive ticks; what passes while it is not read counts
      as nothing, and so does a reading that goes down. */
  function Growth(ticks: seq<Tick>, ident: int): nat {
    if ticks == [] then 0 else
      var front, last := ticks[..|ticks| - 1], ticks[|ticks| - 1];
      var before, now := Remembered(front), Seen(last.threads);
      Growth(front, ident)
        + if ident in before && ident in now && now[ident] > before[ident] then now[ident] - before[ident] else 0
  }

  predicate AllDistinct(ticks: seq<Tick>) { forall i | 0 <= i < |ticks| :: Distinct(ticks[i].threads) }

  /** Samples never claim more than the CPU time that was seen, whatever the readings do. */
  lemma {:induction false} SamplesWithinGrowth(ticks: seq<Tick>, period: nat, ident: int)
    requires AllDistinct(ticks)
    ensures CountSamples(ticks, period, ident) * (period * 500000) <= Growth(ticks, ident)
  {
    hide TickSamples, Seen;
    if ticks != [] {
      var front, last := ticks[..|ticks| - 1], ticks[|ticks| - 1];
      SamplesWithinGrowth(front, period, ident);
      AtMostOneSample(Remembered(front), last, period, ident);
      OneMore(CountSamples(front, period, ident), period * 500000);
    }
  }

  lemma OneMore(n: nat, p: nat)
    ensures (n + 1) * p == n * p + p
  {
  }

  function FirstReading(ticks: seq<Tick>, ident: int): Option<int> {
    if ticks == [] then None else
      var before, now := FirstReading(ticks[..|ticks| - 1], ident), Seen(ticks[|ticks| - 1].threads);
      if before.Some? then before else if ident in now then Some(now[ident]) else None
  }

  function LastReading(ticks: seq<Tick>, ident: int): Option<int> {
    if ticks == [] then None else
      var now := Seen(ticks[|ticks| - 1].threads);
      if ident in now then Some(now[ident]) else LastReading(ticks[..|ticks| - 1], ident)
  }

  /** The readings of a thread never go down, however long it was away. */
  predicate NonDecreasing(ticks: seq<Tick>, ident: int) {
    if ticks == [] then true else
      var front, now := ticks[..|ticks| - 1], Seen(ticks[|ticks| - 1].threads);
      NonDecreasing(front, ident) &&
      (ident in now && LastReading(front, ident).Some? ==> LastReading(front, ident).value <= now[ident])
  }

  lemma {:induction false} GrowthTelescopes(ticks: seq<Tick>, ident: int)
    requires NonDecreasing(ticks, ident)
    ensures FirstReading(ticks, ident).Some? <==> LastReading(ticks, ident).Some?
    ensures LastReading(ticks, ident) == None ==> Growth(ticks, ident) == 0
    ensures LastReading(ticks, ident).Some? ==>
      Growth(ticks, ident) <= LastReading(ticks, ident).value - FirstReading(ticks, ident).value
  {
    hide Seen;
    if ticks != [] {
      var front := ticks[..|ticks| - 1];
      GrowthTelescopes(front, ident);
      assert forall id | id in Remembered(front) :: front != [] && LastReading(front, id) == Some(Remembered(front)[id]);
    }
  }

  /** For a thread whose CPU readings never go down, the samples times half a period stay within the time between
      its first and its last reading, through any disappearance of the thread. */
  lemma SamplesWithinCpuTime(ticks: seq<Tick>, period: nat, ident: int)
    requires AllDistinct(ticks) && NonDecreasing(ticks, ident)
    ensures var first, last := FirstReading(ticks, ident), LastReading(ticks, ident);
            if last == None then CountSamples(ticks, period, ident) * (period * 500000) == 0
            else first.Some? && CountSamples(ticks, period, ident) * (period * 500000) <= last.value - first.value
  {
    hide Growth, CountSamples, FirstReading, LastReading, NonDecreasing;
    SamplesWithinGrowth(ticks, period, ident);
    GrowthTelescopes(ticks, ident);
  }
}
