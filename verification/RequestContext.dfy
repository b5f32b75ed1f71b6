/** The Python agent's request table: which request a span belongs to, and which requests are open on a thread. */
module RequestContext {
  import opened Options
  import opened Collections

  const MAX_PER_THREAD := 256
  const MAX_SPANS := 65536

  /** One SERVER span's request. */
  class RequestState {
    const spanId: int
    const thread: int
    var active: bool

    constructor (spanId: int, thread: int)
      ensures this.spanId == spanId && this.thread == thread && active
    {
      this.spanId, this.thread := spanId, thread;
      active := true;
    }
  }

  // ---- The table as a value ------------------------------------------------------------------------

  datatype View = View(spans: map<int, RequestState>, threads: map<int, seq<RequestState>>, active: set<RequestState>)

  function Get<T>(lists: map<int, seq<T>>, key: int): seq<T> { if key in lists then lists[key] else [] }

  /** list.remove: without its first occurrence. */
  function Remove<T(==)>(s: seq<T>, x: T): seq<T> {
    if s == [] then [] else if s[0] == x then s[1..] else [s[0]] + Remove(s[1..], x)
  }

  /** The request of a new SERVER span joins its thread's list, if that has room. */
  ghost function Opened(v: View, made: RequestState, thread: int): View {
    var list := Get(v.threads, thread);
    View(v.spans, v.threads[thread := if |list| < MAX_PER_THREAD then list + [made] else list], v.active + {made})
  }

  /** on_start. `made` is the new request of a SERVER span, None for a span of another kind. */
  ghost function Started(v: View, spanId: int, made: Option<RequestState>, parentId: int, thread: int): View {
    var request := if made.Some? then made else if parentId in v.spans then Some(v.spans[parentId]) else None;
    var w := if made.Some? then Opened(v, made.value, thread) else v;
    if request.Some? && request.value in w.active && |v.spans| < MAX_SPANS then w.(spans := v.spans[spanId := request.value])
      else w
  }

  lemma OpenedKeepsSpans(v: View, made: Option<RequestState>, thread: int)
    ensures made.Some? ==> Opened(v, made.value, thread).spans == v.spans
  {
  }

  /** on_end. */
  ghost function Ended(v: View, spanId: int, server: bool): View {
    if spanId !in v.spans then v
    else if !server then v.(spans := v.spans - {spanId})
    else
      var request := v.spans[spanId];
      var list := Get(v.threads, request.thread);
      View(
        v.spans - {spanId},
        if request !in list then v.threads
        else if Remove(list, request) == [] then v.threads - {request.thread}
        else v.threads[request.thread := Remove(list, request)],
        v.active - {request})
  }

  ghost function Current(v: View, spanId: int): Option<RequestState> {
    if spanId in v.spans && v.spans[spanId] in v.active then Some(v.spans[spanId]) else None
  }

  ghost function ThreadContext(v: View, thread: int): Option<RequestState> {
    if |Get(v.threads, thread)| == 1 then Some(v.threads[thread][0]) else None
  }

  // ---- The table as a program ----------------------------------------------------------------------

  /** Each method runs under the table's lock. */
  class Requests {
    var spans: map<int, RequestState>
    var threads: map<int, seq<RequestState>>
    ghost var made: set<RequestState>  // every request ever created

    ghost function Now(): View
      reads this, made
    {
      View(spans, threads, set r | r in made && r.active)
    }

    ghost predicate Valid()
      reads this
    {
      && (forall id | id in spans :: spans[id] in made)
      && forall t, i | t in threads && 0 <= i < |threads[t]| :: threads[t][i] in made
    }

    constructor ()
      ensures Valid() && Now() == View(map[], map[], {})
    {
      spans, threads, made := map[], map[], {};
    }

    /** A SERVER span's request, put on the list of its thread while that has room. */
    method NewRequest(spanId: int, thread: int) returns (state: RequestState)
      requires Valid()
      modifies this`threads, this`made
      ensures Valid() && fresh(state) && state.spanId == spanId && state.thread == thread && state in made && state.active
      ensures Now() == Opened(old(Now()), state, thread)
    {
      state := new RequestState(spanId, thread);
      made := made + {state};
      var active := if thread in threads then threads[thread] else [];
      threads := threads[thread := active];
      if |active| < MAX_PER_THREAD {
        threads := threads[thread := active + [state]];
      }
      assert Now().active == old(Now()).active + {state};
    }

    /** `parentId` is the span that is current in the parent context, `thread` the calling thread. */
    method OnStart(spanId: int, server: bool, parentId: int, thread: int) returns (ghost created: Option<RequestState>)
      requires Valid()
      modifies this
      ensures Valid() && created.Some? == server
      ensures server ==> fresh(created.value) && created.value.spanId == spanId && created.value.thread == thread
      ensures Now() == Started(old(Now()), spanId, created, parentId, thread)
    {
      hide Opened;
      var request: RequestState? := if parentId in spans then spans[parentId] else null;
      created := None;
      if server {
        var state := NewRequest(spanId, thread);
        request, created := state, Some(state);
      }
      OpenedKeepsSpans(old(Now()), created, thread);
      if request != null && request.active && |spans| < MAX_SPANS {
        spans := spans[spanId := request];
      }
      assert Now().active == Started(old(Now()), spanId, created, parentId, thread).active;
    }

    method OnEnd(spanId: int, server: bool)
      requires Valid()
      modifies this`spans, this`threads, made
      ensures Valid() && made == old(made)
      ensures Now() == Ended(old(Now()), spanId, server)
    {
      if spanId !in spans { return; }
      var request := spans[spanId];
      spans := spans - {spanId};
      if !server { return; }
      request.active := false;
      if request.thread in threads && request in threads[request.thread] {
        var left := Remove(threads[request.thread], request);
        RemoveKeepsElements(threads[request.thread], request);
        threads := threads[request.thread := left];
        if left == [] { threads := threads - {request.thread}; }
      }
      assert Now().active == Ended(old(Now()), spanId, server).active;
      assert Now().threads == Ended(old(Now()), spanId, server).threads;
    }

    method CurrentRequest(spanId: int) returns (request: Option<RequestState>)
      requires Valid()
      ensures request == Current(Now(), spanId)
    {
      request := if spanId in spans && spans[spanId].active then Some(spans[spanId]) else None;
    }

    method OfThread(thread: int) returns (request: Option<RequestState>)
      ensures request == ThreadContext(Now(), thread)
    {
      if thread !in threads || |threads[thread]| != 1 { return None; }
      request := Some(threads[thread][0]);
    }
  }

  lemma {:induction false} RemoveKeepsElements<T>(s: seq<T>, x: T)
    ensures forall i | 0 <= i < |Remove(s, x)| :: Remove(s, x)[i] in s
  {
    if s != [] { RemoveKeepsElements(s[1..], x); }
  }

  // ---- What the events say -------------------------------------------------------------------------

  datatype Event =
    | Start(spanId: int, made: Option<RequestState>, parentId: int, thread: int)
    | End(spanId: int, server: bool)

  /** The reference: the open SERVER spans' requests in the order they started, the nearest enclosing request of
      every span, the requests made so far and the span ids used. */
  datatype History = History(open: seq<RequestState>, owner: map<int, RequestState>, made: set<RequestState>, used: set<int>)

  ghost predicate IsServer(h: History, spanId: int) { spanId in h.owner && h.owner[spanId].spanId == spanId }

  /** Span ids are unique, a request is new when its span starts, and a span ends with the kind it started with. */
  ghost predicate CanHappen(h: History, e: Event) {
    match e
    case Start(spanId, made, _, thread) =>
      spanId !in h.used && (made.Some? ==>
        made.value !in h.made && made.value.spanId == spanId && made.value.thread == thread)
    case End(spanId, server) => spanId in h.used ==> (server <==> IsServer(h, spanId))
  }

  ghost function Noted(h: History, e: Event): History {
    match e
    case Start(spanId, made, parentId, _) =>
      if made.Some? then History(h.open + [made.value], h.owner[spanId := made.value],
        h.made + {made.value}, h.used + {spanId})
      else if parentId in h.owner then h.(owner := h.owner[spanId := h.owner[parentId]], used := h.used + {spanId})
      else h.(used := h.used + {spanId})
    case End(spanId, _) =>
      if IsServer(h, spanId) then h.(open := Remove(h.open, h.owner[spanId])) else h
  }

  ghost function After(v: View, e: Event): View {
    match e
    case Start(spanId, made, parentId, thread) => Started(v, spanId, made, parentId, thread)
    case End(spanId, server) => Ended(v, spanId, server)
  }

  /** A SERVER span starts below both limits. */
  ghost predicate BelowCaps(v: View, e: Event) {
    e.Start? && e.made.Some? ==> |Get(v.threads, e.thread)| < 256 && |v.spans| < 65536
  }

  // ---- What holds at any load ----------------------------------------------------------------------

  /** No entry can lead to `r` as a current request. */
  ghost predicate Dead(v: View, r: RequestState) { r !in v.active || forall id | id in v.spans :: v.spans[id] != r }

  /** No empty list is stored, every entry leads to the nearest enclosing request, what the table knows of was
      started before, and a request without an entry for its own span is dead. */
  ghost predicate Sound(v: View, h: History) {
    && (forall t | t in v.threads :: v.threads[t] != [])
    && (forall id | id in v.spans :: id in h.owner && v.spans[id] == h.owner[id])
    && (forall id | id in h.owner :: id in h.used && h.owner[id] in h.made)
    && v.active <= h.made
    && (forall r | r in h.made :: r.spanId in h.used)
    && (forall r | r in h.made :: (r.spanId in v.spans && v.spans[r.spanId] == r) || Dead(v, r))
  }

  lemma SoundServerStart(v: View, h: History, e: Event)
    requires Sound(v, h) && CanHappen(h, e) && e.Start? && e.made.Some?
    ensures Sound(After(v, e), Noted(h, e))
  {
    hide Dead;
    DeadWhenNotInTable(After(v, e), e.made.value);
    forall r | r in h.made && Dead(v, r) ensures Dead(After(v, e), r) { DeadAtStart(v, h, e, r); }
  }

  lemma DeadWhenNotInTable(v: View, r: RequestState)
    ensures (forall id | id in v.spans :: v.spans[id] != r) ==> Dead(v, r)
  {
  }

  lemma DeadAtStart(v: View, h: History, e: Event, r: RequestState)
    requires Sound(v, h) && CanHappen(h, e) && e.Start? && r in h.made && Dead(v, r)
    ensures Dead(After(v, e), r)
  {
  }

  lemma SoundChildStart(v: View, h: History, e: Event)
    requires Sound(v, h) && CanHappen(h, e) && e.Start? && e.made == None
    ensures Sound(After(v, e), Noted(h, e))
  {
    hide Dead;
    forall r | r in h.made && Dead(v, r) ensures Dead(After(v, e), r) { DeadAtStart(v, h, e, r); }
  }

  lemma SoundStart(v: View, h: History, e: Event)
    requires Sound(v, h) && CanHappen(h, e) && e.Start?
    ensures Sound(After(v, e), Noted(h, e))
  {
    hide Sound, CanHappen, After, Noted;
    if e.made.Some? { SoundServerStart(v, h, e); } else { SoundChildStart(v, h, e); }
  }

  lemma SoundEnd(v: View, h: History, e: Event)
    requires Sound(v, h) && CanHappen(h, e) && e.End?
    ensures Sound(After(v, e), Noted(h, e))
  {
    hide Remove;
  }

  /** Once dead, a request stays so. */
  lemma DeadStaysDead(v: View, h: History, e: Event, r: RequestState)
    requires Sound(v, h) && CanHappen(h, e) && r in h.made && Dead(v, r)
    ensures Dead(After(v, e), r) && r in Noted(h, e).made
  {
    hide Remove;
  }

  ghost predicate IsRun(v: View, h: History, events: seq<Event>, anyLoad: bool)
    decreases |events|
  {
    events == [] ||
    (CanHappen(h, events[0]) && (anyLoad || BelowCaps(v, events[0]))
      && IsRun(After(v, events[0]), Noted(h, events[0]), events[1..], anyLoad))
  }

  ghost function AfterAll(v: View, events: seq<Event>): View
    decreases |events|
  {
    if events == [] then v else AfterAll(After(v, events[0]), events[1..])
  }

  ghost function NotedAll(h: History, events: seq<Event>): History
    decreases |events|
  {
    if events == [] then h else NotedAll(Noted(h, events[0]), events[1..])
  }

  lemma {:induction false} RunsAreSound(v: View, h: History, events: seq<Event>, anyLoad: bool)
    requires Sound(v, h) && IsRun(v, h, events, anyLoad)
    ensures Sound(AfterAll(v, events), NotedAll(h, events))
    decreases |events|
  {
    hide Sound, CanHappen, After, Noted;
    if events != [] {
      if events[0].Start? { SoundStart(v, h, events[0]); } else { SoundEnd(v, h, events[0]); }
      RunsAreSound(After(v, events[0]), Noted(h, events[0]), events[1..], anyLoad);
    }
  }

  lemma {:induction false} DeadForever(v: View, h: History, events: seq<Event>, anyLoad: bool, r: RequestState)
    requires Sound(v, h) && IsRun(v, h, events, anyLoad) && r in h.made && Dead(v, r)
    ensures Dead(AfterAll(v, events), r)
    decreases |events|
  {
    hide Sound, CanHappen, After, Noted, Dead;
    if events != [] {
      DeadStaysDead(v, h, events[0], r);
      if events[0].Start? { SoundStart(v, h, events[0]); } else { SoundEnd(v, h, events[0]); }
      DeadForever(After(v, events[0]), Noted(h, events[0]), events[1..], anyLoad, r);
    }
  }

  /** The end of a SERVER span, in the table or not, takes the current request from exactly the spans whose nearest
      enclosing request it is, and leaves every other span's as it was. */
  lemma EndTakesItsOwnSpans(v: View, h: History, spanId: int, id: int)
    requires Sound(v, h) && IsServer(h, spanId)
    ensures Current(Ended(v, spanId, true), id) ==
      if id in h.owner && h.owner[id] == h.owner[spanId] then None else Current(v, id)
  {
    hide Remove;
  }

  lemma EndKills(v: View, h: History, spanId: int)
    requires Sound(v, h) && IsServer(h, spanId)
    ensures h.owner[spanId] in Noted(h, End(spanId, true)).made
    ensures Dead(After(v, End(spanId, true)), h.owner[spanId])
  {
    hide Remove;
  }

  /** When a SERVER span ends, no span whose nearest enclosing request it is has a current request ever after: not
      those started before, and not those that start later under a straggler. */
  lemma NoRequestAfterItsEnd(v: View, h: History, spanId: int, events: seq<Event>, id: int)
    requires Sound(v, h) && IsServer(h, spanId)
    requires IsRun(v, h, [End(spanId, true)] + events, true)
    ensures var all := [End(spanId, true)] + events;
            var r, w, k := h.owner[spanId], AfterAll(v, all), NotedAll(h, all);
            id in k.owner && k.owner[id] == r ==> Current(w, id) == None
  {
    hide Sound, CanHappen, Noted;
    var e := End(spanId, true);
    assert ([e] + events)[1..] == events;
    RunsAreSound(v, h, [e] + events, true);
    SoundEnd(v, h, e);
    EndKills(v, h, spanId);
    DeadForever(After(v, e), Noted(h, e), events, true, h.owner[spanId]);
    EntriesLeadToOwners(AfterAll(v, [e] + events), NotedAll(h, [e] + events), id);
  }

  lemma EntriesLeadToOwners(v: View, h: History, id: int)
    requires Sound(v, h)
    ensures id in v.spans ==> id in h.owner && v.spans[id] == h.owner[id]
  {
  }

  // ---- What holds below the limits -----------------------------------------------------------------

  function OnThread(open: seq<RequestState>, thread: int): seq<RequestState> {
    if open == [] then []
    else if open[0].thread == thread then [open[0]] + OnThread(open[1..], thread)
    else OnThread(open[1..], thread)
  }

  lemma {:induction false} OnThreadAppend(open: seq<RequestState>, r: RequestState, thread: int)
    ensures OnThread(open + [r], thread) == OnThread(open, thread) + if r.thread == thread then [r] else []
  {
    if open == [] {
      assert open + [r] == [r];
    } else {
      assert (open + [r])[1..] == open[1..] + [r];
      OnThreadAppend(open[1..], r, thread);
    }
  }

  lemma {:induction false} OnThreadRemove(open: seq<RequestState>, r: RequestState, thread: int)
    ensures OnThread(Remove(open, r), thread) ==
      if r.thread == thread then Remove(OnThread(open, thread), r) else OnThread(open, thread)
  {
    if open != [] && open[0] != r {
      OnThreadRemove(open[1..], r, thread);
      assert Remove(open, r)[1..] == Remove(open[1..], r);
      if open[0].thread == thread { assert OnThread(open, thread)[1..] == OnThread(open[1..], thread); }
    } else if open != [] && r.thread == thread {
      assert OnThread(open, thread)[1..] == OnThread(open[1..], thread);
    }
  }

  lemma {:induction false} OnThreadHolds(open: seq<RequestState>, thread: int)
    ensures forall r | r in OnThread(open, thread) :: r in open && r.thread == thread
    ensures forall r | r in open && r.thread == thread :: r in OnThread(open, thread)
  {
    if open != [] { OnThreadHolds(open[1..], thread); }
  }

  lemma {:induction false} RemoveHolds<T>(s: seq<T>, x: T)
    requires NoRepeats(s)
    ensures forall y | y in Remove(s, x) :: y in s && y != x
    ensures forall y | y in s && y != x :: y in Remove(s, x)
    ensures x !in s ==> Remove(s, x) == s
  {
    if s != [] {
      RemoveHolds(s[1..], x);
      assert s == [s[0]] + s[1..];
      assert forall i | 0 <= i < |s[1..]| :: s[1..][i] == s[i + 1];
    }
  }

  lemma {:induction false} RemoveNoRepeats<T>(s: seq<T>, x: T)
    requires NoRepeats(s)
    ensures NoRepeats(Remove(s, x))
  {
    if s != [] {
      RemoveNoRepeats(s[1..], x);
      RemoveHolds(s[1..], x);
      var rest := Remove(s[1..], x);
      assert forall i | 0 <= i < |rest| :: rest[i] in rest;
      assert forall i | 0 <= i < |s[1..]| :: s[1..][i] == s[i + 1];
    }
  }

  lemma {:induction false} NoRepeatsOnThread(open: seq<RequestState>, thread: int)
    requires NoRepeats(open)
    ensures NoRepeats(OnThread(open, thread))
  {
    if open != [] {
      NoRepeatsOnThread(open[1..], thread);
      OnThreadHolds(open[1..], thread);
      assert forall i | 0 <= i < |open[1..]| :: open[1..][i] == open[i + 1];
    }
  }

  /** The table and the reference agree. */
  ghost predicate Exact(v: View, h: History) {
    && Sound(v, h)
    && NoRepeats(h.open)
    && (forall t :: Get(v.threads, t) == OnThread(h.open, t))
    && (forall r | r in h.open :: r in h.made && r.spanId in v.spans && v.spans[r.spanId] == r)
    && (forall r | r in v.active :: r in h.open)
    && (forall r | r in h.open :: r in v.active)
  }

  lemma ExactChildStart(v: View, h: History, e: Event)
    requires Exact(v, h) && CanHappen(h, e) && e.Start? && e.made == None
    ensures Exact(After(v, e), Noted(h, e))
  {
    hide OnThread, NoRepeats;
    SoundStart(v, h, e);
  }

  lemma OldIdsAreUsed(v: View, h: History)
    requires Sound(v, h)
    ensures forall id | id in v.spans :: id in h.used
  {
    hide Dead;
  }

  lemma ExactServerStart(v: View, h: History, e: Event)
    requires Exact(v, h) && CanHappen(h, e) && BelowCaps(v, e) && e.Start? && e.made.Some?
    ensures Exact(After(v, e), Noted(h, e))
  {
    hide OnThread, NoRepeats, Sound;
    SoundStart(v, h, e);
    OpenHasNoRepeats(h, v, e);
    ExactIsSound(v, h);
    NewIdIsFree(v, h, e);
    OldIdsAreUsed(v, h);
    var w, k, r := After(v, e), Noted(h, e), e.made.value;
    forall t ensures Get(w.threads, t) == OnThread(k.open, t) { OnThreadAppend(h.open, r, t); }
  }

  /** The end of a span that is not in the table, or not a SERVER span. */
  lemma ExactOtherEnd(v: View, h: History, e: Event)
    requires Exact(v, h) && CanHappen(h, e) && e.End? && !(e.server && e.spanId in v.spans)
    ensures Exact(After(v, e), Noted(h, e))
  {
    hide OnThread, NoRepeats, Remove;
    SoundEnd(v, h, e);
    if IsServer(h, e.spanId) {
      RemoveHolds(h.open, h.owner[e.spanId]);
    }
  }

  lemma ExactServerEnd(v: View, h: History, e: Event)
    requires Exact(v, h) && CanHappen(h, e) && e.End? && e.server && e.spanId in v.spans
    ensures Exact(After(v, e), Noted(h, e))
  {
    hide OnThread, NoRepeats, Remove;
    SoundEnd(v, h, e);
    var w, k, r := After(v, e), Noted(h, e), v.spans[e.spanId];
    RemoveNoRepeats(h.open, r);
    forall t ensures Get(w.threads, t) == OnThread(k.open, t) {
      OnThreadRemove(h.open, r, t);
      NoRepeatsOnThread(h.open, t);
      RemoveHolds(OnThread(h.open, t), r);
    }
    assert IsServer(h, e.spanId) && k.open == Remove(h.open, r);
    RemoveHolds(h.open, r);
  }

  lemma {:induction false} RunsAreExact(v: View, h: History, events: seq<Event>)
    requires Exact(v, h) && IsRun(v, h, events, false)
    ensures Exact(AfterAll(v, events), NotedAll(h, events))
    decreases |events|
  {
    hide Exact, CanHappen, After, Noted;
    if events != [] {
      var e := events[0];
      if e.Start? {
        if e.made.Some? { ExactServerStart(v, h, e); } else { ExactChildStart(v, h, e); }
      } else {
        if e.server && e.spanId in v.spans { ExactServerEnd(v, h, e); } else { ExactOtherEnd(v, h, e); }
      }
      RunsAreExact(After(v, e), Noted(h, e), events[1..]);
    }
  }

  const EMPTY := View(map[], map[], {})
  const UNUSED := History([], map[], {}, {})

  /** `r` is open, started on `thread`, and no other open SERVER span did. */
  ghost predicate OnlyOpenOn(open: seq<RequestState>, thread: int, r: RequestState) {
    r in open && r.thread == thread && forall q | q in open && q.thread == thread :: q == r
  }

  lemma SingleOnThread(open: seq<RequestState>, thread: int, r: RequestState)
    requires NoRepeats(open)
    ensures OnThread(open, thread) == [r] <==> OnlyOpenOn(open, thread, r)
  {
    hide OnThread;
    var list := OnThread(open, thread);
    NoRepeatsOnThread(open, thread);
    assert |list| > 1 ==> list[0] != list[1];
    OnThreadHolds(open, thread);
    if OnlyOpenOn(open, thread, r) {
      assert r in list;
      assert forall i | 0 <= i < |list| :: list[i] in list;
      assert forall i | 0 <= i < |list| :: list[i] == r;
    }
  }

  /** In every run below the limits, a thread's sampled stack is linked to a request exactly when that is the only
      open SERVER span started on the thread. */
  lemma ThreadContextIsTheOnlyOpen(events: seq<Event>, thread: int, r: RequestState)
    requires IsRun(EMPTY, UNUSED, events, false)
    ensures ThreadContext(AfterAll(EMPTY, events), thread) == Some(r)
      <==> OnlyOpenOn(NotedAll(UNUSED, events).open, thread, r)
  {
    hide OnThread, OnlyOpenOn;
    NothingIsExact();
    RunsAreExact(EMPTY, UNUSED, events);
    SingleOnThread(NotedAll(UNUSED, events).open, thread, r);
  }

  lemma NothingIsExact()
    ensures Exact(EMPTY, UNUSED)
  {
  }

  // ---- Which spans have a request ------------------------------------------------------------------

  /** The reference for the table of spans: a span is tracked from its start, if fewer than 65536 are and it is a
      SERVER span or started under a tracked span of an open request, to its end. */
  ghost function Tracked(tracked: set<int>, h: History, e: Event): set<int> {
    match e
    case Start(spanId, made, parentId, _) =>
      var enclosed := parentId in tracked && parentId in h.owner && h.owner[parentId] in h.open;
      if |tracked| < 65536 && (made.Some? || enclosed) then tracked + {spanId} else tracked
    case End(spanId, _) => tracked - {spanId}
  }

  ghost function TrackedAll(tracked: set<int>, h: History, events: seq<Event>): set<int>
    decreases |events|
  {
    if events == [] then tracked else TrackedAll(Tracked(tracked, h, events[0]), Noted(h, events[0]), events[1..])
  }

  /** The table holds the tracked spans, and the request of an entry is active while it is open. */
  ghost predicate TableIs(v: View, h: History, tracked: set<int>) {
    && v.spans.Keys == tracked && NoRepeats(h.open)
    && (forall r | r in h.open :: r in h.made)
    && (forall id | id in v.spans :: v.spans[id] in v.active <==> v.spans[id] in h.open)
  }

  lemma KeysAfterStart(v: View, h: History, e: Event, tracked: set<int>)
    requires Sound(v, h) && TableIs(v, h, tracked) && CanHappen(h, e) && e.Start?
    ensures After(v, e).spans.Keys == Tracked(tracked, h, e)
  {
    hide NoRepeats, Dead, CanHappen;
    EntriesLeadToOwners(v, h, e.parentId);
    assert |v.spans| == |v.spans.Keys|;
    if e.made == None && e.parentId in tracked {
      assert v.spans[e.parentId] in v.active <==> h.owner[e.parentId] in h.open;
    }
  }

  lemma OpenAfterStart(h: History, e: Event)
    requires NoRepeats(h.open) && (forall r | r in h.open :: r in h.made) && CanHappen(h, e) && e.Start?
    ensures NoRepeats(Noted(h, e).open) && forall r | r in Noted(h, e).open :: r in Noted(h, e).made
  {
    assert forall i | 0 <= i < |h.open| :: h.open[i] in h.open;
  }

  lemma ActiveAfterStart(v: View, h: History, e: Event, tracked: set<int>, id: int)
    requires Sound(v, h) && TableIs(v, h, tracked) && CanHappen(h, e) && e.Start? && id in After(v, e).spans
    ensures After(v, e).spans[id] in After(v, e).active <==> After(v, e).spans[id] in Noted(h, e).open
  {
    hide NoRepeats, Dead;
  }

  lemma TableAfterStart(v: View, h: History, e: Event, tracked: set<int>)
    requires Sound(v, h) && TableIs(v, h, tracked) && CanHappen(h, e) && e.Start?
    ensures TableIs(After(v, e), Noted(h, e), Tracked(tracked, h, e))
  {
    hide Sound, CanHappen, NoRepeats, After, Noted, Tracked;
    KeysAfterStart(v, h, e, tracked);
    OpenAfterStart(h, e);
    forall id | id in After(v, e).spans
      ensures After(v, e).spans[id] in After(v, e).active <==> After(v, e).spans[id] in Noted(h, e).open
    {
      ActiveAfterStart(v, h, e, tracked, id);
    }
  }

  lemma TableAfterEnd(v: View, h: History, e: Event, tracked: set<int>)
    requires Sound(v, h) && TableIs(v, h, tracked) && CanHappen(h, e) && e.End?
    ensures TableIs(After(v, e), Noted(h, e), Tracked(tracked, h, e))
  {
    hide NoRepeats, Remove;
    if IsServer(h, e.spanId) {
      RemoveNoRepeats(h.open, h.owner[e.spanId]);
      RemoveHolds(h.open, h.owner[e.spanId]);
    }
    assert After(v, e).spans.Keys == tracked - {e.spanId};
  }

  lemma {:induction false} TableInEveryRun(v: View, h: History, events: seq<Event>, anyLoad: bool, tracked: set<int>)
    requires Sound(v, h) && TableIs(v, h, tracked) && IsRun(v, h, events, anyLoad)
    ensures TableIs(AfterAll(v, events), NotedAll(h, events), TrackedAll(tracked, h, events))
    decreases |events|
  {
    hide Sound, TableIs, CanHappen, After, Noted, Tracked;
    if events != [] {
      var e := events[0];
      if e.Start? {
        SoundStart(v, h, e);
        TableAfterStart(v, h, e, tracked);
      } else {
        SoundEnd(v, h, e);
        TableAfterEnd(v, h, e, tracked);
      }
      TableInEveryRun(After(v, e), Noted(h, e), events[1..], anyLoad, Tracked(tracked, h, e));
    }
  }

  /** Which request a span has, in every run at any load: its nearest enclosing one, if and only if the span is
      tracked and that request is open. */
  lemma CurrentIsTheEnclosing(events: seq<Event>, anyLoad: bool, id: int, r: RequestState)
    requires IsRun(EMPTY, UNUSED, events, anyLoad)
    ensures var v, h, tracked := AfterAll(EMPTY, events), NotedAll(UNUSED, events), TrackedAll({}, UNUSED, events);
      Current(v, id) == Some(r) <==> id in tracked && id in h.owner && h.owner[id] == r && r in h.open
  {
    hide Sound;
    NothingIsExact();
    ExactIsSound(EMPTY, UNUSED);
    RunsAreSound(EMPTY, UNUSED, events, anyLoad);
    TableInEveryRun(EMPTY, UNUSED, events, anyLoad, {});
    EntriesLeadToOwners(AfterAll(EMPTY, events), NotedAll(UNUSED, events), id);
  }

  /** In every run below the limits the span of an open request has that request. */
  lemma OpenRequestIsCurrent(events: seq<Event>, r: RequestState)
    requires IsRun(EMPTY, UNUSED, events, false) && r in NotedAll(UNUSED, events).open
    ensures Current(AfterAll(EMPTY, events), r.spanId) == Some(r)
  {
    hide Exact;
    NothingIsExact();
    RunsAreExact(EMPTY, UNUSED, events);
    OpenIsCurrent(AfterAll(EMPTY, events), NotedAll(UNUSED, events), r);
  }

  /** No run, at any load, stores an empty list for a thread. */
  lemma NoEmptyList(events: seq<Event>)
    requires IsRun(EMPTY, UNUSED, events, true)
    ensures var v := AfterAll(EMPTY, events); forall t | t in v.threads :: v.threads[t] != []
  {
    NothingIsExact();
    RunsAreSound(EMPTY, UNUSED, events, true);
  }

  lemma AfterOne(v: View, h: History, e: Event, rest: seq<Event>, anyLoad: bool)
    ensures AfterAll(v, [e] + rest) == AfterAll(After(v, e), rest) && NotedAll(h, [e] + rest) == NotedAll(Noted(h, e), rest)
    ensures IsRun(v, h, [e] + rest, anyLoad) <==>
      CanHappen(h, e) && (anyLoad || BelowCaps(v, e)) && IsRun(After(v, e), Noted(h, e), rest, anyLoad)
  {
    hide After, Noted, CanHappen, BelowCaps;
    assert ([e] + rest)[1..] == rest;
  }

  lemma AfterNothing(v: View, h: History, anyLoad: bool)
    ensures AfterAll(v, []) == v && NotedAll(h, []) == h && IsRun(v, h, [], anyLoad)
  {
  }

  /** Not every descendant of an ended SERVER span is without a request: a SERVER span nested in it keeps its own. */
  lemma NestedServerKeepsItsRequest(outer: RequestState, inner: RequestState, none: int)
    requires outer != inner && outer.spanId != inner.spanId
    ensures var events := [Start(outer.spanId, Some(outer), none, outer.thread)]
                          + ([Start(inner.spanId, Some(inner), outer.spanId, inner.thread)] + ([End(outer.spanId, true)] + []));
            IsRun(EMPTY, UNUSED, events, false) && Current(AfterAll(EMPTY, events), inner.spanId) == Some(inner)
  {
    hide AfterAll, NotedAll, IsRun, Exact, Sound, After, BelowCaps, Get;
    var e0 := Start(outer.spanId, Some(outer), none, outer.thread);
    var e1 := Start(inner.spanId, Some(inner), outer.spanId, inner.thread);
    var e2 := End(outer.spanId, true);
    var v1, h1 := After(EMPTY, e0), Noted(UNUSED, e0);
    var v2, h2 := After(v1, e1), Noted(h1, e1);
    NothingIsExact();
    RoomForOne(EMPTY, UNUSED, e0);
    NewRequestStarts(EMPTY, UNUSED, e0);
    RoomForOne(v1, h1, e1);
    AfterNothing(After(v2, e2), Noted(h2, e2), false);
    AfterOne(v2, h2, e2, [], false);
    AfterOne(v1, h1, e1, [e2] + [], false);
    AfterOne(EMPTY, UNUSED, e0, [e1] + ([e2] + []), false);
    NoLimitForOthers(v2, e2);
    RunsAreExact(EMPTY, UNUSED, [e0] + ([e1] + ([e2] + [])));
    assert h2.open == [outer, inner] && Remove(h2.open, outer) == [inner];
    OpenIsCurrent(After(v2, e2), Noted(h2, e2), inner);
  }

  lemma RoomForOne(v: View, h: History, e: Event)
    requires Exact(v, h) && |h.open| <= 1 && |v.spans| <= 1
    ensures BelowCaps(v, e)
  {
    hide Sound, OnThread;
    if e.Start? { ShortList(h.open, e.thread); }
  }

  lemma {:induction false} ShortList(open: seq<RequestState>, thread: int)
    ensures |OnThread(open, thread)| <= |open|
  {
    if open != [] { ShortList(open[1..], thread); }
  }

  lemma NoLimitForOthers(v: View, e: Event)
    requires e.End?
    ensures BelowCaps(v, e)
  {
  }

  lemma OpenIsCurrent(v: View, h: History, r: RequestState)
    requires Exact(v, h) && r in h.open
    ensures Current(v, r.spanId) == Some(r)
  {
    hide Sound, OnThread, NoRepeats, Get;
  }

  // ---- What happens at the limits ------------------------------------------------------------------

  /** The start of a SERVER span keeps table and reference in agreement exactly when it meets neither limit. */
  lemma ExactBelowCaps(v: View, h: History, e: Event)
    requires Exact(v, h) && CanHappen(h, e) && e.Start? && e.made.Some?
    ensures Exact(After(v, e), Noted(h, e)) <==> BelowCaps(v, e)
  {
    if BelowCaps(v, e) {
      ExactServerStart(v, h, e);
    } else {
      hide OnThread, NoRepeats, Sound;
      var w, k, r := After(v, e), Noted(h, e), e.made.value;
      OnThreadAppend(h.open, r, r.thread);
      assert r in k.open;
      if |Get(v.threads, r.thread)| >= MAX_PER_THREAD {
        assert Get(w.threads, r.thread) == Get(v.threads, r.thread) == OnThread(h.open, r.thread);
        assert |OnThread(k.open, r.thread)| == |OnThread(h.open, r.thread)| + 1;
      } else {
        NewIdIsFree(v, h, e);
        assert r.spanId !in w.spans;
      }
    }
  }

  lemma NewIdIsFree(v: View, h: History, e: Event)
    requires Sound(v, h) && CanHappen(h, e) && e.Start?
    ensures e.spanId !in v.spans
  {
  }

  function Ends(open: seq<RequestState>): seq<Event> {
    if open == [] then [] else [End(open[0].spanId, true)] + Ends(open[1..])
  }

  /** Some requests of one thread, with their entries, at the head of its list. */
  ghost predicate AtHead(v: View, h: History, open: seq<RequestState>, thread: int, tail: seq<RequestState>) {
    && NoRepeats(open)
    && (forall r | r in open :: r.thread == thread && r !in tail && r.spanId in v.spans && v.spans[r.spanId] == r)
    && (forall r | r in open :: r.spanId in h.owner && h.owner[r.spanId] == r && r.spanId in h.used)
    && Get(v.threads, thread) == open + tail
  }

  lemma EndAtHead(v: View, h: History, open: seq<RequestState>, thread: int, tail: seq<RequestState>)
    requires open != [] && AtHead(v, h, open, thread, tail) && NoRepeats(h.open)
    ensures var e := End(open[0].spanId, true);
      && CanHappen(h, e) && AtHead(After(v, e), Noted(h, e), open[1..], thread, tail)
      && (forall id | id in After(v, e).spans :: id in v.spans) && Noted(h, e) == h.(open := Remove(h.open, open[0]))
  {
    hide NoRepeats, Remove;
    var r := open[0];
    HeadOfList(open, tail);
    EndOfListed(v, r, open + tail);
    assert forall q | q in open[1..] :: q.spanId != r.spanId;
  }

  lemma HeadOfList(open: seq<RequestState>, tail: seq<RequestState>)
    requires open != [] && NoRepeats(open)
    ensures open[0] in open && open[0] in open + tail
    ensures Remove(open + tail, open[0]) == open[1..] + tail && NoRepeats(open[1..])
    ensures forall q | q in open[1..] :: q in open && q != open[0]
  {
    assert (open + tail)[0] == open[0] && (open + tail)[1..] == open[1..] + tail;
    assert forall i | 0 <= i < |open[1..]| :: open[1..][i] == open[i + 1];
  }

  lemma EndOfListed(v: View, r: RequestState, list: seq<RequestState>)
    requires r.spanId in v.spans && v.spans[r.spanId] == r && Get(v.threads, r.thread) == list && r in list
    ensures var w := Ended(v, r.spanId, true);
      w.spans == v.spans - {r.spanId} && Get(w.threads, r.thread) == Remove(list, r)
  {
    hide Remove;
  }

  /** Ending them leaves the rest of the list. */
  lemma {:induction false} EndAllAtHead(v: View, h: History, open: seq<RequestState>, thread: int, tail: seq<RequestState>)
    requires AtHead(v, h, open, thread, tail) && NoRepeats(h.open)
    ensures IsRun(v, h, Ends(open), false)
    ensures var w, k := AfterAll(v, Ends(open)), NotedAll(h, Ends(open));
      && Get(w.threads, thread) == tail && (forall id | id in w.spans :: id in v.spans)
      && k == h.(open := k.open) && NoRepeats(k.open)
      && (forall r | r in k.open :: r in h.open && r !in open) && (forall r | r in h.open && r !in open :: r in k.open)
    decreases |open|
  {
    hide AfterAll, NotedAll, IsRun, NoRepeats, After, Noted, CanHappen, Get, Remove, AtHead;
    if open == [] {
      HeadIsEmpty(v, h, thread, tail);
      AfterNothing(v, h, false);
    } else {
      var e := End(open[0].spanId, true);
      EndAtHead(v, h, open, thread, tail);
      RemoveNoRepeats(h.open, open[0]);
      RemoveHolds(h.open, open[0]);
      EndAllAtHead(After(v, e), Noted(h, e), open[1..], thread, tail);
      AfterOne(v, h, e, Ends(open[1..]), false);
      assert open == [open[0]] + open[1..];
    }
  }

  lemma HeadIsEmpty(v: View, h: History, thread: int, tail: seq<RequestState>)
    requires AtHead(v, h, [], thread, tail)
    ensures Get(v.threads, thread) == tail
  {
    assert [] + tail == tail;
  }

  lemma {:induction false} AfterSum(v: View, h: History, a: seq<Event>, b: seq<Event>)
    requires IsRun(v, h, a, false) && IsRun(AfterAll(v, a), NotedAll(h, a), b, false)
    ensures IsRun(v, h, a + b, false)
    ensures AfterAll(v, a + b) == AfterAll(AfterAll(v, a), b) && NotedAll(h, a + b) == NotedAll(NotedAll(h, a), b)
    decreases |a|
  {
    hide After, Noted, CanHappen, BelowCaps;
    if a == [] {
      assert a + b == b;
    } else {
      assert (a + b)[1..] == a[1..] + b;
      AfterSum(After(v, a[0]), Noted(h, a[0]), a[1..], b);
    }
  }

  /** Starting past a limit: the thread's older requests are then at the head of its list, and what follows them is
      the new one if the list had room. */
  lemma PastALimit(v: View, h: History, e: Event)
    requires Exact(v, h) && CanHappen(h, e) && e.Start? && e.made.Some? && !BelowCaps(v, e)
    ensures var tail := if |Get(v.threads, e.thread)| >= MAX_PER_THREAD then [] else [e.made.value];
      && AtHead(After(v, e), Noted(h, e), OnThread(h.open, e.thread), e.thread, tail)
      && NoRepeats(Noted(h, e).open)
      && (tail != [] ==> e.spanId !in After(v, e).spans)
  {
    hide OnThread, Exact, Sound, NoRepeats, CanHappen;
    var others, r := OnThread(h.open, e.thread), e.made.value;
    OnThreadHolds(h.open, e.thread);
    OpenHasNoRepeats(h, v, e);
    NoRepeatsOnThread(h.open, e.thread);
    ListOfThread(v, h, e.thread);
    NewIsNotOpen(v, h, e);
    ExactIsSound(v, h);
    NewIdIsFree(v, h, e);
    assert others == others + [];
    forall q | q in others
      ensures q.spanId in v.spans && v.spans[q.spanId] == q && q.spanId != e.spanId
      ensures q.spanId in h.owner && h.owner[q.spanId] == q && q.spanId in h.used
    {
      OpenHasEntry(v, h, q);
    }
  }

  lemma OpenHasEntry(v: View, h: History, q: RequestState)
    requires Exact(v, h) && q in h.open
    ensures q.spanId in v.spans && v.spans[q.spanId] == q
    ensures q.spanId in h.owner && h.owner[q.spanId] == q && q.spanId in h.used
  {
    hide OnThread, NoRepeats, Dead, Get;
  }

  lemma OpenHasNoRepeats(h: History, v: View, e: Event)
    requires Exact(v, h) && CanHappen(h, e) && e.Start? && e.made.Some?
    ensures NoRepeats(h.open) && NoRepeats(Noted(h, e).open)
  {
    hide OnThread, Sound, Get;
    assert forall i | 0 <= i < |h.open| :: h.open[i] in h.open;
  }

  lemma ExactIsSound(v: View, h: History)
    requires Exact(v, h)
    ensures Sound(v, h)
  {
    hide OnThread, NoRepeats, Sound, Get;
  }

  /** The rest of a run that shows a limit was met: the thread's older requests end, and then, if the table of spans
      was full, the new one. */
  ghost function Beyond(v: View, h: History, e: Event): seq<Event>
    requires e.Start?
  {
    Ends(OnThread(h.open, e.thread)) + if |Get(v.threads, e.thread)| >= MAX_PER_THREAD then [] else [End(e.spanId, true)]
  }

  /** The thread's request is `r` exactly when `r` is its only open SERVER span. */
  ghost predicate Agrees(v: View, h: History, thread: int, r: RequestState) {
    ThreadContext(v, thread) == Some(r) <==> OnlyOpenOn(h.open, thread, r)
  }

  /** With 256 requests on the list the new one is not on it: once the others have ended the thread has no request,
      although the new one is the only one open. */
  lemma FullListHidesTheRequest(v: View, h: History, e: Event)
    requires Exact(v, h) && CanHappen(h, e) && e.Start? && e.made.Some?
    requires |Get(v.threads, e.thread)| >= 256
    ensures var w, k := After(v, e), Noted(h, e);
      && IsRun(w, k, Beyond(v, h, e), false)
      && ThreadContext(AfterAll(w, Beyond(v, h, e)), e.thread) == None
      && OnlyOpenOn(NotedAll(k, Beyond(v, h, e)).open, e.thread, e.made.value)
  {
    hide OnThread, Exact, AfterAll, NotedAll, IsRun, AtHead, NoRepeats, Get;
    var others := OnThread(h.open, e.thread);
    PastALimit(v, h, e);
    EndAllAtHead(After(v, e), Noted(h, e), others, e.thread, []);
    assert Ends(others) + [] == Ends(others);
    OnThreadHolds(h.open, e.thread);
    NewIsNotOpen(v, h, e);
  }

  lemma NewIsNotOpen(v: View, h: History, e: Event)
    requires Exact(v, h) && CanHappen(h, e) && e.Start? && e.made.Some?
    ensures e.made.value !in h.open && e.made.value.thread == e.thread && e.made.value.spanId == e.spanId
  {
  }

  /** With 65536 spans in the table the new request has no entry: once all have ended the thread still has it. */
  lemma FullTableLeavesStaleLink(v: View, h: History, e: Event)
    requires Exact(v, h) && CanHappen(h, e) && e.Start? && e.made.Some?
    requires |Get(v.threads, e.thread)| < 256 && |v.spans| >= 65536
    ensures var w, k := After(v, e), Noted(h, e);
      && IsRun(w, k, Beyond(v, h, e), false)
      && ThreadContext(AfterAll(w, Beyond(v, h, e)), e.thread) == Some(e.made.value)
      && forall q | q in NotedAll(k, Beyond(v, h, e)).open :: q.thread != e.thread
  {
    hide OnThread, Exact, AfterAll, NotedAll, IsRun, AtHead, NoRepeats;
    var others, last := OnThread(h.open, e.thread), End(e.spanId, true);
    PastALimit(v, h, e);
    EndAllAtHead(After(v, e), Noted(h, e), others, e.thread, [e.made.value]);
    var w, k := AfterAll(After(v, e), Ends(others)), NotedAll(Noted(h, e), Ends(others));
    OnThreadHolds(h.open, e.thread);
    NewIsNotOpen(v, h, e);
    assert [last] + [] == [last];
    AfterOne(w, k, last, [], false);
    AfterNothing(After(w, last), Noted(k, last), false);
    AfterSum(After(v, e), Noted(h, e), Ends(others), [last]);
    RemoveHolds(k.open, e.made.value);
  }

  /** When the link may be trusted. From any state in which table and reference agree, the start of a SERVER span
      keeps every thread's request the only open one, through every run that meets no limit after it, if and only
      if it meets neither limit itself. */
  lemma LinkIsExactBelowTheLimits(v: View, h: History, e: Event, rest: seq<Event>, thread: int, r: RequestState)
    requires Exact(v, h) && CanHappen(h, e) && e.Start? && e.made.Some?
    ensures BelowCaps(v, e) && IsRun(After(v, e), Noted(h, e), rest, false) ==>
      Agrees(AfterAll(After(v, e), rest), NotedAll(Noted(h, e), rest), thread, r)
    ensures !BelowCaps(v, e) ==>
      var w, k, beyond := After(v, e), Noted(h, e), Beyond(v, h, e);
      IsRun(w, k, beyond, false) && !Agrees(AfterAll(w, beyond), NotedAll(k, beyond), e.thread, e.made.value)
  {
    hide OnThread, AfterAll, NotedAll, IsRun, After, Noted, CanHappen, Beyond, NoRepeats, Get, Sound;
    if !BelowCaps(v, e) {
      NewIsNotOpen(v, h, e);
      if |Get(v.threads, e.thread)| >= MAX_PER_THREAD {
        FullListHidesTheRequest(v, h, e);
      } else {
        FullTableLeavesStaleLink(v, h, e);
      }
    } else if IsRun(After(v, e), Noted(h, e), rest, false) {
      ExactServerStart(v, h, e);
      RunsAreExact(After(v, e), Noted(h, e), rest);
      SingleOnThread(NotedAll(Noted(h, e), rest).open, thread, r);
      ContextOfList(AfterAll(After(v, e), rest), NotedAll(Noted(h, e), rest), thread, r);
    }
  }

  lemma ContextOfList(v: View, h: History, thread: int, r: RequestState)
    requires Exact(v, h)
    ensures ThreadContext(v, thread) == Some(r) <==> OnThread(h.open, thread) == [r]
  {
    hide OnThread, NoRepeats, Sound;
  }

  /** One SERVER span after the other. */
  function Starts(open: seq<RequestState>): seq<Event> {
    if open == [] then [] else
      var last := open[|open| - 1];
      Starts(open[..|open| - 1]) + [Start(last.spanId, Some(last), last.spanId, last.thread)]
  }

  /** Both limits are met by runs in which table and reference agree: any requests can be open together, up to 256
      on a thread and 65536 in all. */
  lemma {:induction false} LimitsAreReached(open: seq<RequestState>)
    requires forall i, j | 0 <= i < j < |open| :: open[i].spanId != open[j].spanId
    requires |open| <= 65536 && forall t :: |OnThread(open, t)| <= 256
    ensures IsRun(EMPTY, UNUSED, Starts(open), false)
    ensures var v, h := AfterAll(EMPTY, Starts(open)), NotedAll(UNUSED, Starts(open));
      && Exact(v, h) && h.open == open && |v.spans| == |open|
      && (forall r | r in h.made :: r in open)
      && (forall id | id in h.used :: exists i :: 0 <= i < |open| && open[i].spanId == id)
  {
    hide OnThread, AfterAll, NotedAll, IsRun, Exact, Sound, After, Noted, Get, NoRepeats;
    NothingIsExact();
    if open == [] {
      AfterNothing(EMPTY, UNUSED, false);
    } else {
      var front, last := open[..|open| - 1], open[|open| - 1];
      var e := Start(last.spanId, Some(last), last.spanId, last.thread);
      assert open == front + [last];
      forall t ensures |OnThread(front, t)| <= |OnThread(open, t)| - (if last.thread == t then 1 else 0) {
        OnThreadAppend(front, last, t);
      }
      LimitsAreReached(front);
      var v, h := AfterAll(EMPTY, Starts(front)), NotedAll(UNUSED, Starts(front));
      ListOfThread(v, h, last.thread);
      NewRequestStarts(v, h, e);
      AfterNothing(After(v, e), Noted(h, e), false);
      AfterOne(v, h, e, [], false);
      assert [e] + [] == [e];
      AfterSum(EMPTY, UNUSED, Starts(front), [e]);
    }
  }

  lemma ListOfThread(v: View, h: History, thread: int)
    requires Exact(v, h)
    ensures Get(v.threads, thread) == OnThread(h.open, thread)
  {
    hide OnThread, NoRepeats, Sound;
  }

  lemma NewRequestStarts(v: View, h: History, e: Event)
    requires Exact(v, h) && CanHappen(h, e) && BelowCaps(v, e) && e.Start? && e.made.Some?
    ensures var w, k := After(v, e), Noted(h, e);
      && Exact(w, k) && k.open == h.open + [e.made.value] && |w.spans| == |v.spans| + 1
      && k.made == h.made + {e.made.value} && k.used == h.used + {e.spanId}
  {
    hide Exact, Sound, CanHappen;
    ExactServerStart(v, h, e);
    ExactIsSound(v, h);
    NewIdIsFree(v, h, e);
    NewEntry(v, e);
  }

  lemma NewEntry(v: View, e: Event)
    requires BelowCaps(v, e) && e.Start? && e.made.Some? && e.spanId !in v.spans
    ensures |After(v, e).spans| == |v.spans| + 1
  {
    assert After(v, e).spans == v.spans[e.spanId := e.made.value];
    assert After(v, e).spans.Keys == v.spans.Keys + {e.spanId};
  }
}
