/** allowPlan of mysql_queries.go and clickhouse_queries.go: how often a continuous plan may be asked for.
    Times are nanoseconds. */
module PlanCooldown {
  import opened Collections

  const MINUTE: int := 60_000_000_000
  const SPACING: int := 15 * MINUTE
  const HOUR: int := 60 * MINUTE
  const BUDGET := 60

  type PlanRuns = map<string, int>

  /** MySQL drops an entry that is exactly an hour old, ClickHouse one that is older. */
  datatype Engine = MySql | ClickHouse

  predicate Dropped(engine: Engine, last: int, now: int) {
    if engine == MySql then now - last >= HOUR else now - last > HOUR
  }

  function Kept(engine: Engine, planRuns: PlanRuns, now: int): PlanRuns {
    map k | k in planRuns && !Dropped(engine, planRuns[k], now) :: planRuns[k]
  }

  function Allow(engine: Engine, planRuns: PlanRuns, digest: string, now: int): (bool, PlanRuns) {
    if digest == "" || (digest in planRuns && now - planRuns[digest] < SPACING) then (false, planRuns)
    else
      var kept := Kept(engine, planRuns, now);
      if |kept| >= BUDGET then (false, kept) else (true, kept[digest := now])
  }

  class PlanBudget {
    const engine: Engine
    var planRuns: PlanRuns

    constructor (engine: Engine)
      ensures this.engine == engine && planRuns == map[]
    {
      this.engine, planRuns := engine, map[];
    }

    method AllowPlan(digest: string, now: int) returns (granted: bool)
      modifies this
      ensures (granted, planRuns) == Allow(engine, old(planRuns), digest, now)
    {
      if digest == "" {
        return false;
      }
      if digest in planRuns && now - planRuns[digest] < SPACING {
        return false;
      }
      var before, todo := planRuns, planRuns.Keys;
      while todo != {}
        invariant todo <= before.Keys
        invariant planRuns == map k | k in before && (k in todo || !Dropped(engine, before[k], now)) :: before[k]
        decreases todo
      {
        var key :| key in todo;
        if Dropped(engine, planRuns[key], now) {
          planRuns := planRuns - {key};
        }
        todo := todo - {key};
      }
      assert planRuns == Kept(engine, before, now);
      if |planRuns| >= BUDGET {
        return false;
      }
      planRuns := planRuns[digest := now];
      return true;
    }
  }

  // ---- Whole runs ----------------------------------------------------------------------------------

  datatype Grant = Grant(digest: string, time: int)
  datatype Call = Call(digest: string, now: int)
  datatype State = State(planRuns: PlanRuns, grants: seq<Grant>, clock: int)

  function Step(engine: Engine, s: State, c: Call): State {
    var (granted, planRuns) := Allow(engine, s.planRuns, c.digest, c.now);
    State(planRuns, if granted then s.grants + [Grant(c.digest, c.now)] else s.grants, c.now)
  }

  predicate Ordered(clock: int, calls: seq<Call>)
    decreases |calls|
  {
    calls == [] || (clock <= calls[0].now && Ordered(calls[0].now, calls[1..]))
  }

  function Run(engine: Engine, s: State, calls: seq<Call>): State
    decreases |calls|
  {
    if calls == [] then s else Run(engine, Step(engine, s, calls[0]), calls[1..])
  }

  /** The map still knows a grant, at its time or a later one, unless the engine may have dropped it. */
  predicate Remembered(engine: Engine, s: State, g: Grant) {
    && g.digest != "" && g.time <= s.clock
    && (Dropped(engine, g.time, s.clock) || (g.digest in s.planRuns && g.time <= s.planRuns[g.digest]))
  }

  predicate IsGrant(s: State, digest: string, time: int) {
    exists i :: 0 <= i < |s.grants| && s.grants[i] == Grant(digest, time)
  }

  ghost predicate Inv(engine: Engine, s: State) {
    && |s.planRuns| <= BUDGET
    && (forall i | 0 <= i < |s.grants| :: Remembered(engine, s, s.grants[i]))
    && (forall k | k in s.planRuns :: IsGrant(s, k, s.planRuns[k]))
    && (forall i, j | 0 <= i < j < |s.grants| && s.grants[i].digest == s.grants[j].digest ::
          s.grants[j].time - s.grants[i].time >= SPACING)
  }

  lemma GrantStays(engine: Engine, s: State, c: Call, digest: string, time: int)
    requires IsGrant(s, digest, time)
    ensures IsGrant(Step(engine, s, c), digest, time)
  {
    var i :| 0 <= i < |s.grants| && s.grants[i] == Grant(digest, time);
    assert Step(engine, s, c).grants[i] == Grant(digest, time);
  }

  lemma StepKeepsInv(engine: Engine, s: State, c: Call)
    requires Inv(engine, s) && s.clock <= c.now
    ensures Inv(engine, Step(engine, s, c))
  {
    hide IsGrant;
    var t := Step(engine, s, c);
    var kept := Kept(engine, s.planRuns, c.now);
    SubsetIsSmaller(kept.Keys, s.planRuns.Keys);
    forall i | 0 <= i < |t.grants| ensures Remembered(engine, t, t.grants[i]) {
      if i < |s.grants| { assert Remembered(engine, s, s.grants[i]); }
    }
    forall k | k in t.planRuns ensures IsGrant(t, k, t.planRuns[k]) { MapHoldsGrants(engine, s, c, k); }
    forall i, j | 0 <= i < j < |t.grants| && t.grants[i].digest == t.grants[j].digest
      ensures t.grants[j].time - t.grants[i].time >= SPACING
    {
      assert Remembered(engine, s, s.grants[i]);
    }
  }

  lemma MapHoldsGrants(engine: Engine, s: State, c: Call, k: string)
    requires Inv(engine, s) && k in Step(engine, s, c).planRuns
    ensures IsGrant(Step(engine, s, c), k, Step(engine, s, c).planRuns[k])
  {
    var t := Step(engine, s, c);
    if k in s.planRuns && t.planRuns[k] == s.planRuns[k] {
      GrantStays(engine, s, c, k, s.planRuns[k]);
    } else {
      assert t.grants[|s.grants|] == Grant(k, t.planRuns[k]);
    }
  }

  lemma StepTime(engine: Engine, s: State, c: Call)
    ensures Step(engine, s, c).clock == c.now
  {
  }

  lemma {:induction false} RunKeepsInv(engine: Engine, s: State, calls: seq<Call>)
    requires Inv(engine, s) && Ordered(s.clock, calls)
    ensures Inv(engine, Run(engine, s, calls)) && (calls != [] ==> Run(engine, s, calls).clock == calls[|calls| - 1].now)
    decreases |calls|
  {
    hide Inv, Step;
    if calls != [] {
      StepKeepsInv(engine, s, calls[0]);
      StepTime(engine, s, calls[0]);
      RunKeepsInv(engine, Step(engine, s, calls[0]), calls[1..]);
    }
  }

  /** The digests with a grant in the hour up to the state's clock. */
  function Recent(s: State): set<string> {
    set i | 0 <= i < |s.grants| && s.clock - s.grants[i].time < 3_600_000_000_000 :: s.grants[i].digest
  }

  /** After any run: plans of one digest are at least 15 minutes apart, and no more than 60 digests had a plan
      in the last hour. */
  lemma PlansAreSpaced(engine: Engine, clock: int, calls: seq<Call>)
    requires Ordered(clock, calls)
    ensures var s := Run(engine, State(map[], [], clock), calls);
      && (forall i, j | 0 <= i < j < |s.grants| && s.grants[i].digest == s.grants[j].digest ::
            s.grants[j].time - s.grants[i].time >= 15 * 60_000_000_000)
      && |Recent(s)| <= 60
  {
    RunKeepsInv(engine, State(map[], [], clock), calls);
    var s := Run(engine, State(map[], [], clock), calls);
    assert Recent(s) <= s.planRuns.Keys by {
      forall i | 0 <= i < |s.grants| && s.clock - s.grants[i].time < HOUR ensures s.grants[i].digest in s.planRuns {
        assert Remembered(engine, s, s.grants[i]);
      }
    }
    SubsetIsSmaller(Recent(s), s.planRuns.Keys);
  }

  // ---- When a plan is granted ----------------------------------------------------------------------

  /** The engine still counts a grant: less than an hour old for MySQL, at most an hour old for ClickHouse. */
  predicate StillCounts(engine: Engine, time: int, now: int) {
    match engine
    case MySql => now - time < 3_600_000_000_000
    case ClickHouse => now - time <= 3_600_000_000_000
  }

  /** The digests with a grant that still counts. */
  function Counted(engine: Engine, grants: seq<Grant>, now: int): set<string> {
    set i | 0 <= i < |grants| && StillCounts(engine, grants[i].time, now) :: grants[i].digest
  }

  /** A plan of the digest was granted less than 15 minutes ago. */
  predicate JustGranted(grants: seq<Grant>, digest: string, now: int) {
    exists i :: 0 <= i < |grants| && grants[i].digest == digest && now - grants[i].time < 15 * 60_000_000_000
  }

  lemma KeptAreCounted(engine: Engine, s: State, now: int)
    requires Inv(engine, s) && s.clock <= now
    ensures Kept(engine, s.planRuns, now).Keys == Counted(engine, s.grants, now)
  {
    hide Inv, SPACING;
    var kept, counted := Kept(engine, s.planRuns, now).Keys, Counted(engine, s.grants, now);
    forall k ensures k in kept <==> k in counted {
      if k in kept {
        MapIsGranted(engine, s, k);
        var i :| 0 <= i < |s.grants| && s.grants[i] == Grant(k, s.planRuns[k]);
      }
      if k in counted {
        var i :| 0 <= i < |s.grants| && StillCounts(engine, s.grants[i].time, now) && s.grants[i].digest == k;
        GrantIsRemembered(engine, s, i);
      }
    }
  }

  lemma MapIsGranted(engine: Engine, s: State, k: string)
    requires Inv(engine, s) && k in s.planRuns
    ensures IsGrant(s, k, s.planRuns[k])
  {
  }

  lemma GrantIsRemembered(engine: Engine, s: State, i: nat)
    requires Inv(engine, s) && i < |s.grants|
    ensures Remembered(engine, s, s.grants[i])
  {
  }

  /** The test on the map is a test on the history. */
  lemma SpacingIsKnown(engine: Engine, s: State, digest: string, now: int)
    requires Inv(engine, s) && s.clock <= now
    ensures JustGranted(s.grants, digest, now) <==> digest in s.planRuns && now - s.planRuns[digest] < 15 * 60_000_000_000
  {
    hide Inv;
    if digest in s.planRuns {
      MapIsGranted(engine, s, digest);
      var i :| 0 <= i < |s.grants| && s.grants[i] == Grant(digest, s.planRuns[digest]);
    }
    if JustGranted(s.grants, digest, now) {
      var i :| 0 <= i < |s.grants| && s.grants[i].digest == digest && now - s.grants[i].time < 15 * 60_000_000_000;
      GrantIsRemembered(engine, s, i);
    }
  }

  /** When a plan is granted, after any run and for either engine: exactly when it has a digest, no plan of that
      digest was granted less than 15 minutes ago, and fewer than 60 digests have a grant that still counts. */
  lemma PlanIsGranted(engine: Engine, clock: int, calls: seq<Call>, c: Call)
    requires Ordered(clock, calls + [c])
    ensures var s := Run(engine, State(map[], [], clock), calls);
      Allow(engine, s.planRuns, c.digest, c.now).0 <==>
        && c.digest != "" && !JustGranted(s.grants, c.digest, c.now)
        && |Counted(engine, s.grants, c.now)| < 60
  {
    hide Counted, JustGranted, Inv, Run;
    var s := Run(engine, State(map[], [], clock), calls);
    RunIsInv(engine, clock, calls, c);
    KeptAreCounted(engine, s, c.now);
    SpacingIsKnown(engine, s, c.digest, c.now);
    assert |Kept(engine, s.planRuns, c.now)| == |Kept(engine, s.planRuns, c.now).Keys|;
  }

  lemma RunIsInv(engine: Engine, clock: int, calls: seq<Call>, c: Call)
    requires Ordered(clock, calls + [c])
    ensures var s := Run(engine, State(map[], [], clock), calls); Inv(engine, s) && s.clock <= c.now
  {
    OrderedFront(clock, calls, c);
    RunKeepsInv(engine, State(map[], [], clock), calls);
  }

  lemma {:induction false} OrderedFront(clock: int, calls: seq<Call>, c: Call)
    requires Ordered(clock, calls + [c])
    ensures Ordered(clock, calls) && (if calls == [] then clock else calls[|calls| - 1].now) <= c.now
    decreases |calls|
  {
    if calls != [] {
      assert (calls + [c])[1..] == calls[1..] + [c];
      OrderedFront(calls[0].now, calls[1..], c);
    }
  }
}
