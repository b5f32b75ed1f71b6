/** Profiler._emit: one closed window becomes a report, within the report's size limits. */
module ProfileReport {
  import opened Options
  import opened Profiler
  import opened Collections

  const MAX_SIZE := 250000
  const MAX_ORIGINS := 4096
  const MAX_LINKS := 128
  const MAX_LINK_CHARS := 200000
  const MAX_ENDPOINT := 1024

  datatype Origin = Origin(stack: string, weight: int, lines: seq<int>)

  datatype Link = Link(traceId: string, spanId: string, stacks: map<string, int>, endpoint: Option<string>)

  datatype Report = Report(folded: map<string, int>, origins: seq<Origin>, links: seq<Link>)

  /** How long the printed forms are: an origin as JSON, and the lines of a set of folded stacks. */
  datatype Lengths = Lengths(json: Origin -> nat, text: map<string, int> -> nat)

  function OriginOf(key: Key, weight: int): Origin { Origin(key.stack, weight, key.lines) }

  // ---- Which samples are kept ----------------------------------------------------------------------

  function CostOf(w: Window, keys: seq<Key>, lengths: Lengths): nat {
    if keys == [] then 0 else
      var last := keys[|keys| - 1];
      CostOf(w, keys[..|keys| - 1], lengths) + lengths.json(OriginOf(last, Get(w, last)))
  }

  /** The keys that make it into the report, when the window is walked in the order of `keys`. */
  function Kept(w: Window, keys: seq<Key>, lengths: Lengths): seq<Key> {
    if keys == [] then [] else
      var before, last := Kept(w, keys[..|keys| - 1], lengths), keys[|keys| - 1];
      if Get(w, last) <= 0 || CostOf(w, before + [last], lengths) > MAX_SIZE || |before| >= MAX_ORIGINS then before
      else before + [last]
  }

  // ---- What the report says about them -------------------------------------------------------------

  /** The weight of a stack over all its origins. */
  function StackWeight(w: Window, keys: seq<Key>, stack: string): int {
    if keys == [] then 0 else
      var last := keys[|keys| - 1];
      StackWeight(w, keys[..|keys| - 1], stack) + if last.stack == stack then Get(w, last) else 0
  }

  /** The weight of a stack in one context. */
  function LinkWeight(w: Window, keys: seq<Key>, context: Context, stack: string): int {
    if keys == [] then 0 else
      var last := keys[|keys| - 1];
      LinkWeight(w, keys[..|keys| - 1], context, stack) +
      if last.stack == stack && last.context == Some(context) then Get(w, last) else 0
  }

  function Stacks(keys: seq<Key>): set<string> { set key | key in keys :: key.stack }

  function LinkStacks(keys: seq<Key>, context: Context): set<string> {
    set key | key in keys && key.context == Some(context) :: key.stack
  }

  /** Exactly the stacks of the keys, each with all its weight. */
  function Folded(w: Window, keys: seq<Key>): map<string, int> {
    map stack | stack in Stacks(keys) :: StackWeight(w, keys, stack)
  }

  function Linked(w: Window, keys: seq<Key>, context: Context): map<string, int> {
    map stack | stack in LinkStacks(keys, context) :: LinkWeight(w, keys, context, stack)
  }

  function Origins(w: Window, keys: seq<Key>): seq<Origin> {
    if keys == [] then [] else
      var last := keys[|keys| - 1];
      Origins(w, keys[..|keys| - 1]) + [OriginOf(last, Get(w, last))]
  }

  /** The contexts of the keys, each once, in the order of their first sample. */
  function Contexts(keys: seq<Key>): seq<Context> {
    if keys == [] then [] else
      var before, last := Contexts(keys[..|keys| - 1]), keys[|keys| - 1];
      if last.context.Some? && last.context.value !in before then before + [last.context.value] else before
  }

  function RowOf(w: Window, keys: seq<Key>, context: Context): Link {
    var keep := context.endpoint.Some? && context.endpoint.value != "" && |context.endpoint.value| <= MAX_ENDPOINT;
    Link(context.traceId, context.spanId, Linked(w, keys, context), if keep then context.endpoint else None)
  }

  function Rows(w: Window, keys: seq<Key>, contexts: seq<Context>): seq<Link> {
    if contexts == [] then [] else
      Rows(w, keys, contexts[..|contexts| - 1]) + [RowOf(w, keys, contexts[|contexts| - 1])]
  }

  /** The printed length of the first links. */
  function Chars(w: Window, keys: seq<Key>, contexts: seq<Context>, lengths: Lengths): nat {
    if contexts == [] then 0 else
      Chars(w, keys, contexts[..|contexts| - 1], lengths) + lengths.text(Linked(w, keys, contexts[|contexts| - 1]))
  }

  // ---- Emitting ------------------------------------------------------------------------------------

  lemma FoldOne(w: Window, keys: seq<Key>, key: Key)
    ensures Folded(w, keys)[key.stack := Get(Folded(w, keys), key.stack) + Get(w, key)] == Folded(w, keys + [key])
  {
    hide StackWeight, Stacks;
    StacksStep(keys, key);
    forall stack
      ensures StackWeight(w, keys + [key], stack) == StackWeight(w, keys, stack) + if key.stack == stack then Get(w, key) else 0
    {
      StackWeightStep(w, keys, key, stack);
    }
    if key.stack !in Stacks(keys) { NoStackNoWeight(w, keys, key.stack); }
  }

  lemma StacksStep(keys: seq<Key>, key: Key)
    ensures Stacks(keys + [key]) == Stacks(keys) + {key.stack}
  {
  }

  lemma StackWeightStep(w: Window, keys: seq<Key>, key: Key, stack: string)
    ensures StackWeight(w, keys + [key], stack) == StackWeight(w, keys, stack) + if key.stack == stack then Get(w, key) else 0
  {
    assert (keys + [key])[..|keys|] == keys;
  }

  lemma {:induction false} NoStackNoWeight(w: Window, keys: seq<Key>, stack: string)
    requires stack !in Stacks(keys)
    ensures StackWeight(w, keys, stack) == 0
  {
    if keys != [] {
      assert keys[|keys| - 1] in keys;
      NoStackNoWeight(w, keys[..|keys| - 1], stack);
    }
  }

  lemma LinkOne(w: Window, keys: seq<Key>, key: Key, context: Context)
    ensures Linked(w, keys + [key], context) ==
      if key.context != Some(context) then Linked(w, keys, context)
      else Linked(w, keys, context)[key.stack := Get(Linked(w, keys, context), key.stack) + Get(w, key)]
  {
    hide LinkWeight, LinkStacks;
    LinkStacksStep(keys, key, context);
    forall stack
      ensures LinkWeight(w, keys + [key], context, stack) == LinkWeight(w, keys, context, stack)
        + if key.stack == stack && key.context == Some(context) then Get(w, key) else 0
    {
      LinkWeightStep(w, keys, key, context, stack);
    }
    if key.stack !in LinkStacks(keys, context) { NoLinkNoWeight(w, keys, context, key.stack); }
  }

  lemma LinkStacksStep(keys: seq<Key>, key: Key, context: Context)
    ensures LinkStacks(keys + [key], context) == LinkStacks(keys, context)
      + if key.context == Some(context) then {key.stack} else {}
  {
  }

  lemma LinkWeightStep(w: Window, keys: seq<Key>, key: Key, context: Context, stack: string)
    ensures LinkWeight(w, keys + [key], context, stack) == LinkWeight(w, keys, context, stack)
      + if key.stack == stack && key.context == Some(context) then Get(w, key) else 0
  {
    assert (keys + [key])[..|keys|] == keys;
  }

  lemma {:induction false} NoLinkNoWeight(w: Window, keys: seq<Key>, context: Context, stack: string)
    requires stack !in LinkStacks(keys, context)
    ensures LinkWeight(w, keys, context, stack) == 0
  {
    if keys != [] {
      assert keys[|keys| - 1] in keys;
      NoLinkNoWeight(w, keys[..|keys| - 1], context, stack);
    }
  }

  lemma {:induction false} ContextIsListed(keys: seq<Key>, key: Key)
    requires key in keys && key.context.Some?
    ensures key.context.value in Contexts(keys)
  {
    if key in keys[..|keys| - 1] { ContextIsListed(keys[..|keys| - 1], key); }
  }

  /** The links gathered so far: one entry for every context of the keys. */
  ghost predicate AreLinked(links: map<Context, map<string, int>>, w: Window, keys: seq<Key>) {
    && (forall context :: context in links <==> context in Contexts(keys))
    && forall context | context in links :: links[context] == Linked(w, keys, context)
  }

  lemma LinkStep(links: map<Context, map<string, int>>, w: Window, keys: seq<Key>, key: Key)
    requires AreLinked(links, w, keys)
    ensures key.context == None ==> Contexts(keys + [key]) == Contexts(keys) && AreLinked(links, w, keys + [key])
    ensures key.context.Some? ==>
      var context := key.context.value;
      var stacks := if context in links then links[context] else map[];
      && Contexts(keys + [key]) == (if context in links then Contexts(keys) else Contexts(keys) + [context])
      && AreLinked(links[context := stacks[key.stack := Get(stacks, key.stack) + Get(w, key)]], w, keys + [key])
  {
    hide Linked;
    var all := keys + [key];
    assert all[..|keys|] == keys;
    forall context ensures context !in Contexts(keys) ==> Linked(w, keys, context) == map[] {
      if context !in Contexts(keys) { UnlistedIsEmpty(w, keys, context); }
    }
    forall context
      ensures Linked(w, all, context) == if key.context != Some(context) then Linked(w, keys, context)
        else Linked(w, keys, context)[key.stack := Get(Linked(w, keys, context), key.stack) + Get(w, key)]
    {
      LinkOne(w, keys, key, context);
    }
  }

  lemma UnlistedIsEmpty(w: Window, keys: seq<Key>, context: Context)
    requires context !in Contexts(keys)
    ensures Linked(w, keys, context) == map[]
  {
    hide LinkWeight;
    forall key | key in keys ensures key.context != Some(context) {
      if key.context.Some? { ContextIsListed(keys, key); }
    }
    assert LinkStacks(keys, context) == {};
  }

  lemma KeptStep(w: Window, keys: seq<Key>, i: nat, lengths: Lengths)
    requires i < |keys|
    ensures var before := Kept(w, keys[..i], lengths);
            Kept(w, keys[..i + 1], lengths) ==
              if Get(w, keys[i]) <= 0
                || CostOf(w, before, lengths) + lengths.json(OriginOf(keys[i], Get(w, keys[i]))) > MAX_SIZE
                || |before| >= MAX_ORIGINS then before else before + [keys[i]]
    ensures CostOf(w, Kept(w, keys[..i], lengths) + [keys[i]], lengths)
         == CostOf(w, Kept(w, keys[..i], lengths), lengths) + lengths.json(OriginOf(keys[i], Get(w, keys[i])))
  {
    var before := Kept(w, keys[..i], lengths);
    assert keys[..i + 1][..i] == keys[..i];
    assert (before + [keys[i]])[..|before|] == before;
  }

  lemma OriginsStep(w: Window, keys: seq<Key>, key: Key)
    ensures Origins(w, keys + [key]) == Origins(w, keys) + [OriginOf(key, Get(w, key))]
    ensures |Origins(w, keys)| == |keys|
  {
    assert (keys + [key])[..|keys|] == keys;
    OriginsLength(w, keys);
  }

  lemma {:induction false} OriginsLength(w: Window, keys: seq<Key>)
    ensures |Origins(w, keys)| == |keys|
  {
    if keys != [] { OriginsLength(w, keys[..|keys| - 1]); }
  }

  lemma NothingKept(w: Window, lengths: Lengths)
    ensures Kept(w, [], lengths) == [] && CostOf(w, [], lengths) == 0 && Origins(w, []) == [] && Contexts([]) == []
    ensures Folded(w, []) == map[] && AreLinked(map[], w, []) && Rows(w, [], []) == []
  {
  }

  lemma FoldedIsEmpty(w: Window, keys: seq<Key>)
    ensures Folded(w, keys) == map[] <==> keys == []
  {
    hide StackWeight;
    if keys != [] {
      assert keys[0] in keys;
      assert keys[0].stack in Folded(w, keys);
    }
  }

  lemma NextLink(w: Window, keys: seq<Key>, contexts: seq<Context>, n: nat, lengths: Lengths)
    requires n < |contexts|
    ensures Rows(w, keys, contexts[..n + 1]) == Rows(w, keys, contexts[..n]) + [RowOf(w, keys, contexts[n])]
    ensures Chars(w, keys, contexts[..n + 1], lengths)
      == Chars(w, keys, contexts[..n], lengths) + lengths.text(Linked(w, keys, contexts[n]))
  {
    hide Linked, RowOf;
    assert contexts[..n + 1][..n] == contexts[..n];
  }

  /** The links shown are the first ones, as many as both limits allow. */
  ghost predicate AreFirstLinks(links: seq<Link>, w: Window, keys: seq<Key>, lengths: Lengths) {
    var contexts, n := Contexts(keys), |links|;
    && n <= |contexts| && links == Rows(w, keys, contexts[..n])
    && n <= 128 && Chars(w, keys, contexts[..n], lengths) <= 200000
    && (n < |contexts| ==> n == 128 || Chars(w, keys, contexts[..n + 1], lengths) > 200000)
  }

  /** Each origin is its sample: the same stack and lines, with the sample's weight. */
  predicate AreSamples(origins: seq<Origin>, w: Window, kept: seq<Key>) {
    && |origins| == |kept|
    && forall k | 0 <= k < |kept| :: kept[k] in w
         && origins[k].stack == kept[k].stack && origins[k].lines == kept[k].lines && origins[k].weight == w[kept[k]]
  }

  lemma {:induction false} OriginsAreSamples(w: Window, kept: seq<Key>)
    requires forall k | 0 <= k < |kept| :: kept[k] in w
    ensures AreSamples(Origins(w, kept), w, kept)
  {
    if kept != [] { OriginsAreSamples(w, kept[..|kept| - 1]); }
  }

  /** Each link carries the trace and span of its context, and the endpoint if it is not empty and not too long. */
  ghost predicate NameContexts(links: seq<Link>, contexts: seq<Context>) {
    && |links| <= |contexts|
    && forall k | 0 <= k < |links| ::
         && links[k].traceId == contexts[k].traceId && links[k].spanId == contexts[k].spanId
         && (forall e :: links[k].endpoint == Some(e) <==> contexts[k].endpoint == Some(e) && 0 < |e| <= 1024)
  }

  lemma {:induction false} RowsNameContexts(w: Window, keys: seq<Key>, contexts: seq<Context>)
    ensures |Rows(w, keys, contexts)| == |contexts| && NameContexts(Rows(w, keys, contexts), contexts)
  {
    hide Linked;
    if contexts != [] { RowsNameContexts(w, keys, contexts[..|contexts| - 1]); }
  }

  lemma LinksNameContexts(links: seq<Link>, w: Window, keys: seq<Key>, lengths: Lengths)
    requires AreFirstLinks(links, w, keys, lengths)
    ensures NameContexts(links, Contexts(keys))
  {
    hide Contexts, Rows, Chars;
    RowsNameContexts(w, keys, Contexts(keys)[..|links|]);
  }

  /** A dictionary yields each of its keys once. */
  ghost predicate Lists(order: seq<Key>, w: Window) {
    NoRepeats(order) && forall key :: key in order <==> key in w
  }

  /** The report of one window. `order` is the order in which the dictionary yields its keys. */
  method Emit(w: Window, order: seq<Key>, lengths: Lengths) returns (report: Option<Report>)
    requires Lists(order, w)
    ensures var kept := Kept(w, order, lengths);
      && (report == None <==> kept == [])
      && (report.Some? ==>
            && report.value.folded == Folded(w, kept)
            && report.value.origins == Origins(w, kept) && AreSamples(report.value.origins, w, kept)
            && AreFirstLinks(report.value.links, w, kept, lengths) && NameContexts(report.value.links, Contexts(kept)))
  {
    hide Kept, CostOf, Origins, Folded, Contexts, AreLinked, Rows, Chars, Linked, AreFirstLinks, AreSamples, NameContexts;
    var folded: map<string, int>, origins: seq<Origin> := map[], [];
    var links: map<Context, map<string, int>>, linkOrder: seq<Context> := map[], [];
    var size := 0;
    ghost var kept: seq<Key> := [];
    NothingKept(w, lengths);
    assert order[..0] == [];
    for i := 0 to |order|
      invariant kept == Kept(w, order[..i], lengths) && size == CostOf(w, kept, lengths)
      invariant folded == Folded(w, kept) && origins == Origins(w, kept)
      invariant AreLinked(links, w, kept) && linkOrder == Contexts(kept)
    {
      var key := order[i];
      var weight := Get(w, key);
      KeptStep(w, order, i, lengths);
      OriginsStep(w, kept, key);
      if weight <= 0 { continue; }
      var origin := OriginOf(key, weight);
      var cost := lengths.json(origin);
      if size + cost > MAX_SIZE || |origins| >= MAX_ORIGINS { continue; }
      FoldOne(w, kept, key);
      LinkStep(links, w, kept, key);
      size := size + cost;
      folded := folded[key.stack := Get(folded, key.stack) + weight];
      origins := origins + [origin];
      if key.context.Some? {
        var context := key.context.value;
        var stacks := if context in links then links[context] else map[];
        if context !in links { linkOrder := linkOrder + [context]; }
        links := links[context := stacks[key.stack := Get(stacks, key.stack) + weight]];
      }
      kept := kept + [key];
    }
    assert order[..|order|] == order;
    FoldedIsEmpty(w, kept);
    if folded == map[] { return None; }
    var shown := EmitLinks(w, kept, links, linkOrder, lengths);
    KeptAreWalked(w, order, lengths);
    OriginsAreSamples(w, kept);
    LinksNameContexts(shown, w, kept, lengths);
    report := Some(Report(folded, origins, shown));
  }

  /** The second loop of `_emit`: links until one of the limits is reached. */
  method EmitLinks(ghost w: Window, ghost kept: seq<Key>, links: map<Context, map<string, int>>,
    linkOrder: seq<Context>, lengths: Lengths)
    returns (shown: seq<Link>)
    requires AreLinked(links, w, kept) && linkOrder == Contexts(kept)
    ensures AreFirstLinks(shown, w, kept, lengths)
  {
    hide Contexts, Rows, Chars, Linked;
    shown := [];
    var linkChars := 0;
    NoLinks(w, kept, lengths);
    assert linkOrder[..0] == [];
    for i := 0 to |linkOrder|
      invariant |shown| == i && shown == Rows(w, kept, linkOrder[..i])
      invariant linkChars == Chars(w, kept, linkOrder[..i], lengths) && linkChars <= MAX_LINK_CHARS && i <= MAX_LINKS
    {
      var context := linkOrder[i];
      var stacks := links[context];
      NextLink(w, kept, linkOrder, i, lengths);
      if |shown| >= MAX_LINKS || linkChars + lengths.text(stacks) > MAX_LINK_CHARS { return; }
      var keep := context.endpoint.Some? && context.endpoint.value != "" && |context.endpoint.value| <= MAX_ENDPOINT;
      shown := shown + [Link(context.traceId, context.spanId, stacks, if keep then context.endpoint else None)];
      linkChars := linkChars + lengths.text(stacks);
    }
  }

  lemma NoLinks(w: Window, keys: seq<Key>, lengths: Lengths)
    ensures Rows(w, keys, []) == [] && Chars(w, keys, [], lengths) == 0
  {
  }

  // ---- What the report promises --------------------------------------------------------------------

  function OriginWeight(origins: seq<Origin>, stack: string): int {
    if origins == [] then 0 else
      var last := origins[|origins| - 1];
      OriginWeight(origins[..|origins| - 1], stack) + if last.stack == stack then last.weight else 0
  }

  function LinkedWeight(links: seq<Link>, stack: string): int {
    if links == [] then 0 else LinkedWeight(links[..|links| - 1], stack) + Get(links[|links| - 1].stacks, stack)
  }

  lemma {:induction false} OriginsCarryTheWeight(w: Window, keys: seq<Key>, stack: string)
    ensures OriginWeight(Origins(w, keys), stack) == StackWeight(w, keys, stack)
  {
    if keys != [] {
      var front, last := keys[..|keys| - 1], keys[|keys| - 1];
      OriginsCarryTheWeight(w, front, stack);
      assert Origins(w, keys)[..|Origins(w, keys)| - 1] == Origins(w, front);
    }
  }

  lemma FoldedWeight(w: Window, keys: seq<Key>, stack: string)
    ensures Get(Folded(w, keys), stack) == StackWeight(w, keys, stack)
  {
    hide StackWeight;
    if stack !in Stacks(keys) { NoStackNoWeight(w, keys, stack); }
  }

  lemma LinkedWeightOf(w: Window, keys: seq<Key>, context: Context, stack: string)
    ensures Get(Linked(w, keys, context), stack) == LinkWeight(w, keys, context, stack)
  {
    hide LinkWeight;
    if stack !in LinkStacks(keys, context) { NoLinkNoWeight(w, keys, context, stack); }
  }

  /** The weight of a stack over several contexts. */
  function SumOver(w: Window, keys: seq<Key>, contexts: seq<Context>, stack: string): int {
    if contexts == [] then 0 else
      SumOver(w, keys, contexts[..|contexts| - 1], stack) + LinkWeight(w, keys, contexts[|contexts| - 1], stack)
  }

  lemma {:induction false} RowsSumUp(w: Window, keys: seq<Key>, contexts: seq<Context>, stack: string)
    ensures LinkedWeight(Rows(w, keys, contexts), stack) == SumOver(w, keys, contexts, stack)
  {
    hide Linked, LinkWeight;
    if contexts != [] {
      var front, last := contexts[..|contexts| - 1], contexts[|contexts| - 1];
      RowsSumUp(w, keys, front, stack);
      LinkedWeightOf(w, keys, last, stack);
      var rows := Rows(w, keys, contexts);
      assert rows[..|rows| - 1] == Rows(w, keys, front);
    }
  }

  /** A sample belongs to at most one of several contexts. */
  lemma {:induction false} OneContextEach(w: Window, keys: seq<Key>, contexts: seq<Context>, stack: string)
    requires keys != [] && NoRepeats(contexts)
    ensures var front, last := keys[..|keys| - 1], keys[|keys| - 1];
            SumOver(w, keys, contexts, stack) == SumOver(w, front, contexts, stack) +
              if last.stack == stack && last.context.Some? && last.context.value in contexts then Get(w, last) else 0
  {
    if contexts != [] {
      OneContextEach(w, keys, contexts[..|contexts| - 1], stack);
    }
  }

  lemma {:induction false} ContextsStayBelow(w: Window, keys: seq<Key>, contexts: seq<Context>, stack: string)
    requires NoRepeats(contexts) && forall key | key in keys :: Get(w, key) >= 0
    ensures SumOver(w, keys, contexts, stack) <= StackWeight(w, keys, stack)
  {
    hide SumOver;
    if keys == [] {
      NoKeysNoSum(w, contexts, stack);
    } else {
      assert keys[|keys| - 1] in keys;
      ContextsStayBelow(w, keys[..|keys| - 1], contexts, stack);
      OneContextEach(w, keys, contexts, stack);
    }
  }

  lemma {:induction false} NoKeysNoSum(w: Window, contexts: seq<Context>, stack: string)
    ensures SumOver(w, [], contexts, stack) == 0
  {
    if contexts != [] { NoKeysNoSum(w, contexts[..|contexts| - 1], stack); }
  }

  lemma {:induction false} ContextsDoNotRepeat(keys: seq<Key>)
    ensures NoRepeats(Contexts(keys))
  {
    if keys != [] {
      ContextsDoNotRepeat(keys[..|keys| - 1]);
      var before := Contexts(keys[..|keys| - 1]);
      assert forall i | 0 <= i < |before| :: before[i] in before;
    }
  }

  lemma {:induction false} KeptFits(w: Window, order: seq<Key>, lengths: Lengths)
    ensures var kept := Kept(w, order, lengths);
      |kept| <= MAX_ORIGINS && CostOf(w, kept, lengths) <= MAX_SIZE && forall key | key in kept :: Get(w, key) > 0
  {
    hide CostOf;
    if order != [] {
      KeptFits(w, order[..|order| - 1], lengths);
    } else {
      NothingKept(w, lengths);
    }
  }

  /** In every report a stack's folded weight is the sum over its origins, the links never claim more of it, and
      the limits on size, origins and links hold. */
  lemma ReportIsConsistent(w: Window, order: seq<Key>, report: Report, lengths: Lengths, stack: string)
    requires var kept := Kept(w, order, lengths);
      report.folded == Folded(w, kept) && report.origins == Origins(w, kept) && AreFirstLinks(report.links, w, kept, lengths)
    ensures Get(report.folded, stack) == OriginWeight(report.origins, stack)
    ensures LinkedWeight(report.links, stack) <= Get(report.folded, stack)
    ensures |report.origins| <= 4096 && |report.links| <= 128
    ensures Printed(report.origins, lengths) <= 250000
  {
    hide Kept, CostOf, Origins, Folded, Contexts, Rows, Chars, Printed;
    var kept := Kept(w, order, lengths);
    var contexts := Contexts(kept)[..|report.links|];
    KeptFits(w, order, lengths);
    CostIsPrinted(w, kept, lengths);
    OriginsLength(w, kept);
    OriginsCarryTheWeight(w, kept, stack);
    FoldedWeight(w, kept, stack);
    RowsSumUp(w, kept, contexts, stack);
    ContextsDoNotRepeat(kept);
    ContextsStayBelow(w, kept, contexts, stack);
  }

  /** The samples of one context. */
  function InContext(keys: seq<Key>, context: Context): seq<Key> {
    if keys == [] then [] else
      var last := keys[|keys| - 1];
      InContext(keys[..|keys| - 1], context) + if last.context == Some(context) then [last] else []
  }

  lemma {:induction false} LinkWeightIsOfSamples(w: Window, keys: seq<Key>, context: Context, stack: string)
    ensures LinkWeight(w, keys, context, stack) == OriginWeight(Origins(w, InContext(keys, context)), stack)
  {
    if keys != [] {
      var front, last := keys[..|keys| - 1], keys[|keys| - 1];
      LinkWeightIsOfSamples(w, front, context, stack);
      var before := InContext(front, context);
      if last.context == Some(context) {
        OriginsStep(w, before, last);
        var origins := Origins(w, before + [last]);
        assert origins[..|origins| - 1] == Origins(w, before);
      } else {
        assert before + [] == before;
      }
    }
  }

  lemma {:induction false} RowsAreLinked(w: Window, keys: seq<Key>, contexts: seq<Context>, k: nat)
    requires k < |contexts|
    ensures |Rows(w, keys, contexts)| == |contexts| && Rows(w, keys, contexts)[k].stacks == Linked(w, keys, contexts[k])
  {
    hide Linked;
    RowsNameContexts(w, keys, contexts);
    if k < |contexts| - 1 {
      RowsNameContexts(w, keys, contexts[..|contexts| - 1]);
      RowsAreLinked(w, keys, contexts[..|contexts| - 1], k);
    }
  }

  /** A link holds the weight of its context's samples, stack by stack: the folded weight of their origins alone. */
  lemma LinkHoldsItsSamples(w: Window, keys: seq<Key>, links: seq<Link>, lengths: Lengths, k: nat, stack: string)
    requires AreFirstLinks(links, w, keys, lengths) && k < |links|
    ensures Get(links[k].stacks, stack) == OriginWeight(Origins(w, InContext(keys, Contexts(keys)[k])), stack)
  {
    hide Contexts, Rows, Chars, Linked, InContext, Origins, LinkWeight;
    var contexts := Contexts(keys);
    RowsAreLinked(w, keys, contexts[..|links|], k);
    LinkedWeightOf(w, keys, contexts[k], stack);
    LinkWeightIsOfSamples(w, keys, contexts[k], stack);
  }

  /** The printed size of the origins. */
  function Printed(origins: seq<Origin>, lengths: Lengths): nat {
    if origins == [] then 0 else
      Printed(origins[..|origins| - 1], lengths) + lengths.json(origins[|origins| - 1])
  }

  lemma {:induction false} CostIsPrinted(w: Window, keys: seq<Key>, lengths: Lengths)
    ensures CostOf(w, keys, lengths) == Printed(Origins(w, keys), lengths)
  {
    if keys != [] {
      CostIsPrinted(w, keys[..|keys| - 1], lengths);
      var origins := Origins(w, keys);
      assert origins[..|origins| - 1] == Origins(w, keys[..|keys| - 1]);
    }
  }

  lemma CostStep(w: Window, keys: seq<Key>, key: Key, lengths: Lengths)
    ensures CostOf(w, keys + [key], lengths)
         == CostOf(w, keys, lengths) + lengths.json(Origin(key.stack, Get(w, key), key.lines))
  {
    assert (keys + [key])[..|keys|] == keys;
  }

  lemma {:induction false} KeptGrows(w: Window, order: seq<Key>, i: nat, lengths: Lengths)
    requires i <= |order|
    ensures Kept(w, order[..i], lengths) <= Kept(w, order, lengths)
    ensures forall key | key in Kept(w, order, lengths) && key !in Kept(w, order[..i], lengths) :: key in order[i..]
  {
    hide CostOf;
    if i < |order| {
      var front := order[..|order| - 1];
      assert front[..i] == order[..i] && order[i..] == front[i..] + [order[|order| - 1]];
      KeptGrows(w, front, i, lengths);
    } else {
      assert order[..i] == order;
    }
  }

  lemma {:induction false} KeptAreWalked(w: Window, order: seq<Key>, lengths: Lengths)
    ensures forall key | key in Kept(w, order, lengths) :: key in order
  {
    hide CostOf;
    if order != [] { KeptAreWalked(w, order[..|order| - 1], lengths); }
  }

  /** A sample is left out only if it has no weight or does not fit behind the samples kept before it; one that does
      not fit stops none of those after it. */
  lemma OmittedDoesNotFit(w: Window, order: seq<Key>, i: nat, lengths: Lengths)
    requires NoRepeats(order) && i < |order|
    ensures var before, key := Kept(w, order[..i], lengths), order[i];
      key in Kept(w, order, lengths) <==>
        && Get(w, key) > 0 && |before| < 4096
        && Printed(Origins(w, before) + [Origin(key.stack, Get(w, key), key.lines)], lengths) <= 250000
  {
    hide CostOf, Kept, Printed, Origins;
    var before, key := Kept(w, order[..i], lengths), order[i];
    KeptStep(w, order, i, lengths);
    KeptGrows(w, order, i + 1, lengths);
    KeptAreWalked(w, order[..i], lengths);
    assert forall k | i < k < |order| :: order[k] != key;
    assert key !in order[i + 1..] && key !in order[..i] && key !in before;
    var next, whole := Kept(w, order[..i + 1], lengths), Kept(w, order, lengths);
    assert key in next ==> key in whole by {
      if key in next {
        var k :| 0 <= k < |next| && next[k] == key;
        assert whole[k] == key;
      }
    }
    assert (before + [key])[|before|] == key;
    CostIsPrinted(w, before + [key], lengths);
    CostStep(w, before, key, lengths);
    OriginsStep(w, before, key);
  }

  /** The samples that carry weight. */
  function Positive(w: Window, keys: seq<Key>): seq<Key> {
    if keys == [] then [] else
      var last := keys[|keys| - 1];
      Positive(w, keys[..|keys| - 1]) + if Get(w, last) > 0 then [last] else []
  }

  lemma {:induction false} CostGrows(w: Window, keys: seq<Key>, j: nat, lengths: Lengths)
    requires j <= |keys|
    ensures CostOf(w, Positive(w, keys[..j]), lengths) <= CostOf(w, Positive(w, keys), lengths)
  {
    if j < |keys| {
      var front := keys[..|keys| - 1];
      assert front[..j] == keys[..j];
      CostGrows(w, front, j, lengths);
      var before, all := Positive(w, front), Positive(w, keys);
      if all != before { assert all[..|all| - 1] == before; }
    } else {
      assert keys[..j] == keys;
    }
  }

  /** A window of at most 4096 keys loses nothing exactly when its samples fit the size limit. */
  lemma {:induction false} NothingIsOmitted(w: Window, order: seq<Key>, lengths: Lengths)
    requires |order| <= MAX_ORIGINS
    ensures Kept(w, order, lengths) == Positive(w, order) <==> CostOf(w, Positive(w, order), lengths) <= MAX_SIZE
    ensures |Kept(w, order, lengths)| <= |Positive(w, order)| <= |order|
  {
    hide CostOf;
    if order == [] {
      NothingKept(w, lengths);
    } else {
      var front, last := order[..|order| - 1], order[|order| - 1];
      NothingIsOmitted(w, front, lengths);
      KeptFits(w, order, lengths);
      CostGrows(w, order, |front|, lengths);
      var kept, positive := Kept(w, front, lengths), Positive(w, front);
      if kept != positive && Get(w, last) > 0 {
        assert (kept + [last])[..|kept|] == kept && (positive + [last])[..|positive|] == positive;
      }
    }
  }

  // ---- The report against the window ---------------------------------------------------------------

  function PositiveOf(w: Window, key: Key, stack: string): nat {
    if key.stack == stack && Get(w, key) > 0 then Get(w, key) else 0
  }

  /** The positive weight of a stack over some keys of the window, in whatever order. */
  ghost function PositiveWeight(w: Window, keys: set<Key>, stack: string): nat
    decreases |keys|
  {
    if keys == {} then 0 else var key :| key in keys; PositiveOf(w, key, stack) + PositiveWeight(w, keys - {key}, stack)
  }

  lemma {:induction false} PositiveWeightTake(w: Window, keys: set<Key>, key: Key, stack: string)
    requires key in keys
    ensures PositiveWeight(w, keys, stack) == PositiveOf(w, key, stack) + PositiveWeight(w, keys - {key}, stack)
    decreases |keys|
  {
    hide PositiveOf;
    var k :| k in keys && PositiveWeight(w, keys, stack) == PositiveOf(w, k, stack) + PositiveWeight(w, keys - {k}, stack);
    if k != key {
      assert keys - {k} - {key} == keys - {key} - {k};
      PositiveWeightTake(w, keys - {k}, key, stack);
      PositiveWeightTake(w, keys - {key}, k, stack);
    }
  }

  /** Any order of the keys adds up to it. */
  lemma {:induction false} PositiveInOrder(w: Window, order: seq<Key>, keys: set<Key>, stack: string)
    requires NoRepeats(order) && forall key :: key in order <==> key in keys
    ensures StackWeight(w, Positive(w, order), stack) == PositiveWeight(w, keys, stack)
  {
    hide PositiveWeight;
    if order == [] {
      assert keys == {};
      NoKeysNoWeight(w, stack);
    } else {
      var front, last := order[..|order| - 1], order[|order| - 1];
      assert forall i | 0 <= i < |front| :: front[i] == order[i];
      assert last in order && last !in front;
      PositiveInOrder(w, front, keys - {last}, stack);
      PositiveWeightTake(w, keys, last, stack);
      PositiveStep(w, front, last, stack);
      assert order == front + [last];
    }
  }

  lemma NoKeysNoWeight(w: Window, stack: string)
    ensures PositiveWeight(w, {}, stack) == 0
  {
  }

  lemma PositiveStep(w: Window, front: seq<Key>, last: Key, stack: string)
    ensures StackWeight(w, Positive(w, front + [last]), stack)
         == StackWeight(w, Positive(w, front), stack) + PositiveOf(w, last, stack)
  {
    hide StackWeight;
    assert (front + [last])[..|front|] == front;
    StackWeightStep(w, Positive(w, front), last, stack);
    assert Positive(w, front) + [] == Positive(w, front);
  }

  lemma {:induction false} KeptIsLight(w: Window, order: seq<Key>, lengths: Lengths, stack: string)
    ensures StackWeight(w, Kept(w, order, lengths), stack) <= StackWeight(w, Positive(w, order), stack)
  {
    hide StackWeight, CostOf;
    if order != [] {
      var front, last := order[..|order| - 1], order[|order| - 1];
      KeptIsLight(w, front, lengths, stack);
      StackWeightStep(w, Kept(w, front, lengths), last, stack);
      StackWeightStep(w, Positive(w, front), last, stack);
      assert Positive(w, front) + [] == Positive(w, front);
    }
  }

  /** A sample left out is missing from its stack. */
  lemma {:induction false} OmissionShows(w: Window, order: seq<Key>, lengths: Lengths) returns (stack: string)
    requires Kept(w, order, lengths) != Positive(w, order)
    ensures StackWeight(w, Kept(w, order, lengths), stack) < StackWeight(w, Positive(w, order), stack)
  {
    hide StackWeight, CostOf;
    var front, last := order[..|order| - 1], order[|order| - 1];
    var kept, positive := Kept(w, front, lengths), Positive(w, front);
    if kept != positive {
      stack := OmissionShows(w, front, lengths);
    } else {
      stack := last.stack;
    }
    StackWeightStep(w, kept, last, stack);
    StackWeightStep(w, positive, last, stack);
    assert positive + [] == positive;
  }

  lemma EnumeratedSize(order: seq<Key>, w: Window)
    requires Lists(order, w)
    ensures |order| == |w|
  {
    SizeOfList(order, w.Keys);
  }

  lemma {:induction false} SizeOfList(order: seq<Key>, keys: set<Key>)
    requires NoRepeats(order) && forall key :: key in order <==> key in keys
    ensures |order| == |keys|
  {
    if order == [] {
      assert keys == {};
    } else {
      var front, last := order[..|order| - 1], order[|order| - 1];
      assert forall i | 0 <= i < |front| :: front[i] == order[i];
      assert last in order && order == front + [last];
      SizeOfList(front, keys - {last});
    }
  }

  /** From `_add` to the report. A window that the profiler has gathered holds what was accepted since the last flush,
      and its report, whatever the order of the dictionary, folds the whole positive weight of every stack of the
      window if and only if the samples fit the size limit; it never folds more. */
  lemma WindowIsReported(events: seq<Event>, i: nat, j: nat, kind: Kind, order: seq<Key>, lengths: Lengths)
    requires IsWindow(events, i, j) && Lists(order, Of(Run(START, events[..j]).samples, kind))
    ensures var w := Of(Run(START, events[..j]).samples, kind);
      && (forall key :: Get(w, key) == Weight(events, i, j, kind, key))
      && (forall stack :: Get(Folded(w, Kept(w, order, lengths)), stack) <= PositiveWeight(w, w.Keys, stack))
      && ((forall stack :: Get(Folded(w, Kept(w, order, lengths)), stack) == PositiveWeight(w, w.Keys, stack))
          <==> CostOf(w, Positive(w, order), lengths) <= MAX_SIZE)
  {
    hide Run, Kept, Positive, CostOf, Folded, StackWeight, PositiveWeight, Weight;
    var w := Of(Run(START, events[..j]).samples, kind);
    var kept := Kept(w, order, lengths);
    forall key ensures Get(w, key) == Weight(events, i, j, kind, key) { WindowHoldsItsAdds(events, i, j, kind, key); }
    WindowsAreBounded(events[..j], kind);
    EnumeratedSize(order, w);
    NothingIsOmitted(w, order, lengths);
    forall stack
      ensures Get(Folded(w, kept), stack) == StackWeight(w, kept, stack) <= StackWeight(w, Positive(w, order), stack)
      ensures StackWeight(w, Positive(w, order), stack) == PositiveWeight(w, w.Keys, stack)
    {
      FoldedWeight(w, kept, stack);
      KeptIsLight(w, order, lengths, stack);
      PositiveInOrder(w, order, w.Keys, stack);
    }
    if kept != Positive(w, order) {
      var stack := OmissionShows(w, order, lengths);
      assert Get(Folded(w, kept), stack) != PositiveWeight(w, w.Keys, stack);
    }
  }
}
