/** cpuListCount: how many CPUs a kernel list such as `0-3,5,7-8` names. */
module CpuList {
  import opened Decimal
  import opened Options
  import opened Collections
  import opened Text

  newtype uint64 = x: int | 0 <= x < 0x1_0000_0000_0000_0000

  const LIMIT: nat := 0x1_0000_0000

  datatype Range = Range(start: nat, end: nat)

  // ---- The library functions -----------------------------------------------------------------------

  /** The characters that strings.TrimSpace drops: Unicode's White_Space. */
  predicate IsSpace(c: char) {
    || '\t' <= c <= '\r' || c == ' ' || c == '\U{85}' || c == '\U{A0}' || c == '\U{1680}' || '\U{2000}' <= c <= '\U{200A}'
    || c == '\U{2028}' || c == '\U{2029}' || c == '\U{202F}' || c == '\U{205F}' || c == '\U{3000}'
  }

  function TrimSpace(s: string): string {
    if s != "" && IsSpace(s[0]) then TrimSpace(s[1..])
    else if s != "" && IsSpace(s[|s| - 1]) then TrimSpace(s[..|s| - 1])
    else s
  }

  /** strings.Split with a one-character separator: always at least one part. */
  function Split(s: string, sep: char): (parts: seq<string>)
    ensures parts != []
  {
    if s == "" then [""]
    else
      var rest := Split(s[1..], sep);
      if s[0] == sep then [""] + rest else [[s[0]] + rest[0]] + rest[1..]
  }

  lemma {:induction false} SplitIsExact(s: string, sep: char)
    ensures Join(Split(s, sep), sep) == s
    ensures forall i | 0 <= i < |Split(s, sep)| :: sep !in Split(s, sep)[i]
  {
    if s != "" {
      SplitIsExact(s[1..], sep);
      var rest, parts := Split(s[1..], sep), Split(s, sep);
      if s[0] == sep {
        assert parts[1..] == rest;
      } else {
        assert parts[0] == [s[0]] + rest[0] && parts[1..] == rest[1..];
        assert Join(parts, sep) == [s[0]] + Join(rest, sep);
      }
    }
  }

  lemma {:induction false} SplitPrefix(part: string, rest: string, sep: char)
    requires sep !in part
    ensures Split(part + [sep] + rest, sep) == [part] + Split(rest, sep)
  {
    var s := part + [sep] + rest;
    if part == "" {
      assert s[1..] == rest;
    } else {
      assert s[1..] == part[1..] + [sep] + rest;
      SplitPrefix(part[1..], rest, sep);
      assert [s[0]] + part[1..] == part;
    }
  }

  lemma {:induction false} SplitOnePart(part: string, sep: char)
    requires sep !in part
    ensures Split(part, sep) == [part]
  {
    if part != "" {
      SplitOnePart(part[1..], sep);
      assert [part[0]] + part[1..] == part;
    }
  }

  lemma {:induction false} SplitOfJoin(parts: seq<string>, sep: char)
    requires parts != [] && forall i | 0 <= i < |parts| :: sep !in parts[i]
    ensures Split(Join(parts, sep), sep) == parts
  {
    if |parts| == 1 {
      SplitOnePart(parts[0], sep);
    } else {
      SplitPrefix(parts[0], Join(parts[1..], sep), sep);
      SplitOfJoin(parts[1..], sep);
    }
  }

  // ---- What a list means ---------------------------------------------------------------------------

  /** One part of the list: a number or two joined by a dash, the second not below the first. */
  function ParseRange(part: string): (range: Option<Range>)
    ensures range.Some? ==> range.value.start <= range.value.end < LIMIT
  {
    var bounds := Split(part, '-');
    if |bounds| > 2 then None
    else
      var start := ParseUint(bounds[0], LIMIT);
      var end := if |bounds| == 2 then ParseUint(bounds[1], LIMIT) else start;
      if start == None || end == None || end.value < start.value then None
      else Some(Range(start.value, end.value))
  }

  /** Every part is a range and starts above the end of the part before it. */
  predicate Ascending(parts: seq<string>) {
    && (forall i | 0 <= i < |parts| :: ParseRange(parts[i]).Some?)
    && (forall i, j | 0 <= i && j == i + 1 < |parts| :: ParseRange(parts[i]).value.end < ParseRange(parts[j]).value.start)
  }

  predicate Names(part: string, cpu: nat) {
    var range := ParseRange(part);
    range.Some? && range.value.start <= cpu <= range.value.end
  }

  predicate SomeNames(parts: seq<string>, cpu: nat) {
    exists i :: 0 <= i < |parts| && Names(parts[i], cpu)
  }

  /** The CPUs that some part names: the union of the ranges. */
  function Cpus(parts: seq<string>): set<nat> {
    set cpu: nat | cpu < LIMIT && SomeNames(parts, cpu)
  }

  function Parts(raw: string): seq<string> { Split(TrimSpace(raw), ',') }

  // ---- Counting ------------------------------------------------------------------------------------

  predicate Between(start: nat, cpu: nat, end: nat) { start <= cpu <= end }

  function Interval(start: nat, end: nat): set<nat> { set cpu: nat | cpu <= end && Between(start, cpu, end) }

  lemma {:induction false} IntervalSize(start: nat, end: nat)
    requires start <= end
    ensures |Interval(start, end)| == end - start + 1
    decreases end
  {
    if start == end {
      assert Interval(start, end) == {start};
    } else {
      IntervalSize(start, end - 1);
      assert Interval(start, end) == Interval(start, end - 1) + {end};
    }
  }

  /** A part that starts above everything named so far adds its whole length. */
  lemma OneMorePart(parts: seq<string>, part: string, below: nat)
    requires ParseRange(part).Some?
    requires forall cpu | cpu in Cpus(parts) :: cpu < below
    requires below <= ParseRange(part).value.start
    ensures var range := ParseRange(part).value;
            |Cpus(parts + [part])| == |Cpus(parts)| + (range.end - range.start + 1)
    ensures forall cpu | cpu in Cpus(parts + [part]) :: cpu < ParseRange(part).value.end + 1
  {
    hide ParseRange;
    var range := ParseRange(part).value;
    IntervalSize(range.start, range.end);
    var all := parts + [part];
    assert all[|parts|] == part;
    assert forall i | 0 <= i < |parts| :: all[i] == parts[i];
    assert Cpus(all) == Cpus(parts) + Interval(range.start, range.end);
    assert Cpus(parts) !! Interval(range.start, range.end);
  }

  lemma BelowIsFew(cpus: set<nat>, below: nat)
    requires forall cpu | cpu in cpus :: cpu < below
    ensures |cpus| <= below
  {
    if below > 0 {
      IntervalSize(0, below - 1);
      SubsetIsSmaller(cpus, Interval(0, below - 1));
    } else {
      assert cpus == {};
    }
  }

  /** The count, in the machine's arithmetic: every intermediate sum fits in 64 bits. A list that is malformed
      or not strictly ascending counts as zero, any other as the size of the union of its ranges. */
  method CpuListCount(raw: string) returns (count: uint64)
    ensures Ascending(Parts(raw)) ==> count as int == |Cpus(Parts(raw))| && 1 <= count as int <= LIMIT
    ensures !Ascending(Parts(raw)) ==> count == 0
  {
    hide ParseRange, TrimSpace, Cpus;
    count := 0;
    var previous: uint64 := 0;
    var parts := Split(TrimSpace(raw), ',');
    NoCpus();
    for i := 0 to |parts|
      invariant Ascending(parts[..i])
      invariant i > 0 ==> previous as int == ParseRange(parts[i - 1]).value.end
      invariant count as int == |Cpus(parts[..i])| && (i > 0 ==> count > 0)
      invariant count as int <= if i == 0 then 0 else previous as int + 1
      invariant forall cpu | cpu in Cpus(parts[..i]) :: i > 0 && cpu < previous as int + 1
    {
      var range := ParseRange(parts[i]);
      if range == None || (i > 0 && range.value.start as uint64 <= previous) {
        NotAscending(parts, i);
        return 0;
      }
      OneMorePart(parts[..i], parts[i], if i == 0 then 0 else previous as int + 1);
      assert parts[..i + 1] == parts[..i] + [parts[i]];
      count := count + (range.value.end as uint64 - range.value.start as uint64 + 1);
      previous := range.value.end as uint64;
      BelowIsFew(Cpus(parts[..i + 1]), previous as int + 1);
    }
    assert parts[..|parts|] == parts;
  }

  lemma NoCpus()
    ensures Cpus([]) == {}
  {
  }

  lemma NotAscending(parts: seq<string>, i: nat)
    requires i < |parts|
    requires ParseRange(parts[i]).Some? && i > 0 && ParseRange(parts[i - 1]).Some? ==>
      ParseRange(parts[i]).value.start <= ParseRange(parts[i - 1]).value.end
    requires i == 0 ==> ParseRange(parts[i]) == None
    ensures !Ascending(parts)
  {
    hide ParseRange;
    if i > 0 && Ascending(parts) { var j := i - 1; assert false; }
  }

  // ---- The kernel's own lists ----------------------------------------------------------------------

  function Show(range: Range): string {
    if range.start == range.end then Numeral(range.start) else Numeral(range.start) + "-" + Numeral(range.end)
  }

  function ShowAll(ranges: seq<Range>): seq<string> { seq(|ranges|, i requires 0 <= i < |ranges| => Show(ranges[i])) }

  lemma ShowReadsBack(range: Range)
    requires range.start <= range.end < LIMIT
    ensures ParseRange(Show(range)) == Some(range) && ',' !in Show(range)
    ensures Show(range) != "" && '0' <= Show(range)[0] <= '9' && '0' <= Show(range)[|Show(range)| - 1] <= '9'
  {
    hide Numeral, NumberOf;
    NumeralReadsBack(range.start);
    NumeralReadsBack(range.end);
    if range.start == range.end {
      SplitOnePart(Show(range), '-');
    } else {
      SplitPrefix(Numeral(range.start), Numeral(range.end), '-');
      SplitOnePart(Numeral(range.end), '-');
    }
  }

  /** What a part may look like: one number below 2^32, or two with a dash between them, the second not smaller. */
  lemma RangeIsRead(a: string, b: string, rest: string)
    requires '-' !in a && '-' !in b
    ensures ParseRange(a) == if IsNumber(a) then Some(Range(NumberOf(a), NumberOf(a))) else None
    ensures ParseRange(a + "-" + b) ==
      if IsNumber(a) && IsNumber(b) && NumberOf(a) <= NumberOf(b) then Some(Range(NumberOf(a), NumberOf(b))) else None
    ensures ParseRange(a + "-" + (b + "-" + rest)) == None
  {
    hide NumberOf;
    SplitOnePart(a, '-');
    SplitOnePart(b, '-');
    SplitPrefix(a, b, '-');
    SplitPrefix(b, rest, '-');
    SplitPrefix(a, b + "-" + rest, '-');
  }

  predicate IsNumber(s: string) { IsNumeral(s) && NumberOf(s) < 4_294_967_296 }

  lemma {:induction false} JoinEnds(parts: seq<string>)
    requires parts != []
    requires forall i | 0 <= i < |parts| ::
      parts[i] != "" && '0' <= parts[i][0] <= '9' && '0' <= parts[i][|parts[i]| - 1] <= '9'
    ensures var s := Join(parts, ','); s != "" && '0' <= s[0] <= '9' && '0' <= s[|s| - 1] <= '9'
  {
    if |parts| > 1 { JoinEnds(parts[1..]); }
  }

  lemma TrimsTheNewline(s: string)
    requires s != "" && '0' <= s[0] <= '9' && '0' <= s[|s| - 1] <= '9'
    ensures TrimSpace(s + "\n") == s
  {
    var line := s + "\n";
    assert line[..|line| - 1] == s;
    assert TrimSpace(line) == TrimSpace(line[..|line| - 1]);
  }

  /** The line the kernel writes for a set of CPUs is read back range by range, so the count is the size of
      that set. */
  lemma KernelListIsCounted(ranges: seq<Range>)
    requires ranges != [] && forall i | 0 <= i < |ranges| :: ranges[i].start <= ranges[i].end < LIMIT
    requires forall i, j | 0 <= i && j == i + 1 < |ranges| :: ranges[i].end < ranges[j].start
    ensures var parts := Parts(Join(ShowAll(ranges), ',') + "\n");
            Ascending(parts) && |parts| == |ranges| && forall i | 0 <= i < |ranges| :: ParseRange(parts[i]) == Some(ranges[i])
  {
    hide ParseRange, Show, Join, TrimSpace;
    var shown := ShowAll(ranges);
    forall i | 0 <= i < |ranges|
      ensures ParseRange(shown[i]) == Some(ranges[i]) && ',' !in shown[i] && shown[i] != ""
      ensures '0' <= shown[i][0] <= '9' && '0' <= shown[i][|shown[i]| - 1] <= '9'
    {
      ShowReadsBack(ranges[i]);
    }
    SplitOfJoin(shown, ',');
    JoinEnds(shown);
    TrimsTheNewline(Join(shown, ','));
  }
}
