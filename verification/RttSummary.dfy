/** rttTracker and summarizeRTTs: round-trip times paired by sequence number, and their statistics.
    Instants and durations are nanoseconds; means and variances are exact reals. */
module RttSummary {

  // ---- The tracker ---------------------------------------------------------------------------------

  datatype Event = Send(seqNo: int, time: int) | Recv(seqNo: int, time: int)

  datatype State = State(sent: map<int, int>, rtts: seq<int>)

  function AfterSend(s: State, seqNo: int, now: int): State {
    s.(sent := s.sent[seqNo := now])
  }

  function AfterRecv(s: State, seqNo: int, now: int): State {
    if seqNo !in s.sent then s
    else
      var rtt := now - s.sent[seqNo];
      State(s.sent - {seqNo}, if rtt < 0 then s.rtts else s.rtts + [rtt])
  }

  /** The tracker of one pinger. The clock is read by the caller and may go backwards. */
  class RttTracker {
    var sent: map<int, int>
    var rtts: seq<int>

    constructor ()
      ensures Now() == State(map[], [])
    {
      sent := map[];
      rtts := [];
    }

    ghost function Now(): State
      reads this
    {
      State(sent, rtts)
    }

    method OnSend(seqNo: int, now: int)
      modifies this
      ensures Now() == AfterSend(old(Now()), seqNo, now)
    {
      sent := sent[seqNo := now];
    }

    method OnRecv(seqNo: int, now: int)
      modifies this
      ensures Now() == AfterRecv(old(Now()), seqNo, now)
    {
      if seqNo !in sent { return; }
      var sentAt := sent[seqNo];
      sent := sent - {seqNo};
      var rtt := now - sentAt;
      if rtt < 0 { return; }
      rtts := rtts + [rtt];
    }
  }

  /** The tracker after a sequence of callbacks. */
  function After(events: seq<Event>): State {
    if events == [] then State(map[], []) else
      var before := After(events[..|events| - 1]);
      match events[|events| - 1]
      case Send(seqNo, time) => AfterSend(before, seqNo, time)
      case Recv(seqNo, time) => AfterRecv(before, seqNo, time)
  }

  // What the round-trip times should be, read off the events themselves

  /** The last event about `seqNo`, or -1. */
  function LastAbout(events: seq<Event>, seqNo: int): (i: int)
    ensures -1 <= i < |events| && (i >= 0 ==> events[i].seqNo == seqNo)
    ensures forall k | i < k < |events| :: events[k].seqNo != seqNo
  {
    if events == [] then -1
    else if events[|events| - 1].seqNo == seqNo then |events| - 1
    else LastAbout(events[..|events| - 1], seqNo)
  }

  /** Receipt `j` answers send `i`: nothing happened to their sequence number in between. */
  predicate Answers(events: seq<Event>, i: nat, j: nat) {
    && i < j < |events| && events[i].Send? && events[j].Recv? && events[i].seqNo == events[j].seqNo
    && forall k | i < k < j :: events[k].seqNo != events[i].seqNo
  }

  datatype Pair = Pair(send: nat, recv: nat)

  /** The receipts that answer a send and do not go back in time, each with its send, in order of receipt. */
  function Pairs(events: seq<Event>): seq<Pair> {
    if events == [] then [] else
      var before, last := events[..|events| - 1], events[|events| - 1];
      var i := LastAbout(before, last.seqNo);
      Pairs(before) +
      if last.Recv? && i >= 0 && before[i].Send? && last.time >= before[i].time then [Pair(i, |before|)] else []
  }

  /** A receipt answers at most one send and a send is answered by at most one receipt. */
  lemma AnswersPairUp(events: seq<Event>, i: nat, j: nat, i': nat, j': nat)
    requires Answers(events, i, j) && Answers(events, i', j')
    ensures i == i' <==> j == j'
  {
    if i == i' { assert !(i < j < j') && !(i < j' < j); }
    if j == j' { assert !(i < i' < j) && !(i' < i < j); }
  }

  /** A receipt answers the last event about its number, if that is a send, and no other. */
  lemma LastAboutAnswers(events: seq<Event>)
    requires events != [] && events[|events| - 1].Recv?
    ensures var before, last := events[..|events| - 1], events[|events| - 1];
            var i := LastAbout(before, last.seqNo);
            forall k: nat :: Answers(events, k, |before|) <==> k == i && before[i].Send?
  {
  }

  /** A sequence number is outstanding exactly when the last event about it is a send. */
  lemma {:induction false} OutstandingIsLastSend(events: seq<Event>, seqNo: int)
    ensures var i := LastAbout(events, seqNo);
            (seqNo in After(events).sent <==> i >= 0 && events[i].Send?) &&
            (seqNo in After(events).sent ==> After(events).sent[seqNo] == events[i].time)
  {
    if events != [] { OutstandingIsLastSend(events[..|events| - 1], seqNo); }
  }

  lemma AnswersOfFront(events: seq<Event>, i: nat, j: nat)
    requires events != [] && j < |events| - 1
    ensures Answers(events, i, j) <==> Answers(events[..|events| - 1], i, j)
  {
    var before := events[..|events| - 1];
    assert forall k | 0 <= k < |before| :: before[k] == events[k];
  }

  /** What a round trip is: its receipt answers its send and is not before it. */
  predicate IsRoundTrip(events: seq<Event>, i: nat, j: nat) {
    Answers(events, i, j) && events[j].time >= events[i].time
  }

  lemma {:induction false} PairsAreRoundTrips(events: seq<Event>, p: Pair)
    requires p in Pairs(events)
    ensures IsRoundTrip(events, p.send, p.recv)
  {
    hide Answers, LastAbout;
    var before, last := events[..|events| - 1], events[|events| - 1];
    if p in Pairs(before) {
      PairsAreRoundTrips(before, p);
      AnswersAreInside(before, p.send, p.recv);
      AnswersOfFront(events, p.send, p.recv);
    } else {
      LastAboutAnswers(events);
    }
  }

  lemma {:induction false} RoundTripsArePairs(events: seq<Event>, i: nat, j: nat)
    requires IsRoundTrip(events, i, j)
    ensures Pair(i, j) in Pairs(events)
  {
    hide Answers, LastAbout;
    AnswersAreInside(events, i, j);
    var before := events[..|events| - 1];
    if j < |before| {
      AnswersOfFront(events, i, j);
      RoundTripsArePairs(before, i, j);
    } else {
      LastAboutAnswers(events);
      assert Pairs(events) == Pairs(before) + [Pair(i, j)];
    }
  }

  lemma {:induction false} PairsAscend(events: seq<Event>, k: nat, l: nat)
    requires k < l < |Pairs(events)|
    ensures Pairs(events)[k].recv < Pairs(events)[l].recv
  {
    hide LastAbout;
    var before := events[..|events| - 1];
    if l < |Pairs(before)| {
      PairsAscend(before, k, l);
    } else {
      var p := Pairs(before)[k];
      PairsAreRoundTrips(before, p);
      AnswersAreInside(before, p.send, p.recv);
    }
  }

  lemma AnswersAreInside(events: seq<Event>, i: nat, j: nat)
    requires Answers(events, i, j)
    ensures i < j < |events| && events[j].Recv?
  {
  }

  /** The round-trip time of a pair. */
  function Elapsed(events: seq<Event>, p: Pair): int {
    if p.send < |events| && p.recv < |events| then events[p.recv].time - events[p.send].time else 0
  }

  /** One more event: the new pair, if there is one, and the new time, if there is one. */
  lemma NextPair(events: seq<Event>)
    requires events != []
    ensures var before, n := events[..|events| - 1], |events| - 1;
      var i := LastAbout(before, events[n].seqNo);
      var answered := events[n].Recv? && i >= 0 && events[i].Send? && events[n].time >= events[i].time;
      && Pairs(events) == Pairs(before) + (if answered then [Pair(i, n)] else [])
      && After(events).rtts == After(before).rtts + (if answered then [events[n].time - events[i].time] else [])
  {
    hide LastAbout;
    OutstandingIsLastSend(events[..|events| - 1], events[|events| - 1].seqNo);
  }

  lemma {:induction false} TrackerHoldsPairs(events: seq<Event>)
    ensures |After(events).rtts| == |Pairs(events)|
  {
    if events != [] {
      NextPair(events);
      TrackerHoldsPairs(events[..|events| - 1]);
    }
  }

  lemma {:induction false} TrackerHoldsTimes(events: seq<Event>, k: nat)
    requires k < |Pairs(events)| == |After(events).rtts|
    ensures After(events).rtts[k] == Elapsed(events, Pairs(events)[k])
  {
    hide After, Pairs, LastAbout;
    if events == [] {
      NoPairs();
    } else {
      var before := events[..|events| - 1];
      NextPair(events);
      TrackerHoldsPairs(before);
      if k < |Pairs(before)| {
        TrackerHoldsTimes(before, k);
        PairsAreRoundTrips(before, Pairs(before)[k]);
        AnswersAreInside(before, Pairs(before)[k].send, Pairs(before)[k].recv);
      }
    }
  }

  lemma NoPairs()
    ensures Pairs([]) == []
  {
  }

  /** Over every run, whatever the clock does: the tracker's times are those of the round trips in order of receipt.
      None is invented for an unknown or repeated sequence number, none is negative, no send has two, and no round
      trip is missing. */
  lemma TrackerIsExact(events: seq<Event>)
    ensures var rtts, pairs := After(events).rtts, Pairs(events);
      && |rtts| == |pairs|
      && (forall k | 0 <= k < |pairs| :: IsRoundTrip(events, pairs[k].send, pairs[k].recv)
            && rtts[k] == events[pairs[k].recv].time - events[pairs[k].send].time >= 0)
      && (forall k, l | 0 <= k < l < |pairs| :: pairs[k].recv < pairs[l].recv && pairs[k].send != pairs[l].send)
      && (forall i: nat, j: nat | IsRoundTrip(events, i, j) :: Pair(i, j) in pairs)
  {
    hide After, Pairs, Answers;
    TrackerHoldsPairs(events);
    var pairs := Pairs(events);
    forall k | 0 <= k < |pairs|
      ensures pairs[k].send < pairs[k].recv < |events| && IsRoundTrip(events, pairs[k].send, pairs[k].recv)
      ensures After(events).rtts[k] == events[pairs[k].recv].time - events[pairs[k].send].time >= 0
    {
      PairsAreRoundTrips(events, pairs[k]);
      TrackerHoldsTimes(events, k);
      AnswersAreInside(events, pairs[k].send, pairs[k].recv);
    }
    forall k, l | 0 <= k < l < |pairs| ensures pairs[k].recv < pairs[l].recv && pairs[k].send != pairs[l].send {
      PairsAscend(events, k, l);
      AnswersPairUp(events, pairs[k].send, pairs[k].recv, pairs[l].send, pairs[l].recv);
    }
    forall i: nat, j: nat | IsRoundTrip(events, i, j) ensures Pair(i, j) in pairs { RoundTripsArePairs(events, i, j); }
  }

  function Sends(events: seq<Event>): nat {
    if events == [] then 0 else Sends(events[..|events| - 1]) + if events[|events| - 1].Send? then 1 else 0
  }

  /** A send is still outstanding, was answered once, or is lost: never more. */
  lemma {:induction false} EachSendCountsOnce(events: seq<Event>)
    ensures |After(events).sent| + |After(events).rtts| <= Sends(events)
  {
    if events != [] {
      var before, last := After(events[..|events| - 1]), events[|events| - 1];
      EachSendCountsOnce(events[..|events| - 1]);
      if last.Send? {
        assert before.sent[last.seqNo := last.time].Keys == before.sent.Keys + {last.seqNo};
      } else if last.seqNo in before.sent {
        assert (before.sent - {last.seqNo}).Keys == before.sent.Keys - {last.seqNo};
      }
    }
  }

  // ---- The summary ---------------------------------------------------------------------------------

  datatype Summary = Summary(min: int, max: int, avg: int, stdDev: int, count: nat)

  function Sum(rtts: seq<int>): real {
    if rtts == [] then 0.0 else Sum(rtts[..|rtts| - 1]) + rtts[|rtts| - 1] as real
  }

  function Times(a: real, b: real): real { a * b }

  function Square(x: real): real { Times(x, x) }

  /** The squared distances to `c`. */
  function Squares(rtts: seq<int>, c: real): real {
    if rtts == [] then 0.0 else Squares(rtts[..|rtts| - 1], c) + Square(rtts[|rtts| - 1] as real - c)
  }

  function Mean(rtts: seq<int>): real
    requires rtts != []
  {
    Sum(rtts) / |rtts| as real
  }

  /** The population variance. */
  function Variance(rtts: seq<int>): real
    requires rtts != []
  {
    Squares(rtts, Mean(rtts)) / |rtts| as real
  }

  /** Go's conversion of a float to an integer: towards zero. */
  function Truncate(x: real): (n: int)
    ensures x >= 0.0 ==> n as real <= x < (n + 1) as real
    ensures x <= 0.0 ==> (n - 1) as real < x <= n as real
  {
    if x >= 0.0 then x.Floor else -((-x).Floor)
  }

  /** The square root, truncated. */
  function FloorSqrt(v: real): (root: nat)
    requires v >= 0.0
    ensures (root * root) as real <= v < ((root + 1) * (root + 1)) as real
  {
    SearchSqrt(v, 0)
  }

  function SearchSqrt(v: real, s: nat): (root: nat)
    requires (s * s) as real <= v
    ensures (root * root) as real <= v < ((root + 1) * (root + 1)) as real
    decreases v.Floor - s
  {
    if v < ((s + 1) * (s + 1)) as real then s else
      SquareIsLarger(s + 1);
      SearchSqrt(v, s + 1)
  }

  lemma SquareIsLarger(s: nat)
    ensures s * s >= s
  {
  }

  lemma {:induction false} SquaresAreNotNegative(rtts: seq<int>, c: real)
    ensures Squares(rtts, c) >= 0.0
  {
    hide Square;
    if rtts != [] {
      SquaresAreNotNegative(rtts[..|rtts| - 1], c);
      SquareIsNotNegative(rtts[|rtts| - 1] as real - c);
    }
  }

  lemma SquareIsNotNegative(x: real)
    ensures Square(x) >= 0.0
  {
  }

  lemma VarianceIsNotNegative(rtts: seq<int>)
    requires rtts != []
    ensures Variance(rtts) >= 0.0
  {
    SquaresAreNotNegative(rtts, Mean(rtts));
  }

  predicate IsMin(m: int, rtts: seq<int>) { m in rtts && forall i | 0 <= i < |rtts| :: m <= rtts[i] }

  predicate IsMax(m: int, rtts: seq<int>) { m in rtts && forall i | 0 <= i < |rtts| :: rtts[i] <= m }

  lemma OneMoreSample(rtts: seq<int>, i: nat, c: real, d: real)
    requires i < |rtts| && d == rtts[i] as real - c
    ensures Sum(rtts[..i + 1]) == Sum(rtts[..i]) + rtts[i] as real
    ensures Squares(rtts[..i + 1], c) == Squares(rtts[..i], c) + d * d
  {
    assert rtts[..i + 1][..i] == rtts[..i];
  }

  lemma NothingSummed(c: real)
    ensures Sum([]) == 0.0 && Squares([], c) == 0.0
  {
  }

  lemma MeanAndVariance(rtts: seq<int>)
    requires rtts != []
    ensures Mean(rtts) == Sum(rtts) / |rtts| as real
    ensures Variance(rtts) == Squares(rtts, Mean(rtts)) / |rtts| as real
  {
  }

  method SummarizeRTTs(rtts: seq<int>) returns (s: Summary)
    ensures rtts == [] ==> s == Summary(0, 0, 0, 0, 0)
    ensures rtts != [] ==> IsMin(s.min, rtts) && IsMax(s.max, rtts) && s.count == |rtts|
    ensures rtts != [] ==> s.avg == Truncate(Mean(rtts))
    ensures rtts != [] ==> Variance(rtts) >= 0.0 && s.stdDev == FloorSqrt(Variance(rtts))
  {
    hide Sum, Squares, Square, Times, Truncate, FloorSqrt, Mean, Variance;
    if rtts == [] { return Summary(0, 0, 0, 0, 0); }
    var min, max, sum := rtts[0], rtts[0], 0.0;
    assert rtts[..0] == [];
    NothingSummed(0.0);
    for i := 0 to |rtts|
      invariant min in rtts && forall k | 0 <= k < i :: min <= rtts[k]
      invariant max in rtts && forall k | 0 <= k < i :: rtts[k] <= max
      invariant sum == Sum(rtts[..i])
    {
      if rtts[i] < min { min := rtts[i]; }
      if rtts[i] > max { max := rtts[i]; }
      sum := sum + rtts[i] as real;
      OneMoreSample(rtts, i, 0.0, rtts[i] as real);
    }
    assert rtts[..|rtts|] == rtts;
    var mean := sum / |rtts| as real;
    MeanAndVariance(rtts);
    var sq := 0.0;
    NothingSummed(mean);
    for i := 0 to |rtts|
      invariant sq == Squares(rtts[..i], mean)
    {
      var d := rtts[i] as real - mean;
      sq := sq + d * d;
      OneMoreSample(rtts, i, mean, d);
    }
    VarianceIsNotNegative(rtts);
    s := Summary(min, max, Truncate(mean), FloorSqrt(sq / |rtts| as real), |rtts|);
  }

  // ---- What the statistics promise -----------------------------------------------------------------

  predicate Within(rtts: seq<int>, low: int, high: int) {
    forall i | 0 <= i < |rtts| :: low <= rtts[i] <= high
  }

  lemma {:induction false} SumBounds(rtts: seq<int>, low: int, high: int)
    requires Within(rtts, low, high)
    ensures Copies(|rtts|, low) <= Sum(rtts) <= Copies(|rtts|, high)
  {
    hide Copies;
    OneMoreTime(0, low);
    OneMoreTime(0, high);
    if rtts != [] {
      var front := rtts[..|rtts| - 1];
      SumBounds(front, low, high);
      OneMoreTime(|front|, low);
      OneMoreTime(|front|, high);
    }
  }

  /** `n` times `x`. */
  function Copies(n: nat, x: int): real { n as real * x as real }

  lemma OneMoreTime(n: nat, x: int)
    ensures Copies(n + 1, x) == Copies(n, x) + x as real && Copies(0, x) == 0.0
  {
  }

  lemma CancelFactor(a: real, b: real, n: real)
    requires n > 0.0 && n * a <= n * b
    ensures a <= b
  {
  }

  lemma QuotientBounds(sum: real, n: real, low: real, high: real)
    requires n > 0.0 && n * low <= sum <= n * high
    ensures low <= sum / n <= high
  {
    var q := sum / n;
    assert q * n == sum;
    CancelFactor(low, q, n);
    CancelFactor(q, high, n);
  }

  lemma MeanBounds(rtts: seq<int>, low: int, high: int)
    requires rtts != [] && Within(rtts, low, high)
    ensures low as real <= Mean(rtts) <= high as real
  {
    SumBounds(rtts, low, high);
    QuotientBounds(Sum(rtts), |rtts| as real, low as real, high as real);
  }

  /** `p` and `g` are the product and the difference of the distances of `c` to the ends. */
  predicate Coefficients(c: real, low: int, high: int, p: real, g: real) {
    var e, f := high as real - c, c - low as real;
    p == e * f && g == e - f
  }

  /** One sample between the ends: its squared distance to `c`, bounded linearly. */
  lemma OneSquare(x: int, c: real, low: int, high: int, p: real, g: real)
    requires low <= x <= high && Coefficients(c, low, high, p, g)
    ensures Square(x as real - c) <= p + Times(g, x as real - c)
  {
    ProductIsNotNegative(high as real - x as real, x as real - low as real);
    ExpandProduct(x as real - c, high as real - c, c - low as real);
  }

  lemma ExpandProduct(d: real, e: real, f: real)
    ensures (e - d) * (d + f) == e * f + (e - f) * d - d * d
  {
    assert (e - d) * (d + f) == e * d + e * f - d * d - d * f;
    assert (e - f) * d == e * d - f * d;
  }

  lemma ProductIsNotNegative(a: real, b: real)
    requires a >= 0.0 && b >= 0.0
    ensures a * b >= 0.0
  {
  }

  /** What the bounds on `n` samples that sum to `sum` add up to. */
  function Line(n: nat, p: real, g: real, sum: real, c: real): real {
    n as real * p + g * (sum - n as real * c)
  }

  lemma {:induction false} SquaresBound(rtts: seq<int>, c: real, low: int, high: int, p: real, g: real)
    requires Within(rtts, low, high) && Coefficients(c, low, high, p, g)
    ensures Squares(rtts, c) <= Line(|rtts|, p, g, Sum(rtts), c)
  {
    hide Line, Square, Times, Coefficients;
    if rtts == [] {
      NoTerms(p, g, c);
    } else {
      var front, x := rtts[..|rtts| - 1], rtts[|rtts| - 1];
      SquaresBound(front, c, low, high, p, g);
      OneSquare(x, c, low, high, p, g);
      OneMoreTerm(|front|, p, g, Sum(front), x as real, c);
    }
  }

  lemma NoTerms(p: real, g: real, c: real)
    ensures Line(0, p, g, 0.0, c) == 0.0
  {
  }

  lemma OneMoreTerm(n: nat, p: real, g: real, sum: real, x: real, c: real)
    ensures Line(n, p, g, sum, c) + (p + Times(g, x - c)) == Line(n + 1, p, g, sum + x, c)
  {
    var m := n as real;
    assert sum + x - (m + 1.0) * c == (sum - m * c) + (x - c) by { assert (m + 1.0) * c == m * c + c; }
    Distribute(g, sum - m * c, x - c);
    assert (m + 1.0) * p == m * p + p;
  }

  lemma Distribute(g: real, a: real, b: real)
    ensures g * (a + b) == g * a + g * b
  {
  }

  /** The variance is at most the product of the distances of the mean to both ends. */
  lemma VarianceBound(rtts: seq<int>, low: int, high: int)
    requires rtts != [] && Within(rtts, low, high)
    ensures Variance(rtts) <= (high as real - Mean(rtts)) * (Mean(rtts) - low as real)
  {
    hide Mean, Variance, Sum, Squares, Line;
    var n, c := |rtts| as real, Mean(rtts);
    MeanAndVariance(rtts);
    var e, f := high as real - c, c - low as real;
    SquaresBound(rtts, c, low, high, e * f, e - f);
    LineAtMean(|rtts|, e * f, e - f, Sum(rtts));
    SquaresAreNotNegative(rtts, c);
    VarianceIsQuotient(Squares(rtts, c), n, e * f);
  }

  lemma LineAtMean(n: nat, p: real, g: real, sum: real)
    requires n > 0
    ensures Line(n, p, g, sum, sum / n as real) == n as real * p
  {
    assert sum - n as real * (sum / n as real) == 0.0;
  }

  lemma VarianceIsQuotient(squares: real, n: real, p: real)
    requires n > 0.0 && 0.0 <= squares <= n * p
    ensures squares / n <= p
  {
    var q := squares / n;
    assert q * n == squares;
    CancelFactor(q, p, n);
  }

  /** A product is at most the square of half the sum. */
  lemma MeanOfTwo(a: real, b: real)
    ensures 4.0 * (a * b) <= (a + b) * (a + b)
  {
    SquareIsNotNegative(a - b);
    assert (a + b) * (a + b) - 4.0 * (a * b) == (a - b) * (a - b);
  }

  lemma RootBound(root: nat, v: real, width: int)
    requires (root * root) as real <= v && 4.0 * v <= (width * width) as real && width >= 0
    ensures 2 * root <= width
  {
    assert 4 * (root * root) <= width * width;
    if 2 * root > width { SquareGrows(width, 2 * root); }
  }

  lemma SquareGrows(a: nat, b: nat)
    requires a < b
    ensures a * a < b * b
  {
  }

  /** The reported numbers are in order and the deviation is at most half the spread. */
  lemma SummaryIsConsistent(rtts: seq<int>, low: int, high: int)
    requires rtts != [] && IsMin(low, rtts) && IsMax(high, rtts)
    ensures low <= Truncate(Mean(rtts)) <= high
    ensures 0.0 <= Variance(rtts) <= (high as real - Mean(rtts)) * (Mean(rtts) - low as real)
    ensures 2 * FloorSqrt(Variance(rtts)) <= high - low
  {
    hide Mean, Variance, Truncate, FloorSqrt;
    MeanBounds(rtts, low, high);
    VarianceBound(rtts, low, high);
    VarianceIsNotNegative(rtts);
    TruncateBetween(Mean(rtts), low, high);
    HalfWidth(Variance(rtts), high as real - Mean(rtts), Mean(rtts) - low as real, high - low);
    RootBound(FloorSqrt(Variance(rtts)), Variance(rtts), high - low);
  }

  lemma TruncateBetween(x: real, low: int, high: int)
    requires low as real <= x <= high as real
    ensures low <= Truncate(x) <= high
  {
  }

  lemma HalfWidth(v: real, a: real, b: real, width: int)
    requires v <= a * b && a + b == width as real
    ensures 4.0 * v <= (width * width) as real
  {
    MeanOfTwo(a, b);
    SquareOfWidth(a + b, width);
  }

  lemma SquareOfWidth(x: real, width: int)
    requires x == width as real
    ensures x * x == (width * width) as real
  {
  }

  /** The variance vanishes exactly when all round trips took the same time. */
  lemma NoVarianceMeansAllEqual(rtts: seq<int>, low: int, high: int)
    requires rtts != [] && IsMin(low, rtts) && IsMax(high, rtts)
    ensures Variance(rtts) == 0.0 <==> low == high
  {
    hide Squares, Mean, Variance;
    var c := Mean(rtts);
    MeanAndVariance(rtts);
    MeanBounds(rtts, low, high);
    VarianceIsNotNegative(rtts);
    if low == high {
      VarianceBound(rtts, low, high);
    } else {
      SomeDistance(rtts, c, if c == high as real then low else high);
      PositiveQuotient(Squares(rtts, c), |rtts| as real);
    }
  }

  lemma ProductIsPositive(a: real, b: real)
    requires a > 0.0 && b > 0.0
    ensures Times(a, b) > 0.0
  {
  }

  lemma PositiveSquare(x: real)
    requires x > 0.0
    ensures Square(x) > 0.0
  {
    hide Times;
    ProductIsPositive(x, x);
  }

  lemma SquareIsPositive(x: real)
    requires x != 0.0
    ensures Square(x) > 0.0
  {
    hide Square;
    if x > 0.0 {
      PositiveSquare(x);
    } else {
      PositiveSquare(-x);
      SameSquare(x, -x);
    }
  }

  lemma SameSquare(x: real, y: real)
    requires x + y == 0.0
    ensures Square(x) == Square(y)
  {
    assert x * x == x * (x + y) - x * y && y * y == y * (x + y) - x * y;
  }

  lemma PositiveQuotient(x: real, n: real)
    requires x > 0.0 && n > 0.0
    ensures x / n > 0.0
  {
  }

  lemma {:induction false} SomeDistance(rtts: seq<int>, c: real, r: int)
    requires r in rtts && r as real != c
    ensures Squares(rtts, c) > 0.0
  {
    hide Square;
    var front, last := rtts[..|rtts| - 1], rtts[|rtts| - 1];
    var d := last as real - c;
    SquareIsNotNegative(d);
    SquaresAreNotNegative(front, c);
    if r != last { SomeDistance(front, c, r); } else { SquareIsPositive(d); }
  }
}
