/** The few string operations that the scanners share. One `char` stands for one unit of the scanned
    text: a byte in the Go scanners, a code point in the Python one. */
module Text {

  /** `sub` stands in `s` at position `p`. */
  predicate OccursAt(s: string, sub: string, p: int) {
    0 <= p <= |s| - |sub| && s[p..p + |sub|] == sub
  }

  /** The first position of `sub` in `s`, or -1: what strings.Index and str.find compute. */
  function Index(s: string, sub: string): (r: int)
    ensures r == -1 || 0 <= r <= |s| - |sub|
  {
    if OccursAt(s, sub, 0) then 0
    else if s == [] then -1
    else
      var rest := Index(s[1..], sub);
      if rest < 0 then -1 else rest + 1
  }

  lemma OccursInTail(s: string, sub: string, p: int)
    requires s != [] && p > 0
    ensures OccursAt(s[1..], sub, p - 1) <==> OccursAt(s, sub, p)
  {
    if p <= |s| - |sub| {
      assert s[1..][p - 1..p - 1 + |sub|] == s[p..p + |sub|];
    }
  }

  lemma {:induction false} IndexIsFirst(s: string, sub: string)
    ensures var r := Index(s, sub);
            (r >= 0 ==> OccursAt(s, sub, r)) && forall p | OccursAt(s, sub, p) :: 0 <= r <= p
  {
    if s != [] && !OccursAt(s, sub, 0) {
      IndexIsFirst(s[1..], sub);
      var r := Index(s, sub);
      if r >= 0 { OccursInTail(s, sub, r); }
      forall p | OccursAt(s, sub, p) ensures 0 <= r <= p { OccursInTail(s, sub, p); }
    }
  }

  lemma OccurrenceIsLocal(pre: string, x: string, y: string, sub: string, p: int)
    requires p + |sub| <= |pre|
    ensures OccursAt(pre + x, sub, p) <==> OccursAt(pre + y, sub, p)
  {
    if p >= 0 {
      assert (pre + x)[p..p + |sub|] == pre[p..p + |sub|] == (pre + y)[p..p + |sub|];
    }
  }

  /** A first occurrence that lies inside `pre` stays the first one whatever text follows `pre`. */
  lemma IndexIsLocal(pre: string, x: string, y: string, sub: string)
    requires 0 <= Index(pre + x, sub) <= |pre| - |sub|
    ensures Index(pre + y, sub) == Index(pre + x, sub)
  {
    var s, t := pre + x, pre + y;
    var r, q := Index(s, sub), Index(t, sub);
    IndexIsFirst(s, sub);
    IndexIsFirst(t, sub);
    OccurrenceIsLocal(pre, x, y, sub, r);
    assert OccursAt(s, sub, r) && OccursAt(t, sub, r);
    OccurrenceIsLocal(pre, x, y, sub, q);
  }

  /** strings.Join with a one-character separator. */
  function Join(parts: seq<string>, separator: char): string {
    if parts == [] then ""
    else if |parts| == 1 then parts[0]
    else parts[0] + [separator] + Join(parts[1..], separator)
  }

  /** A text without a mark, the mark, and anything: both parts can be read back. */
  lemma CutAtMark(a: string, x: string, b: string, y: string, mark: char)
    requires mark !in a && mark !in b && a + [mark] + x == b + [mark] + y
    ensures a == b && x == y
  {
    var k := a + [mark] + x;
    assert forall i | 0 <= i < |a| :: k[i] == a[i] != mark;
    assert forall i | 0 <= i < |b| :: k[i] == b[i] != mark;
    assert k[|a|] == mark && k[|b|] == mark;
    assert a == k[..|a|] && b == k[..|b|] && x == k[|a| + 1..] && y == k[|b| + 1..];
  }
}
