/** maskDollarQuotedStrings: dollar-quoted literals with ASCII tags, compared with PostgreSQL's own in `PostgresLexis`. */
module DollarMask {
  import opened Collections
  import opened Text

  predicate IsTagStart(c: char) {
    c == '_' || 'A' <= c <= 'Z' || 'a' <= c <= 'z'
  }

  predicate IsTagPart(c: char) {
    IsTagStart(c) || '0' <= c <= '9'
  }

  /** A dollar-quote delimiter as the scanner knows it: `$$`, or an ASCII tag between two dollar signs. */
  predicate IsDelimiter(d: string) {
    && |d| >= 2 && d[0] == '$' && d[|d| - 1] == '$'
    && (|d| > 2 ==> IsTagStart(d[1]))
    && forall i | 1 <= i < |d| - 1 :: IsTagPart(d[i])
  }

  /** How many tag characters `s` starts with. */
  function TagLength(s: string): (n: nat)
    ensures n <= |s|
    ensures forall i | 0 <= i < n :: IsTagPart(s[i])
    ensures n < |s| ==> !IsTagPart(s[n])
  {
    if s == [] || !IsTagPart(s[0]) then 0 else 1 + TagLength(s[1..])
  }

  /** The length of the delimiter that `s` starts with, or 0. */
  function DelimiterLength(s: string): (k: nat)
    ensures k <= |s|
  {
    if |s| < 2 || s[0] != '$' then 0
    else if s[1] == '$' then 2
    else if !IsTagStart(s[1]) then 0
    else
      var n := 1 + TagLength(s[1..]);
      if n < |s| && s[n] == '$' then n + 1 else 0
  }

  /** One scan step at the head of `s`: how far the scan moves. */
  function Advance(s: string): (n: nat)
    requires s != []
    ensures 0 < n <= |s|
  {
    var k := DelimiterLength(s);
    if k == 0 then 1
    else
      var closing := Index(s[k..], s[..k]);
      if closing < 0 then |s| else k + closing + k
  }

  /** One scan step at the head of `s`: the one character it writes. */
  function Emit(s: string): char
    requires s != []
  {
    if DelimiterLength(s) == 0 then s[0] else '?'
  }

  /** The masked text: every top-level dollar-quoted literal is one '?'. */
  function Mask(s: string): string
    decreases |s|
  {
    if s == [] then [] else [Emit(s)] + Mask(s[Advance(s)..])
  }

  lemma StepDone(s: string, start: nat, written: string, index: nat, out: string)
    requires start < |s| && index == start + Advance(s[start..])
    requires out == written + [Emit(s[start..])]
    ensures out + Mask(s[index..]) == written + Mask(s[start..])
  {
    hide Advance, Emit;
    var rest := s[start..];
    assert rest[Advance(rest)..] == s[index..];
  }

  /** What the inner loop of the scanner has established when it stops at `end`. */
  lemma TagEndDecides(s: string, index: nat, end: nat)
    requires index < |s| && s[index] == '$' && index < end <= |s|
    requires end == index + 1 + (if index + 1 < |s| && IsTagStart(s[index + 1]) then TagLength(s[index + 1..]) else 0)
    ensures var rest := s[index..];
            if end < |s| && s[end] == '$' then
              var delimiter := s[index..end + 1];
              var closing := Index(s[end + 1..], delimiter);
              Emit(rest) == '?' && index + Advance(rest) == if closing < 0 then |s| else end + 1 + closing + |delimiter|
            else Emit(rest) == '$' && Advance(rest) == 1
  {
    hide Index, TagLength;
    var rest := s[index..];
    assert rest[1..] == s[index + 1..];
    if end < |s| {
      assert rest[end - index] == s[end];
      assert rest[..end + 1 - index] == s[index..end + 1] && rest[end + 1 - index..] == s[end + 1..];
    }
  }

  /** The scanner's inner loop: past the first tag character, on to the first one that cannot be in a tag. */
  method TagEnd(query: string, start: nat) returns (end: nat)
    requires start < |query| && IsTagStart(query[start])
    ensures end == start + TagLength(query[start..])
  {
    end := start + 1;
    while end < |query| && query[end] != '$' && IsTagPart(query[end])
      invariant start < end <= |query|
      invariant end - start + TagLength(query[end..]) == TagLength(query[start..])
    {
      assert query[end..][1..] == query[end + 1..];
      end := end + 1;
    }
  }

  /** The scanner as written in Go: one index, an inner loop over the tag, strings.Index for the close. */
  method MaskDollarQuotedStrings(query: string) returns (out: string)
    ensures out == Mask(query)
  {
    hide Index, TagLength;
    out := [];
    var index := 0;
    while index < |query|
      invariant 0 <= index <= |query|
      invariant out + Mask(query[index..]) == Mask(query)
    {
      ghost var start, written := index, out;
      if query[index] != '$' {
        out := out + [query[index]];
        index := index + 1;
        StepDone(query, start, written, index, out);
        continue;
      }
      var end := index + 1;
      if end < |query| && query[end] != '$' {
        if !IsTagStart(query[end]) {
          TagEndDecides(query, index, end);
          out := out + [query[index]];
          index := index + 1;
          StepDone(query, start, written, index, out);
          continue;
        }
        end := TagEnd(query, end);
      }
      TagEndDecides(query, index, end);
      if end >= |query| || query[end] != '$' {
        out := out + [query[index]];
        index := index + 1;
        StepDone(query, start, written, index, out);
        continue;
      }
      var delimiter := query[index..end + 1];
      var closing := Index(query[end + 1..], delimiter);
      out := out + ['?'];
      if closing < 0 {
        StepDone(query, start, written, |query|, out);
        index := |query|;
        break;
      }
      index := end + 1 + closing + |delimiter|;
      StepDone(query, start, written, index, out);
    }
    assert query[index..] == [];
  }

  lemma DelimiterLengthFindsDelimiter(s: string)
    ensures var k := DelimiterLength(s); k > 0 ==> IsDelimiter(s[..k])
  {
    if |s| >= 2 {
      var n := 1 + TagLength(s[1..]);
      assert forall i | 1 <= i < n :: s[i] == s[1..][i - 1];
    }
  }

  /** The scan decides "a delimiter starts here" exactly as the definition does. */
  lemma DelimiterLengthIsExact(s: string, k: nat)
    requires 0 < k <= |s|
    ensures DelimiterLength(s) == k <==> IsDelimiter(s[..k])
  {
    DelimiterLengthFindsDelimiter(s);
    var d := s[..k];
    if IsDelimiter(d) && k > 2 {
      assert forall i | 1 <= i < k :: s[1..][i - 1] == d[i];
      assert TagLength(s[1..]) == k - 2;
    }
  }

  /** No delimiter starts anywhere in `s`. */
  predicate DelimiterFree(s: string) {
    forall i, j | 0 <= i < j <= |s| :: !IsDelimiter(s[i..j])
  }

  /** A run of tag characters closed by '$' in the output was copied, character by character, from the input. */
  lemma {:induction false} CopiedTag(s: string, n: nat)
    requires n < |Mask(s)| && Mask(s)[n] == '$' && forall i | 0 <= i < n :: IsTagPart(Mask(s)[i])
    ensures n < |s| && s[..n + 1] == Mask(s)[..n + 1]
  {
    hide DelimiterLength, Index;
    assert Emit(s) == Mask(s)[0] != '?';
    if n > 0 {
      assert Mask(s[1..]) == Mask(s)[1..];
      CopiedTag(s[1..], n - 1);
      assert s[..n + 1] == [s[0]] + s[1..][..n];
    }
  }

  lemma CopiedDelimiter(s: string, j: nat)
    requires 2 <= j <= |Mask(s)| && Mask(s)[0] == '$' && Mask(s)[j - 1] == '$'
    requires forall i | 1 <= i < j - 1 :: IsTagPart(Mask(s)[i])
    ensures j <= |s| && s[..j] == Mask(s)[..j]
  {
    hide DelimiterLength, Index;
    assert Mask(s[1..]) == Mask(s)[1..];
    CopiedTag(s[1..], j - 2);
    assert s[..j] == [s[0]] + s[1..][..j - 1];
  }

  /** Masking leaves no delimiter that the scanner knows, for any input at all. */
  lemma {:induction false} MaskIsDelimiterFree(s: string)
    ensures DelimiterFree(Mask(s))
    decreases |s|
  {
    hide DelimiterLength, Index, Advance;
    if s != [] {
      var m := Mask(s);
      MaskIsDelimiterFree(s[Advance(s)..]);
      forall i, j | 0 <= i < j <= |m|
        ensures !IsDelimiter(m[i..j])
      {
        if i > 0 {
          assert m[i..j] == Mask(s[Advance(s)..])[i - 1..j - 1];
        } else if IsDelimiter(m[..j]) {
          CopiedDelimiter(s, j);
          DelimiterLengthIsExact(s, j);
          assert false;
        }
      }
    }
  }

  lemma {:induction false} DelimiterFreeIsUnchanged(s: string)
    requires DelimiterFree(s)
    ensures Mask(s) == s
  {
    hide DelimiterLength, Index;
    if s != [] {
      DelimiterLengthFindsDelimiter(s);
      assert s[0..DelimiterLength(s)] == s[..DelimiterLength(s)];
      forall i, j | 0 <= i < j <= |s[1..]| ensures !IsDelimiter(s[1..][i..j]) { assert s[1..][i..j] == s[i + 1..j + 1]; }
      DelimiterFreeIsUnchanged(s[1..]);
    }
  }

  /** The texts masking leaves alone are exactly the ones without such a delimiter. */
  lemma FixedPointsOfMask(s: string)
    ensures Mask(s) == s <==> DelimiterFree(s)
  {
    MaskIsDelimiterFree(s);
    if DelimiterFree(s) { DelimiterFreeIsUnchanged(s); }
  }

  lemma MaskIsIdempotent(s: string)
    ensures Mask(Mask(s)) == Mask(s)
  {
    MaskIsDelimiterFree(s);
    DelimiterFreeIsUnchanged(Mask(s));
  }

  /** The scan of `s` stops at position `p` on its way, so `p` is not inside a literal. */
  predicate Reaches(s: string, p: nat)
    decreases |s|
  {
    p == 0 || (s != [] && Advance(s) <= p && Reaches(s[Advance(s)..], p - Advance(s)))
  }

  /** What the scan has written when it stops at `p`. */
  function Written(s: string, p: nat): string
    requires Reaches(s, p)
    decreases |s|
  {
    if p == 0 then [] else [Emit(s)] + Written(s[Advance(s)..], p - Advance(s))
  }

  lemma MaskStep(s: string)
    requires s != []
    ensures Mask(s) == [Emit(s)] + Mask(s[Advance(s)..])
  {
    hide Advance, Emit;
  }

  lemma WrittenStep(s: string, p: nat)
    requires Reaches(s, p) && p > 0
    ensures s != [] && Advance(s) <= p && Reaches(s[Advance(s)..], p - Advance(s))
    ensures Written(s, p) == [Emit(s)] + Written(s[Advance(s)..], p - Advance(s))
  {
    hide Advance, Emit;
  }

  lemma WrittenNothing(s: string)
    ensures Reaches(s, 0) && Written(s, 0) == []
  {
  }

  lemma {:induction false} MaskFromReached(s: string, p: nat)
    requires Reaches(s, p)
    ensures p <= |s| && Mask(s) == Written(s, p) + Mask(s[p..])
    decreases |s|
  {
    hide Advance, Emit, Mask, Written, Reaches;
    if p == 0 {
      WrittenNothing(s);
      assert s[0..] == s && [] + Mask(s) == Mask(s);
    } else {
      WrittenStep(s, p);
      MaskStep(s);
      var n := Advance(s);
      MaskFromReached(s[n..], p - n);
      DropTwice(s, n, p - n);
      Associate([Emit(s)], Written(s[n..], p - n), Mask(s[p..]));
    }
  }

  lemma {:induction false} TagLengthIsLocal(pre: string, x: string)
    requires x != [] && !IsTagPart(x[0])
    ensures TagLength(pre + x) == TagLength(pre)
  {
    if pre != [] {
      assert (pre + x)[1..] == pre[1..] + x;
      TagLengthIsLocal(pre[1..], x);
    }
  }

  lemma DelimiterLengthIsLocal(pre: string, x: string, y: string)
    requires pre != [] && x != [] && y != [] && x[0] == y[0] && !IsTagPart(x[0])
    ensures DelimiterLength(pre + x) == DelimiterLength(pre + y)
  {
    assert (pre + x)[1..] == pre[1..] + x && (pre + y)[1..] == pre[1..] + y;
    TagLengthIsLocal(pre[1..], x);
    TagLengthIsLocal(pre[1..], y);
  }

  /** A scan step that ends within `pre` does not depend on what follows, if the delimiter does not. */
  lemma SameStep(pre: string, x: string, y: string)
    requires pre != [] && x != [] && DelimiterLength(pre + x) == DelimiterLength(pre + y) && Advance(pre + x) <= |pre|
    ensures Advance(pre + y) == Advance(pre + x) && Emit(pre + y) == Emit(pre + x)
  {
    hide DelimiterLength, Index;
    var s, t := pre + x, pre + y;
    var k := DelimiterLength(s);
    if k > 0 {
      var d := s[..k];
      assert k <= |pre| && t[..k] == d;
      assert s[k..] == pre[k..] + x && t[k..] == pre[k..] + y;
      IndexIsLocal(pre[k..], x, y, d);
    }
  }

  /** A scan step that ends before a character that cannot be in a tag, a '$' say, does not depend on what
      stands after that character. */
  lemma StepIsLocal(pre: string, x: string, y: string)
    requires pre != [] && x != [] && y != [] && x[0] == y[0] && !IsTagPart(x[0])
    requires Advance(pre + x) <= |pre|
    ensures Advance(pre + y) == Advance(pre + x) && Emit(pre + y) == Emit(pre + x)
  {
    hide DelimiterLength, Advance, Emit;
    DelimiterLengthIsLocal(pre, x, y);
    SameStep(pre, x, y);
  }

  lemma {:induction false} ReachIsLocal(pre: string, x: string, y: string)
    requires x != [] && y != [] && x[0] == y[0] == '$'
    requires Reaches(pre + x, |pre|)
    ensures Reaches(pre + y, |pre|) && Written(pre + y, |pre|) == Written(pre + x, |pre|)
    decreases |pre|
  {
    hide Advance, Emit;
    if pre != [] {
      var n := Advance(pre + x);
      StepIsLocal(pre, x, y);
      assert (pre + x)[n..] == pre[n..] + x && (pre + y)[n..] == pre[n..] + y;
      ReachIsLocal(pre[n..], x, y);
    }
  }

  lemma LiteralIsOneStep(d: string, rest: string)
    requires IsDelimiter(d)
    ensures Emit(d + rest) == '?'
    ensures Advance(d + rest) == var closing := Index(rest, d); if closing < 0 then |d + rest| else |d| + closing + |d|
  {
    hide DelimiterLength, Index;
    var lit := d + rest;
    assert lit[..|d|] == d && lit[|d|..] == rest;
    DelimiterLengthIsExact(lit, |d|);
  }

  /** A literal that starts where the scan stops: everything up to its close becomes one '?'. */
  lemma MaskOfLiteral(pre: string, d: string, body: string, post: string)
    requires IsDelimiter(d)
    requires Reaches(pre + (d + (body + d + post)), |pre|)
    requires Index(body + d + post, d) == |body|
    ensures Mask(pre + (d + (body + d + post))) == Written(pre + (d + (body + d + post)), |pre|) + "?" + Mask(post)
  {
    hide Advance, Emit, Index, IsDelimiter, Written, Reaches;
    var lit := d + (body + d + post);
    MaskFromReached(pre + lit, |pre|);
    assert (pre + lit)[|pre|..] == lit;
    LiteralIsOneStep(d, body + d + post);
    assert lit[Advance(lit)..] == post;
  }

  /** The masked text does not depend on what a dollar-quoted literal holds. Both conditions can be read off
      the text: the scan stops at the opening delimiter, and the body does not itself bring the close forward. */
  lemma MaskHidesTheBody(pre: string, d: string, body: string, other: string, post: string)
    requires IsDelimiter(d)
    requires Reaches(pre + (d + (body + d + post)), |pre|)
    requires Index(body + d + post, d) == |body|
    requires Index(other + d + post, d) == |other|
    ensures Mask(pre + (d + (other + d + post))) == Mask(pre + (d + (body + d + post)))
  {
    ReachIsLocal(pre, d + (body + d + post), d + (other + d + post));
    MaskOfLiteral(pre, d, body, post);
    MaskOfLiteral(pre, d, other, post);
  }

  /** A literal that is never closed is masked to the end of the text. */
  lemma UnclosedLiteralIsMaskedToTheEnd(pre: string, d: string, body: string)
    requires IsDelimiter(d)
    requires Reaches(pre + (d + body), |pre|)
    requires Index(body, d) == -1
    ensures Mask(pre + (d + body)) == Written(pre + (d + body), |pre|) + "?"
  {
    hide Advance, Emit, Index, IsDelimiter, Written, Reaches;
    var lit := d + body;
    MaskFromReached(pre + lit, |pre|);
    assert (pre + lit)[|pre|..] == lit;
    LiteralIsOneStep(d, body);
  }
}
