/** What PostgreSQL itself reads as a dollar-quoted literal, and when maskDollarQuotedStrings agrees with it. */
module PostgresLexis {
  import opened Collections
  import opened DollarMask
  import SqlMask
  import opened Text

  // The lexical rules are those of sections 4.1.1 (identifiers), 4.1.2.1, 4.1.2.2 and 4.1.2.4 (strings) and 4.1.5
  // (comments) of the PostgreSQL manual, with standard_conforming_strings on. A `char` is a byte of the text.

  predicate IsAscii(s: string) { forall i | 0 <= i < |s| :: s[i] < '\U{80}' }

  /** An identifier may start with a letter of any script or an underscore. */
  predicate IsLetter(c: char) { 'A' <= c <= 'Z' || 'a' <= c <= 'z' || c == '_' || c >= '\U{80}' }

  /** What may follow in an identifier, but for the dollar sign, and so in a tag. */
  predicate IsTagChar(c: char) { IsLetter(c) || '0' <= c <= '9' }

  /** A delimiter: `$$`, or between two dollar signs a tag with the form of an identifier without one. */
  predicate IsDollarDelimiter(d: string) {
    && |d| >= 2 && d[0] == '$' && d[|d| - 1] == '$'
    && (|d| > 2 ==> IsLetter(d[1]))
    && forall i | 1 <= i < |d| - 1 :: IsTagChar(d[i])
  }

  // ---- Which delimiters the scanner knows ----------------------------------------------------------

  /** The delimiters the scanner knows are those with an ASCII tag. */
  lemma ScannerKnowsAscii(d: string)
    ensures IsDelimiter(d) <==> IsDollarDelimiter(d) && IsAscii(d)
  {
  }

  lemma ScannerMisses(d: string, rest: string)
    requires IsDollarDelimiter(d) && !IsAscii(d)
    ensures DelimiterLength(d + rest) == 0
  {
    hide DelimiterLength;
    var s := d + rest;
    var k := DelimiterLength(s);
    DelimiterLengthFindsDelimiter(s);
    var i :| 0 <= i < |d| && d[i] >= '\U{80}';
    assert s[i] == d[i] && forall j | 1 <= j <= i :: s[j] == d[j] != '$';
    if k > 0 { InsideDelimiter(s, k); }
  }

  lemma InsideDelimiter(s: string, k: nat)
    requires k <= |s| && IsDelimiter(s[..k])
    ensures k >= 2 && s[k - 1] == '$' && forall j | 1 <= j < k - 1 :: IsTagPart(s[j])
  {
    assert forall j | 0 <= j < k :: s[..k][j] == s[j];
  }

  /** A literal between two delimiters is masked, whatever its body, if and only if the tag is ASCII. */
  lemma MasksExactlyAsciiTags(d: string)
    requires IsDollarDelimiter(d)
    ensures (forall body | Index(body + d, d) == |body| :: Mask(d + (body + d)) == "?") <==> IsAscii(d)
  {
    hide Index, Mask, DelimiterLength;
    ScannerKnowsAscii(d);
    if IsAscii(d) {
      forall body | Index(body + d, d) == |body| ensures Mask(d + (body + d)) == "?" { MaskAlone(d, body); }
    } else {
      var body: string := [];
      OneLiteral(d);
      ScannerMisses(d, body + d);
      MaskKeepsFirst(d + (body + d));
      assert Index(body + d, d) == |body| && Mask(d + (body + d))[0] == '$';
    }
  }

  lemma MaskAlone(d: string, body: string)
    requires IsDelimiter(d) && Index(body + d, d) == |body|
    ensures Mask(d + (body + d)) == "?"
  {
    hide Index, IsDelimiter;
    assert body + d + [] == body + d && [] + (d + (body + d + [])) == d + (body + d);
    MaskOfLiteral([], d, body, []);
  }

  lemma OneLiteral(d: string)
    ensures Index([] + d, d) == 0
  {
    assert [] + d == d && d[0..|d|] == d;
  }

  lemma MaskKeepsFirst(s: string)
    requires s != [] && DelimiterLength(s) == 0
    ensures Mask(s) == [s[0]] + Mask(s[1..])
  {
    hide DelimiterLength, Index;
  }

  /** None of the first `n` positions starts a delimiter that the scanner knows. */
  predicate Silent(s: string, n: nat)
    requires n <= |s|
  {
    forall p | 0 <= p < n :: DelimiterLength(s[p..]) == 0
  }

  lemma FirstOfTake(s: string, n: nat)
    requires 0 < n <= |s|
    ensures s[..n] == [s[0]] + s[1..][..n - 1]
  {
  }

  lemma {:induction false} MaskKeeps(s: string, n: nat)
    requires n <= |s| && Silent(s, n)
    ensures Mask(s) == s[..n] + Mask(s[n..])
  {
    hide DelimiterLength, Mask;
    if n == 0 {
      assert s[..0] == [] && s[0..] == s && [] + Mask(s) == Mask(s);
    } else {
      assert s[0..] == s;
      MaskKeepsFirst(s);
      forall p | 0 <= p < n - 1 ensures DelimiterLength(s[1..][p..]) == 0 { DropTwice(s, 1, p); }
      MaskKeeps(s[1..], n - 1);
      DropTwice(s, 1, n - 1);
      FirstOfTake(s, n);
      Associate([s[0]], s[1..][..n - 1], Mask(s[n..]));
    }
  }

  /** A literal with a tag that starts with a letter beyond ASCII is passed on, body and delimiters. */
  lemma UnseenLiteralIsKept(d: string, body: string)
    requires IsDollarDelimiter(d) && |d| > 2 && d[1] >= '\U{80}'
    requires '$' !in body && body != [] && !IsTagStart(body[0])
    ensures Mask(d + (body + d)) == d + (body + d)
  {
    hide DelimiterLength;
    var s := d + (body + d);
    forall p | 0 <= p < |s| ensures DelimiterLength(s[p..]) == 0 {
      var second := if p + 1 < |s| then s[p + 1] else '\U{80}';
      if s[p] == '$' {
        assert p == 0 || p == |d| - 1 || p == |d| + |body| || p == |s| - 1;
        assert s[1] == d[1] && s[|d|] == body[0] && s[|d| + |body| + 1] == d[1];
      }
      NoDelimiterHere(s[p..]);
    }
    MaskKeeps(s, |s|);
    assert s[..|s|] == s && s[|s|..] == [];
    MaskOfNothing();
  }

  /** For instance `$é$ x$é$`, with the two bytes of the letter in UTF-8. */
  lemma AccentedTagIsKept()
    ensures var d := "$\U{C3}\U{A9}$";
      IsDollarDelimiter(d) && Mask(d + (" x" + d)) == d + (" x" + d)
  {
    UnseenLiteralIsKept("$\U{C3}\U{A9}$", " x");
  }

  lemma NoDelimiterHere(s: string)
    requires s != []
    requires s[0] == '$' && |s| > 1 ==> s[1] != '$' && !IsTagStart(s[1])
    ensures DelimiterLength(s) == 0
  {
  }

  lemma MaskOfNothing()
    ensures Mask([]) == []
  {
  }

  // ---- What masking leaves behind ------------------------------------------------------------------

  predicate HoldsDelimiter(m: string) { exists i, j :: 0 <= i < j <= |m| && IsDollarDelimiter(m[i..j]) }

  /** A delimiter that the scanner does not know starts here, and its last dollar sign starts none that it knows. */
  predicate StartsUnseen(s: string) {
    exists k :: 2 <= k <= |s| && IsDollarDelimiter(s[..k]) && !IsAscii(s[..k]) && DelimiterLength(s[k - 1..]) == 0
  }

  /** The scan comes by such a place. */
  predicate PassesUnseen(s: string)
    decreases |s|
  {
    s != [] && (StartsUnseen(s) || PassesUnseen(s[Advance(s)..]))
  }

  lemma StartOfMask(s: string)
    requires Mask(s) != [] && Mask(s)[0] != '?'
    ensures s != [] && DelimiterLength(s) == 0 && Mask(s) == [s[0]] + Mask(s[1..])
  {
    hide DelimiterLength, Index;
  }

  lemma {:induction false} CopiedRun(s: string, n: nat)
    requires n < |Mask(s)| && Mask(s)[n] == '$' && forall i | 0 <= i < n :: Mask(s)[i] != '?'
    ensures n < |s| && s[..n + 1] == Mask(s)[..n + 1] && DelimiterLength(s[n..]) == 0
  {
    hide DelimiterLength, Mask;
    StartOfMask(s);
    assert s[0..] == s && s[..1] == [s[0]];
    if n > 0 {
      assert forall i | 0 <= i < n :: Mask(s[1..])[i] == Mask(s)[i + 1];
      CopiedRun(s[1..], n - 1);
      DropTwice(s, 1, n - 1);
      assert s[..n + 1] == [s[0]] + s[1..][..n];
    }
  }

  lemma KeptRun(s: string, n: nat)
    requires n < |s| && s[n] == '$' && DelimiterLength(s[n..]) == 0 && forall i | 0 <= i < n :: s[i] != '$'
    ensures n < |Mask(s)| && Mask(s)[..n + 1] == s[..n + 1]
  {
    hide DelimiterLength, Mask;
    forall p | 0 <= p < n ensures DelimiterLength(s[p..]) == 0 { NoDelimiterHere(s[p..]); }
    MaskKeeps(s, n + 1);
  }

  lemma DelimiterChars(s: string, k: nat)
    requires k <= |s| && IsDollarDelimiter(s[..k])
    ensures k >= 2 && s[0] == '$' && s[1..][k - 2] == '$'
    ensures forall i | 0 <= i < k - 2 :: s[1..][i] != '$' && s[1..][i] != '?'
  {
    assert forall i | 0 <= i < k :: s[..k][i] == s[i];
    assert forall i | 0 <= i < k - 1 :: s[1..][i] == s[i + 1];
  }

  /** A delimiter at the start of the mask was one of the text that the scanner does not know. */
  lemma DelimiterAtStart(s: string, k: nat)
    requires k <= |Mask(s)| && IsDollarDelimiter(Mask(s)[..k])
    ensures StartsUnseen(s)
  {
    hide Mask, DelimiterLength, IsDollarDelimiter, IsDelimiter;
    var m := Mask(s);
    DelimiterChars(m, k);
    StartOfMask(s);
    assert m[1..] == Mask(s[1..]);
    CopiedRun(s[1..], k - 2);
    DropTwice(s, 1, k - 2);
    assert s[..k] == [s[0]] + s[1..][..k - 1];
    assert m[..k] == [m[0]] + m[1..][..k - 1];
    MaskIsDelimiterFree(s);
    ScannerKnowsAscii(m[..k]);
    assert m[0..k] == m[..k];
  }

  lemma UnseenStays(s: string)
    requires StartsUnseen(s)
    ensures HoldsDelimiter(Mask(s))
  {
    hide Mask, DelimiterLength, IsDollarDelimiter;
    var k :| 2 <= k <= |s| && IsDollarDelimiter(s[..k]) && !IsAscii(s[..k]) && DelimiterLength(s[k - 1..]) == 0;
    assert s == s[..k] + s[k..];
    ScannerMisses(s[..k], s[k..]);
    MaskKeepsFirst(s);
    DropTwice(s, 1, k - 2);
    DelimiterChars(s, k);
    KeptRun(s[1..], k - 2);
    var m, n := Mask(s), Mask(s[1..]);
    assert m[0..k] == [s[0]] + n[..k - 1];
    assert s[..k] == [s[0]] + s[1..][..k - 1];
  }

  lemma DelimiterInTail(c: char, m: string)
    ensures HoldsDelimiter(m) ==> HoldsDelimiter([c] + m)
    ensures HoldsDelimiter([c] + m) ==>
      HoldsDelimiter(m) || exists k :: 0 <= k <= |[c] + m| && IsDollarDelimiter(([c] + m)[..k])
  {
    hide IsDollarDelimiter;
    if i, j :| 0 <= i < j <= |m| && IsDollarDelimiter(m[i..j]) {
      assert ([c] + m)[i + 1..j + 1] == m[i..j];
    }
    if i, j :| 0 <= i < j <= |[c] + m| && IsDollarDelimiter(([c] + m)[i..j]) {
      if i > 0 {
        assert ([c] + m)[i..j] == m[i - 1..j - 1];
      } else {
        assert ([c] + m)[i..j] == ([c] + m)[..j];
      }
    }
  }

  /** Exactly which texts still hold a delimiter in PostgreSQL's form after masking: those in which the scan comes by
      one with a tag beyond ASCII. */
  lemma {:induction false} WhatMaskingLeaves(s: string)
    ensures HoldsDelimiter(Mask(s)) <==> PassesUnseen(s)
    decreases |s|
  {
    hide DelimiterLength, Index, StartsUnseen, HoldsDelimiter, Advance, IsDollarDelimiter;
    if s == [] {
      NothingHoldsNothing();
    } else {
      var tail := s[Advance(s)..];
      WhatMaskingLeaves(tail);
      DelimiterInTail(Emit(s), Mask(tail));
      assert Mask(s) == [Emit(s)] + Mask(tail);
      if StartsUnseen(s) { UnseenStays(s); }
      if k :| 0 <= k <= |Mask(s)| && IsDollarDelimiter(Mask(s)[..k]) { DelimiterAtStart(s, k); }
    }
  }

  lemma NothingHoldsNothing()
    ensures !HoldsDelimiter([])
  {
  }

  /** Masking an ASCII text leaves no delimiter in PostgreSQL's form. */
  lemma {:induction false} AsciiIsMasked(s: string)
    requires IsAscii(s)
    ensures !PassesUnseen(s) && !HoldsDelimiter(Mask(s))
    decreases |s|
  {
    hide HoldsDelimiter, Advance, DelimiterLength;
    WhatMaskingLeaves(s);
    if s != [] {
      assert forall k | 0 <= k <= |s| :: IsAscii(s[..k]);
      assert forall i | 0 <= i < |s[Advance(s)..]| :: s[Advance(s)..][i] == s[Advance(s) + i];
      AsciiIsMasked(s[Advance(s)..]);
    }
  }

  // ---- Where PostgreSQL sees a literal -------------------------------------------------------------

  /** The length of the delimiter that `s` starts with, or 0. */
  function DollarLength(s: string): (k: nat)
    ensures k <= |s|
  {
    if |s| < 2 || s[0] != '$' then 0
    else if s[1] == '$' then 2
    else if !IsLetter(s[1]) then 0
    else
      var n := 1 + SqlMask.Run(s[1..], IsTagChar);
      if n < |s| && s[n] == '$' then n + 1 else 0
  }

  lemma DollarLengthIsExact(s: string, k: nat)
    requires 0 < k <= |s|
    ensures DollarLength(s) == k <==> IsDollarDelimiter(s[..k])
  {
    if |s| >= 2 {
      var run := SqlMask.Run(s[1..], IsTagChar);
      SqlMask.RunHolds(s[1..], IsTagChar);
      RunEnds(s[1..], IsTagChar);
      assert forall i | 1 <= i < |s| :: s[i] == s[1..][i - 1];
      assert forall i | 0 <= i < k :: s[..k][i] == s[i];
    }
  }

  lemma {:induction false} RunEnds(s: string, f: char -> bool)
    ensures SqlMask.Run(s, f) < |s| ==> !f(s[SqlMask.Run(s, f)])
  {
    if s != [] && f(s[0]) { RunEnds(s[1..], f); }
  }

  /** PostgreSQL and the scanner see the same delimiter here, unless its tag goes beyond ASCII. */
  lemma SameDelimiter(s: string)
    ensures DollarLength(s) == 0 || IsAscii(s[..DollarLength(s)]) ==> DelimiterLength(s) == DollarLength(s)
  {
    hide DollarLength, DelimiterLength;
    var k, n := DelimiterLength(s), DollarLength(s);
    if k > 0 {
      DelimiterLengthFindsDelimiter(s);
      ScannerKnowsAscii(s[..k]);
      DollarLengthIsExact(s, k);
    }
    if n > 0 {
      DollarLengthIsExact(s, n);
      ScannerKnowsAscii(s[..n]);
      DelimiterLengthIsExact(s, n);
    }
  }

  predicate IsIdentifierChar(c: char) { IsTagChar(c) || c == '$' }

  /** One lexical element: a dollar-quoted literal, or anything else. */
  datatype Lexeme = Literal(length: nat) | Other(length: nat)

  /** What a comment that starts with two dashes may hold. */
  predicate InLine(c: char) { c != '\n' && c != '\r' }

  /** The lexical element at the head of `s`. */
  function NextLexeme(s: string): (t: Lexeme)
    requires s != []
    ensures 0 < t.length <= |s|
  {
    var c, second := s[0], if |s| > 1 then s[1] else ' ';
    if c == '-' && second == '-' then Other(2 + SqlMask.Run(s[2..], InLine))
    else if c == '/' && second == '*' then Other(2 + SqlMask.BlockEnd(s[2..], 1))
    else if (c == 'E' || c == 'e') && second == '\'' then Other(2 + SqlMask.QuoteEnd(s[2..], '\'', true).length)
    else if c == '\'' || c == '"' then Other(1 + SqlMask.QuoteEnd(s[1..], c, false).length)
    else if IsLetter(c) then Other(1 + SqlMask.Run(s[1..], IsIdentifierChar))
    else if DollarLength(s) > 0 then
      var k := DollarLength(s);
      var closing := Index(s[k..], s[..k]);
      Literal(if closing < 0 then |s| else k + closing + k)
    else Other(1)
  }

  /** What masking is for: every dollar-quoted literal becomes one '?', everything else stays. */
  function LiteralsMasked(s: string): string
    decreases |s|
  {
    if s == [] then [] else
      var t := NextLexeme(s);
      (if t.Literal? then "?" else s[..t.length]) + LiteralsMasked(s[t.length..])
  }

  /** Every dollar-quoted literal has an ASCII tag, and no quoted string, quoted identifier, identifier or comment
      holds what the scanner takes for a delimiter. */
  predicate DollarsQuoteOnly(s: string)
    decreases |s|
  {
    s == [] ||
      (var t := NextLexeme(s);
       && (if t.Literal? then IsAscii(s[..DollarLength(s)]) else Silent(s, t.length))
       && DollarsQuoteOnly(s[t.length..]))
  }

  lemma LiteralStep(s: string)
    requires s != [] && NextLexeme(s).Literal?
    ensures Mask(s) != []
    ensures if IsAscii(s[..DollarLength(s)]) then Mask(s) == "?" + Mask(s[NextLexeme(s).length..])
            else Mask(s)[0] == '$'
  {
    hide DollarLength, DelimiterLength, Index, Mask;
    var k := DollarLength(s);
    MaskStep(s);
    if IsAscii(s[..k]) {
      SameDelimiter(s);
    } else {
      DollarLengthIsExact(s, k);
      ScannerMisses(s[..k], s[k..]);
      assert s[..k] + s[k..] == s && s[..k][0] == s[0];
      MaskKeepsFirst(s);
    }
  }

  /** Where a text is copied, the first delimiter that the scanner knows shows in the mask. */
  lemma {:induction false} FirstDelimiterShows(s: string, n: nat)
    requires n <= |s| && !Silent(s, n)
    ensures exists p :: 0 <= p < n && p < |Mask(s)| && s[p] == '$' && Mask(s)[p] == '?'
  {
    hide DelimiterLength, Mask;
    assert s[0..] == s;
    if DelimiterLength(s) > 0 {
      DelimiterStarts(s);
    } else {
      MaskKeepsFirst(s);
      var p :| 0 <= p < n && DelimiterLength(s[p..]) > 0;
      DropTwice(s, 1, p - 1);
      assert !Silent(s[1..], n - 1);
      FirstDelimiterShows(s[1..], n - 1);
      var q :| 0 <= q < n - 1 && q < |Mask(s[1..])| && s[1..][q] == '$' && Mask(s[1..])[q] == '?';
      assert s[q + 1] == '$' && Mask(s)[q + 1] == '?';
    }
  }

  lemma DelimiterStarts(s: string)
    requires DelimiterLength(s) > 0
    ensures Mask(s) != [] && s[0] == '$' && Mask(s)[0] == '?'
  {
    hide Index;
  }

  lemma SameAfterSame(a: string, x: string, y: string)
    ensures a + x == a + y <==> x == y
  {
    assert (a + x)[|a|..] == x && (a + y)[|a|..] == y;
  }

  /** When the scanner does what it is for, exactly: it masks PostgreSQL's dollar-quoted literals and nothing else if
      and only if all of them have ASCII tags and nothing else in the text holds what looks like a delimiter. */
  lemma {:induction false} ScannerMasksTheLiterals(s: string)
    ensures Mask(s) == LiteralsMasked(s) <==> DollarsQuoteOnly(s)
    decreases |s|
  {
    hide NextLexeme, Mask, LiteralsMasked, Silent, IsAscii;
    if s == [] {
      MaskOfNothing();
      NothingMasked();
    } else {
      var t := NextLexeme(s);
      var rest := s[t.length..];
      ScannerMasksTheLiterals(rest);
      LexStep(s);
      if t.Literal? {
        LiteralStep(s);
        SameAfterSame("?", Mask(rest), LiteralsMasked(rest));
      } else if Silent(s, t.length) {
        MaskKeeps(s, t.length);
        SameAfterSame(s[..t.length], Mask(rest), LiteralsMasked(rest));
      } else {
        FirstDelimiterShows(s, t.length);
        var p :| 0 <= p < t.length && p < |Mask(s)| && s[p] == '$' && Mask(s)[p] == '?';
        assert LiteralsMasked(s)[p] == s[p];
      }
    }
  }

  /** Where it does not: `$$` inside a quoted string is taken for an opener and shifts the pairing, so that the body
      of the next literal stands in the mask. */
  function QuotedDollars(body: string): string {
    "'" + ("$$" + ("', " + "$$" + (body + "$$")))
  }

  lemma QuotedDollarsShowTheBody(body: string)
    requires '$' !in body
    ensures Mask(QuotedDollars(body)) == "'?" + body + "?"
  {
    hide Mask, Index, DelimiterLength, Advance, Emit, Reaches, Written;
    var rest := body + "$$";
    AfterQuote("$$" + ("', " + "$$" + rest));
    IndexOfPair("', ", rest);
    MaskOfLiteral("'", "$$", "', ", rest);
    assert rest[..|body|] == body && rest[|body|..] == "$$";
    forall p | 0 <= p < |body| ensures DelimiterLength(rest[p..]) == 0 { NoDelimiterHere(rest[p..]); }
    MaskKeeps(rest, |body|);
    LonePair();
  }

  lemma AfterQuote(rest: string)
    ensures Reaches("'" + rest, 1) && Written("'" + rest, 1) == "'"
  {
    hide DelimiterLength, Index;
    var s := "'" + rest;
    NoDelimiterHere(s);
    assert s[1..] == rest;
  }

  lemma IndexOfPair(a: string, rest: string)
    requires '$' !in a
    ensures Index(a + "$$" + rest, "$$") == |a|
  {
    hide Index;
    var s := a + "$$" + rest;
    IndexIsFirst(s, "$$");
    assert OccursAt(s, "$$", |a|);
    forall p | 0 <= p < |a| ensures !OccursAt(s, "$$", p) {
      assert s[p] == a[p] != '$';
      if p + 2 <= |s| { assert s[p..p + 2][0] == s[p]; }
    }
  }

  lemma LonePair()
    ensures Mask("$$") == "?"
  {
    hide Index, Advance, Emit, Mask;
    assert "$$" + "" == "$$" && "" + "$$" == "$$";
    NotInNothing();
    ReachStart("$$");
    UnclosedLiteralIsMaskedToTheEnd("", "$$", "");
  }

  lemma NotInNothing()
    ensures Index("", "$$") == -1
  {
  }

  lemma ReachStart(s: string)
    ensures Reaches(s, 0) && Written(s, 0) == ""
  {
  }

  lemma LexStep(s: string)
    requires s != []
    ensures var t := NextLexeme(s);
      LiteralsMasked(s) == (if t.Literal? then "?" else s[..t.length]) + LiteralsMasked(s[t.length..])
  {
    hide NextLexeme;
  }

  lemma QuoteIsKept(rest: string)
    requires rest != [] && rest[0] != '\''
    ensures LiteralsMasked("'$$'" + rest) == "'$$'" + LiteralsMasked(rest)
  {
    hide DollarLength, LiteralsMasked;
    var s, tail := "'$$'" + rest, "$$'";
    ClosedAtItsEnd();
    SqlMask.ClosedRunStaysClosed(tail, rest, '\'', false);
    assert s[1..] == tail + rest;
    LexStep(s);
    assert s[..4] == "'$$'" && s[4..] == rest;
  }

  lemma ClosedAtItsEnd()
    ensures SqlMask.QuoteEnd("$$'", '\'', false) == SqlMask.Quoted(3, true)
  {
    var s := "$$'";
    assert s[1..] == "$'" && s[1..][1..] == "'";
  }

  lemma CommaIsKept(rest: string)
    ensures LiteralsMasked(", " + rest) == ", " + LiteralsMasked(rest)
  {
    hide LiteralsMasked;
    var s, spaced := ", " + rest, " " + rest;
    LexStep(s);
    LexStep(spaced);
    assert s[1..] == spaced && spaced[1..] == rest;
    Associate(",", " ", LiteralsMasked(rest));
  }

  lemma BodyIsMasked(body: string)
    requires '$' !in body
    ensures LiteralsMasked("$$" + (body + "$$")) == "?"
  {
    hide Index, LiteralsMasked;
    var s, rest := "$$" + (body + "$$"), body + "$$";
    assert s[2..] == rest && s[..2] == "$$" && rest + "" == rest;
    IndexOfPair(body, "");
    LexStep(s);
    assert s[|s|..] == "";
    NothingMasked();
  }

  lemma NothingMasked()
    ensures LiteralsMasked("") == ""
  {
  }

  /** PostgreSQL's literals masked in the same text, for comparison. */
  lemma QuotedDollarsMasked(body: string)
    requires '$' !in body
    ensures LiteralsMasked(QuotedDollars(body)) == "'$$', ?"
  {
    hide LiteralsMasked;
    var tail := "$$" + (body + "$$");
    assert QuotedDollars(body) == "'$$'" + (", " + tail);
    QuoteIsKept(", " + tail);
    CommaIsKept(tail);
    BodyIsMasked(body);
  }
}
