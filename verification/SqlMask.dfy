/** sql_mask: the single-pass SQL literal masker of the Python agent. */
module SqlMask {
  import opened Collections
  import DollarMask
  import opened Options
  import opened Text

  /** str.isdigit, str.isalnum and str.isspace on one character, as Python's Unicode tables define them. */
  datatype Unicode = Unicode(digit: char -> bool, alnum: char -> bool, space: char -> bool)

  const MAX_STATEMENT := 32768
  const OMITTED := "[statement omitted]"

  /** One token at the head of the text: its length and what it is masked to. */
  datatype Token = Token(length: nat, text: string)

  /** A quoted run after its opening quote: its length and whether its closing quote was found. */
  datatype Quoted = Quoted(length: nat, closed: bool)

  // ---- The tokens ----------------------------------------------------------------------------------

  /** A block comment after its opening, nested `depth` deep. */
  function BlockEnd(s: string, depth: nat): (n: nat)
    ensures n <= |s| && (s != [] && depth > 0 ==> n > 0)
    decreases |s|
  {
    if s == [] || depth == 0 then 0
    else if s[0] == '/' && |s| > 1 && s[1] == '*' then 2 + BlockEnd(s[2..], depth + 1)
    else if s[0] == '*' && |s| > 1 && s[1] == '/' then 2 + BlockEnd(s[2..], depth - 1)
    else 1 + BlockEnd(s[1..], depth)
  }

  /** A quoted run after its opening quote. A doubled quote stays inside; a backslash takes the next
      character with it where `escapes` says so, even past the end of the text. */
  function QuoteEnd(s: string, quote: char, escapes: bool): (q: Quoted)
    ensures q.length <= |s| && (s != [] ==> q.length > 0)
    decreases |s|
  {
    if s == [] then Quoted(0, false)
    else if escapes && s[0] == '\\' then
      if |s| == 1 then Quoted(1, false)
      else var rest := QuoteEnd(s[2..], quote, escapes); rest.(length := 2 + rest.length)
    else if s[0] == quote then
      if |s| > 1 && s[1] == quote then
        var rest := QuoteEnd(s[2..], quote, escapes); rest.(length := 2 + rest.length)
      else Quoted(1, true)
    else var rest := QuoteEnd(s[1..], quote, escapes); rest.(length := 1 + rest.length)
  }

  /** How many characters of class `f` the text starts with: the greedy `[...]*` of a regular expression. */
  function Run(s: string, f: char -> bool): (n: nat)
    ensures n <= |s|
  {
    if s == [] || !f(s[0]) then 0 else 1 + Run(s[1..], f)
  }

  predicate Decimal(c: char) { '0' <= c <= '9' }
  predicate Hex(c: char) { '0' <= c <= '9' || 'a' <= c <= 'f' || 'A' <= c <= 'F' }
  predicate Binary(c: char) { c == '0' || c == '1' }

  /** The exponent after a mantissa, or 0: `(?:[eE][+-]?[0-9]+)?`. */
  function ExponentLength(s: string): (n: nat)
    ensures n <= |s|
  {
    if s == [] || !(s[0] == 'e' || s[0] == 'E') then 0
    else
      var sign := if |s| > 1 && (s[1] == '+' || s[1] == '-') then 2 else 1;
      var digits := Run(s[sign..], Decimal);
      if digits > 0 then sign + digits else 0
  }

  /** `[0-9]+(?:\.[0-9]*)?|\.[0-9]+`, or 0. */
  function MantissaLength(s: string): (n: nat)
    ensures n <= |s|
  {
    var whole := Run(s, Decimal);
    if whole > 0 then
      if whole < |s| && s[whole] == '.' then whole + 1 + Run(s[whole + 1..], Decimal) else whole
    else if s != [] && s[0] == '.' && Run(s[1..], Decimal) > 0 then 1 + Run(s[1..], Decimal)
    else 0
  }

  /** The number pattern: hexadecimal, then binary, then decimal, the first alternative that matches. */
  function NumberLength(s: string): (n: nat)
    ensures n <= |s|
  {
    if |s| > 1 && s[0] == '0' && (s[1] == 'x' || s[1] == 'X') && Run(s[2..], Hex) > 0 then 2 + Run(s[2..], Hex)
    else if |s| > 1 && s[0] == '0' && (s[1] == 'b' || s[1] == 'B') && Run(s[2..], Binary) > 0 then 2 + Run(s[2..], Binary)
    else var mantissa := MantissaLength(s);
         if mantissa == 0 then 0 else mantissa + ExponentLength(s[mantissa..])
  }

  /** A `%s` or `%(name)s` parameter, or 0. */
  function PercentLength(s: string): (n: nat)
    ensures n <= |s|
  {
    if |s| < 2 || s[0] != '%' then 0
    else if s[1] == 's' then 2
    else if s[1] == '(' && |s| > 2 && DollarMask.IsTagStart(s[2]) then
      var close := 2 + DollarMask.TagLength(s[2..]);
      if close + 1 < |s| && s[close] == ')' && s[close + 1] == 's' then close + 2 else 0
    else 0
  }

  /** A `$1` parameter, or 0. */
  function ParameterLength(s: string): (n: nat)
    ensures n <= |s|
  {
    if s != [] && s[0] == '$' && Run(s[1..], Decimal) > 0 then 1 + Run(s[1..], Decimal) else 0
  }

  /** A number starts here, judging by this character, the next and the one before. */
  predicate StartsNumber(u: Unicode, prev: Option<char>, s: string)
    requires s != []
  {
    && (u.digit(s[0]) || (s[0] == '.' && |s| > 1 && u.digit(s[1])))
    && (prev.None? || !(u.alnum(prev.value) || prev.value in "_$:"))
  }

  /** The token at the head of `s`; `prev` is the character before it. */
  function NextToken(u: Unicode, prev: Option<char>, s: string): (t: Token)
    requires s != []
    ensures 0 < t.length <= |s|
  {
    var c := s[0];
    if c == '#' || (c == '-' && |s| > 1 && s[1] == '-') then
      var end := Index(s[1..], "\n");
      Token(if end < 0 then |s| else 1 + end, " ")
    else if c == '/' && |s| > 1 && s[1] == '*' then Token(2 + BlockEnd(s[2..], 1), " ")
    else if c == '\'' then Token(1 + QuoteEnd(s[1..], c, true).length, "?")
    else if c == '"' || c == '`' then
      var q := QuoteEnd(s[1..], c, c == '"');
      Token(1 + q.length, if q.closed && c == '`' then s[..1 + q.length] else "?")
    else if DollarMask.DelimiterLength(s) > 0 then Token(DollarMask.Advance(s), "?")
    else if ParameterLength(s) > 0 then Token(ParameterLength(s), s[..ParameterLength(s)])
    else if PercentLength(s) > 0 then Token(PercentLength(s), s[..PercentLength(s)])
    else if StartsNumber(u, prev, s) then
      if NumberLength(s) > 0 then Token(NumberLength(s), "?") else Token(1, "")
    else Token(1, [c])
  }

  /** The character before position `p`. */
  function Before(prev: Option<char>, s: string, p: nat): Option<char>
    requires p <= |s|
  {
    if p == 0 then prev else Some(s[p - 1])
  }

  /** The masked text before its white space is collapsed: token after token. */
  function Scan(u: Unicode, prev: Option<char>, s: string): string
    decreases |s|
  {
    if s == [] then []
    else
      var t := NextToken(u, prev, s);
      t.text + Scan(u, Some(s[t.length - 1]), s[t.length..])
  }

  lemma ScanStep(u: Unicode, prev: Option<char>, s: string)
    requires s != []
    ensures var t := NextToken(u, prev, s);
            Scan(u, prev, s) == t.text + Scan(u, Some(s[t.length - 1]), s[t.length..])
  {
    hide NextToken;
  }

  // ---- White space ---------------------------------------------------------------------------------

  /** re.sub(r"\s+", " ", s): every run of white space becomes one space. */
  function Collapse(u: Unicode, s: string): string
    decreases |s|
  {
    if s == [] then []
    else if u.space(s[0]) then " " + Collapse(u, s[Run(s, u.space)..])
    else [s[0]] + Collapse(u, s[1..])
  }

  /** str.strip. */
  function Strip(u: Unicode, s: string): string
    decreases |s|
  {
    if s == [] then []
    else if u.space(s[0]) then Strip(u, s[1..])
    else if u.space(s[|s| - 1]) then Strip(u, s[..|s| - 1])
    else s
  }

  /** sql_mask as a whole. */
  function Masked(u: Unicode, statement: string): string {
    if |statement| > MAX_STATEMENT then OMITTED else Strip(u, Collapse(u, Scan(u, None, statement)))
  }

  // ---- The scanner as written ----------------------------------------------------------------------

  lemma NextOfSlice(s: string, index: nat)
    requires index < |s|
    ensures s[index..] == [s[index]] + s[index + 1..] && s[index..][1..] == s[index + 1..]
  {
  }

  lemma BlockStep(s: string, index: nat, depth: nat)
    requires index < |s| && depth > 0
    ensures index + BlockEnd(s[index..], depth) ==
      if s[index] == '/' && index + 1 < |s| && s[index + 1] == '*' then index + 2 + BlockEnd(s[index + 2..], depth + 1)
      else if s[index] == '*' && index + 1 < |s| && s[index + 1] == '/' then index + 2 + BlockEnd(s[index + 2..], depth - 1)
      else index + 1 + BlockEnd(s[index + 1..], depth)
  {
    NextOfSlice(s, index);
    assert index + 1 < |s| ==> s[index..][2..] == s[index + 2..];
  }

  /** How a quoted run starts: with one character, or with an escaped or doubled pair. */
  lemma QuoteHead(s: string, quote: char, escapes: bool)
    requires s != []
    ensures var q := QuoteEnd(s, quote, escapes);
      if escapes && s[0] == '\\' then
        if |s| == 1 then q == Quoted(1, false)
        else var r := QuoteEnd(s[2..], quote, escapes); q == Quoted(2 + r.length, r.closed)
      else if s[0] == quote then
        if |s| > 1 && s[1] == quote then var r := QuoteEnd(s[2..], quote, escapes); q == Quoted(2 + r.length, r.closed)
        else q == Quoted(1, true)
      else var r := QuoteEnd(s[1..], quote, escapes); q == Quoted(1 + r.length, r.closed)
  {
  }

  /** The same inside a text. */
  lemma QuoteStep(s: string, index: nat, quote: char, escapes: bool)
    requires index < |s|
    ensures var q := QuoteEnd(s[index..], quote, escapes);
      if escapes && s[index] == '\\' then
        if index + 1 == |s| then q == Quoted(1, false)
        else var r := QuoteEnd(s[index + 2..], quote, escapes); q == Quoted(2 + r.length, r.closed)
      else if s[index] == quote then
        if index + 1 < |s| && s[index + 1] == quote then
          var r := QuoteEnd(s[index + 2..], quote, escapes); q == Quoted(2 + r.length, r.closed)
        else q == Quoted(1, true)
      else var r := QuoteEnd(s[index + 1..], quote, escapes); q == Quoted(1 + r.length, r.closed)
  {
    hide QuoteEnd;
    QuoteHead(s[index..], quote, escapes);
    DropTwice(s, index, 1);
    if index + 2 <= |s| { DropTwice(s, index, 2); }
  }

  method BlockCommentEnd(statement: string, start: nat) returns (index: nat)
    requires start <= |statement|
    ensures index == start + BlockEnd(statement[start..], 1)
  {
    hide BlockEnd;
    index := start;
    var depth := 1;
    ghost var end := start + BlockEnd(statement[start..], 1);
    while index < |statement| && depth > 0
      invariant start <= index <= |statement|
      invariant 0 <= depth
      invariant index + BlockEnd(statement[index..], depth) == end
    {
      BlockStep(statement, index, depth);
      if index + 1 < |statement| && statement[index] == '/' && statement[index + 1] == '*' {
        depth, index := depth + 1, index + 2;
      } else if index + 1 < |statement| && statement[index] == '*' && statement[index + 1] == '/' {
        depth, index := depth - 1, index + 2;
      } else {
        index := index + 1;
      }
    }
    BlockDone(statement[index..], depth);
  }

  lemma BlockDone(s: string, depth: nat)
    requires s == [] || depth == 0
    ensures BlockEnd(s, depth) == 0
  {
  }

  /** The loop over a quoted run. `index` may end one past the text: a backslash can be its last character. */
  method QuotedEnd(statement: string, start: nat, quote: char, escapes: bool) returns (index: nat, closed: bool)
    requires start <= |statement|
    ensures start <= index <= |statement| + 1
    ensures Quoted((if index > |statement| then |statement| else index) - start, closed)
      == QuoteEnd(statement[start..], quote, escapes)
  {
    hide QuoteEnd;
    index, closed := start, false;
    ghost var whole := QuoteEnd(statement[start..], quote, escapes);
    while index < |statement|
      invariant start <= index <= |statement| + 1 && !closed
      invariant index <= |statement| ==>
        var q := QuoteEnd(statement[index..], quote, escapes); whole == Quoted(index - start + q.length, q.closed)
      invariant index > |statement| ==> whole == Quoted(|statement| - start, false)
    {
      QuoteStep(statement, index, quote, escapes);
      if escapes && statement[index] == '\\' {
        index := index + 2;
      } else if statement[index] == quote {
        index := index + 1;
        if index < |statement| && statement[index] == quote {
          index := index + 1;
        } else {
          closed := true;
          break;
        }
      } else {
        index := index + 1;
      }
    }
    if index == |statement| && !closed { EmptyRunIsOpen(statement[index..], quote, escapes); }
  }

  lemma EmptyRunIsOpen(s: string, quote: char, escapes: bool)
    requires s == []
    ensures QuoteEnd(s, quote, escapes) == Quoted(0, false)
  {
  }

  lemma TokenDone(u: Unicode, s: string, prev: Option<char>, start: nat, output: string, index: nat, longer: string)
    requires start < |s|
    requires var t := NextToken(u, prev, s[start..]); index == start + t.length && longer == output + t.text
    ensures longer + Scan(u, Some(s[index - 1]), s[index..]) == output + Scan(u, prev, s[start..])
  {
    hide NextToken;
    var rest := s[start..];
    var t := NextToken(u, prev, rest);
    assert rest[t.length..] == s[index..] && rest[t.length - 1] == s[index - 1];
  }

  /** The body of the main loop: read one token at `start`; `text` is what it appends to the output. */
  method ReadToken(u: Unicode, statement: string, start: nat) returns (index: nat, text: string)
    requires start < |statement|
    ensures start < index <= |statement|
    ensures Token(index - start, text) == NextToken(u, Before(None, statement, start), statement[start..])
  {
    hide Index, BlockEnd, QuoteEnd, Run, NumberLength, PercentLength, ParameterLength, StartsNumber;
    hide DollarMask.DelimiterLength, DollarMask.Advance;
    var rest, c := statement[start..], statement[start];
    NextOfSlice(statement, start);
    if c == '#' || (start + 1 < |statement| && c == '-' && statement[start + 1] == '-') {
      var end := Index(rest[1..], "\n");
      index, text := if end < 0 then |statement| else start + 1 + end, " ";
    } else if start + 1 < |statement| && c == '/' && statement[start + 1] == '*' {
      DropTwice(statement, start, 2);
      index := BlockCommentEnd(statement, start + 2);
      text := " ";
    } else if c == '\'' {
      var closed;
      index, closed := QuotedEnd(statement, start + 1, c, true);
      index, text := if index > |statement| then |statement| else index, "?";
    } else if c == '"' || c == '`' {
      var closed;
      index, closed := QuotedEnd(statement, start + 1, c, c == '"');
      index := if index > |statement| then |statement| else index;
      text := if closed && c == '`' then statement[start..index] else "?";
      TakeOfDrop(statement, start, index);
    } else if DollarMask.DelimiterLength(rest) > 0 {
      index, text := start + DollarMask.Advance(rest), "?";
    } else if ParameterLength(rest) > 0 {
      index, text := start + ParameterLength(rest), rest[..ParameterLength(rest)];
    } else if PercentLength(rest) > 0 {
      index, text := start + PercentLength(rest), rest[..PercentLength(rest)];
    } else if StartsNumber(u, Before(None, statement, start), rest) {
      if NumberLength(rest) > 0 {
        index, text := start + NumberLength(rest), "?";
      } else {
        index, text := start + 1, "";
      }
    } else {
      index, text := start + 1, [c];
    }
  }

  method SqlMask(u: Unicode, statement: string) returns (masked: string)
    ensures masked == Masked(u, statement)
  {
    hide NextToken, Collapse, Strip;
    if |statement| > MAX_STATEMENT {
      return OMITTED;
    }
    var output, index := "", 0;
    assert statement[0..] == statement;
    while index < |statement|
      invariant index <= |statement|
      invariant output + Scan(u, Before(None, statement, index), statement[index..]) == Scan(u, None, statement)
    {
      ghost var start, written := index, output;
      var text;
      index, text := ReadToken(u, statement, index);
      output := output + text;
      TokenDone(u, statement, Before(None, statement, start), start, written, index, output);
    }
    assert statement[index..] == [] && output + [] == output;
    masked := Strip(u, Collapse(u, output));
  }

  // ---- What the mask hides -------------------------------------------------------------------------

  /** The two quotes whose literals are always masked to '?'. */
  predicate IsMaskedQuote(c: char) { c == '\'' || c == '"' }

  /** `x` and `y` are what may stand at a place where the scan stops: texts that open with the same quote. */
  predicate SameQuote(x: string, y: string) {
    x != [] && y != [] && x[0] == y[0] && IsMaskedQuote(x[0])
  }

  lemma {:induction false} BlockEndIsLocal(p: string, x: string, y: string, depth: nat)
    requires x != [] && y != [] && x[0] !in "*/" && y[0] !in "*/" && BlockEnd(p + x, depth) <= |p|
    ensures BlockEnd(p + y, depth) == BlockEnd(p + x, depth)
    decreases |p|
  {
    if depth > 0 && p != [] {
      assert (p + x)[1..] == p[1..] + x && (p + y)[1..] == p[1..] + y;
      if |p| > 1 {
        assert (p + x)[2..] == p[2..] + x && (p + y)[2..] == p[2..] + y;
        if p[0] == '/' && p[1] == '*' { BlockEndIsLocal(p[2..], x, y, depth + 1); }
        else if p[0] == '*' && p[1] == '/' { BlockEndIsLocal(p[2..], x, y, depth - 1); }
        else { BlockEndIsLocal(p[1..], x, y, depth); }
      }
    }
  }

  lemma {:induction false} QuoteEndIsLocal(p: string, x: string, y: string, quote: char, escapes: bool)
    requires x != [] && y != [] && (x[0] == quote <==> y[0] == quote)
    requires QuoteEnd(p + x, quote, escapes).length <= |p|
    ensures QuoteEnd(p + y, quote, escapes) == QuoteEnd(p + x, quote, escapes)
    decreases |p|
  {
    hide QuoteEnd;
    var s, t := p + x, p + y;
    QuoteHead(s, quote, escapes);
    QuoteHead(t, quote, escapes);
    if p != [] {
      DropFromSum(p, x, 1);
      DropFromSum(p, y, 1);
      assert s[0] == t[0] == p[0];
      if |p| > 1 {
        DropFromSum(p, x, 2);
        DropFromSum(p, y, 2);
        assert s[1] == t[1] == p[1];
        if (escapes && p[0] == '\\') || (p[0] == quote && p[1] == quote) {
          QuoteEndIsLocal(p[2..], x, y, quote, escapes);
        } else if p[0] != quote {
          QuoteEndIsLocal(p[1..], x, y, quote, escapes);
        }
      } else {
        assert s[1] == x[0] && t[1] == y[0];
      }
    }
  }

  /** A run goes on into what follows only if it takes all of `p`. */
  lemma {:induction false} RunOfSum(p: string, x: string, f: char -> bool)
    ensures Run(p + x, f) == if Run(p, f) < |p| then Run(p, f) else |p| + Run(x, f)
  {
    if p == [] {
      assert p + x == x;
    } else {
      assert (p + x)[1..] == p[1..] + x;
      RunOfSum(p[1..], x, f);
    }
  }

  lemma {:induction false} TagLengthIsRun(s: string)
    ensures DollarMask.TagLength(s) == Run(s, DollarMask.IsTagPart)
  {
    if s != [] && DollarMask.IsTagPart(s[0]) { TagLengthIsRun(s[1..]); }
  }

  // What ends within `p` is the same without what follows.

  lemma ExponentOfSum(p: string, x: string)
    ensures ExponentLength(p + x) <= |p| ==> ExponentLength(p + x) == ExponentLength(p)
  {
    hide Run;
    if |p| > 1 {
      var sign := if p[1] == '+' || p[1] == '-' then 2 else 1;
      DropFromSum(p, x, sign);
      RunOfSum(p[sign..], x, Decimal);
      assert (p + x)[0] == p[0] && (p + x)[1] == p[1];
    } else if |p| == 1 {
      NothingRuns(Decimal);
    }
  }

  lemma NothingRuns(f: char -> bool)
    ensures Run([], f) == 0
  {
  }

  lemma MantissaOfSum(p: string, x: string)
    ensures MantissaLength(p + x) <= |p| ==> MantissaLength(p + x) == MantissaLength(p)
  {
    hide Run;
    var whole := Run(p, Decimal);
    NothingRuns(Decimal);
    RunOfSum(p, x, Decimal);
    if whole < |p| {
      assert (p + x)[whole] == p[whole];
      DropFromSum(p, x, whole + 1);
      RunOfSum(p[whole + 1..], x, Decimal);
    }
  }

  lemma NumberOfSum(p: string, x: string)
    ensures NumberLength(p + x) <= |p| ==> NumberLength(p + x) == NumberLength(p)
  {
    hide MantissaLength, ExponentLength, Run;
    NothingRuns(Hex);
    NothingRuns(Binary);
    if |p| > 1 {
      DropFromSum(p, x, 2);
      assert (p + x)[0] == p[0] && (p + x)[1] == p[1];
      RunOfSum(p[2..], x, Hex);
      RunOfSum(p[2..], x, Binary);
    }
    MantissaOfSum(p, x);
    var m := MantissaLength(p);
    DropFromSum(p, x, m);
    ExponentOfSum(p[m..], x);
  }

  lemma ParameterOfSum(p: string, x: string)
    requires p != []
    ensures ParameterLength(p + x) <= |p| ==> ParameterLength(p + x) == ParameterLength(p)
  {
    hide Run;
    DropFromSum(p, x, 1);
    RunOfSum(p[1..], x, Decimal);
  }

  lemma PercentOfSum(p: string, x: string)
    requires p != []
    ensures PercentLength(p + x) <= |p| ==> PercentLength(p + x) == PercentLength(p)
  {
    hide Run, DollarMask.TagLength;
    var s := p + x;
    assert s[0] == p[0] && (|p| > 1 ==> s[1] == p[1]) && (|p| > 2 ==> s[2] == p[2]);
    if |p| > 2 {
      DropFromSum(p, x, 2);
      TagLengthIsRun(p[2..]);
      TagLengthIsRun(p[2..] + x);
      RunOfSum(p[2..], x, DollarMask.IsTagPart);
      var close := 2 + DollarMask.TagLength(p[2..]);
      assert close < |p| ==> s[close] == p[close];
      assert close + 1 < |p| ==> s[close + 1] == p[close + 1];
    }
  }

  lemma DelimiterOfSum(p: string, x: string)
    ensures DollarMask.DelimiterLength(p + x) <= |p| ==> DollarMask.DelimiterLength(p + x) == DollarMask.DelimiterLength(p)
  {
    hide DollarMask.DelimiterLength;
    var k, n := DollarMask.DelimiterLength(p + x), DollarMask.DelimiterLength(p);
    if 0 < k <= |p| {
      DollarMask.DelimiterLengthIsExact(p + x, k);
      DollarMask.DelimiterLengthIsExact(p, k);
      assert (p + x)[..k] == p[..k];
    } else if n > 0 {
      DollarMask.DelimiterLengthIsExact(p + x, n);
      DollarMask.DelimiterLengthIsExact(p, n);
      assert (p + x)[..n] == p[..n];
    }
  }

  lemma LineIsLocal(p: string, x: string, y: string)
    requires x != [] && y != [] && x[0] != '\n' && 0 <= Index(p + x, "\n") <= |p|
    ensures Index(p + y, "\n") == Index(p + x, "\n")
  {
    hide Index;
    IndexIsFirst(p + x, "\n");
    assert (p + x)[|p|..|p| + 1] == [x[0]] != "\n";
    IndexIsLocal(p, x, y, "\n");
  }

  /** The lookahead of a token after its first character ends within `p`. */
  predicate LooksWithin(p: string, x: string) {
    DollarMask.DelimiterLength(p + x) <= |p| && ParameterLength(p + x) <= |p| && PercentLength(p + x) <= |p|
  }

  lemma SameLook(p: string, x: string, y: string)
    requires p != [] && LooksWithin(p, x) && LooksWithin(p, y)
    ensures DollarMask.DelimiterLength(p + y) == DollarMask.DelimiterLength(p + x)
    ensures ParameterLength(p + y) == ParameterLength(p + x) && PercentLength(p + y) == PercentLength(p + x)
  {
    hide DollarMask.DelimiterLength, ParameterLength, PercentLength;
    DelimiterOfSum(p, x);
    DelimiterOfSum(p, y);
    ParameterOfSum(p, x);
    ParameterOfSum(p, y);
    PercentOfSum(p, x);
    PercentOfSum(p, y);
  }

  lemma LookStopsAtQuote(p: string, x: string)
    requires x != [] && IsMaskedQuote(x[0])
    ensures LooksWithin(p, x) && NumberLength(p + x) <= |p|
  {
    hide DollarMask.DelimiterLength, ParameterLength, PercentLength, NumberLength;
    var s := p + x;
    assert s[|p|] == x[0];
    DelimiterHoldsNoQuotes(s);
    ParametersHoldNoQuotes(s);
    NumberHoldsNoQuotes(s);
    StopsBefore(s, |p|, DollarMask.DelimiterLength(s));
    StopsBefore(s, |p|, ParameterLength(s));
    StopsBefore(s, |p|, PercentLength(s));
    StopsBefore(s, |p|, NumberLength(s));
  }

  lemma StopsBefore(s: string, k: nat, n: nat)
    requires k < |s| && n <= |s| && IsMaskedQuote(s[k]) && QuoteFree(s[..n])
    ensures n <= k
  {
    assert forall i | 0 <= i < n :: s[..n][i] == s[i] && s[..n][i] in s[..n];
  }

  lemma DelimiterHoldsNoQuotes(s: string)
    ensures QuoteFree(s[..DollarMask.DelimiterLength(s)])
  {
    hide DollarMask.DelimiterLength;
    DollarMask.DelimiterLengthFindsDelimiter(s);
  }

  lemma ExponentHoldsNoQuotes(s: string)
    ensures QuoteFree(s[..ExponentLength(s)])
  {
    if ExponentLength(s) > 0 {
      var sign := if |s| > 1 && (s[1] == '+' || s[1] == '-') then 2 else 1;
      RunHolds(s[sign..], Decimal);
      assert forall i | sign <= i < ExponentLength(s) :: s[i] == s[sign..][i - sign];
    }
  }

  lemma MantissaHoldsNoQuotes(s: string)
    ensures QuoteFree(s[..MantissaLength(s)])
  {
    var whole := Run(s, Decimal);
    RunHolds(s, Decimal);
    if whole < |s| {
      RunHolds(s[whole + 1..], Decimal);
      assert forall i | whole + 1 <= i < |s| :: s[i] == s[whole + 1..][i - whole - 1];
    }
  }

  lemma NumberHoldsNoQuotes(s: string)
    ensures QuoteFree(s[..NumberLength(s)])
  {
    hide MantissaLength, ExponentLength, Run;
    if |s| > 1 {
      RunHolds(s[2..], Hex);
      RunHolds(s[2..], Binary);
      assert forall i | 2 <= i < |s| :: s[i] == s[2..][i - 2];
    }
    var m := MantissaLength(s);
    var e := ExponentLength(s[m..]);
    MantissaHoldsNoQuotes(s);
    ExponentHoldsNoQuotes(s[m..]);
    assert s[..m + e] == s[..m] + s[m..][..e];
  }

  /** The rest of a token after its first characters, and the one character of what follows that is looked at, are
      alike: `x` and `y` open with the same quote, or neither opens with a character that could go on. */
  predicate Alike(p: string, x: string, y: string) {
    && x != [] && y != [] && LooksWithin(p, x) && LooksWithin(p, y)
    && x[0] !in "*/-\n" && y[0] !in "*/-\n"
    && (x[0] == y[0] || (x[0] !in "'\"`" && y[0] !in "'\"`"))
  }

  lemma TokenOfAlike(u: Unicode, prev: Option<char>, p: string, x: string, y: string)
    requires p != [] && Alike(p, x, y) && NextToken(u, prev, p + x).length <= |p|
    requires StartsNumber(u, prev, p + x) <==> StartsNumber(u, prev, p + y)
    requires StartsNumber(u, prev, p + x) ==> NumberLength(p + x) == NumberLength(p + y)
    ensures NextToken(u, prev, p + y) == NextToken(u, prev, p + x)
  {
    hide BlockEnd, QuoteEnd, NumberLength, PercentLength, ParameterLength, Index, StartsNumber;
    hide DollarMask.DelimiterLength, DollarMask.Advance;
    var s, t := p + x, p + y;
    SameLook(p, x, y);
    assert s[1..] == p[1..] + x && t[1..] == p[1..] + y;
    assert s[0] == t[0] && (|p| == 1 ==> s[1] == x[0] && t[1] == y[0]) && (|p| > 1 ==> s[1] == t[1] == p[1]);
    var n := NextToken(u, prev, s).length;
    assert s[..n] == p[..n] == t[..n];
    if s[0] == '#' || (s[0] == '-' && s[1] == '-') {
      LineIsLocal(p[1..], x, y);
    } else if s[0] == '/' && s[1] == '*' {
      assert s[2..] == p[2..] + x && t[2..] == p[2..] + y;
      BlockEndIsLocal(p[2..], x, y, 1);
    } else if s[0] == '\'' {
      QuoteEndIsLocal(p[1..], x, y, s[0], true);
    } else if s[0] == '"' || s[0] == '`' {
      QuoteEndIsLocal(p[1..], x, y, s[0], s[0] == '"');
    } else if DollarMask.DelimiterLength(s) > 0 {
      DollarMask.SameStep(p, x, y);
    }
  }

  /** A token that ends before a quote does not depend on what stands after that quote, for all its lookahead. */
  lemma TokenIsLocal(u: Unicode, prev: Option<char>, p: string, x: string, y: string)
    requires p != [] && SameQuote(x, y)
    requires NextToken(u, prev, p + x).length <= |p|
    ensures NextToken(u, prev, p + y) == NextToken(u, prev, p + x)
  {
    hide NextToken, LooksWithin, NumberLength;
    LookStopsAtQuote(p, x);
    LookStopsAtQuote(p, y);
    NumberOfSum(p, x);
    NumberOfSum(p, y);
    var s, t := p + x, p + y;
    assert s[0] == t[0] == p[0] && s[1] == t[1] == if |p| > 1 then p[1] else x[0];
    TokenOfAlike(u, prev, p, x, y);
  }

  /** The scan of `s` stops at position `p` on its way, so `p` is at top level. */
  predicate Reaches(u: Unicode, prev: Option<char>, s: string, p: nat)
    decreases |s|
  {
    p == 0 || (s != [] &&
      var n := NextToken(u, prev, s).length;
      n <= p && Reaches(u, Some(s[n - 1]), s[n..], p - n))
  }

  /** What the scan has written when it stops at `p`. */
  function Written(u: Unicode, prev: Option<char>, s: string, p: nat): string
    requires Reaches(u, prev, s, p)
    decreases |s|
  {
    if p == 0 then []
    else
      var t := NextToken(u, prev, s);
      t.text + Written(u, Some(s[t.length - 1]), s[t.length..], p - t.length)
  }

  lemma {:induction false} ScanFromReached(u: Unicode, prev: Option<char>, s: string, p: nat)
    requires Reaches(u, prev, s, p)
    ensures p <= |s| && Scan(u, prev, s) == Written(u, prev, s, p) + Scan(u, Before(prev, s, p), s[p..])
    decreases |s|
  {
    hide NextToken, Scan;
    if p == 0 {
      assert s[0..] == s;
    } else {
      var t := NextToken(u, prev, s);
      var n, rest := t.length, s[t.length..];
      ScanFromReached(u, Some(s[n - 1]), rest, p - n);
      ScanStep(u, prev, s);
      assert rest[p - n..] == s[p..] && Before(Some(s[n - 1]), rest, p - n) == Before(prev, s, p);
    }
  }

  lemma {:induction false} ReachIsLocal(u: Unicode, prev: Option<char>, pre: string, x: string, y: string)
    requires SameQuote(x, y) && Reaches(u, prev, pre + x, |pre|)
    ensures Reaches(u, prev, pre + y, |pre|)
    ensures Written(u, prev, pre + y, |pre|) == Written(u, prev, pre + x, |pre|)
    decreases |pre|
  {
    hide NextToken;
    if pre != [] {
      TokenIsLocal(u, prev, pre, x, y);
      var n := NextToken(u, prev, pre + x).length;
      assert (pre + x)[n..] == pre[n..] + x && (pre + y)[n..] == pre[n..] + y;
      ReachIsLocal(u, Some(pre[n - 1]), pre[n..], x, y);
    }
  }

  /** A complete literal, with backslash escapes: its opening quote, then a run that closes exactly at the end. */
  predicate IsLiteral(lit: string) {
    |lit| >= 2 && IsMaskedQuote(lit[0]) && QuoteEnd(lit[1..], lit[0], true) == Quoted(|lit| - 1, true)
  }

  lemma {:induction false} ClosedRunEndsInQuote(s: string, quote: char, escapes: bool)
    requires QuoteEnd(s, quote, escapes).closed
    ensures var n := QuoteEnd(s, quote, escapes).length; n > 0 && s[n - 1] == quote
    decreases |s|
  {
    if escapes && s[0] == '\\' {
      ClosedRunEndsInQuote(s[2..], quote, escapes);
    } else if s[0] != quote {
      ClosedRunEndsInQuote(s[1..], quote, escapes);
    } else if |s| > 1 && s[1] == quote {
      ClosedRunEndsInQuote(s[2..], quote, escapes);
    }
  }

  /** A run that closes at the end of `s` closes there too when text follows that is not one more quote. */
  lemma {:induction false} ClosedRunStaysClosed(s: string, post: string, quote: char, escapes: bool)
    requires QuoteEnd(s, quote, escapes) == Quoted(|s|, true)
    requires post == [] || post[0] != quote
    ensures QuoteEnd(s + post, quote, escapes) == Quoted(|s|, true)
    decreases |s|
  {
    assert (s + post)[1..] == s[1..] + post;
    if (escapes && s[0] == '\\') || (s[0] == quote && |s| > 1 && s[1] == quote) {
      assert (s + post)[2..] == s[2..] + post;
      ClosedRunStaysClosed(s[2..], post, quote, escapes);
    } else if s[0] != quote {
      ClosedRunStaysClosed(s[1..], post, quote, escapes);
    }
  }

  lemma LiteralIsOneToken(u: Unicode, prev: Option<char>, lit: string, post: string)
    requires IsLiteral(lit) && (post == [] || post[0] != lit[0])
    ensures NextToken(u, prev, lit + post) == Token(|lit|, "?") && lit[|lit| - 1] == lit[0]
  {
    hide QuoteEnd;
    assert (lit + post)[1..] == lit[1..] + post;
    ClosedRunStaysClosed(lit[1..], post, lit[0], true);
    ClosedRunEndsInQuote(lit[1..], lit[0], true);
  }

  /** A complete literal at a top-level position is one '?', and the scan goes on after it. */
  lemma ScanOfLiteral(u: Unicode, pre: string, lit: string, post: string)
    requires IsLiteral(lit) && (post == [] || post[0] != lit[0])
    requires Reaches(u, None, pre + (lit + post), |pre|)
    ensures Scan(u, None, pre + (lit + post))
         == Written(u, None, pre + (lit + post), |pre|) + ("?" + Scan(u, Some(lit[0]), post))
  {
    hide NextToken, Written, Reaches, IsLiteral, QuoteEnd, Scan;
    var x := lit + post;
    var before := Before(None, pre + x, |pre|);
    assert (pre + x)[|pre|..] == x;
    ScanFromReached(u, None, pre + x, |pre|);
    LiteralIsOneToken(u, before, lit, post);
    ScanStep(u, before, x);
    assert x[|lit|..] == post && x[|lit| - 1] == lit[|lit| - 1] == lit[0];
  }

  /** The mask of a statement does not depend on what a complete literal at top level holds, although the
      tokens before it look ahead and a number after it looks back. Only the size limit can tell them apart. */
  lemma MaskHidesTheLiteral(u: Unicode, pre: string, lit: string, other: string, post: string)
    requires IsLiteral(lit) && IsLiteral(other) && lit[0] == other[0] && (post == [] || post[0] != lit[0])
    requires Reaches(u, None, pre + (lit + post), |pre|)
    requires |pre + (lit + post)| <= MAX_STATEMENT && |pre + (other + post)| <= MAX_STATEMENT
    ensures Masked(u, pre + (other + post)) == Masked(u, pre + (lit + post))
  {
    hide NextToken, QuoteEnd, Collapse, Strip, Scan, Written, Reaches;
    ReachIsLocal(u, None, pre, lit + post, other + post);
    ScanOfLiteral(u, pre, lit, post);
    ScanOfLiteral(u, pre, other, post);
  }

  /** A literal or a quoted name that is never closed is masked to the end of the statement. */
  lemma UnclosedLiteralIsMaskedToTheEnd(u: Unicode, pre: string, x: string)
    requires x != [] && x[0] in "'\"`" && !QuoteEnd(x[1..], x[0], x[0] != '`').closed
    requires Reaches(u, None, pre + x, |pre|)
    ensures Scan(u, None, pre + x) == Written(u, None, pre + x, |pre|) + "?"
  {
    hide QuoteEnd, Written, Reaches, NextToken;
    var before := Before(None, pre + x, |pre|);
    assert (pre + x)[|pre|..] == x;
    ScanFromReached(u, None, pre + x, |pre|);
    OpenQuoteTakesAll(u, before, x);
    ScanStep(u, before, x);
    assert x[|x|..] == [];
  }

  lemma OpenQuoteTakesAll(u: Unicode, prev: Option<char>, x: string)
    requires x != [] && x[0] in "'\"`" && !QuoteEnd(x[1..], x[0], x[0] != '`').closed
    ensures NextToken(u, prev, x) == Token(|x|, "?")
  {
    hide QuoteEnd;
    OpenRunTakesAll(x[1..], x[0], x[0] != '`');
  }

  lemma {:induction false} OpenRunTakesAll(s: string, quote: char, escapes: bool)
    requires !QuoteEnd(s, quote, escapes).closed
    ensures QuoteEnd(s, quote, escapes).length == |s|
    decreases |s|
  {
    if s != [] {
      if escapes && s[0] == '\\' {
        if |s| > 1 { OpenRunTakesAll(s[2..], quote, escapes); }
      } else if s[0] == quote {
        OpenRunTakesAll(s[2..], quote, escapes);
      } else {
        OpenRunTakesAll(s[1..], quote, escapes);
      }
    }
  }

  // ---- Backslashes, where the dialect has no escapes -----------------------------------------------

  /** Reading with escapes, the run meets a quote behind a backslash before it closes. */
  predicate MeetsEscapedQuote(s: string, quote: char)
    decreases |s|
  {
    s != [] &&
      if s[0] == '\\' then |s| > 1 && (s[1] == quote || MeetsEscapedQuote(s[2..], quote))
      else if s[0] == quote then |s| > 1 && s[1] == quote && MeetsEscapedQuote(s[2..], quote)
      else MeetsEscapedQuote(s[1..], quote)
  }

  /** Of a row of quotes one reading takes all, the other all but the first: only one of them closes there. */
  lemma {:induction false} RowOfQuotes(s: string, quote: char)
    requires s != [] && s[0] == quote != '\\'
    ensures var q := QuoteEnd(s[1..], quote, true); QuoteEnd(s, quote, false) != Quoted(1 + q.length, q.closed)
    decreases |s|
  {
    hide QuoteEnd;
    QuoteHead(s, quote, false);
    if |s| > 1 && s[1] == quote {
      QuoteHead(s[1..], quote, true);
      DropTwice(s, 1, 1);
      if |s| > 2 {
        if s[2] == quote {
          DropTwice(s, 1, 2);
          DropTwice(s, 2, 1);
          RowOfQuotes(s[2..], quote);
        }
      } else {
        EmptyRunIsOpen(s[2..], quote, false);
      }
    }
    if |s| == 1 { EmptyRunIsOpen(s[1..], quote, true); }
  }

  /** A quoted run is read the same way with and without escapes if and only if no quote in it stands behind a
      backslash that is not itself escaped. */
  lemma {:induction false} SameReading(s: string, quote: char)
    requires quote != '\\'
    ensures QuoteEnd(s, quote, true) == QuoteEnd(s, quote, false) <==> !MeetsEscapedQuote(s, quote)
    decreases |s|
  {
    hide QuoteEnd;
    if s == [] {
      EmptyRunIsOpen(s, quote, true);
      EmptyRunIsOpen(s, quote, false);
    } else {
      QuoteHead(s, quote, true);
      QuoteHead(s, quote, false);
      if s[0] == '\\' {
        if |s| == 1 {
          EmptyRunIsOpen(s[1..], quote, false);
        } else {
          DropTwice(s, 1, 1);
          if s[1] == quote {
            RowOfQuotes(s[1..], quote);
          } else {
            QuoteHead(s[1..], quote, false);
            SameReading(s[2..], quote);
          }
        }
      } else if s[0] != quote {
        SameReading(s[1..], quote);
      } else if |s| > 1 && s[1] == quote {
        SameReading(s[2..], quote);
      }
    }
  }

  /** A complete literal where backslashes are ordinary characters, as in SQLite. */
  predicate IsStandardLiteral(lit: string) {
    |lit| >= 2 && IsMaskedQuote(lit[0]) && QuoteEnd(lit[1..], lit[0], false) == Quoted(|lit| - 1, true)
  }

  /** Such a literal is one for the masker, to which MaskHidesTheLiteral applies, exactly when it holds no escaped
      quote; one without a backslash always is. */
  lemma StandardLiteralsAreLiterals(lit: string)
    requires IsStandardLiteral(lit)
    ensures IsLiteral(lit) <==> !MeetsEscapedQuote(lit[1..], lit[0])
    ensures '\\' !in lit ==> IsLiteral(lit)
  {
    hide QuoteEnd, MeetsEscapedQuote;
    SameReading(lit[1..], lit[0]);
    if '\\' !in lit { NothingEscaped(lit[1..], lit[0]); }
  }

  lemma {:induction false} NothingEscaped(s: string, quote: char)
    requires '\\' !in s
    ensures !MeetsEscapedQuote(s, quote)
    decreases |s|
  {
    if s != [] {
      assert s[0] in s;
      NothingEscaped(s[1..], quote);
      if |s| > 1 { NothingEscaped(s[2..], quote); }
    }
  }

  /** A character that is a token of its own and is kept. */
  predicate Plain(u: Unicode, c: char) { !u.digit(c) && c !in "#-/'\"`$%." }

  lemma {:induction false} PlainThenQuote(u: Unicode, prev: Option<char>, s: string)
    requires forall c | c in s :: Plain(u, c)
    ensures Scan(u, prev, s + "'") == s + "?"
    decreases |s|
  {
    hide Scan;
    var t := s + "'";
    ScanStep(u, prev, t);
    if s == [] {
      assert t == "'" && t[1..] == [];
      OneQuote(u, prev);
    } else {
      assert s[0] in s && t[1..] == s[1..] + "'";
      PlainToken(u, prev, t);
      PlainThenQuote(u, Some(t[0]), s[1..]);
      assert s == [s[0]] + s[1..];
    }
  }

  lemma PlainToken(u: Unicode, prev: Option<char>, s: string)
    requires s != [] && Plain(u, s[0])
    ensures NextToken(u, prev, s) == Token(1, [s[0]])
  {
  }

  lemma OneQuote(u: Unicode, prev: Option<char>)
    ensures NextToken(u, prev, "'") == Token(1, "?") && Scan(u, prev, "'") == "?"
  {
    assert "'"[1..] == [];
    EmptyRunIsOpen([], '\'', true);
  }

  lemma {:induction false} NoQuoteInside(s: string, quote: char)
    requires quote !in s
    ensures QuoteEnd(s + [quote], quote, false) == Quoted(|s| + 1, true)
  {
    hide QuoteEnd;
    QuoteHead(s + [quote], quote, false);
    if s != [] {
      assert (s + [quote])[1..] == s[1..] + [quote] && s[0] in s;
      NoQuoteInside(s[1..], quote);
    }
  }

  /** `'\', '` is one literal to the masker; elsewhere it is the literal of a backslash and the opening of another. */
  lemma EscapedQuoteIsCrossed()
    ensures IsStandardLiteral("'\\'") && IsLiteral("'\\', '")
  {
    assert "'\\'"[1..] == "\\" + "'";
    NoQuoteInside("\\", '\'');
    var run := "\\', '";
    assert "'\\', '"[1..] == run && run[2..] == ", '" && run[2..][1..] == " '" && run[2..][1..][1..] == "'";
  }

  /** Where backslashes are ordinary, `'\', 'text'` holds two literals, and the masker writes the text of the
      second. */
  lemma BackslashShowsTheNext(u: Unicode, text: string)
    requires text != [] && forall c | c in text :: Plain(u, c)
    ensures IsStandardLiteral("'\\'") && IsStandardLiteral("'" + (text + "'"))
    ensures Scan(u, None, "'\\', '" + (text + "'")) == "?" + (text + "?")
  {
    hide QuoteEnd, Scan, NextToken, IsLiteral;
    EscapedQuoteIsCrossed();
    assert text[0] in text && forall c | c in text :: c != '\'';
    NoQuoteInside(text, '\'');
    assert ("'" + (text + "'"))[1..] == text + "'";
    var lit, post := "'\\', '", text + "'";
    LiteralIsOneToken(u, None, lit, post);
    ScanStep(u, None, lit + post);
    assert (lit + post)[|lit|..] == post;
    PlainThenQuote(u, Some((lit + post)[|lit| - 1]), text);
  }

  // ---- No quote is left ----------------------------------------------------------------------------

  predicate QuoteFree(s: string) { '\'' !in s && '"' !in s }

  lemma {:induction false} RunHolds(s: string, f: char -> bool)
    ensures forall i | 0 <= i < Run(s, f) :: f(s[i])
  {
    if s != [] && f(s[0]) { RunHolds(s[1..], f); }
  }

  lemma ParametersHoldNoQuotes(s: string)
    ensures QuoteFree(s[..ParameterLength(s)]) && QuoteFree(s[..PercentLength(s)])
  {
    if ParameterLength(s) > 0 {
      RunHolds(s[1..], Decimal);
      assert forall i | 0 < i < ParameterLength(s) :: s[i] == s[1..][i - 1];
    }
    if PercentLength(s) > 2 {
      assert forall i | 2 <= i < PercentLength(s) - 2 :: s[i] == s[2..][i - 2];
    }
  }

  lemma TokenHoldsNoQuotes(u: Unicode, prev: Option<char>, s: string)
    requires s != [] && s[0] != '`'
    ensures QuoteFree(NextToken(u, prev, s).text)
  {
    hide QuoteEnd, BlockEnd, NumberLength, PercentLength, ParameterLength;
    ParametersHoldNoQuotes(s);
  }

  lemma {:induction false} ScanHoldsNoQuotes(u: Unicode, prev: Option<char>, s: string)
    requires '`' !in s
    ensures QuoteFree(Scan(u, prev, s))
    decreases |s|
  {
    hide NextToken;
    if s != [] {
      assert s[0] in s;
      TokenHoldsNoQuotes(u, prev, s);
      var t := NextToken(u, prev, s);
      ScanHoldsNoQuotes(u, Some(s[t.length - 1]), s[t.length..]);
    }
  }

  lemma {:induction false} CollapseHoldsNoQuotes(u: Unicode, s: string)
    requires QuoteFree(s)
    ensures QuoteFree(Collapse(u, s))
    decreases |s|
  {
    if s != [] {
      if u.space(s[0]) { CollapseHoldsNoQuotes(u, s[Run(s, u.space)..]); } else { CollapseHoldsNoQuotes(u, s[1..]); }
    }
  }

  lemma {:induction false} StripHoldsNoQuotes(u: Unicode, s: string)
    requires QuoteFree(s)
    ensures QuoteFree(Strip(u, s))
    decreases |s|
  {
    if s != [] {
      StripHoldsNoQuotes(u, s[1..]);
      StripHoldsNoQuotes(u, s[..|s| - 1]);
    }
  }

  /** No single or double quote survives in any statement without a backtick: only a backtick-quoted name is passed
      on as it is. */
  lemma MaskLeavesNoQuotes(u: Unicode, statement: string)
    requires '`' !in statement
    ensures QuoteFree(Masked(u, statement))
  {
    hide Scan, Collapse, Strip;
    ScanHoldsNoQuotes(u, None, statement);
    CollapseHoldsNoQuotes(u, Scan(u, None, statement));
    StripHoldsNoQuotes(u, Collapse(u, Scan(u, None, statement)));
  }
}
