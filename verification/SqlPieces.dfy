/** What sql_mask makes of statements that are written out piece by piece, and of their white space. */
module SqlPieces {
  import opened Collections
  import DollarMask
  import opened Options
  import opened SqlMask
  import opened Text

  /** What Python's tables say of ASCII. */
  ghost predicate IsPython(u: Unicode) {
    forall c: char | c < '\U{80}' ::
      && (u.digit(c) <==> '0' <= c <= '9')
      && (u.alnum(c) <==> '0' <= c <= '9' || 'A' <= c <= 'Z' || 'a' <= c <= 'z')
      && (u.space(c) <==> '\t' <= c <= '\r' || '\U{1c}' <= c <= ' ')
  }

  // ---- Numbers written out -------------------------------------------------------------------------

  predicate IsDigit(c: char) { '0' <= c <= '9' }
  predicate IsHexDigit(c: char) { '0' <= c <= '9' || 'a' <= c <= 'f' || 'A' <= c <= 'F' }
  predicate IsBit(c: char) { c == '0' || c == '1' }
  predicate All(s: string, f: char -> bool) { forall i | 0 <= i < |s| :: f(s[i]) }

  /** `0x1F`, `0b01`, and `12`, `12.`, `12.5`, `.5`, each with or without an exponent. */
  datatype Numeral =
    | HexNumeral(mark: char, digits: string)
    | BinNumeral(mark: char, digits: string)
    | DecNumeral(whole: string, point: bool, fraction: string, exponent: string)

  predicate IsSign(c: char) { c == '+' || c == '-' }

  predicate IsExponent(e: string) {
    && |e| >= 2 && (e[0] == 'e' || e[0] == 'E')
    && var sign := if IsSign(e[1]) then 2 else 1; sign < |e| && All(e[sign..], IsDigit)
  }

  predicate IsNumeral(n: Numeral) {
    match n
    case HexNumeral(mark, digits) => (mark == 'x' || mark == 'X') && digits != [] && All(digits, IsHexDigit)
    case BinNumeral(mark, digits) => (mark == 'b' || mark == 'B') && digits != [] && All(digits, IsBit)
    case DecNumeral(whole, point, fraction, exponent) =>
      && All(whole, IsDigit) && All(fraction, IsDigit) && (whole != [] || fraction != [])
      && (!point ==> fraction == []) && (exponent == [] || IsExponent(exponent))
  }

  function Mantissa(whole: string, point: bool, fraction: string): string {
    if point then whole + ("." + fraction) else whole
  }

  function NumeralText(n: Numeral): string {
    match n
    case HexNumeral(mark, digits) => "0" + [mark] + digits
    case BinNumeral(mark, digits) => "0" + [mark] + digits
    case DecNumeral(whole, point, fraction, exponent) => Mantissa(whole, point, fraction) + exponent
  }

  predicate OpensExponent(s: string) {
    && |s| >= 2 && (s[0] == 'e' || s[0] == 'E')
    && (IsDigit(s[1]) || (IsSign(s[1]) && |s| >= 3 && IsDigit(s[2])))
  }

  predicate OpensPrefixed(s: string) {
    && |s| >= 2
    && (((s[0] == 'x' || s[0] == 'X') && IsHexDigit(s[1])) || ((s[0] == 'b' || s[0] == 'B') && IsBit(s[1])))
  }

  /** The number cannot be read on into what follows. */
  predicate EndsBefore(n: Numeral, post: string) {
    match n
    case HexNumeral(_, _) => post == [] || !IsHexDigit(post[0])
    case BinNumeral(_, _) => post == [] || !IsBit(post[0])
    case DecNumeral(whole, point, _, exponent) =>
      && (post == [] || !IsDigit(post[0]))
      && (exponent == [] ==> !OpensExponent(post))
      && (exponent == [] && !point ==> (post == [] || post[0] != '.') && (whole == "0" ==> !OpensPrefixed(post)))
  }

  lemma {:induction false} RunOfAll(a: string, rest: string, f: char -> bool)
    requires All(a, f) && (rest == [] || !f(rest[0]))
    ensures Run(a + rest, f) == |a|
  {
    if a == [] {
      assert a + rest == rest;
    } else {
      assert (a + rest)[1..] == a[1..] + rest && (a + rest)[0] == a[0];
      RunOfAll(a[1..], rest, f);
    }
  }

  lemma ExponentIsRead(e: string, post: string)
    requires post == [] || !IsDigit(post[0])
    requires if e == [] then !OpensExponent(post) else IsExponent(e)
    ensures ExponentLength(e + post) == |e|
  {
    hide Run;
    var s := e + post;
    if e == [] {
      assert s == post;
      if |s| > 1 && (s[0] == 'e' || s[0] == 'E') {
        NoRun(s[if IsSign(s[1]) then 2 else 1..], Decimal);
      } else if |s| == 1 {
        NoRun(s[1..], Decimal);
      }
    } else {
      var sign := if IsSign(e[1]) then 2 else 1;
      DropFromSum(e, post, sign);
      RunOfAll(e[sign..], post, Decimal);
      assert s[0] == e[0] && s[1] == e[1];
    }
  }

  lemma NoRun(s: string, f: char -> bool)
    requires s == [] || !f(s[0])
    ensures Run(s, f) == 0
  {
  }

  lemma MantissaIsRead(whole: string, point: bool, fraction: string, rest: string)
    requires All(whole, IsDigit) && All(fraction, IsDigit) && (whole != [] || fraction != []) && (!point ==> fraction == [])
    requires rest == [] || !IsDigit(rest[0])
    requires !point ==> rest == [] || rest[0] != '.'
    ensures MantissaLength(Mantissa(whole, point, fraction) + rest) == |Mantissa(whole, point, fraction)| > 0
  {
    hide Run;
    var m := Mantissa(whole, point, fraction);
    var s := m + rest;
    if point {
      var tail := "." + (fraction + rest);
      assert s == whole + tail;
      RunOfAll(whole, tail, Decimal);
      RunOfAll(fraction, rest, Decimal);
      assert s[|whole|] == '.' && s[|whole| + 1..] == fraction + rest;
    } else {
      RunOfAll(whole, rest, Decimal);
    }
  }

  lemma PrefixedIsRead(mark: char, digits: string, post: string, f: char -> bool)
    requires digits != [] && All(digits, f) && (post == [] || !f(post[0]))
    ensures var s := "0" + [mark] + digits + post; s[0] == '0' && s[1] == mark && Run(s[2..], f) == |digits|
  {
    var s := "0" + [mark] + digits + post;
    RunOfAll(digits, post, f);
    assert s[2..] == digits + post;
  }

  /** A decimal numeral is not read as one with a prefix. */
  lemma NotPrefixed(n: Numeral, post: string)
    requires n.DecNumeral? && IsNumeral(n) && EndsBefore(n, post)
    ensures var s := NumeralText(n) + post; |s| > 1 && s[0] == '0' ==>
      && (s[1] == 'x' || s[1] == 'X' ==> Run(s[2..], Hex) == 0)
      && (s[1] == 'b' || s[1] == 'B' ==> Run(s[2..], SqlMask.Binary) == 0)
  {
    hide Run;
    var text := NumeralText(n);
    var s := text + post;
    if |s| > 1 && s[0] == '0' && !IsDigit(s[1]) && s[1] != '.' && s[1] != 'e' && s[1] != 'E' {
      TextOfOne(n);
      assert post[0] == s[1] && post[1..] == s[2..];
      NoRunOrOpens(post);
    }
  }

  lemma NoRunOrOpens(post: string)
    requires post != [] && !OpensPrefixed(post)
    ensures post[0] == 'x' || post[0] == 'X' ==> Run(post[1..], Hex) == 0
    ensures post[0] == 'b' || post[0] == 'B' ==> Run(post[1..], SqlMask.Binary) == 0
  {
  }

  /** The second character of a decimal numeral is a digit, the point or the mark of the exponent. */
  lemma TextOfOne(n: Numeral)
    requires n.DecNumeral? && IsNumeral(n)
    ensures var text := NumeralText(n);
      && |text| >= 1 && (IsDigit(text[0]) || text[0] == '.')
      && (|text| > 1 ==> IsDigit(text[1]) || text[1] == '.' || text[1] == 'e' || text[1] == 'E')
      && (|text| == 1 ==> n == DecNumeral(text, false, [], []))
  {
  }

  lemma AfterMantissa(n: Numeral, post: string)
    requires n.DecNumeral? && IsNumeral(n) && EndsBefore(n, post)
    ensures var rest := n.exponent + post;
      && (rest == [] || !IsDigit(rest[0])) && (!n.point ==> rest == [] || rest[0] != '.')
      && (post == [] || !IsDigit(post[0]))
      && (if n.exponent == [] then !OpensExponent(post) else IsExponent(n.exponent))
  {
    hide OpensExponent, OpensPrefixed;
  }

  lemma DecimalIsRead(n: Numeral, post: string)
    requires n.DecNumeral? && IsNumeral(n) && EndsBefore(n, post)
    ensures var s := NumeralText(n) + post;
      var m := MantissaLength(s); 0 < m <= |s| && m + ExponentLength(s[m..]) == |NumeralText(n)|
  {
    hide Run, MantissaLength, ExponentLength, Mantissa, EndsBefore, IsExponent, OpensExponent;
    var m, rest := Mantissa(n.whole, n.point, n.fraction), n.exponent + post;
    AfterMantissa(n, post);
    MantissaIsRead(n.whole, n.point, n.fraction, rest);
    ExponentIsRead(n.exponent, post);
    Associate(m, n.exponent, post);
    assert (m + rest)[|m|..] == rest;
  }

  lemma NumberIsRead(n: Numeral, post: string)
    requires IsNumeral(n) && EndsBefore(n, post)
    ensures NumberLength(NumeralText(n) + post) == |NumeralText(n)| > 0
  {
    hide Run, MantissaLength, ExponentLength;
    match n
    case HexNumeral(mark, digits) =>
      PrefixedIsRead(mark, digits, post, Hex);
    case BinNumeral(mark, digits) =>
      PrefixedIsRead(mark, digits, post, SqlMask.Binary);
    case DecNumeral(_, _, _, _) =>
      hide NumeralText, IsNumeral, EndsBefore;
      NotPrefixed(n, post);
      DecimalIsRead(n, post);
  }

  /** What stands before a number, if anything, does not make it a part of a name or parameter. */
  predicate Unblocked(u: Unicode, prev: Option<char>) {
    prev.Some? ==> !u.alnum(prev.value) && prev.value != '_' && prev.value != '$' && prev.value != ':'
  }

  lemma NumberOpens(n: Numeral, post: string)
    requires IsNumeral(n)
    ensures var s := NumeralText(n) + post;
      && |NumeralText(n)| > 0 && (IsDigit(s[0]) || (s[0] == '.' && |s| > 1 && IsDigit(s[1])))
      && NumeralText(n)[0] == s[0]
  {
  }

  /** A number that is written out where a number may start is one token, and is masked. */
  lemma NumberIsOneToken(u: Unicode, prev: Option<char>, n: Numeral, post: string)
    requires IsPython(u) && IsNumeral(n) && EndsBefore(n, post) && Unblocked(u, prev)
    ensures NextToken(u, prev, NumeralText(n) + post) == Token(|NumeralText(n)|, "?")
  {
    hide NumeralText, NumberLength, IsNumeral, EndsBefore;
    var s := NumeralText(n) + post;
    NumberOpens(n, post);
    NumberIsRead(n, post);
    assert StartsNumber(u, prev, s);
  }

  /** A number is one '?', and the scan goes on after it. */
  lemma ScanOfNumber(u: Unicode, pre: string, n: Numeral, post: string)
    requires IsPython(u) && IsNumeral(n) && EndsBefore(n, post)
    requires var s := pre + (NumeralText(n) + post); Reaches(u, None, s, |pre|) && Unblocked(u, Before(None, s, |pre|))
    ensures |NumeralText(n)| > 0
    ensures var s, text := pre + (NumeralText(n) + post), NumeralText(n);
      Scan(u, None, s) == Written(u, None, s, |pre|) + ("?" + Scan(u, Some(text[|text| - 1]), post))
  {
    hide NextToken, NumeralText, IsNumeral, EndsBefore, Written, Reaches, Scan, IsPython;
    var text := NumeralText(n);
    var x := text + post;
    var s := pre + x;
    var before := Before(None, s, |pre|);
    NumberIsRead(n, post);
    assert s[|pre|..] == x;
    ScanFromReached(u, None, s, |pre|);
    NumberIsOneToken(u, before, n, post);
    ScanStep(u, before, x);
    assert x[|text|..] == post && x[|text| - 1] == text[|text| - 1];
  }

  // ---- The mask does not tell numbers apart --------------------------------------------------------

  predicate OpensNumber(x: string) { x != [] && (IsDigit(x[0]) || x[0] == '.') }

  lemma {:induction false} NumberHead(s: string)
    requires s != [] && IsDigit(s[0])
    ensures NumberLength(s) > 0
  {
    hide ExponentLength, Hex;
  }

  lemma PointHead(s: string)
    requires |s| > 1 && s[0] == '.' && IsDigit(s[1])
    ensures NumberLength(s) > 1
  {
    hide ExponentLength, Hex;
    assert s[1..][0] == s[1];
  }

  /** Where two texts with numbers go on from `p` and the tokens end within it, a number starts in both or none. */
  lemma SameStart(u: Unicode, prev: Option<char>, p: string, x: string, y: string)
    requires IsPython(u) && p != [] && OpensNumber(x) && OpensNumber(y)
    requires NextToken(u, prev, p + x).length <= |p| && NextToken(u, prev, p + y).length <= |p|
    ensures StartsNumber(u, prev, p + x) <==> StartsNumber(u, prev, p + y)
  {
    hide NumberLength;
    var s, t := p + x, p + y;
    if p == "." {
      PointCrosses(u, prev, x);
      PointCrosses(u, prev, y);
    } else {
      assert s[0] == t[0] == p[0] && (|p| > 1 ==> s[1] == t[1] == p[1]);
    }
  }

  lemma PointCrosses(u: Unicode, prev: Option<char>, x: string)
    requires IsPython(u) && OpensNumber(x) && NextToken(u, prev, "." + x).length <= 1
    ensures !StartsNumber(u, prev, "." + x)
  {
    hide NumberLength;
    var s := "." + x;
    if IsDigit(x[0]) { PointHead(s); }
  }

  /** A token is at least as long as the parameter, delimiter or number that it was recognised by. */
  lemma TokenTakesWhatItReads(u: Unicode, prev: Option<char>, s: string)
    requires IsPython(u) && s != []
    ensures var n := NextToken(u, prev, s).length;
      && DollarMask.DelimiterLength(s) <= n && ParameterLength(s) <= n && PercentLength(s) <= n
      && (StartsNumber(u, prev, s) ==> NumberLength(s) <= n)
  {
    hide NumberLength, Index, Run, DollarMask.TagLength;
    if |s| > 1 && !IsDigit(s[1]) { NoRun(s[1..], Decimal); }
    if s[0] > '9' { NoNumber(s); }
  }

  lemma NoNumber(s: string)
    requires s != [] && s[0] > '9'
    ensures NumberLength(s) == 0
  {
    NoRun(s, Decimal);
  }

  /** A token that ends before a number does not depend on which number it is. */
  lemma TokenBeforeNumber(u: Unicode, prev: Option<char>, p: string, x: string, y: string)
    requires IsPython(u) && p != [] && OpensNumber(x) && OpensNumber(y)
    requires NextToken(u, prev, p + x).length <= |p| && NextToken(u, prev, p + y).length <= |p|
    ensures NextToken(u, prev, p + y) == NextToken(u, prev, p + x)
  {
    hide NextToken, StartsNumber, NumberLength, IsPython;
    SameStart(u, prev, p, x, y);
    TokenTakesWhatItReads(u, prev, p + x);
    TokenTakesWhatItReads(u, prev, p + y);
    NumberOfSum(p, x);
    NumberOfSum(p, y);
    TokenOfAlike(u, prev, p, x, y);
  }

  lemma {:induction false} WrittenBeforeNumber(u: Unicode, prev: Option<char>, pre: string, x: string, y: string)
    requires IsPython(u) && OpensNumber(x) && OpensNumber(y)
    requires Reaches(u, prev, pre + x, |pre|) && Reaches(u, prev, pre + y, |pre|)
    ensures Written(u, prev, pre + y, |pre|) == Written(u, prev, pre + x, |pre|)
    decreases |pre|
  {
    hide NextToken, IsPython;
    if pre != [] {
      TokenBeforeNumber(u, prev, pre, x, y);
      var n := NextToken(u, prev, pre + x).length;
      assert (pre + x)[n..] == pre[n..] + x && (pre + y)[n..] == pre[n..] + y;
      WrittenBeforeNumber(u, Some(pre[n - 1]), pre[n..], x, y);
    }
  }

  /** What follows two numbers is read the same way: both end in a point or both do not, or it opens no number. */
  predicate FollowsAlike(u: Unicode, a: Numeral, b: Numeral, post: string) {
    (EndsInPoint(a) <==> EndsInPoint(b)) || !MayOpen(u, post)
  }

  predicate MayOpen(u: Unicode, s: string) { s != [] && (u.digit(s[0]) || s[0] == '.') }

  predicate EndsInPoint(n: Numeral) { n.DecNumeral? && n.point && n.fraction == [] && n.exponent == [] }

  lemma LastOfNumber(u: Unicode, n: Numeral)
    requires IsPython(u) && IsNumeral(n)
    ensures var text := NumeralText(n);
      |text| > 0 && if EndsInPoint(n) then text[|text| - 1] == '.' else u.alnum(text[|text| - 1])
  {
    hide IsExponent, Mantissa;
    match n
    case HexNumeral(mark, digits) => assert NumeralText(n)[|digits| + 1] == digits[|digits| - 1];
    case BinNumeral(mark, digits) => assert NumeralText(n)[|digits| + 1] == digits[|digits| - 1];
    case DecNumeral(whole, point, fraction, exponent) =>
      if exponent != [] {
        LastOfExponent(exponent);
        assert NumeralText(n)[|NumeralText(n)| - 1] == exponent[|exponent| - 1];
      } else {
        LastOfMantissa(whole, point, fraction);
        assert NumeralText(n) == Mantissa(whole, point, fraction);
      }
  }

  lemma LastOfExponent(e: string)
    requires IsExponent(e)
    ensures IsDigit(e[|e| - 1])
  {
    var sign := if IsSign(e[1]) then 2 else 1;
    assert e[|e| - 1] == e[sign..][|e| - sign - 1];
  }

  lemma LastOfMantissa(whole: string, point: bool, fraction: string)
    requires All(whole, IsDigit) && All(fraction, IsDigit) && (whole != [] || fraction != []) && (!point ==> fraction == [])
    ensures var m := Mantissa(whole, point, fraction);
      |m| > 0 && if point && fraction == [] then m[|m| - 1] == '.' else IsDigit(m[|m| - 1])
  {
  }

  lemma ScanAfter(u: Unicode, a: char, b: char, s: string)
    requires IsPython(u)
    requires a == b || (u.alnum(a) && u.alnum(b)) || !MayOpen(u, s)
    ensures Scan(u, Some(a), s) == Scan(u, Some(b), s)
  {
    hide NextToken, Scan;
    if s != [] {
      ScanStep(u, Some(a), s);
      ScanStep(u, Some(b), s);
      FirstToken(u, a, b, s);
    } else {
      ScanOfNothing(u, Some(a));
      ScanOfNothing(u, Some(b));
    }
  }

  lemma ScanOfNothing(u: Unicode, prev: Option<char>)
    ensures Scan(u, prev, []) == []
  {
  }

  lemma FirstToken(u: Unicode, a: char, b: char, s: string)
    requires IsPython(u) && s != []
    requires a == b || (u.alnum(a) && u.alnum(b)) || !MayOpen(u, s)
    ensures NextToken(u, Some(a), s) == NextToken(u, Some(b), s)
  {
    hide NumberLength, BlockEnd, QuoteEnd, Index, Run, DollarMask.DelimiterLength, PercentLength, ParameterLength;
  }

  /** Two statements within the size limit that differ only in a number, where a number may start, have the same
      mask. */
  lemma MaskHidesTheNumber(u: Unicode, pre: string, a: Numeral, b: Numeral, post: string)
    requires IsPython(u) && IsNumeral(a) && IsNumeral(b) && EndsBefore(a, post) && EndsBefore(b, post)
    requires FollowsAlike(u, a, b, post)
    requires var s := pre + (NumeralText(a) + post);
      |s| <= 32768 && Reaches(u, None, s, |pre|) && Unblocked(u, Before(None, s, |pre|))
    requires var t := pre + (NumeralText(b) + post); |t| <= 32768 && Reaches(u, None, t, |pre|)
    ensures Masked(u, pre + (NumeralText(a) + post)) == Masked(u, pre + (NumeralText(b) + post))
  {
    hide NextToken, NumeralText, IsNumeral, EndsBefore, Written, Reaches, Scan, IsPython, Collapse, Strip, EndsInPoint;
    var x, y := NumeralText(a), NumeralText(b);
    NumberOpens(a, post);
    NumberOpens(b, post);
    assert pre != [] ==> (pre + (x + post))[|pre| - 1] == (pre + (y + post))[|pre| - 1] == pre[|pre| - 1];
    ScanOfNumber(u, pre, a, post);
    ScanOfNumber(u, pre, b, post);
    WrittenBeforeNumber(u, None, pre, x + post, y + post);
    LastOfNumber(u, a);
    LastOfNumber(u, b);
    ScanAfter(u, x[|x| - 1], y[|y| - 1], post);
  }

  // ---- Statements written out ----------------------------------------------------------------------

  /** What stands between two quotes: a character, a doubled quote, or a backslash with the character it escapes. */
  datatype Atom = One(c: char) | Doubled | Escaped(c: char)

  /** What stands between the ends of a block comment: a character, or the ends of a comment inside it. */
  datatype Mark = Char(c: char) | Open | Close

  datatype Piece =
    | Kept(c: char)
    | Dropped(c: char)
    | Number(numeral: Numeral)
    | Quoted(quote: char, atoms: seq<Atom>)
    | BlockComment(marks: seq<Mark>)
    | LineComment(text: string)
    | Dollar(tag: string, body: string)
    | Parameter(digits: string)
    | Percent(name: string)

  function AtomsText(body: seq<Atom>, quote: char): string {
    if body == [] then [] else AtomText(body[0], quote) + AtomsText(body[1..], quote)
  }

  function MarksText(marks: seq<Mark>): string {
    if marks == [] then [] else
      (match marks[0] case Char(c) => [c] case Open => "/*" case Close => "*/") + MarksText(marks[1..])
  }

  /** How a piece is written. */
  function PieceText(p: Piece): string {
    match p
    case Kept(c) => [c]
    case Dropped(c) => [c]
    case Number(n) => NumeralText(n)
    case Quoted(quote, body) => [quote] + (AtomsText(body, quote) + [quote])
    case BlockComment(marks) => "/*" + MarksText(marks)
    case LineComment(text) => text
    case Dollar(tag, body) => ("$" + tag + "$") + (body + ("$" + tag + "$"))
    case Parameter(digits) => "$" + digits
    case Percent(name) => if name == [] then "%s" else "%(" + name + ")s"
  }

  /** And what the mask puts in its place: literals and numbers are hidden, comments become a space, quoted names
      and parameters stay. */
  function PieceMask(p: Piece): string {
    match p
    case Kept(c) => [c]
    case Dropped(_) => ""
    case Number(_) => "?"
    case Quoted(quote, _) => if quote == '`' then PieceText(p) else "?"
    case BlockComment(_) => " "
    case LineComment(_) => " "
    case Dollar(_, _) => "?"
    case Parameter(_) => PieceText(p)
    case Percent(_) => PieceText(p)
  }

  predicate IsName(s: string) {
    && s != [] && !IsDigit(s[0])
    && forall i | 0 <= i < |s| :: s[i] == '_' || IsDigit(s[i]) || 'A' <= s[i] <= 'Z' || 'a' <= s[i] <= 'z'
  }

  /** A backslash escapes in single and double quotes, not in backticks. */
  predicate IsAtom(a: Atom, quote: char) {
    match a
    case One(c) => c != quote && (c == '\\' ==> quote == '`')
    case Doubled => true
    case Escaped(_) => quote != '`'
  }

  /** The marks close the comments they open, the outermost last; no character forms a mark with the next. */
  predicate AreMarks(marks: seq<Mark>, depth: nat)
    decreases |marks|
  {
    if marks == [] then depth == 0 else
      depth > 0 &&
      match marks[0]
      case Open => AreMarks(marks[1..], depth + 1)
      case Close => AreMarks(marks[1..], depth - 1)
      case Char(c) =>
        var next := MarksText(marks[1..]);
        AreMarks(marks[1..], depth) && next != [] && !(c == '/' && next[0] == '*') && !(c == '*' && next[0] == '/')
  }

  /** A dollar-quoted body that does not bring the close forward. */
  predicate ClosesLast(body: string, d: string) {
    forall k | 0 <= k < |body| :: !OccursAt(body + d, d, k)
  }

  predicate IsPiece(p: Piece) {
    match p
    case Kept(c) => c !in "#'\"`"
    case Dropped(c) => c >= '\U{80}'
    case Number(n) => IsNumeral(n)
    case Quoted(quote, body) => quote in "'\"`" && forall i | 0 <= i < |body| :: IsAtom(body[i], quote)
    case BlockComment(marks) => AreMarks(marks, 1)
    case LineComment(text) => '\n' !in text && ("#" <= text || "--" <= text)
    case Dollar(tag, body) => (tag == [] || IsName(tag)) && ClosesLast(body, "$" + tag + "$")
    case Parameter(digits) => digits != [] && All(digits, IsDigit)
    case Percent(name) => name == [] || IsName(name)
  }

  /** The piece is not read on into what follows, and a number may start where it stands. */
  predicate Fits(u: Unicode, prev: Option<char>, p: Piece, rest: string) {
    match p
    case Kept(c) => StaysOne(c, rest) && (Unblocked(u, prev) ==> !u.digit(c) && !(c == '.' && rest != [] && u.digit(rest[0])))
    case Dropped(c) => u.digit(c) && Unblocked(u, prev)
    case Number(n) => EndsBefore(n, rest) && Unblocked(u, prev)
    case Quoted(quote, _) => rest == [] || rest[0] != quote
    case BlockComment(_) => true
    case LineComment(_) => rest == [] || rest[0] == '\n'
    case Dollar(_, _) => true
    case Parameter(_) => rest == [] || !IsDigit(rest[0])
    case Percent(_) => true
  }

  /** A character that opens nothing together with what follows. */
  predicate StaysOne(c: char, rest: string) {
    && (c == '-' ==> rest == [] || rest[0] != '-')
    && (c == '/' ==> rest == [] || rest[0] != '*')
    && (c == '%' ==> rest == [] || rest[0] != 's')
    && (c == '%' ==> forall n | 1 < n < |rest| - 1 && rest[0] == '(' && rest[n] == ')' && rest[n + 1] == 's' :: !IsName(rest[1..n]))
    && (c == '$' ==> rest == [] || !IsDigit(rest[0]))
    && (c == '$' ==> forall n | 0 <= n < |rest| && rest[n] == '$' :: n > 0 && !IsName(rest[..n]))
  }

  function AtomText(a: Atom, quote: char): string {
    match a case One(c) => [c] case Doubled => [quote, quote] case Escaped(c) => ['\\', c]
  }

  /** An atom does not close the run. */
  lemma AtomGoesOn(a: Atom, quote: char, tail: string)
    requires IsAtom(a, quote) && quote in "'\"`"
    ensures var q := QuoteEnd(tail, quote, quote != '`');
      QuoteEnd(AtomText(a, quote) + tail, quote, quote != '`') == SqlMask.Quoted(|AtomText(a, quote)| + q.length, q.closed)
  {
    hide QuoteEnd;
    var text := AtomText(a, quote);
    var s := text + tail;
    QuoteHead(s, quote, quote != '`');
    assert s[|text|..] == tail && s[0] == text[0] && (|text| > 1 ==> s[1] == text[1]);
  }

  lemma {:induction false} AtomsClose(body: seq<Atom>, quote: char, rest: string)
    requires quote in "'\"`" && forall i | 0 <= i < |body| :: IsAtom(body[i], quote)
    requires rest == [] || rest[0] != quote
    ensures QuoteEnd(AtomsText(body, quote) + ([quote] + rest), quote, quote != '`')
         == SqlMask.Quoted(|AtomsText(body, quote)| + 1, true)
  {
    hide QuoteEnd, IsAtom, AtomText;
    var end := [quote] + rest;
    if body == [] {
      QuoteHead(end, quote, quote != '`');
      assert AtomsText(body, quote) + end == end;
    } else {
      AtomsClose(body[1..], quote, rest);
      var more := AtomsText(body[1..], quote);
      AtomGoesOn(body[0], quote, more + end);
      Associate(AtomText(body[0], quote), more, end);
    }
  }

  lemma {:induction false} MarksClose(marks: seq<Mark>, depth: nat, rest: string)
    requires AreMarks(marks, depth)
    ensures BlockEnd(MarksText(marks) + rest, depth) == |MarksText(marks)|
    decreases |marks|
  {
    var s := MarksText(marks) + rest;
    if marks != [] {
      var n := if marks[0].Char? then 1 else 2;
      assert s[n..] == MarksText(marks[1..]) + rest;
      match marks[0]
      case Open => MarksClose(marks[1..], depth + 1, rest);
      case Close => MarksClose(marks[1..], depth - 1, rest);
      case Char(c) => MarksClose(marks[1..], depth, rest);
    }
  }

  predicate IsOneToken(u: Unicode, prev: Option<char>, p: Piece, rest: string) {
    PieceText(p) != [] && NextToken(u, prev, PieceText(p) + rest) == Token(|PieceText(p)|, PieceMask(p))
  }

  lemma QuotedIsOneToken(u: Unicode, prev: Option<char>, p: Piece, rest: string)
    requires p.Quoted? && IsPiece(p) && Fits(u, prev, p, rest)
    ensures IsOneToken(u, prev, p, rest)
  {
    hide QuoteEnd, AtomsText;
    AtomsClose(p.atoms, p.quote, rest);
    var s := PieceText(p) + rest;
    assert s[1..] == AtomsText(p.atoms, p.quote) + ([p.quote] + rest) && s[0] == p.quote;
    assert s[..|PieceText(p)|] == PieceText(p);
  }

  lemma BlockIsOneToken(u: Unicode, prev: Option<char>, p: Piece, rest: string)
    requires p.BlockComment? && IsPiece(p)
    ensures IsOneToken(u, prev, p, rest)
  {
    hide BlockEnd, MarksText, AreMarks;
    MarksClose(p.marks, 1, rest);
    var s := PieceText(p) + rest;
    assert s[2..] == MarksText(p.marks) + rest && s[0] == '/' && s[1] == '*';
  }

  lemma LineIsOneToken(u: Unicode, prev: Option<char>, p: Piece, rest: string)
    requires p.LineComment? && IsPiece(p) && Fits(u, prev, p, rest)
    ensures IsOneToken(u, prev, p, rest)
  {
    hide Index;
    var text := p.text;
    var s := text + rest;
    LineEnds(text[1..], rest);
    assert s[1..] == text[1..] + rest && s[0] == text[0] && (|text| > 1 ==> s[1] == text[1]);
  }

  lemma LineEnds(text: string, rest: string)
    requires '\n' !in text && (rest == [] || rest[0] == '\n')
    ensures Index(text + rest, "\n") == if rest == [] then -1 else |text|
  {
    hide Index;
    var s := text + rest;
    IndexIsFirst(s, "\n");
    forall k | 0 <= k < |text| ensures !OccursAt(s, "\n", k) { assert s[k..k + 1] == [text[k]]; }
    if rest != [] {
      assert s[|text|..|text| + 1] == "\n";
      assert OccursAt(s, "\n", |text|);
    } else {
      assert s == text;
    }
  }

  lemma DollarIsOneToken(u: Unicode, prev: Option<char>, p: Piece, rest: string)
    requires p.Dollar? && IsPiece(p)
    ensures IsOneToken(u, prev, p, rest)
  {
    hide Index, DollarMask.DelimiterLength, IsName, ClosesLast;
    var d := "$" + p.tag + "$";
    var after := p.body + d + rest;
    TagIsDelimiter(p.tag);
    BodyCloses(p.body, d, rest);
    assert PieceText(p) + rest == d + after;
    DollarMask.LiteralIsOneStep(d, after);
    DelimiterIsRead(d, after);
  }

  lemma DelimiterIsRead(d: string, after: string)
    requires DollarMask.IsDelimiter(d)
    ensures DollarMask.DelimiterLength(d + after) == |d| && (d + after)[0] == '$'
  {
    assert (d + after)[..|d|] == d;
    DollarMask.DelimiterLengthIsExact(d + after, |d|);
  }

  lemma TagIsDelimiter(tag: string)
    requires tag == [] || IsName(tag)
    ensures DollarMask.IsDelimiter("$" + tag + "$")
  {
    var d := "$" + tag + "$";
    assert forall i | 1 <= i < |d| - 1 :: d[i] == tag[i - 1];
  }

  lemma BodyCloses(body: string, d: string, rest: string)
    requires ClosesLast(body, d)
    ensures Index(body + d + rest, d) == |body|
  {
    hide Index;
    var s := body + d + rest;
    IndexIsFirst(s, d);
    assert s[|body|..|body| + |d|] == d;
    assert OccursAt(s, d, |body|);
    forall k | 0 <= k < |body| ensures !OccursAt(s, d, k) {
      assert !OccursAt(body + d, d, k);
      assert s[k..k + |d|] == (body + d)[k..k + |d|];
    }
  }

  lemma ParameterIsOneToken(u: Unicode, prev: Option<char>, p: Piece, rest: string)
    requires p.Parameter? && IsPiece(p) && Fits(u, prev, p, rest)
    ensures IsOneToken(u, prev, p, rest)
  {
    hide ParameterLength, DollarMask.DelimiterLength;
    ParameterIsRead(p.digits, rest);
    var s := PieceText(p) + rest;
    assert s[..|PieceText(p)|] == PieceText(p) && s[0] == '$';
  }

  lemma ParameterIsRead(digits: string, rest: string)
    requires digits != [] && All(digits, IsDigit) && (rest == [] || !IsDigit(rest[0]))
    ensures var s := "$" + digits + rest; ParameterLength(s) == 1 + |digits| && DollarMask.DelimiterLength(s) == 0
  {
    hide Run;
    var s := "$" + digits + rest;
    assert s[1..] == digits + rest && s[1] == digits[0];
    RunOfAll(digits, rest, Decimal);
  }

  lemma PercentIsOneToken(u: Unicode, prev: Option<char>, p: Piece, rest: string)
    requires p.Percent? && IsPiece(p)
    ensures IsOneToken(u, prev, p, rest)
  {
    hide PercentLength;
    PercentIsRead(p.name, rest);
    var s := PieceText(p) + rest;
    assert s[..|PieceText(p)|] == PieceText(p) && s[0] == '%';
  }

  lemma PercentIsRead(name: string, rest: string)
    requires name == [] || IsName(name)
    ensures var text := PieceText(Percent(name)); PercentLength(text + rest) == |text|
  {
    hide DollarMask.TagLength, IsName;
    var s := PieceText(Percent(name)) + rest;
    if name != [] {
      assert s[2..] == name + (")s" + rest);
      NameIsRead(name, ")s" + rest);
      assert s[2] == name[0] && s[2 + |name|] == ')' && s[3 + |name|] == 's';
    }
  }

  lemma NameIsRead(name: string, rest: string)
    requires IsName(name) && rest != [] && rest[0] == ')'
    ensures DollarMask.TagLength(name + rest) == |name| && DollarMask.IsTagStart(name[0])
  {
    TagLengthIsRun(name + rest);
    RunOfAll(name, rest, DollarMask.IsTagPart);
  }

  lemma KeptIsOneToken(u: Unicode, prev: Option<char>, p: Piece, rest: string)
    requires IsPython(u) && p.Kept? && IsPiece(p) && Fits(u, prev, p, rest)
    ensures IsOneToken(u, prev, p, rest)
  {
    hide DollarMask.DelimiterLength, NumberLength, Index, Run, DollarMask.TagLength, IsPython;
    var s := [p.c] + rest;
    assert s[1..] == rest;
    NothingOpens(p.c, rest);
  }

  lemma NothingOpens(c: char, rest: string)
    requires StaysOne(c, rest)
    ensures var s := [c] + rest;
      DollarMask.DelimiterLength(s) == 0 && ParameterLength(s) == 0 && PercentLength(s) == 0
  {
    hide Run, DollarMask.TagLength, DollarMask.DelimiterLength;
    var s := [c] + rest;
    assert s[1..] == rest;
    NoRunOfDigits(rest);
    NamedIsNamed(c, rest);
    var k := DollarMask.DelimiterLength(s);
    if k > 0 {
      DollarMask.DelimiterLengthFindsDelimiter(s);
      DelimiterHoldsName(s, k);
    }
  }

  lemma NamedIsNamed(c: char, rest: string)
    ensures var k := PercentLength([c] + rest); k > 2 ==>
      c == '%' && 1 < k - 3 < |rest| - 1 && rest[0] == '(' && IsName(rest[1..k - 3]) && rest[k - 3] == ')' && rest[k - 2] == 's'
  {
    var s := [c] + rest;
    if |s| > 2 {
      assert s[2..] == rest[1..];
      assert forall i | 1 <= i < |rest| :: rest[1..][i - 1] == rest[i];
    }
  }

  lemma NoRunOfDigits(s: string)
    ensures s == [] || !IsDigit(s[0]) ==> Run(s, Decimal) == 0
  {
  }

  lemma DelimiterHoldsName(s: string, k: nat)
    requires k <= |s| && DollarMask.IsDelimiter(s[..k])
    ensures k >= 2 && s[0] == '$' && s[1..][k - 2] == '$' && (k > 2 ==> IsName(s[1..][..k - 2]))
  {
    var d, name := s[..k], s[1..][..k - 2];
    assert d[0] == s[0] && d[k - 1] == s[k - 1] == s[1..][k - 2];
    forall i | 0 <= i < |name| ensures DollarMask.IsTagPart(name[i]) && (i == 0 ==> DollarMask.IsTagStart(name[i])) {
      assert name[i] == s[i + 1] == d[i + 1];
    }
  }

  lemma DroppedIsOneToken(u: Unicode, prev: Option<char>, p: Piece, rest: string)
    requires p.Dropped? && IsPiece(p) && Fits(u, prev, p, rest)
    ensures IsOneToken(u, prev, p, rest)
  {
    hide NumberLength;
    NoNumber([p.c] + rest);
  }

  /** Each piece is one token, masked as it should be, whatever stands around it. */
  lemma PieceIsOneToken(u: Unicode, prev: Option<char>, p: Piece, rest: string)
    requires IsPython(u) && IsPiece(p) && Fits(u, prev, p, rest)
    ensures IsOneToken(u, prev, p, rest)
  {
    hide NextToken, NumeralText, IsNumeral, EndsBefore, IsOneToken, StaysOne, IsName, AreMarks;
    match p
    case Kept(_) => KeptIsOneToken(u, prev, p, rest);
    case Dropped(_) => DroppedIsOneToken(u, prev, p, rest);
    case Number(n) => NumberPieceIsOneToken(u, prev, p, rest);
    case Quoted(_, _) => QuotedIsOneToken(u, prev, p, rest);
    case BlockComment(_) => BlockIsOneToken(u, prev, p, rest);
    case LineComment(_) => LineIsOneToken(u, prev, p, rest);
    case Dollar(_, _) => DollarIsOneToken(u, prev, p, rest);
    case Parameter(_) => ParameterIsOneToken(u, prev, p, rest);
    case Percent(_) => PercentIsOneToken(u, prev, p, rest);
  }

  lemma NumberPieceIsOneToken(u: Unicode, prev: Option<char>, p: Piece, rest: string)
    requires IsPython(u) && p.Number? && IsPiece(p) && Fits(u, prev, p, rest)
    ensures IsOneToken(u, prev, p, rest)
  {
    hide NextToken, NumeralText, IsNumeral, EndsBefore;
    NumberOpens(p.numeral, rest);
    NumberIsOneToken(u, prev, p.numeral, rest);
  }

  function PiecesText(pieces: seq<Piece>): string {
    if pieces == [] then [] else PieceText(pieces[0]) + PiecesText(pieces[1..])
  }

  function PiecesMask(pieces: seq<Piece>): string {
    if pieces == [] then [] else PieceMask(pieces[0]) + PiecesMask(pieces[1..])
  }

  /** The last character of a text, or the one before it if it is empty. */
  function LastOf(prev: Option<char>, s: string): Option<char> { if s == [] then prev else Some(s[|s| - 1]) }

  /** Every piece stands where it is read as it is meant. */
  predicate AllFit(u: Unicode, prev: Option<char>, pieces: seq<Piece>)
    decreases |pieces|
  {
    pieces == [] ||
      (var p, rest := pieces[0], PiecesText(pieces[1..]);
       IsPiece(p) && Fits(u, prev, p, rest) && AllFit(u, LastOf(prev, PieceText(p)), pieces[1..]))
  }

  /** The scan of a statement written out in pieces masks every literal, number and comment, keeps every name and
      parameter, and leaves the rest as it is. */
  lemma {:induction false} ScanOfPieces(u: Unicode, prev: Option<char>, pieces: seq<Piece>)
    requires IsPython(u) && AllFit(u, prev, pieces)
    ensures Scan(u, prev, PiecesText(pieces)) == PiecesMask(pieces)
    decreases |pieces|
  {
    hide NextToken, Scan, IsPiece, Fits, PieceText, PieceMask, IsPython;
    if pieces == [] {
      ScanOfNothing(u, prev);
    } else {
      var p, rest := pieces[0], PiecesText(pieces[1..]);
      var text := PieceText(p);
      PieceIsOneToken(u, prev, p, rest);
      ScanStep(u, prev, text + rest);
      assert (text + rest)[|text|..] == rest && (text + rest)[|text| - 1] == text[|text| - 1];
      ScanOfPieces(u, LastOf(prev, text), pieces[1..]);
    }
  }

  // ---- White space ---------------------------------------------------------------------------------

  /** The runs of characters between the white space. */
  function Words(u: Unicode, s: string): (words: seq<string>)
    ensures s != [] && !u.space(s[0]) ==> words != []
  {
    if s == [] then []
    else if u.space(s[0]) then Words(u, s[1..])
    else if |s| == 1 || u.space(s[1]) then [[s[0]]] + Words(u, s[1..])
    else var words := Words(u, s[1..]); [[s[0]] + words[0]] + words[1..]
  }

  predicate IsWord(u: Unicode, w: string) { w != [] && forall i | 0 <= i < |w| :: !u.space(w[i]) }

  lemma {:induction false} WordsAreWords(u: Unicode, s: string)
    ensures forall i | 0 <= i < |Words(u, s)| :: IsWord(u, Words(u, s)[i])
  {
    if s != [] { WordsAreWords(u, s[1..]); }
  }

  /** Nothing but white space between the words: joined, they are the text without it. */
  lemma {:induction false} WordsHoldAll(u: Unicode, s: string)
    ensures Together(Words(u, s)) == Without(u, s)
  {
    if s != [] {
      WordsHoldAll(u, s[1..]);
      var words := Words(u, s[1..]);
      if !u.space(s[0]) && |s| > 1 && !u.space(s[1]) {
        Associate([s[0]], words[0], Together(words[1..]));
      }
    }
  }

  function Together(words: seq<string>): string { if words == [] then [] else words[0] + Together(words[1..]) }

  function Without(u: Unicode, s: string): string {
    if s == [] then [] else (if u.space(s[0]) then [] else [s[0]]) + Without(u, s[1..])
  }

  lemma {:induction false} RunOfSpace(u: Unicode, s: string)
    ensures var rest := s[Run(s, u.space)..];
      && Words(u, s) == Words(u, rest) && (rest == [] || !u.space(rest[0]))
      && (rest == [] && s != [] ==> u.space(s[|s| - 1]))
  {
    if s != [] && u.space(s[0]) {
      RunOfSpace(u, s[1..]);
      DropTwice(s, 1, Run(s[1..], u.space));
    } else {
      assert s[0..] == s;
    }
  }

  function Lead(u: Unicode, s: string): string { if s != [] && u.space(s[0]) then " " else "" }

  function Trail(u: Unicode, s: string): string {
    if s != [] && u.space(s[|s| - 1]) && Words(u, s) != [] then " " else ""
  }

  lemma {:induction false} NoWords(u: Unicode, s: string)
    requires Words(u, s) == [] && s != []
    ensures u.space(s[0]) && u.space(s[|s| - 1])
  {
    if |s| > 1 { NoWords(u, s[1..]); }
  }

  lemma JoinHead(word: string, words: seq<string>)
    ensures Join([word] + words, ' ') == if words == [] then word else word + " " + Join(words, ' ')
  {
    assert ([word] + words)[1..] == words;
  }

  lemma JoinFirst(words: seq<string>, c: char)
    requires words != []
    ensures Join([[c] + words[0]] + words[1..], ' ') == [c] + Join(words, ' ')
    ensures Join([[c]] + words, ' ') == [c] + (" " + Join(words, ' '))
  {
    hide Join;
    var word, rest := words[0], words[1..];
    var tail := Join(rest, ' ');
    assert words == [word] + rest;
    JoinHead(word, rest);
    JoinHead([c] + word, rest);
    JoinHead([c], words);
    Associate([c], word, " " + tail);
    Associate(word, " ", tail);
    Associate([c] + word, " ", tail);
    Associate([c], " ", Join(words, ' '));
  }

  /** Collapsing leaves the words with one space between them, and at most one at either end. */
  lemma {:induction false} CollapseIsJoin(u: Unicode, s: string)
    ensures Collapse(u, s) == Lead(u, s) + (Join(Words(u, s), ' ') + Trail(u, s))
    decreases |s|
  {
    if s == [] {
    } else if u.space(s[0]) {
      var n := Run(s, u.space);
      var rest := s[n..];
      RunOfSpace(u, s);
      CollapseIsJoin(u, rest);
      assert rest != [] ==> rest[|rest| - 1] == s[|s| - 1];
    } else {
      var t := s[1..];
      CollapseIsJoin(u, t);
      OneMoreChar(u, s);
    }
  }

  /** The words of a text with one more character, in the middle of a word or as a new one. */
  lemma WordsOfMore(u: Unicode, s: string)
    requires s != [] && !u.space(s[0])
    ensures var words := Words(u, s[1..]);
      Words(u, s) == if Lead(u, s[1..]) == "" && words != [] then [[s[0]] + words[0]] + words[1..] else [[s[0]]] + words
    ensures Lead(u, s) == "" && (Words(u, s[1..]) != [] ==> Trail(u, s) == Trail(u, s[1..]))
    ensures Words(u, s[1..]) == [] ==>
      Trail(u, s[1..]) == "" && Trail(u, s) == Lead(u, s[1..])
  {
    var t := s[1..];
    if Words(u, t) == [] && t != [] { NoWords(u, t); }
  }

  lemma OneMoreChar(u: Unicode, s: string)
    requires s != [] && !u.space(s[0])
    ensures var t := s[1..];
      [s[0]] + (Lead(u, t) + (Join(Words(u, t), ' ') + Trail(u, t))) == Lead(u, s) + (Join(Words(u, s), ' ') + Trail(u, s))
  {
    hide Words, Trail, Join;
    var t := s[1..];
    var words := Words(u, t);
    var c, joined, trail := [s[0]], Join(words, ' '), Trail(u, t);
    WordsOfMore(u, s);
    if words == [] {
      JoinOne(c);
      assert [c] + words == [c];
      assert Lead(u, t) + ("" + "") == Lead(u, t) && "" + (c + Trail(u, s)) == c + Trail(u, s);
    } else {
      JoinFirst(words, s[0]);
      var more := if Lead(u, t) == "" then joined else " " + joined;
      Associate(Lead(u, t), joined, trail);
      Associate(c, more, trail);
      assert Lead(u, t) + joined == more;
    }
  }

  lemma JoinOne(w: string)
    ensures Join([w], ' ') == w && Join([], ' ') == ""
  {
  }

  lemma {:induction false} JoinEnds(u: Unicode, words: seq<string>)
    requires words != [] && forall i | 0 <= i < |words| :: IsWord(u, words[i])
    ensures var t := Join(words, ' '); t != [] && !u.space(t[0]) && !u.space(t[|t| - 1])
  {
    if |words| > 1 { JoinEnds(u, words[1..]); }
  }

  /** re.sub and strip together: the words of the text, with one space between them and nothing around them. */
  lemma StripIsJoin(u: Unicode, s: string)
    requires u.space(' ')
    ensures Strip(u, Collapse(u, s)) == Join(Words(u, s), ' ')
  {
    hide Join, Collapse, Words, Strip, IsWord;
    var t := Join(Words(u, s), ' ');
    CollapseIsJoin(u, s);
    WordsAreWords(u, s);
    if Words(u, s) == [] {
      NothingJoined();
      StripSpaces(u);
      assert Lead(u, s) + ("" + "") == Lead(u, s);
    } else {
      JoinEnds(u, Words(u, s));
      StripEnds(u, Lead(u, s), t, Trail(u, s));
    }
  }

  lemma NothingJoined()
    ensures Join([], ' ') == ""
  {
  }

  lemma StripSpaces(u: Unicode)
    requires u.space(' ')
    ensures Strip(u, "") == "" && Strip(u, " ") == ""
  {
  }

  lemma StripEnds(u: Unicode, lead: string, t: string, trail: string)
    requires u.space(' ') && (lead == "" || lead == " ") && (trail == "" || trail == " ")
    requires t != [] && !u.space(t[0]) && !u.space(t[|t| - 1])
    ensures Strip(u, lead + (t + trail)) == t
  {
    StripTrail(u, t, trail);
    if lead == "" {
      assert lead + (t + trail) == t + trail;
    } else {
      assert (lead + (t + trail))[1..] == t + trail;
    }
  }

  lemma StripTrail(u: Unicode, t: string, trail: string)
    requires u.space(' ') && (trail == "" || trail == " ")
    requires t != [] && !u.space(t[0]) && !u.space(t[|t| - 1])
    ensures Strip(u, t + trail) == t
  {
    var s := t + trail;
    if trail == "" { assert s == t; } else { assert s[..|s| - 1] == t && s[0] == t[0]; }
  }

  /** The whole of sql_mask on a statement written out in pieces: the words of its mask, one space between them. */
  lemma MaskOfPieces(u: Unicode, pieces: seq<Piece>)
    requires IsPython(u) && AllFit(u, None, pieces)
    ensures Masked(u, PiecesText(pieces)) ==
      if |PiecesText(pieces)| > 32768 then "[statement omitted]" else Join(Words(u, PiecesMask(pieces)), ' ')
  {
    hide Scan, Collapse, Strip, PiecesText, PiecesMask, AllFit, Join, Words;
    ScanOfPieces(u, None, pieces);
    StripIsJoin(u, PiecesMask(pieces));
  }
}
