/**
 * The query grammar as a recursive-descent PEG parser over a string. Each
 * rule is a function from the remaining input to the node it matched and
 * the input left over; ordered choice tries the alternatives in the
 * grammar's order and keeps the first that matches, repetition and
 * optional parts are greedy, and a regular-expression token takes the
 * longest prefix its character class allows with no backtracking into it.
 */
module Grammar {
  import opened Wrappers
  import opened CharClasses
  import opened Strings
  import opened ParseTree

  /** What trying a rule at the start of the input gives: the node it
      matched and the input after it, or no match. */
  datatype ParseResult<+T> = NoMatch | Matched(tree: T, rest: string)

  /** Two consecutive matches together match their concatenation. */
  lemma Chain(s: string, a: string, s1: string, b: string, s2: string)
    requires s == a + s1 && s1 == b + s2
    ensures s == a + b + s2
  {
    AppendAssoc(a, b, s2);
  }

  /** A text that opens with `open`, continues with `t`, then `close`, is
      the three of them followed by what is left. */
  lemma Enclosed(s: string, open: char, t: string, close: char, s1: string)
    requires s != [] && s[0] == open && s[1..] == t + s1
    requires s1 != [] && s1[0] == close
    ensures s == [open] + t + [close] + s1[1..]
  {
    calc {
      s;
      [s[0]] + s[1..];
      [open] + (t + ([s1[0]] + s1[1..]));
    }
    AppendAssoc([open], t, [close] + s1[1..]);
    AppendAssoc([open] + t, [close], s1[1..]);
  }

  /** `whitespace = ~r"\s+"` */
  function MatchWhitespace(s: string): (r: ParseResult<string>)
    ensures r.Matched? ==> IsSpaceRun(r.tree) && s == r.tree + r.rest && (r.rest == [] || !IsSpace(r.rest[0]))
    ensures r.NoMatch? <==> s == [] || !IsSpace(s[0])
  {
    var n := Span(s, IsSpace);
    if n == 0 then NoMatch else Matched(s[..n], s[n..])
  }

  /** `literal = ~r"[\w.,!:;@\^\-/\|]+"` */
  function MatchLiteral(s: string): (r: ParseResult<string>)
    ensures r.Matched? ==> IsLiteral(r.tree) && s == r.tree + r.rest && (r.rest == [] || !IsLiteralChar(r.rest[0]))
    ensures r.NoMatch? <==> s == [] || !IsLiteralChar(s[0])
  {
    var n := Span(s, IsLiteralChar);
    if n == 0 then NoMatch else Matched(s[..n], s[n..])
  }

  /** `field_name = ~r"[a-zA-Z_][a-zA-Z0-9_]*"` */
  function MatchFieldName(s: string): (r: ParseResult<string>)
    ensures r.Matched? ==> IsFieldName(r.tree) && s == r.tree + r.rest && (r.rest == [] || !IsFieldChar(r.rest[0]))
    ensures r.NoMatch? <==> s == [] || !IsFieldStart(s[0])
  {
    if s != [] && IsFieldStart(s[0]) then
      var n := 1 + Span(s[1..], IsFieldChar);
      Matched(s[..n], s[n..])
    else
      NoMatch
  }

  /** The literal rule reads back a literal followed by a non-literal character. */
  lemma MatchLiteralOf(l: string, r: string)
    requires IsLiteral(l) && (r == [] || !IsLiteralChar(r[0]))
    ensures MatchLiteral(l + r) == Matched(l, r)
  {
    SpanAfter(l, r, IsLiteralChar);
    assert (l + r)[..|l|] == l && (l + r)[|l|..] == r;
  }

  /** The field-name rule reads back a field name followed by a character
      that cannot continue it. */
  lemma MatchFieldNameOf(f: string, r: string)
    requires IsFieldName(f) && (r == [] || !IsFieldChar(r[0]))
    ensures MatchFieldName(f + r) == Matched(f, r)
  {
    var s := f + r;
    assert s[1..] == f[1..] + r;
    SpanAfter(f[1..], r, IsFieldChar);
    assert s[..|f|] == f && s[|f|..] == r;
  }

  /** What may follow a number the rule matched: no digit, and no dot
      then digit unless the number already has its fraction. */
  predicate NumberEnds(number: string, rest: string) {
    && (rest == [] || !IsDigit(rest[0]))
    && (Span(number, IsDigit) == |number| ==> !(|rest| > 1 && rest[0] == '.' && IsDigit(rest[1])))
  }

  /** `number = ~r"[0-9]+(\.[0-9]+)?"`: the fraction is taken only when a
      digit follows the dot. */
  function MatchNumber(s: string): (r: ParseResult<string>)
    ensures r.Matched? ==> IsNumber(r.tree) && s == r.tree + r.rest && NumberEnds(r.tree, r.rest)
    ensures r.NoMatch? <==> s == [] || !IsDigit(s[0])
  {
    var n := Span(s, IsDigit);
    if n == 0 then
      NoMatch
    else if n + 1 < |s| && s[n] == '.' && IsDigit(s[n + 1]) then
      var m := n + 1 + Span(s[n + 1..], IsDigit);
      NumberWithFraction(s, n, m);
      Matched(s[..m], s[m..])
    else
      NumberWhole(s, n);
      Matched(s[..n], s[n..])
  }

  lemma NumberWhole(s: string, n: nat)
    requires n == Span(s, IsDigit) && n > 0
    requires !(n + 1 < |s| && s[n] == '.' && IsDigit(s[n + 1]))
    ensures IsNumber(s[..n]) && s == s[..n] + s[n..] && NumberEnds(s[..n], s[n..])
  {
    assert Span(s[..n], IsDigit) == n by { SpanIs(s[..n], IsDigit, n); }
  }

  lemma NumberWithFraction(s: string, n: nat, m: nat)
    requires n == Span(s, IsDigit) && n > 0
    requires n + 1 < |s| && s[n] == '.' && IsDigit(s[n + 1])
    requires m == n + 1 + Span(s[n + 1..], IsDigit)
    ensures m <= |s| && IsNumber(s[..m]) && s == s[..m] + s[m..] && NumberEnds(s[..m], s[m..])
  {
    var t := s[n + 1..];
    var k := Span(t, IsDigit);
    assert k >= 1 by { assert t[0] == s[n + 1]; }
    var number := s[..m];
    assert Span(number, IsDigit) == n by {
      forall i | 0 <= i < n ensures IsDigit(number[i]) { assert number[i] == s[i]; }
      assert number[n] == '.';
      SpanIs(number, IsDigit, n);
    }
    assert forall i :: n < i < m ==> IsDigit(number[i]) by {
      forall i | n < i < m ensures IsDigit(number[i]) { assert number[i] == t[i - n - 1]; }
    }
    assert IsNumber(number);
    assert s[m..] == [] || !IsDigit(s[m..][0]) by {
      if m < |s| { assert s[m..][0] == t[k]; }
    }
    assert s == number + s[m..];
  }

  /** The number rule reads back a number followed by what cannot extend it. */
  lemma MatchNumberOf(number: string, r: string)
    requires IsNumber(number) && NumberEnds(number, r)
    ensures MatchNumber(number + r) == Matched(number, r)
  {
    var s := number + r;
    var n := Span(number, IsDigit);
    assert forall i :: 0 <= i < |number| ==> s[i] == number[i];
    if n == |number| {
      assert Span(s, IsDigit) == n by { SpanIs(s, IsDigit, n); }
      assert s[..n] == number && s[n..] == r;
    } else {
      assert Span(s, IsDigit) == n by { SpanIs(s, IsDigit, n); }
      var t := s[n + 1..];
      assert t == number[n + 1..] + r;
      assert Span(t, IsDigit) == |number| - n - 1 by { SpanIs(t, IsDigit, |number| - n - 1); }
      assert s[..|number|] == number && s[|number|..] == r;
    }
  }

  /** `boost = "^" number` */
  function MatchBoost(s: string): (r: ParseResult<Boost>)
    ensures r.Matched? ==> WfBoost(Some(r.tree)) && s == BoostText(r.tree) + r.rest
  {
    if s != [] && s[0] == '^' then
      match MatchNumber(s[1..])
      case NoMatch => NoMatch
      case Matched(n, rest) => Matched(Boost(n), rest)
    else
      NoMatch
  }

  /** `fuzziness = "~" digit?` */
  function MatchFuzziness(s: string): (r: ParseResult<Fuzziness>)
    ensures r.Matched? ==> WfFuzziness(r.tree) && s == FuzzinessText(r.tree) + r.rest
  {
    if s != [] && s[0] == '~' then
      if |s| > 1 && IsDigit(s[1]) then Matched(Fuzziness(Some(s[1])), s[2..])
      else Matched(Fuzziness(None), s[1..])
    else
      NoMatch
  }

  /** `wildcard = wildcard_multiple / wildcard_single`, that is `"*" / "?"` */
  function MatchWildcard(s: string): (r: ParseResult<Wildcard>)
    ensures r.Matched? ==> s == WildcardText(r.tree) + r.rest
  {
    if s != [] && s[0] == '*' then Matched(WildcardMultiple, s[1..])
    else if s != [] && s[0] == '?' then Matched(WildcardSingle, s[1..])
    else NoMatch
  }

  /** `(wildcard / fuzziness)?`: always matches, possibly nothing. */
  function MatchTermSuffix(s: string): (r: ParseResult<Option<TermSuffix>>)
    ensures r.Matched? && s == TermSuffixText(r.tree) + r.rest
    ensures r.tree.Some? && r.tree.value.TermFuzziness? ==> WfFuzziness(r.tree.value.fuzziness)
  {
    match MatchWildcard(s)
    case Matched(w, rest) => Matched(Some(TermWildcard(w)), rest)
    case NoMatch =>
      match MatchFuzziness(s)
      case Matched(f, rest) => Matched(Some(TermFuzziness(f)), rest)
      case NoMatch => Matched(None, s)
  }

  /** `boost?`: always matches, possibly nothing. */
  function MatchOptionalBoost(s: string): (r: ParseResult<Option<Boost>>)
    ensures r.Matched? && WfBoost(r.tree) && s == OptionalBoostText(r.tree) + r.rest
  {
    match MatchBoost(s)
    case Matched(b, rest) => Matched(Some(b), rest)
    case NoMatch => Matched(None, s)
  }

  /** `term = literal (wildcard / fuzziness)? boost?` */
  function MatchTerm(s: string): (r: ParseResult<Term>)
    ensures r.Matched? ==> WfTerm(r.tree) && s == TermText(r.tree) + r.rest
    ensures r.NoMatch? <==> s == [] || !IsLiteralChar(s[0])
  {
    match MatchLiteral(s)
    case NoMatch => NoMatch
    case Matched(lit, s1) =>
      var suffix := MatchTermSuffix(s1);
      var boost := MatchOptionalBoost(suffix.rest);
      Chain(s, lit, s1, TermSuffixText(suffix.tree), suffix.rest);
      Chain(s, lit + TermSuffixText(suffix.tree), suffix.rest, OptionalBoostText(boost.tree), boost.rest);
      Matched(Term(lit, suffix.tree, boost.tree), boost.rest)
  }

  /** `literal (whitespace literal)*` */
  function MatchWords(s: string): (r: ParseResult<Words>)
    ensures r.Matched? ==> WfWords(r.tree) && s == WordsText(r.tree) + r.rest
    decreases |s|
  {
    match MatchLiteral(s)
    case NoMatch => NoMatch
    case Matched(lit, s1) =>
      match MatchWhitespace(s1)
      case NoMatch => Matched(LastWord(lit), s1)
      case Matched(sp, s2) =>
        match MatchWords(s2)
        case NoMatch => Matched(LastWord(lit), s1)
        case Matched(w, s3) =>
          Chain(s, lit, s1, sp, s2);
          Chain(s, lit + sp, s2, WordsText(w), s3);
          Matched(MoreWords(lit, sp, w), s3)
  }

  /** `(boost / fuzziness)?`: always matches, possibly nothing. */
  function MatchPhraseSuffix(s: string): (r: ParseResult<Option<PhraseSuffix>>)
    ensures r.Matched? && WfPhraseSuffix(r.tree) && s == PhraseSuffixText(r.tree) + r.rest
  {
    match MatchBoost(s)
    case Matched(b, rest) => Matched(Some(PhraseBoost(b)), rest)
    case NoMatch =>
      match MatchFuzziness(s)
      case Matched(f, rest) => Matched(Some(PhraseFuzziness(f)), rest)
      case NoMatch => Matched(None, s)
  }

  /** `phrase = '"' literal (whitespace literal)* '"' (boost / fuzziness)?` */
  function MatchPhrase(s: string): (r: ParseResult<Phrase>)
    ensures r.Matched? ==> WfPhrase(r.tree) && s == PhraseText(r.tree) + r.rest
  {
    if s != [] && s[0] == '"' then
      match MatchWords(s[1..])
      case NoMatch => NoMatch
      case Matched(w, s1) =>
        if s1 != [] && s1[0] == '"' then
          var suffix := MatchPhraseSuffix(s1[1..]);
          Enclosed(s, '"', WordsText(w), '"', s1);
          Chain(s, "\"" + WordsText(w) + "\"", s1[1..], PhraseSuffixText(suffix.tree), suffix.rest);
          Matched(Phrase(w, suffix.tree), suffix.rest)
        else
          NoMatch
    else
      NoMatch
  }

  /** `range_value = wildcard_multiple / term` */
  function MatchRangeValue(s: string): (r: ParseResult<RangeValue>)
    ensures r.Matched? ==> WfRangeValue(r.tree) && s == RangeValueText(r.tree) + r.rest
  {
    if s != [] && s[0] == '*' then
      Matched(AnyValue, s[1..])
    else
      match MatchTerm(s)
      case NoMatch => NoMatch
      case Matched(t, rest) => Matched(BoundValue(t), rest)
  }

  /** The part of a range after "TO": whitespace, range_value, closing bracket. */
  function MatchRangeUpper(s: string, inclusive: bool): (r: ParseResult<(string, RangeValue)>)
    ensures r.Matched? ==>
      IsSpaceRun(r.tree.0) && WfRangeValue(r.tree.1)
      && s == r.tree.0 + RangeValueText(r.tree.1) + RangeClose(inclusive) + r.rest
  {
    match MatchWhitespace(s)
    case NoMatch => NoMatch
    case Matched(sp, s1) =>
      match MatchRangeValue(s1)
      case NoMatch => NoMatch
      case Matched(upper, s2) =>
        if s2 != [] && s2[0] == RangeClose(inclusive)[0] then
          assert s2 == RangeClose(inclusive) + s2[1..];
          Chain(s, sp, s1, RangeValueText(upper), s2);
          Chain(s, sp + RangeValueText(upper), s2, RangeClose(inclusive), s2[1..]);
          Matched((sp, upper), s2[1..])
        else
          NoMatch
  }

  /** A range bound and the whitespace after it. */
  function MatchBoundThenSpace(s: string): (r: ParseResult<(RangeValue, string)>)
    ensures r.Matched? ==>
      WfRangeValue(r.tree.0) && IsSpaceRun(r.tree.1) && s == RangeValueText(r.tree.0) + r.tree.1 + r.rest
  {
    match MatchRangeValue(s)
    case NoMatch => NoMatch
    case Matched(bound, s1) =>
      match MatchWhitespace(s1)
      case NoMatch => NoMatch
      case Matched(sp, s2) =>
        Chain(s, RangeValueText(bound), s1, sp, s2);
        Matched((bound, sp), s2)
  }

  lemma LowerText(s: string, open: string, v: string, sp: string, s1: string)
    requires |open| == 1 && s != [] && s[0] == open[0] && s[1..] == v + sp + s1
    requires |s1| >= 2 && s1[0] == 'T' && s1[1] == 'O'
    ensures s == open + v + sp + "TO" + s1[2..]
  {
    assert s == open + s[1..];
    assert s1 == "TO" + s1[2..];
    Chain(s, open, s[1..], v + sp, s1);
    Chain(s, open + (v + sp), s1, "TO", s1[2..]);
    AppendAssoc(open, v, sp);
  }

  /** The part of a range up to "TO": opening bracket, range_value, whitespace, "TO". */
  function MatchRangeLower(s: string, inclusive: bool): (r: ParseResult<(RangeValue, string)>)
    ensures r.Matched? ==>
      WfRangeValue(r.tree.0) && IsSpaceRun(r.tree.1)
      && s == RangeOpen(inclusive) + RangeValueText(r.tree.0) + r.tree.1 + "TO" + r.rest
  {
    if s != [] && s[0] == RangeOpen(inclusive)[0] then
      match MatchBoundThenSpace(s[1..])
      case NoMatch => NoMatch
      case Matched(lower, s1) =>
        if |s1| >= 2 && s1[0] == 'T' && s1[1] == 'O' then
          LowerText(s, RangeOpen(inclusive), RangeValueText(lower.0), lower.1, s1);
          Matched(lower, s1[2..])
        else
          NoMatch
    else
      NoMatch
  }

  /** `range_inclusive` when `inclusive`, otherwise `range_exclusive`:
      bracket, range_value, whitespace, "TO", whitespace, range_value, bracket. */
  function MatchRangeWith(s: string, inclusive: bool): (r: ParseResult<Range>)
    ensures r.Matched? ==> WfRange(r.tree) && r.tree.inclusive == inclusive && s == RangeText(r.tree) + r.rest
  {
    match MatchRangeLower(s, inclusive)
    case NoMatch => NoMatch
    case Matched(lower, s1) =>
      match MatchRangeUpper(s1, inclusive)
      case NoMatch => NoMatch
      case Matched(upper, s2) =>
        var range := Range(inclusive, lower.0, lower.1, upper.0, upper.1);
        RangeTextSplit(range, s, s1, s2);
        Matched(range, s2)
  }

  lemma RangeTextSplit(r: Range, s: string, s1: string, s2: string)
    requires s == RangeOpen(r.inclusive) + RangeValueText(r.lower) + r.space1 + "TO" + s1
    requires s1 == r.space2 + RangeValueText(r.upper) + RangeClose(r.inclusive) + s2
    ensures s == RangeText(r) + s2
  {
    var head := RangeOpen(r.inclusive) + RangeValueText(r.lower) + r.space1 + "TO";
    var a, b, c := r.space2, RangeValueText(r.upper), RangeClose(r.inclusive);
    AppendAssoc(head, a + b + c, s2);
    AppendAssoc(head, a + b, c);
    AppendAssoc(head, a, b);
  }

  /** `range_clause = range_inclusive / range_exclusive` */
  function MatchRangeClause(s: string): (r: ParseResult<Range>)
    ensures r.Matched? ==> WfRange(r.tree) && s == RangeText(r.tree) + r.rest
  {
    match MatchRangeWith(s, true)
    case Matched(range, rest) => Matched(range, rest)
    case NoMatch => MatchRangeWith(s, false)
  }

  /** `query = clause (whitespace clause)*` */
  function MatchQuery(s: string): (r: ParseResult<Query>)
    ensures r.Matched? ==> |r.rest| < |s|
    decreases |s|, 5
  {
    match MatchClause(s)
    case NoMatch => NoMatch
    case Matched(c, s1) =>
      match MatchWhitespace(s1)
      case NoMatch => Matched(LastClause(c), s1)
      case Matched(sp, s2) =>
        match MatchQuery(s2)
        case NoMatch => Matched(LastClause(c), s1)
        case Matched(q, s3) => Matched(MoreClauses(c, sp, q), s3)
  }

  /** `optional_operator?`: always matches, possibly nothing. */
  function MatchOptionalOperator(s: string): (r: ParseResult<Option<char>>)
    ensures r.Matched? && WfOperator(r.tree) && s == OperatorText(r.tree) + r.rest
  {
    if s != [] && IsOperator(s[0]) then Matched(Some(s[0]), s[1..]) else Matched(None, s)
  }

  /** `clause = optional_operator? (empty_field_clause / fielded_clause / term_or_phrase / boolean_clause / range_clause)` */
  function MatchClause(s: string): (r: ParseResult<Clause>)
    ensures r.Matched? ==> |r.rest| < |s|
    decreases |s|, 4
  {
    var op := MatchOptionalOperator(s);
    match MatchEmptyFieldClause(op.rest)
    case Matched(f, s1) => Matched(Clause(op.tree, EmptyFieldClause(f)), s1)
    case NoMatch =>
      match MatchFieldedClause(op.rest)
      case Matched(body, s1) => Matched(Clause(op.tree, body), s1)
      case NoMatch =>
        match MatchBareValue(op.rest)
        case Matched(v, s1) => Matched(Clause(op.tree, BareClause(v)), s1)
        case NoMatch => NoMatch
  }

  /** `empty_field_clause = field_name ":" !~r"."`: the lookahead succeeds at
      the end of the input and before a newline, which `.` does not match. */
  function MatchEmptyFieldClause(s: string): (r: ParseResult<string>)
    ensures r.Matched? ==> IsFieldName(r.tree) && s == r.tree + ":" + r.rest && (r.rest == [] || r.rest[0] == '\n')
  {
    match MatchFieldName(s)
    case NoMatch => NoMatch
    case Matched(f, s1) =>
      if s1 != [] && s1[0] == ':' && (|s1| == 1 || s1[1] == '\n') then
        assert s1 == ":" + s1[1..];
        Chain(s, f, s1, ":", s1[1..]);
        Matched(f, s1[1..])
      else
        NoMatch
  }

  /** `fielded_clause = field_name ":" (term / phrase / range_clause / boolean_clause)` */
  function MatchFieldedClause(s: string): (r: ParseResult<ClauseBody>)
    ensures r.Matched? ==> r.tree.FieldedClause? && |r.rest| < |s|
    decreases |s|, 3
  {
    match MatchFieldName(s)
    case NoMatch => NoMatch
    case Matched(f, s1) =>
      if s1 != [] && s1[0] == ':' then
        match MatchFieldValue(s1[1..])
        case NoMatch => NoMatch
        case Matched(v, s2) => Matched(FieldedClause(f, v), s2)
      else
        NoMatch
  }

  /** The value of a fielded clause: `term / phrase / range_clause / boolean_clause` */
  function MatchFieldValue(s: string): (r: ParseResult<Value>)
    ensures r.Matched? ==> |r.rest| < |s|
    decreases |s|, 2
  {
    match MatchTerm(s)
    case Matched(t, rest) => Matched(TermValue(t), rest)
    case NoMatch =>
      match MatchPhrase(s)
      case Matched(p, rest) => Matched(PhraseValue(p), rest)
      case NoMatch =>
        match MatchRangeClause(s)
        case Matched(range, rest) => Matched(RangeClause(range), rest)
        case NoMatch =>
          match MatchBooleanClause(s)
          case Matched(q, rest) => Matched(BooleanClause(q), rest)
          case NoMatch => NoMatch
  }

  /** The body of a clause without a field: `term_or_phrase / boolean_clause / range_clause`,
      where `term_or_phrase = term / phrase`. */
  function MatchBareValue(s: string): (r: ParseResult<Value>)
    ensures r.Matched? ==> |r.rest| < |s|
    decreases |s|, 2
  {
    match MatchTerm(s)
    case Matched(t, rest) => Matched(TermValue(t), rest)
    case NoMatch =>
      match MatchPhrase(s)
      case Matched(p, rest) => Matched(PhraseValue(p), rest)
      case NoMatch =>
        match MatchBooleanClause(s)
        case Matched(q, rest) => Matched(BooleanClause(q), rest)
        case NoMatch =>
          match MatchRangeClause(s)
          case Matched(range, rest) => Matched(RangeClause(range), rest)
          case NoMatch => NoMatch
  }

  /** `boolean_clause = "(" query ")"` */
  function MatchBooleanClause(s: string): (r: ParseResult<Query>)
    ensures r.Matched? ==> |r.rest| < |s|
    decreases |s|, 1
  {
    if s != [] && s[0] == '(' then
      match MatchQuery(s[1..])
      case NoMatch => NoMatch
      case Matched(q, s1) =>
        if s1 != [] && s1[0] == ')' then Matched(q, s1[1..]) else NoMatch
    else
      NoMatch
  }

  // ---------------------------------------------------------------------
  // What the clause-level rules matched: a well-formed tree whose text is
  // exactly the input they consumed.

  lemma {:induction false} QueryReadsText(s: string)
    ensures MatchQuery(s).Matched? ==>
      WfQuery(MatchQuery(s).tree) && s == QueryText(MatchQuery(s).tree) + MatchQuery(s).rest
    decreases |s|, 5
  {
    ClauseReadsText(s);
    var c := MatchClause(s);
    if c.Matched? {
      var w := MatchWhitespace(c.rest);
      if w.Matched? {
        QueryReadsText(w.rest);
        var q := MatchQuery(w.rest);
        if q.Matched? {
          Chain(s, ClauseText(c.tree), c.rest, w.tree, w.rest);
          Chain(s, ClauseText(c.tree) + w.tree, w.rest, QueryText(q.tree), q.rest);
        }
      }
    }
  }

  lemma {:induction false} ClauseReadsText(s: string)
    ensures MatchClause(s).Matched? ==>
      WfClause(MatchClause(s).tree) && s == ClauseText(MatchClause(s).tree) + MatchClause(s).rest
    decreases |s|, 4
  {
    var op := MatchOptionalOperator(s);
    var x := op.rest;
    FieldedReadsText(x);
    BareValueReadsText(x);
    var e, b, v := MatchEmptyFieldClause(x), MatchFieldedClause(x), MatchBareValue(x);
    if e.Matched? {
      Chain(s, OperatorText(op.tree), x, e.tree + ":", e.rest);
    } else if b.Matched? {
      Chain(s, OperatorText(op.tree), x, ClauseBodyText(b.tree), b.rest);
    } else if v.Matched? {
      Chain(s, OperatorText(op.tree), x, ValueText(v.tree), v.rest);
    }
  }

  lemma {:induction false} FieldedReadsText(s: string)
    ensures MatchFieldedClause(s).Matched? ==>
      WfClauseBody(MatchFieldedClause(s).tree)
      && s == ClauseBodyText(MatchFieldedClause(s).tree) + MatchFieldedClause(s).rest
    decreases |s|, 3
  {
    var f := MatchFieldName(s);
    if f.Matched? && f.rest != [] && f.rest[0] == ':' {
      var s1 := f.rest;
      FieldValueReadsText(s1[1..]);
      var v := MatchFieldValue(s1[1..]);
      if v.Matched? {
        assert s1 == ":" + s1[1..];
        Chain(s, f.tree, s1, ":", s1[1..]);
        Chain(s, f.tree + ":", s1[1..], ValueText(v.tree), v.rest);
      }
    }
  }

  lemma {:induction false} FieldValueReadsText(s: string)
    ensures MatchFieldValue(s).Matched? ==>
      WfValue(MatchFieldValue(s).tree) && s == ValueText(MatchFieldValue(s).tree) + MatchFieldValue(s).rest
    decreases |s|, 2
  {
    BooleanClauseReadsText(s);
  }

  lemma {:induction false} BareValueReadsText(s: string)
    ensures MatchBareValue(s).Matched? ==>
      WfValue(MatchBareValue(s).tree) && s == ValueText(MatchBareValue(s).tree) + MatchBareValue(s).rest
    decreases |s|, 2
  {
    BooleanClauseReadsText(s);
  }

  lemma {:induction false} BooleanClauseReadsText(s: string)
    ensures MatchBooleanClause(s).Matched? ==>
      WfQuery(MatchBooleanClause(s).tree)
      && s == "(" + QueryText(MatchBooleanClause(s).tree) + ")" + MatchBooleanClause(s).rest
    decreases |s|, 1
  {
    if s != [] && s[0] == '(' {
      QueryReadsText(s[1..]);
      var q := MatchQuery(s[1..]);
      if q.Matched? && q.rest != [] && q.rest[0] == ')' {
        Enclosed(s, '(', QueryText(q.tree), ')', q.rest);
      }
    }
  }

  /** `lucene_query_grammar.parse(text)`: the tree of the query rule when it
      matches the whole text; there is no partial result. */
  function Parse(text: string): (r: Option<Query>)
    ensures r.Some? ==> WfQuery(r.value) && QueryText(r.value) == text
  {
    QueryReadsText(text);
    match MatchQuery(text)
    case Matched(q, rest) => if rest == [] then Some(q) else None
    case NoMatch => None
  }

  // ---------------------------------------------------------------------
  // The rules' alternatives as functions of the alternatives' results, so
  // that a proof can settle each alternative on its own.

  /** What follows the field name in an empty field clause: the colon, then
      the end of the input or a newline. */
  predicate EmptyTail(x: string) {
    x != [] && x[0] == ':' && (|x| == 1 || x[1] == '\n')
  }

  lemma EmptyFieldOf(s: string)
    ensures MatchEmptyFieldClause(s) ==
      var f := MatchFieldName(s);
      if f.Matched? && EmptyTail(f.rest) then Matched(f.tree, f.rest[1..]) else NoMatch
  {
  }

  /** A fielded clause from a field name and the result of its value. */
  function FieldedOf(f: string, v: ParseResult<Value>): ParseResult<ClauseBody> {
    if v.Matched? then Matched(FieldedClause(f, v.tree), v.rest) else NoMatch
  }

  lemma FieldedParts(s: string)
    ensures MatchFieldedClause(s) ==
      var f := MatchFieldName(s);
      if f.Matched? && f.rest != [] && f.rest[0] == ':' then FieldedOf(f.tree, MatchFieldValue(f.rest[1..]))
      else NoMatch
  {
  }

  /** The ordered choice of `clause` over its alternatives' results. */
  function ClauseChoice(op: Option<char>, e: ParseResult<string>, b: ParseResult<ClauseBody>,
                        v: ParseResult<Value>): ParseResult<Clause>
  {
    if e.Matched? then Matched(Clause(op, EmptyFieldClause(e.tree)), e.rest)
    else if b.Matched? then Matched(Clause(op, b.tree), b.rest)
    else if v.Matched? then Matched(Clause(op, BareClause(v.tree)), v.rest)
    else NoMatch
  }

  lemma ClauseParts(s: string)
    ensures MatchClause(s) ==
      var op := MatchOptionalOperator(s);
      ClauseChoice(op.tree, MatchEmptyFieldClause(op.rest), MatchFieldedClause(op.rest), MatchBareValue(op.rest))
  {
  }

  /** The ordered choice of `field_value` over its alternatives' results. */
  function FieldChoice(a: ParseResult<Term>, p: ParseResult<Phrase>, g: ParseResult<Range>,
                       b: ParseResult<Query>): ParseResult<Value>
  {
    if a.Matched? then Matched(TermValue(a.tree), a.rest)
    else if p.Matched? then Matched(PhraseValue(p.tree), p.rest)
    else if g.Matched? then Matched(RangeClause(g.tree), g.rest)
    else if b.Matched? then Matched(BooleanClause(b.tree), b.rest)
    else NoMatch
  }

  /** The ordered choice of `bare_value` over its alternatives' results. */
  function BareChoice(a: ParseResult<Term>, p: ParseResult<Phrase>, b: ParseResult<Query>,
                      g: ParseResult<Range>): ParseResult<Value>
  {
    if a.Matched? then Matched(TermValue(a.tree), a.rest)
    else if p.Matched? then Matched(PhraseValue(p.tree), p.rest)
    else if b.Matched? then Matched(BooleanClause(b.tree), b.rest)
    else if g.Matched? then Matched(RangeClause(g.tree), g.rest)
    else NoMatch
  }

  lemma FieldValueParts(s: string)
    ensures MatchFieldValue(s) == FieldChoice(MatchTerm(s), MatchPhrase(s), MatchRangeClause(s), MatchBooleanClause(s))
  {
  }

  lemma BareValueParts(s: string)
    ensures MatchBareValue(s) == BareChoice(MatchTerm(s), MatchPhrase(s), MatchBooleanClause(s), MatchRangeClause(s))
  {
  }

  /** The `"TO"` after a range's lower bound and its whitespace. */
  function AfterBound(b: ParseResult<(RangeValue, string)>): ParseResult<(RangeValue, string)> {
    match b
    case NoMatch => NoMatch
    case Matched(lower, s1) =>
      if |s1| >= 2 && s1[0] == 'T' && s1[1] == 'O' then Matched(lower, s1[2..]) else NoMatch
  }

  lemma RangeLowerParts(s: string, inclusive: bool)
    requires s != [] && s[0] == RangeOpen(inclusive)[0]
    ensures MatchRangeLower(s, inclusive) == AfterBound(MatchBoundThenSpace(s[1..]))
  {
  }
}
