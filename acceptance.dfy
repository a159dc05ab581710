/**
 * What the grammar refuses. Every text the grammar accepts has as many
 * `(` as `)` and an even number of `"`, so an unbalanced query is a
 * `QueryParseError` in both parse functions and `validate_query` is false
 * for it; the remaining rejections of the translator's tests are traced
 * through the rules that stop short of the end of the input.
 */
module Acceptance {
  import opened Wrappers
  import opened CharClasses
  import opened Strings
  import opened ParseTree
  import opened Grammar
  import opened QueryBuilder
  import opened Lucene

  /** Opening minus closing parentheses. */
  function Depth(s: string): int {
    var opens: int := multiset(s)['('];
    opens - multiset(s)[')']
  }

  /** The number of double quotes. */
  function Quotes(s: string): nat {
    multiset(s)['"']
  }

  predicate Balanced(s: string) {
    Depth(s) == 0 && Quotes(s) % 2 == 0
  }

  /** No parenthesis and no double quote. */
  predicate Plain(s: string) {
    forall i :: 0 <= i < |s| ==> s[i] != '(' && s[i] != ')' && s[i] != '"'
  }

  lemma CountsAppend(a: string, b: string)
    ensures Depth(a + b) == Depth(a) + Depth(b)
    ensures Quotes(a + b) == Quotes(a) + Quotes(b)
  {
    assert multiset(a + b) == multiset(a) + multiset(b);
  }

  lemma BalancedAppend(a: string, b: string)
    requires Balanced(a) && Balanced(b)
    ensures Balanced(a + b)
  {
    CountsAppend(a, b);
  }

  lemma PlainBalanced(s: string)
    requires Plain(s)
    ensures Balanced(s)
  {
    PlainCounts(s);
  }

  lemma PlainCounts(s: string)
    requires Plain(s)
    ensures Depth(s) == 0 && Quotes(s) == 0
  {
    assert '(' !in s && ')' !in s && '"' !in s;
  }

  lemma PlainAppend(a: string, b: string)
    requires Plain(a) && Plain(b)
    ensures Plain(a + b)
  {
    assert forall i :: 0 <= i < |a + b| ==> (a + b)[i] == if i < |a| then a[i] else b[i - |a|];
  }

  lemma CharCounts(c: char)
    ensures Depth([c]) == (if c == '(' then 1 else if c == ')' then -1 else 0)
    ensures Quotes([c]) == if c == '"' then 1 else 0
  {
    assert multiset([c]) == multiset{c};
  }

  lemma TokenPlain(s: string)
    requires IsLiteral(s) || IsFieldName(s) || IsNumber(s) || IsSpaceRun(s)
    ensures Plain(s)
  {
    forall i | 0 <= i < |s| ensures s[i] != '(' && s[i] != ')' && s[i] != '"' {
      ClassFacts(s[i]);
      if IsNumber(s) {
        var n := Span(s, IsDigit);
        if i != n {
          assert IsDigit(s[i]);
        }
      }
    }
  }

  lemma TermPlain(t: Term)
    requires WfTerm(t)
    ensures Plain(TermText(t))
  {
    TokenPlain(t.literal);
    var suffix := TermSuffixText(t.suffix);
    assert Plain(suffix) by {
      if t.suffix.Some? && t.suffix.value.TermFuzziness? && t.suffix.value.fuzziness.digit.Some? {
        ClassFacts(t.suffix.value.fuzziness.digit.value);
      }
    }
    OptionalBoostPlain(t.boost);
    PlainAppend(t.literal, suffix);
    PlainAppend(t.literal + suffix, OptionalBoostText(t.boost));
  }

  lemma OptionalBoostPlain(b: Option<Boost>)
    requires WfBoost(b)
    ensures Plain(OptionalBoostText(b))
  {
    if b.Some? {
      TokenPlain(b.value.number);
      PlainAppend("^", b.value.number);
    }
  }

  lemma {:induction false} WordsPlain(w: Words)
    requires WfWords(w)
    ensures Plain(WordsText(w))
  {
    match w
    case LastWord(l) =>
      TokenPlain(l);
    case MoreWords(l, sp, rest) =>
      TokenPlain(l);
      TokenPlain(sp);
      WordsPlain(rest);
      PlainAppend(l, sp);
      PlainAppend(l + sp, WordsText(rest));
  }

  lemma PhraseSuffixPlain(x: Option<PhraseSuffix>)
    requires WfPhraseSuffix(x)
    ensures Plain(PhraseSuffixText(x))
  {
    match x
    case None =>
    case Some(PhraseBoost(b)) =>
      OptionalBoostPlain(Some(b));
    case Some(PhraseFuzziness(f)) =>
      if f.digit.Some? {
        ClassFacts(f.digit.value);
      }
  }

  /** A phrase holds exactly its two quotes. */
  lemma PhraseCounts(p: Phrase)
    requires WfPhrase(p)
    ensures Depth(PhraseText(p)) == 0 && Quotes(PhraseText(p)) == 2
  {
    var words, suffix := WordsText(p.words), PhraseSuffixText(p.suffix);
    WordsPlain(p.words);
    PhraseSuffixPlain(p.suffix);
    PlainCounts(words);
    PlainCounts(suffix);
    CharCounts('"');
    CountsAppend("\"", words);
    CountsAppend("\"" + words, "\"");
    CountsAppend("\"" + words + "\"", suffix);
  }

  lemma RangePlain(r: Range)
    requires WfRange(r)
    ensures Plain(RangeText(r))
  {
    var lo, hi := RangeValueText(r.lower), RangeValueText(r.upper);
    if r.lower.BoundValue? {
      TermPlain(r.lower.term);
    }
    if r.upper.BoundValue? {
      TermPlain(r.upper.term);
    }
    TokenPlain(r.space1);
    TokenPlain(r.space2);
    var open, close := RangeOpen(r.inclusive), RangeClose(r.inclusive);
    PlainAppend(open, lo);
    PlainAppend(open + lo, r.space1);
    PlainAppend(open + lo + r.space1, "TO");
    PlainAppend(open + lo + r.space1 + "TO", r.space2);
    PlainAppend(open + lo + r.space1 + "TO" + r.space2, hi);
    PlainAppend(open + lo + r.space1 + "TO" + r.space2 + hi, close);
  }

  lemma {:induction false} QueryBalanced(q: Query)
    requires WfQuery(q)
    ensures Balanced(QueryText(q))
  {
    match q
    case LastClause(c) =>
      ClauseBalanced(c);
    case MoreClauses(c, sp, rest) =>
      ClauseBalanced(c);
      QueryBalanced(rest);
      TokenPlain(sp);
      PlainBalanced(sp);
      BalancedAppend(ClauseText(c), sp);
      BalancedAppend(ClauseText(c) + sp, QueryText(rest));
  }

  lemma {:induction false} ClauseBalanced(c: Clause)
    requires WfClause(c)
    ensures Balanced(ClauseText(c))
  {
    var op := OperatorText(c.operator);
    assert Plain(op);
    PlainBalanced(op);
    BodyBalanced(c.body);
    BalancedAppend(op, ClauseBodyText(c.body));
  }

  lemma {:induction false} BodyBalanced(b: ClauseBody)
    requires WfClauseBody(b)
    ensures Balanced(ClauseBodyText(b))
  {
    match b
    case EmptyFieldClause(f) =>
      FieldPrefixBalanced(f);
    case FieldedClause(f, v) =>
      FieldPrefixBalanced(f);
      ValueBalanced(v);
      BalancedAppend(f + ":", ValueText(v));
    case BareClause(v) =>
      ValueBalanced(v);
  }

  lemma FieldPrefixBalanced(f: string)
    requires IsFieldName(f)
    ensures Balanced(f + ":")
  {
    TokenPlain(f);
    PlainAppend(f, ":");
    PlainBalanced(f + ":");
  }

  lemma {:induction false} ValueBalanced(v: Value)
    requires WfValue(v)
    ensures Balanced(ValueText(v))
  {
    match v
    case TermValue(t) =>
      TermPlain(t);
      PlainBalanced(TermText(t));
    case PhraseValue(p) =>
      PhraseCounts(p);
    case BooleanClause(q) =>
      QueryBalanced(q);
      GroupBalanced(QueryText(q));
    case RangeClause(r) =>
      RangePlain(r);
      PlainBalanced(RangeText(r));
  }

  lemma GroupBalanced(s: string)
    requires Balanced(s)
    ensures Balanced("(" + s + ")")
  {
    CharCounts('(');
    CharCounts(')');
    CountsAppend("(", s);
    CountsAppend("(" + s, ")");
  }

  /** Whatever `validate_query` accepts is balanced once stripped. */
  lemma AcceptedIsBalanced(query: string)
    ensures ValidateQuery(query) ==> Balanced(Strip(query))
  {
    ParsedIsBalanced(Strip(query));
  }

  lemma ParsedIsBalanced(text: string)
    ensures Parse(text).Some? ==> Balanced(text)
  {
    var p := Parse(text);
    if p.Some? {
      QueryBalanced(p.value);
    }
  }

  /** An unbalanced query is refused by the parser, whatever the mapping. */
  lemma UnbalancedRejected(query: string, fields: map<string, string>, raw: set<string>)
    requires !Balanced(Strip(query))
    ensures RunGrammar(query, fields, raw) == Failure(QueryParseError)
    ensures ParseQuery(query) == Failure(QueryParseError)
    ensures !ValidateQuery(query)
  {
    AcceptedIsBalanced(query);
  }

  /** The unbalanced quotes and parentheses of the translator's tests:
      `"foo`, `bar"`, `(foo` and `bar)`. */
  lemma UnbalancedExamples(s: string)
    requires s == "\"foo" || s == "bar\"" || s == "(foo" || s == "bar)"
    ensures ParseQuery(s) == Failure(QueryParseError) && !ValidateQuery(s)
  {
    FooBar();
    if s == "\"foo" {
      assert s == ['"'] + "foo";
      StrayCharacter('"', "foo", true);
    } else if s == "bar\"" {
      assert s == "bar" + ['"'];
      StrayCharacter('"', "bar", false);
    } else if s == "(foo" {
      assert s == ['('] + "foo";
      StrayCharacter('(', "foo", true);
    } else {
      assert s == "bar" + [')'];
      StrayCharacter(')', "bar", false);
    }
  }

  lemma FooBar()
    ensures IsLiteral("foo") && IsLiteral("bar")
    ensures IsFieldName("foo") && IsFieldName("bar")
  {
    ClassFacts('f');
    ClassFacts('o');
    ClassFacts('b');
    ClassFacts('a');
    ClassFacts('r');
  }

  /** A word with one quote or parenthesis in front of it or behind it. */
  lemma StrayCharacter(c: char, w: string, before: bool)
    requires c == '"' || c == '(' || c == ')'
    requires IsLiteral(w)
    ensures var s := if before then [c] + w else w + [c];
      ParseQuery(s) == Failure(QueryParseError) && !ValidateQuery(s)
  {
    var s := if before then [c] + w else w + [c];
    assert !Balanced(Strip(s)) by {
      StrayUnbalanced(c, w, before);
      StrayStripped(c, w, before);
    }
    UnbalancedRejected(s, map[], {});
  }

  lemma StrayUnbalanced(c: char, w: string, before: bool)
    requires c == '"' || c == '(' || c == ')'
    requires IsLiteral(w)
    ensures !Balanced(if before then [c] + w else w + [c])
  {
    TokenPlain(w);
    PlainCounts(w);
    CharCounts(c);
    if before {
      CountsAppend([c], w);
    } else {
      CountsAppend(w, [c]);
    }
  }

  lemma StrayStripped(c: char, w: string, before: bool)
    requires c == '"' || c == '(' || c == ')'
    requires IsLiteral(w)
    ensures var s := if before then [c] + w else w + [c];
      Strip(s) == s
  {
    var s := if before then [c] + w else w + [c];
    ClassFacts(c);
    ClassFacts(w[0]);
    ClassFacts(w[|w| - 1]);
    assert !IsSpace(s[0]) && !IsSpace(s[|s| - 1]);
  }

  // ---------------------------------------------------------------------
  // Rejections traced through the rules.

  /** A stripped text the grammar does not take whole is a parse error. */
  lemma ParserRejects(s: string)
    requires Strip(s) == s && Parse(s).None?
    ensures ParseQuery(s) == Failure(QueryParseError) && !ValidateQuery(s)
  {
  }

  /** A clause that stops before a character no rule continues with: the
      query ends there and does not reach the end of the text. */
  lemma StopsShort(s: string, c: Clause, r: string)
    requires MatchClause(s) == Matched(c, r)
    requires r != [] && !IsSpace(r[0])
    ensures Parse(s).None?
  {
    assert MatchQuery(s) == Matched(LastClause(c), r);
  }

  /** A text with no whitespace at either end whose first clause stops
      short is refused by both `parse_query` and `validate_query`. */
  lemma ClauseLeavesRest(s: string, c: Clause, r: string)
    requires SolidEnds(s)
    requires MatchClause(s) == Matched(c, r)
    requires r != [] && !IsSpace(r[0])
    ensures ParseQuery(s) == Failure(QueryParseError) && !ValidateQuery(s)
  {
    StopsShort(s, c, r);
    ParserRejects(s);
  }

  /** A clause with no operator, no field and the value `v`. */
  lemma BareClauseOf(s: string, v: Value, r: string)
    requires s != [] && !IsOperator(s[0])
    requires MatchEmptyFieldClause(s).NoMatch? && MatchFieldedClause(s).NoMatch?
    requires MatchBareValue(s) == Matched(v, r)
    ensures MatchClause(s) == Matched(Clause(None, BareClause(v)), r)
  {
    assert MatchOptionalOperator(s) == Matched(None, s);
    ClauseParts(s);
  }

  /** A term is the first alternative of a bare value. */
  lemma BareTermOf(s: string, t: Term, r: string)
    requires MatchTerm(s) == Matched(t, r)
    ensures MatchBareValue(s) == Matched(TermValue(t), r)
  {
    BareValueParts(s);
  }

  /** A field name is a literal that starts with neither whitespace nor an operator. */
  lemma FieldNameIsLiteral(f: string)
    requires IsFieldName(f)
    ensures IsLiteral(f) && !IsSpace(f[0]) && !IsOperator(f[0])
  {
    forall i | 0 <= i < |f| ensures IsLiteralChar(f[i]) {
      ClassFacts(f[i]);
    }
    ClassFacts(f[0]);
  }

  lemma LiteralAppend(a: string, b: string)
    requires IsLiteral(a) && IsLiteral(b)
    ensures IsLiteral(a + b)
  {
    assert forall i :: 0 <= i < |a + b| ==> (a + b)[i] == if i < |a| then a[i] else b[i - |a|];
  }

  /** A literal followed by a quote is a term with no suffix and no boost. */
  lemma LiteralBeforeQuote(l: string, r: string)
    requires IsLiteral(l) && r != [] && r[0] == '"'
    ensures MatchTerm(l + r) == Matched(Term(l, None, None), r)
  {
    assert !IsLiteralChar('"') by { ClassFacts('"'); }
    MatchLiteralOf(l, r);
    assert MatchTermSuffix(r) == Matched(None, r);
    assert MatchOptionalBoost(r) == Matched(None, r);
  }

  /** No rule continues a clause at a quote. */
  lemma QuoteIsSolid()
    ensures !IsSpace('"')
  {
    ClassFacts('"');
  }

  /** A field name followed by `x` offers no empty-field and no fielded reading
      when `x` is not a colon before a value or before the end of a line. */
  lemma NotFielded(s: string, f: string, x: string)
    requires IsFieldName(f) && s == f + x && x != []
    requires !IsFieldChar(x[0])
    requires x[0] == ':' ==> |x| > 1 && x[1] != '\n' && MatchFieldValue(x[1..]).NoMatch?
    ensures MatchEmptyFieldClause(s).NoMatch? && MatchFieldedClause(s).NoMatch?
  {
    MatchFieldNameOf(f, x);
    EmptyFieldOf(s);
    FieldedParts(s);
  }

  /** A bare term `t` at the start of a text that begins with a field name. */
  lemma BareTermClause(s: string, f: string, t: Term, r: string)
    requires IsFieldName(f) && |f| <= |s| && s[..|f|] == f
    requires MatchEmptyFieldClause(s).NoMatch? && MatchFieldedClause(s).NoMatch?
    requires MatchTerm(s) == Matched(t, r)
    ensures MatchClause(s) == Matched(Clause(None, BareClause(TermValue(t))), r)
  {
    FieldNameIsLiteral(f);
    assert s[0] == f[0];
    BareTermOf(s, t, r);
    BareClauseOf(s, TermValue(t), r);
  }

  // ---------------------------------------------------------------------
  // Hyphenated field names: `publisher-number:"G.H."`.

  /** A hyphen ends a field name, so `f-g:` is one bare literal and the
      quoted text after it starts no new clause: the query is refused. */
  lemma HyphenatedFieldRejected(f: string, g: string, r: string)
    requires IsFieldName(f) && IsFieldName(g)
    requires r != [] && r[0] == '"' && r[|r| - 1] == '"'
    ensures var s := f + "-" + g + ":" + r;
      ParseQuery(s) == Failure(QueryParseError) && !ValidateQuery(s)
  {
    var s := f + "-" + g + ":" + r;
    assert SolidEnds(s) by {
      FieldNameIsLiteral(f);
      QuoteIsSolid();
      assert s[0] == f[0] && s[|s| - 1] == '"';
    }
    HyphenatedStopsShort(f, g, r);
    ParserRejects(s);
  }

  lemma HyphenatedStopsShort(f: string, g: string, r: string)
    requires IsFieldName(f) && IsFieldName(g)
    requires r != [] && r[0] == '"'
    ensures Parse(f + "-" + g + ":" + r).None?
  {
    var s := f + "-" + g + ":" + r;
    assert !IsSpace(r[0]) by { QuoteIsSolid(); }
    HyphenatedClause(f, g, r);
    StopsShort(s, Clause(None, BareClause(TermValue(Term(f + "-" + g + ":", None, None)))), r);
  }

  lemma HyphenatedClause(f: string, g: string, r: string)
    requires IsFieldName(f) && IsFieldName(g)
    requires r != [] && r[0] == '"'
    ensures MatchClause(f + "-" + g + ":" + r) == Matched(Clause(None, BareClause(TermValue(Term(f + "-" + g + ":", None, None)))), r)
  {
    var l := f + "-" + g + ":";
    var s := l + r;
    assert IsLiteral(l) by {
      FieldNameIsLiteral(f);
      FieldNameIsLiteral(g);
      LiteralAppend(f, "-");
      LiteralAppend(f + "-", g);
      LiteralAppend(f + "-" + g, ":");
    }
    assert s[..|f|] == f;
    HyphenatedNotFielded(f, g, r);
    LiteralBeforeQuote(l, r);
    BareTermClause(s, f, Term(l, None, None), r);
  }

  lemma HyphenatedNotFielded(f: string, g: string, r: string)
    requires IsFieldName(f)
    ensures var s := f + "-" + g + ":" + r;
      MatchEmptyFieldClause(s).NoMatch? && MatchFieldedClause(s).NoMatch?
  {
    var x := "-" + g + ":" + r;
    assert f + "-" + g + ":" + r == f + x;
    ClassFacts('-');
    NotFielded(f + x, f, x);
  }

  /** The translator's own example. */
  lemma HyphenatedFieldExample(s: string)
    requires s == "publisher-number:\"G.H.\""
    ensures ParseQuery(s) == Failure(QueryParseError) && !ValidateQuery(s)
  {
    var f, g, r := "publisher", "number", "\"G.H.\"";
    assert IsFieldName(f) && IsFieldName(g) by {
      forall i | 0 <= i < |f| ensures IsFieldChar(f[i]) { ClassFacts(f[i]); }
      forall i | 0 <= i < |g| ensures IsFieldChar(g[i]) { ClassFacts(g[i]); }
    }
    assert s == f + "-" + g + ":" + r;
    HyphenatedFieldRejected(f, g, r);
  }

  // ---------------------------------------------------------------------
  // Wildcards inside a phrase: `series:"1234*"`.

  /** A phrase holds no wildcard, so `f:"n*"` has no fielded reading;
      `f:` is a bare literal and the quote after it starts no new clause. */
  lemma PhraseWildcardRejected(f: string, n: string)
    requires IsFieldName(f) && IsLiteral(n)
    ensures var s := f + ":" + ("\"" + n + "*\"");
      ParseQuery(s) == Failure(QueryParseError) && !ValidateQuery(s)
  {
    var r := "\"" + n + "*\"";
    var s := f + ":" + r;
    assert SolidEnds(s) by {
      FieldNameIsLiteral(f);
      QuoteIsSolid();
      assert s[0] == f[0] && s[|s| - 1] == '"';
    }
    PhraseWildcardStopsShort(f, n, r);
    ParserRejects(s);
  }

  lemma PhraseWildcardStopsShort(f: string, n: string, r: string)
    requires IsFieldName(f) && IsLiteral(n) && r == "\"" + n + "*\""
    ensures Parse(f + ":" + r).None?
  {
    assert !IsSpace(r[0]) by { QuoteIsSolid(); }
    PhraseWildcardClause(f, n, r);
    StopsShort(f + ":" + r, Clause(None, BareClause(TermValue(Term(f + ":", None, None)))), r);
  }

  lemma PhraseWildcardClause(f: string, n: string, r: string)
    requires IsFieldName(f) && IsLiteral(n) && r == "\"" + n + "*\""
    ensures MatchClause(f + ":" + r) == Matched(Clause(None, BareClause(TermValue(Term(f + ":", None, None)))), r)
  {
    var l := f + ":";
    var s := l + r;
    assert IsLiteral(l) by {
      FieldNameIsLiteral(f);
      LiteralAppend(f, ":");
    }
    assert s[..|f|] == f;
    PhraseWildcardNotFielded(f, n, r);
    LiteralBeforeQuote(l, r);
    BareTermClause(s, f, Term(l, None, None), r);
  }

  lemma PhraseWildcardNotFielded(f: string, n: string, r: string)
    requires IsFieldName(f) && IsLiteral(n) && r == "\"" + n + "*\""
    ensures MatchEmptyFieldClause(f + ":" + r).NoMatch? && MatchFieldedClause(f + ":" + r).NoMatch?
  {
    var x := ":" + r;
    assert f + ":" + r == f + x && x[1..] == r && x[1] == '"';
    PhraseWithWildcard(n, r);
    ClassFacts(':');
    NotFielded(f + x, f, x);
  }

  /** No value starts `"n*"`. */
  lemma PhraseWithWildcard(n: string, r: string)
    requires IsLiteral(n) && r == "\"" + n + "*\""
    ensures MatchFieldValue(r).NoMatch?
  {
    PhraseStops(r, n, "*\"");
    OnlyPhraseAtQuote(r);
    FieldValueParts(r);
  }

  /** A phrase whose words run into a `*` is no phrase. */
  lemma PhraseStops(r: string, n: string, y: string)
    requires IsLiteral(n) && y != [] && y[0] == '*'
    requires r != [] && r[0] == '"' && r[1..] == n + y
    ensures MatchPhrase(r).NoMatch?
  {
    PhraseWordsStop(n, y);
  }

  /** The words of a phrase end at a `*`. */
  lemma PhraseWordsStop(n: string, y: string)
    requires IsLiteral(n) && y != [] && y[0] == '*'
    ensures MatchWords(n + y) == Matched(LastWord(n), y)
  {
    assert !IsLiteralChar('*') && !IsSpace('*') by { ClassFacts('*'); }
    MatchLiteralOf(n, y);
    assert MatchWhitespace(y).NoMatch?;
  }

  /** At a quote, only the phrase alternative of a value can match. */
  lemma OnlyPhraseAtQuote(r: string)
    requires r != [] && r[0] == '"'
    ensures MatchTerm(r).NoMatch? && MatchRangeClause(r).NoMatch? && MatchBooleanClause(r).NoMatch?
  {
    assert !IsLiteralChar('"') by { ClassFacts('"'); }
  }

  /** The translator's own example. */
  lemma PhraseWildcardExample(s: string)
    requires s == "series:\"1234*\""
    ensures ParseQuery(s) == Failure(QueryParseError) && !ValidateQuery(s)
  {
    var f, n := "series", "1234";
    assert IsFieldName(f) by {
      forall i | 0 <= i < |f| ensures IsFieldChar(f[i]) { ClassFacts(f[i]); }
    }
    assert IsLiteral(n) by {
      forall i | 0 <= i < |n| ensures IsLiteralChar(n[i]) { ClassFacts(n[i]); }
    }
    assert s == f + ":" + ("\"" + n + "*\"");
    PhraseWildcardRejected(f, n);
  }

  // ---------------------------------------------------------------------
  // A run of single wildcards: `fo?????`.

  /** One `?` binds to the term before it, and nothing takes the next. */
  lemma WildcardsRejected(f: string, q: string)
    requires IsFieldName(f)
    requires |q| >= 2 && forall i :: 0 <= i < |q| ==> q[i] == '?'
    ensures ParseQuery(f + q) == Failure(QueryParseError) && !ValidateQuery(f + q)
  {
    var s := f + q;
    assert SolidEnds(s) by {
      FieldNameIsLiteral(f);
      ClassFacts('?');
      assert s[0] == f[0] && s[|s| - 1] == '?';
    }
    WildcardsStopShort(f, q);
    ParserRejects(s);
  }

  lemma WildcardsStopShort(f: string, q: string)
    requires IsFieldName(f)
    requires |q| >= 2 && forall i :: 0 <= i < |q| ==> q[i] == '?'
    ensures Parse(f + q).None?
  {
    assert q[1..][0] == '?' && !IsSpace('?') by { ClassFacts('?'); }
    WildcardsClause(f, q);
    StopsShort(f + q, Clause(None, BareClause(TermValue(Term(f, Some(TermWildcard(WildcardSingle)), None)))), q[1..]);
  }

  lemma WildcardsClause(f: string, q: string)
    requires IsFieldName(f)
    requires |q| >= 2 && forall i :: 0 <= i < |q| ==> q[i] == '?'
    ensures MatchClause(f + q) == Matched(Clause(None, BareClause(TermValue(Term(f, Some(TermWildcard(WildcardSingle)), None)))), q[1..])
  {
    var s := f + q;
    assert s[..|f|] == f;
    WildcardsNotFielded(f, q);
    WildcardTerm(f, q);
    BareTermClause(s, f, Term(f, Some(TermWildcard(WildcardSingle)), None), q[1..]);
  }

  lemma WildcardsNotFielded(f: string, q: string)
    requires IsFieldName(f) && q != [] && q[0] == '?'
    ensures MatchEmptyFieldClause(f + q).NoMatch? && MatchFieldedClause(f + q).NoMatch?
  {
    ClassFacts('?');
    NotFielded(f + q, f, q);
  }

  lemma WildcardTerm(f: string, q: string)
    requires IsFieldName(f)
    requires |q| >= 2 && q[0] == '?' && q[1] == '?'
    ensures MatchTerm(f + q) == Matched(Term(f, Some(TermWildcard(WildcardSingle)), None), q[1..])
  {
    FieldNameIsLiteral(f);
    ClassFacts('?');
    MatchLiteralOf(f, q);
    assert MatchTermSuffix(q) == Matched(Some(TermWildcard(WildcardSingle)), q[1..]);
    assert MatchOptionalBoost(q[1..]) == Matched(None, q[1..]);
  }

  /** The translator's own example. */
  lemma WildcardsExample(s: string)
    requires s == "fo?????"
    ensures ParseQuery(s) == Failure(QueryParseError) && !ValidateQuery(s)
  {
    var f, q := "fo", "?????";
    assert IsFieldName(f) by { ClassFacts('f'); ClassFacts('o'); }
    assert s == f + q;
    WildcardsRejected(f, q);
  }
}
