/**
 * What the grammar accepts. A text "reads as" a node when the rule for
 * that node matches exactly that text, leaves whatever follows it, and
 * does so for every continuation that may follow such a node inside a
 * query. Terms, phrases and ranges read back as themselves; values build
 * fielded and signed clauses; clauses separated by whitespace build
 * queries; and a query in parentheses is a value again. A text that reads
 * as a query is accepted by all three entry points, and the theorems at the
 * end give the output for the shapes of the translator's round-trip tests.
 */
module Reading {
  import opened Wrappers
  import opened CharClasses
  import opened Strings
  import opened ParseTree
  import opened Grammar
  import opened QueryBuilder
  import opened Normalisation
  import opened Lucene

  /** What may follow a term without changing how it is read: the end,
      whitespace, or a closing parenthesis or bracket. */
  predicate TermEnd(r: string) {
    r == [] || IsSpace(r[0]) || r[0] == ')' || r[0] == ']' || r[0] == '}'
  }

  /** What may follow a clause: the end, whitespace, or the parenthesis
      closing its group. */
  predicate ClauseEnd(r: string) {
    r == [] || IsSpace(r[0]) || r[0] == ')'
  }

  /** What may follow a whole query: the end, or the parenthesis closing
      its group. */
  predicate QueryEnd(r: string) {
    r == [] || r[0] == ')'
  }

  lemma EndFacts(r: string)
    requires TermEnd(r) && r != []
    ensures !IsLiteralChar(r[0]) && !IsFieldChar(r[0]) && !IsDigit(r[0])
    ensures r[0] != '*' && r[0] != '?' && r[0] != '~' && r[0] != '^' && r[0] != '.'
  {
    ClassFacts(r[0]);
  }

  /** The whitespace rule reads back a whitespace run that ends where the
      text does or before a non-space character. */
  lemma WhitespaceOf(w: string, y: string)
    requires IsSpaceRun(w) && (y == [] || !IsSpace(y[0]))
    ensures MatchWhitespace(w + y) == Matched(w, y)
  {
    SpanAfter(w, y, IsSpace);
    assert (w + y)[..|w|] == w && (w + y)[|w|..] == y;
  }

  // ---------------------------------------------------------------------
  // Terms.

  /** A term the term rule reads back as it is. A boost directly after the
      literal is not one: `^` is a literal character, so `foo^2` is read as
      the single literal `foo^2`. */
  predicate ReadableTerm(t: Term) {
    WfTerm(t) && (t.suffix.None? ==> t.boost.None?)
  }

  /** What follows the literal of a term. */
  function TermTail(t: Term, r: string): string {
    TermSuffixText(t.suffix) + (OptionalBoostText(t.boost) + r)
  }

  lemma TermSplit(t: Term, r: string)
    requires ReadableTerm(t) && TermEnd(r)
    ensures TermText(t) + r == t.literal + TermTail(t, r)
    ensures TermTail(t, r) == [] || (!IsLiteralChar(TermTail(t, r)[0]) && !IsFieldChar(TermTail(t, r)[0]))
  {
    var sx, bt := TermSuffixText(t.suffix), OptionalBoostText(t.boost);
    AppendAssoc(t.literal + sx, bt, r);
    AppendAssoc(t.literal, sx, bt + r);
    var tail := TermTail(t, r);
    if sx != [] {
      assert tail[0] == sx[0];
      ClassFacts(sx[0]);
    } else {
      assert tail == r;
      if r != [] {
        EndFacts(r);
      }
    }
  }

  lemma BoostReadBack(b: Boost, r: string)
    requires IsNumber(b.number) && TermEnd(r)
    ensures MatchBoost(BoostText(b) + r) == Matched(b, r)
  {
    var n := b.number;
    var s := BoostText(b) + r;
    assert s[0] == '^' && s[1..] == n + r;
    assert MatchNumber(n + r) == Matched(n, r) by {
      assert NumberEnds(n, r) by {
        if r != [] {
          EndFacts(r);
        }
      }
      MatchNumberOf(n, r);
    }
  }

  lemma OptionalBoostReadBack(b: Option<Boost>, r: string)
    requires WfBoost(b) && TermEnd(r)
    ensures MatchOptionalBoost(OptionalBoostText(b) + r) == Matched(b, r)
  {
    if b.Some? {
      BoostReadBack(b.value, r);
    } else {
      assert OptionalBoostText(b) + r == r;
      assert r != [] ==> r[0] != '^' by {
        if r != [] {
          EndFacts(r);
        }
      }
    }
  }

  lemma WildcardReadBack(w: Wildcard, rest: string)
    ensures MatchTermSuffix(WildcardText(w) + rest) == Matched(Some(TermWildcard(w)), rest)
  {
    assert (WildcardText(w) + rest)[1..] == rest;
  }

  /** A fuzziness is read back whole: its digit, if any, is taken, and
      without one no digit follows. */
  lemma FuzzinessReadBack(f: Fuzziness, rest: string)
    requires WfFuzziness(f) && (f.digit.None? ==> rest == [] || !IsDigit(rest[0]))
    ensures MatchTermSuffix(FuzzinessText(f) + rest) == Matched(Some(TermFuzziness(f)), rest)
  {
    var s := FuzzinessText(f) + rest;
    assert s[0] == '~';
    assert MatchWildcard(s).NoMatch?;
    assert MatchFuzziness(s) == Matched(f, rest) by {
      if f.digit.Some? {
        assert s[1] == f.digit.value && s[2..] == rest;
      } else {
        assert s[1..] == rest;
      }
    }
  }

  lemma NoSuffixReadBack(r: string)
    requires TermEnd(r)
    ensures MatchTermSuffix(r) == Matched(None, r)
  {
    if r != [] {
      EndFacts(r);
    }
  }

  lemma TermSuffixReadBack(x: Option<TermSuffix>, b: Option<Boost>, r: string)
    requires x.Some? && x.value.TermFuzziness? ==> WfFuzziness(x.value.fuzziness)
    requires WfBoost(b) && TermEnd(r) && (x.None? ==> b.None?)
    ensures MatchTermSuffix(TermSuffixText(x) + (OptionalBoostText(b) + r)) == Matched(x, OptionalBoostText(b) + r)
  {
    var rest := OptionalBoostText(b) + r;
    match x
    case None =>
      assert TermSuffixText(x) + rest == r;
      NoSuffixReadBack(r);
    case Some(TermWildcard(w)) =>
      WildcardReadBack(w, rest);
    case Some(TermFuzziness(f)) =>
      assert rest == [] || !IsDigit(rest[0]) by {
        if b.Some? {
          assert rest[0] == '^';
        } else if r != [] {
          assert rest == r;
          EndFacts(r);
        }
      }
      FuzzinessReadBack(f, rest);
  }

  lemma TermReadBack(t: Term, r: string)
    requires ReadableTerm(t) && TermEnd(r)
    ensures MatchTerm(TermText(t) + r) == Matched(t, r)
  {
    TermSplit(t, r);
    MatchLiteralOf(t.literal, TermTail(t, r));
    TermSuffixReadBack(t.suffix, t.boost, r);
    OptionalBoostReadBack(t.boost, r);
  }

  /** A range bound the range rule reads back: `*`, or a term read back. */
  predicate ReadableBound(v: RangeValue) {
    v.AnyValue? || ReadableTerm(v.term)
  }

  lemma RangeValueReadBack(v: RangeValue, r: string)
    requires ReadableBound(v) && TermEnd(r)
    ensures MatchRangeValue(RangeValueText(v) + r) == Matched(v, r)
  {
    match v
    case AnyValue =>
      assert ("*" + r)[1..] == r;
    case BoundValue(t) =>
      TermReadBack(t, r);
      assert (TermText(t) + r)[0] == t.literal[0];
      ClassFacts('*');
  }

  // ---------------------------------------------------------------------
  // Phrases.

  lemma {:induction false} WordsReadBack(w: Words, r: string)
    requires WfWords(w) && r != [] && r[0] == '"'
    ensures MatchWords(WordsText(w) + r) == Matched(w, r)
    decreases w
  {
    ClassFacts('"');
    match w
    case LastWord(l) =>
      MatchLiteralOf(l, r);
    case MoreWords(l, sp, rest) =>
      var t := WordsText(rest);
      WordsEnds(rest);
      AppendAssoc(l + sp, t, r);
      AppendAssoc(l, sp, t + r);
      ClassFacts(sp[0]);
      MatchLiteralOf(l, sp + (t + r));
      WhitespaceOf(sp, t + r);
      WordsReadBack(rest, r);
  }

  lemma PhraseSuffixReadBack(x: Option<PhraseSuffix>, r: string)
    requires WfPhraseSuffix(x) && TermEnd(r)
    ensures MatchPhraseSuffix(PhraseSuffixText(x) + r) == Matched(x, r)
  {
    if r != [] {
      EndFacts(r);
    }
    match x
    case None =>
      assert PhraseSuffixText(x) + r == r;
    case Some(PhraseBoost(b)) =>
      BoostReadBack(b, r);
    case Some(PhraseFuzziness(f)) =>
      var s := FuzzinessText(f) + r;
      if f.digit.Some? {
        assert s[1] == f.digit.value && s[2..] == r;
      } else {
        assert s[1..] == r;
      }
  }

  lemma PhraseReadBack(p: Phrase, r: string)
    requires WfPhrase(p) && TermEnd(r)
    ensures MatchPhrase(PhraseText(p) + r) == Matched(p, r)
  {
    var w, x := WordsText(p.words), PhraseSuffixText(p.suffix);
    var s1 := "\"" + (x + r);
    assert PhraseText(p) + r == "\"" + (w + s1);
    WordsReadBack(p.words, s1);
    assert s1[1..] == x + r;
    PhraseSuffixReadBack(p.suffix, r);
  }

  // ---------------------------------------------------------------------
  // Ranges.

  /** A range whose bounds are read back. */
  predicate ReadableRange(g: Range) {
    WfRange(g) && ReadableBound(g.lower) && ReadableBound(g.upper)
  }

  lemma RangeUpperReadBack(g: Range, r: string)
    requires ReadableRange(g)
    ensures MatchRangeUpper(g.space2 + (RangeValueText(g.upper) + (RangeClose(g.inclusive) + r)), g.inclusive)
      == Matched((g.space2, g.upper), r)
  {
    var hi, close := RangeValueText(g.upper), RangeClose(g.inclusive);
    RangeValueNoSpace(g.upper);
    WhitespaceOf(g.space2, hi + (close + r));
    RangeValueReadBack(g.upper, close + r);
    assert (close + r)[1..] == r;
  }

  lemma BoundThenSpaceReadBack(g: Range, u: string)
    requires ReadableRange(g)
    ensures MatchBoundThenSpace(RangeValueText(g.lower) + (g.space1 + ("TO" + u))) == Matched((g.lower, g.space1), "TO" + u)
  {
    ClassFacts(g.space1[0]);
    RangeValueReadBack(g.lower, g.space1 + ("TO" + u));
    WhitespaceOf(g.space1, "TO" + u);
  }

  lemma RangeLowerReadBack(g: Range, u: string)
    requires ReadableRange(g)
    ensures MatchRangeLower(RangeOpen(g.inclusive) + (RangeValueText(g.lower) + (g.space1 + ("TO" + u))), g.inclusive)
      == Matched((g.lower, g.space1), u)
  {
    var lo := RangeValueText(g.lower);
    var s := RangeOpen(g.inclusive) + (lo + (g.space1 + ("TO" + u)));
    assert s[1..] == lo + (g.space1 + ("TO" + u));
    BoundThenSpaceReadBack(g, u);
    assert ("TO" + u)[2..] == u;
  }

  /** A range of either kind, once the rule for its own kind matches it. */
  lemma RangeClauseOf(x: string, g: Range, r: string)
    requires x != [] && x[0] == RangeOpen(g.inclusive)[0]
    requires MatchRangeWith(x, g.inclusive) == Matched(g, r)
    ensures MatchRangeClause(x) == Matched(g, r)
  {
    if !g.inclusive {
      assert MatchRangeLower(x, true).NoMatch?;
    }
  }

  lemma RangeReadBack(g: Range, r: string)
    requires ReadableRange(g)
    ensures MatchRangeClause(RangeText(g) + r) == Matched(g, r)
  {
    var open, lo, hi, close := RangeOpen(g.inclusive), RangeValueText(g.lower), RangeValueText(g.upper), RangeClose(g.inclusive);
    var u := g.space2 + (hi + (close + r));
    var s := open + (lo + (g.space1 + ("TO" + u)));
    assert RangeText(g) + r == s by {
      RightNest(open, lo, g.space1, "TO", g.space2, hi + (close + r));
      RightNest(open, lo, g.space1, "TO", g.space2, hi);
      AppendAssoc(open + lo + g.space1 + "TO" + g.space2, hi, close + r);
      AppendAssoc(open + lo + g.space1 + "TO" + g.space2 + hi, close, r);
    }
    assert MatchRangeWith(s, g.inclusive) == Matched(g, r) by {
      RangeLowerReadBack(g, u);
      RangeUpperReadBack(g, r);
    }
    RangeClauseOf(s, g, r);
  }

  // ---------------------------------------------------------------------
  // Values, clauses and queries.

  /** `s` reads as the value `v` wherever a clause may end after it, and
      `v` holds no empty field. */
  ghost predicate ReadsAsValue(s: string, v: Value) {
    && NoEmptyField(ValueFieldRefs(v))
    && forall r :: ClauseEnd(r) ==> MatchBareValue(s + r) == Matched(v, r)
  }

  /** `s` reads as the clause `c` wherever a clause may end after it, and
      `c` holds no empty field. */
  ghost predicate ReadsAsClause(s: string, c: Clause) {
    && NoEmptyField(ClauseFieldRefs(c))
    && forall r :: ClauseEnd(r) ==> MatchClause(s + r) == Matched(c, r)
  }

  /** `s` reads as the query `q`, alone or inside a group, and `q` holds no
      empty field. */
  ghost predicate ReadsAsQuery(s: string, q: Query) {
    && NoEmptyField(QueryFieldRefs(q))
    && forall r :: QueryEnd(r) ==> MatchQuery(s + r) == Matched(q, r)
  }

  lemma ValueSolid(s: string, v: Value)
    requires ReadsAsValue(s, v)
    ensures SolidEnds(s)
  {
    assert s + [] == s;
    assert MatchBareValue(s + []) == Matched(v, []);
    assert WfValue(v) && s == ValueText(v) by {
      BareValueReadsText(s);
    }
    ValueEnds(v);
  }

  lemma ClauseSolid(s: string, c: Clause)
    requires ReadsAsClause(s, c)
    ensures SolidEnds(s)
  {
    assert MatchClause(s + []) == Matched(c, []);
    assert s + [] == s;
    ClauseReadsText(s);
    ClauseEnds(c);
  }

  lemma QuerySolid(s: string, q: Query)
    requires ReadsAsQuery(s, q)
    ensures Parse(s) == Some(q) && SolidEnds(s)
  {
    assert MatchQuery(s + []) == Matched(q, []);
    assert s + [] == s;
    QueryReadsText(s);
    QueryEnds(q);
  }

  /** The two orders in which the value rules try their alternatives agree:
      a group and a range never both match, since they open differently. */
  lemma ValueOrders(s: string)
    ensures MatchFieldValue(s) == MatchBareValue(s)
  {
    FieldValueParts(s);
    BareValueParts(s);
    if MatchBooleanClause(s).Matched? {
      assert s[0] == '(';
      assert MatchRangeLower(s, true).NoMatch? && MatchRangeLower(s, false).NoMatch?;
    }
  }

  /** A term is a value. */
  lemma TermReads(t: Term)
    requires ReadableTerm(t)
    ensures ReadsAsValue(TermText(t), TermValue(t))
  {
    forall r | ClauseEnd(r)
      ensures MatchBareValue(TermText(t) + r) == Matched(TermValue(t), r)
    {
      TermReadBack(t, r);
      BareValueParts(TermText(t) + r);
    }
  }

  /** A phrase is a value. */
  lemma PhraseReads(p: Phrase)
    requires WfPhrase(p)
    ensures ReadsAsValue(PhraseText(p), PhraseValue(p))
  {
    forall r | ClauseEnd(r)
      ensures MatchBareValue(PhraseText(p) + r) == Matched(PhraseValue(p), r)
    {
      var s := PhraseText(p) + r;
      assert s[0] == '"';
      ClassFacts('"');
      PhraseReadBack(p, r);
      BareValueParts(s);
    }
  }

  /** A range whose bounds read back is a value. */
  lemma RangeReads(g: Range)
    requires ReadableRange(g)
    ensures ReadsAsValue(RangeText(g), RangeClause(g))
  {
    forall r | ClauseEnd(r)
      ensures MatchBareValue(RangeText(g) + r) == Matched(RangeClause(g), r)
    {
      var s := RangeText(g) + r;
      assert s[0] == RangeOpen(g.inclusive)[0];
      ClassFacts(s[0]);
      RangeReadBack(g, r);
      BareValueParts(s);
    }
  }

  /** The value rules over a group: neither a term nor a phrase opens
      with `(`, so the group is taken. */
  lemma GroupAt(s: string, q: Query, r: string)
    requires MatchQuery(s + (")" + r)) == Matched(q, ")" + r)
    ensures MatchBareValue("(" + s + ")" + r) == Matched(BooleanClause(q), r)
  {
    var y := s + (")" + r);
    var x := "(" + y;
    assert "(" + s + ")" + r == x by {
      AppendAssoc("(" + s, ")", r);
      AppendAssoc("(", s, ")" + r);
    }
    assert x[0] == '(' && x[1..] == y;
    assert MatchBooleanClause(x) == Matched(q, r) by {
      assert (")" + r)[1..] == r;
    }
    assert MatchTerm(x).NoMatch? && MatchPhrase(x).NoMatch? by {
      ClassFacts('(');
    }
    BareValueParts(x);
  }

  /** A query in parentheses is a value. */
  lemma GroupReads(s: string, q: Query)
    requires ReadsAsQuery(s, q)
    ensures ReadsAsValue("(" + s + ")", BooleanClause(q))
  {
    forall r | ClauseEnd(r)
      ensures MatchBareValue("(" + s + ")" + r) == Matched(BooleanClause(q), r)
    {
      assert MatchQuery(s + (")" + r)) == Matched(q, ")" + r);
      GroupAt(s, q, r);
    }
  }

  /** The clause rule over a text whose first character neither opens a
      field name nor is a sign: only the bare value is left to it. */
  lemma BareAt(x: string)
    requires x != [] && !IsFieldStart(x[0]) && !IsOperator(x[0])
    ensures MatchClause(x) == ClauseChoice(None, NoMatch, NoMatch, MatchBareValue(x))
  {
    assert MatchOptionalOperator(x) == Matched(None, x);
    assert MatchFieldName(x).NoMatch?;
    EmptyFieldOf(x);
    FieldedParts(x);
    ClauseParts(x);
  }

  lemma BareStep(s: string, v: Value, r: string)
    requires MatchBareValue(s + r) == Matched(v, r)
    requires s != [] && !IsFieldStart(s[0]) && !IsOperator(s[0])
    ensures MatchClause(s + r) == Matched(Clause(None, BareClause(v)), r)
  {
    assert (s + r)[0] == s[0];
    BareAt(s + r);
  }

  /** A value opening with neither a field-name character nor a sign is a
      clause of its own. */
  lemma BareReads(s: string, v: Value)
    requires ReadsAsValue(s, v)
    requires s != [] && !IsFieldStart(s[0]) && !IsOperator(s[0])
    ensures ReadsAsClause(s, Clause(None, BareClause(v)))
  {
    forall r | ClauseEnd(r)
      ensures MatchClause(s + r) == Matched(Clause(None, BareClause(v)), r)
    {
      BareStep(s, v, r);
    }
  }

  /** A term whose literal holds no colon offers no field name followed by
      a colon to the empty-field and fielded rules. */
  lemma NoFieldPrefix(t: Term, r: string)
    requires ReadableTerm(t) && ':' !in t.literal && TermEnd(r)
    ensures MatchEmptyFieldClause(TermText(t) + r).NoMatch?
    ensures MatchFieldedClause(TermText(t) + r).NoMatch?
  {
    var x := TermText(t) + r;
    var l := t.literal;
    var tail := TermTail(t, r);
    TermSplit(t, r);
    EmptyFieldOf(x);
    FieldedParts(x);
    var f := MatchFieldName(x);
    if f.Matched? && f.rest != [] {
      var k := |f.tree|;
      assert f.rest[0] == x[k];
      assert k <= |l| by {
        if |x| > |l| {
          assert x[|l|] == tail[0];
          assert !IsFieldChar(x[|l|]);
        }
      }
      if k < |l| {
        assert x[k] == l[k];
      } else {
        assert x[k] == tail[0];
        assert IsLiteralChar(':');
      }
    }
  }

  /** A term whose literal holds no colon and opens with no sign is a
      clause of its own. */
  lemma WordReads(t: Term)
    requires ReadableTerm(t) && ':' !in t.literal && !IsOperator(t.literal[0])
    ensures ReadsAsClause(TermText(t), Clause(None, BareClause(TermValue(t))))
  {
    TermReads(t);
    forall r | ClauseEnd(r)
      ensures MatchClause(TermText(t) + r) == Matched(Clause(None, BareClause(TermValue(t))), r)
    {
      var x := TermText(t) + r;
      NoFieldPrefix(t, r);
      TermSplit(t, r);
      assert x[0] == t.literal[0];
      assert MatchOptionalOperator(x) == Matched(None, x);
      ClauseParts(x);
    }
  }

  /** A field name and a colon before a value: no sign, and no empty
      field, since the value opens with no whitespace. */
  lemma FieldPrefixAt(f: string, y: string)
    requires IsFieldName(f) && |y| > 1 && y[0] == ':' && !IsSpace(y[1])
    ensures MatchOptionalOperator(f + y) == Matched(None, f + y)
    ensures MatchFieldName(f + y) == Matched(f, y)
    ensures MatchEmptyFieldClause(f + y).NoMatch?
  {
    assert MatchOptionalOperator(f + y) == Matched(None, f + y) by {
      assert (f + y)[0] == f[0];
      ClassFacts(f[0]);
    }
    assert MatchFieldName(f + y) == Matched(f, y) by {
      ClassFacts(':');
      MatchFieldNameOf(f, y);
    }
    assert !EmptyTail(y) by {
      ClassFacts('\n');
    }
    EmptyFieldOf(f + y);
  }

  /** The clause rule over a field name, a colon and a value it reads. */
  lemma FieldedAt(f: string, s: string, v: Value, r: string)
    requires IsFieldName(f) && s != [] && !IsSpace(s[0])
    requires MatchBareValue(s + r) == Matched(v, r)
    ensures MatchClause(f + ":" + s + r) == Matched(Clause(None, FieldedClause(f, v)), r)
  {
    var y := ":" + (s + r);
    var x := f + y;
    assert f + ":" + s + r == x by {
      AppendAssoc(f + ":", s, r);
      AppendAssoc(f, ":", s + r);
    }
    assert y[1..] == s + r && y[1] == s[0];
    FieldPrefixAt(f, y);
    assert MatchFieldValue(s + r) == Matched(v, r) by {
      ValueOrders(s + r);
    }
    assert MatchFieldedClause(x) == Matched(FieldedClause(f, v), r) by {
      FieldedParts(x);
    }
    ClauseParts(x);
  }

  /** A field name, a colon and a value is a fielded clause. */
  lemma FieldedReads(f: string, s: string, v: Value)
    requires IsFieldName(f) && ReadsAsValue(s, v)
    ensures ReadsAsClause(f + ":" + s, Clause(None, FieldedClause(f, v)))
  {
    ValueSolid(s, v);
    forall r | ClauseEnd(r)
      ensures MatchClause(f + ":" + s + r) == Matched(Clause(None, FieldedClause(f, v)), r)
    {
      FieldedAt(f, s, v, r);
    }
    NoEmptyFieldAppend(ValueFieldRefs(v), [FieldNameRef(f)]);
  }

  /** The clause rule over a sign and a clause without one. */
  lemma SignedAt(op: char, x: string, c: Clause, r: string)
    requires IsOperator(op) && MatchClause(x) == Matched(c, r) && c.operator.None?
    ensures MatchClause([op] + x) == Matched(Clause(Some(op), c.body), r)
  {
    var y := [op] + x;
    assert y[0] == op && y[1..] == x;
    ClauseParts(x);
    ClauseParts(y);
  }

  /** A `+` or `-` before a clause without one. */
  lemma SignedReads(op: char, s: string, c: Clause)
    requires IsOperator(op) && ReadsAsClause(s, c) && c.operator.None?
    ensures ReadsAsClause([op] + s, Clause(Some(op), c.body))
  {
    forall r | ClauseEnd(r)
      ensures MatchClause([op] + s + r) == Matched(Clause(Some(op), c.body), r)
    {
      assert [op] + s + r == [op] + (s + r);
      SignedAt(op, s + r, c, r);
    }
  }

  /** A clause is a query. */
  lemma SingleReads(s: string, c: Clause)
    requires ReadsAsClause(s, c)
    ensures ReadsAsQuery(s, LastClause(c))
  {
    forall r | QueryEnd(r)
      ensures MatchQuery(s + r) == Matched(LastClause(c), r)
    {
      assert MatchClause(s + r) == Matched(c, r);
      assert MatchWhitespace(r).NoMatch?;
    }
  }

  /** The query rule over a clause, a whitespace run and the query after. */
  lemma MoreAt(x: string, c: Clause, w: string, y: string, q: Query, r: string)
    requires MatchClause(x) == Matched(c, w + y) && IsSpaceRun(w)
    requires y != [] && !IsSpace(y[0]) && MatchQuery(y) == Matched(q, r)
    ensures MatchQuery(x) == Matched(MoreClauses(c, w, q), r)
  {
    WhitespaceOf(w, y);
  }

  lemma MoreStep(s: string, c: Clause, w: string, t: string, q: Query, r: string)
    requires IsSpaceRun(w) && t != [] && !IsSpace(t[0])
    requires MatchClause(s + (w + (t + r))) == Matched(c, w + (t + r))
    requires MatchQuery(t + r) == Matched(q, r)
    ensures MatchQuery(s + w + t + r) == Matched(MoreClauses(c, w, q), r)
  {
    var y := t + r;
    assert y[0] == t[0];
    assert s + w + t + r == s + (w + y) by {
      AppendAssoc(s + w, t, r);
      AppendAssoc(s, w, y);
    }
    MoreAt(s + (w + y), c, w, y, q, r);
  }

  /** A clause, a whitespace run and a query is a query. */
  lemma MoreReads(s: string, c: Clause, w: string, t: string, q: Query)
    requires ReadsAsClause(s, c) && IsSpaceRun(w) && ReadsAsQuery(t, q)
    ensures ReadsAsQuery(s + w + t, MoreClauses(c, w, q))
  {
    QuerySolid(t, q);
    forall r | QueryEnd(r)
      ensures MatchQuery(s + w + t + r) == Matched(MoreClauses(c, w, q), r)
    {
      assert ClauseEnd(w + (t + r));
      MoreStep(s, c, w, t, q, r);
    }
    NoEmptyFieldAppend(ClauseFieldRefs(c), QueryFieldRefs(q));
  }

  // ---------------------------------------------------------------------
  // What the entry points make of texts that read as queries.

  /** A text that reads as a query is valid, and `parse_query` returns it
      with each whitespace run printed as one space. */
  lemma QueryAccepted(s: string, q: Query)
    requires ReadsAsQuery(s, q)
    ensures ValidateQuery(s)
    ensures ParseQuery(s) == Success(Collapse(s))
  {
    QuerySolid(s, q);
    assert Strip(s) == s;
    NoEmptyFieldUnmapped(QueryFieldRefs(q));
    BuildQuerySpec(q, map[], {});
  }

  /** A bare value as a whole query. */
  lemma ValueQuery(s: string, v: Value)
    requires ReadsAsValue(s, v) && s != [] && !IsFieldStart(s[0]) && !IsOperator(s[0])
    ensures ReadsAsQuery(s, LastClause(Clause(None, BareClause(v))))
  {
    BareReads(s, v);
    SingleReads(s, Clause(None, BareClause(v)));
  }

  /** A plain word: a literal with no colon that opens with no sign. */
  predicate IsPlainWord(l: string) {
    IsLiteral(l) && ':' !in l && !IsOperator(l[0])
  }

  lemma WordQuery(l: string)
    requires IsPlainWord(l)
    ensures ReadsAsQuery(l, LastClause(Clause(None, BareClause(TermValue(Term(l, None, None))))))
  {
    var t := Term(l, None, None);
    assert TermText(t) == l;
    WordReads(t);
    SingleReads(l, Clause(None, BareClause(TermValue(t))));
  }

  /** Two words separated by any whitespace run, as in `foo bar`: the words
      with one space between them. */
  lemma TwoWords(a: string, w: string, b: string)
    requires IsPlainWord(a) && IsSpaceRun(w) && IsPlainWord(b)
    ensures ValidateQuery(a + w + b)
    ensures ParseQuery(a + w + b) == Success(a + " " + b)
  {
    var t := Term(a, None, None);
    assert TermText(t) == a;
    WordReads(t);
    WordQuery(b);
    SequenceAccepted(a, Clause(None, BareClause(TermValue(t))), w, b,
      LastClause(Clause(None, BareClause(TermValue(Term(b, None, None))))));
    LiteralNoSpace(a);
    LiteralNoSpace(b);
    CollapseNoSpace(a);
    CollapseNoSpace(b);
  }

  /** A phrase, with or without a fuzziness or a boost after it: its words
      with one space between them, inside the quotes, then the suffix. */
  lemma PhraseAccepted(p: Phrase)
    requires WfPhrase(p)
    ensures ValidateQuery(PhraseText(p))
    ensures ParseQuery(PhraseText(p)) == Success("\"" + WordsOutput(p.words) + "\"" + PhraseSuffixText(p.suffix))
  {
    var s := PhraseText(p);
    PhraseReads(p);
    assert s[0] == '"';
    ValueQuery(s, PhraseValue(p));
    QueryAccepted(s, LastClause(Clause(None, BareClause(PhraseValue(p)))));
    PhraseCollapse(p);
  }

  /** A two-word phrase such as `"foo   bar"~2`. */
  lemma TwoWordPhrase(a: string, w: string, b: string, x: Option<PhraseSuffix>)
    requires IsLiteral(a) && IsSpaceRun(w) && IsLiteral(b) && WfPhraseSuffix(x)
    ensures ParseQuery("\"" + a + w + b + "\"" + PhraseSuffixText(x))
      == Success("\"" + a + " " + b + "\"" + PhraseSuffixText(x))
  {
    var p := Phrase(MoreWords(a, w, LastWord(b)), x);
    var q, y := "\"", PhraseSuffixText(x);
    assert WordsText(p.words) == a + w + b;
    assert WordsOutput(p.words) == a + " " + b;
    assert PhraseText(p) == q + (a + w + b) + q + y;
    assert q + (a + w + b) == q + a + w + b by {
      AppendAssoc(q, a + w, b);
      AppendAssoc(q, a, w);
    }
    assert q + (a + " " + b) == q + a + " " + b by {
      AppendAssoc(q, a + " ", b);
      AppendAssoc(q, a, " ");
    }
    PhraseAccepted(p);
  }

  /** A range, inclusive `[lo TO hi]` or exclusive `{lo TO hi}`, each bound
      a term or `*`: one space on either side of `TO`. */
  lemma RangeAccepted(g: Range)
    requires ReadableRange(g)
    ensures ValidateQuery(RangeText(g))
    ensures ParseQuery(RangeText(g)) == Success(RangeOpen(g.inclusive) + RangeValueText(g.lower) + " " + "TO" + " "
      + RangeValueText(g.upper) + RangeClose(g.inclusive))
  {
    var s := RangeText(g);
    RangeReads(g);
    assert s[0] == RangeOpen(g.inclusive)[0];
    ClassFacts(s[0]);
    ValueQuery(s, RangeClause(g));
    QueryAccepted(s, LastClause(Clause(None, BareClause(RangeClause(g)))));
    RangeCollapse(g);
  }

  /** An accepted query in parentheses is accepted, and printed in them. */
  lemma GroupAccepted(s: string, q: Query)
    requires ReadsAsQuery(s, q)
    ensures ValidateQuery("(" + s + ")")
    ensures ParseQuery("(" + s + ")") == Success("(" + Collapse(s) + ")")
  {
    var x := "(" + s + ")";
    GroupReads(s, q);
    assert x[0] == '(';
    ClassFacts('(');
    ValueQuery(x, BooleanClause(q));
    QueryAccepted(x, LastClause(Clause(None, BareClause(BooleanClause(q)))));
    QuerySolid(s, q);
    ClassFacts(')');
    CollapseBetween("(", s, ")");
  }

  /** A `+` or `-` before a clause without one is kept before it. */
  lemma SignedAccepted(op: char, s: string, c: Clause)
    requires IsOperator(op) && ReadsAsClause(s, c) && c.operator.None?
    ensures ValidateQuery([op] + s)
    ensures ParseQuery([op] + s) == Success([op] + Collapse(s))
  {
    SignedReads(op, s, c);
    SingleReads([op] + s, Clause(Some(op), c.body));
    QueryAccepted([op] + s, LastClause(Clause(Some(op), c.body)));
    ClassFacts(op);
    CollapsePrefix([op], s);
  }

  /** A field name, a colon and a value, without a mapping: the value is
      printed after the field as the translator prints it alone. */
  lemma FieldedAccepted(f: string, s: string, v: Value)
    requires IsFieldName(f) && ReadsAsValue(s, v)
    ensures ValidateQuery(f + ":" + s)
    ensures ParseQuery(f + ":" + s) == Success(f + ":" + Collapse(s))
  {
    var c := Clause(None, FieldedClause(f, v));
    FieldedReads(f, s, v);
    SingleReads(f + ":" + s, c);
    QueryAccepted(f + ":" + s, LastClause(c));
    LiteralNoSpace(f);
    ClassFacts(':');
    NoSpaceAppend(f, ":");
    CollapsePrefix(f + ":", s);
  }

  /** Two texts with solid ends around a whitespace run collapse to the
      two texts collapsed, with one space between them. */
  lemma CollapseAround(s: string, w: string, t: string)
    requires SolidEnds(s) && IsSpaceRun(w) && SolidEnds(t)
    ensures Collapse(s + w + t) == Collapse(s) + " " + Collapse(t)
  {
    assert s + w + t == s + (w + t);
    CollapseAppend(s, w + t);
    CollapseSpaceRun(w, t);
    AppendAssoc(Collapse(s), " ", Collapse(t));
  }

  /** Clauses separated by any whitespace run: one space between them. */
  lemma SequenceAccepted(s: string, c: Clause, w: string, t: string, q: Query)
    requires ReadsAsClause(s, c) && IsSpaceRun(w) && ReadsAsQuery(t, q)
    ensures ValidateQuery(s + w + t)
    ensures ParseQuery(s + w + t) == Success(Collapse(s) + " " + Collapse(t))
  {
    assert Collapse(s + w + t) == Collapse(s) + " " + Collapse(t) by {
      ClauseSolid(s, c);
      QuerySolid(t, q);
      CollapseAround(s, w, t);
    }
    assert ReadsAsQuery(s + w + t, MoreClauses(c, w, q)) by {
      MoreReads(s, c, w, t, q);
    }
    QueryAccepted(s + w + t, MoreClauses(c, w, q));
  }
}
