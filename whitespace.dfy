/**
 * What the parser does on a string whose whitespace runs have been
 * collapsed: every rule matches there exactly when it matches on the
 * original, and leaves the collapse of what it left on the original. The
 * trees may differ in their whitespace tokens, and an empty field before a
 * newline becomes the bare term `field:`, but a tree without empty fields
 * stays without them. This is what makes the translator idempotent.
 */
module Normalisation {
  import opened Wrappers
  import opened CharClasses
  import opened Strings
  import opened ParseTree
  import opened Grammar

  /** The rule matched on the collapsed input exactly when it matched on
      the original, leaving the collapse of the original's rest. */
  predicate Simulates<T, U>(a: ParseResult<T>, b: ParseResult<U>) {
    && (a.NoMatch? <==> b.NoMatch?)
    && (a.Matched? ==> b.Matched? && b.rest == Collapse(a.rest))
  }

  /** The same node with the rest collapsed. */
  function CollapseRest<T>(a: ParseResult<T>): ParseResult<T> {
    match a
    case NoMatch => NoMatch
    case Matched(t, rest) => Matched(t, Collapse(rest))
  }

  predicate NoEmptyField(refs: seq<FieldRef>) {
    forall i :: 0 <= i < |refs| ==> refs[i].FieldNameRef?
  }

  lemma NoEmptyFieldAppend(a: seq<FieldRef>, b: seq<FieldRef>)
    ensures NoEmptyField(a + b) <==> NoEmptyField(a) && NoEmptyField(b)
  {
    if NoEmptyField(a) && NoEmptyField(b) {
      forall i | 0 <= i < |a + b| ensures (a + b)[i].FieldNameRef? {
        if i >= |a| {
          assert (a + b)[i] == b[i - |a|];
        }
      }
    }
    if NoEmptyField(a + b) {
      forall i | 0 <= i < |a| ensures a[i].FieldNameRef? {
        assert (a + b)[i] == a[i];
      }
      forall i | 0 <= i < |b| ensures b[i].FieldNameRef? {
        assert (a + b)[|a| + i] == b[i];
      }
    }
  }

  // ---------------------------------------------------------------------
  // Collapsing, one character at a time.

  lemma CollapseStep(s: string)
    ensures s == [] <==> Collapse(s) == []
    ensures s != [] && !IsSpace(s[0]) ==> Collapse(s)[0] == s[0] && Collapse(s)[1..] == Collapse(s[1..])
    ensures s != [] && IsSpace(s[0]) ==> Collapse(s)[0] == ' '
  {
    if s != [] && !IsSpace(s[0]) {
      CollapseHead(s);
    }
  }

  /** The collapsed text holds no newline. */
  lemma CollapseNoNewline(s: string)
    ensures forall i :: 0 <= i < |Collapse(s)| ==> Collapse(s)[i] != '\n'
  {
    CollapseShape(s);
    ClassFacts('\n');
  }

  // ---------------------------------------------------------------------
  // Tokens.

  lemma WhitespaceSim(s: string)
    ensures Simulates(MatchWhitespace(s), MatchWhitespace(Collapse(s)))
    ensures MatchWhitespace(Collapse(s)).Matched? ==> MatchWhitespace(Collapse(s)).tree == " "
  {
    CollapseStep(s);
    if s != [] && IsSpace(s[0]) {
      var m := MatchWhitespace(s);
      assert Collapse(s) == [' '] + Collapse(m.rest) by { CollapseSpaceRun(m.tree, m.rest); }
      assert Collapse(m.rest) == [] || !IsSpace(Collapse(m.rest)[0]) by { CollapseStep(m.rest); }
      SingleSpace(Collapse(m.rest));
    }
  }

  lemma SingleSpace(t: string)
    requires t == [] || !IsSpace(t[0])
    ensures MatchWhitespace([' '] + t) == Matched(" ", t)
  {
    SpanIs([' '] + t, IsSpace, 1);
    assert ([' '] + t)[1..] == t;
  }

  /** A token with no space in it keeps its text, and what follows it
      is collapsed on its own. */
  lemma CollapseAfterToken(t: string, r: string)
    requires NoSpace(t)
    ensures Collapse(t + r) == t + Collapse(r)
    ensures r == [] <==> Collapse(r) == []
    ensures r != [] ==> Collapse(r)[0] == if IsSpace(r[0]) then ' ' else r[0]
  {
    CollapsePrefix(t, r);
  }

  lemma LiteralSim(s: string)
    ensures MatchLiteral(Collapse(s)) == CollapseRest(MatchLiteral(s))
  {
    CollapseStep(s);
    ClassFacts(' ');
    match MatchLiteral(s)
    case NoMatch =>
    case Matched(l, r) =>
      LiteralNoSpace(l);
      CollapseAfterToken(l, r);
      MatchLiteralOf(l, Collapse(r));
  }

  lemma FieldNameSim(s: string)
    ensures MatchFieldName(Collapse(s)) == CollapseRest(MatchFieldName(s))
  {
    CollapseStep(s);
    ClassFacts(' ');
    match MatchFieldName(s)
    case NoMatch =>
    case Matched(f, r) =>
      LiteralNoSpace(f);
      CollapseAfterToken(f, r);
      MatchFieldNameOf(f, Collapse(r));
  }

  lemma NumberSim(s: string)
    ensures MatchNumber(Collapse(s)) == CollapseRest(MatchNumber(s))
  {
    CollapseStep(s);
    ClassFacts(' ');
    match MatchNumber(s)
    case NoMatch =>
    case Matched(n, r) =>
      LiteralNoSpace(n);
      CollapseAfterToken(n, r);
      var c := Collapse(r);
      if r != [] && !IsSpace(r[0]) {
        CollapseStep(r);
        CollapseStep(r[1..]);
      }
      assert NumberEnds(n, c);
      MatchNumberOf(n, c);
  }

  // ---------------------------------------------------------------------
  // Terms.

  lemma BoostSim(s: string)
    ensures MatchBoost(Collapse(s)) == CollapseRest(MatchBoost(s))
  {
    CollapseStep(s);
    if s != [] && s[0] == '^' {
      NumberSim(s[1..]);
    }
  }

  lemma FuzzinessSim(s: string)
    ensures MatchFuzziness(Collapse(s)) == CollapseRest(MatchFuzziness(s))
  {
    CollapseStep(s);
    if s != [] && s[0] == '~' {
      var c := Collapse(s);
      CollapseStep(s[1..]);
      if |s| > 1 && IsDigit(s[1]) {
        ClassFacts(s[1]);
        assert c[1] == s[1];
        assert c[2..] == Collapse(s[1..])[1..] == Collapse(s[2..]);
      } else {
        ClassFacts(' ');
        assert !(|c| > 1 && IsDigit(c[1]));
      }
    }
  }

  lemma WildcardSim(s: string)
    ensures MatchWildcard(Collapse(s)) == CollapseRest(MatchWildcard(s))
  {
    CollapseStep(s);
  }

  lemma TermSuffixSim(s: string)
    ensures MatchTermSuffix(Collapse(s)) == CollapseRest(MatchTermSuffix(s))
  {
    WildcardSim(s);
    FuzzinessSim(s);
  }

  lemma OptionalBoostSim(s: string)
    ensures MatchOptionalBoost(Collapse(s)) == CollapseRest(MatchOptionalBoost(s))
  {
    BoostSim(s);
  }

  lemma TermSim(s: string)
    ensures MatchTerm(Collapse(s)) == CollapseRest(MatchTerm(s))
  {
    LiteralSim(s);
    match MatchLiteral(s)
    case NoMatch =>
    case Matched(_, s1) =>
      TermSuffixSim(s1);
      OptionalBoostSim(MatchTermSuffix(s1).rest);
  }

  // ---------------------------------------------------------------------
  // Phrases and ranges: only their whitespace tokens change.

  lemma {:induction false} WordsSim(s: string)
    ensures Simulates(MatchWords(s), MatchWords(Collapse(s)))
    decreases |s|
  {
    LiteralSim(s);
    match MatchLiteral(s)
    case NoMatch =>
    case Matched(_, s1) =>
      WhitespaceSim(s1);
      match MatchWhitespace(s1)
      case NoMatch =>
      case Matched(_, s2) =>
        WordsSim(s2);
  }

  lemma PhraseSuffixSim(s: string)
    ensures MatchPhraseSuffix(Collapse(s)) == CollapseRest(MatchPhraseSuffix(s))
  {
    BoostSim(s);
    FuzzinessSim(s);
  }

  lemma PhraseSim(s: string)
    ensures Simulates(MatchPhrase(s), MatchPhrase(Collapse(s)))
  {
    CollapseStep(s);
    if s != [] && s[0] == '"' {
      WordsSim(s[1..]);
      match MatchWords(s[1..])
      case NoMatch =>
      case Matched(_, s1) =>
        CollapseStep(s1);
        if s1 != [] && s1[0] == '"' {
          PhraseSuffixSim(s1[1..]);
        }
    }
  }

  lemma RangeValueSim(s: string)
    ensures MatchRangeValue(Collapse(s)) == CollapseRest(MatchRangeValue(s))
  {
    CollapseStep(s);
    TermSim(s);
  }

  lemma BoundThenSpaceSim(s: string)
    ensures Simulates(MatchBoundThenSpace(s), MatchBoundThenSpace(Collapse(s)))
  {
    RangeValueSim(s);
    match MatchRangeValue(s)
    case NoMatch =>
    case Matched(_, s1) =>
      WhitespaceSim(s1);
  }

  /** A character that is not whitespace survives collapsing, and so
      does what follows it. */
  lemma CharSim(s: string, ch: char)
    requires !IsSpace(ch)
    ensures (s != [] && s[0] == ch) <==> (Collapse(s) != [] && Collapse(s)[0] == ch)
    ensures s != [] && s[0] == ch ==> Collapse(s)[1..] == Collapse(s[1..])
  {
    CollapseStep(s);
  }

  /** A literal "TO" survives collapsing, and so does what follows it. */
  lemma KeywordSim(s: string)
    ensures (|s| >= 2 && s[0] == 'T' && s[1] == 'O')
      <==> (|Collapse(s)| >= 2 && Collapse(s)[0] == 'T' && Collapse(s)[1] == 'O')
    ensures |s| >= 2 && s[0] == 'T' && s[1] == 'O' ==> Collapse(s)[2..] == Collapse(s[2..])
  {
    var c := Collapse(s);
    CollapseStep(s);
    if s != [] && s[0] == 'T' {
      CollapseStep(s[1..]);
      assert c[1..] == Collapse(s[1..]);
      if |s| >= 2 && s[1] == 'O' {
        assert c[2..] == Collapse(s[1..])[1..];
      }
    }
  }

  lemma RangeLowerSim(s: string, inclusive: bool)
    ensures Simulates(MatchRangeLower(s, inclusive), MatchRangeLower(Collapse(s), inclusive))
  {
    var open := RangeOpen(inclusive)[0];
    assert !IsSpace(open);
    CollapseStep(s);
    if s != [] && s[0] == open {
      assert Collapse(s)[0] == open;
      RangeLowerParts(s, inclusive);
      RangeLowerParts(Collapse(s), inclusive);
      BoundThenSpaceSim(s[1..]);
      AfterBoundSim(MatchBoundThenSpace(s[1..]), MatchBoundThenSpace(Collapse(s)[1..]));
    } else {
      assert Collapse(s) == [] || Collapse(s)[0] != open;
    }
  }

  lemma AfterBoundSim(b: ParseResult<(RangeValue, string)>, b': ParseResult<(RangeValue, string)>)
    requires Simulates(b, b')
    ensures Simulates(AfterBound(b), AfterBound(b'))
  {
    if b.Matched? {
      KeywordSim(b.rest);
    }
  }

  lemma RangeUpperSim(s: string, inclusive: bool)
    ensures Simulates(MatchRangeUpper(s, inclusive), MatchRangeUpper(Collapse(s), inclusive))
  {
    WhitespaceSim(s);
    if MatchWhitespace(s).Matched? {
      RangeUpperTail(MatchWhitespace(s).rest, inclusive);
    }
  }

  /** After the whitespace: the bound and the closing bracket. */
  lemma RangeUpperTail(s: string, inclusive: bool)
    ensures
      var close := RangeClose(inclusive)[0];
      var v, v' := MatchRangeValue(s), MatchRangeValue(Collapse(s));
      && (v.Matched? && v.rest != [] && v.rest[0] == close
        <==> v'.Matched? && v'.rest != [] && v'.rest[0] == close)
      && (v.Matched? && v.rest != [] && v.rest[0] == close ==> v'.rest[1..] == Collapse(v.rest[1..]))
  {
    RangeValueSim(s);
    var v := MatchRangeValue(s);
    if v.Matched? {
      var close := RangeClose(inclusive)[0];
      assert !IsSpace(close) by { ClassFacts(close); }
      CharSim(v.rest, close);
    }
  }

  lemma RangeWithSim(s: string, inclusive: bool)
    ensures Simulates(MatchRangeWith(s, inclusive), MatchRangeWith(Collapse(s), inclusive))
  {
    RangeLowerSim(s, inclusive);
    match MatchRangeLower(s, inclusive)
    case NoMatch =>
    case Matched(_, s1) =>
      RangeUpperSim(s1, inclusive);
  }

  lemma RangeClauseSim(s: string)
    ensures Simulates(MatchRangeClause(s), MatchRangeClause(Collapse(s)))
  {
    RangeWithSim(s, true);
    RangeWithSim(s, false);
  }

  // ---------------------------------------------------------------------
  // Clauses and queries: the same, and a tree with no empty field stays so.

  predicate SimQuery(a: ParseResult<Query>, b: ParseResult<Query>) {
    && Simulates(a, b)
    && (a.Matched? && NoEmptyField(QueryFieldRefs(a.tree)) ==> NoEmptyField(QueryFieldRefs(b.tree)))
  }

  predicate SimClause(a: ParseResult<Clause>, b: ParseResult<Clause>) {
    && Simulates(a, b)
    && (a.Matched? && NoEmptyField(ClauseFieldRefs(a.tree)) ==> NoEmptyField(ClauseFieldRefs(b.tree)))
  }

  predicate SimBody(a: ParseResult<ClauseBody>, b: ParseResult<ClauseBody>) {
    && Simulates(a, b)
    && (a.Matched? && NoEmptyField(ClauseFieldRefs(Clause(None, a.tree)))
        ==> NoEmptyField(ClauseFieldRefs(Clause(None, b.tree))))
  }

  predicate SimValue(a: ParseResult<Value>, b: ParseResult<Value>) {
    && Simulates(a, b)
    && (a.Matched? && NoEmptyField(ValueFieldRefs(a.tree)) ==> NoEmptyField(ValueFieldRefs(b.tree)))
  }

  lemma OptionalOperatorSim(s: string)
    ensures MatchOptionalOperator(Collapse(s)) == CollapseRest(MatchOptionalOperator(s))
  {
    if s != [] && IsOperator(s[0]) {
      CharSim(s, s[0]);
    } else {
      CollapseStep(s);
    }
  }

  /** On collapsed text the empty-field lookahead succeeds only at the end
      of the input, where it succeeded before. */
  lemma EmptyFieldSim(s: string)
    ensures MatchEmptyFieldClause(Collapse(s)).Matched? ==>
      MatchEmptyFieldClause(s).Matched? && MatchEmptyFieldClause(s).rest == []
    ensures MatchEmptyFieldClause(s).Matched? && MatchEmptyFieldClause(s).rest == [] ==>
      MatchEmptyFieldClause(Collapse(s)) == MatchEmptyFieldClause(s)
  {
    FieldNameSim(s);
    var f := MatchFieldName(s);
    EmptyFieldOf(s);
    EmptyFieldOf(Collapse(s));
    if f.Matched? {
      EmptyTailSim(f.rest);
    }
  }

  lemma EmptyTailSim(x: string)
    ensures EmptyTail(Collapse(x)) ==> EmptyTail(x) && x[1..] == [] && Collapse(x)[1..] == []
    ensures EmptyTail(x) && x[1..] == [] ==> Collapse(x) == x
  {
    CharSim(x, ':');
    if x != [] && x[0] == ':' {
      var r := x[1..];
      CollapseStep(r);
      CollapseNoNewline(r);
      assert Collapse(x)[1..] == Collapse(r);
      if r == [] {
        assert x == [':'];
        CollapseHead(x);
      }
    }
  }

  /** No value starts with whitespace. */
  lemma ValueRejectsSpace(s: string)
    requires s != [] && IsSpace(s[0])
    ensures MatchFieldValue(s).NoMatch? && MatchBareValue(s).NoMatch?
  {
    ClassFacts(s[0]);
  }

  /** `field:` before a newline matched as an empty field; once the newline
      is a space, the fielded clause fails and the bare term `field:` takes
      the same text. */
  lemma EmptyFieldBeforeNewline(s: string)
    requires MatchEmptyFieldClause(s).Matched? && MatchEmptyFieldClause(s).rest != []
    ensures MatchFieldedClause(Collapse(s)).NoMatch?
    ensures MatchBareValue(Collapse(s)).Matched?
    ensures MatchBareValue(Collapse(s)).rest == Collapse(MatchEmptyFieldClause(s).rest)
  {
    var f, r := MatchEmptyFieldClause(s).tree, MatchEmptyFieldClause(s).rest;
    var c := Collapse(r);
    LiteralNoSpace(f);
    NoSpaceAppend(f, ":");
    CollapseAfterToken(f + ":", r);
    ClassFacts('\n');
    assert c != [] && IsSpace(c[0]);
    AppendAssoc(f, ":", c);
    FieldBeforeSpace(f, c);
  }

  /** A field name, a colon and then whitespace: not a fielded clause, but
      the bare term `field:`. */
  lemma FieldBeforeSpace(f: string, c: string)
    requires IsFieldName(f) && c != [] && IsSpace(c[0])
    ensures MatchFieldedClause(f + (":" + c)).NoMatch?
    ensures MatchBareValue(f + ":" + c) == Matched(TermValue(Term(f + ":", None, None)), c)
  {
    assert MatchFieldedClause(f + (":" + c)).NoMatch? by {
      ClassFacts(':');
      MatchFieldNameOf(f, ":" + c);
      assert (":" + c)[1..] == c;
      ValueRejectsSpace(c);
    }
    assert IsLiteral(f + ":") by {
      forall i | 0 <= i < |f + ":"| ensures IsLiteralChar((f + ":")[i]) {
        if i < |f| {
          ClassFacts(f[i]);
        } else {
          ClassFacts(':');
        }
      }
    }
    assert MatchLiteral(f + ":" + c) == Matched(f + ":", c) by {
      ClassFacts(c[0]);
      MatchLiteralOf(f + ":", c);
    }
    ClassFacts(c[0]);
  }

  lemma {:induction false} QuerySim(s: string)
    ensures SimQuery(MatchQuery(s), MatchQuery(Collapse(s)))
    decreases |s|, 5
  {
    ClauseSim(s);
    var c := MatchClause(s);
    if c.Matched? {
      var w := MatchWhitespace(c.rest);
      if w.Matched? {
        QuerySim(w.rest);
      }
    }
    QueryFromParts(s, Collapse(s));
  }

  /** The query simulates once its first clause and the query after the
      separating whitespace do. */
  lemma QueryFromParts(s: string, t: string)
    requires SimClause(MatchClause(s), MatchClause(t))
    requires
      var c := MatchClause(s);
      c.Matched? && MatchWhitespace(c.rest).Matched? ==>
        var w := MatchWhitespace(c.rest).rest;
        SimQuery(MatchQuery(w), MatchQuery(Collapse(w)))
    ensures SimQuery(MatchQuery(s), MatchQuery(t))
  {
    var c, c' := MatchClause(s), MatchClause(t);
    if c.Matched? {
      WhitespaceSim(c.rest);
      var w, w' := MatchWhitespace(c.rest), MatchWhitespace(c'.rest);
      if w.Matched? {
        var q, q' := MatchQuery(w.rest), MatchQuery(w'.rest);
        if q.Matched? {
          assert MatchQuery(s) == Matched(MoreClauses(c.tree, w.tree, q.tree), q.rest);
          assert MatchQuery(t) == Matched(MoreClauses(c'.tree, w'.tree, q'.tree), q'.rest);
          MoreBranchSim(c, c', w.tree, w'.tree, q, q', MatchQuery(s), MatchQuery(t));
        } else {
          assert MatchQuery(s) == Matched(LastClause(c.tree), c.rest);
          assert MatchQuery(t) == Matched(LastClause(c'.tree), c'.rest);
          LastBranchSim(c, c', MatchQuery(s), MatchQuery(t));
        }
      } else {
        assert MatchQuery(s) == Matched(LastClause(c.tree), c.rest);
        assert MatchQuery(t) == Matched(LastClause(c'.tree), c'.rest);
        LastBranchSim(c, c', MatchQuery(s), MatchQuery(t));
      }
    } else {
      assert MatchQuery(s).NoMatch? && MatchQuery(t).NoMatch?;
    }
  }

  lemma MoreBranchSim(c: ParseResult<Clause>, c': ParseResult<Clause>, sp: string, sp': string,
                      q: ParseResult<Query>, q': ParseResult<Query>,
                      r: ParseResult<Query>, r': ParseResult<Query>)
    requires c.Matched? && SimClause(c, c') && q.Matched? && SimQuery(q, q')
    requires r == Matched(MoreClauses(c.tree, sp, q.tree), q.rest)
    requires r' == Matched(MoreClauses(c'.tree, sp', q'.tree), q'.rest)
    ensures SimQuery(r, r')
  {
    NoEmptyFieldAppend(ClauseFieldRefs(c.tree), QueryFieldRefs(q.tree));
    NoEmptyFieldAppend(ClauseFieldRefs(c'.tree), QueryFieldRefs(q'.tree));
  }

  lemma LastBranchSim(c: ParseResult<Clause>, c': ParseResult<Clause>,
                      r: ParseResult<Query>, r': ParseResult<Query>)
    requires c.Matched? && SimClause(c, c')
    requires r == Matched(LastClause(c.tree), c.rest) && r' == Matched(LastClause(c'.tree), c'.rest)
    ensures SimQuery(r, r')
  {
  }

  lemma {:induction false} ClauseSim(s: string)
    ensures SimClause(MatchClause(s), MatchClause(Collapse(s)))
    decreases |s|, 4
  {
    var x := MatchOptionalOperator(s).rest;
    FieldedSim(x);
    BareValueSim(x);
    OptionalOperatorSim(s);
    EmptyFieldSim(x);
    var e := MatchEmptyFieldClause(x);
    if e.Matched? && e.rest != [] {
      EmptyFieldBeforeNewline(x);
      ClauseBeforeNewline(s, Collapse(s));
    } else if e.NoMatch? {
      ClauseNotEmpty(s, Collapse(s));
    }
  }

  /** An empty field before a newline: the collapsed text holds a bare
      term instead, and the original clause has an empty field. */
  lemma ClauseBeforeNewline(s: string, t: string)
    requires
      var op, op' := MatchOptionalOperator(s), MatchOptionalOperator(t);
      var e := MatchEmptyFieldClause(op.rest);
      && op'.tree == op.tree
      && e.Matched? && e.rest != []
      && MatchEmptyFieldClause(op'.rest).NoMatch?
      && MatchFieldedClause(op'.rest).NoMatch?
      && MatchBareValue(op'.rest).Matched?
      && MatchBareValue(op'.rest).rest == Collapse(e.rest)
    ensures SimClause(MatchClause(s), MatchClause(t))
  {
    var op := MatchOptionalOperator(s).tree;
    var e := MatchEmptyFieldClause(MatchOptionalOperator(s).rest);
    assert MatchClause(s) == Matched(Clause(op, EmptyFieldClause(e.tree)), e.rest);
    var refs := ClauseFieldRefs(MatchClause(s).tree);
    assert refs == [EmptyFieldRef(e.tree)];
    assert !refs[0].FieldNameRef?;
    var v := MatchBareValue(MatchOptionalOperator(t).rest);
    assert MatchClause(t) == Matched(Clause(op, BareClause(v.tree)), v.rest);
  }

  /** No empty field: the clause follows its fielded or bare alternative. */
  lemma ClauseNotEmpty(s: string, t: string)
    requires
      var op, op' := MatchOptionalOperator(s), MatchOptionalOperator(t);
      var x, y := op.rest, op'.rest;
      && op'.tree == op.tree
      && MatchEmptyFieldClause(x).NoMatch?
      && MatchEmptyFieldClause(y).NoMatch?
      && SimBody(MatchFieldedClause(x), MatchFieldedClause(y))
      && SimValue(MatchBareValue(x), MatchBareValue(y))
    ensures SimClause(MatchClause(s), MatchClause(t))
  {
    var op := MatchOptionalOperator(s).tree;
    var x, y := MatchOptionalOperator(s).rest, MatchOptionalOperator(t).rest;
    var b, b' := MatchFieldedClause(x), MatchFieldedClause(y);
    if b.Matched? {
      assert MatchClause(s) == Matched(Clause(op, b.tree), b.rest);
      assert MatchClause(t) == Matched(Clause(op, b'.tree), b'.rest);
      BodyBranchSim(op, b, b', MatchClause(s), MatchClause(t));
    } else {
      var v, v' := MatchBareValue(x), MatchBareValue(y);
      if v.Matched? {
        assert MatchClause(s) == Matched(Clause(op, BareClause(v.tree)), v.rest);
        assert MatchClause(t) == Matched(Clause(op, BareClause(v'.tree)), v'.rest);
        BareBranchSim(op, v, v', MatchClause(s), MatchClause(t));
      } else {
        assert MatchClause(s).NoMatch? && MatchClause(t).NoMatch?;
      }
    }
  }

  lemma BodyBranchSim(op: Option<char>, b: ParseResult<ClauseBody>, b': ParseResult<ClauseBody>,
                      r: ParseResult<Clause>, r': ParseResult<Clause>)
    requires b.Matched? && SimBody(b, b')
    requires r == Matched(Clause(op, b.tree), b.rest) && r' == Matched(Clause(op, b'.tree), b'.rest)
    ensures SimClause(r, r')
  {
    assert ClauseFieldRefs(r.tree) == ClauseFieldRefs(Clause(None, b.tree));
    assert ClauseFieldRefs(r'.tree) == ClauseFieldRefs(Clause(None, b'.tree));
  }

  lemma BareBranchSim(op: Option<char>, v: ParseResult<Value>, v': ParseResult<Value>,
                      r: ParseResult<Clause>, r': ParseResult<Clause>)
    requires v.Matched? && SimValue(v, v')
    requires r == Matched(Clause(op, BareClause(v.tree)), v.rest)
    requires r' == Matched(Clause(op, BareClause(v'.tree)), v'.rest)
    ensures SimClause(r, r')
  {
  }

  lemma {:induction false} FieldedSim(s: string)
    ensures SimBody(MatchFieldedClause(s), MatchFieldedClause(Collapse(s)))
    decreases |s|, 3
  {
    var f := MatchFieldName(s);
    if f.Matched? && f.rest != [] && f.rest[0] == ':' {
      FieldValueSim(f.rest[1..]);
    }
    FieldedFromValue(s);
  }

  /** The fielded clause simulates once its value does. */
  lemma FieldedFromValue(s: string)
    requires
      var f := MatchFieldName(s);
      f.Matched? && f.rest != [] && f.rest[0] == ':' ==>
        SimValue(MatchFieldValue(f.rest[1..]), MatchFieldValue(Collapse(f.rest[1..])))
    ensures SimBody(MatchFieldedClause(s), MatchFieldedClause(Collapse(s)))
  {
    FieldColonSim(s);
    FieldedParts(s);
    FieldedParts(Collapse(s));
    var f := MatchFieldName(s);
    if f.Matched? && f.rest != [] && f.rest[0] == ':' {
      var x := f.rest[1..];
      FieldedOfSim(f.tree, MatchFieldValue(x), MatchFieldValue(Collapse(x)));
    }
  }

  /** A field name and its colon survive collapsing, and so does what follows. */
  lemma FieldColonSim(s: string)
    ensures
      var f, f' := MatchFieldName(s), MatchFieldName(Collapse(s));
      && (f.Matched? <==> f'.Matched?)
      && (f.Matched? ==>
        && f'.tree == f.tree
        && (f.rest != [] && f.rest[0] == ':' <==> f'.rest != [] && f'.rest[0] == ':')
        && (f.rest != [] && f.rest[0] == ':' ==> f'.rest[1..] == Collapse(f.rest[1..])))
  {
    FieldNameSim(s);
    var f := MatchFieldName(s);
    if f.Matched? {
      CharSim(f.rest, ':');
    }
  }

  lemma FieldedOfSim(f: string, v: ParseResult<Value>, v': ParseResult<Value>)
    requires SimValue(v, v')
    ensures SimBody(FieldedOf(f, v), FieldedOf(f, v'))
  {
    if v.Matched? {
      FieldedRefs(f, v.tree);
      FieldedRefs(f, v'.tree);
    }
  }

  lemma FieldedRefs(f: string, v: Value)
    ensures NoEmptyField(ClauseFieldRefs(Clause(None, FieldedClause(f, v)))) <==> NoEmptyField(ValueFieldRefs(v))
  {
    NoEmptyFieldAppend(ValueFieldRefs(v), [FieldNameRef(f)]);
  }

  lemma {:induction false} FieldValueSim(s: string)
    ensures SimValue(MatchFieldValue(s), MatchFieldValue(Collapse(s)))
    decreases |s|, 2
  {
    TermSim(s);
    PhraseSim(s);
    RangeClauseSim(s);
    BooleanClauseSim(s);
    FieldValueParts(s);
    FieldValueParts(Collapse(s));
    ChoiceSim(MatchTerm(s), MatchTerm(Collapse(s)), MatchPhrase(s), MatchPhrase(Collapse(s)),
              MatchRangeClause(s), MatchRangeClause(Collapse(s)), MatchBooleanClause(s), MatchBooleanClause(Collapse(s)));
  }

  lemma {:induction false} BareValueSim(s: string)
    ensures SimValue(MatchBareValue(s), MatchBareValue(Collapse(s)))
    decreases |s|, 2
  {
    TermSim(s);
    PhraseSim(s);
    BooleanClauseSim(s);
    RangeClauseSim(s);
    BareValueParts(s);
    BareValueParts(Collapse(s));
    ChoiceSim(MatchTerm(s), MatchTerm(Collapse(s)), MatchPhrase(s), MatchPhrase(Collapse(s)),
              MatchRangeClause(s), MatchRangeClause(Collapse(s)), MatchBooleanClause(s), MatchBooleanClause(Collapse(s)));
  }

  /** Alternatives that simulate one by one make choices that simulate. */
  lemma ChoiceSim(a: ParseResult<Term>, a': ParseResult<Term>, p: ParseResult<Phrase>, p': ParseResult<Phrase>,
                  g: ParseResult<Range>, g': ParseResult<Range>, b: ParseResult<Query>, b': ParseResult<Query>)
    requires Simulates(a, a') && Simulates(p, p') && Simulates(g, g') && SimQuery(b, b')
    ensures SimValue(FieldChoice(a, p, g, b), FieldChoice(a', p', g', b'))
    ensures SimValue(BareChoice(a, p, b, g), BareChoice(a', p', b', g'))
  {
  }

  lemma {:induction false} BooleanClauseSim(s: string)
    ensures SimQuery(MatchBooleanClause(s), MatchBooleanClause(Collapse(s)))
    decreases |s|, 1
  {
    CharSim(s, '(');
    if s != [] && s[0] == '(' {
      QuerySim(s[1..]);
      var q := MatchQuery(s[1..]);
      if q.Matched? {
        CharSim(q.rest, ')');
      }
    }
  }
}
