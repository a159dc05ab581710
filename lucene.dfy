/**
 * The translator's entry points: `parse_query`, `parse_with_field_replacements`,
 * `validate_query` and the `_run_grammar` they share, with the properties
 * the translator promises about all of them.
 */
module Lucene {
  import opened Wrappers
  import opened CharClasses
  import opened Strings
  import opened ParseTree
  import opened Grammar
  import opened QueryBuilder
  import opened Normalisation

  /** `_run_grammar`: parse the stripped query as a whole, then rebuild it.
      A parse failure is `QueryParseError`; the rebuilder never raises it. */
  function RunGrammar(query: string, fields: map<string, string>, raw: set<string>): (r: Result<string, QueryError>)
    ensures r == Failure(QueryParseError) <==> Parse(Strip(query)).None?
    ensures Parse(Strip(query)).Some? ==> r == BuildQuery(Parse(Strip(query)).value, fields, raw)
  {
    match Parse(Strip(query))
    case None => Failure(QueryParseError)
    case Some(tree) => BuildQuery(tree, fields, raw)
  }

  /** `parse_query`: no mapping, no raw field names. */
  function ParseQuery(query: string): (r: Result<string, QueryError>)
    ensures r.Success? ==> r.value == Collapse(Strip(query))
    ensures r.Failure? ==> r.error.QueryParseError? || r.error.EmptyFieldQueryError?
  {
    var r := RunGrammar(query, map[], {});
    NormalisedOutput(query, {});
    UnmappedErrors(query, {});
    r
  }

  /** `parse_with_field_replacements`; an absent raw set is the empty set. */
  function ParseWithFieldReplacements(query: string, fields: map<string, string>, raw: set<string>): (r: Result<string, QueryError>)
    ensures r == Failure(QueryParseError) <==> Parse(Strip(query)).None?
    ensures |fields| == 0 ==> r == ParseQuery(query)
  {
    UnmappedIgnoresRaw(query, raw);
    RunGrammar(query, fields, raw)
  }

  /** `validate_query`: whether the grammar accepts the stripped query; the
      rebuilder is never run. */
  function ValidateQuery(query: string): bool
  {
    Parse(Strip(query)).Some?
  }

  /** `validate_query` accepts exactly the queries `parse_query` does not
      refuse with a parse error. */
  lemma ValidateAgreesWithParse(query: string)
    ensures ValidateQuery(query) <==> ParseQuery(query) != Failure(QueryParseError)
  {
  }

  // ---------------------------------------------------------------------
  // Without a mapping.

  /** A successful rebuild without a mapping is the stripped query with each
      run of whitespace turned into one space. */
  lemma NormalisedOutput(query: string, raw: set<string>)
    ensures RunGrammar(query, map[], raw).Success? ==>
      RunGrammar(query, map[], raw).value == Collapse(Strip(query))
  {
    ParsedNormalised(Strip(query), raw);
  }

  lemma ParsedNormalised(text: string, raw: set<string>)
    ensures Parse(text).Some? && BuildQuery(Parse(text).value, map[], raw).Success? ==>
      BuildQuery(Parse(text).value, map[], raw).value == Collapse(text)
  {
    var p := Parse(text);
    if p.Some? {
      TreeNormalised(p.value, text, raw);
    }
  }

  lemma TreeNormalised(t: Query, text: string, raw: set<string>)
    requires WfQuery(t) && QueryText(t) == text
    ensures BuildQuery(t, map[], raw).Success? ==> BuildQuery(t, map[], raw).value == Collapse(text)
  {
    if BuildQuery(t, map[], raw).Success? {
      BuildCollapseQuery(t, raw);
    }
  }

  /** Without a mapping no field is refused: the only errors are a failed
      parse and an empty field. */
  lemma UnmappedErrors(query: string, raw: set<string>)
    ensures RunGrammar(query, map[], raw).Failure? ==>
      RunGrammar(query, map[], raw).error.QueryParseError?
      || RunGrammar(query, map[], raw).error.EmptyFieldQueryError?
  {
    var p := Parse(Strip(query));
    if p.Some? {
      TreeUnmappedErrors(p.value, raw);
    }
  }

  lemma TreeUnmappedErrors(t: Query, raw: set<string>)
    ensures BuildQuery(t, map[], raw).Failure? ==> BuildQuery(t, map[], raw).error.EmptyFieldQueryError?
  {
    var refs := QueryFieldRefs(t);
    BuildQuerySpec(t, map[], raw);
    if FirstProblem(refs, map[], raw).Some? {
      FirstProblemIsFirst(refs, map[], raw);
    }
  }

  /** With an empty mapping the raw field names play no part. */
  lemma UnmappedIgnoresRaw(query: string, raw: set<string>)
    ensures RunGrammar(query, map[], raw) == ParseQuery(query)
  {
    var p := Parse(Strip(query));
    if p.Some? {
      BuildUnmappedIgnoresRaw(p.value, raw);
    }
  }

  /** `parse_query` applied to its own output gives the output back. */
  lemma ParseQueryIdempotent(query: string)
    requires ParseQuery(query).Success?
    ensures ParseQuery(ParseQuery(query).value) == ParseQuery(query)
  {
    var out := ParseQuery(query).value;
    var s := Strip(query);
    var t := Parse(s).value;
    assert s != [] by {
      assert MatchQuery([]).NoMatch?;
    }
    assert Strip(out) == out;
    NoEmptyFieldOfSuccess(t, {});
    QuerySim(s);
    var t' := MatchQuery(out).tree;
    assert Parse(out) == Some(t');
    NoEmptyFieldUnmapped(QueryFieldRefs(t'));
    BuildQuerySpec(t', map[], {});
    BuildCollapseQuery(t', {});
    CollapseIdempotent(s);
  }

  /** A tree the rebuilder prints without a mapping has no empty field. */
  lemma NoEmptyFieldOfSuccess(t: Query, raw: set<string>)
    requires BuildQuery(t, map[], raw).Success?
    ensures NoEmptyField(QueryFieldRefs(t))
  {
    var refs := QueryFieldRefs(t);
    BuildQuerySpec(t, map[], raw);
    forall i | 0 <= i < |refs| ensures refs[i].FieldNameRef? {
      assert Problem(refs[i], map[], raw).None?;
    }
  }

  /** Without a mapping, field names alone are never a problem. */
  lemma NoEmptyFieldUnmapped(refs: seq<FieldRef>)
    requires NoEmptyField(refs)
    ensures FirstProblem(refs, map[], {}).None?
  {
    forall i | 0 <= i < |refs| ensures Problem(refs[i], map[], {}).None? {
      assert refs[i].FieldNameRef?;
    }
  }

  // ---------------------------------------------------------------------
  // With a mapping.

  /** Mapped names are themselves field names, as every mapping of the
      translator's callers is. */
  predicate MapsToFieldNames(fields: map<string, string>) {
    forall f :: f in fields ==> IsFieldName(fields[f])
  }

  /** The outcome of a rebuild with a mapping: the first problem among the
      fields in visiting order, or else the query with every field renamed
      and whitespace runs collapsed. */
  lemma ReplacementOutcome(query: string, fields: map<string, string>, raw: set<string>)
    requires Parse(Strip(query)).Some?
    ensures
      var refs := QueryFieldRefs(Parse(Strip(query)).value);
      FirstProblem(refs, fields, raw).Some? ==>
        RunGrammar(query, fields, raw) == Failure(FirstProblem(refs, fields, raw).value)
    ensures
      var t := Parse(Strip(query)).value;
      FirstProblem(QueryFieldRefs(t), fields, raw).None? && MapsToFieldNames(fields) ==>
        RunGrammar(query, fields, raw) == Success(Collapse(QueryText(RenameQuery(t, fields))))
  {
    TreeReplacement(Parse(Strip(query)).value, fields, raw);
  }

  lemma TreeReplacement(t: Query, fields: map<string, string>, raw: set<string>)
    requires WfQuery(t)
    ensures
      var p := FirstProblem(QueryFieldRefs(t), fields, raw);
      p.Some? ==> BuildQuery(t, fields, raw) == Failure(p.value)
    ensures
      FirstProblem(QueryFieldRefs(t), fields, raw).None? && MapsToFieldNames(fields) ==>
        BuildQuery(t, fields, raw) == Success(Collapse(QueryText(RenameQuery(t, fields))))
  {
    BuildQuerySpec(t, fields, raw);
    if FirstProblem(QueryFieldRefs(t), fields, raw).None? && MapsToFieldNames(fields) {
      RenameWfQuery(t, fields);
      BuildCollapseQuery(RenameQuery(t, fields), {});
    }
  }

  /** A refused field anywhere in the query, however deeply nested, fails
      the whole call. */
  lemma RejectedFieldFails(query: string, fields: map<string, string>, raw: set<string>, f: string)
    requires Parse(Strip(query)).Some?
    requires FieldNameRef(f) in QueryFieldRefs(Parse(Strip(query)).value)
    requires Rejected(f, fields, raw)
    ensures RunGrammar(query, fields, raw).Failure?
    ensures !RunGrammar(query, fields, raw).error.QueryParseError?
  {
    TreeRejectedField(Parse(Strip(query)).value, fields, raw, f);
  }

  lemma TreeRejectedField(t: Query, fields: map<string, string>, raw: set<string>, f: string)
    requires FieldNameRef(f) in QueryFieldRefs(t)
    requires Rejected(f, fields, raw)
    ensures BuildQuery(t, fields, raw).Failure? && !BuildQuery(t, fields, raw).error.QueryParseError?
  {
    var refs := QueryFieldRefs(t);
    var i :| 0 <= i < |refs| && refs[i] == FieldNameRef(f);
    assert Problem(refs[i], fields, raw).Some?;
    BuildQuerySpec(t, fields, raw);
  }

  lemma {:induction false} RenameWfQuery(q: Query, fields: map<string, string>)
    requires WfQuery(q) && MapsToFieldNames(fields)
    ensures WfQuery(RenameQuery(q, fields))
  {
    match q
    case LastClause(c) =>
      RenameWfClause(c, fields);
    case MoreClauses(c, _, rest) =>
      RenameWfClause(c, fields);
      RenameWfQuery(rest, fields);
  }

  lemma {:induction false} RenameWfClause(c: Clause, fields: map<string, string>)
    requires WfClause(c) && MapsToFieldNames(fields)
    ensures WfClause(RenameClause(c, fields))
  {
    match c.body
    case EmptyFieldClause(_) =>
    case FieldedClause(_, v) =>
      RenameWfValue(v, fields);
    case BareClause(v) =>
      RenameWfValue(v, fields);
  }

  lemma {:induction false} RenameWfValue(v: Value, fields: map<string, string>)
    requires WfValue(v) && MapsToFieldNames(fields)
    ensures WfValue(RenameValue(v, fields))
  {
    match v
    case BooleanClause(q) =>
      RenameWfQuery(q, fields);
    case _ =>
  }

  /** `field:literal`, the shape of the replacement tests: the mapped name
      when the field is a key, the field itself when it is raw or when the
      mapping is empty, and `FieldNotFoundError` otherwise. */
  lemma FieldedTerm(f: string, l: string, fields: map<string, string>, raw: set<string>)
    requires IsFieldName(f) && IsLiteral(l)
    ensures Rejected(f, fields, raw) ==>
      RunGrammar(f + ":" + l, fields, raw) == Failure(FieldNotFoundError(f))
    ensures !Rejected(f, fields, raw) ==>
      RunGrammar(f + ":" + l, fields, raw) == Success(RenamedField(f, fields) + ":" + l)
  {
    var s := f + ":" + l;
    var c := Clause(None, FieldedClause(f, TermValue(Term(l, None, None))));
    assert RunGrammar(s, fields, raw) == BuildQuery(LastClause(c), fields, raw) by {
      FieldedTermStrip(f, l);
      FieldedTermParse(f, l);
      RunOfParsed(s, LastClause(c), fields, raw);
    }
    FieldedTermBuild(f, l, fields, raw);
  }

  lemma FieldedTermParse(f: string, l: string)
    requires IsFieldName(f) && IsLiteral(l)
    ensures Parse(f + ":" + l) == Some(LastClause(Clause(None, FieldedClause(f, TermValue(Term(l, None, None))))))
  {
    FieldedTermClause(f, l);
    OneClause(f + ":" + l, Clause(None, FieldedClause(f, TermValue(Term(l, None, None)))));
  }

  /** A query already stripped, parsed into `t`, is rebuilt from `t`. */
  lemma RunOfParsed(s: string, t: Query, fields: map<string, string>, raw: set<string>)
    requires Strip(s) == s && Parse(s) == Some(t)
    ensures RunGrammar(s, fields, raw) == BuildQuery(t, fields, raw)
  {
  }

  lemma FieldedTermBuild(f: string, l: string, fields: map<string, string>, raw: set<string>)
    ensures
      var c := Clause(None, FieldedClause(f, TermValue(Term(l, None, None))));
      BuildQuery(LastClause(c), fields, raw)
        == if Rejected(f, fields, raw) then Failure(FieldNotFoundError(f)) else Success(RenamedField(f, fields) + ":" + l)
  {
    var term := Term(l, None, None);
    assert TermText(term) == l;
    assert BuildValue(TermValue(term), fields, raw) == Success(l);
    var c := Clause(None, FieldedClause(f, TermValue(term)));
    if !Rejected(f, fields, raw) {
      var g := RenamedField(f, fields);
      assert CheckField(f, fields, raw) == Success(g);
      assert OperatorText(None) + g + ":" + l == g + ":" + l;
      assert BuildClause(c, fields, raw) == Success(g + ":" + l);
    }
  }

  lemma FieldedTermStrip(f: string, l: string)
    requires IsFieldName(f) && IsLiteral(l)
    ensures Strip(f + ":" + l) == f + ":" + l
  {
    ClassFacts(f[0]);
    ClassFacts(l[|l| - 1]);
    assert (f + ":" + l)[0] == f[0];
    assert (f + ":" + l)[|f + ":" + l| - 1] == l[|l| - 1];
  }

  /** A literal alone is a term with no suffix and no boost. */
  lemma LiteralTerm(l: string)
    requires IsLiteral(l)
    ensures MatchFieldValue(l) == Matched(TermValue(Term(l, None, None)), [])
  {
    MatchLiteralOf(l, []);
    assert l + [] == l;
  }

  lemma FieldedTermClause(f: string, l: string)
    requires IsFieldName(f) && IsLiteral(l)
    ensures MatchClause(f + ":" + l) == Matched(Clause(None, FieldedClause(f, TermValue(Term(l, None, None)))), [])
  {
    var x := ":" + l;
    var s := f + x;
    assert f + ":" + l == s;
    assert MatchOptionalOperator(s) == Matched(None, s) by {
      ClassFacts(f[0]);
      assert s[0] == f[0];
    }
    assert MatchFieldName(s) == Matched(f, x) by {
      ClassFacts(':');
      MatchFieldNameOf(f, x);
    }
    assert x[1..] == l;
    assert MatchEmptyFieldClause(s).NoMatch? by {
      EmptyFieldOf(s);
      ClassFacts(l[0]);
    }
    assert MatchFieldedClause(s) == Matched(FieldedClause(f, TermValue(Term(l, None, None))), []) by {
      FieldedParts(s);
      LiteralTerm(l);
    }
    ClauseParts(s);
  }

  /** A clause that takes the whole text is the whole query. */
  lemma OneClause(s: string, c: Clause)
    requires MatchClause(s) == Matched(c, [])
    ensures Parse(s) == Some(LastClause(c))
  {
    assert MatchWhitespace([]).NoMatch?;
  }

  // ---------------------------------------------------------------------
  // Empty fields.

  /** A field name and a colon with nothing but whitespace after it is
      accepted by `validate_query` but raises `EmptyFieldQueryError` in
      both parse functions, whatever the mapping. */
  lemma EmptyFieldRaises(f: string, w: string, fields: map<string, string>, raw: set<string>)
    requires IsFieldName(f)
    requires forall i :: 0 <= i < |w| ==> IsSpace(w[i])
    ensures RunGrammar(f + ":" + w, fields, raw) == Failure(EmptyFieldQueryError(f))
    ensures ValidateQuery(f + ":" + w)
  {
    var s := f + ":";
    var c := Clause(None, EmptyFieldClause(f));
    assert Strip(f + ":" + w) == s by {
      EmptyFieldStrip(f, w);
    }
    assert Parse(s) == Some(LastClause(c)) by {
      EmptyFieldClauseOf(f);
      OneClause(s, c);
    }
    assert BuildClause(c, fields, raw) == Failure(EmptyFieldQueryError(f));
    assert BuildQuery(LastClause(c), fields, raw) == Failure(EmptyFieldQueryError(f));
    assert RunGrammar(f + ":" + w, fields, raw) == BuildQuery(LastClause(c), fields, raw);
  }

  lemma EmptyFieldStrip(f: string, w: string)
    requires IsFieldName(f)
    requires forall i :: 0 <= i < |w| ==> IsSpace(w[i])
    ensures Strip(f + ":" + w) == f + ":"
  {
    ClassFacts(f[0]);
    ClassFacts(':');
    StripTrailingSpace(f + ":", w);
  }

  lemma EmptyFieldClauseOf(f: string)
    requires IsFieldName(f)
    ensures MatchClause(f + ":") == Matched(Clause(None, EmptyFieldClause(f)), [])
  {
    var s := f + ":";
    assert MatchOptionalOperator(s) == Matched(None, s) by {
      ClassFacts(f[0]);
      assert s[0] == f[0];
    }
    EmptyFieldOfColon(f);
    ClauseParts(s);
  }

  lemma EmptyFieldOfColon(f: string)
    requires IsFieldName(f)
    ensures MatchEmptyFieldClause(f + ":") == Matched(f, [])
  {
    assert MatchFieldName(f + ":") == Matched(f, ":") by {
      ClassFacts(':');
      MatchFieldNameOf(f, ":");
    }
    EmptyFieldOf(f + ":");
  }

  /** Stripping drops trailing whitespace after a text that opens and
      closes with a non-space character. */
  lemma StripTrailingSpace(s: string, w: string)
    requires SolidEnds(s)
    requires forall i :: 0 <= i < |w| ==> IsSpace(w[i])
    ensures Strip(s + w) == s
  {
    assert Span(s + w, IsSpace) == 0;
    assert StripLeft(s + w) == s + w;
    StripRightSpace(s, w);
  }

  lemma {:induction false} StripRightSpace(s: string, w: string)
    requires SolidEnds(s)
    requires forall i :: 0 <= i < |w| ==> IsSpace(w[i])
    ensures StripRight(s + w) == s
    decreases |w|
  {
    if w == [] {
      assert s + w == s;
    } else {
      var w' := w[..|w| - 1];
      assert (s + w)[..|s + w| - 1] == s + w';
      StripRightSpace(s, w');
    }
  }
}
