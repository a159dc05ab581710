/**
 * The rebuilder that walks a parse tree and prints the normalised query.
 * Children are visited before their parent, left to right, so the error
 * raised is the first one met in that order; a fielded clause visits its
 * value before it checks its own field.
 */
module QueryBuilder {
  import opened Wrappers
  import opened CharClasses
  import opened Strings
  import opened ParseTree

  /** The three exceptions the translator raises. */
  datatype QueryError =
    | QueryParseError
    | FieldNotFoundError(field: string)
    | EmptyFieldQueryError(field: string)

  /** A field the allow-list refuses: the mapping is non-empty (an empty or
      absent mapping switches the check off) and the field is neither one
      of its keys nor a raw field name. */
  predicate Rejected(f: string, fields: map<string, string>, raw: set<string>) {
    |fields| > 0 && f !in fields && f !in raw
  }

  /** `visit_fielded_clause`'s treatment of the field name. */
  function CheckField(f: string, fields: map<string, string>, raw: set<string>): (r: Result<string, QueryError>)
    ensures r.Failure? <==> Rejected(f, fields, raw)
    ensures r.Failure? ==> r.error == FieldNotFoundError(f)
    ensures r.Success? && f in fields ==> r.value == fields[f]
    ensures r.Success? && f !in fields ==> r.value == f
  {
    if |fields| == 0 then
      Success(f)
    else if f !in fields && f !in raw then
      Failure(FieldNotFoundError(f))
    else
      Success(RenamedField(f, fields))
  }

  /** `visit_query`: clauses joined by what `visit_whitespace` returns, one space. */
  function BuildQuery(q: Query, fields: map<string, string>, raw: set<string>): (r: Result<string, QueryError>)
    ensures r.Failure? ==> !r.error.QueryParseError?
  {
    match q
    case LastClause(c) => BuildClause(c, fields, raw)
    case MoreClauses(c, _, rest) =>
      var head :- BuildClause(c, fields, raw);
      var tail :- BuildQuery(rest, fields, raw);
      Success(head + " " + tail)
  }

  /** `visit_clause`, `visit_empty_field_clause` and `visit_fielded_clause`. */
  function BuildClause(c: Clause, fields: map<string, string>, raw: set<string>): (r: Result<string, QueryError>)
    ensures r.Failure? ==> !r.error.QueryParseError?
  {
    match c.body
    case EmptyFieldClause(f) => Failure(EmptyFieldQueryError(f))
    case FieldedClause(f, v) =>
      var value :- BuildValue(v, fields, raw);
      var field :- CheckField(f, fields, raw);
      Success(OperatorText(c.operator) + field + ":" + value)
    case BareClause(v) =>
      var value :- BuildValue(v, fields, raw);
      Success(OperatorText(c.operator) + value)
  }

  /** Terms and suffixes come out as their text, a phrase with one space
      between its words, a range with one space around `TO`, a group
      between its parentheses. */
  function BuildValue(v: Value, fields: map<string, string>, raw: set<string>): (r: Result<string, QueryError>)
    ensures r.Failure? ==> !r.error.QueryParseError?
  {
    match v
    case TermValue(t) => Success(TermText(t))
    case PhraseValue(p) => Success("\"" + WordsOutput(p.words) + "\"" + PhraseSuffixText(p.suffix))
    case BooleanClause(q) =>
      var inner :- BuildQuery(q, fields, raw);
      Success("(" + inner + ")")
    case RangeClause(range) =>
      Success(RangeOpen(range.inclusive) + RangeValueText(range.lower) + " " + "TO" + " "
        + RangeValueText(range.upper) + RangeClose(range.inclusive))
  }

  function WordsOutput(w: Words): string {
    match w
    case LastWord(l) => l
    case MoreWords(l, _, rest) => l + " " + WordsOutput(rest)
  }

  // ---------------------------------------------------------------------
  // Which error, if any: the first problem among the field references in
  // visiting order.

  function Problem(ref: FieldRef, fields: map<string, string>, raw: set<string>): Option<QueryError> {
    match ref
    case EmptyFieldRef(f) => Some(EmptyFieldQueryError(f))
    case FieldNameRef(f) => if Rejected(f, fields, raw) then Some(FieldNotFoundError(f)) else None
  }

  function FirstProblem(refs: seq<FieldRef>, fields: map<string, string>, raw: set<string>): (r: Option<QueryError>)
    ensures r.None? <==> forall i :: 0 <= i < |refs| ==> Problem(refs[i], fields, raw).None?
  {
    if refs == [] then
      None
    else if Problem(refs[0], fields, raw).Some? then
      Problem(refs[0], fields, raw)
    else
      assert forall i :: 0 <= i < |refs[1..]| ==> refs[1..][i] == refs[i + 1];
      FirstProblem(refs[1..], fields, raw)
  }

  /** The problem reported is the first one in the sequence. */
  lemma {:induction false} FirstProblemIsFirst(refs: seq<FieldRef>, fields: map<string, string>, raw: set<string>)
    requires FirstProblem(refs, fields, raw).Some?
    ensures exists i ::
      && 0 <= i < |refs|
      && Problem(refs[i], fields, raw) == FirstProblem(refs, fields, raw)
      && forall j :: 0 <= j < i ==> Problem(refs[j], fields, raw).None?
    decreases |refs|
  {
    if Problem(refs[0], fields, raw).None? {
      FirstProblemIsFirst(refs[1..], fields, raw);
      var i :| 0 <= i < |refs[1..]| && Problem(refs[1..][i], fields, raw) == FirstProblem(refs[1..], fields, raw)
        && forall j :: 0 <= j < i ==> Problem(refs[1..][j], fields, raw).None?;
      assert Problem(refs[i + 1], fields, raw) == FirstProblem(refs, fields, raw);
      forall j | 0 <= j < i + 1
        ensures Problem(refs[j], fields, raw).None?
      {
        if j > 0 {
          assert refs[j] == refs[1..][j - 1];
        }
      }
    } else {
      assert Problem(refs[0], fields, raw) == FirstProblem(refs, fields, raw);
    }
  }

  lemma {:induction false} FirstProblemAppend(a: seq<FieldRef>, b: seq<FieldRef>, fields: map<string, string>, raw: set<string>)
    ensures FirstProblem(a + b, fields, raw)
      == if FirstProblem(a, fields, raw).Some? then FirstProblem(a, fields, raw) else FirstProblem(b, fields, raw)
    decreases |a|
  {
    if a == [] {
      assert a + b == b;
    } else {
      assert (a + b)[0] == a[0];
      assert (a + b)[1..] == a[1..] + b;
      FirstProblemAppend(a[1..], b, fields, raw);
    }
  }

  /** With an empty mapping the raw set plays no part in the outcome. */
  lemma {:induction false} FirstProblemUnmapped(refs: seq<FieldRef>, raw: set<string>)
    ensures FirstProblem(refs, map[], raw) == FirstProblem(refs, map[], {})
    decreases |refs|
  {
    if refs != [] {
      FirstProblemUnmapped(refs[1..], raw);
    }
  }

  // ---------------------------------------------------------------------
  // The rebuilder's outcome: the first problem, or else the renamed tree
  // printed with no mapping at all.

  lemma {:induction false} BuildQuerySpec(q: Query, fields: map<string, string>, raw: set<string>)
    ensures FirstProblem(QueryFieldRefs(q), fields, raw).Some? ==>
      BuildQuery(q, fields, raw) == Failure(FirstProblem(QueryFieldRefs(q), fields, raw).value)
    ensures FirstProblem(QueryFieldRefs(q), fields, raw).None? ==>
      BuildQuery(q, fields, raw) == BuildQuery(RenameQuery(q, fields), map[], {})
      && BuildQuery(q, fields, raw).Success?
  {
    match q
    case LastClause(c) =>
      BuildClauseSpec(c, fields, raw);
    case MoreClauses(c, _, rest) =>
      BuildClauseSpec(c, fields, raw);
      BuildQuerySpec(rest, fields, raw);
      FirstProblemAppend(ClauseFieldRefs(c), QueryFieldRefs(rest), fields, raw);
  }

  lemma {:induction false} BuildClauseSpec(c: Clause, fields: map<string, string>, raw: set<string>)
    ensures FirstProblem(ClauseFieldRefs(c), fields, raw).Some? ==>
      BuildClause(c, fields, raw) == Failure(FirstProblem(ClauseFieldRefs(c), fields, raw).value)
    ensures FirstProblem(ClauseFieldRefs(c), fields, raw).None? ==>
      BuildClause(c, fields, raw) == BuildClause(RenameClause(c, fields), map[], {})
      && BuildClause(c, fields, raw).Success?
  {
    match c.body
    case EmptyFieldClause(f) =>
      assert ClauseFieldRefs(c)[0] == EmptyFieldRef(f);
    case FieldedClause(f, v) =>
      BuildValueSpec(v, fields, raw);
      FirstProblemAppend(ValueFieldRefs(v), [FieldNameRef(f)], fields, raw);
      assert FirstProblem([FieldNameRef(f)], fields, raw)
        == if Rejected(f, fields, raw) then Some(FieldNotFoundError(f)) else None;
    case BareClause(v) =>
      BuildValueSpec(v, fields, raw);
  }

  lemma {:induction false} BuildValueSpec(v: Value, fields: map<string, string>, raw: set<string>)
    ensures FirstProblem(ValueFieldRefs(v), fields, raw).Some? ==>
      BuildValue(v, fields, raw) == Failure(FirstProblem(ValueFieldRefs(v), fields, raw).value)
    ensures FirstProblem(ValueFieldRefs(v), fields, raw).None? ==>
      BuildValue(v, fields, raw) == BuildValue(RenameValue(v, fields), map[], {})
      && BuildValue(v, fields, raw).Success?
  {
    match v
    case TermValue(_) =>
    case PhraseValue(_) =>
    case BooleanClause(q) =>
      BuildQuerySpec(q, fields, raw);
    case RangeClause(_) =>
  }

  /** Renaming through an empty mapping changes nothing. */
  lemma {:induction false} RenameUnmappedQuery(q: Query)
    ensures RenameQuery(q, map[]) == q
  {
    match q
    case LastClause(c) =>
      RenameUnmappedClause(c);
    case MoreClauses(c, _, rest) =>
      RenameUnmappedClause(c);
      RenameUnmappedQuery(rest);
  }

  lemma {:induction false} RenameUnmappedClause(c: Clause)
    ensures RenameClause(c, map[]) == c
  {
    match c.body
    case EmptyFieldClause(_) =>
    case FieldedClause(_, v) =>
      RenameUnmappedValue(v);
    case BareClause(v) =>
      RenameUnmappedValue(v);
  }

  lemma {:induction false} RenameUnmappedValue(v: Value)
    ensures RenameValue(v, map[]) == v
  {
    match v
    case BooleanClause(q) =>
      RenameUnmappedQuery(q);
    case _ =>
  }

  /** With an empty (or absent) mapping the raw set is ignored. */
  lemma BuildUnmappedIgnoresRaw(q: Query, raw: set<string>)
    ensures BuildQuery(q, map[], raw) == BuildQuery(q, map[], {})
  {
    BuildQuerySpec(q, map[], raw);
    BuildQuerySpec(q, map[], {});
    FirstProblemUnmapped(QueryFieldRefs(q), raw);
    RenameUnmappedQuery(q);
  }

  // ---------------------------------------------------------------------
  // Without a mapping the output is the parsed text with every whitespace
  // run printed as one space.

  lemma WordsCollapse(w: Words)
    requires WfWords(w)
    ensures Collapse(WordsText(w)) == WordsOutput(w)
  {
    match w
    case LastWord(l) =>
      LiteralNoSpace(l);
      CollapseNoSpace(l);
    case MoreWords(l, sp, rest) =>
      LiteralNoSpace(l);
      WordsEnds(rest);
      WordsCollapse(rest);
      AppendAssoc(l, sp, WordsText(rest));
      CollapsePrefix(l, sp + WordsText(rest));
      CollapseSpaceRun(sp, WordsText(rest));
      AppendAssoc(l, " ", WordsOutput(rest));
  }

  lemma PhraseCollapse(p: Phrase)
    requires WfPhrase(p)
    ensures Collapse(PhraseText(p)) == "\"" + WordsOutput(p.words) + "\"" + PhraseSuffixText(p.suffix)
  {
    var w, x := WordsText(p.words), PhraseSuffixText(p.suffix);
    WordsEnds(p.words);
    WordsCollapse(p.words);
    PhraseSuffixNoSpace(p.suffix);
    QuotedCollapse("\"", w, x);
  }

  lemma QuotedCollapse(q: string, w: string, x: string)
    requires NoSpace(q) && NoSpace(x) && SolidEnds(w)
    ensures Collapse(q + w + q + x) == q + Collapse(w) + q + x
  {
    NoSpaceAppend(q, x);
    AppendAssoc(q + w, q, x);
    CollapseBetween(q, w, q + x);
    AppendAssoc(q + Collapse(w), q, x);
  }

  lemma RightNest(a: string, b: string, c: string, d: string, e: string, f: string)
    ensures a + b + c + d + e + f == a + (b + (c + (d + (e + f))))
  {
    AppendAssoc(a, b, c + (d + (e + f)));
    AppendAssoc(a + b, c, d + (e + f));
    AppendAssoc(a + b + c, d, e + f);
    AppendAssoc(a + b + c + d, e, f);
  }

  lemma RangeCollapse(r: Range)
    requires WfRange(r)
    ensures Collapse(RangeText(r)) == RangeOpen(r.inclusive) + RangeValueText(r.lower) + " " + "TO" + " "
      + RangeValueText(r.upper) + RangeClose(r.inclusive)
  {
    var open, lo, hi, close := RangeOpen(r.inclusive), RangeValueText(r.lower), RangeValueText(r.upper), RangeClose(r.inclusive);
    var head := open + lo;
    RangeValueNoSpace(r.lower);
    RangeValueNoSpace(r.upper);
    NoSpaceAppend(open, lo);
    NoSpaceAppend(hi, close);
    RightNest(head, r.space1, "TO", r.space2, hi, close);
    RightNest(head, " ", "TO", " ", hi, close);
    calc {
      Collapse(RangeText(r));
      Collapse(head + (r.space1 + ("TO" + (r.space2 + (hi + close)))));
      { CollapsePrefix(head, r.space1 + ("TO" + (r.space2 + (hi + close)))); }
      head + Collapse(r.space1 + ("TO" + (r.space2 + (hi + close))));
      { CollapseSpaceRun(r.space1, "TO" + (r.space2 + (hi + close))); }
      head + (" " + Collapse("TO" + (r.space2 + (hi + close))));
      { CollapsePrefix("TO", r.space2 + (hi + close)); }
      head + (" " + ("TO" + Collapse(r.space2 + (hi + close))));
      { CollapseSpaceRun(r.space2, hi + close); CollapseNoSpace(hi + close); }
      head + (" " + ("TO" + (" " + (hi + close))));
    }
  }

  lemma {:induction false} BuildCollapseQuery(q: Query, raw: set<string>)
    requires WfQuery(q) && BuildQuery(q, map[], raw).Success?
    ensures BuildQuery(q, map[], raw).value == Collapse(QueryText(q))
  {
    match q
    case LastClause(c) =>
      BuildCollapseClause(c, raw);
    case MoreClauses(c, sp, rest) =>
      var head, tail := BuildClause(c, map[], raw).value, BuildQuery(rest, map[], raw).value;
      assert BuildQuery(q, map[], raw).value == head + " " + tail;
      BuildCollapseClause(c, raw);
      BuildCollapseQuery(rest, raw);
      ClauseEnds(c);
      QueryEnds(rest);
      calc {
        Collapse(QueryText(q));
        Collapse(ClauseText(c) + sp + QueryText(rest));
        { AppendAssoc(ClauseText(c), sp, QueryText(rest)); }
        Collapse(ClauseText(c) + (sp + QueryText(rest)));
        { CollapseAppend(ClauseText(c), sp + QueryText(rest)); }
        head + Collapse(sp + QueryText(rest));
        { CollapseSpaceRun(sp, QueryText(rest)); }
        head + (" " + tail);
        { AppendAssoc(head, " ", tail); }
        head + " " + tail;
      }
  }

  lemma {:induction false} BuildCollapseClause(c: Clause, raw: set<string>)
    requires WfClause(c) && BuildClause(c, map[], raw).Success?
    ensures BuildClause(c, map[], raw).value == Collapse(ClauseText(c))
  {
    var op := OperatorText(c.operator);
    if c.operator.Some? {
      ClassFacts(c.operator.value);
    }
    assert NoSpace(op);
    match c.body
    case EmptyFieldClause(_) =>
    case FieldedClause(f, v) =>
      var value := BuildValue(v, map[], raw).value;
      assert BuildClause(c, map[], raw).value == op + f + ":" + value;
      BuildCollapseValue(v, raw);
      LiteralNoSpace(f);
      NoSpaceAppend(op, f);
      NoSpaceAppend(op + f, ":");
      calc {
        Collapse(ClauseText(c));
        Collapse(op + (f + ":" + ValueText(v)));
        { AppendAssoc(op, f + ":", ValueText(v)); AppendAssoc(op, f, ":"); }
        Collapse((op + f + ":") + ValueText(v));
        { CollapsePrefix(op + f + ":", ValueText(v)); }
        op + f + ":" + value;
      }
    case BareClause(v) =>
      BuildCollapseValue(v, raw);
      CollapsePrefix(op, ValueText(v));
  }

  lemma {:induction false} BuildCollapseValue(v: Value, raw: set<string>)
    requires WfValue(v) && BuildValue(v, map[], raw).Success?
    ensures BuildValue(v, map[], raw).value == Collapse(ValueText(v))
  {
    match v
    case TermValue(t) =>
      TermNoSpace(t);
      CollapseNoSpace(TermText(t));
    case PhraseValue(p) =>
      PhraseCollapse(p);
    case BooleanClause(q) =>
      BuildCollapseQuery(q, raw);
      QueryEnds(q);
      CollapseBetween("(", QueryText(q), ")");
    case RangeClause(r) =>
      RangeCollapse(r);
  }
}
