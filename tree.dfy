/**
 * The parse tree of the query grammar: one constructor per production, the
 * source text each node was parsed from, the shape the grammar guarantees
 * of every node, and the field names a tree mentions.
 */
module ParseTree {
  import opened Wrappers
  import opened CharClasses
  import opened Strings

  /** `query = clause (whitespace clause)*` */
  datatype Query =
    | LastClause(clause: Clause)
    | MoreClauses(clause: Clause, space: string, rest: Query)

  /** `clause = optional_operator? (empty_field_clause / fielded_clause / term_or_phrase / boolean_clause / range_clause)` */
  datatype Clause = Clause(operator: Option<char>, body: ClauseBody)

  datatype ClauseBody =
    | EmptyFieldClause(field: string)             // field_name ":" !~r"."
    | FieldedClause(field: string, value: Value)  // field_name ":" (term / phrase / range_clause / boolean_clause)
    | BareClause(value: Value)                    // term_or_phrase / boolean_clause / range_clause

  datatype Value =
    | TermValue(term: Term)
    | PhraseValue(phrase: Phrase)
    | BooleanClause(query: Query)                 // "(" query ")"
    | RangeClause(range: Range)

  /** `range_inclusive` ("[" ... "]") when `inclusive`, otherwise `range_exclusive` ("{" ... "}");
      the two spaces surround the keyword `TO`. */
  datatype Range = Range(inclusive: bool, lower: RangeValue, space1: string, space2: string, upper: RangeValue)

  /** `range_value = wildcard_multiple / term` */
  datatype RangeValue = AnyValue | BoundValue(term: Term)

  /** `term = literal (wildcard / fuzziness)? boost?` */
  datatype Term = Term(literal: string, suffix: Option<TermSuffix>, boost: Option<Boost>)
  datatype TermSuffix = TermWildcard(wildcard: Wildcard) | TermFuzziness(fuzziness: Fuzziness)

  /** `wildcard = wildcard_multiple / wildcard_single` */
  datatype Wildcard = WildcardMultiple | WildcardSingle

  /** `fuzziness = "~" digit?` */
  datatype Fuzziness = Fuzziness(digit: Option<char>)

  /** `boost = "^" number` */
  datatype Boost = Boost(number: string)

  /** `phrase = '"' literal (whitespace literal)* '"' (boost / fuzziness)?` */
  datatype Phrase = Phrase(words: Words, suffix: Option<PhraseSuffix>)
  datatype Words =
    | LastWord(literal: string)
    | MoreWords(literal: string, space: string, rest: Words)
  datatype PhraseSuffix = PhraseBoost(boost: Boost) | PhraseFuzziness(fuzziness: Fuzziness)

  // ---------------------------------------------------------------------
  // The text each node was parsed from.

  function WildcardText(w: Wildcard): string {
    match w
    case WildcardMultiple => "*"
    case WildcardSingle => "?"
  }

  function FuzzinessText(f: Fuzziness): string {
    match f.digit
    case None => "~"
    case Some(d) => "~" + [d]
  }

  function BoostText(b: Boost): string {
    "^" + b.number
  }

  function TermSuffixText(x: Option<TermSuffix>): string {
    match x
    case None => ""
    case Some(TermWildcard(w)) => WildcardText(w)
    case Some(TermFuzziness(f)) => FuzzinessText(f)
  }

  function OptionalBoostText(b: Option<Boost>): string {
    match b
    case None => ""
    case Some(b) => BoostText(b)
  }

  function TermText(t: Term): string {
    t.literal + TermSuffixText(t.suffix) + OptionalBoostText(t.boost)
  }

  function WordsText(w: Words): string {
    match w
    case LastWord(l) => l
    case MoreWords(l, sp, rest) => l + sp + WordsText(rest)
  }

  function PhraseSuffixText(x: Option<PhraseSuffix>): string {
    match x
    case None => ""
    case Some(PhraseBoost(b)) => BoostText(b)
    case Some(PhraseFuzziness(f)) => FuzzinessText(f)
  }

  function PhraseText(p: Phrase): string {
    "\"" + WordsText(p.words) + "\"" + PhraseSuffixText(p.suffix)
  }

  function RangeValueText(v: RangeValue): string {
    match v
    case AnyValue => "*"
    case BoundValue(t) => TermText(t)
  }

  function RangeOpen(inclusive: bool): string {
    if inclusive then "[" else "{"
  }

  function RangeClose(inclusive: bool): string {
    if inclusive then "]" else "}"
  }

  function RangeText(r: Range): string {
    RangeOpen(r.inclusive) + RangeValueText(r.lower) + r.space1 + "TO" + r.space2
      + RangeValueText(r.upper) + RangeClose(r.inclusive)
  }

  function OperatorText(op: Option<char>): string {
    match op
    case None => ""
    case Some(c) => [c]
  }

  function QueryText(q: Query): string {
    match q
    case LastClause(c) => ClauseText(c)
    case MoreClauses(c, sp, rest) => ClauseText(c) + sp + QueryText(rest)
  }

  function ClauseText(c: Clause): string {
    OperatorText(c.operator) + ClauseBodyText(c.body)
  }

  function ClauseBodyText(b: ClauseBody): string {
    match b
    case EmptyFieldClause(f) => f + ":"
    case FieldedClause(f, v) => f + ":" + ValueText(v)
    case BareClause(v) => ValueText(v)
  }

  function ValueText(v: Value): string {
    match v
    case TermValue(t) => TermText(t)
    case PhraseValue(p) => PhraseText(p)
    case BooleanClause(q) => "(" + QueryText(q) + ")"
    case RangeClause(r) => RangeText(r)
  }

  // ---------------------------------------------------------------------
  // What the grammar's regular expressions guarantee of every node.

  /** `~r"[\w.,!:;@\^\-/\|]+"` */
  predicate IsLiteral(s: string) {
    |s| > 0 && forall i :: 0 <= i < |s| ==> IsLiteralChar(s[i])
  }

  /** `~r"[a-zA-Z_][a-zA-Z0-9_]*"` */
  predicate IsFieldName(s: string) {
    |s| > 0 && IsFieldStart(s[0]) && forall i :: 0 <= i < |s| ==> IsFieldChar(s[i])
  }

  /** `~r"[0-9]+(\.[0-9]+)?"` */
  predicate IsNumber(s: string) {
    var n := Span(s, IsDigit);
    && n > 0
    && (n == |s| || (s[n] == '.' && n + 1 < |s| && forall i :: n < i < |s| ==> IsDigit(s[i])))
  }

  predicate WfOperator(op: Option<char>) {
    op.None? || IsOperator(op.value)
  }

  predicate WfFuzziness(f: Fuzziness) {
    f.digit.None? || IsDigit(f.digit.value)
  }

  predicate WfBoost(b: Option<Boost>) {
    b.None? || IsNumber(b.value.number)
  }

  predicate WfTerm(t: Term) {
    && IsLiteral(t.literal)
    && (t.suffix.Some? && t.suffix.value.TermFuzziness? ==> WfFuzziness(t.suffix.value.fuzziness))
    && WfBoost(t.boost)
  }

  predicate WfWords(w: Words) {
    match w
    case LastWord(l) => IsLiteral(l)
    case MoreWords(l, sp, rest) => IsLiteral(l) && IsSpaceRun(sp) && WfWords(rest)
  }

  predicate WfPhraseSuffix(x: Option<PhraseSuffix>) {
    match x
    case None => true
    case Some(PhraseBoost(b)) => IsNumber(b.number)
    case Some(PhraseFuzziness(f)) => WfFuzziness(f)
  }

  predicate WfPhrase(p: Phrase) {
    WfWords(p.words) && WfPhraseSuffix(p.suffix)
  }

  predicate WfRangeValue(v: RangeValue) {
    v.BoundValue? ==> WfTerm(v.term)
  }

  predicate WfRange(r: Range) {
    WfRangeValue(r.lower) && IsSpaceRun(r.space1) && IsSpaceRun(r.space2) && WfRangeValue(r.upper)
  }

  predicate WfQuery(q: Query) {
    match q
    case LastClause(c) => WfClause(c)
    case MoreClauses(c, sp, rest) => WfClause(c) && IsSpaceRun(sp) && WfQuery(rest)
  }

  predicate WfClause(c: Clause) {
    WfOperator(c.operator) && WfClauseBody(c.body)
  }

  predicate WfClauseBody(b: ClauseBody) {
    match b
    case EmptyFieldClause(f) => IsFieldName(f)
    case FieldedClause(f, v) => IsFieldName(f) && WfValue(v)
    case BareClause(v) => WfValue(v)
  }

  predicate WfValue(v: Value) {
    match v
    case TermValue(t) => WfTerm(t)
    case PhraseValue(p) => WfPhrase(p)
    case BooleanClause(q) => WfQuery(q)
    case RangeClause(r) => WfRange(r)
  }

  // ---------------------------------------------------------------------
  // The field names a tree mentions, in the order the rebuilder visits them
  // (post-order, left to right: a fielded clause's value before its name).

  datatype FieldRef = EmptyFieldRef(name: string) | FieldNameRef(name: string)

  function QueryFieldRefs(q: Query): seq<FieldRef> {
    match q
    case LastClause(c) => ClauseFieldRefs(c)
    case MoreClauses(c, _, rest) => ClauseFieldRefs(c) + QueryFieldRefs(rest)
  }

  function ClauseFieldRefs(c: Clause): seq<FieldRef> {
    match c.body
    case EmptyFieldClause(f) => [EmptyFieldRef(f)]
    case FieldedClause(f, v) => ValueFieldRefs(v) + [FieldNameRef(f)]
    case BareClause(v) => ValueFieldRefs(v)
  }

  function ValueFieldRefs(v: Value): seq<FieldRef> {
    match v
    case BooleanClause(q) => QueryFieldRefs(q)
    case _ => []
  }

  // ---------------------------------------------------------------------
  // Renaming every fielded clause's field through a mapping.

  /** The name a field is replaced by: its mapped value when it is a key,
      itself otherwise. */
  function RenamedField(f: string, mapping: map<string, string>): string {
    if f in mapping then mapping[f] else f
  }

  function RenameQuery(q: Query, mapping: map<string, string>): Query {
    match q
    case LastClause(c) => LastClause(RenameClause(c, mapping))
    case MoreClauses(c, sp, rest) => MoreClauses(RenameClause(c, mapping), sp, RenameQuery(rest, mapping))
  }

  function RenameClause(c: Clause, mapping: map<string, string>): Clause {
    match c.body
    case EmptyFieldClause(_) => c
    case FieldedClause(f, v) => Clause(c.operator, FieldedClause(RenamedField(f, mapping), RenameValue(v, mapping)))
    case BareClause(v) => Clause(c.operator, BareClause(RenameValue(v, mapping)))
  }

  function RenameValue(v: Value, mapping: map<string, string>): Value {
    match v
    case BooleanClause(q) => BooleanClause(RenameQuery(q, mapping))
    case _ => v
  }

  // ---------------------------------------------------------------------
  // Lemmas about the text of well-formed nodes.

  lemma LiteralNoSpace(s: string)
    requires IsLiteral(s) || IsFieldName(s) || IsNumber(s)
    ensures NoSpace(s) && s != []
  {
    forall i | 0 <= i < |s| ensures !IsSpace(s[i]) {
      ClassFacts(s[i]);
    }
  }

  /** The text of a term, a range bound or a suffix holds no whitespace. */
  lemma TermNoSpace(t: Term)
    requires WfTerm(t)
    ensures NoSpace(TermText(t)) && TermText(t) != []
  {
    LiteralNoSpace(t.literal);
    var sx := TermSuffixText(t.suffix);
    if t.suffix.Some? && t.suffix.value.TermFuzziness? && t.suffix.value.fuzziness.digit.Some? {
      ClassFacts(t.suffix.value.fuzziness.digit.value);
    }
    assert NoSpace(sx);
    var bt := OptionalBoostText(t.boost);
    if t.boost.Some? {
      LiteralNoSpace(t.boost.value.number);
      NoSpaceAppend("^", t.boost.value.number);
    }
    assert NoSpace(bt);
    NoSpaceAppend(t.literal, sx);
    NoSpaceAppend(t.literal + sx, bt);
  }

  lemma PhraseSuffixNoSpace(x: Option<PhraseSuffix>)
    requires WfPhraseSuffix(x)
    ensures NoSpace(PhraseSuffixText(x))
  {
    match x
    case None =>
    case Some(PhraseBoost(b)) =>
      LiteralNoSpace(b.number);
      NoSpaceAppend("^", b.number);
    case Some(PhraseFuzziness(f)) =>
      if f.digit.Some? {
        ClassFacts(f.digit.value);
      }
  }

  lemma RangeValueNoSpace(v: RangeValue)
    requires WfRangeValue(v)
    ensures NoSpace(RangeValueText(v)) && RangeValueText(v) != []
  {
    if v.BoundValue? {
      TermNoSpace(v.term);
    }
  }

  lemma {:induction false} WordsEnds(w: Words)
    requires WfWords(w)
    ensures SolidEnds(WordsText(w))
  {
    match w
    case LastWord(l) =>
      LiteralNoSpace(l);
    case MoreWords(l, sp, rest) =>
      LiteralNoSpace(l);
      WordsEnds(rest);
  }

  /** Every well-formed clause, value and query starts and ends with a
      non-space character. */
  lemma {:induction false} QueryEnds(q: Query)
    requires WfQuery(q)
    ensures SolidEnds(QueryText(q))
  {
    match q
    case LastClause(c) =>
      ClauseEnds(c);
    case MoreClauses(c, sp, rest) =>
      ClauseEnds(c);
      QueryEnds(rest);
  }

  lemma {:induction false} ClauseEnds(c: Clause)
    requires WfClause(c)
    ensures SolidEnds(ClauseText(c))
  {
    match c.body
    case EmptyFieldClause(f) =>
      LiteralNoSpace(f);
    case FieldedClause(f, v) =>
      LiteralNoSpace(f);
      ValueEnds(v);
    case BareClause(v) =>
      ValueEnds(v);
  }

  lemma {:induction false} ValueEnds(v: Value)
    requires WfValue(v)
    ensures SolidEnds(ValueText(v))
  {
    match v
    case TermValue(t) =>
      TermNoSpace(t);
    case PhraseValue(p) =>
      PhraseSuffixNoSpace(p.suffix);
    case BooleanClause(q) =>
    case RangeClause(r) =>
      RangeValueNoSpace(r.lower);
      RangeValueNoSpace(r.upper);
  }
}
