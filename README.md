# small-asc query translator and sync-client request shaping, in Dafny

This project models two parts of `small-asc`, a small Solr client:

- The query translator in `small_asc/query.py`. It has three parts:
  - A Lucene-style PEG grammar, run on the stripped query.
  - `LuceneQueryBuilder`, which walks the parse tree and prints a normalised query. It can rename fields through a mapping, or refuse fields that are neither mapped nor raw.
  - The entry points `parse_query`, `parse_with_field_replacements`, `validate_query` and `_run_grammar`.
- The request shaping in `small_asc/sync_client.py` that does not touch the network:
  - URL joining.
  - Preparing a cursor search.
  - The page count, `len` and non-cursor iteration of `SyncResults`.

## Layout

- `wrappers.dfy` (`Wrappers`): `Option` and `Result`, used in place of `None` and exceptions.
- `chars.dfy` (`CharClasses`): the regular-expression character classes, plus `\s` and `str.isspace()`.
- `strings.dfy` (`Strings`):
  - `Span`, the greedy match of a character class;
  - `str.strip()`;
  - `Collapse`, which replaces every whitespace run with one space.
- `tree.dfy` (`ParseTree`): one datatype per grammar production, each node's source text, well-formedness, the fields a tree refers to, and renaming.
- `grammar.dfy` (`Grammar`): the PEG as recursive descent, one function per rule, alternatives in the grammar's order. `ParseResult` is `NoMatch` or `Matched(tree, rest)`.
- `builder.dfy` (`QueryBuilder`): the `visit_*` methods as functions from a tree to `Result<string, QueryError>`, with their characterisation.
- `whitespace.dfy` (`Normalisation`): proves that the parser run on `Collapse(s)` behaves like the parser run on `s`. This is the core of the idempotence proof.
- `lucene.dfy` (`Lucene`): the entry points and the properties of the whole translator.
- `acceptance.dfy` (`Acceptance`):
  - a parsed query has balanced parentheses and quotes;
  - general lemmas for the rejected queries of the translator's tests.
- `reading.dfy` (`Reading`): what the grammar accepts, built up from the pieces:
  - terms, phrases and ranges read back as themselves;
  - fielded, signed and bare clauses;
  - sequences of clauses, and groups in parentheses;
  - the output of `parse_query` for each of those shapes.
- `sync_client.dfy` (`SyncClient`):
  - `_create_url`;
  - the cursor block of `search`, as a class whose method rewrites the query dictionary in place;
  - `num_pages`, `_is_cursor`, `__len__`;
  - non-cursor `__iter__`, as a class method with a loop.

Where the code does not do what its names, comments and tests suggest, the model follows the code:

- **`validate_query` is not "does not raise".** It only runs the grammar, so it accepts `title:`, which `parse_query` refuses with `EmptyFieldQueryError`. `Lucene.ValidateAgreesWithParse` states the relation the code gives: `validate_query` is false exactly when `parse_query` raises `QueryParseError`. `Lucene.EmptyFieldRaises` shows the gap.
- **An empty mapping counts as no mapping.** `if not self.replacement_field_names` treats an empty mapping like an absent one, so an empty mapping turns the field check off, raw set or not.
- **Idempotence holds only on success.** It holds for queries `parse_query` accepts. A syntactically valid query with an empty field raises, so there is nothing to re-parse.
- **`AND`/`OR`/`NOT` are plain literals.** `boolean_operator` and `term_sequence` are never referenced, so these words parse as literals and are printed unchanged. `default_operator` is stored and never used.
- **An empty field may be followed by a newline.** `empty_field_clause` ends with `!~r"."`, and `.` does not match a newline. So `title:` followed by a newline and further text is an empty field, and translation fails with `EmptyFieldQueryError`.
- **A sort of exactly `id asc` gets a second tie-breaker.** The comment says the test for `" id asc"` with its leading space looks for a standalone `id` field. But a sort that is exactly `id asc` has no leading space, so it fails the test and becomes `id asc, id asc`. `SyncClient.IdAscExtended` proves this. `SyncClient.SecondPreparation` shows that preparing a query a second time therefore raises `NoCursorSort`, except when the sort is exactly `id asc`.

## Model

| member | source | states |
|---|---|---|
| CharClasses.ClassFacts | small_asc/query.py:17-56 | the grammar's character classes nest as their regular expressions say, and no token character is whitespace |
| Strings.Span | small_asc/query.py:17 | a greedy `[...]*` match: every character before the returned length is in the class, and the one after it is not |
| Strings.Strip | small_asc/query.py:194 | `str.strip()`: the result is a slice of the input with nothing but whitespace before and after it, and it opens and closes with non-whitespace; a text already like that is returned unchanged |
| Strings.StripIdempotent | small_asc/query.py:194 | stripping twice is stripping once |
| Strings.Collapse | small_asc/query.py:165-167 | each whitespace run becomes one space: no longer than the input, empty exactly when the input is, first and last characters kept or turned into a space |
| Strings.CollapseAppend | small_asc/query.py:84-94 | collapsing distributes over a concatenation whose seam does not fall inside a whitespace run |
| Strings.CollapseIdempotent | small_asc/query.py:165-167 | collapsing twice is collapsing once |
| Grammar.MatchWhitespace | small_asc/query.py:56 | `\s+` matches exactly a non-empty prefix run of whitespace and stops before the next non-space |
| Grammar.MatchLiteral | small_asc/query.py:35 | matches the longest non-empty run of literal characters, and fails exactly when the text does not start with one |
| Grammar.MatchFieldName | small_asc/query.py:17 | a letter or underscore then letters, digits and underscores, as long as possible; fails exactly on a bad first character |
| Grammar.MatchLiteralOf | small_asc/query.py:35 | a literal followed by a non-literal character is read back as that literal |
| Grammar.MatchFieldNameOf | small_asc/query.py:17 | a field name followed by a character that cannot continue it is read back as that name |
| Grammar.MatchNumber | small_asc/query.py:48 | `[0-9]+(\.[0-9]+)?`: digits with an optional fraction; after the match there is no digit, and no dot-digit unless a fraction was taken |
| Grammar.MatchNumberOf | small_asc/query.py:48 | a number followed by what may end it is read back as that number |
| Grammar.MatchBoost | small_asc/query.py:47-48 | a matched boost is well formed (a number after `^`) and its text is the consumed prefix |
| Grammar.MatchFuzziness | small_asc/query.py:44 | a matched fuzziness is well formed (`~` and at most one digit) and its text is the consumed prefix |
| Grammar.MatchWildcard | small_asc/query.py:41-43 | a matched wildcard's text is the consumed prefix |
| Grammar.MatchTermSuffix | small_asc/query.py:41-44 | the optional wildcard or fuzziness always matches, its text is the consumed prefix, and a fuzziness taken is well formed |
| Grammar.MatchOptionalBoost | small_asc/query.py:32 | the optional boost always matches, is well formed, and its text is the consumed prefix |
| Grammar.MatchTerm | small_asc/query.py:32 | a literal, suffix and boost, whose text is the consumed prefix; fails exactly when no literal starts the text |
| Grammar.MatchWords | small_asc/query.py:33 | matched phrase words are well formed (literals separated by whitespace runs) and their text is the consumed prefix |
| Grammar.MatchPhraseSuffix | small_asc/query.py:33 | the optional boost or fuzziness after a phrase always matches, is well formed, and its text is the consumed prefix |
| Grammar.MatchPhrase | small_asc/query.py:33 | a matched phrase is well formed and its text (quote, words, quote, suffix) is the consumed prefix |
| Grammar.MatchRangeValue | small_asc/query.py:26 | a matched range bound is `*` or a well-formed term, and its text is the consumed prefix |
| Grammar.MatchBoundThenSpace | small_asc/query.py:24-25 | a bound then a whitespace run, whose text is the consumed prefix |
| Grammar.MatchRangeLower | small_asc/query.py:24-25 | the opening bracket, the lower bound, whitespace and `TO` |
| Grammar.MatchRangeUpper | small_asc/query.py:24-25 | whitespace, the upper bound and the closing bracket |
| Grammar.MatchRangeWith | small_asc/query.py:24-25 | a whole inclusive or exclusive range of the requested kind, whose text is the consumed prefix |
| Grammar.MatchRangeClause | small_asc/query.py:23-25 | a matched range, inclusive or exclusive, is well formed and its text is the consumed prefix |
| Grammar.MatchOptionalOperator | small_asc/query.py:51 | an optional `+` or `-` always matches, and its text is the consumed prefix |
| Grammar.MatchEmptyFieldClause | small_asc/query.py:12 | a field name and a colon followed by the end of the text or a newline |
| Grammar.MatchFieldedClause | small_asc/query.py:15 | a match is a fielded clause and consumes at least one character, which makes the mutual recursion terminate |
| Grammar.MatchFieldValue | small_asc/query.py:15 | a matched field value consumes at least one character |
| Grammar.MatchBareValue | small_asc/query.py:10 | a matched bare value consumes at least one character |
| Grammar.MatchBooleanClause | small_asc/query.py:20 | a matched group consumes at least one character |
| Grammar.MatchClause | small_asc/query.py:10 | a matched clause consumes at least one character |
| Grammar.MatchQuery | small_asc/query.py:8 | a matched query consumes at least one character |
| Grammar.QueryReadsText | small_asc/query.py:8-56 | a matched query is well formed, and its text is exactly the consumed prefix (likewise `ClauseReadsText`, `FieldedReadsText`, `FieldValueReadsText`, `BareValueReadsText`, `BooleanClauseReadsText`) |
| Grammar.Parse | small_asc/query.py:182 | a parse succeeds only when the query rule consumes the whole text; the tree is well formed and prints back as the input |
| QueryBuilder.CheckField | small_asc/query.py:102-119 | refused exactly when the mapping is non-empty and the field is neither a key nor raw, with `FieldNotFoundError(field)`; otherwise the mapped name, or the field itself |
| QueryBuilder.BuildQuery | small_asc/query.py:88-90 | the rebuilder never raises `QueryParseError` |
| QueryBuilder.BuildClause | small_asc/query.py:92-119 | a clause's rebuild never raises `QueryParseError` |
| QueryBuilder.BuildValue | small_asc/query.py:129-167 | a value's rebuild never raises `QueryParseError` |
| QueryBuilder.FirstProblem | small_asc/query.py:96-119 | no problem exactly when no field reference of the tree has one |
| QueryBuilder.FirstProblemIsFirst | small_asc/query.py:84-119 | the reported problem is that of some reference with no problem before it, in visiting order |
| QueryBuilder.FirstProblemAppend | small_asc/query.py:84-94 | the first problem of two sequences in a row is the first sequence's, or else the second's |
| QueryBuilder.BuildQuerySpec | small_asc/query.py:84-119 | the rebuild fails exactly with the first problem in visiting order; otherwise it succeeds, equal to printing the renamed tree with no mapping (likewise `BuildClauseSpec`, `BuildValueSpec`) |
| QueryBuilder.BuildUnmappedIgnoresRaw | small_asc/query.py:105-106 | with an empty mapping the raw set makes no difference |
| QueryBuilder.RenameUnmappedQuery | small_asc/query.py:105-117 | renaming through an empty mapping changes nothing |
| QueryBuilder.BuildCollapseQuery | small_asc/query.py:84-167 | a successful rebuild with no mapping is the tree's text with each whitespace run turned into one space |
| QueryBuilder.PhraseCollapse | small_asc/query.py:133-135 | a phrase's text, collapsed, is its words joined by single spaces between the quotes, then its suffix |
| QueryBuilder.RangeCollapse | small_asc/query.py:24-25 | a range's text, collapsed, has exactly one space on each side of `TO` |
| Normalisation.WhitespaceSim | small_asc/query.py:56 | whitespace matches on the collapsed text exactly when it matches on the original text; there it is one space, and the rest is the original rest collapsed |
| Normalisation.TermSim | small_asc/query.py:32 | the term rule gives the same tree on the collapsed text, with the rest collapsed (likewise `LiteralSim`, `FieldNameSim`, `NumberSim`, `BoostSim`, `FuzzinessSim`, `WildcardSim`, `RangeValueSim`, `OptionalOperatorSim`) |
| Normalisation.WordsSim | small_asc/query.py:33 | the phrase words match on the collapsed text exactly when they match on the original, and the rest collapses |
| Normalisation.PhraseSim | small_asc/query.py:33 | likewise for phrases |
| Normalisation.RangeClauseSim | small_asc/query.py:23-26 | likewise for ranges |
| Normalisation.RangeLowerSim | small_asc/query.py:24-25 | likewise for the bracket, the lower bound and `TO` |
| Normalisation.EmptyFieldSim | small_asc/query.py:12 | an empty field on the collapsed text is an empty field that ends the original text; such an empty field matches the same way on the collapsed text |
| Normalisation.EmptyFieldBeforeNewline | small_asc/query.py:10-15 | an empty field before a newline is, once collapsed, no fielded clause but a bare value whose rest is the collapsed rest |
| Normalisation.ClauseSim | small_asc/query.py:10 | a clause matches on the collapsed text exactly when it matches on the original; the rest collapses, and a clause with no empty field stays so |
| Normalisation.QuerySim | small_asc/query.py:8 | likewise for a whole query |
| Normalisation.BooleanClauseSim | small_asc/query.py:20 | likewise for a parenthesised group |
| Normalisation.FieldValueSim | small_asc/query.py:15 | likewise for a field value |
| Normalisation.BareValueSim | small_asc/query.py:10 | likewise for a bare value |
| Lucene.RunGrammar | small_asc/query.py:189-206 | `QueryParseError` exactly when the stripped query does not parse; otherwise the rebuilder's outcome on the tree |
| Lucene.ParseQuery | small_asc/query.py:170-171 | on success, the stripped query with whitespace runs collapsed; the only errors are a parse error and an empty field |
| Lucene.ParseWithFieldReplacements | small_asc/query.py:174-177 | `QueryParseError` exactly when the stripped query does not parse; with an empty mapping it is `parse_query` |
| Lucene.ValidateAgreesWithParse | small_asc/query.py:180-186 | `validate_query` is true exactly when `parse_query` does not raise `QueryParseError` |
| Lucene.NormalisedOutput | small_asc/query.py:189-206 | a successful run with no mapping returns the stripped query with each whitespace run turned into one space |
| Lucene.UnmappedErrors | small_asc/query.py:96-119 | without a mapping a run fails only with a parse error or an empty field |
| Lucene.UnmappedIgnoresRaw | small_asc/query.py:105-106 | with an empty mapping the raw field names play no part |
| Lucene.ParseQueryIdempotent | small_asc/query.py:170-171 | `parse_query` of the output of a successful `parse_query` succeeds and gives the same output |
| Lucene.ReplacementOutcome | small_asc/query.py:102-119 | with a mapping, the first refused or empty field in visiting order is the error; with none, the output is the renamed query, collapsed |
| Lucene.RejectedFieldFails | small_asc/query.py:108-112 | a refused field anywhere, nested groups included, fails the whole call with a builder error |
| Lucene.FieldedTerm | tests/test_query.py:51-82 | `field:literal` gives the mapped name, the raw or unmapped field as is, or `FieldNotFoundError` |
| Lucene.EmptyFieldRaises | small_asc/query.py:96-100 | `f:` followed by whitespace is valid for `validate_query` but raises `EmptyFieldQueryError(f)` in both parse functions, whatever the mapping |
| Acceptance.QueryBalanced | small_asc/query.py:20-33 | the text of a well-formed query has as many `(` as `)` and an even number of double quotes (likewise `ClauseBalanced`, `BodyBalanced`, `ValueBalanced`) |
| Acceptance.AcceptedIsBalanced | small_asc/query.py:180-186 | whatever `validate_query` accepts has, once stripped, as many `(` as `)` and an even number of quotes |
| Acceptance.UnbalancedRejected | small_asc/query.py:189-196 | a stripped query with unequal parenthesis counts or an odd quote count is refused with `QueryParseError` whatever the mapping, and `validate_query` is false |
| Acceptance.UnbalancedExamples | tests/test_query.py:42-45 | each of `"foo`, `bar"`, `(foo` and `bar)` raises `QueryParseError` and is not valid |
| Acceptance.StrayCharacter | small_asc/query.py:8-33 | a lone quote or parenthesis before or after a literal leaves a bare clause that is refused |
| Acceptance.HyphenatedFieldRejected | small_asc/query.py:12-35 | `f-g:"..."` is refused: the hyphen ends the field name, `f-g:` becomes a literal, and the quote after it starts no clause |
| Acceptance.HyphenatedFieldExample | tests/test_query.py:47 | `publisher-number:"G.H."` is refused and not valid |
| Acceptance.PhraseWildcardRejected | small_asc/query.py:15-33 | `f:"n*"` is refused: a phrase holds no wildcard |
| Acceptance.PhraseWildcardExample | tests/test_query.py:48 | `series:"1234*"` is refused and not valid |
| Acceptance.WildcardsRejected | small_asc/query.py:32-43 | a field name followed by two or more `?` is refused: one `?` binds, the next starts no clause |
| Acceptance.WildcardsExample | tests/test_query.py:46 | `fo?????` is refused and not valid |
| Reading.TermReads | small_asc/query.py:32 | a term, with its wildcard or fuzziness before any boost, is read back as itself whatever may end a clause after it |
| Reading.PhraseReads | small_asc/query.py:33 | every well-formed phrase, boost or fuzziness included, is read back as itself |
| Reading.RangeReads | small_asc/query.py:23-26 | an inclusive or exclusive range whose bounds are `*` or such terms is read back as itself |
| Reading.GroupReads | small_asc/query.py:20 | a text read as a query, in parentheses, is read as a group |
| Reading.BareReads | small_asc/query.py:10 | a value opening with neither a field-name character nor a sign is a clause of its own |
| Reading.WordReads | small_asc/query.py:10-35 | a term whose literal holds no colon and opens with no sign is a clause of its own: no field name and colon can be found in it |
| Reading.FieldedReads | small_asc/query.py:15 | any field name, a colon and any value is read as that fielded clause |
| Reading.SignedReads | small_asc/query.py:10 | a `+` or `-` before a clause without one is read as that clause with the sign |
| Reading.SingleReads | small_asc/query.py:8 | a clause is a query |
| Reading.MoreReads | small_asc/query.py:8 | a clause, any whitespace run and a query are read as one query |
| Reading.QueryAccepted | small_asc/query.py:170-206 | whatever is read as a query is valid, and `parse_query` returns it with each whitespace run turned into one space |
| Reading.TwoWords | tests/test_query.py:13-14 | two plain words separated by any whitespace run come out with one space between them |
| Reading.PhraseAccepted | tests/test_query.py:15 | a phrase, with or without a boost or fuzziness, comes out with one space between its words |
| Reading.TwoWordPhrase | tests/test_query.py:32 | `"a   b"` followed by any suffix comes out as `"a b"` with that suffix |
| Reading.RangeAccepted | tests/test_query.py:29-30 | `[lo TO hi]` and `{lo TO hi}`, each bound `*` or a term, come out with one space on each side of `TO` |
| Reading.GroupAccepted | tests/test_query.py:21 | an accepted query in parentheses is accepted and comes out in them |
| Reading.SignedAccepted | tests/test_query.py:25-27 | a `+` or `-` before a clause without one is accepted and kept |
| Reading.FieldedAccepted | tests/test_query.py:17-22 | any field name, a colon and any value is accepted and comes out as the field, the colon and the value as printed alone |
| Reading.SequenceAccepted | tests/test_query.py:27 | accepted clauses separated by any whitespace come out with one space between them |
| SyncClient.TrimTrailingSlashes | small_asc/sync_client.py:184 | `rstrip("/")`: a prefix followed only by slashes, not ending in one |
| SyncClient.TrimLeadingSlashes | small_asc/sync_client.py:184 | `lstrip("/")`: a suffix preceded only by slashes, not starting with one |
| SyncClient.CreateUrl | small_asc/sync_client.py:183-184 | there is a slash where the trimmed URL ends, with no slash just before or just after it |
| SyncClient.CreateUrlOf | small_asc/sync_client.py:183-184 | whatever slashes end the URL and start the handler, the result is the bare URL, one slash, the bare handler |
| SyncClient.CreateUrlTrailingSlash | small_asc/sync_client.py:184 | a final slash on the URL makes no difference |
| SyncClient.CreateUrlLeadingSlash | small_asc/sync_client.py:184 | a leading slash on the handler makes no difference |
| SyncClient.ContainsIff | small_asc/sync_client.py:131 | the `in` test on strings holds exactly when the substring occurs at some position |
| SyncClient.SearchRequest.constructor | small_asc/sync_client.py:110 | holds the query dictionary given to `search` |
| SyncClient.SearchRequest.PrepareCursor | small_asc/sync_client.py:117-136 | the query dictionary is left as `CursorPreparation` of the old one and the error is its error |
| SyncClient.OffsetRefused | small_asc/sync_client.py:118-121 | `OffsetWithCursor` exactly when there is a top-level `offset` or a `start` in `params`, and then nothing changes |
| SyncClient.CursorMarkSet | small_asc/sync_client.py:123-126 | otherwise `params` exists and `cursorMark` is `"*"`; the other parameters keep their values and none appear |
| SyncClient.OtherKeysKept | small_asc/sync_client.py:117-136 | no top-level key other than `params` and `sort` appears, disappears or changes |
| SyncClient.SortRules | small_asc/sync_client.py:127-136 | no sort anywhere: `id asc`; a top-level sort without ` id asc`: `, id asc` appended; a sort only in `params`, or one already holding ` id asc`: `NoCursorSort`, with the cursor mark already set |
| SyncClient.SortExtended | small_asc/sync_client.py:131-132 | a top-level sort without ` id asc` gets `, id asc` appended and the preparation succeeds |
| SyncClient.IdAscExtended | small_asc/sync_client.py:129-132 | a sort of exactly `id asc` becomes `id asc, id asc` |
| SyncClient.SingleFieldSortExtended | small_asc/sync_client.py:129-132 | a sort on one field whose name has no space, `foo_id asc` among them, is not mistaken for the tie-breaker: `f asc` becomes `f asc, id asc` |
| SyncClient.SecondPreparation | small_asc/sync_client.py:127-136 | preparing an already-prepared query again raises `NoCursorSort`, unless its sort is exactly `id asc` |
| SyncClient.CeilDiv | small_asc/sync_client.py:58 | `math.ceil(a / b)` for positive `b`: the least `q` with `a <= q * b` |
| SyncClient.NumPages | small_asc/sync_client.py:53-58 | the hits over the page length, rounded up, with an empty page taken as length 1 |
| SyncClient.NumPagesUnique | small_asc/sync_client.py:53-58 | that page count is the only one that holds all hits with no page to spare |
| SyncClient.NumPagesNoDocs | small_asc/sync_client.py:55-58 | with no docs the page count is the hit count, zero included |
| SyncClient.CursorSearchIsCursor | small_asc/sync_client.py:143-148 | a successfully prepared cursor search hands on a non-empty URL and query, so its results are in cursor mode |
| SyncClient.SyncResults.constructor | small_asc/sync_client.py:14-58 | docs and hits, `current_page` 1, positions 0, `num_pages`, `_is_cursor` from the URL and query |
| SyncClient.SyncResults.Length | small_asc/sync_client.py:60-64 | `hits` in cursor mode, otherwise the number of docs |
| SyncClient.SyncResults.Iterate | small_asc/sync_client.py:66-71 | yields the docs from `_page_idx` on, in order, once each; `_page_idx` ends past the last doc; from the start it yields `len` docs; nothing else changes |
| SyncClient.SyncResults.IterateTwice | small_asc/sync_client.py:66-71 | iterating the same results a second time yields nothing |

## Left out

- The parsimonious engine and its `Node`, `NodeVisitor` and `VisitationError` machinery are not modelled, nor is `unwrapped_exceptions`. The grammar is re-implemented as recursive descent with the same ordered choices, and exceptions become `Result` values.
- `\w` is exact on ASCII and Latin-1. Above U+00FF every non-whitespace character counts as a word character, which over-approximates Unicode's word class. Whitespace is the exact `str.isspace()` set, which is also what `\s` matches.
- Python's recursion limit on deeply nested parentheses is not modelled; the model accepts any depth.
- The `__main__` demo block, `setup.py` and `small_asc/client.py` are not modelled.
- `default_operator` is stored by the builder and never read, so the model has no such parameter.
- Three members of the builder are never reached and are not modelled:
  - `visit_field`, because no rule named `field` exists;
  - `visit_term_sequence` and `visit_boolean_operator`, because their rules are never referenced.
- Lucene.ReplacementOutcome: the success half assumes every mapped name is itself a field name (`MapsToFieldNames`), as the callers' mappings are. A mapping to arbitrary text is still printed, but its text is not characterised.
- Acceptance is proved only for the query shapes that `Reading` builds up, not for every text the grammar matches. Other texts are covered only by the general properties in `Lucene`. Two restrictions apply:
  - a bare word must hold no colon and must not open with `+` or `-`;
  - a term's boost must come after a wildcard or fuzziness, because `^` is itself a literal character and `foo^2` is read as the single literal `foo^2`.
- The exception messages are not part of any contract. The errors carry the field name, which is all the callers test.
- All HTTP work in `small_asc/sync_client.py` is I/O and is not modelled: `_post_data_to_solr*`, `add`, `get`, `delete`, the body of `search` after the cursor block, and the cursor branch of `__iter__`, which re-fetches pages.
- SyncClient.SyncResults.Iterate: requires non-cursor mode, because the cursor branch of `__iter__` is network I/O. The generator is modelled as run to the end; a consumer that stops early is not modelled.
- SyncClient.SyncResults.constructor: takes the docs and hit count directly. The JSON field extraction in `__set_instance_values` (debug, highlighting, facets and so on) is plumbing that copies values out of a dictionary.
- SyncClient.SearchRequest.PrepareCursor: requires `params`, when present, to be an object and `sort`, when present, to be a string. This is the shape of a Solr JSON request, and the code calls `.update` on `params` and formats and searches `sort`. Other JSON types there are not modelled.
- SyncClient.NumPages: uses exact integer ceiling division, not the floating-point `math.ceil(hits / rows)`. The two differ only for hit counts beyond 2^53.
