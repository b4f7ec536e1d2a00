# gotq verification

A Dafny model of gotq, a Go library that turns untrusted query text into a filtered,
sorted and paged database query, with proofs of what the library promises. Check it all with
`dafny verify dfyconfig.toml`.

The model follows the library's four cores.

**Keyset pagination.** `Cursor` completes the requested order with the primary key and builds the `CASE WHEN` order
and the keyset predicate; `Sql` gives clause trees their three-valued meaning, and `KeyOrder` is the NULLS LAST order
they must agree with. `CursorCodec` and `Base64` are the cursor token. `Listing` is `Engine.list` over a database
snapshot, `Traversal` the protocol in the abstract, and `Pagination` shows that every run of the library's pages, with
arbitrary changes between them, is a run of that protocol, and draws the consequences; `PaginationExamples` has a run
that stops.

**Filter compiler.** `Validator` resolves paths and quantifier variables under fresh aliases, and `WellScoped` says of
schema and syntax alone which filters it accepts; `Compiler` produces the correlated EXISTS clauses. `FilterMeaning`
says what a filter means on the object graph without mentioning SQL, and `FilterCorrectness` proves that the compiled
clause has that truth value. `AliasFreshness` and `AliasCapture` settle which names can be captured. `BoundFilters`
and `BoundQueries` put the parts together: filters from text over schemas from binding, down to the rows of a page and
of a whole traversal.

**Lexer, parser and AST guard.** `Lexer`, `Grammar` and `Parser` are the scanner, the accepted language and the
stateful recursive-descent parser; `Numerals` and `Utf8` say what number literals and valid texts are, `ParseLimits`
shows what the limits mean, `ParsedTree` what the tree keeps of the text. `Rendering`, `Printer`, `RoundTrip` and
`NormalForm` print trees and parse them back; `Spacing`, `Respacing` and `Layouts` show which other spacing is read
alike. `AstGuard` is `inspectAST` on heap graphs, and `GuardAgreement` and `GuardExamples` compare it with the parser.

**Requests.** `SortParameter`, `SortPaths`, `HttpQuery` and `Endpoint` are the request parameters, the engine's
validation and the move to a stricter endpoint. `SortSpelling`, `SortMeaning`, `HttpParameters` and `AcceptedQueries`
say independently what is read and accepted and what it means. `ServedQueries` is the whole way from query parameters
to a page or an error, and `ServedPages` says of the parameters what that page holds.

**Policy binding and description.** `Binding` and `BindingTheorems` bind possibly cyclic policy graphs, `Declarations`
says what may be declared and what it is bound to, and `BindingRealised` shows which schemas that yields;
`Description`, `OpenApi` and `PublishedPaths` relate what is published to what the validators accept.

## Results worth knowing

Some claims one could expect of the library are false of its code. The code is modelled as it is. Each of
these has a condition proved necessary and sufficient, and an input that fails:

- A filter over a root table named like `gotq_rel_1_join` can be compiled to the wrong question, because
  that join alias is derived without being reserved (`AliasCapture.FaithfulIff`, `AliasCapture.RootTableCaptured`).
- A text operator is exact if and only if its value is valid UTF-8: the escaping loop replaces malformed bytes by
  U+FFFD, and such a value does not even match itself (`Like.ContainsPatternExact`, `Like.MalformedByteIsMissed`,
  `FilterCorrectness.TextComparisonExactly`). Filters from text always have valid values; hand-built ones may not.
- A page is answered if and only if, first, the row the cursor stands on has no NULL in a root sort column bound to a
  non-pointer field and no sort key of malformed UTF-8, which the scan puts into the cursor and the decoder refuses;
  and second, when rows remain behind the page, the token of its last row encodes: its keys can be marshalled
  and it is no longer than MaxCursorBytes (`Pagination.ContinuationAnsweredIff`, with the inputs
  `CursorCodec.NullIsEmittedThenRefused`, `CursorCodec.MalformedTextIsEmittedThenRefused` and
  `PaginationExamples.LongKeyStopsTraversal`). Before that the request must parse and validate with the
  cursor in it, so it must still fit MaxQueryBytes (`http.go:48-51`, `ServedPages.FollowingAccepted`).
- `inspectAST` rejects a filter the parser accepted under the same limits exactly when a boolean literal is longer
  than MaxLiteralBytes or a quantifier variable is named `asc` or `desc` (`GuardAgreement.ParserAndGuardAgree`,
  `GuardExamples.LongBoolean`, `GuardExamples.DirectionVariable`).

The digest preimage is injective on names without NUL bytes (`CursorCodec.PreimageInjective`); without that
premise there are collisions (`CursorCodec.PreimageNeedsNulFreeNames`).

Where code and documentation differ, the code is followed: the EBNF in `GRAMMAR.md:67-68` has no spacing
around a quantifier variable, while the parser accepts it (`parser.go:300-312`).

Strings are sequences of bytes, one `char` a byte; runes are decoded where the code decodes them.
Integers are unbounded; the only place where Go's width matters is the value of a numeric parameter,
which is checked against the 64-bit maximum.

## Model

| member | source | states |
|---|---|---|
| Cursor.EffectiveSort | cursor.go:26-58 | the in-place completion computes the specified order, or fails when a primary-key column is unknown to the schema |
| Cursor.EffectiveSortCompletes | cursor.go:26-58 | requested terms keep place and direction; afterwards every primary-key column of the root is in the order, the missing ones ascending at the end |
| Cursor.AppendedInKeyOrder | cursor.go:36-57 | it fails if and only if a primary-key column that is not ordered by is unknown; else those columns are appended ascending, in the order of the primary key |
| Cursor.EffectiveSortIdempotent | engine.go:274-278 | completing the sort in `list` and again in `applyValidated` changes nothing |
| Cursor.BuildStableOrder | gorm_compiler.go:63-79 | the loop emits the ORDER BY terms of the specification |
| Cursor.StableOrderMeaning | gorm_compiler.go:63-79 | ORDER BY sorts by the NULLS LAST lexicographic key order on every dialect, wherever that dialect would put a bare NULL |
| Cursor.BuildCursorPredicate | gorm_compiler.go:87-111 | the nested loops build the specified disjunction of prefix-equal branches |
| Cursor.CursorPredicateMeaning | gorm_compiler.go:87-111 | the predicate is TRUE in three-valued logic if and only if the row is strictly after the cursor, for any mix of directions and NULL keys |
| Cursor.CursorPredicateAgreesWithOrderBy | gorm_compiler.go:63-111 | a row is kept if and only if ORDER BY puts it after the row the cursor was taken from |
| Cursor.TiesShareThePrimaryKey | cursor.go:36-57 | only rows with the same primary key tie in the completed order |
| KeyOrder.CompareKeysFlips | gorm_compiler.go:63-79 | swapping two key tuples flips the comparison, so the order is antisymmetric |
| KeyOrder.BeforeTransitive | gorm_compiler.go:63-79 | "strictly before" is transitive and respects ties on either side |
| CursorAliases.CursorColumnAliases | cursor_scan.go:166-184 | each result column is its base name with as few underscores as free it from the model's columns and the earlier aliases; the search ends |
| CursorAliases.FreedIsDistinct | cursor_scan.go:166-184 | the aliases are pairwise distinct and differ from every model column |
| Base64.DecodeEncode | cursor.go:128-134 | decoding undoes encoding, for every byte string |
| Base64.CanonicalExactly | cursor.go:64-67 | decoding and comparing the re-encoding accepts exactly the encoder's outputs (canonical form of section 3.5 of RFC 4648) |
| Base64.LenientDecoding | cursor.go:64-67 | the comparison is needed: some text decodes that no encoding produces |
| CursorCodec.EncodeCursor | cursor.go:107-135 | the loop over the key values writes the specified token or the specified error |
| CursorCodec.DecodeCursor | cursor.go:60-105 | the checks and the loop over raw values answer as specified, errors included |
| CursorCodec.DecodeOfEncode | cursor.go:60-156 | decoding an encoded tuple under the same sort gives the tuple, and fails as an invalid cursor if and only if it has a NULL in a root column bound to a non-pointer field or a text of malformed UTF-8 |
| CursorCodec.NullIsEmittedThenRefused | cursor_scan.go:96-104 | a sort by one non-pointer column and a NULL in it: the token is issued and then refused |
| CursorCodec.MalformedTextIsEmittedThenRefused | cursor.go:137-156 | likewise a text key of one malformed byte |
| CursorCodec.EncodeOfDecode | cursor.go:60-105 | whatever decodes is byte for byte the encoding of its result, with no forbidden NULL in it |
| CursorCodec.TokenBoundToSort | cursor.go:76-80 | a token made for one sort decodes under another only if the signatures and the number of keys agree |
| CursorCodec.WriteSignature | cursor.go:170-182 | the writes to the digest make up the specified preimage |
| CursorCodec.PreimageInjective | cursor.go:170-182 | for NUL-free names equal preimages mean equal table, columns, join paths, scalar types and directions, position by position |
| CursorCodec.PreimageNeedsNulFreeNames | cursor.go:170-182 | one-term sorts by different columns share a preimage when a name holds a NUL |
| Listing.JoinPathsExactly | gorm_compiler.go:19-29 | the joins added for a sort are its non-empty join paths, each once, in order of first occurrence |
| Listing.CompiledIsExecutable | gorm_compiler.go:13-56 | a compiled list statement repeats no join and joins every table it orders by, which the listing relies on |
| Listing.CompileGorm | gorm_compiler.go:13-56 | the statement has exactly the planned conditions, order and window |
| Listing.EffectiveOrderIsStrict | gorm_compiler.go:63-111 | the effective order on rows is irreflexive and transitive |
| Listing.EffectiveOrderIsTotal | cursor.go:36-57 | it is total on rows with distinct primary keys |
| Listing.SqlOrderLists | gorm_compiler.go:63-79 | any answer SQL may give before windowing is the one listing of the selected rows |
| Listing.LookaheadWindow | engine.go:264-295 | fetching one row more than the limit tells exactly whether rows remain, and the page is unaffected |
| Listing.FindCursorRows | cursor_scan.go:81-106 | the items are the fetched rows and the keys those of the last returned row, taken only when a row lies behind it |
| Listing.List | engine.go:232-296 | it answers if and only if counting is allowed when asked for, the sort completes, the cursor decodes and the page is empty by its limit, ends the listing or has a last row whose token encodes; the first of these that fails gives the error; the page's limit is the request's or the endpoint's default, its offset the request's or zero, and total, items, HasMore and NextCursor are those of the specified page |
| Listing.PageIsSlice | engine.go:245-287 | the items are the listing from the offset on, as many rows as the request or else the endpoint's default limit says |
| Listing.FetchPage | engine.go:264-295 | the data half answers the specified page, and fails exactly when a row lies behind the page and its last row's token does not encode |
| Traversal.InvariantHolds | engine.go:279-294 | over every run and every change of the table: of the rows that stayed, exactly those up to the last returned one were returned |
| Traversal.LateRowsReturnedOnce | engine.go:279-294 | what matches from some moment on, at which it lies ahead of the last row returned, is returned exactly once |
| Pagination.ListedPageIsServed | engine.go:232-296 | a page that `list` answers, total, limit and offset included, is a page of a run |
| Pagination.Follow | engine.go:232-296 | a client that repeats its request with the last cursor is answered exactly under the condition of ContinuationAnsweredIff and if it may count, and the answer is a step of a run |
| Pagination.PageStepRefines | engine.go:232-296 | every page served from a token is a step of the abstract traversal and leaves a token for the last row |
| Pagination.RunRefines | engine.go:232-296 | every run of requests and table changes is a run of the abstract traversal |
| Pagination.ReturnedStrictlyIncreasing | engine.go:232-296 | whatever happens to the table and whatever the limits, returned rows strictly increase in the effective order |
| Pagination.LateKeysReturnedOnce | engine.go:232-296 | sort keys carried by some matching row from a moment on at which the client has not come to them are returned exactly once in a completed traversal |
| Pagination.LateRowsReturnedOnce | engine.go:232-296 | so is a row that appears late, ahead of the client, and then stays unchanged and matching |
| Pagination.PersistentKeysReturnedOnce | engine.go:232-296 | sort keys carried by some matching row throughout a completed traversal are returned exactly once |
| Pagination.PersistentRowsReturnedOnce | engine.go:232-296 | so is every row that stays unchanged and matching |
| Pagination.ReturnedRowsMatched | engine.go:232-296 | a returned row was stored and matching when its page was served |
| Pagination.FullTraversal | engine.go:245-309 | over a fixed table the pages are the sorted filtered rows without gap or repetition, HasMore holds on every page but the last, there are at most as many pages as rows (one for none), and every counting page reports the number of rows as its Total |
| Pagination.ContinuationAnsweredIff | engine.go:286-294 | a first request or a continuation is answered if and only if the cursor's row has no forbidden NULL and no malformed text among its keys and, when rows remain behind the page, the token of its last row encodes |
| PaginationExamples.LongKeyStopsTraversal | cursor.go:131-132 | rows "a", a text as long as MaxCursorBytes, and "c", one a page: behind "a", whose keys come back unchanged, no page is answered |
| Like.LiteralLikePattern | gorm_compiler.go:354-371 | the loop over runes escapes `%`, `_` and `!` and writes malformed bytes as U+FFFD |
| Like.ContainsPatternExact | gorm_compiler.go:350-371 | the pattern matches exactly the texts the value occurs in if and only if the value is valid UTF-8 |
| Like.StartsWithPatternExact | gorm_compiler.go:172-182 | likewise for a prefix |
| Like.EndsWithPatternExact | gorm_compiler.go:172-182 | likewise for a suffix |
| Like.MalformedByteIsMissed | gorm_compiler.go:360-366 | a value of one malformed byte occurs in itself and is not matched |
| Aliases.NextFree | validator.go:442-452 | the number the alias loop settles on is the first free one |
| Schema.CollectStorageNames | validator.go:454-473 | the recursion collects every table and join table reachable through exposed relationships |
| Schema.StorageNamesExactly | validator.go:454-473 | a name is reserved if and only if relationships lead to a model with that table or with a many-to-many join table of that name |
| Validator.ExpressionValidation.Alias | validator.go:442-452 | the counter and the reserved set change as specified, and the search ends |
| Validator.ExpressionValidation.WalkPath | validator.go:334-352 | the loop over path segments follows to-one relationships, the last to-many for a quantifier, one fresh alias a step |
| Validator.ExpressionValidation.ValidatePathComparison | validator.go:312-365 | result, error and issued names of a path comparison |
| Validator.ExpressionValidation.ValidateQuantifier | validator.go:367-430 | result, error and issued names of a quantifier; the variable set is restored, on failure too |
| WellScoped.AcceptedExactly | validator.go:251-430 | a filter is accepted if and only if it is well-scoped: any or all over an unshadowed public variable and a path of to-one relationships that ends in a to-many one, and comparisons whose path, from the root or the current variable, leads within the depth limit to a filterable field with that operator and convertible literals |
| WellScoped.ValidatesExactly | validator.go:251-430 | the same in every scope, whatever names were issued before |
| Validator.ExpressionValidation.ValidateExpr | validator.go:267-310 | the recursion over the tree validates as specified |
| AliasFreshness.AliasesAreFresh | validator.go:442-473 | aliases of one filter are pairwise distinct, differ from every reachable table and join table, and never meet a join alias |
| Compiler.BuildRelationshipSql | gorm_compiler.go:214-268 | the builder emits the specified EXISTS or NOT EXISTS, direct or through the join table |
| Compiler.BuildRelationshipConditions | gorm_compiler.go:270-285 | key correlations, constants and soft-delete conditions, in order |
| FilterCorrectness.RelatedMeaning | gorm_compiler.go:214-336 | under a fresh alias EXISTS is "some live related row", NOT EXISTS "every live related row", and neither is ever UNKNOWN |
| FilterCorrectness.TextComparisonExactly | gorm_compiler.go:165-182 | a text comparison is compiled faithfully for every cell if and only if its value is valid UTF-8 |
| FilterCorrectness.CompiledFilterMeansSource | gorm_compiler.go:125-336 | for every schema, accepted filter whose text values are valid UTF-8, database and root row the clause has the three-valued meaning the filter has on the object graph |
| FilterCorrectness.SelectsExactlyTheMatchingRoots | gorm_compiler.go:13-56 | over any list of root rows the selected ones are those the filter is TRUE of, in place and as often: relationships multiply none and lose none |
| FilterCorrectness.ValidatedFiltersCompile | gorm_compiler.go:125-206 | the compiler accepts every filter the validator accepts over a bound schema |
| BoundFilters.WellFormedIsBound | schema.go:398-417 | binding allows only operators the compiler knows, text operators only on string fields |
| BoundFilters.PrintableTextsValid | lexer.go:206-242 | every filter from text has valid UTF-8 strings |
| BoundFilters.ValidatedPatternsValid | validator.go:609-625 | over a bound schema a filter with valid strings makes valid patterns only |
| BoundFilters.ParsedFilterMeansSource | gorm_compiler.go:125-336 | a filter from text that validates over a bound schema compiles, and its clause has the meaning of the text, with no condition left but the root table's name |
| BoundQueries.ResolvedSortsAreWellFormed | validator.go:555-560 | what `validateSortPath` answers is a well-formed request for the listing: each term's table is the alias of its join path |
| BoundQueries.MatchingIsMeaning | gorm_compiler.go:13-56 | the rows a list statement selects are the rows of its scope that the filter's text is TRUE of |
| BoundQueries.PageRowsMatchFilter | engine.go:232-296 | every row of a page is in the scope and the filter's text is TRUE of it |
| BoundQueries.TrueRowsReturnedOnce | engine.go:232-296 | while the table changes, every row of the scope of which the text is TRUE from a moment on at which it lies ahead of the client is returned exactly once |
| BoundQueries.ReturnedRowsWereTrue | engine.go:232-296 | and every returned row was one the text was TRUE of |
| BoundQueries.UndisturbedReturnsTrueRows | engine.go:232-296 | over a fixed table a completed traversal returns the rows the text is TRUE of, all of them, each once, in effective order |
| ServedQueries.SwitchesAreListChecks | engine.go:331-350 | the switches and the cursor check of `validate` are the listing's first checks, in order and with the same codes |
| ServedQueries.ListHttp | engine.go:232-296 | from query parameters: the parser's error, else the validator's, else the listing's, else the specified page |
| ServedQueries.AnsweredRowsAreTrue | engine.go:354-389 | an accepted request with a filter is listed under the base conditions and the clause of its text, which is TRUE of every row of the page |
| ServedPages.WindowAsAsked | engine.go:245-263 | limit and offset of a page are the numbers the parameters say, or the default limit and zero; it has a Total if and only if count=true was asked for |
| ServedPages.ItemsAsAsked | engine.go:264-287 | the items are the listing behind the cursor from the offset on up to the limit |
| ServedPages.OrderAsAsked | validator.go:527-561 | rows of a page that tie on the first k sort terms stand in the order the next term asks for, by the column its path names, NULLs last |
| ServedPages.FollowingParses | http.go:48-51 | the parameters with the page's cursor added parse to the same query with that cursor, or exceed MaxQueryBytes |
| ServedPages.FollowingAccepted | engine.go:311-352 | that request is accepted if and only if it fits MaxQueryBytes and the keys of the page's last row survive the cursor |
| AliasCapture.RootTableCaptured | gorm_compiler.go:236-268 | over a root table named like a join alias some filter over a bindable schema is compiled to a clause that is TRUE where the filter is false |
| AliasCapture.FaithfulIff | gorm_compiler.go:236-268 | over the bindable schemas of a root table compilation is faithful if and only if its name is not such an alias |
| Lexer.FilterLexer.ScanString | lexer.go:206-242 | doubled apostrophes, control bytes and malformed UTF-8 are treated as specified, byte for byte |
| Lexer.FilterLexer.ScanNumber | lexer.go:244-306 | the scanner stops where the number grammar does |
| Numerals.NumberExactly | lexer.go:244-306 | a text is scanned as one number if and only if it is an optional minus, zero or digits without leading zero, an optional fraction with a digit and an optional exponent with a digit |
| Utf8.ValidExactly | lexer.go:232-238 | a text counts as valid UTF-8 if and only if it encodes Unicode scalar values |
| Lexer.FilterLexer.NextToken | lexer.go:145-184 | the next token and position, or the error |
| Lexer.LexFilter | lexer.go:122-143 | the loop produces the specified tokens or the first error |
| Lexer.LexTiles | lexer.go:122-306 | token spans ascend, lexemes are their spans, only whitespace lies between, one end mark closes the input, string lexemes are their values quoted |
| Lexer.StringRestDoubles | lexer.go:206-242 | the text of a string literal is its value with apostrophes doubled |
| Lexer.LexUnderOtherLimits | lexer.go:122-143 | other limits give the same tokens if and only if the tokens fit them |
| Parser.FilterParser.ParseOr | parser.go:65-88 | the left-joining loop parses as specified; depths and variables are back at their entry values, the variables on failure too |
| Parser.FilterParser.ParseAnd | parser.go:90-113 | likewise for `and` |
| Parser.FilterParser.ParsePrimary | parser.go:115-161 | likewise for `not`, parentheses and predicates |
| Parser.FilterParser.ParsePath | parser.go:163-189 | the path loop with its touching and depth checks |
| Parser.FilterParser.ParseComparison | parser.go:198-279 | comparison, list and null predicates with their required whitespace |
| Parser.FilterParser.ParseQuantifier | parser.go:281-362 | quantifier head, body under the extended variable stack, and the counts |
| Parser.ParseFilterText | parser.go:28-63 | lexer and parser together answer as the grammar does under the defaulted limits |
| Grammar.Chain | parser.go:65-113 | every successful parse advances, stops before the end mark, spans its tokens, and its counters are the real size and height of the tree, within the limits |
| ParseLimits.ParseUnderOtherLimits | parser.go:28-430 | under any other limits the same tree comes out if and only if text, tokens and tree fit those, and a limit error otherwise |
| ParseLimits.ParseMonotone | parser.go:28-430 | wider limits accept whatever narrower ones do, with the same tree |
| ParseLimits.TooDeepIsRefused | parser.go:141-152 | wherever more than 128 parentheses would be open at once the parser refuses |
| ParsedTree.ParsedLiterals | parser.go:198-279 | the literals of a parsed tree are the literal tokens of its text, all and in order |
| Rendering.QuotedIsScanned | lexer.go:206-242 | every control-free UTF-8 text survives quoting and scanning |
| Rendering.LexRendered | lexer.go:122-306 | lexing rendered pieces gives the pieces back |
| RoundTrip.ParsePrint | parser_test.go:262-286 | parsing a printed tree gives the tree back, for every choice of redundant parentheses, so also fully parenthesised and with as few as possible |
| RoundTrip.MinimalAndFullAgree | parser_test.go:262-286 | the shortest and the fully parenthesised text of a tree parse to it |
| RoundTrip.PrintInjective | parser_test.go:262-286 | different trees never print alike |
| NormalForm.ParsedIsPrintable | parser.go:28-430 | every tree the parser answers can be printed |
| NormalForm.Reprint | parser.go:28-430 | reprinting an accepted filter and parsing again gives the same tree |
| Spacing.AcceptedIsSpaced | parser.go:28-430 | an accepted filter has whitespace between words and none around slashes or before a quantifier's parenthesis |
| Respacing.ParseAlike | parser.go:28-430 | token lists that are spaced in the same places parse to the same tree |
| Layouts.LexLaid | lexer.go:119-160 | any runs of spaces, tabs and line ends between its pieces leave the tokens of a text as they are |
| Layouts.LayoutsParse | parser.go:28-430 | a filter that parses to a tree does so in every layout that is blank in the same places |
| Layouts.ParseAnyLayout | parser_test.go:262-286 | a printed tree in any layout is read back if and only if it is spaced where words meet and not where tokens must touch |
| AstGuard.InspectAst | validator.go:161-243 | on any heap graph the walk ends after at most MaxNodes+1 visits and accepts if and only if the graph is a tree within the limits |
| AstGuard.AcceptsExactlyTrees | validator.go:161-243 | the walk's acceptance is being a tree: no nil, no cycle, no sharing, size, depth, nesting, literals, lists and paths bounded |
| AstGuard.SpellsOneTree | validator.go:161-243 | a graph spells at most one tree, of as many nodes as it has |
| AstGuard.VerdictOnTree | validator.go:161-243 | on a tree the verdict, error code included, is that of a left-to-right recursive inspection |
| GuardAgreement.ParserAndGuardAgree | validator.go:161-243 | a parsed filter passes the guard under the same limits if and only if no boolean literal is too long and no variable is `asc` or `desc` |
| GuardAgreement.GuardAcceptsParsed | validator.go:161-243 | with literals of five bytes allowed only such variables are rejected |
| GuardExamples.LongBoolean | lexer.go:130-137 | `flag eq false` parses and is rejected when literals may have four bytes |
| GuardExamples.DirectionVariable | validator.go:217-219 | `t/any(asc: asc/x is null)` parses and is rejected |
| SortParameter.ParseSort | http.go:245-291 | the scanning loop with its `seen` map answers as specified |
| SortParameter.ParseLegacyOrderBy | http.go:293-358 | likewise with direction words |
| SortParameter.ScanSortPath | http.go:360-379 | the scanner stops where the path ends, or fails on form or depth |
| SortParameter.SortUnderOtherLimits | http.go:245-291 | other limits give the same terms if and only if their number and depths fit |
| SortParameter.SortRoundTrip | http.go:245-291 | parsing a printed sort gives its terms back |
| SortParameter.OrderByRoundTrip | http.go:293-358 | parsing a printed orderby gives its terms back, with or without `asc` |
| SortSpelling.SortExactly | http.go:245-291 | a sort is read as given terms if and only if it spells them, minus signs for descending, with any whitespace around commas, no path repeats and number and depths are within the limits |
| SortSpelling.OrderByExactly | http.go:293-358 | likewise an orderby, with its direction words |
| SortPaths.ValidateSortPath | validator.go:527-561 | the loop resolves a sort path to its field, join path and table alias, or the first error |
| SortMeaning.SortResolvesExactly | validator.go:527-561 | a term is accepted with an order if and only if its path leads along to-one relationships to the order's sortable field, the direction is the term's, and join path and table are the Go names on the way |
| SortMeaning.JoinPathSplits | validator.go:555-560 | the join path splits at its dots into those Go names, and is empty for the model's own fields only |
| HttpQuery.UnsignedExactly | http.go:224-241 | exactly the canonical decimal numerals up to the largest int are accepted, with their value |
| HttpQuery.DecodedQueryBytes | http.go:179-188 | the byte total does not depend on the order the values are visited in |
| HttpQuery.ParametersAddUp | http.go:179-188 | each parameter adds the bytes of its name and values |
| HttpQuery.ParseHttp | http.go:37-173 | every parameter, check and error in the order of the code |
| HttpParameters.ParsedExactly | http.go:37-173 | a request is parsed to a query if and only if each field says what its one parameter says, canonical or where allowed pre-release, within the limits |
| Endpoint.HttpUnderOtherLimits | http.go:37-173 | other limits give the same query if and only if everything they measure fits, and a limit error otherwise |
| Endpoint.Validate | engine.go:311-352 | the engine's checks under the intersected limits, errors included |
| AcceptedQueries.AcceptedExactly | engine.go:311-352 | a query is accepted, with these sort orders, if and only if it is within the engine's limits and its own, its filter is well-scoped, its terms mean the orders (the default sort if there are none), and counting, search and cursor are available |
| Endpoint.AcceptedFilterFits | validator.go:92-159 | a filter the engine accepts fits its limits as a tree, path depth and quantifier depth counted as the parser counts them |
| Endpoint.AcceptedTokensFit | engine.go:320-327 | lexing again only when fewer tokens are allowed still measures every token |
| Endpoint.StricterEndpoint | engine.go:311-330 | a query parsed under one set of limits and accepted by an engine with another parses to the same query under their field-wise minimum |
| Endpoint.SameVerdict | limits.go:5-25 | and the engine judges it the same |
| Declarations.DefaultsGiven | schema.go:396-416 | a filterable field without operators gets equality and lists, order on numbers and times, text operators on strings, null tests on pointers, each once, and needs nothing more; explicit operators must fit and be distinct |
| Declarations.FieldsBindExactly | schema.go:322-438 | fields bind if and only if their names are distinct public identifiers, each declaration is sound with an identifier column, and its explicit operators are distinct and fit kind and nullability |
| Binding.Binder.BuildCore | schema.go:289-298 | terminates on every finite policy graph, cyclic ones too, and restores the active set on success and failure |
| Binding.Binder.BuildInside | schema.go:316-520 | fields, then relationships one by one, are bound as specified |
| Binding.Binder.BuildRelation | schema.go:460-517 | name, association, nested policy, model type and metadata of a relationship are checked as specified |
| Binding.ValidateRelationshipMetadata | schema.go:533-552 | tables, join table, references and their keys are all there |
| BindingTheorems.Bind | schema.go:272-292 | answers if and only if every policy that can be reached is soundly declared and no cycle is, with the well-formed tree the declarations describe |
| BindingTheorems.BindsExactly | schema.go:289-520 | binding succeeds if and only if every walk from the policy meets only soundly declared policies and none twice: no reachable cycle, sharing allowed; sound declaration is said of names, columns, operators, kinds, tables and keys alone |
| BindingTheorems.BuiltIsWellFormed | schema.go:322-456 | names are public identifiers, fields and relationships disjoint, operators kind-compatible and without duplicates, at every level |
| BindingTheorems.BuiltMirrors | schema.go:417-519 | the tree holds what the policies declare, name by name, and nothing else: columns, kinds, flags, operators, cardinalities and associations |
| BindingTheorems.BuiltIsBindable | schema.go:460-552 | besides, associations are complete and lead to their targets' own tables |
| BindingRealised.Realise | schema.go:289-520 | every such schema is bound from some policies, so these are exactly the schemas binding answers |
| Description.DescribeModelSchema | description.go:88-126 | whatever the map order, the result lists each public name once, in order, with flags and nested schemas |
| Description.DescriptionIsUnique | description.go:49-54 | a schema has exactly one description |
| OpenApi.CollectFieldPolicies | openapi/openapi.go:231-258 | the traversal lists own fields by name, then those behind to-one relationships |
| OpenApi.ValidateSchemaDescription | openapi/openapi.go:202-229 | accepts if and only if names are non-empty and distinct at every level |
| OpenApi.HasFilterableFields | openapi/openapi.go:262-274 | true if and only if a filterable field exists behind any relationships |
| PublishedPaths.SortPathsPublished | validator.go:527-561 | a path is listed as sortable if and only if `validateSortPath` accepts it, up to the depth limit |
| PublishedPaths.FilterPathsPublished | validator.go:312-365 | a path is listed as filterable with an operator if and only if a root comparison by it resolves, up to the depth limit and its literals |
| PublishedPaths.FilterFlagsAgree | description.go:128-140 | the flag-based and the deep test for filterable fields agree |
| PublishedPaths.SortFlagsAgree | description.go:142-154 | the sort flag holds if and only if some path is listed as sortable |
| PublishedPaths.DescriptionsAreValid | openapi/openapi.go:202-229 | the description of a bound schema passes the generator's own validation |

## Left out

- Pagination.PersistentKeysReturnedOnce: speaks of the exact key tuple; keys that a collation merely treats as equal count as different keys.
- Parser.FilterParser.ParsePrimary: does not say that the parenthesis depth is restored on failure, because the code leaves it raised when the nesting limit is exceeded.
- Listing.List: asks that the base scope joins nothing the sort joins, and that to-one joins give one row a root; hooks, observers and database failures are not part of the model; filter and scope appear as their conditions.
- Listing.Executable: root comparisons are compiled unqualified (`validator.go:352-355`), so under a to-one sort join whose table has a column of that name (`filter=id eq 1&sort=company/name`) SQL refuses the statement as ambiguous, and the model answers it.
- BoundQueries.RootsBound: for the same reason unqualified columns are read from the root row even where a join makes them ambiguous.
- ServedQueries.ListHttp: the search callback appears as the scope it makes of its text; a callback that fails is not modelled.
- Endpoint.Validate: effective sort and cursor decoding appear as one function of token and sort; ServedQueries.OneEngine says it is the one of Cursor and CursorCodec.
- Binding.Binder.BuildInside: options, reflection, GORM lookups and codec checks of a declaration appear as one flag each, and all errors share one code; binding without a database is not modelled.
- OpenApi.ValidateSchemaDescription: a cardinality is always one or many, so the check for others is not modelled.
- AstGuard.InspectAst: nodes are told apart by identity alone; a typed nil is one value whatever its type.
- RoundTrip.ParsePrint: prints single spaces in canonical places; other spacing is the matter of Layouts.ParseAnyLayout.
- Source spans on tree nodes, error texts, positions and hints: only error codes are kept.
- GORM: And, Or, Not, Eq, IN and EXISTS have their standard SQL meaning; how GORM renders them, merges conditions or quotes names is not modelled.
- Collations are one abstract total preorder, with a separate relation for LIKE, which compares byte by byte.
- Databases that fold identifier case: names are compared exactly, so a root table `GOTQ_REL_1_JOIN` captured there is not found.
- A Go relationship named exactly like the root table, whose sort alias would be the root's.
- JSON and SHA-256 are abstract: a scalar whose text is valid UTF-8 comes back as it was written, other texts are refused by the typed decode, and the digest is a function of its bytes.
- Literal conversion and custom codecs are a parameter of the validator; that a string field's literal is converted to the text it decodes to is an explicit hypothesis.
- The `seen` set of the storage-name walk: bound schemas are finite trees.
- Projections, DISTINCT, Select and Omit handling, AfterFind hooks and the reflective row type of the cursor scan.
- Unscoped and polymorphic associations beyond the include-deleted switch; binding refuses polymorphic metadata.
- Session base queries beyond their conditions, contexts, observers and timing.
- The OpenAPI document around the field lists, operator and kind names as text, and the limit and pagination fields of descriptions.
- `Engine` construction (defaults for zero limits, the default sort string) beyond the positivity of its limits.
- The query builders, playgrounds, examples, website and scripts of the repository.
