/** limits.go and the engine's validation of a parsed query, and what moving a query to
    a stricter endpoint does: nothing, if the endpoint accepts it. */
module Endpoint {
  import opened Common
  import opened Strings
  import opened Ast
  import opened Lexer
  import opened Grammar
  import opened ParseLimits
  import opened ParsedTree
  import opened SortParameter
  import opened SortPaths
  import opened HttpQuery
  import opened GuardAgreement
  import AstGuard
  import Schema
  import Validator

  /** intersectLimits: a manually built query carries no limits of its own. */
  function IntersectLimits(endpoint: Limits, parser: Limits): Limits {
    if parser == NO_LIMITS then endpoint
    else
      Limits(Min(endpoint.maxQueryBytes, parser.maxQueryBytes), Min(endpoint.maxFilterBytes, parser.maxFilterBytes),
             Min(endpoint.maxTokens, parser.maxTokens), Min(endpoint.maxLiteralBytes, parser.maxLiteralBytes),
             Min(endpoint.maxInValues, parser.maxInValues), Min(endpoint.maxLimit, parser.maxLimit),
             Min(endpoint.maxOffset, parser.maxOffset), Min(endpoint.maxSortTerms, parser.maxSortTerms),
             Min(endpoint.maxSearchBytes, parser.maxSearchBytes),
             Min(endpoint.maxExpressionDepth, parser.maxExpressionDepth),
             Min(endpoint.maxNodes, parser.maxNodes), Min(endpoint.maxPathDepth, parser.maxPathDepth),
             Min(endpoint.maxQuantifierDepth, parser.maxQuantifierDepth),
             Min(endpoint.maxCursorBytes, parser.maxCursorBytes))
  }

  // The part of a validated query that does not concern SQL.
  datatype Plan = Plan(filter: Option<Validator.Validated>, sort: seq<SortOrder>)

  // An engine: its limits, bound schema and switches. decodeCursor stands for
  // effectiveSort followed by decodeCursor.
  datatype Engine = Engine(
    limits: Limits, schema: Schema.Model, convert: Validator.Convert, defaultSort: seq<SortOrder>,
    allowCount: bool, hasSearch: bool, decodeCursor: (string, seq<SortOrder>) -> Option<ErrorCode>)

  // ---- validateQuery ----

  function NumberIssue(number: Option<int>, most: int): Option<ErrorCode> {
    if number.None? then None
    else if number.value < 0 then Some(InvalidParameter)
    else if number.value > most then Some(LimitExceeded)
    else None
  }

  function CursorIssue(q: Query, limits: Limits): Option<ErrorCode> {
    if q.cursor.None? then None
    else if q.cursor.value == "" || q.offset.Some? then Some(InvalidParameter)
    else if |q.cursor.value| > limits.maxCursorBytes then Some(LimitExceeded)
    else if !AllBase64Url(q.cursor.value) then Some(InvalidCursor)
    else None
  }

  // The checks before the filter and the sort paths, in their order.
  function ShapeIssue(q: Query, limits: Limits): Option<ErrorCode> {
    if NumberIssue(q.limit, limits.maxLimit).Some? then NumberIssue(q.limit, limits.maxLimit)
    else if NumberIssue(q.offset, limits.maxOffset).Some? then NumberIssue(q.offset, limits.maxOffset)
    else if CursorIssue(q, limits).Some? then CursorIssue(q, limits)
    else if |q.sort| > limits.maxSortTerms then Some(LimitExceeded)
    else if q.search.Some? && |q.search.value| > limits.maxSearchBytes then Some(LimitExceeded)
    else None
  }

  function ResolveSorts(model: Schema.Model, terms: seq<SortTerm>, maxPathDepth: int): Result<seq<SortOrder>> {
    if terms == [] then Ok([])
    else
      var first :- ResolveSort(model, terms[0], maxPathDepth);
      var rest :- ResolveSorts(model, terms[1..], maxPathDepth);
      Ok([first] + rest)
  }

  // inspectAST, then validateExpr.
  ghost function FilterPlan(e: Engine, filter: Option<Expr>, limits: Limits): Result<Option<Validator.Validated>> {
    if filter.None? then Ok(None)
    else if AstGuard.InspectTree(filter.value, limits).Some? then Err(AstGuard.InspectTree(filter.value, limits).value)
    else
      var validated :- Validator.ValidateFilter(e.convert, limits.maxPathDepth, e.schema, filter.value);
      Ok(Some(validated.0))
  }

  ghost function ValidateQuery(e: Engine, q: Query, given: Limits): Result<Plan> {
    var limits := if given == NO_LIMITS then DEFAULT_LIMITS else given;
    if ShapeIssue(q, limits).Some? then Err(ShapeIssue(q, limits).value)
    else
      var filter :- FilterPlan(e, q.filter, limits);
      var sort :- ResolveSorts(e.schema, q.sort, limits.maxPathDepth);
      Ok(Plan(filter, sort))
  }

  // ---- Engine.validate ----

  // Crossing into a stricter endpoint, the original tokens are checked again.
  function RelexIssue(q: Query, limits: Limits): Option<ErrorCode> {
    if q.filterSource != "" && limits.maxTokens < q.limits.maxTokens && Lex(q.filterSource, limits).Err?
    then Some(Lex(q.filterSource, limits).code) else None
  }

  function SwitchIssue(e: Engine, q: Query, sort: seq<SortOrder>): Option<ErrorCode> {
    if q.count == Some(true) && !e.allowCount then Some(InvalidParameter)
    else if q.search.Some? && !e.hasSearch then Some(InvalidParameter)
    else if q.cursor.Some? then e.decodeCursor(q.cursor.value, sort)
    else None
  }

  ghost function ValidateOf(e: Engine, q: Query): Result<Plan> {
    var limits := IntersectLimits(e.limits, q.limits);
    if q.queryBytes > limits.maxQueryBytes || |q.filterSource| > limits.maxFilterBytes then Err(LimitExceeded)
    else if RelexIssue(q, limits).Some? then Err(RelexIssue(q, limits).value)
    else
      var plan :- ValidateQuery(e, q, limits);
      var sort := if q.sort == [] then e.defaultSort else plan.sort;
      var issue := SwitchIssue(e, q, sort);
      if issue.Some? then Err(issue.value) else Ok(plan.(sort := sort))
  }

  method ValidateSorts(model: Schema.Model, terms: seq<SortTerm>, maxPathDepth: int)
    returns (result: Result<seq<SortOrder>>)
    ensures result == ResolveSorts(model, terms, maxPathDepth)
  {
    var orders: seq<SortOrder> := [];
    ghost var spec := ResolveSorts(model, terms, maxPathDepth);
    assert terms[0..] == terms && After([], spec) == spec by {
      assert spec.Ok? ==> [] + spec.value == spec.value;
    }
    for index := 0 to |terms|
      invariant spec == After(orders, ResolveSorts(model, terms[index..], maxPathDepth))
    {
      ghost var pending := terms[index..];
      assert pending[0] == terms[index] && pending[1..] == terms[index + 1..];
      var order :- ValidateSortPath(model, terms[index], maxPathDepth);
      AfterStep(orders, order, ResolveSorts(model, terms[index + 1..], maxPathDepth));
      orders := orders + [order];
    }
    assert terms[|terms|..] == [] && orders + [] == orders;
    return Ok(orders);
  }

  function After(front: seq<SortOrder>, rest: Result<seq<SortOrder>>): Result<seq<SortOrder>> {
    if rest.Err? then rest else Ok(front + rest.value)
  }

  lemma AfterStep(front: seq<SortOrder>, order: SortOrder, rest: Result<seq<SortOrder>>)
    ensures After(front + [order], rest) == After(front, After([order], rest))
  {
    if rest.Ok? {
      assert (front + [order]) + rest.value == front + ([order] + rest.value);
    }
  }

  method ValidateQueryLimits(e: Engine, q: Query, given: Limits) returns (result: Result<Plan>)
    ensures result == ValidateQuery(e, q, given)
  {
    hide ShapeIssue, ResolveSorts, Validator.ValidateFilter, AstGuard.InspectTree;
    var limits := given;
    if limits == NO_LIMITS {
      limits := DEFAULT_LIMITS;
    }
    var issue := ShapeIssue(q, limits);
    if issue.Some? {
      return Err(issue.value);
    }
    var plan := Plan(None, []);
    if q.filter.Some? {
      var rejected := AstGuard.InspectTree(q.filter.value, limits);
      if rejected.Some? {
        return Err(rejected.value);
      }
      var filter :- Validator.ValidateQueryFilter(e.convert, limits.maxPathDepth, e.schema, q.filter.value);
      plan := plan.(filter := Some(filter));
    }
    var sort :- ValidateSorts(e.schema, q.sort, limits.maxPathDepth);
    return Ok(plan.(sort := sort));
  }

  /** Engine.validate */
  method Validate(e: Engine, query: Query) returns (result: Result<Plan>)
    ensures result == ValidateOf(e, query)
  {
    hide ValidateQuery, SwitchIssue, Lex;
    var limits := IntersectLimits(e.limits, query.limits);
    if query.queryBytes > limits.maxQueryBytes {
      return Err(LimitExceeded);
    }
    if |query.filterSource| > limits.maxFilterBytes {
      return Err(LimitExceeded);
    }
    if query.filterSource != "" && limits.maxTokens < query.limits.maxTokens {
      var tokens :- LexFilter(query.filterSource, limits);
    }
    var plan :- ValidateQueryLimits(e, query, limits);
    if query.sort == [] {
      plan := plan.(sort := e.defaultSort);
    }
    var issue := SwitchIssue(e, query, plan.sort);
    if issue.Some? {
      return Err(issue.value);
    }
    return Ok(plan);
  }

  // ---- the same request under other limits ----

  /** Everything the limits measure of a request that was parsed under q.limits. */
  ghost predicate QueryFits(q: Query, limits: Limits) {
    && q.queryBytes <= limits.maxQueryBytes
    && (q.filter.Some? ==>
          && |q.filterSource| <= limits.maxFilterBytes
          && Lex(q.filterSource, q.limits).Ok?
          && TokensFit(Lex(q.filterSource, q.limits).value, 0, limits)
          && Fits(q.filter.value, limits, TOP))
    && TermsFit(q.sort, 0, limits.maxSortTerms, limits.maxPathDepth)
    && (q.limit.Some? ==> q.limit.value <= limits.maxLimit)
    && (q.offset.Some? ==> q.offset.value <= limits.maxOffset)
    && (q.cursor.Some? ==> |q.cursor.value| <= limits.maxCursorBytes)
    && (q.search.Some? ==> |q.search.value| <= limits.maxSearchBytes)
  }

  lemma FilterUnderOtherLimits(values: Values, limits: Limits, other: Limits)
    requires AllPositive(limits) && AllPositive(other) && FilterOf(values, limits).Ok?
    ensures var (filter, source) := FilterOf(values, limits).value;
      && (filter.Some? ==>
          source != "" && |source| <= limits.maxFilterBytes && ParseFilter(source, limits) == Ok(filter.value))
      && (filter.None? ==> source == "")
      && FilterOf(values, other) ==
        if filter.Some? ==>
          && |source| <= other.maxFilterBytes && Lex(source, limits).Ok?
          && TokensFit(Lex(source, limits).value, 0, other) && Fits(filter.value, other, TOP)
        then FilterOf(values, limits) else Err(LimitExceeded)
  {
    hide Fits, TokensFit, Chain, LexFrom;
    assert WithDefaults(limits) == limits && WithDefaults(other) == other;
    var text := SingleParameter(values, "filter").value;
    if text.Some? {
      ParseUnderOtherLimits(text.value, limits, other);
    }
  }

  lemma SortsUnderOtherLimits(values: Values, limits: Limits, other: Limits, compat: bool)
    requires SortTermsOf(values, limits, compat).Ok?
    ensures var (terms, source) := SortTermsOf(values, limits, compat).value;
      SortTermsOf(values, other, compat) ==
        if TermsFit(terms, 0, other.maxSortTerms, other.maxPathDepth) then Ok((terms, source)) else Err(LimitExceeded)
  {
    hide SegmentCount;
    var sort := AliasedParameter(values, "sort", "orderby", compat).value;
    if sort.0.Some? {
      var text := sort.0.value;
      var start := SkipWhitespace(text, 0);
      if sort.1 {
        OrderByUnderOtherLimits(text, start, [], limits.maxPathDepth, other.maxPathDepth);
      } else {
        SortUnderOtherLimits(text, start, [], limits.maxSortTerms, limits.maxPathDepth, other.maxSortTerms,
                             other.maxPathDepth);
      }
    }
  }

  /** Parsing a request depends on the limits only through what they admit. */
  lemma HttpUnderOtherLimits(values: Values, limits: Limits, other: Limits, compat: bool)
    requires ParseHttpOf(values, limits, compat).Ok? && AllPositive(other)
    ensures var q := ParseHttpOf(values, limits, compat).value;
      ParseHttpOf(values, other, compat) == if QueryFits(q, other) then Ok(q.(limits := other)) else Err(LimitExceeded)
  {
    hide FilterOf, SortTermsOf, AliasedParameter, Unsigned, ValidUtf8, AllBase64Url, Fits, TokensFit, TermsFit, Lex;
    FilterUnderOtherLimits(values, limits, other);
    SortsUnderOtherLimits(values, limits, other, compat);
  }

  // ---- what an engine that accepts a query has measured ----

  // The validator's scope and the parser's variable stack name the same variable.
  predicate SameScope(scope: Validator.Scope, variables: seq<string>) {
    if variables == [] then scope.variable == ""
    else scope.variable == variables[|variables| - 1] && scope.variable != ""
  }

  lemma PathIsMeasured(path: string, scope: Validator.Scope, variables: seq<string>, maxPathDepth: int)
    requires SameScope(scope, variables) && Schema.ValidPath(path).Some?
    requires var segments := Validator.ScopedPath(scope, Schema.ValidPath(path).value);
      segments.Ok? && |segments.value| <= maxPathDepth
    ensures ScopedDepth(path, variables) <= maxPathDepth
  {}

  lemma {:induction false} ValidatedIsAdmitted(convert: Validator.Convert, limits: Limits, scope: Validator.Scope,
                                               seen: set<string>,
                                               e: Expr, names: Validator.Names, quant: nat, variables: seq<string>)
    requires Validator.Validate(convert, limits.maxPathDepth, scope, seen, e, names).Ok?
    requires SameScope(scope, variables) && AstGuard.NodesFit(e, limits)
    requires quant + AstGuard.QuantifierNesting(e) <= limits.maxQuantifierDepth
    ensures Admits(e, limits, quant, variables)
    decreases e
  {
    hide ScopedDepth, Validator.ScopedPath, Schema.ValidPath, Validator.Walk, Validator.ScalarComparison,
      AstGuard.PathDepth;
    match e
    case Comparison(field, _, _, _) => PathIsMeasured(field, scope, variables, limits.maxPathDepth);
    case Logical(_, left, right) =>
      var l := Validator.Validate(convert, limits.maxPathDepth, scope, seen, left, names).value;
      ValidatedIsAdmitted(convert, limits, scope, seen, left, names, quant, variables);
      ValidatedIsAdmitted(convert, limits, scope, seen, right, l.1, quant, variables);
    case Not(operand) => ValidatedIsAdmitted(convert, limits, scope, seen, operand, names, quant, variables);
    case Quantifier(relationship, _, variable, body) =>
      var walked := Validator.QuantifierSteps(limits.maxPathDepth, scope, seen, e, names).value;
      PathIsMeasured(relationship, scope, variables, limits.maxPathDepth);
      ValidatedIsAdmitted(convert, limits, Validator.Scope(walked.model, walked.table, variable, true),
                          seen + {variable},
                          body, walked.names, quant + 1, variables + [variable]);
  }

  /** An accepted filter fits the endpoint's limits as a tree. */
  lemma AcceptedFilterFits(e: Engine, filter: Expr, limits: Limits)
    requires FilterPlan(e, Some(filter), limits).Ok?
    ensures Fits(filter, limits, TOP) && AstGuard.Admissible(filter, limits)
  {
    hide AstGuard.Inspect, AstGuard.NodesFit;
    AstGuard.TreesAccepted(filter, limits);
    ValidatedIsAdmitted(e.convert, limits, Validator.RootScope(e.schema), {}, filter,
                        Validator.Names(0, Schema.StorageNames(e.schema)), 0, []);
  }

  // Literal tokens are literals of the tree, so the guard has measured them.
  lemma {:induction false} MeasuredTokens(input: string, tokens: seq<Token>, from: nat, limits: Limits)
    requires from <= |tokens| && Tiles(input, 0, tokens)
    requires LiteralsFit(TokenLiterals(tokens, from, |tokens|), limits)
    ensures forall k :: from <= k < |tokens| ==> !LiteralTooLong(tokens[k], limits)
    decreases |tokens| - from
  {
    hide InPlace, LiteralOf, AstGuard.LiteralBytes;
    if from < |tokens| {
      var t := tokens[from];
      var literals := TokenLiterals(tokens, from, |tokens|);
      assert LiteralsFit(TokenLiterals(tokens, from + 1, |tokens|), limits) by {
        assert forall l :: l in TokenLiterals(tokens, from + 1, |tokens|) ==> l in literals;
      }
      MeasuredTokens(input, tokens, from + 1, limits);
      assert InPlace(input, GapStart(0, tokens, from), t);
      LiteralTokens(t);
      if LiteralOf(t).Some? {
        assert literals[0] == LiteralOf(t).value;
        LexedLiteralBytes(input, GapStart(0, tokens, from), t);
      }
    }
  }

  lemma LiteralTokens(t: Token)
    ensures t.kind == StringToken || t.kind == NumberToken ==> LiteralOf(t).Some?
  {}

  /** The tokens fit too: lexed again when there may be fewer, measured in the tree when not. */
  lemma AcceptedTokensFit(source: string, filter: Expr, limits: Limits, narrower: Limits)
    requires AllPositive(limits) && AllPositive(narrower) && narrower.maxTokens <= limits.maxTokens
    requires ParseFilter(source, limits) == Ok(filter) && AstGuard.NodesFit(filter, narrower)
      && Fits(filter, narrower, TOP)
    requires narrower.maxTokens < limits.maxTokens ==> Lex(source, narrower).Ok?
    ensures Lex(source, limits).Ok? && TokensFit(Lex(source, limits).value, 0, narrower)
  {
    hide ParseFilter, LexFrom, Fits, Tiles, TokenLiterals, LiteralTooLong, LiteralsFit, AsParsed, AstGuard.NodesFit;
    ParsedHasTokens(source, limits);
    assert WithDefaults(limits) == limits;
    var tokens := Lex(source, limits).value;
    LexUnderOtherLimits(source, 0, 0, limits, narrower);
    if narrower.maxTokens == limits.maxTokens {
      LexUnderOtherLimits(source, 0, 0, limits, limits);
      LexTiles(source, 0, 0, limits);
      ParsedLiterals(source, limits);
      assert Admits(filter, narrower, 0, []) by { FitsAdmits(filter, narrower); }
      NodesFitAsParsed(filter, narrower, 0, []);
      MeasuredTokens(source, tokens, 0, narrower);
    }
  }

  lemma FitsAdmits(e: Expr, limits: Limits)
    requires Fits(e, limits, TOP)
    ensures Admits(e, limits, 0, [])
  {}

  lemma ParsedHasTokens(source: string, limits: Limits)
    requires AllPositive(limits) && ParseFilter(source, limits).Ok?
    ensures Lex(source, limits).Ok?
  {
    hide Chain, LexFrom;
    assert WithDefaults(limits) == limits;
  }

  lemma {:induction false} SortsFit(model: Schema.Model, terms: seq<SortTerm>, maxPathDepth: int)
    requires ResolveSorts(model, terms, maxPathDepth).Ok?
    ensures forall k :: 0 <= k < |terms| ==> SegmentCount(terms[k].field) <= maxPathDepth
  {
    if terms != [] {
      SortsFit(model, terms[1..], maxPathDepth);
    }
  }

  /** Moving a query to a stricter endpoint: what parses under limits P and is accepted by
      an engine with limits E parses to the same query under their field-wise minimum. */
  lemma StricterEndpoint(values: Values, limits: Limits, compat: bool, e: Engine)
    requires AllPositive(e.limits) && ParseHttpOf(values, limits, compat).Ok?
    requires ValidateOf(e, ParseHttpOf(values, limits, compat).value).Ok?
    ensures var q := ParseHttpOf(values, limits, compat).value;
      ParseHttpOf(values, IntersectLimits(e.limits, limits), compat) ==
        Ok(q.(limits := IntersectLimits(e.limits, limits)))
  {
    hide ParseHttpOf, Lex, Fits, ParseFilter, TokensFit, FilterPlan, ResolveSorts, SwitchIssue, AstGuard.NodesFit,
      SegmentCount;
    var q := ParseHttpOf(values, limits, compat).value;
    var narrower := IntersectLimits(e.limits, limits);
    ParsedQuery(values, limits, compat);
    assert narrower != NO_LIMITS && AllPositive(narrower);
    if q.filter.Some? {
      AcceptedFilterFits(e, q.filter.value, narrower);
      AcceptedTokensFit(q.filterSource, q.filter.value, limits, narrower);
    }
    SortsFit(e.schema, q.sort, narrower.maxPathDepth);
    HttpUnderOtherLimits(values, limits, narrower, compat);
  }

  /** Nor does the endpoint then judge it differently. */
  lemma SameVerdict(e: Engine, q: Query)
    requires AllPositive(e.limits) && AllPositive(q.limits) && ValidateOf(e, q).Ok?
    ensures ValidateOf(e, q.(limits := IntersectLimits(e.limits, q.limits))) == ValidateOf(e, q)
  {
    hide Lex, FilterPlan, ResolveSorts, SwitchIssue, ShapeIssue;
    var narrower := IntersectLimits(e.limits, q.limits);
    assert narrower.maxNodes > 0 && IntersectLimits(e.limits, narrower) == narrower;
    SameShape(q, narrower);
    SameSwitches(e, q, narrower);
  }

  lemma SameShape(q: Query, limits: Limits)
    ensures ShapeIssue(q.(limits := limits), limits) == ShapeIssue(q, limits)
  {}

  lemma SameSwitches(e: Engine, q: Query, limits: Limits)
    ensures forall sort :: SwitchIssue(e, q.(limits := limits), sort) == SwitchIssue(e, q, sort)
  {}

  lemma ParsedQuery(values: Values, limits: Limits, compat: bool)
    requires ParseHttpOf(values, limits, compat).Ok?
    ensures var q := ParseHttpOf(values, limits, compat).value;
      && AllPositive(limits) && q.limits == limits
      && (q.filter.Some? ==> q.filterSource != "" && ParseFilter(q.filterSource, limits) == Ok(q.filter.value))
  {
    hide SortTermsOf, NumberOf, CursorOf, SearchOf, CountOf, FilterOf, ParseFilter;
    assert AllPositive(limits);
    FilterUnderOtherLimits(values, limits, limits);
  }
}
