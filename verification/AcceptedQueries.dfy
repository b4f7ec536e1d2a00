/** Which queries an engine accepts, and the sort it then orders by: the query is within the
    engine's limits and its parser's own, its filter is well-scoped, its sort terms name
    sortable fields, and the engine has what it asks for. */
module AcceptedQueries {
  import opened Common
  import opened Strings
  import opened Ast
  import opened Lexer
  import opened SortParameter
  import opened SortPaths
  import opened SortMeaning
  import opened HttpQuery
  import opened Endpoint
  import AstGuard
  import Base64
  import Schema
  import Validator
  import WellScoped

  // ---- the limits ----

  /** What a query's own fields must not exceed. */
  ghost predicate Within(q: Query, l: Limits) {
    && q.queryBytes <= l.maxQueryBytes && |q.filterSource| <= l.maxFilterBytes
    && (q.limit.Some? ==> q.limit.value <= l.maxLimit) && (q.offset.Some? ==> q.offset.value <= l.maxOffset)
    && (q.cursor.Some? ==> |q.cursor.value| <= l.maxCursorBytes)
    && |q.sort| <= l.maxSortTerms && (q.search.Some? ==> |q.search.value| <= l.maxSearchBytes)
    && (q.filter.Some? ==> AstGuard.Admissible(q.filter.value, l))
  }

  // Path segments allowed: the smaller of the two bounds. A query built by hand has no limits of its own.
  function PathBound(e: Engine, q: Query): int {
    if q.limits == NO_LIMITS || e.limits.maxPathDepth <= q.limits.maxPathDepth then e.limits.maxPathDepth
    else q.limits.maxPathDepth
  }

  lemma {:induction false} NodesFitBoth(t: Expr, a: Limits, b: Limits)
    ensures AstGuard.NodesFit(t, IntersectLimits(a, b)) <==>
      AstGuard.NodesFit(t, a) && (b == NO_LIMITS || AstGuard.NodesFit(t, b))
  {
    hide AstGuard.LiteralBytes, AstGuard.PathDepth, IsPublicName;
    match t
    case Comparison(_, _, _, _) =>
    case Logical(_, left, right) =>
      NodesFitBoth(left, a, b);
      NodesFitBoth(right, a, b);
    case Not(operand) => NodesFitBoth(operand, a, b);
    case Quantifier(_, _, _, body) => NodesFitBoth(body, a, b);
  }

  lemma WithinBoth(q: Query, a: Limits, b: Limits)
    ensures Within(q, IntersectLimits(a, b)) <==> Within(q, a) && (b == NO_LIMITS || Within(q, b))
  {
    hide AstGuard.NodesFit;
    if q.filter.Some? {
      NodesFitBoth(q.filter.value, a, b);
    }
  }

  // ---- lexing again ----

  lemma {:induction false} LexReads(input: string, pos: nat, count: nat, a: Limits, b: Limits)
    requires pos <= |input| && a.maxTokens == b.maxTokens && a.maxLiteralBytes == b.maxLiteralBytes
    ensures LexFrom(input, pos, count, a) == LexFrom(input, pos, count, b)
    decreases |input| - pos
  {
    hide Next;
    if Next(input, pos).Ok? && Next(input, pos).value.kind != EndOfInput {
      LexReads(input, Next(input, pos).value.end, count + 1, a, b);
    }
  }

  /** A query that crosses into an endpoint with fewer tokens still has few enough of them. */
  ghost predicate TokensStillFit(e: Engine, q: Query) {
    q.filterSource != "" && e.limits.maxTokens < q.limits.maxTokens ==>
      Lex(q.filterSource,
          e.limits.(maxLiteralBytes := Min(e.limits.maxLiteralBytes, q.limits.maxLiteralBytes))).Ok?
  }

  lemma RelexedExactly(e: Engine, q: Query)
    requires AllPositive(e.limits) && (q.limits == NO_LIMITS || AllPositive(q.limits))
    ensures RelexIssue(q, IntersectLimits(e.limits, q.limits)).None? <==> TokensStillFit(e, q)
  {
    hide LexFrom;
    var limits := IntersectLimits(e.limits, q.limits);
    if q.filterSource != "" && limits.maxTokens < q.limits.maxTokens {
      LexReads(q.filterSource, 0, 0, limits,
               e.limits.(maxLiteralBytes := Min(e.limits.maxLiteralBytes, q.limits.maxLiteralBytes)));
    }
  }

  // ---- shape, filter and sort ----

  predicate ShapeSound(q: Query) {
    && (q.limit.Some? ==> q.limit.value >= 0) && (q.offset.Some? ==> q.offset.value >= 0)
    && (q.cursor.Some? ==>
          && q.cursor.value != "" && q.offset.None?
          && forall i :: 0 <= i < |q.cursor.value| ==> Base64.IsBase64URLCharacter(q.cursor.value[i]))
  }

  // Each requested term with the order it means.
  ghost predicate SortsMean(m: Schema.Model, terms: seq<SortTerm>, depth: int, sorts: seq<SortOrder>) {
    && |sorts| == |terms|
    && forall k :: 0 <= k < |terms| ==>
         TermMeans(m, terms[k], depth, sorts[k])
  }

  lemma {:induction false} SortsResolveExactly(m: Schema.Model, terms: seq<SortTerm>, depth: int, sorts: seq<SortOrder>)
    ensures ResolveSorts(m, terms, depth) == Ok(sorts) <==> SortsMean(m, terms, depth, sorts)
    decreases |terms|
  {
    hide ResolveSort, TermMeans;
    if terms != [] && sorts != [] {
      SortResolvesExactly(m, terms[0], depth, sorts[0]);
      SortsResolveExactly(m, terms[1..], depth, sorts[1..]);
      assert sorts == [sorts[0]] + sorts[1..];
      assert forall k :: 1 <= k < |terms| ==> terms[k] == terms[1..][k - 1];
      assert forall k :: 1 <= k < |sorts| ==> sorts[k] == sorts[1..][k - 1];
    }
  }

  // ---- the engine's verdict ----

  /** The engine accepts the query and orders by these terms: the requested ones, its default
      sort if there are none. */
  ghost predicate Accepts(e: Engine, q: Query, sorts: seq<SortOrder>) {
    && Within(q, e.limits) && (q.limits == NO_LIMITS || Within(q, q.limits)) && TokensStillFit(e, q)
    && ShapeSound(q)
    && (q.filter.Some? ==>
          WellScoped.WellScoped(e.convert, PathBound(e, q), e.schema, "", {}, q.filter.value))
    && (if q.sort == [] then sorts == e.defaultSort else SortsMean(e.schema, q.sort, PathBound(e, q), sorts))
    && (q.count == Some(true) ==> e.allowCount) && (q.search.Some? ==> e.hasSearch)
    && (q.cursor.Some? ==> e.decodeCursor(q.cursor.value, sorts).None?)
  }

  lemma ShapeExactly(q: Query, limits: Limits)
    requires q.queryBytes <= limits.maxQueryBytes && |q.filterSource| <= limits.maxFilterBytes
    requires q.filter.Some? ==> AstGuard.Admissible(q.filter.value, limits)
    ensures ShapeIssue(q, limits).None? <==> ShapeSound(q) && Within(q, limits)
  {
    hide AstGuard.Admissible;
  }

  lemma FilterPlanExactly(e: Engine, filter: Option<Expr>, limits: Limits)
    ensures FilterPlan(e, filter, limits).Ok? <==>
      (filter.Some? ==>
         && AstGuard.Admissible(filter.value, limits)
         && WellScoped.WellScoped(e.convert, limits.maxPathDepth, e.schema, "", {}, filter.value))
  {
    hide AstGuard.Admissible, AstGuard.InspectTree, Validator.ValidateFilter, WellScoped.WellScoped;
    if filter.Some? {
      AstGuard.TreesAccepted(filter.value, limits);
      WellScoped.AcceptedExactly(e.convert, limits.maxPathDepth, e.schema, filter.value);
    }
  }

  /** Engine.validate accepts exactly those queries. */
  lemma AcceptedExactly(e: Engine, q: Query, sorts: seq<SortOrder>)
    requires AllPositive(e.limits) && (q.limits == NO_LIMITS || AllPositive(q.limits))
    ensures ValidateOf(e, q).Ok? && ValidateOf(e, q).value.sort == sorts <==> Accepts(e, q, sorts)
  {
    hide AstGuard.Admissible, FilterPlan, WellScoped.WellScoped, TermMeans, RelexIssue, TokensStillFit, ShapeIssue,
      ShapeSound;
    var limits := IntersectLimits(e.limits, q.limits);
    assert limits != NO_LIMITS && limits.maxPathDepth == PathBound(e, q);
    WithinBoth(q, e.limits, q.limits);
    RelexedExactly(e, q);
    FilterPlanExactly(e, q.filter, limits);
    if q.queryBytes <= limits.maxQueryBytes && |q.filterSource| <= limits.maxFilterBytes
      && (q.filter.Some? ==> AstGuard.Admissible(q.filter.value, limits))
    {
      ShapeExactly(q, limits);
    }
    SortsResolveExactly(e.schema, q.sort, limits.maxPathDepth, sorts);
    if ResolveSorts(e.schema, q.sort, limits.maxPathDepth).Ok? {
      SortsResolveExactly(e.schema, q.sort, limits.maxPathDepth,
                          ResolveSorts(e.schema, q.sort, limits.maxPathDepth).value);
    }
  }
}
