/** From the query parameters of a request to the page it is answered with: what parsing
    and validation leave for the listing, and when the whole request succeeds. */
module ServedQueries {
  import opened Common
  import opened Strings
  import opened SortParameter
  import opened SortPaths
  import opened SortMeaning
  import opened BindingTheorems
  import opened FilterCorrectness
  import opened BoundFilters
  import opened BoundQueries
  import opened Endpoint
  import Aliases
  import AstGuard
  import Ast
  import Compiler
  import Cursor
  import CursorCodec
  import FilterMeaning
  import Grammar
  import HttpQuery
  import Listing
  import Schema
  import S = Sql
  import Validator

  // What an engine is built with: its storage side, the Go types of its columns, and the
  // JSON and hash functions of its cursors.
  datatype Deployment = Deployment(engine: Engine, listing: Listing.Endpoint, lib: CursorCodec.Library,
                                   typeOf: Schema.Field -> Cursor.ScalarType, includeDeleted: bool)

  // effectiveSort followed by decodeCursor.
  function DecodeIssue(lib: CursorCodec.Library, e: Listing.Endpoint, sort: seq<Cursor.Order>,
                       token: string): Option<ErrorCode> {
    var orders := Cursor.EffectiveSortOf(e.model, sort);
    if orders.Err? then Some(orders.code)
    else
      match CursorCodec.DecodeCursorOf(lib, e.model.table, orders.value, token, e.maxCursorBytes)
      case Err(code) => Some(code)
      case Ok(_) => None
  }

  /** The two sides are one engine: they share the table, the default sort, the switches and
      the cursor codec. */
  ghost predicate OneEngine(x: Deployment) {
    && x.listing.model.table == x.engine.schema.table
    && x.listing.defaultSort == OrdersOf(x.engine.defaultSort, x.typeOf)
    && x.listing.allowCount == x.engine.allowCount
    && x.listing.maxCursorBytes == x.engine.limits.maxCursorBytes
    && forall token, sort ::
         x.engine.decodeCursor(token, sort) == DecodeIssue(x.lib, x.listing, OrdersOf(sort, x.typeOf), token)
  }

  // New resolves the default sort against the bound schema.
  ghost predicate NewEngine(e: Engine) {
    && AllPositiveLimits(e) && WellFormed(e.schema) && GoNamed(e.schema) && StringsConvertToText(e.convert)
    && exists terms :: ResolveSorts(e.schema, terms, e.limits.maxPathDepth) == Ok(e.defaultSort)
  }

  predicate AllPositiveLimits(e: Engine) { HttpQuery.AllPositive(e.limits) }

  function Natural(n: Option<int>): Option<nat> {
    if n.Some? && n.value >= 0 then Some(n.value) else None
  }

  // What the listing is asked for once the query is validated and its filter compiled.
  function RequestOf(x: Deployment, q: HttpQuery.Query, sort: seq<SortOrder>,
                     clause: Option<S.Clause>): Listing.Request {
    Listing.Request(clause, OrdersOf(sort, x.typeOf), Natural(q.limit), Natural(q.offset), q.count == Some(true),
                    q.cursor)
  }

  /** The checks validate leaves to the switches are the ones the listing makes before it
      reads a row, in the same order and with the same codes. */
  lemma SwitchesAreListChecks(x: Deployment, d: S.Dialect, snap: Listing.Snapshot, base: Listing.Statement,
                              q: HttpQuery.Query, sort: seq<SortOrder>, clause: Option<S.Clause>)
    requires OneEngine(x) && (q.search.Some? ==> x.engine.hasSearch) && (sort == [] ==> x.engine.defaultSort == [])
    ensures var request := RequestOf(x, q, sort, clause);
      Listing.ListIssue(x.lib, d, x.listing, snap, base, request) ==
        if SwitchIssue(x.engine, q, sort).Some? then SwitchIssue(x.engine, q, sort)
        else RowIssue(x, d, snap, base, request)
    ensures SwitchIssue(x.engine, q, sort).None? ==> CursorFits(x, RequestOf(x, q, sort, clause))
  {
    hide Listing.PageEncodes, CursorCodec.DecodeCursorOf, CursorCodec.EncodeCursorOf, Cursor.EffectiveSortOf;
    var request := RequestOf(x, q, sort, clause);
    var orders := Cursor.EffectiveSortOf(x.listing.model, OrdersOf(sort, x.typeOf));
    if SwitchIssue(x.engine, q, sort).None? && q.cursor.Some? && orders.Ok? {
      DecodedKeys(x.lib, x.listing, orders.value, q.cursor.value);
    }
    assert request.sort == [] ==> OrdersOf(x.engine.defaultSort, x.typeOf) == request.sort;
    assert Listing.SortOf(x.listing, request) == OrdersOf(sort, x.typeOf);
  }

  // The cursor, if any, decodes to one key a term.
  ghost predicate CursorFits(x: Deployment, q: Listing.Request) {
    var sort := Cursor.EffectiveSortOf(x.listing.model, Listing.SortOf(x.listing, q));
    sort.Ok? ==>
      var cursor := Listing.CursorOf(x.lib, x.listing, sort.value, q);
      cursor.Ok? && (cursor.value.Some? ==> |cursor.value.value| == |sort.value|)
  }

  lemma DecodedKeys(lib: CursorCodec.Library, e: Listing.Endpoint, orders: seq<Cursor.Order>, token: string)
    ensures var keys := CursorCodec.DecodeCursorOf(lib, e.model.table, orders, token, e.maxCursorBytes);
      keys.Ok? ==> |keys.value| == |orders|
  {
    var keys := CursorCodec.DecodeCursorOf(lib, e.model.table, orders, token, e.maxCursorBytes);
    if keys.Ok? {
      CursorCodec.EncodeOfDecode(lib, e.model.table, orders, token, e.maxCursorBytes);
    }
  }

  // What can still go wrong with a request whose cursor fits: the sort cannot be
  // completed, or the page's last row has no token.
  ghost function RowIssue(x: Deployment, d: S.Dialect, snap: Listing.Snapshot, base: Listing.Statement,
                          q: Listing.Request): Option<ErrorCode> {
    var sort := Cursor.EffectiveSortOf(x.listing.model, Listing.SortOf(x.listing, q));
    if Listing.LimitOf(x.listing, q) == 0 then None
    else if sort.Err? then Some(sort.code)
    else
      var cursor := Listing.CursorOf(x.lib, x.listing, sort.value, q);
      if cursor.Err? || (cursor.value.Some? && |cursor.value.value| != |sort.value|) then Some(InvalidSchema)
      else if Listing.PageEncodes(x.lib, x.listing, Listing.View(d, x.listing.model.table, sort.value), snap,
                                  Listing.Scope(base, q), cursor.value, Listing.LimitOf(x.listing, q),
                                  Listing.OffsetOf(q))
      then None
      else Some(ExecutionFailed)
  }

  // ---- the whole request ----

  // A request for the listing, and the text its scope is searched for.
  datatype Listable = Listable(request: Listing.Request, search: Option<string>)

  function CompiledPlan(x: Deployment, filter: Option<Validator.Validated>): Result<Option<S.Clause>> {
    if filter.None? then Ok(None)
    else
      var clause :- Compiler.Compile(filter.value, x.includeDeleted);
      Ok(Some(clause))
  }

  /** Parse and validate, with the filter compiled. */
  ghost function Listed(x: Deployment, values: HttpQuery.Values, compat: bool): Result<Listable> {
    var q :- HttpQuery.ParseHttpOf(values, x.engine.limits, compat);
    var plan :- ValidateOf(x.engine, q);
    var clause :- CompiledPlan(x, plan.filter);
    Ok(Listable(RequestOf(x, q, plan.sort, clause), q.search))
  }

  // What the listing asks of the base scope for this request.
  ghost predicate Scoped(x: Deployment, base: Listing.Statement, request: Listing.Request) {
    var sort := Cursor.EffectiveSortOf(x.listing.model, Listing.SortOf(x.listing, request));
    Listing.WithoutLimits(base) && (sort.Ok? ==> Listing.JoinsApart(base, sort.value))
  }

  lemma {:induction false} ResolvedLength(m: Schema.Model, terms: seq<SortTerm>, depth: int)
    requires ResolveSorts(m, terms, depth).Ok?
    ensures |ResolveSorts(m, terms, depth).value| == |terms|
  {
    hide ResolveSort;
    if terms != [] {
      ResolvedLength(m, terms[1..], depth);
    }
  }

  // The parsed query, under the engine's own limits, and what validation makes of it.
  lemma ValidatedPlan(x: Deployment, d: S.Dialect, values: HttpQuery.Values, compat: bool, q: HttpQuery.Query,
                      plan: Plan)
    requires NewEngine(x.engine) && HttpQuery.ParseHttpOf(values, x.engine.limits, compat) == Ok(q)
    requires ValidateOf(x.engine, q) == Ok(plan)
    ensures SwitchIssue(x.engine, q, plan.sort).None? && (q.search.Some? ==> x.engine.hasSearch)
    ensures plan.sort == [] ==> x.engine.defaultSort == []
    ensures Cursor.WellFormedRequest(OrdersOf(plan.sort, x.typeOf))
    ensures CompiledPlan(x, plan.filter).Ok?
    ensures q.filter.None? <==> plan.filter.None?
    ensures q.filter.Some? ==>
      && Grammar.ParseFilter(q.filterSource, x.engine.limits) == Ok(q.filter.value)
      && var checked :=
           Validator.ValidateFilter(x.engine.convert, x.engine.limits.maxPathDepth, x.engine.schema, q.filter.value);
         checked.Ok? && plan.filter == Some(checked.value.0)
  {
    hide HttpQuery.ParseHttpOf, Grammar.ParseFilter, Validator.ValidateFilter, Compiler.Compile, ResolveSorts,
      WellFormed, GoNamed, StringsConvertToText, RelexIssue, AstGuard.InspectTree;
    ParsedQuery(values, x.engine.limits, compat);
    var limits := x.engine.limits;
    assert IntersectLimits(limits, q.limits) == limits;
    assert limits != HttpQuery.NO_LIMITS;
    var terms :| ResolveSorts(x.engine.schema, terms, limits.maxPathDepth) == Ok(x.engine.defaultSort);
    ResolvedSortsAreWellFormed(x.engine.schema, terms, limits.maxPathDepth, x.typeOf);
    ResolvedSortsAreWellFormed(x.engine.schema, q.sort, limits.maxPathDepth, x.typeOf);
    ResolvedLength(x.engine.schema, q.sort, limits.maxPathDepth);
    if q.filter.Some? {
      var w := FilterMeaning.World(d, map[], x.engine.convert, x.includeDeleted);
      FilterFacts(q.filterSource, limits, w, limits.maxPathDepth, x.engine.schema);
    }
  }

  /** Engine.list from the query parameters on. `scope` is the base scope after the search
      callback, `fetch` and `counted` are the database. A request is refused by the parser,
      by validate, or because its page cannot be ended; otherwise it is answered. */
  method ListHttp(x: Deployment, d: S.Dialect, snap: Listing.Snapshot, scope: Option<string> -> Listing.Statement,
                  values: HttpQuery.Values, compat: bool,
                  fetch: Listing.Statement -> seq<S.Env>, counted: Listing.Statement -> nat)
    returns (result: Result<Listing.Page>)
    requires OneEngine(x) && NewEngine(x.engine) && x.listing.model.primaryColumns != []
    requires S.TotalPreorder(d.le) && Listing.DistinctRows(d, x.listing.model, snap)
    requires var listed := Listed(x, values, compat);
      listed.Ok? ==> Scoped(x, scope(listed.value.search), listed.value.request)
    requires forall st :: Listing.Executable(x.listing.model.table, st) ==> Listing.Answers(d, snap, st, fetch(st))
    requires forall st :: counted(st) == |Listing.Matching(d, snap, st.wheres)|
    ensures match Listed(x, values, compat)
            case Err(code) => result == Err(code)
            case Ok(listed) =>
              var base := scope(listed.search);
              match RowIssue(x, d, snap, base, listed.request)
              case None => result.Ok? && Listing.Answered(x.lib, d, x.listing, snap, base, listed.request, result.value)
              case Some(code) => result == Err(code)
  {
    hide HttpQuery.ParseHttpOf, ValidateOf, Compiler.Compile, WellFormed, GoNamed, StringsConvertToText, NewEngine,
      OneEngine, RowIssue, Listing.ListIssue, Listing.Answered, Listing.Answers, Listing.Executable, Listing.Matching,
      Listing.DistinctRows, S.TotalPreorder, Cursor.EffectiveSortOf, SwitchIssue;
    var q :- HttpQuery.ParseHttp(values, x.engine.limits, compat);
    var plan :- Validate(x.engine, q);
    ValidatedPlan(x, d, values, compat, q, plan);
    var clause := CompiledPlan(x, plan.filter).value;
    var request := RequestOf(x, q, plan.sort, clause);
    var base := scope(q.search);
    SwitchesAreListChecks(x, d, snap, base, q, plan.sort, clause);
    SortAskedFor(x, q, plan.sort, clause);
    result := Listing.List(x.lib, d, x.listing, snap, base, request, fetch, counted);
  }

  lemma SortAskedFor(x: Deployment, q: HttpQuery.Query, sort: seq<SortOrder>, clause: Option<S.Clause>)
    requires OneEngine(x) && (sort == [] ==> x.engine.defaultSort == [])
    ensures Listing.SortOf(x.listing, RequestOf(x, q, sort, clause)) == OrdersOf(sort, x.typeOf)
  {
    assert OrdersOf(sort, x.typeOf) == [] ==> OrdersOf(x.engine.defaultSort, x.typeOf) == [];
  }

  /** The conditions of such a request are the base scope's and the clause of its filter's
      text, so the rows of its page are ones of which that text is TRUE. */
  lemma AnsweredRowsAreTrue(x: Deployment, w: FilterMeaning.World, snap: Listing.Snapshot, base: Listing.Statement,
                            values: HttpQuery.Values, compat: bool, page: Listing.Page)
    requires OneEngine(x) && NewEngine(x.engine) && !Aliases.IsJoinAlias(x.engine.schema.table)
    requires w.convert == x.engine.convert && w.includeDeleted == x.includeDeleted
    requires RootsBound(snap, x.engine.schema.table)
    requires Listed(x, values, compat).Ok? && "filter" in values
    requires Listing.Answered(x.lib, w.d, x.listing, snap, base, Listed(x, values, compat).value.request, page)
    ensures |values["filter"]| == 1
      && Accepted(values["filter"][0], x.engine.limits, w, x.engine.limits.maxPathDepth, x.engine.schema)
    ensures CompiledText(values["filter"][0], x.engine.limits, w, x.engine.limits.maxPathDepth, x.engine.schema).Ok?
    ensures Listing.Scope(base, Listed(x, values, compat).value.request) ==
            base.wheres + [CompiledText(values["filter"][0], x.engine.limits, w, x.engine.limits.maxPathDepth,
                                        x.engine.schema).value]
    ensures var expr := Grammar.ParseFilter(values["filter"][0], x.engine.limits).value;
      forall r :: r in page.items ==> TrueOf(w, x.engine.schema, expr, snap, base.wheres, r)
  {
    hide ValidateOf, Grammar.ParseFilter, Validator.ValidateFilter, Compiler.Compile, WellFormed, GoNamed,
      StringsConvertToText, TrueOf, Listing.IsPage, RootsBound, Aliases.IsJoinAlias, Cursor.EffectiveSortOf;
    var q := HttpQuery.ParseHttpOf(values, x.engine.limits, compat).value;
    var plan := ValidateOf(x.engine, q).value;
    ValidatedPlan(x, w.d, values, compat, q, plan);
    if page.limit > 0 {
      var request := Listed(x, values, compat).value.request;
      var orders := Cursor.EffectiveSortOf(x.listing.model, Listing.SortOf(x.listing, request)).value;
      PageRowsMatchFilter(values["filter"][0], x.engine.limits, w, x.engine.limits.maxPathDepth, x.engine.schema, x.lib,
                          x.listing, Listing.View(w.d, x.listing.model.table, orders), snap, base.wheres,
                          Listing.CursorOf(x.lib, x.listing, orders, request).value, page.limit, page.offset, page);
    }
  }
}
