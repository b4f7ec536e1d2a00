/** What the page of an accepted request holds, said of the parameters: its window, its
    order, and the request that follows. */
module ServedPages {
  import opened Common
  import opened Strings
  import opened SortParameter
  import opened SortPaths
  import opened SortMeaning
  import opened Grammar
  import opened HttpQuery
  import opened HttpParameters
  import opened AcceptedQueries
  import opened BoundQueries
  import opened ServedQueries
  import Ast
  import AstGuard
  import Base64
  import BindingTheorems
  import Compiler
  import Cursor
  import CursorCodec
  import E = Endpoint
  import Lexer
  import KeyOrder
  import Listing
  import Schema
  import S = Sql
  import T = Traversal
  import WellScoped

  // ---- the window ----

  // The parsed query, and what of it the listing is asked for.
  lemma AcceptedQuery(x: Deployment, values: Values, compat: bool) returns (q: Query)
    requires Listed(x, values, compat).Ok?
    ensures ParseHttpOf(values, x.engine.limits, compat) == Ok(q) && Reads(values, x.engine.limits, compat, q)
    ensures var request := Listed(x, values, compat).value.request;
      && request.limit == q.limit && request.offset == q.offset && request.token == q.cursor
      && request.count == (q.count == Some(true))
  {
    hide ParseHttpOf, E.ValidateOf, Compiler.Compile, NumberSays, CursorSays, CountSays, SearchSays, FilterSays,
      SortSays;
    q := ParseHttpOf(values, x.engine.limits, compat).value;
    ParsedExactly(values, x.engine.limits, compat, q);
    NumbersAreNatural(values, x.engine.limits, compat, q);
  }

  lemma NumbersAreNatural(values: Values, limits: Ast.Limits, compat: bool, q: Query)
    requires Reads(values, limits, compat, q)
    ensures Natural(q.limit) == q.limit && Natural(q.offset) == q.offset
  {}

  /** Limit and offset are those of the parameters, or the endpoint's default and zero; the
      page has a Total if and only if count=true was asked for. */
  lemma WindowAsAsked(x: Deployment, d: S.Dialect, snap: Listing.Snapshot, base: Listing.Statement,
                      values: Values, compat: bool, page: Listing.Page)
    requires Listed(x, values, compat).Ok?
    requires Listing.Answered(x.lib, d, x.listing, snap, base, Listed(x, values, compat).value.request, page)
    ensures if Absent(values, "limit", "top", compat) then page.limit == x.listing.defaultLimit
            else SaysEither(values, "limit", "top", compat, Decimal(page.limit))
    ensures if Absent(values, "offset", "skip", compat) then page.offset == 0
            else SaysEither(values, "offset", "skip", compat, Decimal(page.offset))
    ensures page.total.Some? <==> "count" in values && values["count"] == ["true"]
  {
    hide Listed, Listing.Serves, Listing.Matching;
    var q := AcceptedQuery(x, values, compat);
  }

  // The listing a request's page is cut from: the matching rows its cursor has not passed, in effective order.
  ghost predicate ListingOf(x: Deployment, d: S.Dialect, snap: Listing.Snapshot, base: Listing.Statement,
                            q: Listing.Request, rows: seq<S.Env>)
  {
    var sort := Cursor.EffectiveSortOf(x.listing.model, Listing.SortOf(x.listing, q));
    sort.Ok? && CursorFits(x, q)
    && var v := Listing.View(d, x.listing.model.table, sort.value);
       var cursor := Listing.CursorOf(x.lib, x.listing, sort.value, q);
       T.Lists(v.Lt(), Listing.Remaining(v, snap, Listing.Scope(base, q), cursor.value), rows)
  }

  /** The items are that listing's from the offset on, as many as the limit allows: a request
      with neither gets the first default-limit rows. */
  lemma ItemsAsAsked(x: Deployment, d: S.Dialect, snap: Listing.Snapshot, base: Listing.Statement,
                     values: Values, compat: bool, page: Listing.Page, rows: seq<S.Env>)
    requires S.TotalPreorder(d.le) && Listed(x, values, compat).Ok?
    requires Listing.Answered(x.lib, d, x.listing, snap, base, Listed(x, values, compat).value.request, page)
    requires ListingOf(x, d, snap, base, Listed(x, values, compat).value.request, rows)
    ensures page.items == rows[Min(page.offset, |rows|)..Min(page.offset + page.limit, |rows|)]
  {
    hide Listed, S.TotalPreorder, T.Lists, Listing.Remaining, Cursor.EffectiveSortOf, Listing.CursorOf, Listing.SortOf,
      Listing.Serves;
    var request := Listed(x, values, compat).value.request;
    Listing.PageIsSlice(x.lib, d, x.listing, snap, base, request, page, rows);
  }

  // ---- the order ----

  /** A cell that may stand above another: any above NULL, else by value in the direction asked for. */
  predicate StandsAbove(d: S.Dialect, desc: bool, a: S.Cell, b: S.Cell) {
    b.None? || (a.Some? && if desc then d.le(b.value, a.value) else d.le(a.value, b.value))
  }

  predicate Ties(d: S.Dialect, a: S.Cell, b: S.Cell) { StandsAbove(d, false, a, b) && StandsAbove(d, false, b, a) }

  lemma {:induction false} FirstDifference(d: S.Dialect, descs: seq<bool>, a: KeyOrder.Keys, b: KeyOrder.Keys, k: nat)
    requires S.TotalPreorder(d.le) && |descs| == |a| == |b| && KeyOrder.Before(d, descs, a, b) && k < |descs|
    requires forall m :: 0 <= m < k ==> Ties(d, a[m], b[m])
    ensures StandsAbove(d, descs[k], a[k], b[k])
    decreases k
  {
    if k > 0 {
      assert Ties(d, a[0], b[0]);
      forall m | 0 <= m < k - 1 ensures Ties(d, a[1..][m], b[1..][m]) {
        assert Ties(d, a[m + 1], b[m + 1]);
      }
      FirstDifference(d, descs[1..], a[1..], b[1..], k - 1);
    }
  }

  // The column a sort order reads: the root's, or the one of the table its Go names join to.
  function AskedColumn(schema: Schema.Model, goNames: seq<string>, o: SortOrder): S.Column {
    S.Column(if goNames == [] then schema.table else JoinWith("__", goNames), o.field.column)
  }

  // The column the text of a term names.
  ghost predicate NamesColumn(schema: Schema.Model, term: SortTerm, depth: int, column: S.Column) {
    exists o, names, goNames, owner ::
      SortMeans(schema, term, depth, o, names, goNames, owner) && column == AskedColumn(schema, goNames, o)
  }

  // Each requested term, with its order.
  lemma RequestedOrder(x: Deployment, values: Values, compat: bool, q: Query, k: nat)
    returns (o: SortOrder, column: S.Column)
    requires OneEngine(x) && NewEngine(x.engine) && Listed(x, values, compat).Ok?
    requires ParseHttpOf(values, x.engine.limits, compat) == Ok(q) && k < |q.sort|
    ensures var request := Listed(x, values, compat).value.request;
      |request.sort| == |q.sort| && request.sort[k] == OrderOf(o, x.typeOf)
    ensures NamesColumn(x.engine.schema, q.sort[k], x.engine.limits.maxPathDepth, column)
    ensures column == S.Column(if o.table == "" then x.engine.schema.table else o.table, o.field.column)
    ensures o.desc == q.sort[k].desc
  {
    hide ParseHttpOf, Compiler.Compile, GoNamed, SortMeans, E.ValidateOf, BindingTheorems.WellFormed;
    var depth, schema := x.engine.limits.maxPathDepth, x.engine.schema;
    ParsedExactly(values, x.engine.limits, compat, q);
    var plan := E.ValidateOf(x.engine, q).value;
    AcceptedExactly(x.engine, q, plan.sort);
    assert PathBound(x.engine, q) == depth;
    o := plan.sort[k];
    assert TermMeans(schema, q.sort[k], depth, o);
    var names, goNames, owner :| SortMeans(schema, q.sort[k], depth, o, names, goNames, owner);
    column := AskedColumn(schema, goNames, o);
    OrderMeant(schema, q.sort[k], depth, o, names, goNames, owner);
  }

  lemma OrderMeant(m: Schema.Model, term: SortTerm, depth: int, o: SortOrder,
                   names: seq<string>, goNames: seq<string>, owner: Schema.Model)
    requires GoNamed(m) && SortMeans(m, term, depth, o, names, goNames, owner)
    ensures AskedColumn(m, goNames, o) == S.Column(if o.table == "" then m.table else o.table, o.field.column)
    ensures o.desc == term.desc
  {
    hide GoNamed, GoPath;
    JoinPathSplits(m, term, depth, o, names, goNames, owner);
  }

  // A term names one column.
  lemma OneColumn(m: Schema.Model, term: SortTerm, depth: int, a: S.Column, b: S.Column)
    requires GoNamed(m) && NamesColumn(m, term, depth, a) && NamesColumn(m, term, depth, b)
    ensures a == b
  {
    hide GoNamed, SortMeans, ResolveSort;
    var o, names, goNames, owner :| SortMeans(m, term, depth, o, names, goNames, owner)
      && a == AskedColumn(m, goNames, o);
    var o', names', goNames', owner' :|
      SortMeans(m, term, depth, o', names', goNames', owner') && b == AskedColumn(m, goNames', o');
    assert TermMeans(m, term, depth, o) && TermMeans(m, term, depth, o');
    SortResolvesExactly(m, term, depth, o);
    SortResolvesExactly(m, term, depth, o');
    OrderMeant(m, term, depth, o, names, goNames, owner);
    OrderMeant(m, term, depth, o', names', goNames', owner');
  }

  // The listing's keys: the requested columns come first.
  lemma RequestedKey(x: Deployment, values: Values, compat: bool, q: Query, k: nat) returns (column: S.Column)
    requires OneEngine(x) && NewEngine(x.engine) && Listed(x, values, compat).Ok?
    requires ParseHttpOf(values, x.engine.limits, compat) == Ok(q) && k < |q.sort|
    ensures NamesColumn(x.engine.schema, q.sort[k], x.engine.limits.maxPathDepth, column)
    ensures var request := Listed(x, values, compat).value.request;
      var sort := Cursor.EffectiveSortOf(x.listing.model, Listing.SortOf(x.listing, request));
      sort.Ok? ==>
        && k < |sort.value| && sort.value[k].desc == q.sort[k].desc
        && Cursor.OrderColumn(x.listing.model.table, sort.value[k]) == column
  {
    hide ParseHttpOf, Listed, NamesColumn, NewEngine, Cursor.TieBreakers;
    var o: SortOrder;
    o, column := RequestedOrder(x, values, compat, q, k);
  }

  /** Two rows of a page that tie on the first k requested terms stand in the order the next
      one asks for: read from the column its path names, NULLs last. */
  lemma OrderAsAsked(x: Deployment, d: S.Dialect, snap: Listing.Snapshot, base: Listing.Statement,
                     values: Values, compat: bool, q: Query, page: Listing.Page, columns: seq<S.Column>, i: nat, j: nat)
    requires OneEngine(x) && NewEngine(x.engine) && S.TotalPreorder(d.le) && Listed(x, values, compat).Ok?
    requires ParseHttpOf(values, x.engine.limits, compat) == Ok(q)
    requires Listing.Answered(x.lib, d, x.listing, snap, base, Listed(x, values, compat).value.request, page)
    requires 0 < |columns| <= |q.sort| && i < j < |page.items|
    requires forall k :: 0 <= k < |columns| ==>
      NamesColumn(x.engine.schema, q.sort[k], x.engine.limits.maxPathDepth, columns[k])
    requires forall k :: 0 <= k < |columns| - 1 ==>
      Ties(d, S.Read(page.items[i], columns[k]), S.Read(page.items[j], columns[k]))
    ensures var k := |columns| - 1;
      StandsAbove(d, q.sort[k].desc, S.Read(page.items[i], columns[k]), S.Read(page.items[j], columns[k]))
  {
    hide ParseHttpOf, Listed, NamesColumn, NewEngine, S.TotalPreorder, Listing.Answered, Cursor.EffectiveSortOf,
      StandsAbove, Ties, KeyOrder.Before, Listing.SortOf;
    var request := Listed(x, values, compat).value.request;
    Listing.ItemsAscend(x.lib, d, x.listing, snap, base, request, page, i, j);
    var orders := Cursor.EffectiveSortOf(x.listing.model, Listing.SortOf(x.listing, request)).value;
    var a, b := Cursor.KeysOf(x.listing.model.table, orders, page.items[i]),
      Cursor.KeysOf(x.listing.model.table, orders, page.items[j]);
    var last := |columns| - 1;
    var lastColumn := RequestedKey(x, values, compat, q, last);
    forall k | 0 <= k < |columns|
      ensures k < |orders| && orders[k].desc == q.sort[k].desc
      ensures Cursor.OrderColumn(x.listing.model.table, orders[k]) == columns[k]
    {
      var column := RequestedKey(x, values, compat, q, k);
      assert GoNamed(x.engine.schema) by { NamedFields(x); }
      OneColumn(x.engine.schema, q.sort[k], x.engine.limits.maxPathDepth, column, columns[k]);
    }
    forall k | 0 <= k < last ensures Ties(d, a[k], b[k]) {
      assert Ties(d, S.Read(page.items[i], columns[k]), S.Read(page.items[j], columns[k]));
    }
    FirstDifference(d, Cursor.Directions(orders), a, b, last);
  }

  lemma NamedFields(x: Deployment)
    requires NewEngine(x.engine)
    ensures GoNamed(x.engine.schema)
  {}

  // ---- the request that follows ----

  // The same parameters with the cursor a page gave out.
  function Following(values: Values, page: Listing.Page): Values { values["cursor" := [page.nextCursor]] }

  lemma TokenIsUrlSafe(lib: CursorCodec.Library, e: Listing.Endpoint, v: Listing.View, row: S.Env, token: string)
    requires Listing.TokenFor(lib, e, v, row) == Ok(token) && forall envelope :: lib.marshal(envelope) != []
    ensures token != "" && |token| <= e.maxCursorBytes
    ensures forall i :: 0 <= i < |token| ==> Base64.IsBase64URLCharacter(token[i])
  {
    var raws := CursorCodec.MarshalAll(lib, v.Key(row)).value;
    var raw := lib.marshal(CursorCodec.Envelope(CursorCodec.CURSOR_VERSION,
                                                CursorCodec.Signature(lib, e.model.table, v.orders), raws));
    Base64.EncodeUsesAlphabet(raw);
    assert Base64.ToBits(raw) != [];
  }

  /** The parameters of a request together with the cursor its page gave out parse to the same
      query with that cursor, if and only if they still fit MaxQueryBytes. */
  lemma FollowingParses(x: Deployment, values: Values, compat: bool, q: Query, page: Listing.Page)
    requires Reads(values, x.engine.limits, compat, q) && Absent(values, "offset", "skip", compat)
    requires page.nextCursor != "" && |page.nextCursor| <= x.engine.limits.maxCursorBytes
    requires forall i :: 0 <= i < |page.nextCursor| ==> Base64.IsBase64URLCharacter(page.nextCursor[i])
    ensures var next := Following(values, page);
      ParseHttpOf(next, x.engine.limits, compat) ==
        if QueryBytes(next) > x.engine.limits.maxQueryBytes then Err(LimitExceeded)
        else Ok(q.(cursor := Some(page.nextCursor), queryBytes := QueryBytes(next)))
  {
    hide QueryBytes;
    var next := Following(values, page);
    if QueryBytes(next) <= x.engine.limits.maxQueryBytes {
      var again := q.(cursor := Some(page.nextCursor), queryBytes := QueryBytes(next));
      ParametersKept(values, x.engine.limits, compat, q, page);
      ParsedExactly(next, x.engine.limits, compat, again);
    }
  }

  lemma ParametersKept(values: Values, limits: Ast.Limits, compat: bool, q: Query, page: Listing.Page)
    requires Reads(values, limits, compat, q)
    ensures var next := Following(values, page);
      && FilterSays(next, limits, q.filter, q.filterSource) && SortSays(next, limits, compat, q.sort, q.sortSource)
      && NumberSays(next, "limit", "top", compat, limits.maxLimit, q.limit)
      && NumberSays(next, "offset", "skip", compat, limits.maxOffset, q.offset)
      && CountSays(next, q.count) && SearchSays(next, limits, q.search)
  {
    hide ParseFilter, SortOf, OrderByOf;
  }

  // The row a page with more behind it ends on, whose token it gave out.
  lemma LastRowToken(x: Deployment, d: S.Dialect, snap: Listing.Snapshot, base: Listing.Statement, q: Listing.Request,
                     page: Listing.Page)
    requires Listing.Answered(x.lib, d, x.listing, snap, base, q, page) && page.hasMore
    ensures page.items != [] && Cursor.EffectiveSortOf(x.listing.model, Listing.SortOf(x.listing, q)).Ok?
    ensures var orders := Cursor.EffectiveSortOf(x.listing.model, Listing.SortOf(x.listing, q)).value;
      Listing.TokenFor(x.lib, x.listing, Listing.View(d, x.listing.model.table, orders),
                       page.items[|page.items| - 1]) ==
      Ok(page.nextCursor)
  {
    hide Listing.TokenFor, T.Lists, Listing.Remaining, Cursor.EffectiveSortOf, Listing.CursorOf, Listing.Matching;
  }

  // The same query with another cursor is judged alike, apart from the cursor.
  lemma OtherCursor(e: E.Engine, q: Query, sorts: seq<SortOrder>, token: string, bytes: nat)
    requires Accepts(e, q, sorts) && q.offset.None? && q.limits == e.limits
    requires token != "" && |token| <= e.limits.maxCursorBytes && bytes <= e.limits.maxQueryBytes
    requires forall i :: 0 <= i < |token| ==> Base64.IsBase64URLCharacter(token[i])
    ensures Accepts(e, q.(cursor := Some(token), queryBytes := bytes), sorts) <==> e.decodeCursor(token, sorts).None?
  {
    hide WellScoped.WellScoped, SortsMean, AstGuard.Admissible, Lexer.LexFrom;
  }

  // The sort an accepted query orders by does not depend on the rest of it.
  lemma OneSort(e: E.Engine, q: Query, a: seq<SortOrder>, other: Query, b: seq<SortOrder>)
    requires Accepts(e, q, a) && Accepts(e, other, b) && q.sort == other.sort && q.limits == other.limits
    ensures a == b
  {
    hide WellScoped.WellScoped, SortsMean, Within, TokensStillFit, ShapeSound;
    SortsResolveExactly(e.schema, q.sort, PathBound(e, q), a);
    SortsResolveExactly(e.schema, q.sort, PathBound(e, q), b);
  }

  lemma VerdictOnCursor(e: E.Engine, q: Query, token: string, bytes: nat)
    requires AllPositive(e.limits) && E.ValidateOf(e, q).Ok? && q.offset.None? && q.limits == e.limits
    requires token != "" && |token| <= e.limits.maxCursorBytes && bytes <= e.limits.maxQueryBytes
    requires forall i :: 0 <= i < |token| ==> Base64.IsBase64URLCharacter(token[i])
    ensures E.ValidateOf(e, q.(cursor := Some(token), queryBytes := bytes)).Ok? <==>
      e.decodeCursor(token, E.ValidateOf(e, q).value.sort).None?
  {
    hide E.ValidateOf, Accepts, AllPositive;
    var sorts, again := E.ValidateOf(e, q).value.sort, q.(cursor := Some(token), queryBytes := bytes);
    AcceptedExactly(e, q, sorts);
    OtherCursor(e, q, sorts, token, bytes);
    AcceptedExactly(e, again, sorts);
    if E.ValidateOf(e, again).Ok? {
      AcceptedExactly(e, again, E.ValidateOf(e, again).value.sort);
      OneSort(e, q, sorts, again, E.ValidateOf(e, again).value.sort);
    }
  }

  // A request is listed if it parses and is valid: its filter then compiles.
  lemma ListedExactly(x: Deployment, d: S.Dialect, values: Values, compat: bool)
    requires NewEngine(x.engine)
    ensures Listed(x, values, compat).Ok? <==>
      ParseHttpOf(values, x.engine.limits, compat).Ok?
      && E.ValidateOf(x.engine, ParseHttpOf(values, x.engine.limits, compat).value).Ok?
  {
    hide ParseHttpOf, E.ValidateOf, CompiledPlan, NewEngine;
    var q := ParseHttpOf(values, x.engine.limits, compat);
    if q.Ok? && E.ValidateOf(x.engine, q.value).Ok? {
      ValidatedPlan(x, d, values, compat, q.value, E.ValidateOf(x.engine, q.value).value);
    }
  }

  /** The request that follows a page, its cursor added, is accepted if and only if it still
      fits MaxQueryBytes and the keys of the page's last row survive the cursor. */
  lemma FollowingAccepted(x: Deployment, d: S.Dialect, snap: Listing.Snapshot, base: Listing.Statement,
                          values: Values, compat: bool, q: Query, page: Listing.Page)
    requires OneEngine(x) && NewEngine(x.engine) && CursorCodec.JsonRoundTrips(x.lib)
    requires forall envelope :: x.lib.marshal(envelope) != []
    requires Listed(x, values, compat).Ok? && ParseHttpOf(values, x.engine.limits, compat) == Ok(q)
    requires Absent(values, "offset", "skip", compat)
    requires Listing.Answered(x.lib, d, x.listing, snap, base, Listed(x, values, compat).value.request, page)
      && page.hasMore
    requires SortAsked(x, values, compat).Ok?
    requires page.items != []
      && CursorCodec.TypedKeys(x.lib, OrdersAsked(x, values, compat), LastKeys(x, values, compat, page))
    ensures Listed(x, Following(values, page), compat).Ok? <==>
      && QueryBytes(Following(values, page)) <= x.engine.limits.maxQueryBytes
      && CursorCodec.KeysReturn(OrdersAsked(x, values, compat), LastKeys(x, values, compat, page))
  {
    hide QueryBytes, ParseHttpOf, E.ValidateOf, CursorCodec.JsonRoundTrips, CursorCodec.TypedKeys,
      CursorCodec.KeysReturn,
      Cursor.EffectiveSortOf, Listing.Serves, Compiler.Compile, CursorCodec.EncodeCursorOf, CursorCodec.DecodeCursorOf,
      Listed;
    var request := Listed(x, values, compat).value.request;
    var orders, keys := OrdersAsked(x, values, compat), LastKeys(x, values, compat, page);
    var next, token := Following(values, page), page.nextCursor;
    LastRowToken(x, d, snap, base, request, page);
    TokenIsUrlSafe(x.lib, x.listing, Listing.View(d, x.listing.model.table, orders), page.items[|page.items| - 1],
                   token);
    ParsedExactly(values, x.engine.limits, compat, q);
    FollowingParses(x, values, compat, q, page);
    ListedExactly(x, d, values, compat);
    ListedExactly(x, d, next, compat);
    if QueryBytes(next) <= x.engine.limits.maxQueryBytes {
      VerdictOnCursor(x.engine, q, token, QueryBytes(next));
      TokenDecodes(x, values, compat, q, keys, token);
    }
  }

  lemma TokenDecodes(x: Deployment, values: Values, compat: bool, q: Query, keys: KeyOrder.Keys, token: string)
    requires OneEngine(x) && NewEngine(x.engine) && CursorCodec.JsonRoundTrips(x.lib)
    requires Listed(x, values, compat).Ok? && ParseHttpOf(values, x.engine.limits, compat) == Ok(q)
    requires SortAsked(x, values, compat).Ok?
    requires CursorCodec.TypedKeys(x.lib, OrdersAsked(x, values, compat), keys)
    requires Ok(token) ==
      CursorCodec.EncodeCursorOf(x.lib, x.listing.model.table, OrdersAsked(x, values, compat), keys,
                                 x.listing.maxCursorBytes)
    ensures x.engine.decodeCursor(token, E.ValidateOf(x.engine, q).value.sort).None? <==>
      CursorCodec.KeysReturn(OrdersAsked(x, values, compat), keys)
  {
    hide ParseHttpOf, E.ValidateOf, CursorCodec.JsonRoundTrips, CursorCodec.TypedKeys, CursorCodec.KeysReturn,
      Cursor.EffectiveSortOf, Compiler.Compile, CursorCodec.EncodeCursorOf, CursorCodec.DecodeCursorOf;
    var request, sorts := Listed(x, values, compat).value.request, E.ValidateOf(x.engine, q).value.sort;
    ParsedExactly(values, x.engine.limits, compat, q);
    AcceptedExactly(x.engine, q, sorts);
    assert request.sort == [] ==> sorts == [] && x.engine.defaultSort == [];
    assert OrdersOf(sorts, x.typeOf) == Listing.SortOf(x.listing, request);
    CursorCodec.DecodeOfEncode(x.lib, x.listing.model.table, OrdersAsked(x, values, compat), keys,
                               x.listing.maxCursorBytes);
  }

  ghost function SortAsked(x: Deployment, values: Values, compat: bool): Result<seq<Cursor.Order>>
    requires Listed(x, values, compat).Ok?
  {
    Cursor.EffectiveSortOf(x.listing.model, Listing.SortOf(x.listing, Listed(x, values, compat).value.request))
  }

  ghost function OrdersAsked(x: Deployment, values: Values, compat: bool): seq<Cursor.Order>
    requires Listed(x, values, compat).Ok?
    requires SortAsked(x, values, compat).Ok?
  {
    SortAsked(x, values, compat).value
  }

  ghost function LastKeys(x: Deployment, values: Values, compat: bool, page: Listing.Page): KeyOrder.Keys
    requires Listed(x, values, compat).Ok? && page.items != []
    requires SortAsked(x, values, compat).Ok?
  {
    Cursor.KeysOf(x.listing.model.table, OrdersAsked(x, values, compat), page.items[|page.items| - 1])
  }
}
