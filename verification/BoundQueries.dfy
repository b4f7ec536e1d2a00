/** From validated queries to pages: the sorts the validator answers are the ones the
    listing asks for, and the rows it lists are those the filter's text is TRUE of. */
module BoundQueries {
  import opened Common
  import opened Strings
  import opened Aliases
  import opened Validator
  import opened FilterMeaning
  import opened FilterCorrectness
  import opened BindingTheorems
  import opened BoundFilters
  import opened SortParameter
  import opened SortPaths
  import opened SortMeaning
  import opened Endpoint
  import Ast
  import Compiler
  import Cursor
  import Grammar
  import KeyOrder
  import Listing
  import Schema
  import P = Pagination
  import T = Traversal
  import CursorCodec
  import S = Sql

  // ---- sorts ----

  // A validated sort term, with the Go type of its column.
  function OrderOf(o: SortOrder, typeOf: Schema.Field -> Cursor.ScalarType): Cursor.Order {
    Cursor.Order(o.table, o.field.column, o.joinPath, o.desc, o.field.nullable, typeOf(o.field))
  }

  function OrdersOf(sorts: seq<SortOrder>, typeOf: Schema.Field -> Cursor.ScalarType): seq<Cursor.Order> {
    seq(|sorts|, i requires 0 <= i < |sorts| => OrderOf(sorts[i], typeOf))
  }

  lemma ResolvedAlias(m: Schema.Model, term: SortTerm, maxPathDepth: int)
    requires GoNamed(m) && ResolveSort(m, term, maxPathDepth).Ok?
    ensures var o := ResolveSort(m, term, maxPathDepth).value; o.table == JoinedAlias(o.joinPath)
  {
    hide GoNamed, ResolveSort, SortMeans, JoinedAlias;
    var o := ResolveSort(m, term, maxPathDepth).value;
    SortResolvesExactly(m, term, maxPathDepth, o);
    var names, goNames, owner :| SortMeans(m, term, maxPathDepth, o, names, goNames, owner);
    JoinPathSplits(m, term, maxPathDepth, o, names, goNames, owner);
  }

  /** What validateSortPath answers is a well-formed request for the listing. */
  lemma {:induction false} ResolvedSortsAreWellFormed(m: Schema.Model, terms: seq<SortTerm>, maxPathDepth: int,
                                                      typeOf: Schema.Field -> Cursor.ScalarType)
    requires GoNamed(m) && ResolveSorts(m, terms, maxPathDepth).Ok?
    ensures Cursor.WellFormedRequest(OrdersOf(ResolveSorts(m, terms, maxPathDepth).value, typeOf))
    decreases |terms|
  {
    hide GoNamed, ResolveSort, JoinedAlias;
    if terms != [] {
      ResolvedAlias(m, terms[0], maxPathDepth);
      ResolvedSortsAreWellFormed(m, terms[1..], maxPathDepth, typeOf);
      var sorts, rest := ResolveSorts(m, terms, maxPathDepth).value, ResolveSorts(m, terms[1..], maxPathDepth).value;
      var orders, later := OrdersOf(sorts, typeOf), OrdersOf(rest, typeOf);
      forall i | 0 <= i < |orders| ensures orders[i].table == JoinedAlias(orders[i].joinPath) {
        if i > 0 {
          assert orders[i] == later[i - 1];
        }
      }
    }
  }

  // ---- rows ----

  // Unqualified columns read the root row.
  ghost predicate RootsBound(snap: Listing.Snapshot, table: string) {
    forall r :: r in snap.rows ==> table in r && "" in r && r[""] == r[table]
  }

  ghost predicate FilterHolds(w: World, model: Schema.Model, expr: Ast.Expr, row: S.Env)
    requires model.table in row
  {
    Meaning(w, Binding(model, row[model.table]), map[], expr) == S.True
  }

  /** A text that parses to a filter a bound schema's validator accepts, over a root table
      that is not named like a join alias. */
  ghost predicate Accepted(input: string, given: Ast.Limits, w: World, depth: int, model: Schema.Model) {
    && Grammar.ParseFilter(input, given).Ok?
    && ValidateFilter(w.convert, depth, model, Grammar.ParseFilter(input, given).value).Ok?
    && WellFormed(model) && StringsConvertToText(w.convert) && !IsJoinAlias(model.table)
  }

  ghost function CompiledText(input: string, given: Ast.Limits, w: World, depth: int,
                              model: Schema.Model): Result<S.Clause>
    requires Accepted(input, given, w, depth, model)
  {
    var expr := Grammar.ParseFilter(input, given).value;
    Compiler.Compile(ValidateFilter(w.convert, depth, model, expr).value.0, w.includeDeleted)
  }

  // A row of the scope of which the filter is TRUE in a snapshot.
  ghost predicate TrueOf(w: World, model: Schema.Model, expr: Ast.Expr, snap: Listing.Snapshot, scope: seq<S.Clause>,
                         row: S.Env) {
    && row in Listing.Matching(w.d, snap, scope) && model.table in row
    && FilterHolds(w.(db := snap.db), model, expr, row)
  }

  lemma AcceptedElsewhere(input: string, given: Ast.Limits, w: World, depth: int, model: Schema.Model, db: S.Database)
    requires Accepted(input, given, w, depth, model)
    ensures Accepted(input, given, w.(db := db), depth, model)
    ensures CompiledText(input, given, w.(db := db), depth, model) == CompiledText(input, given, w, depth, model)
  {}

  /** The rows a list statement selects are the rows of its scope that the text of the
      filter is TRUE of. */
  lemma MatchingIsMeaning(input: string, given: Ast.Limits, w: World, depth: int, model: Schema.Model,
                          snap: Listing.Snapshot, scope: seq<S.Clause>)
    requires Accepted(input, given, w, depth, model) && RootsBound(snap, model.table)
    ensures var clause := CompiledText(input, given, w, depth, model);
      && clause.Ok?
      && forall r :: r in Listing.Matching(w.d, snap, scope + [clause.value]) <==>
           TrueOf(w, model, Grammar.ParseFilter(input, given).value, snap, scope, r)
  {
    hide Grammar.ParseFilter, ValidateFilter, Compiler.Compile, S.Eval, S.EvalAll, Meaning, WellFormed,
      StringsConvertToText, IsJoinAlias;
    var now := w.(db := snap.db);
    AcceptedElsewhere(input, given, w, depth, model, snap.db);
    FilterFacts(input, given, now, depth, model);
    var expr := Grammar.ParseFilter(input, given).value;
    var clause := CompiledText(input, given, w, depth, model).value;
    forall r | r in snap.rows
      ensures Listing.Selects(w.d, snap, scope + [clause], r) <==>
        Listing.Selects(w.d, snap, scope, r) && FilterHolds(now, model, expr, r)
    {
      ParsedFilterMeansSource(input, given, now, depth, model, r);
      S.EvalAllAppend(w.d, snap.db, r, scope, [clause]);
      S.EvalSingle(w.d, snap.db, r, clause);
    }
  }

  /** So every row of a page is one the filter is TRUE of. */
  lemma PageRowsMatchFilter(input: string, given: Ast.Limits, w: World, depth: int, model: Schema.Model,
                            lib: CursorCodec.Library, e: Listing.Endpoint, v: Listing.View, snap: Listing.Snapshot,
                            scope: seq<S.Clause>, cursor: Option<KeyOrder.Keys>, limit: nat, offset: nat,
                            page: Listing.Page)
    requires Accepted(input, given, w, depth, model) && RootsBound(snap, model.table)
    requires v.d == w.d && (cursor.Some? ==> |cursor.value| == |v.orders|)
    requires var clause := CompiledText(input, given, w, depth, model);
      clause.Ok? && Listing.IsPage(lib, e, v, snap, scope + [clause.value], cursor, limit, offset, page)
    ensures forall r :: r in page.items ==> TrueOf(w, model, Grammar.ParseFilter(input, given).value, snap, scope, r)
  {
    hide Accepted, CompiledText, TrueOf, Listing.Matching;
    MatchingIsMeaning(input, given, w, depth, model, snap, scope);
    var clause := CompiledText(input, given, w, depth, model).value;
    forall r | r in page.items ensures r in Listing.Matching(w.d, snap, scope + [clause]) {
      PageRowMatches(lib, e, v, snap, scope + [clause], cursor, limit, offset, page, r);
    }
  }

  lemma PageRowMatches(lib: CursorCodec.Library, e: Listing.Endpoint, v: Listing.View, snap: Listing.Snapshot,
                       wheres: seq<S.Clause>, cursor: Option<KeyOrder.Keys>, limit: nat, offset: nat,
                       page: Listing.Page, r: S.Env)
    requires cursor.Some? ==> |cursor.value| == |v.orders|
    requires Listing.IsPage(lib, e, v, snap, wheres, cursor, limit, offset, page) && r in page.items
    ensures r in Listing.Matching(v.d, snap, wheres)
  {
    hide Listing.Matching, Listing.TokenFor;
    var rows :| T.Lists(v.Lt(), Listing.Remaining(v, snap, wheres, cursor), rows)
      && page.items == Listing.Window(rows, Some(offset), Some(limit));
    assert r in rows;
  }

  // ---- traversals of a filtered list ----

  // Pages of an accepted text's filter over a scope, the root row bound in every snapshot.
  ghost predicate Filtered(input: string, given: Ast.Limits, w: World, depth: int, model: Schema.Model,
                           scope: seq<S.Clause>, s: P.Setup, run: seq<P.World>)
  {
    && Accepted(input, given, w, depth, model) && P.ValidSetup(s) && P.Run(s, run) && s.v.d == w.d
    && (var clause := CompiledText(input, given, w, depth, model); clause.Ok? && s.wheres == scope + [clause.value])
    && forall i :: 0 <= i < |run| ==> RootsBound(run[i].snap, model.table)
  }

  /** While the table changes, a completed traversal returns exactly once every row of which
      the filter's text is TRUE from some moment on, at which the client has not come to it. */
  lemma TrueRowsReturnedOnce(input: string, given: Ast.Limits, w: World, depth: int, model: Schema.Model,
                             scope: seq<S.Clause>, s: P.Setup, run: seq<P.World>, m: nat, row: S.Env)
    requires Filtered(input, given, w, depth, model, scope, s, run) && T.Last(run).client.position == P.Done
    requires m < |run| && P.KeysAhead(s, run[m].client, s.v.Key(row))
    requires forall i :: m <= i < |run| ==>
      TrueOf(w, model, Grammar.ParseFilter(input, given).value, run[i].snap, scope, row)
    ensures T.ExactlyOnce(row, T.Last(run).client.seen)
  {
    hide Accepted, CompiledText, TrueOf, RootsBound, Listing.Matching, P.Run, P.ValidSetup, P.KeysAhead;
    forall i | m <= i < |run| ensures row in Listing.Matching(s.v.d, run[i].snap, s.wheres) {
      MatchingIsMeaning(input, given, w, depth, model, run[i].snap, scope);
    }
    P.LateRowsReturnedOnce(s, run, m, row);
  }

  /** And it returns nothing else: the text was TRUE of each returned row at some moment. */
  lemma ReturnedRowsWereTrue(input: string, given: Ast.Limits, w: World, depth: int, model: Schema.Model,
                             scope: seq<S.Clause>, s: P.Setup, run: seq<P.World>, row: S.Env)
    requires Filtered(input, given, w, depth, model, scope, s, run) && row in T.Last(run).client.seen
    ensures var expr := Grammar.ParseFilter(input, given).value;
      exists i :: 0 <= i < |run| && TrueOf(w, model, expr, run[i].snap, scope, row)
  {
    hide Accepted, CompiledText, TrueOf, RootsBound, Listing.Matching, P.Run, P.ValidSetup;
    P.ReturnedRowsMatched(s, run, row);
    var i :| 0 <= i < |run| && row in Listing.Matching(s.v.d, run[i].snap, s.wheres);
    MatchingIsMeaning(input, given, w, depth, model, run[i].snap, scope);
  }

  /** Over a fixed table a completed traversal returns the rows of which the text is TRUE,
      all of them and each once, in effective order. */
  lemma UndisturbedReturnsTrueRows(input: string, given: Ast.Limits, w: World, depth: int, model: Schema.Model,
                                   scope: seq<S.Clause>, s: P.Setup, run: seq<P.World>, snap: Listing.Snapshot)
    requires Filtered(input, given, w, depth, model, scope, s, run) && P.Undisturbed(s, snap, run)
    requires T.Last(run).client.position == P.Done
    ensures T.Increasing(s.v.Lt(), T.Last(run).client.seen)
    ensures forall r :: r in T.Last(run).client.seen <==>
      TrueOf(w, model, Grammar.ParseFilter(input, given).value, snap, scope, r)
  {
    hide Accepted, CompiledText, TrueOf, RootsBound, Listing.Matching, P.ValidSetup, P.PageStep;
    assert snap == run[0].snap;
    assert P.GoodSnapshot(s, snap) && RootsBound(snap, model.table);
    var all := P.RemainingListed(s, snap, None);
    P.FullTraversal(s, snap, run, all);
    P.ReturnedStrictlyIncreasing(s, run);
    MatchingIsMeaning(input, given, w, depth, model, snap, scope);
  }
}
