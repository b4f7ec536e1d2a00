/** engine.go's list and count, cursor_scan.go's row scan and gorm_compiler.go's
    compileGORM: how one page is planned, fetched and cut, and what it contains. */
module Listing {
  import opened Common
  import opened Strings
  import opened Sql
  import opened KeyOrder
  import opened Cursor
  import opened CursorCodec
  import T = Traversal

  /** The rows a list statement ranges over: each root row with the rows its
      to-one sort joins reach (at most one each), and the tables subqueries see. */
  datatype Snapshot = Snapshot(rows: set<Env>, db: Database)

  datatype Statement = Statement(joins: seq<string>, wheres: seq<Clause>, orderBy: seq<OrderTerm>,
                                 limit: Option<int>, offset: Option<int>)

  // validatedQuery with the filter already compiled.
  datatype Plan = Plan(filter: Option<Clause>, sort: seq<Order>, limit: Option<int>, offset: Option<int>,
                       cursor: Option<Keys>)

  // ---- what the database answers ----

  ghost predicate Selects(d: Dialect, snap: Snapshot, wheres: seq<Clause>, row: Env) {
    row in snap.rows && EvalAll(d, snap.db, row, wheres) == True
  }

  ghost function Matching(d: Dialect, snap: Snapshot, wheres: seq<Clause>): set<Env> {
    set r | r in snap.rows && Selects(d, snap, wheres, r)
  }

  ghost predicate Enumerates(rows: seq<Env>, chosen: set<Env>) {
    && (forall r :: r in rows <==> r in chosen)
    && (forall i, j :: 0 <= i < j < |rows| ==> rows[i] != rows[j])
  }

  function Window<T>(rows: seq<T>, offset: Option<int>, limit: Option<int>): seq<T> {
    var skip := if offset.Some? then Max(0, Min(offset.value, |rows|)) else 0;
    var rest := rows[skip..];
    if limit.Some? && 0 <= limit.value <= |rest| then rest[..limit.value] else rest
  }

  ghost predicate InSqlOrder(d: Dialect, terms: seq<OrderTerm>, rows: seq<Env>) {
    forall i, j :: 0 <= i < j < |rows| ==> OrderCompare(d, terms, rows[i], rows[j]) != Greater
  }

  /** Any result SQL allows: the selected rows in some order ORDER BY permits, windowed. */
  ghost predicate Answers(d: Dialect, snap: Snapshot, st: Statement, result: seq<Env>) {
    exists all ::
      && Enumerates(all, Matching(d, snap, st.wheres))
      && InSqlOrder(d, st.orderBy, all)
      && result == Window(all, st.offset, st.limit)
  }

  /** SQL answers a statement only if no join is repeated and every column it orders by
      belongs to the root table or to a join's alias. */
  ghost predicate Executable(modelTable: string, st: Statement) {
    && DistinctPaths(st.joins)
    && forall k :: 0 <= k < |st.orderBy| ==> Joined(modelTable, st.joins, st.orderBy[k].column)
  }

  ghost predicate DistinctPaths(paths: seq<string>) {
    forall i, j :: 0 <= i < j < |paths| ==> paths[i] != paths[j]
  }

  ghost predicate Joined(modelTable: string, joins: seq<string>, column: Column) {
    column.table == modelTable || exists path :: path in joins && column.table == JoinedAlias(path)
  }

  // ---- compileGORM ----

  function JoinPaths(orders: seq<Order>): seq<string> {
    if orders == [] then []
    else
      var before := JoinPaths(orders[..|orders| - 1]);
      var path := orders[|orders| - 1].joinPath;
      if path == "" || path in before then before else before + [path]
  }

  function StatementOf(modelTable: string, base: Statement, plan: Plan): Result<Statement> {
    if plan.cursor.Some? && |plan.cursor.value| != |plan.sort| then Err(InvalidSchema)
    else Ok(Statement(
      base.joins + JoinPaths(plan.sort),
      base.wheres + (if plan.filter.Some? then [plan.filter.value] else [])
                  + (if plan.cursor.Some? then [CursorPredicate(modelTable, plan.sort, plan.cursor.value)] else []),
      if plan.sort == [] then base.orderBy else StableOrder(modelTable, plan.sort),
      if plan.limit.Some? then plan.limit else base.limit,
      if plan.offset.Some? then plan.offset else base.offset))
  }

  ghost predicate AsksFor(orders: seq<Order>, path: string) {
    exists i :: 0 <= i < |orders| && orders[i].joinPath == path
  }

  lemma AskedLast(orders: seq<Order>, path: string)
    requires orders != []
    ensures var last := |orders| - 1;
      AsksFor(orders, path) <==> AsksFor(orders[..last], path) || orders[last].joinPath == path
  {
    var before := orders[..|orders| - 1];
    if i :| 0 <= i < |orders| && orders[i].joinPath == path && i < |before| {
      assert before[i].joinPath == path;
    }
  }

  /** The joins of a sort are its non-empty join paths, each once, by first occurrence. */
  lemma {:induction false} JoinPathsExactly(orders: seq<Order>)
    ensures DistinctPaths(JoinPaths(orders))
    ensures forall path :: path in JoinPaths(orders) <==> path != "" && AsksFor(orders, path)
    ensures forall k :: 0 <= k <= |orders| ==> JoinPaths(orders[..k]) <= JoinPaths(orders)
  {
    hide AsksFor;
    assert orders[..|orders|] == orders;
    if orders == [] {
      NothingAsked();
    } else {
      var before := orders[..|orders| - 1];
      JoinPathsExactly(before);
      forall path ensures path in JoinPaths(orders) <==> path != "" && AsksFor(orders, path) {
        AskedLast(orders, path);
      }
      forall k | 0 <= k < |orders| ensures JoinPaths(orders[..k]) <= JoinPaths(orders) {
        assert orders[..k] == before[..k];
      }
    }
  }

  lemma NothingAsked()
    ensures forall path :: !AsksFor([], path)
  {}

  // The base scope joins nothing twice and nothing that the sort joins.
  ghost predicate JoinsApart(base: Statement, orders: seq<Order>) {
    DistinctPaths(base.joins) && forall i :: 0 <= i < |orders| ==> orders[i].joinPath !in base.joins
  }

  lemma {:induction false} StableOrderReads(modelTable: string, joins: seq<string>, orders: seq<Order>)
    requires forall i :: 0 <= i < |orders| ==> Joined(modelTable, joins, OrderColumn(modelTable, orders[i]))
    ensures forall k :: 0 <= k < |StableOrder(modelTable, orders)| ==>
      Joined(modelTable, joins, StableOrder(modelTable, orders)[k].column)
  {
    hide Joined, OrderColumn;
    if orders != [] {
      StableOrderReads(modelTable, joins, orders[1..]);
    }
  }

  /** A compiled list statement joins what it reads. */
  lemma CompiledIsExecutable(modelTable: string, base: Statement, plan: Plan)
    requires StatementOf(modelTable, base, plan).Ok? && plan.sort != [] && ReadsJoined(modelTable, plan.sort)
    requires JoinsApart(base, plan.sort)
    ensures Executable(modelTable, StatementOf(modelTable, base, plan).value)
  {
    hide JoinPaths, StableOrder;
    JoinPathsExactly(plan.sort);
    var st := StatementOf(modelTable, base, plan).value;
    forall i | 0 <= i < |plan.sort| ensures Joined(modelTable, st.joins, OrderColumn(modelTable, plan.sort[i])) {
      if plan.sort[i].table != modelTable {
        assert plan.sort[i].joinPath in JoinPaths(plan.sort);
        assert plan.sort[i].joinPath in st.joins;
      }
    }
    StableOrderReads(modelTable, st.joins, plan.sort);
    forall i, j | 0 <= i < j < |st.joins| ensures st.joins[i] != st.joins[j] {
      if i < |base.joins| <= j {
        assert st.joins[j] in JoinPaths(plan.sort);
      }
    }
  }

  method AddJoins(joins: seq<string>, sort: seq<Order>) returns (scoped: seq<string>)
    ensures scoped == joins + JoinPaths(sort)
  {
    scoped := joins;
    var joined := {};
    for index := 0 to |sort|
      invariant scoped == joins + JoinPaths(sort[..index])
      invariant forall path :: path in joined <==> path in JoinPaths(sort[..index])
    {
      var path := sort[index].joinPath;
      assert sort[..index + 1][..index] == sort[..index];
      if path == "" || path in joined {
        continue;
      }
      joined := joined + {path};
      scoped := scoped + [path];
    }
    assert sort[..|sort|] == sort;
  }

  method CompileGorm(modelTable: string, base: Statement, plan: Plan) returns (result: Result<Statement>)
    ensures result == StatementOf(modelTable, base, plan)
  {
    var joins := AddJoins(base.joins, plan.sort);
    var wheres := base.wheres;
    if plan.filter.Some? {
      wheres := wheres + [plan.filter.value];
    }
    if plan.cursor.Some? {
      if |plan.cursor.value| != |plan.sort| {
        return Err(InvalidSchema);
      }
      var after := BuildCursorPredicate(modelTable, plan.sort, plan.cursor.value);
      wheres := wheres + [after];
    }
    var orderBy := base.orderBy;
    if |plan.sort| > 0 {
      orderBy := BuildStableOrder(modelTable, plan.sort);
    }
    var limit, offset := base.limit, base.offset;
    if plan.limit.Some? {
      limit := plan.limit;
    }
    if plan.offset.Some? {
      offset := plan.offset;
    }
    assert wheres == base.wheres + (if plan.filter.Some? then [plan.filter.value] else [])
      + (if plan.cursor.Some? then [CursorPredicate(modelTable, plan.sort, plan.cursor.value)] else []);
    return Ok(Statement(joins, wheres, orderBy, limit, offset));
  }

  // ---- the reference reading of a page ----

  /** An effective sort read by a client: keys of a row, and the order on rows. */
  datatype View = View(d: Dialect, table: string, orders: seq<Order>) {
    function Key(row: Env): Keys { KeysOf(table, orders, row) }

    predicate Follows(keys: Keys, row: Env)
      requires |keys| == |orders|
    {
      Before(d, Directions(orders), keys, Key(row))
    }

    predicate Precedes(a: Env, b: Env) { Follows(Key(a), b) }

    ghost function Lt(): (Env, Env) -> bool { (a, b) => Precedes(a, b) }
  }

  // The matching rows a cursor has not passed yet.
  ghost function Remaining(v: View, snap: Snapshot, wheres: seq<Clause>, cursor: Option<Keys>): set<Env>
    requires cursor.Some? ==> |cursor.value| == |v.orders|
  {
    if cursor.None? then Matching(v.d, snap, wheres)
    else set r | r in Matching(v.d, snap, wheres) && v.Follows(cursor.value, r)
  }

  /** The storage keeps primary keys unique; to-one joins never multiply a root row. */
  ghost predicate DistinctRows(d: Dialect, model: Model, snap: Snapshot) {
    forall a, b :: a in snap.rows && b in snap.rows && a != b ==> !SamePrimaryKey(d, model, a, b)
  }

  /** NULLS LAST lexicographic key order is a strict order on rows. */
  lemma EffectiveOrderIsStrict(v: View)
    requires TotalPreorder(v.d.le)
    ensures T.StrictOrder(v.Lt())
  {
    forall a ensures !v.Lt()(a, a) {
      CompareKeysFlips(v.d, Directions(v.orders), v.Key(a), v.Key(a));
    }
    forall a, b, c | v.Lt()(a, b) && v.Lt()(b, c) ensures v.Lt()(a, c) {
      BeforeTransitive(v.d, Directions(v.orders), v.Key(a), v.Key(b), v.Key(c));
    }
  }

  /** On rows with distinct primary keys it is total. */
  lemma EffectiveOrderIsTotal(v: View, model: Model, snap: Snapshot)
    requires TotalPreorder(v.d.le) && v.table == model.table && CoversPrimaryKey(model, v.orders)
    requires DistinctRows(v.d, model, snap)
    ensures T.TotalOn(v.Lt(), snap.rows)
  {
    forall a, b | a in snap.rows && b in snap.rows && a != b ensures v.Lt()(a, b) || v.Lt()(b, a) {
      CompareKeysFlips(v.d, Directions(v.orders), v.Key(a), v.Key(b));
      if CompareKeys(v.d, Directions(v.orders), v.Key(a), v.Key(b)) == Same {
        TiesShareThePrimaryKey(v.d, model, v.orders, a, b);
      }
    }
  }

  lemma NotGreater(v: View, a: Env, b: Env)
    requires TotalPreorder(v.d.le)
    requires OrderCompare(v.d, StableOrder(v.table, v.orders), a, b) != Greater
    ensures !v.Lt()(b, a)
  {
    StableOrderMeaning(v.d, v.table, v.orders, a, b);
    CompareKeysFlips(v.d, Directions(v.orders), v.Key(a), v.Key(b));
  }

  /** What SQL may answer, before windowing, is the reference listing and nothing else. */
  lemma SqlOrderLists(v: View, model: Model, snap: Snapshot, chosen: set<Env>, rows: seq<Env>)
    requires TotalPreorder(v.d.le) && v.table == model.table && CoversPrimaryKey(model, v.orders)
    requires DistinctRows(v.d, model, snap) && chosen <= snap.rows
    requires Enumerates(rows, chosen) && InSqlOrder(v.d, StableOrder(v.table, v.orders), rows)
    ensures T.Lists(v.Lt(), chosen, rows)
  {
    EffectiveOrderIsTotal(v, model, snap);
    forall i, j | 0 <= i < j < |rows| ensures v.Lt()(rows[i], rows[j]) {
      assert rows[i] in rows && rows[j] in rows;
      assert rows[i] in snap.rows && rows[j] in snap.rows;
      NotGreater(v, rows[i], rows[j]);
    }
  }

  // ---- list ----

  datatype Endpoint = Endpoint(model: Model, defaultLimit: nat, defaultSort: seq<Order>,
                               allowCount: bool, maxCursorBytes: int)

  datatype Request = Request(filter: Option<Clause>, sort: seq<Order>, limit: Option<nat>, offset: Option<nat>,
                             count: bool, token: Option<string>)

  datatype Page = Page(items: seq<Env>, limit: nat, offset: nat, hasMore: bool, nextCursor: string, total: Option<nat>)

  function SortOf(e: Endpoint, q: Request): seq<Order> {
    if q.sort == [] then e.defaultSort else q.sort
  }

  // validate's last step: the raw token is decoded against the effective sort.
  function CursorOf(lib: Library, e: Endpoint, orders: seq<Order>, q: Request): Result<Option<Keys>> {
    if q.token.None? then Ok(None)
    else
      match DecodeCursorOf(lib, e.model.table, orders, q.token.value, e.maxCursorBytes)
      case Err(code) => Err(code)
      case Ok(keys) => Ok(Some(keys))
  }

  /** The rows of the data query: how many were fetched decides HasMore, and the
      keys of the last returned row are kept only when a lookahead row follows. */
  method FindCursorRows(modelTable: string, rows: seq<Env>, orders: seq<Order>, limit: nat)
    returns (items: seq<Env>, keys: Option<Keys>)
    ensures items == rows
    ensures keys == if |rows| > limit > 0 then Some(KeysOf(modelTable, orders, rows[limit - 1])) else None
  {
    items := [];
    keys := None;
    for rowIndex := 0 to |rows|
      invariant items == rows[..rowIndex]
      invariant keys == if |rows| > limit > 0 && rowIndex >= limit
                        then Some(KeysOf(modelTable, orders, rows[limit - 1])) else None
    {
      items := items + [rows[rowIndex]];
      if |rows| > limit && rowIndex == limit - 1 {
        var captured: Keys := [];
        for orderIndex := 0 to |orders|
          invariant captured == KeysOf(modelTable, orders, rows[rowIndex])[..orderIndex]
        {
          captured := captured + [Read(rows[rowIndex], OrderColumn(modelTable, orders[orderIndex]))];
        }
        assert captured == KeysOf(modelTable, orders, rows[limit - 1]);
        keys := Some(captured);
      }
    }
  }

  function TokenFor(lib: Library, e: Endpoint, v: View, row: Env): Result<string> {
    EncodeCursorOf(lib, e.model.table, v.orders, v.Key(row), e.maxCursorBytes)
  }

  /** A page of the listing that starts after the cursor: the rows of its window,
      HasMore exactly when rows remain behind it, and then the last row's token. */
  ghost predicate IsPage(lib: Library, e: Endpoint, v: View, snap: Snapshot, wheres: seq<Clause>,
                         cursor: Option<Keys>, limit: nat, offset: nat, page: Page)
    requires cursor.Some? ==> |cursor.value| == |v.orders|
  {
    exists rows ::
      && T.Lists(v.Lt(), Remaining(v, snap, wheres, cursor), rows)
      && page.items == Window(rows, Some(offset), Some(limit))
      && page.hasMore == (|rows| > offset + limit)
      && (if page.hasMore then page.items != []
          && TokenFor(lib, e, v, page.items[|page.items| - 1]) == Ok(page.nextCursor)
          else page.nextCursor == "")
  }

  /** When rows remain behind the page, its last row's token must encode: it is refused if
      it is too long or a key cannot be marshalled. */
  ghost predicate PageEncodes(lib: Library, e: Endpoint, v: View, snap: Snapshot, wheres: seq<Clause>,
                              cursor: Option<Keys>, limit: nat, offset: nat)
    requires limit > 0 && (cursor.Some? ==> |cursor.value| == |v.orders|)
  {
    forall rows :: T.Lists(v.Lt(), Remaining(v, snap, wheres, cursor), rows) && |rows| > offset + limit ==>
      TokenFor(lib, e, v, rows[offset + limit - 1]).Ok?
  }

  lemma PageEncodesFor(lib: Library, e: Endpoint, v: View, snap: Snapshot, wheres: seq<Clause>,
                       cursor: Option<Keys>, limit: nat, offset: nat, rows: seq<Env>)
    requires TotalPreorder(v.d.le) && limit > 0 && (cursor.Some? ==> |cursor.value| == |v.orders|)
    requires T.Lists(v.Lt(), Remaining(v, snap, wheres, cursor), rows)
    ensures PageEncodes(lib, e, v, snap, wheres, cursor, limit, offset) <==>
            (|rows| > offset + limit ==> TokenFor(lib, e, v, rows[offset + limit - 1]).Ok?)
  {
    hide TotalPreorder, T.Lists, T.StrictOrder, Remaining, TokenFor;
    EffectiveOrderIsStrict(v);
    forall others | T.Lists(v.Lt(), Remaining(v, snap, wheres, cursor), others) ensures others == rows {
      T.ListingUnique(v.Lt(), Remaining(v, snap, wheres, cursor), others, rows);
    }
  }

  ghost function Scope(base: Statement, q: Request): seq<Clause> {
    base.wheres + if q.filter.Some? then [q.filter.value] else []
  }

  lemma StatementSelectsRemaining(v: View, snap: Snapshot, base: Statement, q: Request, cursor: Option<Keys>,
                                  st: Statement, row: Env)
    requires TotalPreorder(v.d.le)
    requires StatementOf(v.table, base, Plan(q.filter, v.orders, st.limit, st.offset, cursor)) == Ok(st)
    ensures cursor.Some? ==> |cursor.value| == |v.orders|
    ensures Selects(v.d, snap, st.wheres, row) <==> row in Remaining(v, snap, Scope(base, q), cursor)
  {
    if cursor.Some? {
      var clause := CursorPredicate(v.table, v.orders, cursor.value);
      EvalAllAppend(v.d, snap.db, row, Scope(base, q), [clause]);
      CursorPredicateMeaning(v.d, snap.db, row, v.table, v.orders, cursor.value);
      assert EvalAll(v.d, snap.db, row, [clause]) == And3(Eval(v.d, snap.db, row, clause), True);
      assert st.wheres == Scope(base, q) + [clause];
    } else {
      assert st.wheres == Scope(base, q) + [];
      assert Scope(base, q) + [] == Scope(base, q);
    }
  }

  predicate WithoutLimits(base: Statement) { base.limit.None? && base.offset.None? }

  function LimitOf(e: Endpoint, q: Request): nat { if q.limit.Some? then q.limit.value else e.defaultLimit }

  function OffsetOf(q: Request): nat { if q.offset.Some? then q.offset.value else 0 }

  /** Why list refuses a request, if it does: the first of its checks that fails. */
  ghost function ListIssue(lib: Library, d: Dialect, e: Endpoint, snap: Snapshot, base: Statement,
                           q: Request): Option<ErrorCode> {
    var sort := EffectiveSortOf(e.model, SortOf(e, q));
    if q.count && !e.allowCount then Some(InvalidParameter)
    else if q.token.Some? && sort.Err? then Some(sort.code)
    else if q.token.Some? && CursorOf(lib, e, sort.value, q).Err? then Some(CursorOf(lib, e, sort.value, q).code)
    else if LimitOf(e, q) == 0 then None
    else if sort.Err? then Some(sort.code)
    else
      var cursor := CursorOf(lib, e, sort.value, q).value;
      if cursor.Some? && |cursor.value| != |sort.value| then Some(InvalidSchema)
      else if PageEncodes(lib, e, View(d, e.model.table, sort.value), snap, Scope(base, q), cursor, LimitOf(e, q),
                          OffsetOf(q))
      then None
      else Some(ExecutionFailed)
  }

  /** What list answers: the page its limits and cursor ask for, and the Total if asked to count. */
  ghost predicate Answered(lib: Library, d: Dialect, e: Endpoint, snap: Snapshot, base: Statement, q: Request,
                           page: Page) {
    && (q.limit.None? ==> page.limit == e.defaultLimit) && (q.limit.Some? ==> page.limit == q.limit.value)
    && (q.offset.None? ==> page.offset == 0) && (q.offset.Some? ==> page.offset == q.offset.value)
    && page.total == (if q.count then Some(|Matching(d, snap, Scope(base, q))|) else None)
    && (page.limit == 0 ==> page.items == [] && !page.hasMore && page.nextCursor == "")
    && (page.limit > 0 ==> Serves(lib, d, e, snap, base, q, page))
  }

  /** Engine.list. `fetch` and `counted` are the database: any answer SQL allows. */
  method List(lib: Library, d: Dialect, e: Endpoint, snap: Snapshot, base: Statement, q: Request,
              fetch: Statement -> seq<Env>, counted: Statement -> nat)
    returns (result: Result<Page>)
    requires TotalPreorder(d.le) && DistinctRows(d, e.model, snap)
    requires WellFormedRequest(SortOf(e, q)) && WithoutLimits(base)
    requires e.model.primaryColumns != []
    requires EffectiveSortOf(e.model, SortOf(e, q)).Ok? ==>
      JoinsApart(base, EffectiveSortOf(e.model, SortOf(e, q)).value)
    requires forall st: Statement :: Executable(e.model.table, st) ==> Answers(d, snap, st, fetch(st))
    requires forall st: Statement :: counted(st) == |Matching(d, snap, st.wheres)|
    ensures match ListIssue(lib, d, e, snap, base, q)
            case None => result.Ok? && Answered(lib, d, e, snap, base, q, result.value)
            case Some(code) => result == Err(code)
  {
    hide PageEncodes, Remaining, IsPage;
    if q.count && !e.allowCount {
      return Err(InvalidParameter);
    }
    EffectiveSortHasKeys(e.model, SortOf(e, q));
    var cursor: Option<Keys> := None;
    if q.token.Some? {
      var orders := EffectiveSort(e.model, SortOf(e, q));
      if orders.Err? {
        return Err(orders.code);
      }
      var decoded := DecodeCursor(lib, e.model.table, orders.value, q.token.value, e.maxCursorBytes);
      if decoded.Err? {
        return Err(decoded.code);
      }
      cursor := Some(decoded.value);
      EncodeOfDecode(lib, e.model.table, orders.value, q.token.value, e.maxCursorBytes);
    }
    var limit, offset := LimitOf(e, q), OffsetOf(q);
    var page := Page([], limit, offset, false, "", None);
    if q.count {
      var counting := CompileGorm(e.model.table, base, Plan(q.filter, [], None, None, None));
      assert counting.value.wheres == Scope(base, q);
      page := page.(total := Some(counted(counting.value)));
    }
    if limit == 0 {
      return Ok(page);
    }
    var orders := EffectiveSort(e.model, SortOf(e, q));
    if orders.Err? {
      return Err(orders.code);
    }
    result := FetchPage(lib, d, e, snap, base, q, orders.value, cursor, page, fetch);
  }

  /** The data half of list: plan with one lookahead row, fetch, cut, encode. */
  method FetchPage(lib: Library, d: Dialect, e: Endpoint, snap: Snapshot, base: Statement, q: Request,
                   orders: seq<Order>, cursor: Option<Keys>, start: Page, fetch: Statement -> seq<Env>)
    returns (result: Result<Page>)
    requires TotalPreorder(d.le) && DistinctRows(d, e.model, snap)
    requires orders != [] && CoversPrimaryKey(e.model, orders)
    requires cursor.Some? ==> |cursor.value| == |orders|
    requires start.limit > 0 && !start.hasMore && start.nextCursor == ""
    requires ReadsJoined(e.model.table, orders) && JoinsApart(base, orders)
    requires forall st: Statement :: Executable(e.model.table, st) ==> Answers(d, snap, st, fetch(st))
    ensures result.Ok? ==>
      && result.value.limit == start.limit && result.value.offset == start.offset && result.value.total == start.total
      && IsPage(lib, e, View(d, e.model.table, orders), snap, Scope(base, q), cursor, start.limit, start.offset,
                result.value)
    ensures if PageEncodes(lib, e, View(d, e.model.table, orders), snap, Scope(base, q), cursor, start.limit,
                           start.offset)
      then result.Ok? else result == Err(ExecutionFailed)
  {
    hide TotalPreorder, DistinctRows, CoversPrimaryKey, Answers, T.Lists, Remaining, Window, IsPage, Executable,
      ReadsJoined, JoinsApart, PageEncodes, Scope, KeysOf, CursorPredicate, StableOrder, JoinPaths;
    var limit, offset := start.limit, start.offset;
    var fetchLimit := limit + 1;
    var statement := CompileGorm(e.model.table, base, Plan(q.filter, orders, Some(fetchLimit), Some(offset), cursor));
    CompiledIsExecutable(e.model.table, base, Plan(q.filter, orders, Some(fetchLimit), Some(offset), cursor));
    var items, keys := FindCursorRows(e.model.table, fetch(statement.value), orders, limit);
    ghost var v := View(d, e.model.table, orders);
    ghost var rows := AnsweredRows(v, e.model, snap, base, q, cursor, statement.value, items);
    LookaheadWindow(rows, offset, limit);
    PageEncodesFor(lib, e, v, snap, Scope(base, q), cursor, limit, offset, rows);
    if |items| <= limit {
      FinalPage(lib, e, v, snap, Scope(base, q), cursor, limit, offset, rows, start.(items := items));
      return Ok(start.(items := items));
    }
    assert items[limit - 1] == rows[offset + limit - 1] by { WindowAt(rows, offset, limit + 1, limit - 1); }
    assert keys.value == v.Key(items[limit - 1]) == v.Key(items[..limit][limit - 1]);
    var next := EncodeCursor(lib, e.model.table, orders, keys.value, e.maxCursorBytes);
    if next.Err? {
      return Err(ExecutionFailed);
    }
    var page := start.(items := items[..limit], hasMore := true, nextCursor := next.value);
    FinalPage(lib, e, v, snap, Scope(base, q), cursor, limit, offset, rows, page);
    return Ok(page);
  }

  /** The items are the listing from the offset on, up to the limit: the endpoint's default
      number of rows if the request names none. */
  lemma PageIsSlice(lib: Library, d: Dialect, e: Endpoint, snap: Snapshot, base: Statement, q: Request, page: Page,
                    rows: seq<Env>)
    requires TotalPreorder(d.le) && Answered(lib, d, e, snap, base, q, page)
    requires EffectiveSortOf(e.model, SortOf(e, q)).Ok?
    requires var orders := EffectiveSortOf(e.model, SortOf(e, q)).value; var cursor := CursorOf(lib, e, orders, q);
      && cursor.Ok? && (cursor.value.Some? ==> |cursor.value.value| == |orders|)
      && var v := View(d, e.model.table, orders);
         T.Lists(v.Lt(), Remaining(v, snap, Scope(base, q), cursor.value), rows)
    ensures var limit := if q.limit.Some? then q.limit.value else e.defaultLimit;
      var offset := if q.offset.Some? then q.offset.value else 0;
      page.items == rows[Min(offset, |rows|)..Min(offset + limit, |rows|)]
  {
    hide T.Lists, T.StrictOrder, Remaining, TotalPreorder, TokenFor, EffectiveSortOf, CursorOf;
    if page.limit > 0 {
      var orders := EffectiveSortOf(e.model, SortOf(e, q)).value;
      var v, cursor := View(d, e.model.table, orders), CursorOf(lib, e, orders, q).value;
      var listed :| T.Lists(v.Lt(), Remaining(v, snap, Scope(base, q), cursor), listed)
        && page.items == Window(listed, Some(page.offset), Some(page.limit));
      EffectiveOrderIsStrict(v);
      T.ListingUnique(v.Lt(), Remaining(v, snap, Scope(base, q), cursor), listed, rows);
      WindowIsSlice(rows, page.offset, page.limit);
    }
  }

  lemma WindowAscends(v: View, chosen: set<Env>, rows: seq<Env>, offset: nat, limit: nat, i: nat, j: nat)
    requires T.Lists(v.Lt(), chosen, rows) && i < j < |Window(rows, Some(offset), Some(limit))|
    ensures var items := Window(rows, Some(offset), Some(limit)); v.Lt()(items[i], items[j])
  {
    WindowIsSlice(rows, offset, limit);
    var from := Min(offset, |rows|);
    assert v.Lt()(rows[from + i], rows[from + j]);
  }

  // The rows of a page stand in the effective order.
  lemma ItemsAscend(lib: Library, d: Dialect, e: Endpoint, snap: Snapshot, base: Statement, q: Request, page: Page,
                    i: nat, j: nat)
    requires Answered(lib, d, e, snap, base, q, page) && i < j < |page.items|
    ensures EffectiveSortOf(e.model, SortOf(e, q)).Ok?
    ensures View(d, e.model.table, EffectiveSortOf(e.model, SortOf(e, q)).value).Precedes(page.items[i], page.items[j])
  {
    hide Remaining, TokenFor, EffectiveSortOf, CursorOf, T.Lists, Window, SortOf, Scope, Matching, KeysOf, Before;
    var orders := EffectiveSortOf(e.model, SortOf(e, q)).value;
    var v, cursor := View(d, e.model.table, orders), CursorOf(lib, e, orders, q).value;
    var rows :| T.Lists(v.Lt(), Remaining(v, snap, Scope(base, q), cursor), rows)
      && page.items == Window(rows, Some(page.offset), Some(page.limit));
    WindowAscends(v, Remaining(v, snap, Scope(base, q), cursor), rows, page.offset, page.limit, i, j);
  }

  lemma WindowIsSlice(rows: seq<Env>, offset: nat, limit: nat)
    ensures Window(rows, Some(offset), Some(limit)) == rows[Min(offset, |rows|)..Min(offset + limit, |rows|)]
  {}

  lemma FinalPage(lib: Library, e: Endpoint, v: View, snap: Snapshot, wheres: seq<Clause>, cursor: Option<Keys>,
                  limit: nat, offset: nat, rows: seq<Env>, page: Page)
    requires cursor.Some? ==> |cursor.value| == |v.orders|
    requires T.Lists(v.Lt(), Remaining(v, snap, wheres, cursor), rows)
    requires page.items == Window(rows, Some(offset), Some(limit))
    requires page.hasMore == (|rows| > offset + limit)
    requires if page.hasMore
             then page.items != [] && TokenFor(lib, e, v, page.items[|page.items| - 1]) == Ok(page.nextCursor)
             else page.nextCursor == ""
    ensures IsPage(lib, e, v, snap, wheres, cursor, limit, offset, page)
  {}

  ghost predicate Serves(lib: Library, d: Dialect, e: Endpoint, snap: Snapshot, base: Statement, q: Request,
                         page: Page) {
    var sort := EffectiveSortOf(e.model, SortOf(e, q));
    && sort.Ok?
    && var v := View(d, e.model.table, sort.value);
       var cursor := CursorOf(lib, e, v.orders, q);
    && cursor.Ok?
    && (cursor.value.Some? ==> |cursor.value.value| == |v.orders|)
    && IsPage(lib, e, v, snap, Scope(base, q), cursor.value, page.limit, page.offset, page)
  }

  lemma EffectiveSortHasKeys(model: Model, sort: seq<Order>)
    requires WellFormedRequest(sort) && model.primaryColumns != []
    ensures EffectiveSortOf(model, sort).Ok? ==>
      && EffectiveSortOf(model, sort).value != [] && CoversPrimaryKey(model, EffectiveSortOf(model, sort).value)
      && ReadsJoined(model.table, EffectiveSortOf(model, sort).value)
  {
    if EffectiveSortOf(model, sort).Ok? {
      EffectiveSortCompletes(model, sort);
      EffectiveSortReadsJoined(model, sort);
      assert model.primaryColumns[0] in model.primaryColumns;
    }
  }

  /** Fetching one row more than the limit tells whether rows remain behind the page. */
  lemma LookaheadWindow(rows: seq<Env>, offset: nat, limit: nat)
    ensures var fetched := Window(rows, Some(offset), Some(limit + 1));
      && (|fetched| > limit <==> |rows| > offset + limit)
      && Window(rows, Some(offset), Some(limit)) == if |fetched| > limit then fetched[..limit] else fetched
  {}

  lemma WindowAt(rows: seq<Env>, offset: nat, limit: nat, k: nat)
    requires k < |Window(rows, Some(offset), Some(limit))|
    ensures offset + k < |rows| && Window(rows, Some(offset), Some(limit))[k] == rows[offset + k]
  {}

  lemma AnsweredRows(v: View, model: Model, snap: Snapshot, base: Statement, q: Request, cursor: Option<Keys>,
                     st: Statement, result: seq<Env>) returns (rows: seq<Env>)
    requires TotalPreorder(v.d.le) && v.table == model.table && CoversPrimaryKey(model, v.orders)
    requires DistinctRows(v.d, model, snap) && v.orders != []
    requires StatementOf(v.table, base, Plan(q.filter, v.orders, st.limit, st.offset, cursor)) == Ok(st)
    requires Answers(v.d, snap, st, result)
    ensures cursor.Some? ==> |cursor.value| == |v.orders|
    ensures T.Lists(v.Lt(), Remaining(v, snap, Scope(base, q), cursor), rows)
    ensures result == Window(rows, st.offset, st.limit)
  {
    var all :| Enumerates(all, Matching(v.d, snap, st.wheres))
      && InSqlOrder(v.d, st.orderBy, all) && result == Window(all, st.offset, st.limit);
    forall row ensures Selects(v.d, snap, st.wheres, row) <==> row in Remaining(v, snap, Scope(base, q), cursor) {
      StatementSelectsRemaining(v, snap, base, q, cursor, st, row);
    }
    var chosen := Matching(v.d, snap, st.wheres);
    assert chosen == Remaining(v, snap, Scope(base, q), cursor);
    SqlOrderLists(v, model, snap, chosen, all);
    rows := all;
  }
}
