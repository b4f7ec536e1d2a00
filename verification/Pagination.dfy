/** A client following NextCursor while the table changes underneath it: every run
    of gotq's pages is a run of the abstract traversal. */
module Pagination {
  import opened Common
  import opened Sql
  import opened KeyOrder
  import opened Cursor
  import opened CursorCodec
  import opened Listing
  import T = Traversal

  // What stays fixed during a traversal: endpoint, sort, and the scope and filter conditions.
  datatype Setup = Setup(lib: Library, e: Endpoint, v: View, wheres: seq<Clause>)

  ghost predicate ValidSetup(s: Setup) {
    && TotalPreorder(s.v.d.le) && JsonRoundTrips(s.lib)
    && s.v.table == s.e.model.table && CoversPrimaryKey(s.e.model, s.v.orders)
  }

  // Storage constraints: unique primary keys, and sort columns of their declared Go type.
  ghost predicate GoodSnapshot(s: Setup, snap: Snapshot) {
    && DistinctRows(s.v.d, s.e.model, snap)
    && forall r :: r in snap.rows ==> TypedKeys(s.lib, s.v.orders, s.v.Key(r))
  }

  datatype Position = Start | At(token: string) | Done

  // The rows and pages a client has been given, and where it stands.
  datatype Client = Client(seen: seq<Env>, position: Position, pages: seq<Page>)

  datatype World = World(snap: Snapshot, client: Client)

  // The Total of a page whose request asks to count.
  ghost function TotalOf(s: Setup, snap: Snapshot, count: bool): Option<nat> {
    if count then Some(|Matching(s.v.d, snap, s.wheres)|) else None
  }

  /** The endpoint answers the client's next request with this page. */
  ghost predicate Served(s: Setup, snap: Snapshot, position: Position, limit: nat, count: bool, page: Page) {
    && limit > 0 && page.limit == limit && page.offset == 0
    && (count ==> s.e.allowCount) && page.total == TotalOf(s, snap, count)
    && match position
       case Start => IsPage(s.lib, s.e, s.v, snap, s.wheres, None, limit, 0, page)
       case At(token) =>
         var keys := DecodeCursorOf(s.lib, s.v.table, s.v.orders, token, s.e.maxCursorBytes);
         && keys.Ok? && |keys.value| == |s.v.orders|
         && IsPage(s.lib, s.e, s.v, snap, s.wheres, Some(keys.value), limit, 0, page)
       case Done => false
  }

  function Advance(c: Client, page: Page): Client {
    Client(c.seen + page.items, if page.hasMore then At(page.nextCursor) else Done, c.pages + [page])
  }

  ghost predicate PageStep(s: Setup, w: World, w': World) {
    w'.snap == w.snap &&
    exists limit: nat, count, page ::
      Served(s, w.snap, w.client.position, limit, count, page) && w'.client == Advance(w.client, page)
  }

  // Any inserts, deletes and updates, of the listed rows or of related tables.
  predicate ChangeStep(w: World, w': World) { w'.client == w.client }

  ghost predicate Run(s: Setup, run: seq<World>) {
    && run != [] && run[0].client == Client([], Start, [])
    && (forall i :: 0 <= i < |run| ==> GoodSnapshot(s, run[i].snap))
    && (forall i :: 0 <= i < |run| - 1 ==> PageStep(s, run[i], run[i + 1]) || ChangeStep(run[i], run[i + 1]))
  }

  // ---- the pages that list answers are these ----

  // The request of a client that stands at a position.
  function RequestAt(q: Request, c: Client, limit: nat, count: bool): Request {
    q.(limit := Some(limit), offset := None, count := count,
       token := if c.position.At? then Some(c.position.token) else None)
  }

  // The setup is the one a request's filter and sort make of an endpoint and a base scope.
  ghost predicate SetupOf(s: Setup, d: Dialect, base: Statement, q: Request) {
    && s.v.d == d && s.v.table == s.e.model.table && s.wheres == Scope(base, q)
    && EffectiveSortOf(s.e.model, SortOf(s.e, q)) == Ok(s.v.orders)
  }

  /** What list promises of the page it answers makes it the page of a run. */
  lemma ListedPageIsServed(s: Setup, d: Dialect, snap: Snapshot, base: Statement, q: Request, c: Client, limit: nat,
                           count: bool, page: Page)
    requires SetupOf(s, d, base, q) && !c.position.Done? && limit > 0 && (count ==> s.e.allowCount)
    requires Serves(s.lib, d, s.e, snap, base, RequestAt(q, c, limit, count), page)
    requires page.limit == limit && page.offset == 0 && page.total == TotalOf(s, snap, count)
    ensures Served(s, snap, c.position, limit, count, page)
  {}

  // ---- refinement ----

  ghost function Abstract(s: Setup, w: World): T.State<Env> {
    T.State(Matching(s.v.d, w.snap, s.wheres), w.client.seen,
            match w.client.position
            case Start => T.Start
            case At(_) => if w.client.seen == [] then T.Start else T.Behind(T.Last(w.client.seen))
            case Done => T.Finished)
  }

  // The token the client holds is the encoding of the last row's keys.
  ghost predicate TokenStandsForLast(s: Setup, c: Client) {
    c.position.At? ==>
      && c.seen != [] && TypedKeys(s.lib, s.v.orders, s.v.Key(T.Last(c.seen)))
      && TokenFor(s.lib, s.e, s.v, T.Last(c.seen)) == Ok(c.position.token)
  }

  lemma RemainingIsAhead(s: Setup, w: World, cursor: Option<Keys>)
    requires w.client.position.Start? ==> cursor == None
    requires w.client.position.At? ==> w.client.seen != [] && cursor == Some(s.v.Key(T.Last(w.client.seen)))
    requires !w.client.position.Done?
    ensures Remaining(s.v, w.snap, s.wheres, cursor) ==
            T.Ahead(s.v.Lt(), Abstract(s, w).matching, Abstract(s, w).mark)
  {}

  lemma ServedRows(s: Setup, w: World, limit: nat, count: bool, page: Page) returns (rows: seq<Env>)
    requires ValidSetup(s) && TokenStandsForLast(s, w.client)
      && Served(s, w.snap, w.client.position, limit, count, page)
    ensures T.Lists(s.v.Lt(), T.Ahead(s.v.Lt(), Abstract(s, w).matching, Abstract(s, w).mark), rows)
    ensures page.items == rows[..Min(limit, |rows|)] && page.hasMore == (|rows| > limit)
    ensures page.hasMore ==> page.items != [] && TokenFor(s.lib, s.e, s.v, T.Last(page.items)) == Ok(page.nextCursor)
  {
    var cursor: Option<Keys> := None;
    if w.client.position.At? {
      cursor := Some(s.v.Key(T.Last(w.client.seen)));
      DecodeOfEncode(s.lib, s.v.table, s.v.orders, cursor.value, s.e.maxCursorBytes);
    }
    RemainingIsAhead(s, w, cursor);
    assert IsPage(s.lib, s.e, s.v, w.snap, s.wheres, cursor, limit, 0, page);
    rows := RowsOfPage(s, w.snap, cursor, limit, page);
  }

  lemma RowsOfPage(s: Setup, snap: Snapshot, cursor: Option<Keys>, limit: nat, page: Page) returns (rows: seq<Env>)
    requires cursor.Some? ==> |cursor.value| == |s.v.orders|
    requires IsPage(s.lib, s.e, s.v, snap, s.wheres, cursor, limit, 0, page)
    ensures T.Lists(s.v.Lt(), Remaining(s.v, snap, s.wheres, cursor), rows)
    ensures page.items == rows[..Min(limit, |rows|)] && page.hasMore == (|rows| > limit)
    ensures page.hasMore ==> page.items != [] && TokenFor(s.lib, s.e, s.v, T.Last(page.items)) == Ok(page.nextCursor)
  {
    hide T.Lists, Remaining, TokenFor;
    rows :| T.Lists(s.v.Lt(), Remaining(s.v, snap, s.wheres, cursor), rows)
      && page.items == Window(rows, Some(0), Some(limit))
      && page.hasMore == (|rows| > 0 + limit)
      && (if page.hasMore then page.items != []
          && TokenFor(s.lib, s.e, s.v, page.items[|page.items| - 1]) == Ok(page.nextCursor)
          else page.nextCursor == "");
    assert rows[0..] == rows;
  }

  lemma AdvanceRefines(s: Setup, w: World, w': World, rows: seq<Env>, count: nat, page: Page)
    requires w'.snap == w.snap && w'.client == Advance(w.client, page) && !w.client.position.Done?
    requires TokenStandsForLast(s, w.client)
    requires T.Lists(s.v.Lt(), T.Ahead(s.v.Lt(), Abstract(s, w).matching, Abstract(s, w).mark), rows)
    requires count <= |rows| && (rows != [] ==> count > 0)
    requires page.items == rows[..count] && page.hasMore == (count < |rows|)
    ensures T.Page(s.v.Lt(), Abstract(s, w), Abstract(s, w'))
    ensures page.hasMore ==> w'.client.seen != [] && T.Last(w'.client.seen) == rows[count - 1]
  {
    assert T.PageOf(s.v.Lt(), Abstract(s, w), Abstract(s, w'), rows, count);
  }

  /** Every page gotq serves is a step of the abstract traversal, and leaves the
      client holding a token for the last row it was given. */
  lemma PageStepRefines(s: Setup, w: World, w': World)
    requires ValidSetup(s) && GoodSnapshot(s, w.snap) && PageStep(s, w, w') && TokenStandsForLast(s, w.client)
    ensures T.Page(s.v.Lt(), Abstract(s, w), Abstract(s, w'))
    ensures TokenStandsForLast(s, w'.client)
  {
    hide ValidSetup, GoodSnapshot, Served, T.Lists, T.Ahead, T.Page, Abstract, TokenFor;
    var limit: nat, count, page :| Served(s, w.snap, w.client.position, limit, count, page)
      && w'.client == Advance(w.client, page);
    assert w.client.position != Done by {
      NotServedWhenDone(s, w, limit, count, page);
    }
    var rows := ServedRows(s, w, limit, count, page);
    var returned: nat := if limit < |rows| then limit else |rows|;
    AdvanceRefines(s, w, w', rows, returned, page);
    if page.hasMore {
      AheadStored(s, w, rows, rows[returned - 1]);
    }
  }

  lemma NotServedWhenDone(s: Setup, w: World, limit: nat, count: bool, page: Page)
    requires Served(s, w.snap, w.client.position, limit, count, page)
    ensures w.client.position != Done
  {}

  lemma AheadStored(s: Setup, w: World, rows: seq<Env>, row: Env)
    requires GoodSnapshot(s, w.snap) && row in rows
    requires T.Lists(s.v.Lt(), T.Ahead(s.v.Lt(), Abstract(s, w).matching, Abstract(s, w).mark), rows)
    ensures TypedKeys(s.lib, s.v.orders, s.v.Key(row))
  {
    assert row in w.snap.rows;
  }

  ghost function AbstractRun(s: Setup, run: seq<World>): seq<T.State<Env>> {
    seq(|run|, i requires 0 <= i < |run| => Abstract(s, run[i]))
  }

  lemma StepKeepsToken(s: Setup, run: seq<World>, n: nat)
    requires ValidSetup(s) && Run(s, run) && n + 1 < |run| && TokenStandsForLast(s, run[n].client)
    ensures TokenStandsForLast(s, run[n + 1].client)
    ensures T.Page(s.v.Lt(), Abstract(s, run[n]), Abstract(s, run[n + 1])) || ChangeStep(run[n], run[n + 1])
    ensures PageStep(s, run[n], run[n + 1]) ==> T.Page(s.v.Lt(), Abstract(s, run[n]), Abstract(s, run[n + 1]))
  {
    if PageStep(s, run[n], run[n + 1]) {
      PageStepRefines(s, run[n], run[n + 1]);
    }
  }

  lemma {:induction false} TokensStandForLast(s: Setup, run: seq<World>, n: nat)
    requires ValidSetup(s) && Run(s, run) && n < |run|
    ensures TokenStandsForLast(s, run[n].client)
  {
    hide ValidSetup, GoodSnapshot, PageStep;
    if n > 0 {
      TokensStandForLast(s, run, n - 1);
      StepKeepsToken(s, run, n - 1);
    }
  }

  /** Refinement over whole runs. */
  lemma RunRefines(s: Setup, run: seq<World>)
    requires ValidSetup(s) && Run(s, run)
    ensures T.StrictOrder(s.v.Lt()) && T.Run(s.v.Lt(), AbstractRun(s, run))
  {
    EffectiveOrderIsStrict(s.v);
    var states := AbstractRun(s, run);
    forall i | 0 <= i < |states| - 1
      ensures T.Page(s.v.Lt(), states[i], states[i + 1]) || T.Change(states[i], states[i + 1])
    {
      TokensStandForLast(s, run, i);
      StepKeepsToken(s, run, i);
    }
  }

  // ---- theorems over every run ----

  /** Whatever happens to the table between requests, the rows handed out are
      strictly increasing in the effective order: nothing is returned twice. */
  lemma ReturnedStrictlyIncreasing(s: Setup, run: seq<World>)
    requires ValidSetup(s) && Run(s, run)
    ensures T.Increasing(s.v.Lt(), T.Last(run).client.seen)
  {
    RunRefines(s, run);
    T.InvariantHolds(s.v.Lt(), AbstractRun(s, run), {}, |run| - 1);
  }

  // The effective order on key tuples.
  ghost function KeyLt(v: View): (Keys, Keys) -> bool {
    (a, b) => |a| == |b| == |v.orders| && Before(v.d, Directions(v.orders), a, b)
  }

  lemma KeyOrderIsStrict(v: View)
    requires TotalPreorder(v.d.le)
    ensures T.StrictOrder(KeyLt(v))
  {
    var lt, descs := KeyLt(v), Directions(v.orders);
    forall a ensures !lt(a, a) {
      if |a| == |v.orders| {
        CompareKeysFlips(v.d, descs, a, a);
      }
    }
    forall a, b, c | lt(a, b) && lt(b, c) ensures lt(a, c) {
      BeforeTransitive(v.d, descs, a, b, c);
    }
  }

  // The client has not come to these keys yet.
  ghost predicate KeysAhead(s: Setup, c: Client, keys: Keys) {
    match c.position
    case Start => true
    case At(_) => c.seen != [] && KeyLt(s.v)(s.v.Key(T.Last(c.seen)), keys)
    case Done => false
  }

  /** If from some moment of a completed traversal on, at which the client has not come to
      these sort keys, some matching row carries them, then exactly one returned row does:
      a row may appear late and change in everything but its keys, and whatever is
      inserted or deleted around it. */
  lemma LateKeysReturnedOnce(s: Setup, run: seq<World>, m: nat, keys: Keys)
    requires ValidSetup(s) && Run(s, run) && T.Last(run).client.position == Done
    requires m < |run| && KeysAhead(s, run[m].client, keys)
    requires forall i :: m <= i < |run| ==>
      exists row :: row in Matching(s.v.d, run[i].snap, s.wheres) && s.v.Key(row) == keys
    ensures T.ExactlyOnce(keys, T.Mapped((row: Env) => s.v.Key(row), T.Last(run).client.seen))
  {
    hide T.Run, Run, Matching, ValidSetup;
    var key := (row: Env) => s.v.Key(row);
    var states := AbstractRun(s, run);
    var images := seq(|states|, i requires 0 <= i < |states| => T.Image(key, states[i]));
    assert T.StrictOrder(KeyLt(s.v)) by { StrictKeys(s); }
    RunRefines(s, run);
    T.RunImage(s.v.Lt(), KeyLt(s.v), key, states);
    forall i | m <= i < |images| ensures keys in images[i].matching {
      var row :| row in Matching(s.v.d, run[i].snap, s.wheres) && s.v.Key(row) == keys;
      assert row in states[i].matching && key(row) == keys;
    }
    T.LateRowsReturnedOnce(KeyLt(s.v), images, m, keys);
  }

  /** In particular sort keys that some matching row carries at every moment. */
  lemma PersistentKeysReturnedOnce(s: Setup, run: seq<World>, keys: Keys)
    requires ValidSetup(s) && Run(s, run) && T.Last(run).client.position == Done
    requires forall i :: 0 <= i < |run| ==>
      exists row :: row in Matching(s.v.d, run[i].snap, s.wheres) && s.v.Key(row) == keys
    ensures T.ExactlyOnce(keys, T.Mapped((row: Env) => s.v.Key(row), T.Last(run).client.seen))
  {
    LateKeysReturnedOnce(s, run, 0, keys);
  }

  lemma StrictKeys(s: Setup)
    requires ValidSetup(s)
    ensures T.StrictOrder(KeyLt(s.v))
  {
    KeyOrderIsStrict(s.v);
  }

  /** A row that matches unchanged from some moment on, at which it lies ahead of the client. */
  lemma LateRowsReturnedOnce(s: Setup, run: seq<World>, m: nat, row: Env)
    requires ValidSetup(s) && Run(s, run) && T.Last(run).client.position == Done
    requires m < |run| && KeysAhead(s, run[m].client, s.v.Key(row))
    requires forall i :: m <= i < |run| ==> row in Matching(s.v.d, run[i].snap, s.wheres)
    ensures T.ExactlyOnce(row, T.Last(run).client.seen)
  {
    RunRefines(s, run);
    T.LateRowsReturnedOnce(s.v.Lt(), AbstractRun(s, run), m, row);
  }

  /** A row that is present, matching and unchanged throughout. */
  lemma PersistentRowsReturnedOnce(s: Setup, run: seq<World>, row: Env)
    requires ValidSetup(s) && Run(s, run) && T.Last(run).client.position == Done
    requires forall i :: 0 <= i < |run| ==> row in Matching(s.v.d, run[i].snap, s.wheres)
    ensures T.ExactlyOnce(row, T.Last(run).client.seen)
  {
    LateRowsReturnedOnce(s, run, 0, row);
  }

  /** Nothing is made up: a row handed out was matching when its page was served. */
  lemma ReturnedRowsMatched(s: Setup, run: seq<World>, row: Env)
    requires ValidSetup(s) && Run(s, run) && row in T.Last(run).client.seen
    ensures exists i :: 0 <= i < |run| && row in Matching(s.v.d, run[i].snap, s.wheres)
  {
    RunRefines(s, run);
    T.ReturnedRowsMatched(s.v.Lt(), AbstractRun(s, run), |run| - 1, row);
    var i :| 0 <= i < |run| - 1 && row in AbstractRun(s, run)[i].matching;
    assert row in Matching(s.v.d, run[i].snap, s.wheres);
  }

  ghost predicate Undisturbed(s: Setup, snap: Snapshot, run: seq<World>) {
    && Run(s, run)
    && (forall i :: 0 <= i < |run| ==> run[i].snap == snap)
    && (forall i :: 0 <= i < |run| - 1 ==> PageStep(s, run[i], run[i + 1]))
  }

  // One page after the other: counting pages report the number of matching rows, and
  // only a page behind which the traversal goes on reports more.
  ghost predicate PagesReport(s: Setup, snap: Snapshot, c: Client) {
    forall k :: 0 <= k < |c.pages| ==>
      && (c.pages[k].total.Some? ==> c.pages[k].total.value == |Matching(s.v.d, snap, s.wheres)|)
      && (c.pages[k].hasMore <==> k < |c.pages| - 1 || c.position.At?)
  }

  lemma PageReports(s: Setup, w: World, w': World)
    requires PageStep(s, w, w') && PagesReport(s, w.snap, w.client)
      && (w.client.pages == [] <==> w.client.position.Start?)
    ensures PagesReport(s, w.snap, w'.client) && |w'.client.pages| == |w.client.pages| + 1
    ensures !w'.client.position.Start?
  {
    var limit: nat, count, page :| Served(s, w.snap, w.client.position, limit, count, page)
      && w'.client == Advance(w.client, page);
    NotServedWhenDone(s, w, limit, count, page);
  }

  lemma {:induction false} UndisturbedPages(s: Setup, snap: Snapshot, run: seq<World>, n: nat)
    requires Undisturbed(s, snap, run) && n < |run|
    ensures |run[n].client.pages| == n && PagesReport(s, snap, run[n].client)
    ensures run[n].client.pages == [] <==> run[n].client.position.Start?
  {
    hide PageStep;
    if n > 0 {
      UndisturbedPages(s, snap, run, n - 1);
      PageReports(s, run[n - 1], run[n]);
    }
  }

  // The rows of an undisturbed traversal.
  lemma TraversalRows(s: Setup, snap: Snapshot, run: seq<World>, all: seq<Env>)
    requires ValidSetup(s) && Undisturbed(s, snap, run)
    requires T.Lists(s.v.Lt(), Matching(s.v.d, snap, s.wheres), all)
    ensures var c := T.Last(run).client; var pages := |run| - 1;
      && |c.seen| <= |all| && c.seen == all[..|c.seen|]
      && (c.position == Done ==> c.seen == all)
      && (pages > 0 ==> (c.position.At? <==> |c.seen| < |all|))
      && pages <= Max(1, |all|)
      && |all| == |Matching(s.v.d, snap, s.wheres)|
  {
    hide ValidSetup, GoodSnapshot, PageStep, T.Page, T.Lists, T.StrictOrder, Matching;
    RunRefines(s, run);
    TokensStandForLast(s, run, |run| - 1);
    var states := AbstractRun(s, run);
    forall i | 0 <= i < |states| - 1 ensures T.Page(s.v.Lt(), states[i], states[i + 1]) {
      TokensStandForLast(s, run, i);
      StepKeepsToken(s, run, i);
    }
    T.FullTraversal(s.v.Lt(), Matching(s.v.d, snap, s.wheres), states, all);
    T.ListingSize(s.v.Lt(), Matching(s.v.d, snap, s.wheres), all);
    assert T.Last(states) == Abstract(s, T.Last(run));
    assert TokenStandsForLast(s, T.Last(run).client);
  }

  /** Following cursors over a fixed table walks the filtered rows in effective
      order without gap or repetition, reports more on every page but the last one,
      and is over after at most as many pages as there are rows (one for none). Every
      page that counts reports the number of rows as its Total. */
  lemma FullTraversal(s: Setup, snap: Snapshot, run: seq<World>, all: seq<Env>)
    requires ValidSetup(s) && Undisturbed(s, snap, run)
    requires T.Lists(s.v.Lt(), Matching(s.v.d, snap, s.wheres), all)
    ensures var c := T.Last(run).client; var pages := |run| - 1;
      && |c.seen| <= |all| && c.seen == all[..|c.seen|]
      && (c.position == Done ==> c.seen == all)
      && (pages > 0 ==> (c.position.At? <==> |c.seen| < |all|))
      && pages <= Max(1, |all|) && |c.pages| == pages
      && forall k :: 0 <= k < pages ==>
           && (c.pages[k].total.Some? ==> c.pages[k].total.value == |all|)
           && (c.pages[k].hasMore <==> k < pages - 1 || c.position.At?)
  {
    hide ValidSetup, PageStep, T.Lists, Matching;
    TraversalRows(s, snap, run, all);
    UndisturbedPages(s, snap, run, |run| - 1);
  }

  // ---- when a traversal can go on ----

  lemma PageExistsIff(s: Setup, snap: Snapshot, cursor: Option<Keys>, limit: nat, total: Option<nat>)
    returns (page: Page)
    requires ValidSetup(s) && DistinctRows(s.v.d, s.e.model, snap) && limit > 0
    requires cursor.Some? ==> |cursor.value| == |s.v.orders|
    ensures PageEncodes(s.lib, s.e, s.v, snap, s.wheres, cursor, limit, 0) ==>
      && IsPage(s.lib, s.e, s.v, snap, s.wheres, cursor, limit, 0, page)
      && page.limit == limit && page.offset == 0 && page.total == total
    ensures forall other :: IsPage(s.lib, s.e, s.v, snap, s.wheres, cursor, limit, 0, other) ==>
      PageEncodes(s.lib, s.e, s.v, snap, s.wheres, cursor, limit, 0)
  {
    hide DistinctRows, JsonRoundTrips, CoversPrimaryKey, TotalPreorder, T.Lists, Remaining, IsPage, PageEncodes,
      TokenFor;
    var rows := RemainingListed(s, snap, cursor);
    PageEncodesFor(s.lib, s.e, s.v, snap, s.wheres, cursor, limit, 0, rows);
    var items := rows[..Min(limit, |rows|)];
    assert rows[0..] == rows && items == Window(rows, Some(0), Some(limit));
    var more := |rows| > limit;
    var token := if more then TokenFor(s.lib, s.e, s.v, rows[limit - 1]) else Ok("");
    page := Page(items, limit, 0, more, if token.Ok? then token.value else "", total);
    if token.Ok? {
      FinalPage(s.lib, s.e, s.v, snap, s.wheres, cursor, limit, 0, rows, page);
    }
    forall other | IsPage(s.lib, s.e, s.v, snap, s.wheres, cursor, limit, 0, other)
      ensures PageEncodes(s.lib, s.e, s.v, snap, s.wheres, cursor, limit, 0)
    {
      var listed := RowsOfPage(s, snap, cursor, limit, other);
      PageEncodesFor(s.lib, s.e, s.v, snap, s.wheres, cursor, limit, 0, listed);
    }
  }

  lemma RemainingListed(s: Setup, snap: Snapshot, cursor: Option<Keys>) returns (rows: seq<Env>)
    requires ValidSetup(s) && DistinctRows(s.v.d, s.e.model, snap)
    requires cursor.Some? ==> |cursor.value| == |s.v.orders|
    ensures T.Lists(s.v.Lt(), Remaining(s.v, snap, s.wheres, cursor), rows)
    ensures forall r :: r in rows ==> r in snap.rows
  {
    hide TotalPreorder, JsonRoundTrips, DistinctRows, CoversPrimaryKey, T.StrictOrder;
    EffectiveOrderIsStrict(s.v);
    EffectiveOrderIsTotal(s.v, s.e.model, snap);
    var chosen := Remaining(s.v, snap, s.wheres, cursor);
    assert chosen <= snap.rows;
    assert T.TotalOn(s.v.Lt(), chosen);
    rows := T.ListingExists(s.v.Lt(), chosen);
  }

  // Where a client's next page starts.
  function CursorAt(s: Setup, c: Client): Option<Keys>
    requires c.position.At? ==> c.seen != []
  {
    if c.position.At? then Some(s.v.Key(T.Last(c.seen))) else None
  }

  /** What a client's next request needs to be answered: the keys of the row it stands on
      survive the round trip, and the token of the row that ends the new page encodes. */
  ghost predicate Answerable(s: Setup, snap: Snapshot, c: Client, limit: nat)
    requires limit > 0 && (c.position.At? ==> c.seen != [])
  {
    && (c.position.At? ==> KeysReturn(s.v.orders, s.v.Key(T.Last(c.seen))))
    && PageEncodes(s.lib, s.e, s.v, snap, s.wheres, CursorAt(s, c), limit, 0)
  }

  /** A first request or a continuation is answered if and only if, first, the row the
      cursor stands on has no NULL in a root sort column bound to a non-pointer field and
      no sort key of malformed UTF-8, which the scan emits into the token and the decoder
      refuses; and second, when rows remain behind the page, the token of its last row
      encodes, that is, its keys can be marshalled and it is not too long. */
  lemma ContinuationAnsweredIff(s: Setup, snap: Snapshot, c: Client, limit: nat, count: bool)
    requires count ==> s.e.allowCount
    requires ValidSetup(s) && DistinctRows(s.v.d, s.e.model, snap)
    requires TokenStandsForLast(s, c) && !c.position.Done? && limit > 0
    ensures (exists page :: Served(s, snap, c.position, limit, count, page)) <==> Answerable(s, snap, c, limit)
  {
    hide PageEncodes, IsPage, DistinctRows, JsonRoundTrips, KeysReturn, TypedKeys, CoversPrimaryKey, TotalPreorder;
    DecodedPosition(s, c);
    var page := PageExistsIff(s, snap, CursorAt(s, c), limit, TotalOf(s, snap, count));
    if Answerable(s, snap, c, limit) {
      assert Served(s, snap, c.position, limit, count, page);
    }
  }

  // What the token of a client's position decodes to.
  lemma DecodedPosition(s: Setup, c: Client)
    requires ValidSetup(s) && TokenStandsForLast(s, c)
    ensures c.position.At? ==>
      var keys := s.v.Key(T.Last(c.seen));
      DecodeCursorOf(s.lib, s.v.table, s.v.orders, c.position.token, s.e.maxCursorBytes) ==
        if KeysReturn(s.v.orders, keys) then Ok(keys) else Err(InvalidCursor)
  {
    if c.position.At? {
      DecodeOfEncode(s.lib, s.v.table, s.v.orders, s.v.Key(T.Last(c.seen)), s.e.maxCursorBytes);
    }
  }

  /** A client that sends its request again with the cursor it was given: the endpoint
      answers it exactly under that condition, and the answer is a step of a run. */
  method Follow(s: Setup, d: Dialect, base: Statement, q: Request, snap: Snapshot, c: Client, limit: nat, count: bool,
                fetch: Statement -> seq<Env>, counted: Statement -> nat)
    returns (next: Result<Client>)
    requires ValidSetup(s) && SetupOf(s, d, base, q) && TokenStandsForLast(s, c) && !c.position.Done? && limit > 0
    requires DistinctRows(d, s.e.model, snap) && s.e.model.primaryColumns != []
    requires WellFormedRequest(SortOf(s.e, q)) && WithoutLimits(base)
    requires JoinsApart(base, s.v.orders)
    requires forall st: Statement :: Executable(s.e.model.table, st) ==> Answers(d, snap, st, fetch(st))
    requires forall st: Statement :: counted(st) == |Matching(d, snap, st.wheres)|
    ensures next.Ok? <==> (count ==> s.e.allowCount) && Answerable(s, snap, c, limit)
    ensures next.Ok? ==> PageStep(s, World(snap, c), World(snap, next.value))
  {
    hide Answers, DistinctRows, TotalPreorder, JsonRoundTrips, CoversPrimaryKey, IsPage, PageEncodes, KeysReturn,
      Matching, WellFormedRequest, JoinsApart, Executable, TypedKeys;
    var request := RequestAt(q, c, limit, count);
    assert SortOf(s.e, request) == SortOf(s.e, q) && Scope(base, request) == Scope(base, q);
    DecodedPosition(s, c);
    var page :- List(s.lib, d, s.e, snap, base, request, fetch, counted);
    ListedPageIsServed(s, d, snap, base, q, c, limit, count, page);
    return Ok(Advance(c, page));
  }
}
