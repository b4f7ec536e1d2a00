/** cursor.go's effectiveSort and gorm_compiler.go's stable ORDER BY and keyset
    predicate, with the meaning of both in three-valued SQL. */
module Cursor {
  import opened Common
  import opened Strings
  import opened Sql
  import opened KeyOrder

  datatype ScalarType = ScalarType(pkgPath: string, name: string)

  // validatedOrder; table == "" stands for the model's own table.
  datatype Order = Order(table: string, column: string, joinPath: string, desc: bool,
                         nullable: bool, scalar: ScalarType)

  // The part of modelSchema that sorting reads. columnTypes is FieldsByDBName.
  datatype Model = Model(table: string, primaryColumns: seq<string>, columnTypes: map<string, ScalarType>)

  // ---- effectiveSort ----

  function Qualified(model: Model, order: Order): Order {
    if order.table == "" then order.(table := model.table) else order
  }

  function QualifyAll(model: Model, orders: seq<Order>): seq<Order> {
    seq(|orders|, i requires 0 <= i < |orders| => Qualified(model, orders[i]))
  }

  predicate OrdersRootColumn(orders: seq<Order>, column: string) {
    exists i :: 0 <= i < |orders| && orders[i].joinPath == "" && orders[i].column == column
  }

  function PrimaryOrder(model: Model, column: string): Order
    requires column in model.columnTypes
  {
    Order(model.table, column, "", false, false, model.columnTypes[column])
  }

  function TieBreakers(model: Model, requested: seq<Order>, columns: seq<string>): Result<seq<Order>> {
    if columns == [] then Ok([])
    else if OrdersRootColumn(requested, columns[0]) then TieBreakers(model, requested, columns[1..])
    else if columns[0] !in model.columnTypes then Err(InvalidSchema)
    else
      var rest :- TieBreakers(model, requested, columns[1..]);
      Ok([PrimaryOrder(model, columns[0])] + rest)
  }

  function EffectiveSortOf(model: Model, requested: seq<Order>): Result<seq<Order>> {
    var rest :- TieBreakers(model, requested, model.primaryColumns);
    Ok(QualifyAll(model, requested) + rest)
  }

  method EffectiveSort(model: Model, requested: seq<Order>) returns (result: Result<seq<Order>>)
    ensures result == EffectiveSortOf(model, requested)
  {
    var orders := requested;
    for index := 0 to |requested|
      invariant |orders| == |requested|
      invariant forall i :: 0 <= i < |orders| ==>
        orders[i] == if i < index then Qualified(model, requested[i]) else requested[i]
    {
      if orders[index].table == "" {
        orders := orders[index := orders[index].(table := model.table)];
      }
    }
    assert orders == QualifyAll(model, requested);
    var orderedRootColumns := {};
    for index := 0 to |requested|
      invariant forall c :: c in orderedRootColumns <==> OrdersRootColumn(requested[..index], c)
    {
      assert requested[..index + 1] == requested[..index] + [requested[index]];
      forall c ensures OrdersRootColumn(requested[..index + 1], c) <==>
          OrdersRootColumn(requested[..index], c) || (requested[index].joinPath == "" && requested[index].column == c)
      {
        if OrdersRootColumn(requested[..index], c) {
          var i :| 0 <= i < index && requested[..index][i].joinPath == "" && requested[..index][i].column == c;
          assert requested[..index + 1][i].column == c;
        }
        assert requested[..index + 1][index] == requested[index];
      }
      if requested[index].joinPath == "" {
        orderedRootColumns := orderedRootColumns + {requested[index].column};
      }
    }
    assert requested[..|requested|] == requested;
    ghost var added := [];
    var columns := model.primaryColumns;
    assert columns[0..] == columns;
    PrependNothing(TieBreakers(model, requested, columns));
    for index := 0 to |columns|
      invariant orders == QualifyAll(model, requested) + added
      invariant TieBreakers(model, requested, columns) ==
        Prepend(added, TieBreakers(model, requested, columns[index..]))
    {
      var column := columns[index];
      assert columns[index..][1..] == columns[index + 1..];
      if column in orderedRootColumns {
        continue;
      }
      if column !in model.columnTypes {
        return Err(InvalidSchema);
      }
      orders := orders + [PrimaryOrder(model, column)];
      PrependAppend(added, PrimaryOrder(model, column), TieBreakers(model, requested, columns[index + 1..]));
      added := added + [PrimaryOrder(model, column)];
    }
    assert columns[|columns|..] == [] && added + [] == added;
    return Ok(orders);
  }

  function Prepend(front: seq<Order>, rest: Result<seq<Order>>): Result<seq<Order>> {
    if rest.Err? then rest else Ok(front + rest.value)
  }

  lemma PrependNothing(rest: Result<seq<Order>>)
    ensures Prepend([], rest) == rest
  {
    if rest.Ok? {
      assert [] + rest.value == rest.value;
    }
  }

  lemma PrependAppend(front: seq<Order>, order: Order, rest: Result<seq<Order>>)
    ensures Prepend(front + [order], rest) == Prepend(front, Prepend([order], rest))
  {
    if rest.Ok? {
      assert (front + [order]) + rest.value == front + ([order] + rest.value);
    }
  }

  ghost predicate CoversPrimaryKey(model: Model, orders: seq<Order>) {
    forall c :: c in model.primaryColumns ==>
      exists i ::
        0 <= i < |orders| && orders[i].joinPath == "" && orders[i].table == model.table && orders[i].column == c
  }

  lemma {:induction false} TieBreakersShape(model: Model, requested: seq<Order>, columns: seq<string>)
    requires TieBreakers(model, requested, columns).Ok?
    ensures var added := TieBreakers(model, requested, columns).value;
      && (forall i :: 0 <= i < |added| ==>
            && added[i].column in columns && !OrdersRootColumn(requested, added[i].column)
            && added[i] == Order(model.table, added[i].column, "", false, false, added[i].scalar))
      && (forall c :: c in columns && !OrdersRootColumn(requested, c) ==>
            exists i :: 0 <= i < |added| && added[i].column == c)
  {
    if columns != [] {
      if OrdersRootColumn(requested, columns[0]) {
        TieBreakersShape(model, requested, columns[1..]);
      } else {
        TieBreakersShape(model, requested, columns[1..]);
        var rest := TieBreakers(model, requested, columns[1..]).value;
        var added := [PrimaryOrder(model, columns[0])] + rest;
        forall c | c in columns && !OrdersRootColumn(requested, c)
          ensures exists i :: 0 <= i < |added| && added[i].column == c
        {
          if c == columns[0] {
            assert added[0].column == c;
          } else {
            assert c in columns[1..];
            var i :| 0 <= i < |rest| && rest[i].column == c;
            assert added[i + 1].column == c;
          }
        }
      }
    }
  }

  // A sort as validateSortPath yields it: every term carries the alias of its join path,
  // which is empty for the root's own columns.
  predicate WellFormedRequest(requested: seq<Order>) {
    forall i :: 0 <= i < |requested| ==> requested[i].table == JoinedAlias(requested[i].joinPath)
  }

  /** The tables an effective sort reads: the root's, or the alias of the term's join path. */
  predicate ReadsJoined(modelTable: string, orders: seq<Order>) {
    forall i :: 0 <= i < |orders| ==>
      orders[i].table == modelTable || (orders[i].joinPath != "" && orders[i].table == JoinedAlias(orders[i].joinPath))
  }

  lemma EffectiveSortReadsJoined(model: Model, requested: seq<Order>)
    requires WellFormedRequest(requested) && EffectiveSortOf(model, requested).Ok?
    ensures ReadsJoined(model.table, EffectiveSortOf(model, requested).value)
  {
    TieBreakersShape(model, requested, model.primaryColumns);
    var orders := EffectiveSortOf(model, requested).value;
    var added := TieBreakers(model, requested, model.primaryColumns).value;
    forall i | 0 <= i < |orders|
      ensures orders[i].table == model.table
        || (orders[i].joinPath != "" && orders[i].table == JoinedAlias(orders[i].joinPath))
    {
      assert orders[i] == if i < |requested| then Qualified(model, requested[i]) else added[i - |requested|];
    }
  }

  /** The requested terms keep their place and direction, and every primary-key
      column of the root ends up in the order, appended ascending when missing. */
  lemma EffectiveSortCompletes(model: Model, requested: seq<Order>)
    requires WellFormedRequest(requested)
    requires EffectiveSortOf(model, requested).Ok?
    ensures var orders := EffectiveSortOf(model, requested).value;
      && CoversPrimaryKey(model, orders)
      && |requested| <= |orders|
      && (forall i :: 0 <= i < |requested| ==> orders[i] == Qualified(model, requested[i]))
      && (forall i :: |requested| <= i < |orders| ==>
            !orders[i].desc && orders[i].joinPath == "" && orders[i].column in model.primaryColumns)
  {
    TieBreakersShape(model, requested, model.primaryColumns);
    var orders := EffectiveSortOf(model, requested).value;
    var added := TieBreakers(model, requested, model.primaryColumns).value;
    assert forall i :: |requested| <= i < |orders| ==> orders[i] == added[i - |requested|];
    forall c | c in model.primaryColumns
      ensures exists i ::
        0 <= i < |orders| && orders[i].joinPath == "" && orders[i].table == model.table && orders[i].column == c
    {
      if OrdersRootColumn(requested, c) {
        var i :| 0 <= i < |requested| && requested[i].joinPath == "" && requested[i].column == c;
        assert orders[i].column == c && orders[i].table == model.table;
      } else {
        var i :| 0 <= i < |added| && added[i].column == c;
        assert orders[|requested| + i].column == c;
      }
    }
  }

  // The places, in the primary key, of the columns the request does not order by.
  ghost predicate Missing(requested: seq<Order>, columns: seq<string>, places: seq<nat>) {
    && (forall i, j :: 0 <= i < j < |places| ==> places[i] < places[j])
    && (forall i :: 0 <= i < |places| ==> places[i] < |columns| && !OrdersRootColumn(requested, columns[places[i]]))
    && forall a: nat :: a < |columns| && !OrdersRootColumn(requested, columns[a]) ==> a in places
  }

  ghost function Places(requested: seq<Order>, columns: seq<string>, from: nat): seq<nat>
    decreases |columns| - from
  {
    if from >= |columns| then []
    else (if OrdersRootColumn(requested, columns[from]) then [] else [from]) + Places(requested, columns, from + 1)
  }

  lemma {:induction false} PlacesFrom(requested: seq<Order>, columns: seq<string>, from: nat)
    ensures var places := Places(requested, columns, from);
      && (forall i :: 0 <= i < |places| ==>
          from <= places[i] < |columns| && !OrdersRootColumn(requested, columns[places[i]]))
      && (forall i, j :: 0 <= i < j < |places| ==> places[i] < places[j])
      && forall a: nat :: from <= a < |columns| && !OrdersRootColumn(requested, columns[a]) ==> a in places
    decreases |columns| - from
  {
    hide OrdersRootColumn;
    if from < |columns| {
      PlacesFrom(requested, columns, from + 1);
    }
  }

  function AppendedAt(model: Model, column: string): Order {
    var scalar := if column in model.columnTypes then model.columnTypes[column] else ScalarType("", "");
    Order(model.table, column, "", false, false, scalar)
  }

  lemma {:induction false} TieBreakersKnown(model: Model, requested: seq<Order>, columns: seq<string>)
    ensures TieBreakers(model, requested, columns).Ok? <==>
      forall c :: c in columns && !OrdersRootColumn(requested, c) ==> c in model.columnTypes
  {
    hide OrdersRootColumn;
    if columns != [] {
      TieBreakersKnown(model, requested, columns[1..]);
      assert forall c :: c in columns <==> c == columns[0] || c in columns[1..];
    }
  }

  lemma {:induction false} TieBreakersAt(model: Model, requested: seq<Order>, columns: seq<string>, from: nat)
    requires from <= |columns| && TieBreakers(model, requested, columns[from..]).Ok?
    ensures var places := Places(requested, columns, from);
      var added := TieBreakers(model, requested, columns[from..]).value;
      |added| == |places| && forall i :: 0 <= i < |places| && places[i] < |columns| ==>
        added[i] == AppendedAt(model, columns[places[i]])
    decreases |columns| - from
  {
    hide OrdersRootColumn;
    if from < |columns| {
      assert columns[from..][0] == columns[from] && columns[from..][1..] == columns[from + 1..];
      TieBreakersAt(model, requested, columns, from + 1);
    }
  }

  /** Completing fails if and only if a missing primary-key column is unknown; else the missing
      ones are appended in the order of the primary key, ascending. */
  lemma AppendedInKeyOrder(model: Model, requested: seq<Order>) returns (places: seq<nat>)
    ensures EffectiveSortOf(model, requested).Ok? <==>
      forall c :: c in model.primaryColumns && !OrdersRootColumn(requested, c) ==> c in model.columnTypes
    ensures Missing(requested, model.primaryColumns, places)
    ensures EffectiveSortOf(model, requested).Ok? ==>
      var orders := EffectiveSortOf(model, requested).value;
      |orders| == |requested| + |places| && forall i :: 0 <= i < |places| ==>
        var column := model.primaryColumns[places[i]];
        && column in model.columnTypes
        && orders[|requested| + i] == Order(model.table, column, "", false, false, model.columnTypes[column])
  {
    hide OrdersRootColumn, Places, TieBreakers;
    places := Places(requested, model.primaryColumns, 0);
    PlacesFrom(requested, model.primaryColumns, 0);
    TieBreakersKnown(model, requested, model.primaryColumns);
    assert model.primaryColumns[0..] == model.primaryColumns;
    if EffectiveSortOf(model, requested).Ok? {
      TieBreakersAt(model, requested, model.primaryColumns, 0);
    }
  }

  lemma {:induction false} NothingMissing(model: Model, orders: seq<Order>, columns: seq<string>)
    requires forall c :: c in columns ==> OrdersRootColumn(orders, c)
    ensures TieBreakers(model, orders, columns) == Ok([])
  {
    if columns != [] {
      NothingMissing(model, orders, columns[1..]);
    }
  }

  /** list and applyValidated both complete the sort; completing twice changes nothing. */
  lemma EffectiveSortIdempotent(model: Model, requested: seq<Order>)
    requires WellFormedRequest(requested)
    requires EffectiveSortOf(model, requested).Ok?
    ensures EffectiveSortOf(model, EffectiveSortOf(model, requested).value) == EffectiveSortOf(model, requested)
  {
    var orders := EffectiveSortOf(model, requested).value;
    EffectiveSortCompletes(model, requested);
    TieBreakersShape(model, requested, model.primaryColumns);
    NothingMissing(model, orders, model.primaryColumns);
    var added := TieBreakers(model, requested, model.primaryColumns).value;
    forall i | 0 <= i < |orders| ensures Qualified(model, orders[i]) == orders[i] {
      assert orders[i] == if i < |requested| then Qualified(model, requested[i]) else added[i - |requested|];
    }
    assert QualifyAll(model, orders) + [] == orders;
  }

  // ---- keys of a row ----

  function OrderColumn(modelTable: string, order: Order): Column {
    Column(if order.table == "" then modelTable else order.table, order.column)
  }

  function Directions(orders: seq<Order>): seq<bool> {
    seq(|orders|, i requires 0 <= i < |orders| => orders[i].desc)
  }

  function KeysOf(modelTable: string, orders: seq<Order>, env: Env): Keys {
    seq(|orders|, i requires 0 <= i < |orders| => Read(env, OrderColumn(modelTable, orders[i])))
  }

  // ---- ORDER BY ----

  function StableOrder(modelTable: string, orders: seq<Order>): seq<OrderTerm> {
    if orders == [] then []
    else
      var column := OrderColumn(modelTable, orders[0]);
      [NullFlag(column), Sorted(column, orders[0].desc)] + StableOrder(modelTable, orders[1..])
  }

  lemma {:induction false} StableOrderAppend(modelTable: string, a: seq<Order>, b: seq<Order>)
    ensures StableOrder(modelTable, a + b) == StableOrder(modelTable, a) + StableOrder(modelTable, b)
  {
    if a == [] {
      assert a + b == b;
    } else {
      StableOrderAppend(modelTable, a[1..], b);
      assert (a + b)[1..] == a[1..] + b && (a + b)[0] == a[0];
      var column := OrderColumn(modelTable, a[0]);
      var head := [NullFlag(column), Sorted(column, a[0].desc)];
      assert head + (StableOrder(modelTable, a[1..]) + StableOrder(modelTable, b))
        == (head + StableOrder(modelTable, a[1..])) + StableOrder(modelTable, b);
    }
  }

  method BuildStableOrder(modelTable: string, orders: seq<Order>) returns (terms: seq<OrderTerm>)
    ensures terms == StableOrder(modelTable, orders)
  {
    terms := [];
    for index := 0 to |orders|
      invariant terms == StableOrder(modelTable, orders[..index])
    {
      var column := OrderColumn(modelTable, orders[index]);
      terms := terms + [NullFlag(column)];
      terms := terms + [Sorted(column, orders[index].desc)];
      StableOrderAppend(modelTable, orders[..index], [orders[index]]);
      assert orders[..index + 1] == orders[..index] + [orders[index]];
    }
    assert orders[..|orders|] == orders;
  }

  /** The CASE-WHEN ORDER BY sorts by NULLS LAST lexicographic key order on every
      dialect, wherever that dialect would put a bare NULL. */
  lemma {:induction false} StableOrderMeaning(d: Dialect, modelTable: string, orders: seq<Order>, a: Env, b: Env)
    ensures OrderCompare(d, StableOrder(modelTable, orders), a, b) ==
            CompareKeys(d, Directions(orders), KeysOf(modelTable, orders, a), KeysOf(modelTable, orders, b))
  {
    if orders != [] {
      StableOrderMeaning(d, modelTable, orders[1..], a, b);
      assert Directions(orders)[1..] == Directions(orders[1..]);
      assert KeysOf(modelTable, orders, a)[1..] == KeysOf(modelTable, orders[1..], a);
      assert KeysOf(modelTable, orders, b)[1..] == KeysOf(modelTable, orders[1..], b);
      var terms := StableOrder(modelTable, orders);
      assert terms[1..][1..] == StableOrder(modelTable, orders[1..]);
    }
  }

  // ---- keyset predicate ----

  function EqualityTo(column: Column, value: Cell): Clause {
    if value.None? then IsNull(column) else Compare(EqTo, column, value.value)
  }

  function AfterTerm(column: Column, desc: bool, value: Scalar): Clause {
    Or([IsNull(column), Compare(if desc then LtThan else GtThan, column, value)])
  }

  function Branch(column: Column, desc: bool, value: Cell, prefix: seq<Clause>): seq<Clause> {
    if value.None? then [] else [And(prefix + [AfterTerm(column, desc, value.value)])]
  }

  function Branches(modelTable: string, orders: seq<Order>, values: Keys, prefix: seq<Clause>): seq<Clause>
    requires |orders| == |values|
  {
    if orders == [] then []
    else
      var column := OrderColumn(modelTable, orders[0]);
      Branch(column, orders[0].desc, values[0], prefix) +
        Branches(modelTable, orders[1..], values[1..], prefix + [EqualityTo(column, values[0])])
  }

  function CursorPredicate(modelTable: string, orders: seq<Order>, values: Keys): Clause
    requires |orders| == |values|
  {
    var branches := Branches(modelTable, orders, values, []);
    if branches == [] then Never else Or(branches)
  }

  lemma BranchesStep(modelTable: string, orders: seq<Order>, values: Keys, index: nat, done: seq<Clause>,
                     prefix: seq<Clause>)
    requires index < |orders| == |values|
    ensures var column := OrderColumn(modelTable, orders[index]);
      done + Branches(modelTable, orders[index..], values[index..], prefix) ==
      (done + Branch(column, orders[index].desc, values[index], prefix)) +
        Branches(modelTable, orders[index + 1..], values[index + 1..], prefix + [EqualityTo(column, values[index])])
  {
    assert orders[index..][1..] == orders[index + 1..] && values[index..][1..] == values[index + 1..];
  }

  /** cursorPredicateSQL.Build: grows the equality prefix and the branch list. */
  method BuildCursorPredicate(modelTable: string, orders: seq<Order>, values: Keys) returns (clause: Clause)
    requires |orders| == |values|
    ensures clause == CursorPredicate(modelTable, orders, values)
  {
    hide AfterTerm, EqualityTo, OrderColumn;
    var prefix: seq<Clause> := [];
    var branches: seq<Clause> := [];
    assert orders[0..] == orders && values[0..] == values;
    for index := 0 to |orders|
      invariant branches + Branches(modelTable, orders[index..], values[index..], prefix) ==
                Branches(modelTable, orders, values, [])
    {
      BranchesStep(modelTable, orders, values, index, branches, prefix);
      var column := OrderColumn(modelTable, orders[index]);
      var value := values[index];
      ghost var grown := branches + Branch(column, orders[index].desc, value, prefix);
      if value.Some? {
        var after := AfterTerm(column, orders[index].desc, value.value);
        branches := branches + [And(prefix + [after])];
      }
      assert branches == grown;
      prefix := prefix + [EqualityTo(column, value)];
    }
    assert orders[|orders|..] == [] && values[|orders|..] == [];
    assert branches + [] == branches;
    clause := if |branches| == 0 then Never else Or(branches);
  }

  lemma EqualityMeaning(d: Dialect, db: Database, env: Env, column: Column, desc: bool, value: Cell)
    requires TotalPreorder(d.le)
    ensures Eval(d, db, env, EqualityTo(column, value)) == True <==>
      CompareKey(d, desc, value, Read(env, column)) == Same
  {
    if value.Some? && Read(env, column).Some? {
      assert d.le(value.value, Read(env, column).value) || d.le(Read(env, column).value, value.value);
    }
  }

  lemma AfterMeaning(d: Dialect, db: Database, env: Env, column: Column, desc: bool, value: Scalar)
    requires TotalPreorder(d.le)
    ensures Eval(d, db, env, AfterTerm(column, desc, value)) == True <==>
            CompareKey(d, desc, Some(value), Read(env, column)) == Less
  {
    var cell := Read(env, column);
    var compare := Compare(if desc then LtThan else GtThan, column, value);
    assert EvalAny(d, db, env, [IsNull(column)] + [compare]) ==
      Or3(Eval(d, db, env, IsNull(column)), Eval(d, db, env, compare)) by {
      EvalAnyAppend(d, db, env, [IsNull(column)], [compare]);
    }
    assert AfterTerm(column, desc, value) == Or([IsNull(column)] + [compare]);
    if cell.Some? {
      assert d.le(value, cell.value) || d.le(cell.value, value);
    }
  }

  lemma BranchMeaning(d: Dialect, db: Database, env: Env, column: Column, desc: bool, value: Cell, prefix: seq<Clause>)
    requires TotalPreorder(d.le)
    ensures EvalAny(d, db, env, Branch(column, desc, value, prefix)) == True <==>
            EvalAll(d, db, env, prefix) == True && CompareKey(d, desc, value, Read(env, column)) == Less
  {
    if value.Some? {
      var after := AfterTerm(column, desc, value.value);
      AfterMeaning(d, db, env, column, desc, value.value);
      EvalAllAppend(d, db, env, prefix, [after]);
      assert EvalAll(d, db, env, [after]) == And3(Eval(d, db, env, after), True);
      assert EvalAny(d, db, env, [And(prefix + [after])]) == Or3(EvalAll(d, db, env, prefix + [after]), False);
    }
  }

  lemma BeforeStep(d: Dialect, modelTable: string, orders: seq<Order>, values: Keys, env: Env)
    requires |orders| == |values| && orders != []
    ensures var first := CompareKey(d, orders[0].desc, values[0], Read(env, OrderColumn(modelTable, orders[0])));
      Before(d, Directions(orders), values, KeysOf(modelTable, orders, env)) <==>
      first == Less ||
      (first == Same && Before(d, Directions(orders[1..]), values[1..], KeysOf(modelTable, orders[1..], env)))
  {
    assert Directions(orders)[1..] == Directions(orders[1..]);
    assert KeysOf(modelTable, orders, env)[1..] == KeysOf(modelTable, orders[1..], env);
  }

  /** Some branch is TRUE exactly when the prefix is and the remaining keys come after the cursor. */
  lemma {:induction false} BranchesMeaning(d: Dialect, db: Database, env: Env, modelTable: string,
                                           orders: seq<Order>, values: Keys, prefix: seq<Clause>)
    requires TotalPreorder(d.le)
    requires |orders| == |values|
    ensures EvalAny(d, db, env, Branches(modelTable, orders, values, prefix)) == True <==>
            && EvalAll(d, db, env, prefix) == True
            && Before(d, Directions(orders), values, KeysOf(modelTable, orders, env))
    decreases orders
  {
    if orders != [] {
      var column := OrderColumn(modelTable, orders[0]);
      var equal := EqualityTo(column, values[0]);
      var here := Branch(column, orders[0].desc, values[0], prefix);
      var rest := Branches(modelTable, orders[1..], values[1..], prefix + [equal]);
      calc {
        EvalAny(d, db, env, here + rest) == True;
        { EvalAnyAppend(d, db, env, here, rest); }
        EvalAny(d, db, env, here) == True || EvalAny(d, db, env, rest) == True;
        { BranchMeaning(d, db, env, column, orders[0].desc, values[0], prefix);
          BranchesMeaning(d, db, env, modelTable, orders[1..], values[1..], prefix + [equal]);
          PrefixMeaning(d, db, env, column, orders[0].desc, values[0], prefix); }
        EvalAll(d, db, env, prefix) == True &&
          (CompareKey(d, orders[0].desc, values[0], Read(env, column)) == Less ||
           (CompareKey(d, orders[0].desc, values[0], Read(env, column)) == Same &&
            Before(d, Directions(orders[1..]), values[1..], KeysOf(modelTable, orders[1..], env))));
        { BeforeStep(d, modelTable, orders, values, env); }
        EvalAll(d, db, env, prefix) == True && Before(d, Directions(orders), values, KeysOf(modelTable, orders, env));
      }
    }
  }

  lemma PrefixMeaning(d: Dialect, db: Database, env: Env, column: Column, desc: bool, value: Cell, prefix: seq<Clause>)
    requires TotalPreorder(d.le)
    ensures EvalAll(d, db, env, prefix + [EqualityTo(column, value)]) == True <==>
            EvalAll(d, db, env, prefix) == True && CompareKey(d, desc, value, Read(env, column)) == Same
  {
    EvalAllAppend(d, db, env, prefix, [EqualityTo(column, value)]);
    EqualityMeaning(d, db, env, column, desc, value);
    assert EvalAll(d, db, env, [EqualityTo(column, value)]) == And3(Eval(d, db, env, EqualityTo(column, value)), True);
  }

  /** The keyset predicate is TRUE in three-valued logic exactly for the rows
      strictly after the cursor in the NULLS LAST lexicographic order. */
  lemma CursorPredicateMeaning(d: Dialect, db: Database, env: Env, modelTable: string, orders: seq<Order>, values: Keys)
    requires TotalPreorder(d.le)
    requires |orders| == |values|
    ensures Eval(d, db, env, CursorPredicate(modelTable, orders, values)) == True <==>
            Before(d, Directions(orders), values, KeysOf(modelTable, orders, env))
  {
    BranchesMeaning(d, db, env, modelTable, orders, values, []);
  }

  /** The same row set, read through ORDER BY: the predicate keeps a row exactly
      when ORDER BY would put it after the row the cursor was taken from. */
  lemma CursorPredicateAgreesWithOrderBy(d: Dialect, db: Database, modelTable: string, orders: seq<Order>, last: Env,
                                         row: Env)
    requires TotalPreorder(d.le)
    ensures Eval(d, db, row, CursorPredicate(modelTable, orders, KeysOf(modelTable, orders, last))) == True <==>
            OrderCompare(d, StableOrder(modelTable, orders), last, row) == Less
  {
    CursorPredicateMeaning(d, db, row, modelTable, orders, KeysOf(modelTable, orders, last));
    StableOrderMeaning(d, modelTable, orders, last, row);
  }

  // ---- totality on distinct rows ----

  predicate SamePrimaryKey(d: Dialect, model: Model, a: Env, b: Env) {
    forall c :: c in model.primaryColumns ==>
      var x, y := Read(a, Column(model.table, c)), Read(b, Column(model.table, c));
      x.Some? == y.Some? && (x.Some? ==> SameValue(d, x.value, y.value))
  }

  /** The appended primary-key columns make the order total: only rows with the
      same primary key tie. */
  lemma TiesShareThePrimaryKey(d: Dialect, model: Model, orders: seq<Order>, a: Env, b: Env)
    requires CoversPrimaryKey(model, orders)
    requires CompareKeys(d, Directions(orders), KeysOf(model.table, orders, a), KeysOf(model.table, orders, b)) == Same
    ensures SamePrimaryKey(d, model, a, b)
  {
    var x, y := KeysOf(model.table, orders, a), KeysOf(model.table, orders, b);
    SameIsPointwise(d, Directions(orders), x, y);
    forall c | c in model.primaryColumns
      ensures var p, q := Read(a, Column(model.table, c)), Read(b, Column(model.table, c));
        p.Some? == q.Some? && (p.Some? ==> SameValue(d, p.value, q.value))
    {
      var i :| 0 <= i < |orders| && orders[i].joinPath == "" && orders[i].table == model.table && orders[i].column == c;
      assert x[i] == Read(a, OrderColumn(model.table, orders[i]))
        && y[i] == Read(b, OrderColumn(model.table, orders[i]));
      assert OrderColumn(model.table, orders[i]) == Column(model.table, c);
    }
  }
}
