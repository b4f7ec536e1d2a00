/** The clause trees gotq hands to GORM, with the standard SQL meaning of each
    node: three-valued logic over rows with NULLs. */
module Sql {
  import opened Common
  import Like

  // Bound values and non-NULL cells. Other stands for times, floats, UUIDs, ...
  datatype Scalar = Text(text: string) | Bool(flag: bool) | Int(value: int) | Other(repr: string)

  // None is NULL.
  type Cell = Option<Scalar>

  // A column that is absent from a row reads as NULL.
  type Row = map<string, Cell>

  type Database = map<string, set<Row>>

  // The table names and aliases in scope, each bound to its current row.
  type Env = map<string, Row>

  datatype Column = Column(table: string, name: string)

  /** What the model leaves to the database: its ordering of values, the
      character folding of LIKE, and whether a bare ORDER BY puts NULLs first. */
  datatype Dialect = Dialect(le: (Scalar, Scalar) -> bool, same: Like.Folding, nullsFirst: bool)

  ghost predicate TotalPreorder(le: (Scalar, Scalar) -> bool) {
    && (forall a, b :: le(a, b) || le(b, a))
    && (forall a, b, c :: le(a, b) && le(b, c) ==> le(a, c))
  }

  predicate SameValue(d: Dialect, a: Scalar, b: Scalar) { d.le(a, b) && d.le(b, a) }

  predicate Below(d: Dialect, a: Scalar, b: Scalar) { !d.le(b, a) }

  datatype Truth = True | False | Unknown

  function Lift(b: bool): Truth { if b then True else False }

  function Not3(t: Truth): Truth {
    match t
    case True => False
    case False => True
    case Unknown => Unknown
  }

  function And3(a: Truth, b: Truth): Truth {
    if a == False || b == False then False
    else if a == Unknown || b == Unknown then Unknown
    else True
  }

  function Or3(a: Truth, b: Truth): Truth { Not3(And3(Not3(a), Not3(b))) }

  datatype Relation = EqTo | NeqTo | GtThan | GteThan | LtThan | LteThan

  function Holds(d: Dialect, rel: Relation, a: Scalar, b: Scalar): bool {
    match rel
    case EqTo => SameValue(d, a, b)
    case NeqTo => !SameValue(d, a, b)
    case GtThan => Below(d, b, a)
    case GteThan => !Below(d, a, b)
    case LtThan => Below(d, a, b)
    case LteThan => !Below(d, b, a)
  }

  datatype Clause =
    | Never                                                          // 1 = 0
    | Compare(rel: Relation, column: Column, value: Scalar)
    | IsNull(column: Column)
    | IsNotNull(column: Column)
    | ColumnsEqual(left: Column, right: Column)
    | InList(column: Column, values: seq<Scalar>)
    | LikePattern(column: Column, pattern: string)
    | And(conjuncts: seq<Clause>)
    | Or(disjuncts: seq<Clause>)
    | Not(operand: Clause)
    | NotTrue(operand: Clause)                                       // COALESCE((..), FALSE) = FALSE
    | Exists(table: string, alias: string, where: Clause)
    | ExistsJoin(join: string, joinAlias: string, table: string, alias: string, on: Clause, where: Clause)

  function CellOf(row: Row, name: string): Cell {
    if name in row then row[name] else None
  }

  function Read(env: Env, column: Column): Cell {
    if column.table in env then CellOf(env[column.table], column.name) else None
  }

  function Rows(db: Database, table: string): set<Row> {
    if table in db then db[table] else {}
  }

  function CompareCells(d: Dialect, rel: Relation, a: Cell, b: Cell): Truth {
    if a.None? || b.None? then Unknown else Lift(Holds(d, rel, a.value, b.value))
  }

  function MemberOf(d: Dialect, a: Cell, values: seq<Scalar>): Truth {
    if values == [] then False
    else Or3(CompareCells(d, EqTo, a, Some(values[0])), MemberOf(d, a, values[1..]))
  }

  ghost function Eval(d: Dialect, db: Database, env: Env, clause: Clause): Truth
    decreases clause, 0
  {
    match clause
    case Never => False
    case Compare(rel, column, value) => CompareCells(d, rel, Read(env, column), Some(value))
    case IsNull(column) => Lift(Read(env, column).None?)
    case IsNotNull(column) => Lift(Read(env, column).Some?)
    case ColumnsEqual(left, right) => CompareCells(d, EqTo, Read(env, left), Read(env, right))
    case InList(column, values) => MemberOf(d, Read(env, column), values)
    case LikePattern(column, pattern) =>
      var cell := Read(env, column);
      if cell.Some? && cell.value.Text? then Lift(Like.LikeMatch(d.same, cell.value.text, pattern)) else Unknown
    case And(conjuncts) => EvalAll(d, db, env, conjuncts)
    case Or(disjuncts) => EvalAny(d, db, env, disjuncts)
    case Not(operand) => Not3(Eval(d, db, env, operand))
    case NotTrue(operand) => Lift(Eval(d, db, env, operand) != True)
    case Exists(table, alias, where) =>
      Lift(exists row :: row in Rows(db, table) && Eval(d, db, env[alias := row], where) == True)
    case ExistsJoin(join, joinAlias, table, alias, on, where) =>
      Lift(exists link, row ::
        && link in Rows(db, join) && row in Rows(db, table)
        && Eval(d, db, env[joinAlias := link][alias := row], on) == True
        && Eval(d, db, env[joinAlias := link][alias := row], where) == True)
  }

  ghost function EvalAll(d: Dialect, db: Database, env: Env, clauses: seq<Clause>): Truth
    decreases clauses, 1
  {
    if clauses == [] then True
    else And3(Eval(d, db, env, clauses[0]), EvalAll(d, db, env, clauses[1..]))
  }

  ghost function EvalAny(d: Dialect, db: Database, env: Env, clauses: seq<Clause>): Truth
    decreases clauses, 1
  {
    if clauses == [] then False
    else Or3(Eval(d, db, env, clauses[0]), EvalAny(d, db, env, clauses[1..]))
  }

  lemma {:induction false} EvalAllAppend(d: Dialect, db: Database, env: Env, a: seq<Clause>, b: seq<Clause>)
    ensures EvalAll(d, db, env, a + b) == And3(EvalAll(d, db, env, a), EvalAll(d, db, env, b))
  {
    hide Eval;
    if a == [] {
      assert a + b == b;
    } else {
      EvalAllAppend(d, db, env, a[1..], b);
      assert (a + b)[1..] == a[1..] + b;
    }
  }

  lemma {:induction false} EvalAnyAppend(d: Dialect, db: Database, env: Env, a: seq<Clause>, b: seq<Clause>)
    ensures EvalAny(d, db, env, a + b) == Or3(EvalAny(d, db, env, a), EvalAny(d, db, env, b))
  {
    hide Eval;
    if a == [] {
      assert a + b == b;
    } else {
      EvalAnyAppend(d, db, env, a[1..], b);
      assert (a + b)[1..] == a[1..] + b;
    }
  }

  lemma EvalConnectives(d: Dialect, db: Database, env: Env, clauses: seq<Clause>)
    ensures Eval(d, db, env, And(clauses)) == EvalAll(d, db, env, clauses)
    ensures Eval(d, db, env, Or(clauses)) == EvalAny(d, db, env, clauses)
  {}

  lemma EvalNegation(d: Dialect, db: Database, env: Env, clause: Clause)
    ensures Eval(d, db, env, Not(clause)) == Not3(Eval(d, db, env, clause))
    ensures Eval(d, db, env, NotTrue(clause)) == Lift(Eval(d, db, env, clause) != True)
  {}

  lemma EvalSingle(d: Dialect, db: Database, env: Env, clause: Clause)
    ensures EvalAll(d, db, env, [clause]) == Eval(d, db, env, clause)
    ensures EvalAny(d, db, env, [clause]) == Eval(d, db, env, clause)
  {
    hide Eval;
    assert [clause][1..] == [];
  }

  lemma EvalPair(d: Dialect, db: Database, env: Env, a: Clause, b: Clause)
    ensures Eval(d, db, env, And([a, b])) == And3(Eval(d, db, env, a), Eval(d, db, env, b))
    ensures Eval(d, db, env, Or([a, b])) == Or3(Eval(d, db, env, a), Eval(d, db, env, b))
  {
    hide Eval, EvalAll, EvalAny;
    assert [a, b] == [a] + [b];
    EvalConnectives(d, db, env, [a, b]);
    EvalAllAppend(d, db, env, [a], [b]);
    EvalAnyAppend(d, db, env, [a], [b]);
    EvalSingle(d, db, env, a);
    EvalSingle(d, db, env, b);
  }

  ghost predicate JoinedPair(d: Dialect, db: Database, env: Env, clause: Clause, link: Row, row: Row)
    requires clause.ExistsJoin?
  {
    && link in Rows(db, clause.join) && row in Rows(db, clause.table)
    && Eval(d, db, env[clause.joinAlias := link][clause.alias := row], clause.on) == True
    && Eval(d, db, env[clause.joinAlias := link][clause.alias := row], clause.where) == True
  }

  lemma EvalExistsJoin(d: Dialect, db: Database, env: Env, clause: Clause)
    requires clause.ExistsJoin?
    ensures Eval(d, db, env, clause) == Lift(exists link, row :: JoinedPair(d, db, env, clause, link, row))
  {
    if link, row :| JoinedPair(d, db, env, clause, link, row) {
      var inner := env[clause.joinAlias := link][clause.alias := row];
      assert Eval(d, db, inner, clause.on) == True && Eval(d, db, inner, clause.where) == True;
    }
    if link, row :| (link in Rows(db, clause.join) && row in Rows(db, clause.table)
        && Eval(d, db, env[clause.joinAlias := link][clause.alias := row], clause.on) == True
        && Eval(d, db, env[clause.joinAlias := link][clause.alias := row], clause.where) == True) {
      assert JoinedPair(d, db, env, clause, link, row);
    }
  }

  lemma {:induction false} EvalAllTrue(d: Dialect, db: Database, env: Env, clauses: seq<Clause>)
    ensures EvalAll(d, db, env, clauses) == True <==>
            forall i :: 0 <= i < |clauses| ==> Eval(d, db, env, clauses[i]) == True
  {
    hide Eval;
    if clauses != [] {
      EvalAllTrue(d, db, env, clauses[1..]);
      assert forall i :: 0 < i < |clauses| ==> clauses[i] == clauses[1..][i - 1];
      assert forall i :: 0 <= i < |clauses[1..]| ==> clauses[1..][i] == clauses[i + 1];
    }
  }

  // ---- ORDER BY ----

  datatype OrderTerm =
    | NullFlag(column: Column)                // CASE WHEN column IS NULL THEN 1 ELSE 0 END ASC
    | Sorted(column: Column, desc: bool)

  datatype Ordering = Less | Same | Greater

  function Flip(o: Ordering): Ordering {
    match o
    case Less => Greater
    case Same => Same
    case Greater => Less
  }

  function CompareScalars(d: Dialect, a: Scalar, b: Scalar): Ordering {
    if SameValue(d, a, b) then Same else if Below(d, a, b) then Less else Greater
  }

  /** One ORDER BY term; where a bare NULL sorts depends on the dialect. */
  function OrderTermCompare(d: Dialect, term: OrderTerm, a: Env, b: Env): Ordering {
    var x, y := Read(a, term.column), Read(b, term.column);
    match term
    case NullFlag(_) =>
      if x.None? == y.None? then Same else if y.None? then Less else Greater
    case Sorted(_, desc) =>
      if x.None? && y.None? then Same
      else if x.None? then (if d.nullsFirst then Less else Greater)
      else if y.None? then (if d.nullsFirst then Greater else Less)
      else if desc then Flip(CompareScalars(d, x.value, y.value))
      else CompareScalars(d, x.value, y.value)
  }

  function OrderCompare(d: Dialect, terms: seq<OrderTerm>, a: Env, b: Env): Ordering {
    if terms == [] then Same
    else
      var first := OrderTermCompare(d, terms[0], a, b);
      if first != Same then first else OrderCompare(d, terms[1..], a, b)
  }
}
