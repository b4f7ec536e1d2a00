/** The compiled clause means what the filter means: no NULL, soft-delete, nesting
    or alias case makes the two readings differ. */
module FilterCorrectness {
  import opened Common
  import opened Strings
  import opened Schema
  import opened Aliases
  import opened Validator
  import opened Compiler
  import opened FilterMeaning
  import S = Sql
  import Like
  import Ast

  // ---- comparisons ----

  lemma {:induction false} MemberOfMeaning(w: World, cell: S.Cell, values: seq<S.Scalar>)
    requires values != [] || cell.Some?
    ensures S.MemberOf(w.d, cell, values) == ListMeaning(w, cell, values)
  {
    if values != [] {
      var rest := values[1..];
      if rest != [] || cell.Some? {
        MemberOfMeaning(w, cell, rest);
      }
      assert forall i :: 0 < i < |values| ==> values[i] == rest[i - 1];
      assert forall i :: 0 <= i < |rest| ==> rest[i] == values[i + 1];
    }
  }

  lemma TextClauseMeaning(w: World, op: Ast.CompareOp, cell: S.Cell, value: S.Scalar)
    requires IsTextOp(op) && value.Text? && ValidUtf8(value.text)
    ensures TextMeaning(w, op, cell, value) ==
      if cell.Some? && cell.value.Text? then
        S.Lift(Like.LikeMatch(w.d.same, cell.value.text,
                              Like.LikePattern(value.text, op != Ast.StartsWith, op != Ast.EndsWith)))
      else S.Unknown
  {
    if cell.Some? && cell.value.Text? {
      hide Like.LikeMatch, Like.LikePattern, Like.Contains, Like.StartsWith, Like.EndsWith;
      Like.ValidPatternsExact(w.d.same, cell.value.text, value.text);
    }
  }

  lemma ComparisonMeaning(w: World, field: Field, table: string, expr: Ast.Expr, compared: Validated, clause: S.Clause,
                          env: S.Env)
    requires expr.Comparison? && ScalarComparison(w.convert, field, table, expr) == Ok(compared)
    requires Compile(compared, w.includeDeleted) == Ok(clause) && PatternsValid(compared)
    ensures S.Eval(w.d, w.db, env, clause) == CellMeaning(w, field, S.Read(env, S.Column(table, field.column)), expr)
  {
    var cell := S.Read(env, S.Column(table, field.column));
    if expr.op == Ast.In || expr.op == Ast.NotIn {
      ConvertAllSize(w.convert, field, expr.literals);
      MemberOfMeaning(w, cell, compared.values);
    } else if IsTextOp(expr.op) {
      TextClauseMeaning(w, expr.op, cell, compared.value.value);
    }
  }

  lemma {:induction false} ConvertAllSize(convert: Convert, field: Field, literals: seq<Ast.Literal>)
    requires ConvertAll(convert, field, literals).Some?
    ensures |ConvertAll(convert, field, literals).value| == |literals|
  {
    if literals != [] {
      ConvertAllSize(convert, field, literals[1..]);
    }
  }

  // ---- one relationship step ----

  /** A clause that reads nothing of its surroundings but one table's current row. */
  ghost predicate Speaks(w: World, table: string, clause: S.Clause, model: Model, leaf: Leaf) {
    forall env: S.Env :: table in env ==> S.Eval(w.d, w.db, env, clause) == leaf(model, env[table])
  }

  lemma SoftDeleteMeaning(w: World, storage: Storage, table: string, env: S.Env)
    requires table in env
    ensures S.EvalAll(w.d, w.db, env, if w.includeDeleted then [] else SoftDeleteConditions(storage, table)) == S.True
            <==> Live(w, storage, env[table])
  {
    var conditions := SoftDeleteConditions(storage, table);
    S.EvalAllTrue(w.d, w.db, env, conditions);
    forall i | 0 <= i < |conditions|
      ensures S.Eval(w.d, w.db, env, conditions[i]) == S.True <==> S.CellOf(env[table], storage.softDelete[i]).None?
    {
      assert conditions[i] == S.IsNull(S.Column(table, storage.softDelete[i]));
    }
  }

  lemma DirectConditionsMeaning(w: World, alias: string, parentTable: string, references: seq<Reference>, env: S.Env)
    requires alias in env && parentTable in env
    ensures S.EvalAll(w.d, w.db, env, RelationshipConditions(alias, parentTable, references)) == S.True <==>
            forall i :: 0 <= i < |references| ==> DirectLink(w, references[i], env[parentTable], env[alias])
  {
    var conditions := RelationshipConditions(alias, parentTable, references);
    S.EvalAllTrue(w.d, w.db, env, conditions);
    forall i | 0 <= i < |conditions|
      ensures S.Eval(w.d, w.db, env, conditions[i]) == S.True <==>
        DirectLink(w, references[i], env[parentTable], env[alias])
    {
      assert conditions[i] == DirectCondition(alias, parentTable, references[i]);
    }
  }

  /** The ON and WHERE halves of a join row's key conditions together. */
  lemma {:induction false} JoinConditionsMeaning(w: World, joinAlias: string, alias: string, parentTable: string,
                                                 references: seq<Reference>, env: S.Env)
    requires joinAlias in env && alias in env && parentTable in env
    ensures S.EvalAll(w.d, w.db, env, JoinTargets(joinAlias, alias, references)) == S.True
            && S.EvalAll(w.d, w.db, env, Correlations(joinAlias, parentTable, references)) == S.True <==>
            forall i :: 0 <= i < |references| ==>
              JoinLink(w, references[i], env[parentTable], env[joinAlias], env[alias])
  {
    hide S.Eval, S.EvalAll, JoinTargetOf, CorrelationOf;
    S.EvalAllTrue(w.d, w.db, env, []);
    if references != [] {
      var rest := references[1..];
      JoinConditionsMeaning(w, joinAlias, alias, parentTable, rest, env);
      TargetMeaning(w, joinAlias, alias, references[0], env);
      CorrelationMeaning(w, joinAlias, parentTable, references[0], env);
      S.EvalAllAppend(w.d, w.db, env, JoinTargetOf(joinAlias, alias, references[0]),
                      JoinTargets(joinAlias, alias, rest));
      S.EvalAllAppend(w.d, w.db, env, CorrelationOf(joinAlias, parentTable, references[0]),
                      Correlations(joinAlias, parentTable, rest));
      assert !NamesTarget(references[0]) ==>
        JoinLink(w, references[0], env[parentTable], env[joinAlias], map[])
        == JoinLink(w, references[0], env[parentTable], env[joinAlias], env[alias]);
      assert forall i :: 0 < i < |references| ==> references[i] == rest[i - 1];
      assert forall i :: 0 <= i < |rest| ==> rest[i] == references[i + 1];
    }
  }

  lemma EqualityMeaning(w: World, leftTable: string, leftColumn: string, rightTable: string, rightColumn: string,
                        env: S.Env)
    requires leftTable in env && rightTable in env
    ensures S.Eval(w.d, w.db, env, ColumnEquality(leftTable, leftColumn, rightTable, rightColumn)) == S.True <==>
            KeyEqual(w, S.CellOf(env[leftTable], leftColumn), S.CellOf(env[rightTable], rightColumn))
  {}

  lemma TargetMeaning(w: World, joinAlias: string, alias: string, reference: Reference, env: S.Env)
    requires joinAlias in env && alias in env
    ensures S.EvalAll(w.d, w.db, env, JoinTargetOf(joinAlias, alias, reference)) == S.True <==>
      (NamesTarget(reference) ==>
       KeyEqual(w, S.CellOf(env[joinAlias], reference.foreignKey), S.CellOf(env[alias], reference.primaryKey)))
  {
    if NamesTarget(reference) {
      EqualityMeaning(w, joinAlias, reference.foreignKey, alias, reference.primaryKey, env);
      S.EvalSingle(w.d, w.db, env, ColumnEquality(joinAlias, reference.foreignKey, alias, reference.primaryKey));
    }
  }

  lemma CorrelationMeaning(w: World, joinAlias: string, parentTable: string, reference: Reference, env: S.Env)
    requires joinAlias in env && parentTable in env
    ensures S.EvalAll(w.d, w.db, env, CorrelationOf(joinAlias, parentTable, reference)) == S.True <==>
      (!NamesTarget(reference) ==> JoinLink(w, reference, env[parentTable], env[joinAlias], map[]))
  {
    if reference.primaryValue != "" {
      S.EvalSingle(w.d, w.db, env, Constant(joinAlias, reference));
    } else if reference.ownPrimaryKey {
      EqualityMeaning(w, joinAlias, reference.foreignKey, parentTable, reference.primaryKey, env);
      S.EvalSingle(w.d, w.db, env, ColumnEquality(joinAlias, reference.foreignKey, parentTable, reference.primaryKey));
    }
  }

  lemma {:induction false} JoinTargetsNonEmpty(joinAlias: string, alias: string, references: seq<Reference>)
    ensures JoinTargets(joinAlias, alias, references) != [] <==>
            exists i :: 0 <= i < |references| && NamesTarget(references[i])
  {
    if references != [] {
      var rest := references[1..];
      JoinTargetsNonEmpty(joinAlias, alias, rest);
      assert forall i :: 0 < i < |references| ==> references[i] == rest[i - 1];
      assert forall i :: 0 <= i < |rest| ==> rest[i] == references[i + 1];
    }
  }

  lemma ConditionMeaning(w: World, body: S.Clause, negated: bool, env: S.Env)
    ensures S.Eval(w.d, w.db, env, PredicateExpression(body, negated)) == S.True <==>
            (S.Eval(w.d, w.db, env, body) == S.True) != negated
  {}

  lemma ThreeConditions(w: World, a: seq<S.Clause>, b: seq<S.Clause>, c: S.Clause, env: S.Env)
    ensures S.EvalAll(w.d, w.db, env, a + b + [c]) == S.True <==>
            && S.EvalAll(w.d, w.db, env, a) == S.True && S.EvalAll(w.d, w.db, env, b) == S.True
            && S.Eval(w.d, w.db, env, c) == S.True
  {
    hide S.Eval, S.EvalAll;
    S.EvalAllAppend(w.d, w.db, env, a + b, [c]);
    S.EvalAllAppend(w.d, w.db, env, a, b);
    S.EvalSingle(w.d, w.db, env, c);
  }

  /** The subquery over a direct association has a row exactly when a live related row
      satisfies (or, negated, does not satisfy) the body. */
  lemma DirectExistsMeaning(w: World, association: Association, parentTable: string, alias: string, body: S.Clause,
                            negated: bool, env: S.Env, model: Model, leaf: Leaf)
    requires association.Direct? && parentTable in env && alias != parentTable
    requires Speaks(w, alias, body, model, leaf)
    ensures var where :=
      DirectWhere(association, parentTable, alias, PredicateExpression(body, negated), w.includeDeleted);
      S.Eval(w.d, w.db, env, S.Exists(association.target.table, alias, where)) ==
      S.Lift(exists child ::
               IsRelated(w, association, env[parentTable], child) && (leaf(model, child) == S.True) != negated)
  {
    var keys := RelationshipConditions(alias, parentTable, association.references);
    var live := if w.includeDeleted then [] else SoftDeleteConditions(association.target, alias);
    var condition := PredicateExpression(body, negated);
    forall child | child in S.Rows(w.db, association.target.table)
      ensures S.Eval(w.d, w.db, env[alias := child], S.And(keys + live + [condition])) == S.True <==>
              IsRelated(w, association, env[parentTable], child) && (leaf(model, child) == S.True) != negated
    {
      var inner := env[alias := child];
      DirectConditionsMeaning(w, alias, parentTable, association.references, inner);
      SoftDeleteMeaning(w, association.target, alias, inner);
      ConditionMeaning(w, body, negated, inner);
      ThreeConditions(w, keys, live, condition, inner);
    }
  }

  lemma JoinLiveMeaning(w: World, association: Association, joinAlias: string, alias: string, env: S.Env)
    requires association.ManyToMany? && joinAlias in env && alias in env
    ensures S.EvalAll(w.d, w.db, env,
              if w.includeDeleted then []
              else (SoftDeleteConditions(association.join, joinAlias)
                    + SoftDeleteConditions(association.target, alias))) == S.True
            <==> Live(w, association.join, env[joinAlias]) && Live(w, association.target, env[alias])
  {
    SoftDeleteMeaning(w, association.join, joinAlias, env);
    SoftDeleteMeaning(w, association.target, alias, env);
    S.EvalAllAppend(w.d, w.db, env, SoftDeleteConditions(association.join, joinAlias),
                    SoftDeleteConditions(association.target, alias));
  }

  /** ON and WHERE hold of a join row and a target row exactly when the join row is a
      live tie, the target row is live, and the body is TRUE of it (or, negated, is not). */
  lemma JoinRowMeaning(w: World, association: Association, parentTable: string, alias: string, body: S.Clause,
                       negated: bool, env: S.Env, model: Model, leaf: Leaf, link: S.Row, child: S.Row)
    requires association.ManyToMany? && parentTable in env && alias != parentTable && JoinAlias(alias) != parentTable
    requires Speaks(w, alias, body, model, leaf)
    requires link in S.Rows(w.db, association.join.table) && child in S.Rows(w.db, association.target.table)
    ensures var inner := env[JoinAlias(alias) := link][alias := child];
      S.Eval(w.d, w.db, inner, OnClause(JoinAlias(alias), alias, association.references)) == S.True &&
      S.Eval(w.d, w.db, inner, JoinWhere(association, parentTable, alias, PredicateExpression(body, negated),
                                         w.includeDeleted)) == S.True <==>
      && Live(w, association.target, child) && Ties(w, association, env[parentTable], link, child)
      && (leaf(model, child) == S.True) != negated
  {
    hide S.EvalAll, Live, JoinLink, JoinTargets, Correlations, SoftDeleteConditions, PredicateExpression;
    var joinAlias := JoinAlias(alias);
    assert |joinAlias| > |alias|;
    var references := association.references;
    var inner := env[joinAlias := link][alias := child];
    var keys := Correlations(joinAlias, parentTable, references);
    var live := if w.includeDeleted then []
                else (SoftDeleteConditions(association.join, joinAlias)
                      + SoftDeleteConditions(association.target, alias));
    JoinConditionsMeaning(w, joinAlias, alias, parentTable, references, inner);
    JoinTargetsNonEmpty(joinAlias, alias, references);
    JoinLiveMeaning(w, association, joinAlias, alias, inner);
    ConditionMeaning(w, body, negated, inner);
    ThreeConditions(w, keys, live, PredicateExpression(body, negated), inner);
  }

  lemma JoinExistsMeaning(w: World, association: Association, parentTable: string, alias: string, body: S.Clause,
                          negated: bool, env: S.Env, model: Model, leaf: Leaf)
    requires association.ManyToMany? && parentTable in env && alias != parentTable && JoinAlias(alias) != parentTable
    requires Speaks(w, alias, body, model, leaf)
    ensures var on := OnClause(JoinAlias(alias), alias, association.references);
      var where := JoinWhere(association, parentTable, alias, PredicateExpression(body, negated), w.includeDeleted);
      S.Eval(w.d, w.db, env,
             S.ExistsJoin(association.join.table, JoinAlias(alias), association.target.table, alias, on, where)) ==
      S.Lift(exists child ::
               IsRelated(w, association, env[parentTable], child) && (leaf(model, child) == S.True) != negated)
  {
    var on := OnClause(JoinAlias(alias), alias, association.references);
    var where := JoinWhere(association, parentTable, alias, PredicateExpression(body, negated), w.includeDeleted);
    var clause := S.ExistsJoin(association.join.table, JoinAlias(alias), association.target.table, alias, on, where);
    var parent := env[parentTable];
    hide S.Eval, OnClause, JoinWhere, Live, PredicateExpression, Speaks, JoinAlias;
    S.EvalExistsJoin(w.d, w.db, env, clause);
    forall link, child
      ensures S.JoinedPair(w.d, w.db, env, clause, link, child) <==>
              && child in S.Rows(w.db, association.target.table) && Live(w, association.target, child)
              && Ties(w, association, parent, link, child) && (leaf(model, child) == S.True) != negated
    {
      if link in S.Rows(w.db, association.join.table) && child in S.Rows(w.db, association.target.table) {
        JoinRowMeaning(w, association, parentTable, alias, body, negated, env, model, leaf, link, child);
      }
    }
    if link, child :| S.JoinedPair(w.d, w.db, env, clause, link, child) {
      assert IsRelated(w, association, parent, child);
    }
    if child :| IsRelated(w, association, parent, child) && (leaf(model, child) == S.True) != negated {
      var link :| Ties(w, association, parent, link, child);
      assert S.JoinedPair(w.d, w.db, env, clause, link, child);
    }
  }

  /** One relationship step under a fresh alias: EXISTS is `some`, NOT EXISTS is `every`,
      and neither is ever UNKNOWN. */
  lemma RelatedMeaning(w: World, relationship: Relationship, parentTable: string, alias: string, body: S.Clause,
                       mode: Mode, env: S.Env, leaf: Leaf)
    requires parentTable in env && alias != parentTable && JoinAlias(alias) != parentTable
    requires Speaks(w, alias, body, relationship.target, leaf)
    ensures S.Eval(w.d, w.db, env,
                   RelationshipSql(relationship.association, parentTable, alias, body, mode, w.includeDeleted)) ==
      S.Lift(if mode == AllMode then EveryRelated(w, relationship, env[parentTable], leaf)
             else SomeRelated(w, relationship, env[parentTable], leaf))
  {
    var association, model := relationship.association, relationship.target;
    var negated := mode == AllMode;
    if association.Direct? {
      DirectExistsMeaning(w, association, parentTable, alias, body, negated, env, model, leaf);
    } else {
      JoinExistsMeaning(w, association, parentTable, alias, body, negated, env, model, leaf);
    }
  }

  // ---- fresh aliases ----

  lemma IssuedIsFresh(names: Names, table: string)
    requires table in names.reserved && !IsJoinAlias(table)
    ensures var (alias, issued) := Issue(names);
      && alias != table && JoinAlias(alias) != table && alias != ""
      && alias in issued.reserved && !IsJoinAlias(alias) && names.reserved <= issued.reserved
  {
    var (alias, issued) := Issue(names);
    AliasIsNoJoinAlias(issued.nextAlias);
    assert JoinAlias(alias) == JoinAlias(AliasName(issued.nextAlias));
  }

  lemma {:induction false} WalkStaysFresh(model: Model, table: string, path: seq<string>, lastMany: bool, names: Names)
    requires Walk(model, table, path, lastMany, names).Ok?
    requires table in names.reserved && !IsJoinAlias(table)
    ensures var walked := Walk(model, table, path, lastMany, names).value;
      && walked.table in walked.names.reserved && !IsJoinAlias(walked.table)
      && names.reserved <= walked.names.reserved
    decreases |path|
  {
    if path != [] {
      IssuedIsFresh(names, table);
      var (alias, issued) := Issue(names);
      WalkStaysFresh(model.relationships[path[0]].target, alias, path[1..], lastMany, issued);
    }
  }

  lemma {:induction false} ValidateKeepsNames(w: World, depth: int, scope: Scope, variables: set<string>,
                                              expr: Ast.Expr, names: Names)
    requires Validate(w.convert, depth, scope, variables, expr, names).Ok?
    requires scope.table in names.reserved && !IsJoinAlias(scope.table)
    ensures names.reserved <= Validate(w.convert, depth, scope, variables, expr, names).value.1.reserved
    decreases expr
  {
    match expr
    case Logical(_, left, right) =>
      ValidateKeepsNames(w, depth, scope, variables, left, names);
      ValidateKeepsNames(w, depth, scope, variables, right,
                         Validate(w.convert, depth, scope, variables, left, names).value.1);
    case Not(operand) =>
      ValidateKeepsNames(w, depth, scope, variables, operand, names);
    case Comparison(field, _, _, _) =>
      var segments := ScopedPath(scope, ValidPath(field).value).value;
      WalkStaysFresh(scope.model, scope.table, segments[..|segments| - 1], false, names);
    case Quantifier(relationship, _, variable, body) =>
      var segments := ScopedPath(scope, ValidPath(relationship).value).value;
      WalkStaysFresh(scope.model, scope.table, segments, true, names);
      var walked := Walk(scope.model, scope.table, segments, true, names).value;
      ValidateKeepsNames(w, depth, Scope(walked.model, walked.table, variable, true), variables + {variable}, body,
                         walked.names);
  }

  // ---- paths ----

  /** Wrapped to-one steps read as the path through the object graph. */
  lemma {:induction false} StepsMeaning(w: World, model: Model, table: string, path: seq<string>, names: Names,
                                        inner: Validated, innerClause: S.Clause, clause: S.Clause, leaf: Leaf,
                                        env: S.Env)
    requires Walk(model, table, path, false, names).Ok?
    requires Compile(inner, w.includeDeleted) == Ok(innerClause)
    requires Compile(Wrap(Walk(model, table, path, false, names).value.steps, inner), w.includeDeleted) == Ok(clause)
    requires table in env && table in names.reserved && !IsJoinAlias(table)
    requires if path == [] then S.Eval(w.d, w.db, env, innerClause) == leaf(model, env[table])
             else var walked := Walk(model, table, path, false, names).value;
                  Speaks(w, walked.table, innerClause, walked.model, leaf)
    ensures S.Eval(w.d, w.db, env, clause) == Through(w, model, env[table], path, leaf)
    decreases |path|
  {
    if path != [] {
      var relationship := model.relationships[path[0]];
      var (alias, issued) := Issue(names);
      IssuedIsFresh(names, table);
      var rest := Walk(relationship.target, alias, path[1..], false, issued).value;
      var steps := Walk(model, table, path, false, names).value.steps;
      assert steps[1..] == rest.steps;
      var body := Compile(Wrap(rest.steps, inner), w.includeDeleted).value;
      forall env': S.Env | alias in env'
        ensures S.Eval(w.d, w.db, env', body) == AlongLeaf(w, path[1..], leaf)(relationship.target, env'[alias])
      {
        StepsMeaning(w, relationship.target, alias, path[1..], issued, inner, innerClause, body, leaf, env');
      }
      RelatedMeaning(w, relationship, table, alias, body, ExistsMode, env, AlongLeaf(w, path[1..], leaf));
    }
  }

  /** The last step of a quantifier's walk, apart from the to-one steps before it. */
  lemma {:induction false} WalkSplits(model: Model, table: string, path: seq<string>, names: Names)
    requires path != [] && Walk(model, table, path, true, names).Ok?
    ensures var walked := Walk(model, table, path, true, names).value;
      var before := Walk(model, table, path[..|path| - 1], false, names);
      && before.Ok? && path[|path| - 1] in before.value.model.relationships
      && var relationship := before.value.model.relationships[path[|path| - 1]];
         var (alias, issued) := Issue(before.value.names);
      && walked == Walked(before.value.steps + [Step(relationship, before.value.table, alias)], relationship.target,
                          alias, issued)
    decreases |path|
  {
    var relationship := model.relationships[path[0]];
    var (alias, issued) := Issue(names);
    if |path| > 1 {
      WalkSplits(relationship.target, alias, path[1..], issued);
      assert path[..|path| - 1][1..] == path[1..][..|path[1..]| - 1];
      var rest := Walk(relationship.target, alias, path[1..][..|path[1..]| - 1], false, issued).value;
      var last := Walk(relationship.target, alias, path[1..], true, issued).value.steps[|path| - 2];
      assert [Step(relationship, table, alias)] + (rest.steps + [last]) ==
        ([Step(relationship, table, alias)] + rest.steps) + [last];
    } else {
      assert path[..0] == [] && path[1..] == [];
    }
  }

  lemma PublicNameIsSomething(name: string)
    requires IsPublicName(name)
    ensures name != ""
  {}

  lemma WalkOfNothing(model: Model, table: string, lastMany: bool, names: Names)
    ensures Walk(model, table, [], lastMany, names) == Ok(Walked([], model, table, names))
  {}

  // ---- whole filters ----

  /** The scope the validator is in and the reading of variables agree on the current row. */
  ghost predicate InScope(scope: Scope, names: Names, env: S.Env, root: Binding, vars: map<string, Binding>) {
    && scope.table in env && scope.table in names.reserved && !IsJoinAlias(scope.table)
    && scope.qualifyFields == (scope.variable != "")
    && if scope.variable == "" then
         vars == map[] && root == Binding(scope.model, env[scope.table]) && "" in env && env[""] == env[scope.table]
       else scope.variable in vars && vars[scope.variable] == Binding(scope.model, env[scope.table])
  }

  lemma PathStartsAtScope(scope: Scope, names: Names, env: S.Env, root: Binding, vars: map<string, Binding>,
                          path: string)
    requires InScope(scope, names, env, root, vars) && ValidPath(path).Some?
      && ScopedPath(scope, ValidPath(path).value).Ok?
    ensures PathStart(root, vars, path) ==
            Some((Binding(scope.model, env[scope.table]), ScopedPath(scope, ValidPath(path).value).value))
  {}

  lemma ComparisonFilterMeaning(w: World, depth: int, scope: Scope, expr: Ast.Expr, names: Names, clause: S.Clause,
                                env: S.Env, root: Binding, vars: map<string, Binding>)
    requires expr.Comparison? && PathComparison(w.convert, depth, scope, expr, names).Ok?
    requires Compile(PathComparison(w.convert, depth, scope, expr, names).value.0, w.includeDeleted) == Ok(clause)
    requires PatternsValid(PathComparison(w.convert, depth, scope, expr, names).value.0)
    requires InScope(scope, names, env, root, vars)
    ensures S.Eval(w.d, w.db, env, clause) == Meaning(w, root, vars, expr)
  {
    hide S.Eval, Walk, IsPublicName, Split, CellMeaning, Through, CompareClause, NextFree;
    PathStartsAtScope(scope, names, env, root, vars, expr.field);
    var segments := ScopedPath(scope, ValidPath(expr.field).value).value;
    var path, name := segments[..|segments| - 1], segments[|segments| - 1];
    WalkOfNothing(scope.model, scope.table, false, names);
    var walked := Walk(scope.model, scope.table, path, false, names).value;
    var field := walked.model.fields[name];
    var table := if scope.qualifyFields || walked.steps != [] then walked.table else "";
    var compared := ScalarComparison(w.convert, field, table, expr).value;
    WrapCompiles(walked.steps, compared, w.includeDeleted);
    WrapPatterns(walked.steps, compared);
    var inner := Compile(compared, w.includeDeleted).value;
    var leaf := FieldLeaf(w, name, expr);
    forall env': S.Env | table in env'
      ensures S.Eval(w.d, w.db, env', inner) == leaf(walked.model, env'[table])
    {
      ComparisonMeaning(w, field, table, expr, compared, inner, env');
    }
    StepsMeaning(w, scope.model, scope.table, path, names, compared, inner, clause, leaf, env);
  }

  lemma {:induction false} WrapCompiles(steps: seq<Step>, inner: Validated, includeDeleted: bool)
    requires Compile(Wrap(steps, inner), includeDeleted).Ok?
    ensures Compile(inner, includeDeleted).Ok?
    decreases |steps|
  {
    if steps != [] {
      WrapCompiles(steps[1..], inner, includeDeleted);
    }
  }

  lemma {:induction false} WrapPatterns(steps: seq<Step>, inner: Validated)
    ensures PatternsValid(Wrap(steps, inner)) == PatternsValid(inner)
    decreases |steps|
  {
    if steps != [] {
      WrapPatterns(steps[1..], inner);
    }
  }

  /** The filter, wherever it stands: induction over the source tree. */
  lemma {:induction false} FilterMeans(w: World, depth: int, scope: Scope, variables: set<string>, expr: Ast.Expr,
                                       names: Names,
                                       clause: S.Clause, env: S.Env, root: Binding, vars: map<string, Binding>)
    requires Validate(w.convert, depth, scope, variables, expr, names).Ok?
    requires Compile(Validate(w.convert, depth, scope, variables, expr, names).value.0, w.includeDeleted) == Ok(clause)
    requires PatternsValid(Validate(w.convert, depth, scope, variables, expr, names).value.0)
    requires InScope(scope, names, env, root, vars)
    ensures S.Eval(w.d, w.db, env, clause) == Meaning(w, root, vars, expr)
    decreases expr, 1
  {
    hide S.Eval, PathComparison, QuantifierSteps, PathMeaning, CompareClause, RelationshipSql, IsJoinAlias;
    match expr
    case Logical(op, left, right) =>
      var l := Validate(w.convert, depth, scope, variables, left, names).value;
      var r := Validate(w.convert, depth, scope, variables, right, l.1).value;
      ValidateKeepsNames(w, depth, scope, variables, left, names);
      var a, b := Compile(l.0, w.includeDeleted).value, Compile(r.0, w.includeDeleted).value;
      FilterMeans(w, depth, scope, variables, left, names, a, env, root, vars);
      FilterMeans(w, depth, scope, variables, right, l.1, b, env, root, vars);
      S.EvalPair(w.d, w.db, env, a, b);
    case Not(operand) =>
      var inner := Validate(w.convert, depth, scope, variables, operand, names).value;
      FilterMeans(w, depth, scope, variables, operand, names, Compile(inner.0, w.includeDeleted).value, env, root,
                  vars);
      S.EvalNegation(w.d, w.db, env, Compile(inner.0, w.includeDeleted).value);
    case Comparison(_, _, _, _) =>
      ComparisonFilterMeaning(w, depth, scope, expr, names, clause, env, root, vars);
    case Quantifier(_, _, _, _) =>
      QuantifierMeans(w, depth, scope, variables, expr, names, clause, env, root, vars);
  }

  lemma {:induction false} QuantifierMeans(w: World, depth: int, scope: Scope, variables: set<string>, expr: Ast.Expr,
                                           names: Names,
                                           clause: S.Clause, env: S.Env, root: Binding, vars: map<string, Binding>)
    requires expr.Quantifier? && Validate(w.convert, depth, scope, variables, expr, names).Ok?
    requires Compile(Validate(w.convert, depth, scope, variables, expr, names).value.0, w.includeDeleted) == Ok(clause)
    requires PatternsValid(Validate(w.convert, depth, scope, variables, expr, names).value.0)
    requires InScope(scope, names, env, root, vars)
    ensures S.Eval(w.d, w.db, env, clause) == Meaning(w, root, vars, expr)
    decreases expr, 0
  {
    hide S.Eval, Walk, IsPublicName, Split, Through, CompareClause, NextFree, RelationshipSql, Wrap, IsJoinAlias,
      PathComparison, SomeRelated, EveryRelated;
    PathStartsAtScope(scope, names, env, root, vars, expr.relationship);
    var segments := ScopedPath(scope, ValidPath(expr.relationship).value).value;
    var path, name := segments[..|segments| - 1], segments[|segments| - 1];
    WalkSplits(scope.model, scope.table, segments, names);
    WalkStaysFresh(scope.model, scope.table, path, false, names);
    WalkStaysFresh(scope.model, scope.table, segments, true, names);
    var walked := Walk(scope.model, scope.table, segments, true, names).value;
    var before := Walk(scope.model, scope.table, path, false, names).value;
    var last := walked.steps[|walked.steps| - 1];
    IssuedIsFresh(before.names, before.table);
    var bodyScope := Scope(walked.model, walked.table, expr.variable, true);
    var body := Validate(w.convert, depth, bodyScope, variables + {expr.variable}, expr.body, walked.names).value.0;
    var mode := if expr.quantifier == Ast.All then AllMode else AnyMode;
    var innermost := Related(last.relationship, last.parentTable, last.alias, body, mode);
    assert walked.steps[..|walked.steps| - 1] == before.steps;
    WrapCompiles(before.steps, innermost, w.includeDeleted);
    WrapPatterns(before.steps, innermost);
    var bodyClause := Compile(body, w.includeDeleted).value;
    var innerClause := Compile(innermost, w.includeDeleted).value;
    var each := BodyLeaf(w, root, vars, expr.variable, expr.body);
    PublicNameIsSomething(expr.variable);
    forall env': S.Env | last.alias in env'
      ensures S.Eval(w.d, w.db, env', bodyClause) == each(walked.model, env'[last.alias])
    {
      var inner := vars[expr.variable := Binding(walked.model, env'[last.alias])];
      FilterMeans(w, depth, bodyScope, variables + {expr.variable}, expr.body, walked.names, bodyClause, env', root,
                  inner);
    }
    assert Speaks(w, last.alias, bodyClause, walked.model, each);
    assert last == Step(last.relationship, before.table, last.alias) && walked.model == last.relationship.target;
    assert last.relationship == before.model.relationships[name];
    assert last.alias != before.table && JoinAlias(last.alias) != before.table;
    WalkOfNothing(scope.model, scope.table, false, names);
    LastStepSpeaks(w, last.relationship, before.table, last.alias, bodyClause, mode, before.model, name,
                   expr.quantifier, each);
    StepsMeaning(w, scope.model, scope.table, path, names, innermost, innerClause, clause,
                 QuantifierLeaf(w, name, expr.quantifier, each), env);
  }

  lemma LastStepSpeaks(w: World, relationship: Relationship, table: string, alias: string, body: S.Clause, mode: Mode,
                       model: Model, name: string, quantifier: Ast.QuantifierOp, each: Leaf)
    requires alias != table && JoinAlias(alias) != table
    requires name in model.relationships && relationship == model.relationships[name]
    requires mode == if quantifier == Ast.All then AllMode else AnyMode
    requires Speaks(w, alias, body, relationship.target, each)
    ensures Speaks(w, table, RelationshipSql(relationship.association, table, alias, body, mode, w.includeDeleted),
                   model, QuantifierLeaf(w, name, quantifier, each))
  {
    hide S.Eval, RelationshipSql;
    forall env: S.Env | table in env
      ensures S.Eval(w.d, w.db, env,
                     RelationshipSql(relationship.association, table, alias, body, mode, w.includeDeleted))
              == QuantifierLeaf(w, name, quantifier, each)(model, env[table])
    {
      RelatedMeaning(w, relationship, table, alias, body, mode, env, each);
    }
  }

  /** For every schema, accepted filter, database and root row: the clause tree,
      evaluated with the root table bound to that row, has the truth value the filter
      has on the object graph. The root table must not be named like a join alias, and
      the values LIKE patterns are made of must be valid UTF-8. */
  lemma CompiledFilterMeansSource(w: World, depth: int, model: Model, expr: Ast.Expr, clause: S.Clause, env: S.Env)
    requires ValidateFilter(w.convert, depth, model, expr).Ok?
    requires Compile(ValidateFilter(w.convert, depth, model, expr).value.0, w.includeDeleted) == Ok(clause)
    requires PatternsValid(ValidateFilter(w.convert, depth, model, expr).value.0)
    requires model.table in env && "" in env && env[""] == env[model.table]
    requires !IsJoinAlias(model.table)
    ensures S.Eval(w.d, w.db, env, clause) == Meaning(w, Binding(model, env[model.table]), map[], expr)
  {
    FilterMeans(w, depth, RootScope(model), {}, expr, Names(0, StorageNames(model)), clause, env,
                Binding(model, env[model.table]), map[]);
  }

  // WHERE over the rows of a table, in their order and multiplicity.
  ghost function Keep(rows: seq<S.Row>, keeps: S.Row -> bool): seq<S.Row> {
    if rows == [] then [] else (if keeps(rows[0]) then [rows[0]] else []) + Keep(rows[1..], keeps)
  }

  ghost function ClauseKeeps(w: World, table: string, clause: S.Clause): S.Row -> bool {
    row => S.Eval(w.d, w.db, map[table := row, "" := row], clause) == S.True
  }

  ghost function FilterKeeps(w: World, model: Model, expr: Ast.Expr): S.Row -> bool {
    row => Meaning(w, Binding(model, row), map[], expr) == S.True
  }

  lemma {:induction false} KeepSame(rows: seq<S.Row>, a: S.Row -> bool, b: S.Row -> bool)
    requires forall row :: a(row) == b(row)
    ensures Keep(rows, a) == Keep(rows, b)
  {
    if rows != [] {
      KeepSame(rows[1..], a, b);
    }
  }

  /** In particular the rows a filter selects are the root rows it is TRUE of, each as often
      as the table holds it: relationships never multiply roots, and they lose none. */
  lemma SelectsExactlyTheMatchingRoots(w: World, depth: int, model: Model, expr: Ast.Expr, clause: S.Clause,
                                       rows: seq<S.Row>)
    requires ValidateFilter(w.convert, depth, model, expr).Ok?
    requires Compile(ValidateFilter(w.convert, depth, model, expr).value.0, w.includeDeleted) == Ok(clause)
    requires PatternsValid(ValidateFilter(w.convert, depth, model, expr).value.0)
    requires !IsJoinAlias(model.table)
    ensures Keep(rows, ClauseKeeps(w, model.table, clause)) == Keep(rows, FilterKeeps(w, model, expr))
  {
    hide S.Eval, Meaning, ValidateFilter, Compile, IsJoinAlias, PatternsValid;
    forall row: S.Row
      ensures ClauseKeeps(w, model.table, clause)(row) == FilterKeeps(w, model, expr)(row)
    {
      CompiledFilterMeansSource(w, depth, model, expr, clause, map[model.table := row, "" := row]);
    }
    KeepSame(rows, ClauseKeeps(w, model.table, clause), FilterKeeps(w, model, expr));
  }

  // ---- the condition on patterns is exact ----

  ghost function PatternTruth(w: World, op: Ast.CompareOp, cell: S.Cell, value: string): S.Truth {
    if cell.Some? && cell.value.Text?
    then S.Lift(Like.LikeMatch(w.d.same, cell.value.text,
                               Like.LikePattern(value, op != Ast.StartsWith, op != Ast.EndsWith)))
    else S.Unknown
  }

  /** A text comparison is compiled faithfully for every cell if and only if its value is
      valid UTF-8, provided the collation lets a character match itself. */
  lemma TextComparisonExactly(w: World, op: Ast.CompareOp, value: string)
    requires IsTextOp(op) && Like.Reflexive(w.d.same)
    ensures (forall cell: S.Cell :: PatternTruth(w, op, cell, value) == TextMeaning(w, op, cell, S.Text(value))) <==>
      ValidUtf8(value)
  {
    hide Like.LikeMatch, Like.LikePattern, Like.Contains, Like.StartsWith, Like.EndsWith;
    if ValidUtf8(value) {
      forall cell: S.Cell ensures PatternTruth(w, op, cell, value) == TextMeaning(w, op, cell, S.Text(value)) {
        TextClauseMeaning(w, op, cell, S.Text(value));
      }
    } else {
      Like.InvalidPatternMissesItself(w.d.same, value);
      var cell := Some(S.Text(value));
      assert PatternTruth(w, op, cell, value) == S.False && TextMeaning(w, op, cell, S.Text(value)) == S.True;
    }
  }

  // ---- what a validated filter needs to compile ----

  ghost predicate FieldOperatorsKnown(f: Field) {
    forall op :: op in f.operators ==> op != Ast.OtherCompare && (IsTextOp(op) ==> f.kind == String)
  }

  // A bound schema: known operators only, and text operators only on string fields.
  ghost predicate BoundOperators(model: Model) {
    && (forall f :: f in model.fields ==> FieldOperatorsKnown(model.fields[f]))
    && forall r :: r in model.relationships ==> BoundOperators(model.relationships[r].target)
  }

  // convertLiteral answers a string field's literal with the text it decodes to.
  ghost predicate StringsConvertToText(convert: Convert) {
    forall field: Field, literal: Ast.Literal :: field.kind == String && convert(field, literal).Some? ==>
      literal.kind == Ast.StringLiteral && literal.value.StringValue?
        && convert(field, literal) == Some(S.Text(literal.value.text))
  }

  lemma {:induction false} WalkStaysBound(model: Model, table: string, path: seq<string>, lastMany: bool, names: Names)
    requires BoundOperators(model) && Walk(model, table, path, lastMany, names).Ok?
    ensures BoundOperators(Walk(model, table, path, lastMany, names).value.model)
    decreases |path|
  {
    hide NextFree;
    if path != [] {
      var (alias, issued) := Issue(names);
      WalkStaysBound(model.relationships[path[0]].target, alias, path[1..], lastMany, issued);
    }
  }

  lemma {:induction false} WrapCompilesToo(steps: seq<Step>, inner: Validated, includeDeleted: bool)
    requires Compile(inner, includeDeleted).Ok?
    ensures Compile(Wrap(steps, inner), includeDeleted).Ok?
    decreases |steps|
  {
    hide RelationshipSql, CompareClause;
    if steps != [] {
      WrapCompilesToo(steps[1..], inner, includeDeleted);
    }
  }

  lemma ScalarCompiles(convert: Convert, model: Model, name: string, table: string, expr: Ast.Expr,
                       includeDeleted: bool)
    requires BoundOperators(model) && StringsConvertToText(convert) && name in model.fields && expr.Comparison?
    requires ScalarComparison(convert, model.fields[name], table, expr).Ok?
    ensures Compile(ScalarComparison(convert, model.fields[name], table, expr).value, includeDeleted).Ok?
  {
    assert expr.op in model.fields[name].operators;
  }

  /** Over a bound schema the compiler accepts every filter the validator accepts. */
  lemma {:induction false} ValidatedFiltersCompile(convert: Convert, depth: int, scope: Scope, variables: set<string>,
                                                   expr: Ast.Expr, names: Names, includeDeleted: bool)
    requires BoundOperators(scope.model) && StringsConvertToText(convert)
    requires Validate(convert, depth, scope, variables, expr, names).Ok?
    ensures Compile(Validate(convert, depth, scope, variables, expr, names).value.0, includeDeleted).Ok?
    decreases expr
  {
    hide Walk, ScalarComparison, NextFree, RelationshipSql, CompareClause, BoundOperators, StringsConvertToText;
    match expr
    case Logical(_, left, right) =>
      ValidatedFiltersCompile(convert, depth, scope, variables, left, names, includeDeleted);
      var l := Validate(convert, depth, scope, variables, left, names).value;
      ValidatedFiltersCompile(convert, depth, scope, variables, right, l.1, includeDeleted);
    case Not(operand) =>
      ValidatedFiltersCompile(convert, depth, scope, variables, operand, names, includeDeleted);
    case Comparison(field, _, _, _) =>
      var segments := ScopedPath(scope, ValidPath(field).value).value;
      var path, name := segments[..|segments| - 1], segments[|segments| - 1];
      WalkStaysBound(scope.model, scope.table, path, false, names);
      var walked := Walk(scope.model, scope.table, path, false, names).value;
      var table := if scope.qualifyFields || walked.steps != [] then walked.table else "";
      ScalarCompiles(convert, walked.model, name, table, expr, includeDeleted);
      WrapCompilesToo(walked.steps, ScalarComparison(convert, walked.model.fields[name], table, expr).value,
                      includeDeleted);
    case Quantifier(relationship, quantifier, variable, body) =>
      var segments := ScopedPath(scope, ValidPath(relationship).value).value;
      WalkStaysBound(scope.model, scope.table, segments, true, names);
      var walked := Walk(scope.model, scope.table, segments, true, names).value;
      var inner := Scope(walked.model, walked.table, variable, true);
      ValidatedFiltersCompile(convert, depth, inner, variables + {variable}, body, walked.names, includeDeleted);
      var checked := Validate(convert, depth, inner, variables + {variable}, body, walked.names).value.0;
      var last: Step := walked.steps[|walked.steps| - 1];
      var mode := if quantifier == Ast.All then AllMode else AnyMode;
      WrapCompilesToo(walked.steps[..|walked.steps| - 1],
                      Related(last.relationship, last.parentTable, last.alias, checked, mode), includeDeleted);
  }
}
