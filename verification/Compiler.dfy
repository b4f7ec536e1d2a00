/** gorm_compiler.go: validated filters as clause trees. Relationship steps become
    correlated EXISTS subqueries, `all` a NOT EXISTS over rows not known to comply. */
module Compiler {
  import opened Common
  import opened Strings
  import opened Schema
  import opened Aliases
  import opened Validator
  import S = Sql
  import Like
  import Ast

  function ColumnEquality(leftTable: string, leftColumn: string, rightTable: string, rightColumn: string): S.Clause {
    S.ColumnsEqual(S.Column(leftTable, leftColumn), S.Column(rightTable, rightColumn))
  }

  function SoftDeleteConditions(storage: Storage, table: string): seq<S.Clause> {
    seq(|storage.softDelete|, i requires 0 <= i < |storage.softDelete| =>
        S.IsNull(S.Column(table, storage.softDelete[i])))
  }

  function Constant(table: string, reference: Reference): S.Clause {
    S.Compare(S.EqTo, S.Column(table, reference.foreignKey), S.Text(reference.primaryValue))
  }

  // relationshipConditions, one reference at a time
  function DirectCondition(alias: string, parentTable: string, reference: Reference): S.Clause {
    if reference.primaryValue != "" then Constant(alias, reference)
    else if reference.ownPrimaryKey then ColumnEquality(alias, reference.foreignKey, parentTable, reference.primaryKey)
    else ColumnEquality(alias, reference.primaryKey, parentTable, reference.foreignKey)
  }

  function RelationshipConditions(alias: string, parentTable: string, references: seq<Reference>): seq<S.Clause> {
    seq(|references|, i requires 0 <= i < |references| => DirectCondition(alias, parentTable, references[i]))
  }

  function JoinTargetOf(joinAlias: string, alias: string, reference: Reference): seq<S.Clause> {
    if reference.primaryValue != "" || reference.ownPrimaryKey then []
    else [ColumnEquality(joinAlias, reference.foreignKey, alias, reference.primaryKey)]
  }

  function CorrelationOf(joinAlias: string, parentTable: string, reference: Reference): seq<S.Clause> {
    if reference.primaryValue != "" then [Constant(joinAlias, reference)]
    else if reference.ownPrimaryKey
    then [ColumnEquality(joinAlias, reference.foreignKey, parentTable, reference.primaryKey)]
    else []
  }

  function JoinTargets(joinAlias: string, alias: string, references: seq<Reference>): seq<S.Clause> {
    if references == [] then []
    else JoinTargetOf(joinAlias, alias, references[0]) + JoinTargets(joinAlias, alias, references[1..])
  }

  function Correlations(joinAlias: string, parentTable: string, references: seq<Reference>): seq<S.Clause> {
    if references == [] then []
    else CorrelationOf(joinAlias, parentTable, references[0]) + Correlations(joinAlias, parentTable, references[1..])
  }

  function PredicateExpression(body: S.Clause, negate: bool): S.Clause {
    if negate then S.NotTrue(body) else body
  }

  function OnClause(joinAlias: string, alias: string, references: seq<Reference>): S.Clause {
    var targets := JoinTargets(joinAlias, alias, references);
    if targets == [] then S.Never else S.And(targets)
  }

  function DirectWhere(association: Association, parentTable: string, alias: string, condition: S.Clause,
                       includeDeleted: bool): S.Clause {
    S.And(RelationshipConditions(alias, parentTable, association.references)
          + (if includeDeleted then [] else SoftDeleteConditions(association.target, alias))
          + [condition])
  }

  function JoinWhere(association: Association, parentTable: string, alias: string, condition: S.Clause,
                     includeDeleted: bool): S.Clause
    requires association.ManyToMany?
  {
    S.And(Correlations(JoinAlias(alias), parentTable, association.references)
          + (if includeDeleted then []
             else (SoftDeleteConditions(association.join, JoinAlias(alias))
                   + SoftDeleteConditions(association.target, alias)))
          + [condition])
  }

  // relationshipSQL.Build and buildManyToMany
  function RelationshipSql(association: Association, parentTable: string, alias: string, body: S.Clause,
                           mode: Mode, includeDeleted: bool): S.Clause {
    var negated := mode == AllMode;
    var condition := PredicateExpression(body, negated);
    var subquery :=
      if association.Direct? then
        S.Exists(association.target.table, alias,
                 DirectWhere(association, parentTable, alias, condition, includeDeleted))
      else
        S.ExistsJoin(association.join.table, JoinAlias(alias), association.target.table, alias,
                     OnClause(JoinAlias(alias), alias, association.references),
                     JoinWhere(association, parentTable, alias, condition, includeDeleted));
    if negated then S.Not(subquery) else subquery
  }

  lemma {:induction false} JoinTargetsAppend(joinAlias: string, alias: string, a: seq<Reference>, reference: Reference)
    ensures JoinTargets(joinAlias, alias, a + [reference]) ==
      JoinTargets(joinAlias, alias, a) + JoinTargetOf(joinAlias, alias, reference)
  {
    hide JoinTargetOf;
    if a == [] {
      assert a + [reference] == [reference];
      assert [reference][1..] == [];
    } else {
      JoinTargetsAppend(joinAlias, alias, a[1..], reference);
      assert (a + [reference])[1..] == a[1..] + [reference];
    }
  }

  lemma {:induction false} CorrelationsAppend(joinAlias: string, parentTable: string, a: seq<Reference>,
                                              reference: Reference)
    ensures Correlations(joinAlias, parentTable, a + [reference]) ==
            Correlations(joinAlias, parentTable, a) + CorrelationOf(joinAlias, parentTable, reference)
  {
    hide CorrelationOf;
    if a == [] {
      assert a + [reference] == [reference];
      assert [reference][1..] == [];
    } else {
      CorrelationsAppend(joinAlias, parentTable, a[1..], reference);
      assert (a + [reference])[1..] == a[1..] + [reference];
    }
  }

  /** buildManyToMany's loop over the references: join keys and correlations. */
  method BuildJoinParts(joinAlias: string, alias: string, parentTable: string, references: seq<Reference>)
    returns (joinTarget: seq<S.Clause>, correlations: seq<S.Clause>)
    ensures joinTarget == JoinTargets(joinAlias, alias, references)
    ensures correlations == Correlations(joinAlias, parentTable, references)
  {
    joinTarget, correlations := [], [];
    for index := 0 to |references|
      invariant joinTarget == JoinTargets(joinAlias, alias, references[..index])
      invariant correlations == Correlations(joinAlias, parentTable, references[..index])
    {
      var reference := references[index];
      JoinTargetsAppend(joinAlias, alias, references[..index], reference);
      CorrelationsAppend(joinAlias, parentTable, references[..index], reference);
      assert references[..index + 1] == references[..index] + [reference];
      if reference.primaryValue != "" {
        correlations := correlations + [Constant(joinAlias, reference)];
        continue;
      }
      if reference.ownPrimaryKey {
        correlations :=
          correlations + [ColumnEquality(joinAlias, reference.foreignKey, parentTable, reference.primaryKey)];
      } else {
        joinTarget := joinTarget + [ColumnEquality(joinAlias, reference.foreignKey, alias, reference.primaryKey)];
      }
    }
    assert references[..|references|] == references;
  }

  method BuildRelationshipConditions(alias: string, parentTable: string, references: seq<Reference>)
    returns (conditions: seq<S.Clause>)
    ensures conditions == RelationshipConditions(alias, parentTable, references)
  {
    conditions := [];
    for index := 0 to |references|
      invariant conditions == RelationshipConditions(alias, parentTable, references)[..index]
    {
      var reference := references[index];
      if reference.primaryValue != "" {
        conditions := conditions + [Constant(alias, reference)];
        continue;
      }
      if reference.ownPrimaryKey {
        conditions := conditions + [ColumnEquality(alias, reference.foreignKey, parentTable, reference.primaryKey)];
      } else {
        conditions := conditions + [ColumnEquality(alias, reference.primaryKey, parentTable, reference.foreignKey)];
      }
    }
  }

  /** relationshipSQL.Build: the subquery assembled piece by piece. */
  method BuildRelationshipSql(association: Association, parentTable: string, alias: string, body: S.Clause,
                              mode: Mode, includeDeleted: bool) returns (clause: S.Clause)
    ensures clause == RelationshipSql(association, parentTable, alias, body, mode, includeDeleted)
  {
    var negated := mode == AllMode;
    if association.Direct? {
      var conditions := BuildRelationshipConditions(alias, parentTable, association.references);
      if !includeDeleted {
        conditions := conditions + SoftDeleteConditions(association.target, alias);
      }
      conditions := conditions + [PredicateExpression(body, negated)];
      ghost var keys := RelationshipConditions(alias, parentTable, association.references);
      assert keys + [] == keys;
      clause := S.Exists(association.target.table, alias, S.And(conditions));
    } else {
      var joinAlias := JoinAlias(alias);
      var joinTarget, correlations := BuildJoinParts(joinAlias, alias, parentTable, association.references);
      var on := if |joinTarget| == 0 then S.Never else S.And(joinTarget);
      ghost var keys := correlations;
      if !includeDeleted {
        correlations := correlations + SoftDeleteConditions(association.join, joinAlias);
        correlations := correlations + SoftDeleteConditions(association.target, alias);
        assert correlations ==
          keys + (SoftDeleteConditions(association.join, joinAlias) + SoftDeleteConditions(association.target, alias));
      }
      correlations := correlations + [PredicateExpression(body, negated)];
      assert keys + [] == keys;
      clause := S.ExistsJoin(association.join.table, joinAlias, association.target.table, alias, on,
                             S.And(correlations));
    }
    if negated {
      clause := S.Not(clause);
    }
  }

  function RelationOf(op: Ast.CompareOp): Option<S.Relation> {
    match op
    case Eq => Some(S.EqTo)
    case Ne => Some(S.NeqTo)
    case Gt => Some(S.GtThan)
    case Gte => Some(S.GteThan)
    case Lt => Some(S.LtThan)
    case Lte => Some(S.LteThan)
    case _ => None
  }

  predicate IsTextOp(op: Ast.CompareOp) { op == Ast.Contains || op == Ast.StartsWith || op == Ast.EndsWith }

  /** What the text operators need to be exact: every value a LIKE pattern is made of is
      valid UTF-8. The loop that escapes it replaces malformed bytes. */
  predicate PatternsValid(expr: Validated) {
    match expr
    case Joined(_, left, right) => PatternsValid(left) && PatternsValid(right)
    case Negated(operand) => PatternsValid(operand)
    case Compared(_, _, op, value, _) => IsTextOp(op) && value.Some? && value.value.Text? ==>
      ValidUtf8(value.value.text)
    case Related(_, _, _, body, _) => PatternsValid(body)
  }

  function CompareClause(field: Field, table: string, op: Ast.CompareOp, value: Option<S.Scalar>,
                         values: seq<S.Scalar>): Result<S.Clause> {
    var column := S.Column(table, field.column);
    var relation := RelationOf(op);
    if op == Ast.In then Ok(S.InList(column, values))
    else if op == Ast.NotIn then Ok(S.Not(S.InList(column, values)))
    else if op == Ast.IsNull then Ok(S.IsNull(column))
    else if op == Ast.IsNotNull then Ok(S.IsNotNull(column))
    else if value.None? then Err(InvalidSchema)
    else if relation.Some? then Ok(S.Compare(relation.value, column, value.value))
    else if IsTextOp(op) && value.value.Text? then
      Ok(S.LikePattern(column, Like.LikePattern(value.value.text, op != Ast.StartsWith, op != Ast.EndsWith)))
    else Err(InvalidSchema)
  }

  function Compile(expr: Validated, includeDeleted: bool): Result<S.Clause> {
    match expr
    case Joined(op, left, right) =>
      var l :- Compile(left, includeDeleted);
      var r :- Compile(right, includeDeleted);
      (match op
       case And => Ok(S.And([l, r]))
       case Or => Ok(S.Or([l, r]))
       case OtherLogical => Err(InvalidSchema))
    case Negated(operand) =>
      var inner :- Compile(operand, includeDeleted);
      Ok(S.Not(inner))
    case Compared(field, table, op, value, values) => CompareClause(field, table, op, value, values)
    case Related(relationship, parentTable, alias, body, mode) =>
      var inner :- Compile(body, includeDeleted);
      Ok(RelationshipSql(relationship.association, parentTable, alias, inner, mode, includeDeleted))
  }
}
