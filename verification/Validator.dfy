/** validator.go: public paths and quantifier variables resolved against the bound
    schema, every relationship step under a fresh alias. */
module Validator {
  import opened Common
  import opened Strings
  import opened Schema
  import opened Aliases
  import opened Sql
  import Ast

  // mode of a validatedRelationship
  datatype Mode = ExistsMode | AnyMode | AllMode

  datatype Validated =
    | Joined(logical: Ast.LogicalOp, left: Validated, right: Validated)
    | Negated(operand: Validated)
    | Compared(field: Field, table: string, op: Ast.CompareOp, value: Option<Scalar>, values: seq<Scalar>)
    | Related(relationship: Relationship, parentTable: string, alias: string, body: Validated, mode: Mode)

  // Literal conversion, custom codecs included, is caller and library code.
  type Convert = (Field, Ast.Literal) -> Option<Scalar>

  datatype Scope = Scope(model: Model, table: string, variable: string, qualifyFields: bool)

  // The part of expressionValidation that validation changes for good.
  datatype Names = Names(nextAlias: nat, reserved: set<string>)

  datatype Step = Step(relationship: Relationship, parentTable: string, alias: string)

  datatype Walked = Walked(steps: seq<Step>, model: Model, table: string, names: Names)

  // ---- specification ----

  function Issue(names: Names): (string, Names) {
    var n := NextFree(names.nextAlias, names.reserved);
    (AliasName(n), Names(n, names.reserved + {AliasName(n)}))
  }

  function ScopedPath(scope: Scope, segments: seq<string>): Result<seq<string>> {
    if scope.variable == "" then Ok(segments)
    else if segments == [] || segments[0] != scope.variable then Err(InvalidRelationship)
    else Ok(segments[1..])
  }

  /** Follows relationship names from a table; all are to-one, except that the last
      must be to-many when a quantifier asks for it. */
  function Walk(model: Model, table: string, path: seq<string>, lastMany: bool, names: Names): (walked: Result<Walked>)
    ensures walked.Ok? ==> |walked.value.steps| == |path|
    decreases |path|
  {
    if path == [] then Ok(Walked([], model, table, names))
    else if path[0] !in model.relationships then Err(InvalidRelationship)
    else
      var relationship := model.relationships[path[0]];
      var expected := if lastMany && |path| == 1 then Many else One;
      if relationship.cardinality != expected then Err(InvalidRelationship)
      else
        var (alias, issued) := Issue(names);
        var rest :- Walk(relationship.target, alias, path[1..], lastMany, issued);
        Ok(rest.(steps := [Step(relationship, table, alias)] + rest.steps))
  }

  function Wrap(steps: seq<Step>, inner: Validated): Validated {
    if steps == [] then inner
    else Related(steps[0].relationship, steps[0].parentTable, steps[0].alias, Wrap(steps[1..], inner), ExistsMode)
  }

  predicate LiteralPresent(literal: Ast.Literal) { literal != Ast.NO_LITERAL }

  function ConvertAll(convert: Convert, field: Field, literals: seq<Ast.Literal>): Option<seq<Scalar>> {
    if literals == [] then Some([])
    else
      match (convert(field, literals[0]), ConvertAll(convert, field, literals[1..]))
      case (Some(value), Some(rest)) => Some([value] + rest)
      case _ => None
  }

  function ScalarComparison(convert: Convert, field: Field, table: string, expr: Ast.Expr): Result<Validated>
    requires expr.Comparison?
  {
    if !field.filterable then Err(NotFilterable)
    else if expr.op !in field.operators then Err(OperatorNotAllowed)
    else if expr.op == Ast.IsNull || expr.op == Ast.IsNotNull then
      if LiteralPresent(expr.literal) || expr.literals != [] then Err(InvalidSyntax)
      else Ok(Compared(field, table, expr.op, None, []))
    else if expr.op == Ast.In || expr.op == Ast.NotIn then
      if LiteralPresent(expr.literal) || expr.literals == [] then Err(InvalidSyntax)
      else
        match ConvertAll(convert, field, expr.literals)
        case None => Err(InvalidLiteral)
        case Some(values) => Ok(Compared(field, table, expr.op, None, values))
    else if expr.literals != [] then Err(InvalidSyntax)
    else
      match convert(field, expr.literal)
      case None => Err(InvalidLiteral)
      case Some(value) => Ok(Compared(field, table, expr.op, Some(value), []))
  }

  function PathComparison(convert: Convert, maxPathDepth: int, scope: Scope, expr: Ast.Expr,
                          names: Names): Result<(Validated, Names)>
    requires expr.Comparison?
  {
    var path := ValidPath(expr.field);
    if path.None? then Err(InvalidSyntax)
    else
      var segments :- ScopedPath(scope, path.value);
      if |segments| > maxPathDepth then Err(LimitExceeded)
      else if |segments| == 0 then Err(InvalidSyntax)
      else
        var walked :- Walk(scope.model, scope.table, segments[..|segments| - 1], false, names);
        var name := segments[|segments| - 1];
        if name !in walked.model.fields then Err(UnknownField)
        else
          var table := if scope.qualifyFields || walked.steps != [] then walked.table else "";
          var compared :- ScalarComparison(convert, walked.model.fields[name], table, expr);
          Ok((Wrap(walked.steps, compared), walked.names))
  }

  // The checks of validateQuantifier before its body is visited.
  function QuantifierSteps(maxPathDepth: int, scope: Scope, variables: set<string>, expr: Ast.Expr,
                           names: Names): (walked: Result<Walked>)
    requires expr.Quantifier?
    ensures walked.Ok? ==> walked.value.steps != []
  {
    if expr.quantifier != Ast.Any && expr.quantifier != Ast.All then Err(InvalidSyntax)
    else if !IsPublicName(expr.variable) then Err(InvalidSyntax)
    else if expr.variable in variables then Err(InvalidRelationship)
    else
      var path := ValidPath(expr.relationship);
      if path.None? then Err(InvalidSyntax)
      else
        var segments :- ScopedPath(scope, path.value);
        if |segments| == 0 || |segments| > maxPathDepth then Err(LimitExceeded)
        else Walk(scope.model, scope.table, segments, true, names)
  }

  function WrapQuantifier(steps: seq<Step>, quantifier: Ast.QuantifierOp, body: Validated): Validated
    requires steps != []
  {
    var last := steps[|steps| - 1];
    var mode := if quantifier == Ast.All then AllMode else AnyMode;
    Wrap(steps[..|steps| - 1], Related(last.relationship, last.parentTable, last.alias, body, mode))
  }

  function Validate(convert: Convert, maxPathDepth: int, scope: Scope, variables: set<string>, expr: Ast.Expr,
                    names: Names)
    : Result<(Validated, Names)>
    decreases expr
  {
    match expr
    case Logical(op, left, right) =>
      if op != Ast.And && op != Ast.Or then Err(InvalidSyntax)
      else
        var l :- Validate(convert, maxPathDepth, scope, variables, left, names);
        var r :- Validate(convert, maxPathDepth, scope, variables, right, l.1);
        Ok((Joined(op, l.0, r.0), r.1))
    case Not(operand) =>
      var inner :- Validate(convert, maxPathDepth, scope, variables, operand, names);
      Ok((Negated(inner.0), inner.1))
    case Comparison(_, _, _, _) => PathComparison(convert, maxPathDepth, scope, expr, names)
    case Quantifier(_, quantifier, variable, body) =>
      var walked :- QuantifierSteps(maxPathDepth, scope, variables, expr, names);
      var inner :- Validate(convert, maxPathDepth, Scope(walked.model, walked.table, variable, true),
                            variables + {variable}, body, walked.names);
      Ok((WrapQuantifier(walked.steps, quantifier, inner.0), inner.1))
  }

  function RootScope(model: Model): Scope { Scope(model, model.table, "", false) }

  ghost function ValidateFilter(convert: Convert, maxPathDepth: int, model: Model,
                                expr: Ast.Expr): Result<(Validated, Names)> {
    Validate(convert, maxPathDepth, RootScope(model), {}, expr, Names(0, StorageNames(model)))
  }

  // ---- expressionValidation ----

  class ExpressionValidation {
    const convert: Convert
    const maxPathDepth: int
    var nextAlias: nat
    var variables: set<string>
    var reserved: set<string>

    constructor (convert: Convert, maxPathDepth: int, reserved: set<string>)
      ensures this.convert == convert && this.maxPathDepth == maxPathDepth
      ensures nextAlias == 0 && variables == {} && this.reserved == reserved
    {
      this.convert, this.maxPathDepth := convert, maxPathDepth;
      nextAlias, variables, this.reserved := 0, {}, reserved;
    }

    function CurrentNames(): Names
      reads this
    {
      Names(nextAlias, reserved)
    }

    method Alias() returns (candidate: string)
      modifies this`nextAlias, this`reserved
      ensures (candidate, CurrentNames()) == Issue(old(CurrentNames()))
    {
      while true
        invariant reserved == old(reserved)
        invariant NextFree(nextAlias, reserved) == NextFree(old(nextAlias), reserved)
        decreases Obstacles(nextAlias, reserved)
      {
        nextAlias := nextAlias + 1;
        candidate := AliasName(nextAlias);
        if candidate in reserved {
          ObstacleCleared(nextAlias - 1, reserved);
          continue;
        }
        reserved := reserved + {candidate};
        return;
      }
    }

    method WalkPath(scope: Scope, path: seq<string>, lastMany: bool)
      returns (result: Result<(seq<Step>, Model, string)>)
      modifies this`nextAlias, this`reserved
      ensures var spec := Walk(scope.model, scope.table, path, lastMany, old(CurrentNames()));
        if spec.Ok? then
          result == Ok((spec.value.steps, spec.value.model, spec.value.table)) && CurrentNames() == spec.value.names
        else result == Err(spec.code)
    {
      var current, parentTable := scope.model, scope.table;
      var steps: seq<Step> := [];
      ghost var spec := Walk(scope.model, scope.table, path, lastMany, CurrentNames());
      assert path[0..] == path && (spec.Ok? ==> [] + spec.value.steps == spec.value.steps);
      for index := 0 to |path|
        invariant spec == Prefixed(steps, Walk(current, parentTable, path[index..], lastMany, CurrentNames()))
      {
        ghost var pending := path[index..];
        assert pending[0] == path[index] && pending[1..] == path[index + 1..];
        if path[index] !in current.relationships {
          return Err(InvalidRelationship);
        }
        var relationship := current.relationships[path[index]];
        var last := lastMany && index == |path| - 1;
        if last && relationship.cardinality != Many {
          return Err(InvalidRelationship);
        }
        if !last && relationship.cardinality != One {
          return Err(InvalidRelationship);
        }
        var alias := Alias();
        PrefixedStep(steps, Step(relationship, parentTable, alias),
                     Walk(relationship.target, alias, path[index + 1..], lastMany, CurrentNames()));
        steps := steps + [Step(relationship, parentTable, alias)];
        current, parentTable := relationship.target, alias;
      }
      assert path[|path|..] == [] && steps + [] == steps;
      return Ok((steps, current, parentTable));
    }

    method ValidatePathComparison(scope: Scope, expr: Ast.Expr) returns (result: Result<Validated>)
      requires expr.Comparison?
      modifies this`nextAlias, this`reserved
      ensures Agrees(result, CurrentNames(), PathComparison(convert, maxPathDepth, scope, expr, old(CurrentNames())))
    {
      var path := ValidPath(expr.field);
      if path.None? {
        return Err(InvalidSyntax);
      }
      var segments :- ScopedPath(scope, path.value);
      if |segments| > maxPathDepth {
        return Err(LimitExceeded);
      }
      if |segments| == 0 {
        return Err(InvalidSyntax);
      }
      var walk :- WalkPath(scope, segments[..|segments| - 1], false);
      var (steps, model, table) := walk;
      var name := segments[|segments| - 1];
      if name !in model.fields {
        return Err(UnknownField);
      }
      var compared :- ScalarComparison(convert, model.fields[name],
        if scope.qualifyFields || |steps| > 0 then table else "", expr);
      var wrapped := WrapSteps(steps, compared);
      return Ok(wrapped);
    }

    method ValidateQuantifier(scope: Scope, expr: Ast.Expr) returns (result: Result<Validated>)
      requires expr.Quantifier?
      modifies this
      ensures variables == old(variables)
      ensures Agrees(result, CurrentNames(),
                     Validate(convert, maxPathDepth, scope, old(variables), expr, old(CurrentNames())))
      decreases expr, 0
    {
      hide NextFree, Walk, IsPublicName, Split, PathComparison;
      if expr.quantifier != Ast.Any && expr.quantifier != Ast.All {
        return Err(InvalidSyntax);
      }
      if !IsPublicName(expr.variable) {
        return Err(InvalidSyntax);
      }
      if expr.variable in variables {
        return Err(InvalidRelationship);
      }
      var path := ValidPath(expr.relationship);
      if path.None? {
        return Err(InvalidSyntax);
      }
      var segments :- ScopedPath(scope, path.value);
      if |segments| == 0 || |segments| > maxPathDepth {
        return Err(LimitExceeded);
      }
      var walk :- WalkPath(scope, segments, true);
      var (steps, model, table) := walk;
      variables := variables + {expr.variable};
      var body := ValidateExpr(Scope(model, table, expr.variable, true), expr.body);
      variables := variables - {expr.variable};
      if body.Err? {
        return Err(body.code);
      }
      var last: Step := steps[|steps| - 1];
      var mode := AnyMode;
      if expr.quantifier == Ast.All {
        mode := AllMode;
      }
      var innermost := Related(last.relationship, last.parentTable, last.alias, body.value, mode);
      var wrapped := WrapSteps(steps[..|steps| - 1], innermost);
      return Ok(wrapped);
    }

    method ValidateExpr(scope: Scope, expr: Ast.Expr) returns (result: Result<Validated>)
      modifies this
      ensures variables == old(variables)
      ensures Agrees(result, CurrentNames(),
                     Validate(convert, maxPathDepth, scope, old(variables), expr, old(CurrentNames())))
      decreases expr, 1
    {
      match expr
      case Logical(op, left, right) =>
        if op != Ast.And && op != Ast.Or {
          return Err(InvalidSyntax);
        }
        var l :- ValidateExpr(scope, left);
        var r :- ValidateExpr(scope, right);
        return Ok(Joined(op, l, r));
      case Not(operand) =>
        var inner :- ValidateExpr(scope, operand);
        return Ok(Negated(inner));
      case Comparison(_, _, _, _) =>
        result := ValidatePathComparison(scope, expr);
      case Quantifier(_, _, _, _) =>
        result := ValidateQuantifier(scope, expr);
    }
  }

  predicate Agrees(result: Result<Validated>, names: Names, spec: Result<(Validated, Names)>) {
    if spec.Ok? then result == Ok(spec.value.0) && names == spec.value.1 else result == Err(spec.code)
  }

  function Prefixed(front: seq<Step>, rest: Result<Walked>): Result<Walked> {
    if rest.Err? then rest else Ok(rest.value.(steps := front + rest.value.steps))
  }

  lemma PrefixedStep(front: seq<Step>, step: Step, rest: Result<Walked>)
    ensures Prefixed(front + [step], rest) == Prefixed(front, Prefixed([step], rest))
  {
    if rest.Ok? {
      assert (front + [step]) + rest.value.steps == front + ([step] + rest.value.steps);
    }
  }

  /** The wrapping loop: from the innermost relationship step outwards. */
  method WrapSteps(steps: seq<Step>, inner: Validated) returns (result: Validated)
    ensures result == Wrap(steps, inner)
  {
    result := inner;
    for index := |steps| downto 0
      invariant result == Wrap(steps[index..], inner)
    {
      var step := steps[index];
      assert steps[index..][1..] == steps[index + 1..];
      result := Related(step.relationship, step.parentTable, step.alias, result, ExistsMode);
    }
    assert steps[0..] == steps;
  }

  /** validateQuery's filter half: reserve the storage names, then validate. */
  method ValidateQueryFilter(convert: Convert, maxPathDepth: int, model: Model, expr: Ast.Expr)
    returns (result: Result<Validated>)
    ensures var spec := ValidateFilter(convert, maxPathDepth, model, expr);
      result == if spec.Ok? then Ok(spec.value.0) else Err(spec.code)
  {
    var reserved := CollectStorageNames(model);
    var state := new ExpressionValidation(convert, maxPathDepth, reserved);
    result := state.ValidateExpr(RootScope(model), expr);
  }
}
