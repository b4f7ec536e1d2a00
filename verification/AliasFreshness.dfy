/** The names a compiled filter introduces: distinct, and apart from every table the
    schema reaches. */
module AliasFreshness {
  import opened Schema
  import opened Aliases
  import opened Validator
  import Ast

  // ---- aliases issued during one validation ----

  function AliasesOf(v: Validated): seq<string> {
    match v
    case Joined(_, left, right) => AliasesOf(left) + AliasesOf(right)
    case Negated(operand) => AliasesOf(operand)
    case Compared(_, _, _, _, _) => []
    case Related(_, _, alias, body, _) => [alias] + AliasesOf(body)
  }

  predicate Distinct(names: seq<string>) {
    forall i, j :: 0 <= i < j < |names| ==> names[i] != names[j]
  }

  ghost predicate Issued(name: string) { exists n: nat :: n > 0 && name == AliasName(n) }

  /** Every alias lies between two states of the counter: free before, reserved after. */
  ghost predicate IssuedBetween(aliases: seq<string>, before: Names, after: Names) {
    && Distinct(aliases) && before.reserved <= after.reserved
    && forall a :: a in aliases ==> Issued(a) && a !in before.reserved && a in after.reserved
  }

  lemma IssuedInSequence(a: seq<string>, b: seq<string>, before: Names, middle: Names, after: Names)
    requires IssuedBetween(a, before, middle) && IssuedBetween(b, middle, after)
    ensures IssuedBetween(a + b, before, after)
  {
    forall i, j | 0 <= i < j < |a + b| ensures (a + b)[i] != (a + b)[j] {
      if i < |a| <= j {
        assert a[i] in a && b[j - |a|] in b;
      }
    }
  }

  lemma OneIssued(names: Names)
    ensures var (alias, issued) := Issue(names); IssuedBetween([alias], names, issued)
  {
    var (alias, issued) := Issue(names);
    assert alias == AliasName(issued.nextAlias) && issued.nextAlias > 0;
  }

  function StepAliases(steps: seq<Step>): seq<string> {
    seq(|steps|, i requires 0 <= i < |steps| => steps[i].alias)
  }

  lemma {:induction false} WalkIssues(model: Model, table: string, path: seq<string>, lastMany: bool, names: Names)
    requires Walk(model, table, path, lastMany, names).Ok?
    ensures var walked := Walk(model, table, path, lastMany, names).value;
      IssuedBetween(StepAliases(walked.steps), names, walked.names)
    decreases |path|
  {
    hide NextFree;
    if path != [] {
      var (alias, issued) := Issue(names);
      var rest := Walk(model.relationships[path[0]].target, alias, path[1..], lastMany, issued).value;
      OneIssued(names);
      WalkIssues(model.relationships[path[0]].target, alias, path[1..], lastMany, issued);
      IssuedInSequence([alias], StepAliases(rest.steps), names, issued, rest.names);
      var walked := Walk(model, table, path, lastMany, names).value;
      assert StepAliases(walked.steps) == [alias] + StepAliases(rest.steps);
    }
  }

  lemma {:induction false} AliasesOfWrap(steps: seq<Step>, inner: Validated)
    ensures AliasesOf(Wrap(steps, inner)) == StepAliases(steps) + AliasesOf(inner)
    decreases |steps|
  {
    if steps == [] {
      assert StepAliases(steps) == [];
    } else {
      AliasesOfWrap(steps[1..], inner);
      assert StepAliases(steps) == [steps[0].alias] + StepAliases(steps[1..]);
    }
  }

  lemma AliasesOfWrapQuantifier(steps: seq<Step>, quantifier: Ast.QuantifierOp, body: Validated)
    requires steps != []
    ensures AliasesOf(WrapQuantifier(steps, quantifier, body)) == StepAliases(steps) + AliasesOf(body)
  {
    var last, front := steps[|steps| - 1], steps[..|steps| - 1];
    var mode := if quantifier == Ast.All then AllMode else AnyMode;
    AliasesOfWrap(front, Related(last.relationship, last.parentTable, last.alias, body, mode));
    assert StepAliases(steps) == StepAliases(front) + [last.alias];
  }

  lemma {:induction false} ValidateIssues(convert: Convert, depth: int, scope: Scope, variables: set<string>,
                                          expr: Ast.Expr, names: Names)
    requires Validate(convert, depth, scope, variables, expr, names).Ok?
    ensures var r := Validate(convert, depth, scope, variables, expr, names).value;
      IssuedBetween(AliasesOf(r.0), names, r.1)
    decreases expr
  {
    hide Walk, ScalarComparison, IssuedBetween, NextFree;
    match expr
    case Logical(_, left, right) =>
      var l := Validate(convert, depth, scope, variables, left, names).value;
      var r := Validate(convert, depth, scope, variables, right, l.1).value;
      ValidateIssues(convert, depth, scope, variables, left, names);
      ValidateIssues(convert, depth, scope, variables, right, l.1);
      IssuedInSequence(AliasesOf(l.0), AliasesOf(r.0), names, l.1, r.1);
    case Not(operand) =>
      ValidateIssues(convert, depth, scope, variables, operand, names);
    case Comparison(field, _, _, _) =>
      var segments := ScopedPath(scope, ValidPath(field).value).value;
      var path := segments[..|segments| - 1];
      var walked := Walk(scope.model, scope.table, path, false, names).value;
      WalkIssues(scope.model, scope.table, path, false, names);
      var table := if scope.qualifyFields || walked.steps != [] then walked.table else "";
      var compared := ScalarComparison(convert, walked.model.fields[segments[|segments| - 1]], table, expr).value;
      AliasesOfWrap(walked.steps, compared);
      ScalarHasNoAlias(convert, walked.model.fields[segments[|segments| - 1]], table, expr);
      assert StepAliases(walked.steps) + [] == StepAliases(walked.steps);
    case Quantifier(relationship, quantifier, variable, body) =>
      var segments := ScopedPath(scope, ValidPath(relationship).value).value;
      var walked := Walk(scope.model, scope.table, segments, true, names).value;
      WalkIssues(scope.model, scope.table, segments, true, names);
      var inner := Scope(walked.model, walked.table, variable, true);
      var r := Validate(convert, depth, inner, variables + {variable}, body, walked.names).value;
      ValidateIssues(convert, depth, inner, variables + {variable}, body, walked.names);
      AliasesOfWrapQuantifier(walked.steps, quantifier, r.0);
      IssuedInSequence(StepAliases(walked.steps), AliasesOf(r.0), names, walked.names, r.1);
  }

  lemma ScalarHasNoAlias(convert: Convert, field: Field, table: string, expr: Ast.Expr)
    requires expr.Comparison? && ScalarComparison(convert, field, table, expr).Ok?
    ensures AliasesOf(ScalarComparison(convert, field, table, expr).value) == []
  {}

  /** Aliases of one filter are pairwise distinct, differ from every table and join
      table the schema reaches, and so do not collide with each other's join aliases. */
  lemma AliasesAreFresh(convert: Convert, depth: int, model: Model, expr: Ast.Expr)
    requires ValidateFilter(convert, depth, model, expr).Ok?
    ensures var aliases := AliasesOf(ValidateFilter(convert, depth, model, expr).value.0);
      && Distinct(aliases)
      && (forall a :: a in aliases ==> a !in StorageNames(model))
      && (forall a, b :: a in aliases && b in aliases ==> JoinAlias(a) != b)
      && (forall a, b :: a in aliases && b in aliases && a != b ==> JoinAlias(a) != JoinAlias(b))
  {
    var names := Names(0, StorageNames(model));
    ValidateIssues(convert, depth, RootScope(model), {}, expr, names);
    var aliases := AliasesOf(ValidateFilter(convert, depth, model, expr).value.0);
    forall a, b | a in aliases && b in aliases
      ensures JoinAlias(a) != b && (a != b ==> JoinAlias(a) != JoinAlias(b))
    {
      assert Issued(a) && Issued(b);
      var n: nat :| n > 0 && b == AliasName(n);
      AliasIsNoJoinAlias(n);
      var m: nat :| m > 0 && a == AliasName(m);
      assert JoinAlias(a)[..|JoinAlias(a)| - 5] == a && JoinAlias(b)[..|JoinAlias(b)| - 5] == b;
    }
  }
}
