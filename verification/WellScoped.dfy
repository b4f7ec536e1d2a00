/** Which filters the validator accepts, said of schema and syntax alone: quantifier variables
    in scope, paths through the exposed relationships, and comparable fields at their ends. */
module WellScoped {
  import opened Common
  import opened Strings
  import opened Schema
  import opened Aliases
  import opened Validator
  import Ast

  // ---- paths ----

  // The names lead from a model along exposed to-one relationships to the owner.
  ghost predicate ToOnes(m: Model, names: seq<string>, owner: Model)
    decreases |names|
  {
    if names == [] then owner == m
    else
      && names[0] in m.relationships && m.relationships[names[0]].cardinality == One
      && ToOnes(m.relationships[names[0]].target, names[1..], owner)
  }

  /** A path: slash-separated public names, after the current variable's name if there is
      one, at most depth of them, all but the last leading from m to the owner of the last. */
  ghost predicate PathTo(m: Model, variable: string, path: string, depth: int, names: seq<string>, owner: Model) {
    && 0 < |names| <= depth && (forall i :: 0 <= i < |names| ==> IsPublicName(names[i]))
    && path == Join('/', if variable == "" then names else [variable] + names)
    && ToOnes(m, names[..|names| - 1], owner)
  }

  // ---- comparisons ----

  /** The operand an operator takes: none for null tests, a non-empty list for in, else one literal. */
  ghost predicate OperandFits(convert: Convert, field: Field, e: Ast.Expr)
    requires e.Comparison?
  {
    match e.op
    case IsNull | IsNotNull => e.literal == Ast.NO_LITERAL && e.literals == []
    case In | NotIn =>
      && e.literal == Ast.NO_LITERAL && e.literals != []
      && forall i :: 0 <= i < |e.literals| ==> convert(field, e.literals[i]).Some?
    case _ => e.literals == [] && convert(field, e.literal).Some?
  }

  ghost predicate Comparable(convert: Convert, field: Field, e: Ast.Expr)
    requires e.Comparison?
  {
    field.filterable && e.op in field.operators && OperandFits(convert, field, e)
  }

  // ---- filters ----

  /** A quantifier over an unshadowed public variable, whose path ends in an exposed to-many
      relationship to the target. */
  ghost predicate Ranges(depth: int, m: Model, variable: string, variables: set<string>, e: Ast.Expr, target: Model)
    requires e.Quantifier?
  {
    && (e.quantifier == Ast.Any || e.quantifier == Ast.All) && IsPublicName(e.variable) && e.variable !in variables
    && exists names, owner ::
         && PathTo(m, variable, e.relationship, depth, names, owner)
         && names[|names| - 1] in owner.relationships
         && var last := owner.relationships[names[|names| - 1]];
            last.cardinality == Many && target == last.target
  }

  /** Well-scoped in m, inside the quantifiers over `variables`, of which `variable` is the innermost. */
  ghost predicate WellScoped(convert: Convert, depth: int, m: Model, variable: string, variables: set<string>,
                             e: Ast.Expr)
    decreases e
  {
    match e
    case Logical(op, left, right) =>
      && (op == Ast.And || op == Ast.Or)
      && WellScoped(convert, depth, m, variable, variables, left)
      && WellScoped(convert, depth, m, variable, variables, right)
    case Not(operand) => WellScoped(convert, depth, m, variable, variables, operand)
    case Comparison(field, _, _, _) =>
      exists names, owner ::
        && PathTo(m, variable, field, depth, names, owner)
        && names[|names| - 1] in owner.fields && Comparable(convert, owner.fields[names[|names| - 1]], e)
    case Quantifier(_, _, inner, body) =>
      exists target ::
        Ranges(depth, m, variable, variables, e, target)
        && WellScoped(convert, depth, target, inner, variables + {inner}, body)
  }

  // ---- agreement with the validator ----

  // What the validator makes of a path's text is what its names are.
  lemma PathTextNames(path: string, scope: Scope)
    requires scope.variable == "" || IsPublicName(scope.variable)
    ensures forall m, depth, names, owner :: PathTo(m, scope.variable, path, depth, names, owner) ==>
      ValidPath(path).Some? && ScopedPath(scope, ValidPath(path).value) == Ok(names)
    ensures ValidPath(path).Some? && ScopedPath(scope, ValidPath(path).value).Ok? ==>
      var names := ScopedPath(scope, ValidPath(path).value).value;
      && path == Join('/', if scope.variable == "" then names else [scope.variable] + names)
      && forall i :: 0 <= i < |names| ==> IsPublicName(names[i])
  {
    hide IsPublicName, Split, ToOnes;
    forall m, depth, names, owner | PathTo(m, scope.variable, path, depth, names, owner)
      ensures ValidPath(path).Some? && ScopedPath(scope, ValidPath(path).value) == Ok(names)
    {
      var all := if scope.variable == "" then names else [scope.variable] + names;
      forall i | 0 <= i < |all| ensures IsPublicName(all[i]) && '/' !in all[i] && all[i] != "" {
        PublicNamesHaveNoSlash(all[i]);
      }
      SplitJoin('/', all);
      JoinedIsNotEmpty(all);
    }
    if ValidPath(path).Some? && ScopedPath(scope, ValidPath(path).value).Ok? {
      var segments := Split('/', path);
      assert scope.variable != "" ==> segments == [scope.variable] + segments[1..];
    }
  }

  lemma PublicNamesHaveNoSlash(name: string)
    requires IsPublicName(name)
    ensures '/' !in name && name != ""
  {}

  lemma JoinedIsNotEmpty(parts: seq<string>)
    requires parts != [] && parts[0] != ""
    ensures Join('/', parts) != ""
  {}

  lemma {:induction false} WalkFollows(m: Model, table: string, path: seq<string>, names: Names, owner: Model)
    ensures ToOnes(m, path, owner) <==>
      Walk(m, table, path, false, names).Ok? && Walk(m, table, path, false, names).value.model == owner
    decreases |path|
  {
    hide NextFree;
    if path != [] && path[0] in m.relationships {
      var (alias, issued) := Issue(names);
      WalkFollows(m.relationships[path[0]].target, alias, path[1..], issued, owner);
    }
  }

  // The last of a quantifier's relationships is to-many, those before it to-one.
  lemma {:induction false} ManyWalkFollows(m: Model, table: string, path: seq<string>, names: Names, owner: Model)
    requires path != [] && ToOnes(m, path[..|path| - 1], owner)
    ensures var last := path[|path| - 1]; var walked := Walk(m, table, path, true, names);
      && (walked.Ok? <==> last in owner.relationships && owner.relationships[last].cardinality == Many)
      && (walked.Ok? ==> walked.value.model == owner.relationships[last].target)
    decreases |path|
  {
    hide NextFree;
    if |path| > 1 {
      var (alias, issued) := Issue(names);
      assert path[1..][..|path| - 2] == path[..|path| - 1][1..];
      ManyWalkFollows(m.relationships[path[0]].target, alias, path[1..], issued, owner);
    } else if path[0] in m.relationships {
      var (alias, issued) := Issue(names);
      assert path[1..] == [];
    }
  }

  lemma {:induction false} ManyWalkStarts(m: Model, table: string, path: seq<string>, names: Names)
    returns (owner: Model)
    requires path != [] && Walk(m, table, path, true, names).Ok?
    ensures ToOnes(m, path[..|path| - 1], owner)
    decreases |path|
  {
    hide NextFree;
    if |path| == 1 {
      assert path[..0] == [];
      owner := m;
    } else {
      var (alias, issued) := Issue(names);
      owner := ManyWalkStarts(m.relationships[path[0]].target, alias, path[1..], issued);
      assert path[1..][..|path| - 2] == path[..|path| - 1][1..];
    }
  }

  lemma {:induction false} ConvertsAll(convert: Convert, field: Field, literals: seq<Ast.Literal>)
    ensures ConvertAll(convert, field, literals).Some? <==>
      forall i :: 0 <= i < |literals| ==> convert(field, literals[i]).Some?
  {
    if literals != [] {
      ConvertsAll(convert, field, literals[1..]);
      assert forall i :: 1 <= i < |literals| ==> literals[i] == literals[1..][i - 1];
    }
  }

  lemma ScalarAccepted(convert: Convert, field: Field, table: string, e: Ast.Expr)
    requires e.Comparison?
    ensures ScalarComparison(convert, field, table, e).Ok? <==> Comparable(convert, field, e)
  {
    ConvertsAll(convert, field, e.literals);
  }

  lemma ComparisonAccepted(convert: Convert, depth: int, scope: Scope, variables: set<string>, e: Ast.Expr,
                           names: Names)
    requires e.Comparison? && (scope.variable == "" || IsPublicName(scope.variable))
    ensures PathComparison(convert, depth, scope, e, names).Ok? <==>
      WellScoped(convert, depth, scope.model, scope.variable, variables, e)
  {
    hide ValidPath, ScopedPath, Walk, ToOnes, IsPublicName, Comparable, ScalarComparison, Join;
    PathTextNames(e.field, scope);
    if ValidPath(e.field).Some? && ScopedPath(scope, ValidPath(e.field).value).Ok? {
      var path := ScopedPath(scope, ValidPath(e.field).value).value;
      if 0 < |path| <= depth {
        var front := path[..|path| - 1];
        var walked := Walk(scope.model, scope.table, front, false, names);
        forall owner ensures ToOnes(scope.model, front, owner) <==> walked.Ok? && walked.value.model == owner {
          WalkFollows(scope.model, scope.table, front, names, owner);
        }
        if walked.Ok? && path[|path| - 1] in walked.value.model.fields {
          var table := if scope.qualifyFields || walked.value.steps != [] then walked.value.table else "";
          ScalarAccepted(convert, walked.value.model.fields[path[|path| - 1]], table, e);
          assert PathTo(scope.model, scope.variable, e.field, depth, path, walked.value.model);
        }
      }
    }
  }

  lemma QuantifierAccepted(depth: int, scope: Scope, variables: set<string>, e: Ast.Expr, names: Names, target: Model)
    requires e.Quantifier? && (scope.variable == "" || IsPublicName(scope.variable))
    ensures var walked := QuantifierSteps(depth, scope, variables, e, names);
      walked.Ok? && walked.value.model == target <==> Ranges(depth, scope.model, scope.variable, variables, e, target)
  {
    hide ValidPath, ScopedPath, Walk, ToOnes, IsPublicName, Join;
    PathTextNames(e.relationship, scope);
    if ValidPath(e.relationship).Some? && ScopedPath(scope, ValidPath(e.relationship).value).Ok? {
      var path := ScopedPath(scope, ValidPath(e.relationship).value).value;
      if 0 < |path| <= depth {
        var front := path[..|path| - 1];
        var walked := Walk(scope.model, scope.table, path, true, names);
        forall owner | ToOnes(scope.model, front, owner)
          ensures var last := path[|path| - 1];
            && (walked.Ok? <==> last in owner.relationships && owner.relationships[last].cardinality == Many)
            && (walked.Ok? ==> walked.value.model == owner.relationships[last].target)
        {
          ManyWalkFollows(scope.model, scope.table, path, names, owner);
        }
        if walked.Ok? {
          var owner := ManyWalkStarts(scope.model, scope.table, path, names);
          assert PathTo(scope.model, scope.variable, e.relationship, depth, path, owner);
        }
      }
    }
  }

  lemma {:induction false} ValidatesExactly(convert: Convert, depth: int, scope: Scope, variables: set<string>,
                                            e: Ast.Expr, names: Names)
    requires scope.variable == "" || IsPublicName(scope.variable)
    ensures Validate(convert, depth, scope, variables, e, names).Ok? <==>
      WellScoped(convert, depth, scope.model, scope.variable, variables, e)
    decreases e
  {
    hide PathComparison, QuantifierSteps, PathTo, IsPublicName, Comparable, Ranges;
    match e
    case Logical(_, left, right) =>
      ValidatesExactly(convert, depth, scope, variables, left, names);
      var l := Validate(convert, depth, scope, variables, left, names);
      if l.Ok? {
        ValidatesExactly(convert, depth, scope, variables, right, l.value.1);
      }
    case Not(operand) => ValidatesExactly(convert, depth, scope, variables, operand, names);
    case Comparison(_, _, _, _) => ComparisonAccepted(convert, depth, scope, variables, e, names);
    case Quantifier(_, _, variable, body) =>
      var walked := QuantifierSteps(depth, scope, variables, e, names);
      forall target
        ensures walked.Ok? && walked.value.model == target <==>
          Ranges(depth, scope.model, scope.variable, variables, e, target)
      {
        QuantifierAccepted(depth, scope, variables, e, names, target);
      }
      if walked.Ok? {
        RangesPublicly(depth, scope.model, scope.variable, variables, e, walked.value.model);
        ValidatesExactly(convert, depth, Scope(walked.value.model, walked.value.table, variable, true),
                         variables + {variable}, body, walked.value.names);
      }
  }

  lemma RangesPublicly(depth: int, m: Model, variable: string, variables: set<string>, e: Ast.Expr, target: Model)
    requires e.Quantifier? && Ranges(depth, m, variable, variables, e, target)
    ensures IsPublicName(e.variable)
  {}

  /** A filter is accepted if and only if it is well-scoped over the schema. */
  lemma AcceptedExactly(convert: Convert, depth: int, model: Model, e: Ast.Expr)
    ensures ValidateFilter(convert, depth, model, e).Ok? <==> WellScoped(convert, depth, model, "", {}, e)
  {
    hide Validate, WellScoped;
    ValidatesExactly(convert, depth, RootScope(model), {}, e, Names(0, StorageNames(model)));
  }
}
