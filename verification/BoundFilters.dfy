/** Filters from text, over schemas from binding: what the compiler's correctness asks of
    a filter and its schema holds of every one that comes that way. */
module BoundFilters {
  import opened Strings
  import opened Schema
  import opened Aliases
  import opened Validator
  import opened Compiler
  import opened FilterMeaning
  import opened FilterCorrectness
  import opened Binding
  import opened BindingTheorems
  import Ast
  import Grammar
  import NormalForm
  import Numerals
  import Printer
  import Rendering
  import S = Sql

  // ---- bound schemas ----

  lemma OperatorIsKnown(kind: Kind, pointer: bool, op: Ast.CompareOp)
    requires OperatorFits(kind, pointer, op)
    ensures op != Ast.OtherCompare && (IsTextOp(op) ==> kind == String)
  {}

  lemma WellFormedFieldIsBound(f: Field)
    requires FieldWellFormed(f)
    ensures FieldOperatorsKnown(f)
  {
    hide OperatorFits, IsValidIdentifier;
    forall op | op in f.operators ensures op != Ast.OtherCompare && (IsTextOp(op) ==> f.kind == String) {
      OperatorIsKnown(f.kind, f.nullable, op);
    }
  }

  /** Binding allows known operators only, and text operators only on string fields. */
  lemma {:induction false} WellFormedIsBound(m: Model)
    requires WellFormed(m)
    ensures BoundOperators(m)
    decreases m
  {
    hide OperatorFits, IsPublicName, IsValidIdentifier;
    forall f | f in m.fields ensures FieldOperatorsKnown(m.fields[f]) {
      WellFormedFieldIsBound(m.fields[f]);
    }
    forall r | r in m.relationships ensures BoundOperators(m.relationships[r].target) {
      WellFormedIsBound(m.relationships[r].target);
    }
  }

  // ---- valid texts ----

  predicate TextValid(l: Ast.Literal) {
    l.kind == Ast.StringLiteral && l.value.StringValue? ==> ValidUtf8(l.value.text)
  }

  // The string literals of a filter are valid UTF-8.
  predicate TextsValid(e: Ast.Expr) {
    match e
    case Comparison(_, _, literal, _) => TextValid(literal)
    case Logical(_, left, right) => TextsValid(left) && TextsValid(right)
    case Not(operand) => TextsValid(operand)
    case Quantifier(_, _, _, body) => TextsValid(body)
  }

  lemma {:induction false} QuotableIsValid(text: string)
    requires Rendering.Quotable(text)
    ensures ValidUtf8(text)
    decreases |text|
  {
    hide RuneSize;
    if text != "" {
      Rendering.QuotableHead(text);
      QuotableIsValid(text[FirstSize(text)..]);
    }
  }

  lemma PrintableIsValid(l: Ast.Literal)
    requires Printer.PrintableLiteral(l)
    ensures TextValid(l)
  {
    hide RuneSize, ValidUtf8, Rendering.Quotable, Numerals.IsNumber;
    if l.kind == Ast.StringLiteral {
      QuotableIsValid(l.value.text);
    }
  }

  /** The scanner checks UTF-8, so every filter from text has valid strings. */
  lemma {:induction false} PrintableTextsValid(e: Ast.Expr)
    requires Printer.Printable(e)
    ensures TextsValid(e)
  {
    hide Printer.PrintableLiteral;
    match e
    case Comparison(_, _, literal, _) =>
      if literal != Ast.NO_LITERAL {
        PrintableIsValid(literal);
      }
    case Logical(_, left, right) =>
      PrintableTextsValid(left);
      PrintableTextsValid(right);
    case Not(operand) => PrintableTextsValid(operand);
    case Quantifier(_, _, _, body) => PrintableTextsValid(body);
  }

  lemma ScalarPatternValid(convert: Convert, model: Model, name: string, table: string, expr: Ast.Expr)
    requires BoundOperators(model) && StringsConvertToText(convert) && name in model.fields && expr.Comparison?
    requires TextsValid(expr) && ScalarComparison(convert, model.fields[name], table, expr).Ok?
    ensures PatternsValid(ScalarComparison(convert, model.fields[name], table, expr).value)
  {
    hide ValidUtf8;
    assert expr.op in model.fields[name].operators;
  }

  /** Over a bound schema a filter with valid strings makes valid patterns. */
  lemma {:induction false} ValidatedPatternsValid(convert: Convert, depth: int, scope: Scope, variables: set<string>,
                                                  expr: Ast.Expr, names: Names)
    requires BoundOperators(scope.model) && StringsConvertToText(convert) && TextsValid(expr)
    requires Validate(convert, depth, scope, variables, expr, names).Ok?
    ensures PatternsValid(Validate(convert, depth, scope, variables, expr, names).value.0)
    decreases expr
  {
    hide Walk, ScalarComparison, NextFree, BoundOperators, StringsConvertToText, ValidUtf8;
    match expr
    case Logical(_, left, right) =>
      ValidatedPatternsValid(convert, depth, scope, variables, left, names);
      var l := Validate(convert, depth, scope, variables, left, names).value;
      ValidatedPatternsValid(convert, depth, scope, variables, right, l.1);
    case Not(operand) =>
      ValidatedPatternsValid(convert, depth, scope, variables, operand, names);
    case Comparison(field, _, _, _) =>
      var segments := ScopedPath(scope, ValidPath(field).value).value;
      var path, name := segments[..|segments| - 1], segments[|segments| - 1];
      WalkStaysBound(scope.model, scope.table, path, false, names);
      var walked := Walk(scope.model, scope.table, path, false, names).value;
      var table := if scope.qualifyFields || walked.steps != [] then walked.table else "";
      ScalarPatternValid(convert, walked.model, name, table, expr);
      WrapPatterns(walked.steps, ScalarComparison(convert, walked.model.fields[name], table, expr).value);
    case Quantifier(relationship, quantifier, variable, body) =>
      var segments := ScopedPath(scope, ValidPath(relationship).value).value;
      WalkStaysBound(scope.model, scope.table, segments, true, names);
      var walked := Walk(scope.model, scope.table, segments, true, names).value;
      var inner := Scope(walked.model, walked.table, variable, true);
      ValidatedPatternsValid(convert, depth, inner, variables + {variable}, body, walked.names);
      var checked := Validate(convert, depth, inner, variables + {variable}, body, walked.names).value.0;
      var last: Step := walked.steps[|walked.steps| - 1];
      var mode := if quantifier == Ast.All then AllMode else AnyMode;
      WrapPatterns(walked.steps[..|walked.steps| - 1],
                   Related(last.relationship, last.parentTable, last.alias, checked, mode));
  }

  // ---- from text to SQL ----

  /** A filter from text that a bound schema's validator accepts compiles, and its clause
      has the meaning the text has on the object graph: for every text, schema, database
      and root row, unless the root table is named like a join alias. */
  lemma ParsedFilterMeansSource(input: string, given: Ast.Limits, w: World, depth: int, model: Model, env: S.Env)
    requires Grammar.ParseFilter(input, given).Ok?
    requires ValidateFilter(w.convert, depth, model, Grammar.ParseFilter(input, given).value).Ok?
    requires WellFormed(model) && StringsConvertToText(w.convert) && !IsJoinAlias(model.table)
    requires model.table in env && "" in env && env[""] == env[model.table]
    ensures var expr := Grammar.ParseFilter(input, given).value;
      var clause := Compile(ValidateFilter(w.convert, depth, model, expr).value.0, w.includeDeleted);
      clause.Ok? && S.Eval(w.d, w.db, env, clause.value) == Meaning(w, Binding(model, env[model.table]), map[], expr)
  {
    hide Grammar.ParseFilter, Validate, Compile, S.Eval, Meaning, WellFormed, StringsConvertToText, Printer.Printable,
      BoundOperators, TextsValid, PatternsValid, IsJoinAlias;
    var expr := Grammar.ParseFilter(input, given).value;
    FilterFacts(input, given, w, depth, model);
    var clause := Compile(ValidateFilter(w.convert, depth, model, expr).value.0, w.includeDeleted).value;
    CompiledFilterMeansSource(w, depth, model, expr, clause, env);
  }

  lemma FilterFacts(input: string, given: Ast.Limits, w: World, depth: int, model: Model)
    requires Grammar.ParseFilter(input, given).Ok?
    requires ValidateFilter(w.convert, depth, model, Grammar.ParseFilter(input, given).value).Ok?
    requires WellFormed(model) && StringsConvertToText(w.convert)
    ensures var validated := ValidateFilter(w.convert, depth, model, Grammar.ParseFilter(input, given).value).value.0;
      Compile(validated, w.includeDeleted).Ok? && PatternsValid(validated)
  {
    hide Grammar.ParseFilter, Validate, Compile, WellFormed, StringsConvertToText, Printer.Printable,
      BoundOperators, TextsValid, PatternsValid;
    var expr := Grammar.ParseFilter(input, given).value;
    var scope, names := RootScope(model), Names(0, StorageNames(model));
    NormalForm.ParsedIsPrintable(input, given);
    PrintableTextsValid(expr);
    WellFormedIsBound(model);
    ValidatedFiltersCompile(w.convert, depth, scope, {}, expr, names, w.includeDeleted);
    ValidatedPatternsValid(w.convert, depth, scope, {}, expr, names);
  }
}
