/** ast.go: the filter tree and the limits that bound it. Source spans serve error
    positions only and are not modelled; the Other... constructors stand for the
    operator codes a hand-built tree can carry and the library does not know. */
module Ast {

  datatype LogicalOp = And | Or | OtherLogical

  datatype QuantifierOp = Any | All | OtherQuantifier

  datatype CompareOp =
    | Eq | Ne | Gt | Gte | Lt | Lte | Contains | StartsWith | EndsWith
    | In | NotIn | IsNull | IsNotNull | OtherCompare

  datatype LiteralKind = StringLiteral | NumberLiteral | BoolLiteral

  datatype LiteralValue = NoValue | StringValue(text: string) | BoolValue(flag: bool)

  datatype Literal = Literal(kind: LiteralKind, raw: string, value: LiteralValue)

  // The zero Literal of Go: an absent literal.
  const NO_LITERAL := Literal(StringLiteral, "", NoValue)

  datatype Expr =
    | Comparison(field: string, op: CompareOp, literal: Literal, literals: seq<Literal>)
    | Logical(logical: LogicalOp, left: Expr, right: Expr)
    | Not(operand: Expr)
    | Quantifier(relationship: string, quantifier: QuantifierOp, variable: string, body: Expr)

  datatype Limits = Limits(
    maxQueryBytes: int, maxFilterBytes: int, maxTokens: int, maxLiteralBytes: int, maxInValues: int,
    maxLimit: int, maxOffset: int, maxSortTerms: int, maxSearchBytes: int, maxExpressionDepth: int,
    maxNodes: int, maxPathDepth: int, maxQuantifierDepth: int, maxCursorBytes: int)
}
