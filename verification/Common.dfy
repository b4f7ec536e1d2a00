/** Shared vocabulary: optional values, failure-carrying results and the stable
    error codes of types.go. Error message texts are not modelled. */
module Common {

  datatype Option<+T> = None | Some(value: T)

  datatype ErrorCode =
    | InvalidParameter | InvalidToken | InvalidSyntax | LimitExceeded
    | UnknownField | NotFilterable | NotSortable | OperatorNotAllowed
    | InvalidLiteral | InvalidSchema | ExecutionFailed
    | InvalidRelationship | InvalidCursor

  datatype Result<+T> = Ok(value: T) | Err(code: ErrorCode) {
    predicate IsFailure() { Err? }

    function PropagateFailure<U>(): Result<U>
      requires Err?
    {
      Err(code)
    }

    function Extract(): T
      requires Ok?
    {
      value
    }
  }

  function Max(a: int, b: int): int { if a < b then b else a }

  function Min(a: int, b: int): int { if a < b then a else b }
}
