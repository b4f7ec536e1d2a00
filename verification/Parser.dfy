/** parser.go's filterParser: mutable position, nesting depths and variable stack,
    proved against Grammar. */
module Parser {
  import opened Common
  import opened Strings
  import opened Ast
  import opened Lexer
  import opened Grammar

  ghost predicate SpansInInput(s: Source) {
    forall k :: 0 <= k < |s.tokens| ==> s.tokens[k].start <= s.tokens[k].end <= |s.input|
  }

  function Tree(spec: Outcome): Result<Parsed> {
    if spec.Err? then Err(spec.code) else Ok(spec.value.0)
  }

  class FilterParser {
    const s: Source
    var current: nat
    var parenDepth: nat
    var quantDepth: nat
    var variables: seq<string>

    constructor (s: Source)
      ensures this.s == s && current == 0 && Here() == TOP
    {
      this.s := s;
      current, parenDepth, quantDepth, variables := 0, 0, 0, [];
    }

    function Here(): Scope reads this { Scope(parenDepth, quantDepth, variables) }

    ghost predicate Valid() reads this { current < |s.tokens| && SpansInInput(s) }

    // The result is the specified one. On success the position is just behind it and the
    // parenthesis depth is that of the scope it was called in; the quantifier depth and
    // the variables are so on failure too.
    ghost predicate Parses(spec: Outcome, result: Result<Parsed>, scope: Scope)
      reads this
    {
      && result == Tree(spec)
      && quantDepth == scope.quant && variables == scope.variables && parenDepth >= scope.paren
      && (spec.Ok? ==> current == spec.value.1 && parenDepth == scope.paren)
    }

    function Peek(): Token
      requires current < |s.tokens|
      reads this
    {
      s.tokens[current]
    }

    method Advance() returns (t: Token)
      requires current < |s.tokens|
      modifies this`current
      ensures t == s.tokens[old(current)] && current < |s.tokens|
      ensures current == if t.kind == EndOfInput then old(current) else old(current) + 1
    {
      t := s.tokens[current];
      if t.kind != EndOfInput {
        current := current + 1;
      }
    }

    method HasRequiredSpacing(start: nat, end: nat) returns (ok: bool)
      requires end <= |s.input|
      ensures ok == RequiredSpacing(s, start, end)
    {
      if start >= end {
        return false;
      }
      for i := start to end
        invariant forall k :: start <= k < i ==> IsWhitespace(s.input[k])
      {
        if !IsWhitespace(s.input[i]) {
          return false;
        }
      }
      return true;
    }

    method ParseOr() returns (result: Result<Parsed>)
      requires Valid()
      modifies this
      ensures Parses(Chain(s, old(current), old(Here()), Or), result, old(Here()))
      decreases |s.tokens| - current, 5
    {
      hide Chain, ChainRest, Level, Primary, RequiredSpacing, Delivers, Joined, SpansInInput;
      ghost var first, scope := current, Here();
      ChainSteps(s, first, scope, Or);
      LevelsOf(s, first, scope);
      var left :- ParseAnd();
      ghost var spec := Chain(s, first, scope, Or);
      while Peek().kind == OrToken
        invariant first < current && Valid() && Here() == scope && Delivers(s, first, Ok((left, current)))
        invariant spec == ChainRest(s, first, current, scope, Or, left)
        decreases |s.tokens| - current
      {
        ghost var at := current;
        ChainRestSteps(s, first, at, scope, Or, left);
        DeliversSpan(s, first, left, at);
        SpanInInput(s, at);
        SpanInInput(s, at + 1);
        LevelsOf(s, at + 1, scope);
        var op := Advance();
        var spaced := HasRequiredSpacing(left.syntaxEnd, op.start);
        if !spaced {
          return Err(InvalidSyntax);
        }
        var right :- ParseAnd();
        DeliversSpan(s, at + 1, right, current);
        spaced := HasRequiredSpacing(op.end, right.syntaxStart);
        if !spaced {
          return Err(InvalidSyntax);
        }
        left :- Join(Or, left, right);
      }
      ChainRestSteps(s, first, current, scope, Or, left);
      return Ok(left);
    }

    method ParseAnd() returns (result: Result<Parsed>)
      requires Valid()
      modifies this
      ensures Parses(Chain(s, old(current), old(Here()), And), result, old(Here()))
      decreases |s.tokens| - current, 3
    {
      hide Chain, ChainRest, Level, Primary, RequiredSpacing, Delivers, Joined, SpansInInput;
      ghost var first, scope := current, Here();
      ChainSteps(s, first, scope, And);
      LevelsOf(s, first, scope);
      var left :- ParsePrimary();
      ghost var spec := Chain(s, first, scope, And);
      while Peek().kind == AndToken
        invariant first < current && Valid() && Here() == scope && Delivers(s, first, Ok((left, current)))
        invariant spec == ChainRest(s, first, current, scope, And, left)
        decreases |s.tokens| - current
      {
        ghost var at := current;
        ChainRestSteps(s, first, at, scope, And, left);
        DeliversSpan(s, first, left, at);
        SpanInInput(s, at);
        SpanInInput(s, at + 1);
        LevelsOf(s, at + 1, scope);
        var op := Advance();
        var spaced := HasRequiredSpacing(left.syntaxEnd, op.start);
        if !spaced {
          return Err(InvalidSyntax);
        }
        var right :- ParsePrimary();
        DeliversSpan(s, at + 1, right, current);
        spaced := HasRequiredSpacing(op.end, right.syntaxStart);
        if !spaced {
          return Err(InvalidSyntax);
        }
        left :- Join(And, left, right);
      }
      ChainRestSteps(s, first, current, scope, And, left);
      return Ok(left);
    }

    method ParsePrimary() returns (result: Result<Parsed>)
      requires Valid()
      modifies this
      ensures Parses(Primary(s, old(current), old(Here())), result, old(Here()))
      decreases |s.tokens| - current, 1
    {
      hide Chain, RequiredSpacing, PathPredicate;
      if Peek().kind == NotToken {
        var notToken := Advance();
        var spaced := HasRequiredSpacing(notToken.end, Peek().start);
        if !spaced {
          return Err(InvalidSyntax);
        }
        var inner :- ParsePrimary();
        var nodes, depth := inner.nodes + 1, inner.depth + 1;
        if nodes > s.limits.maxNodes || depth > s.limits.maxExpressionDepth {
          return Err(LimitExceeded);
        }
        return Ok(Parsed(Not(inner.expr), notToken.start, inner.syntaxEnd, nodes, depth));
      }
      if Peek().kind != LeftParen {
        result := ParsePathPredicate();
        return;
      }
      result := ParseParenthesised();
    }

    // The part of parsePrimary that starts at an opening parenthesis.
    method ParseParenthesised() returns (result: Result<Parsed>)
      requires Valid() && Peek().kind == LeftParen
      modifies this
      ensures Parses(Primary(s, old(current), old(Here())), result, old(Here()))
      decreases |s.tokens| - current, 0
    {
      hide Chain, SpacedAfter, PathPredicate, SpansInInput;
      var open := Advance();
      parenDepth := parenDepth + 1;
      if parenDepth > MAX_PARENTHESIS_NESTING {
        return Err(LimitExceeded);
      }
      result := ParseOr();
      parenDepth := parenDepth - 1;
      if result.Err? {
        return;
      }
      var inner := result.value;
      if Peek().kind != RightParen {
        return Err(InvalidSyntax);
      }
      var close := Advance();
      return Ok(inner.(syntaxStart := open.start, syntaxEnd := close.end));
    }

    method ParsePathPredicate() returns (result: Result<Parsed>)
      requires Valid()
      modifies this
      ensures Parses(PathPredicate(s, old(current), old(Here())), result, old(Here()))
      decreases |s.tokens| - current, 0
    {
      hide ComparisonAt, QuantifierAt, PathRest, PathText;
      ghost var begin := current;
      if Peek().kind != Identifier {
        return Err(InvalidSyntax);
      }
      var first := Advance();
      var path :- ParsePath(first);
      match path
      case FieldPath(segments, _) =>
        result := ParseComparison(begin, segments, PathText(segments), first.start, segments[|segments| - 1].end);
      case QuantifierPath(segments, operator) =>
        result := ParseQuantifier(begin, segments, s.tokens[operator]);
    }

    // The segments of a path after its first, with the quantifier word that may end it.
    method ParsePath(first: Token) returns (result: Result<PathEnd>)
      requires Valid() && 0 < current && s.tokens[current - 1] == first
      modifies this`current
      ensures result == PathRest(s, old(current), old(Here()), [first])
      ensures result.Ok? && result.value.FieldPath? ==>
        var all := result.value.segments;
        current == result.value.next && all != [] && all[|all| - 1] == s.tokens[current - 1]
      ensures result.Ok? && result.value.QuantifierPath? ==> current == result.value.operator + 1
    {
      hide PathDepth, PathRest;
      ghost var scope := Here();
      var segments := [first];
      while Peek().kind == Slash
        invariant 0 < current && Valid()
        invariant segments != [] && segments[|segments| - 1] == s.tokens[current - 1]
        invariant PathRest(s, old(current), scope, [first]) == PathRest(s, current, scope, segments)
        decreases |s.tokens| - current
      {
        PathRestSteps(s, current, scope, segments);
        var slash := Advance();
        if slash.start != segments[|segments| - 1].end || Peek().start != slash.end {
          return Err(InvalidSyntax);
        }
        if Peek().kind == AnyToken || Peek().kind == AllToken {
          var operator := Advance();
          return Ok(QuantifierPath(segments, current - 1));
        }
        if Peek().kind != Identifier {
          return Err(InvalidSyntax);
        }
        var segment := Advance();
        segments := segments + [segment];
        if PathDepth(Here(), segments) > s.limits.maxPathDepth {
          return Err(LimitExceeded);
        }
      }
      PathRestSteps(s, current, scope, segments);
      if PathDepth(Here(), segments) > s.limits.maxPathDepth {
        return Err(LimitExceeded);
      }
      return Ok(FieldPath(segments, current));
    }

    method ParseComparison(ghost first: nat, ghost segments: seq<Token>, fieldName: string, start: nat, end: nat)
      returns (result: Result<Parsed>)
      requires Valid() && first < current && fieldName == PathText(segments)
      requires start == s.tokens[first].start && end == s.tokens[current - 1].end
      modifies this`current
      ensures Parses(ComparisonAt(s, old(current), first, segments), result, old(Here()))
    {
      hide RequiredSpacing, Operand, Operator, PathText;
      var spaced := HasRequiredSpacing(end, Peek().start);
      if !spaced {
        return Err(InvalidSyntax);
      }
      var op :- ParseComparisonOperator();
      var operand :- ParseOperand(op.0, op.1, fieldName);
      if s.limits.maxNodes < 1 || s.limits.maxExpressionDepth < 1 {
        return Err(LimitExceeded);
      }
      return Ok(Parsed(operand.0, start, operand.1, 1, 1));
    }

    // The part of a comparison after its operator, which ends at opEnd.
    method ParseOperand(op: CompareOp, opEnd: nat, fieldName: string) returns (result: Result<(Expr, nat)>)
      requires Valid() && 0 < current && opEnd == s.tokens[current - 1].end
      modifies this`current
      ensures var spec := Operand(s, old(current), op, fieldName);
        if spec.Ok? then
          current == spec.value.1 && result == Ok((spec.value.0, s.tokens[current - 1].end))
        else result == Err(spec.code)
    {
      hide RequiredSpacing, ListItems, LiteralOf;
      var spaced := HasRequiredSpacing(opEnd, Peek().start);
      if op == IsNull || op == IsNotNull {
        return Ok((Comparison(fieldName, op, NO_LITERAL, []), opEnd));
      }
      if op == In || op == NotIn {
        if !spaced || Peek().kind != LeftParen {
          return Err(InvalidSyntax);
        }
        var open := Advance();
        if Peek().kind == RightParen {
          return Err(InvalidSyntax);
        }
        var items :- ParseListItems();
        return Ok((Comparison(fieldName, op, NO_LITERAL, items.0), items.1));
      }
      var literal := LiteralOf(Peek());
      if literal.None? || !spaced {
        return Err(InvalidSyntax);
      }
      LiteralIsNotEnd(Peek());
      var literalToken := Advance();
      return Ok((Comparison(fieldName, op, literal.value, []), literalToken.end));
    }

    method ParseComparisonOperator() returns (result: Result<(CompareOp, nat)>)
      requires Valid()
      modifies this`current
      ensures var spec := Operator(s, old(current));
        if spec.Ok? then
          current == spec.value.1 && result == Ok((spec.value.0, s.tokens[current - 1].end))
        else result == Err(spec.code)
    {
      hide RequiredSpacing;
      var first := Peek();
      var simple := SimpleOperator(first.kind);
      if simple.Some? {
        first := Advance();
        return Ok((simple.value, first.end));
      }
      if first.kind == NotToken {
        first := Advance();
        var spaced := HasRequiredSpacing(first.end, Peek().start);
        if Peek().kind != InToken || !spaced {
          return Err(InvalidSyntax);
        }
        var last := Advance();
        return Ok((NotIn, last.end));
      }
      if first.kind == IsToken {
        first := Advance();
        var spaced := HasRequiredSpacing(first.end, Peek().start);
        if !spaced {
          return Err(InvalidSyntax);
        }
        if Peek().kind == NullToken {
          var last := Advance();
          return Ok((IsNull, last.end));
        }
        if Peek().kind != NotToken {
          return Err(InvalidSyntax);
        }
        var notToken := Advance();
        spaced := HasRequiredSpacing(notToken.end, Peek().start);
        if Peek().kind != NullToken || !spaced {
          return Err(InvalidSyntax);
        }
        var last := Advance();
        return Ok((IsNotNull, last.end));
      }
      return Err(InvalidSyntax);
    }

    // The literals of an in list and the end of its closing parenthesis.
    method ParseListItems() returns (result: Result<(seq<Literal>, nat)>)
      requires Valid()
      modifies this`current
      ensures var spec := ListItems(s, old(current), []);
        if spec.Ok? then
          current == spec.value.1 && result == Ok((spec.value.0, s.tokens[current - 1].end))
        else result == Err(spec.code)
    {
      hide LiteralOf;
      var literals := [];
      while true
        invariant Valid() && ListItems(s, current, literals) == ListItems(s, old(current), [])
        decreases |s.tokens| - current
      {
        var literal := LiteralOf(Peek());
        if literal.None? {
          return Err(InvalidSyntax);
        }
        LiteralIsNotEnd(Peek());
        var literalToken := Advance();
        literals := literals + [literal.value];
        if |literals| > s.limits.maxInValues {
          return Err(LimitExceeded);
        }
        if Peek().kind == RightParen {
          var close := Advance();
          return Ok((literals, close.end));
        }
        if Peek().kind != Comma {
          return Err(InvalidSyntax);
        }
        var comma := Advance();
        if Peek().kind == RightParen {
          return Err(InvalidSyntax);
        }
      }
    }

    // '(' variable ':' and the space behind it; on failure both depths are as before.
    method ParseQuantifierHead(segments: seq<Token>, operator: Token) returns (result: Result<string>)
      requires Valid() && 0 < current && s.tokens[current - 1] == operator
      modifies this`current, this`parenDepth, this`quantDepth
      ensures result == QuantifierHead(s, old(current) - 1, old(Here()), segments)
      ensures var entered := if result.Ok? then 1 else 0;
        parenDepth == old(parenDepth) + entered && quantDepth == old(quantDepth) + entered
      ensures result.Ok? ==> current == old(current) + 3
    {
      hide RequiredSpacing, PathDepth;
      if PathDepth(Here(), segments) > s.limits.maxPathDepth {
        return Err(LimitExceeded);
      }
      if Peek().kind != LeftParen || Peek().start != operator.end {
        return Err(InvalidSyntax);
      }
      var open := Advance();
      parenDepth := parenDepth + 1;
      if parenDepth > MAX_PARENTHESIS_NESTING {
        parenDepth := parenDepth - 1;
        return Err(LimitExceeded);
      }
      quantDepth := quantDepth + 1;
      if quantDepth > s.limits.maxQuantifierDepth {
        quantDepth, parenDepth := quantDepth - 1, parenDepth - 1;
        return Err(LimitExceeded);
      }
      if Peek().kind != Identifier {
        quantDepth, parenDepth := quantDepth - 1, parenDepth - 1;
        return Err(InvalidSyntax);
      }
      var variable := Advance();
      if Peek().kind != Colon {
        quantDepth, parenDepth := quantDepth - 1, parenDepth - 1;
        return Err(InvalidSyntax);
      }
      var colon := Advance();
      var spaced := HasRequiredSpacing(colon.end, Peek().start);
      if !spaced {
        quantDepth, parenDepth := quantDepth - 1, parenDepth - 1;
        return Err(InvalidSyntax);
      }
      return Ok(variable.value);
    }

    method ParseQuantifier(ghost first: nat, segments: seq<Token>, operator: Token) returns (result: Result<Parsed>)
      requires Valid() && first + 1 < current && s.tokens[current - 1] == operator
      requires segments != [] && segments[0] == s.tokens[first]
      modifies this
      ensures Parses(QuantifierAt(s, first, old(current) - 1, old(Here()), segments), result, old(Here()))
      decreases |s.tokens| - current, 8
    {
      hide Chain, QuantifierHead, PathText;
      var variable :- ParseQuantifierHead(segments, operator);
      variables := variables + [variable];
      result := ParseOr();
      variables := variables[..|variables| - 1];
      quantDepth, parenDepth := quantDepth - 1, parenDepth - 1;
      if result.Err? {
        return;
      }
      var body := result.value;
      if Peek().kind != RightParen {
        return Err(InvalidSyntax);
      }
      var close := Advance();
      var nodes, depth := body.nodes + 1, body.depth + 1;
      if nodes > s.limits.maxNodes || depth > s.limits.maxExpressionDepth {
        return Err(LimitExceeded);
      }
      var quantifier := if operator.kind == AllToken then All else Any;
      return Ok(Parsed(Quantifier(PathText(segments), quantifier, variable, body.expr),
                       segments[0].start, close.end, nodes, depth));
    }

    method Join(op: LogicalOp, left: Parsed, right: Parsed) returns (result: Result<Parsed>)
      ensures result == Joined(s, op, left, right)
    {
      var nodes := 1 + left.nodes + right.nodes;
      var depth := 1 + Max(left.depth, right.depth);
      if nodes > s.limits.maxNodes || depth > s.limits.maxExpressionDepth {
        return Err(LimitExceeded);
      }
      return Ok(Parsed(Logical(op, left.expr, right.expr), left.syntaxStart, right.syntaxEnd, nodes, depth));
    }
  }

  lemma LiteralIsNotEnd(t: Token)
    ensures LiteralOf(t).Some? ==> t.kind != EndOfInput
  {}

  lemma ChainSteps(s: Source, cur: nat, sc: Scope, op: LogicalOp)
    requires cur < |s.tokens| && op != OtherLogical
    ensures var left := Level(s, cur, sc, op);
      Chain(s, cur, sc, op) == if left.Err? then left else ChainRest(s, cur, left.value.1, sc, op, left.value.0)
  {}

  lemma LevelsOf(s: Source, cur: nat, sc: Scope)
    requires cur < |s.tokens|
    ensures Level(s, cur, sc, Or) == Chain(s, cur, sc, And) && Level(s, cur, sc, And) == Primary(s, cur, sc)
    ensures Delivers(s, cur, Chain(s, cur, sc, And)) && Delivers(s, cur, Primary(s, cur, sc))
  {}

  lemma SpanInInput(s: Source, k: nat)
    requires SpansInInput(s)
    ensures k < |s.tokens| ==> s.tokens[k].start <= s.tokens[k].end <= |s.input|
  {}

  lemma DeliversSpan(s: Source, first: nat, p: Parsed, next: nat)
    requires first < |s.tokens| && Delivers(s, first, Ok((p, next)))
    ensures first < next < |s.tokens| && p.syntaxStart == s.tokens[first].start && p.syntaxEnd == s.tokens[next - 1].end
  {}

  lemma ChainRestSteps(s: Source, first: nat, cur: nat, sc: Scope, op: LogicalOp, left: Parsed)
    requires first < cur < |s.tokens| && op != OtherLogical && Delivers(s, first, Ok((left, cur)))
    ensures var spec := ChainRest(s, first, cur, sc, op, left);
      if Kind(s, cur) != BinaryKind(op) then spec == Ok((left, cur))
      else
        cur + 1 < |s.tokens| &&
        if !SpacedAfter(s, cur - 1) then spec == Err(InvalidSyntax)
        else
          var right := Level(s, cur + 1, sc, op);
          if right.Err? then spec == right
          else if !SpacedAfter(s, cur) then spec == Err(InvalidSyntax)
          else
            var joined := Joined(s, op, left, right.value.0);
            if joined.Err? then spec == Err(joined.code)
            else
              cur < right.value.1 < |s.tokens| && Delivers(s, first, Ok((joined.value, right.value.1)))
              && spec == ChainRest(s, first, right.value.1, sc, op, joined.value)
  {}

  lemma PathRestSteps(s: Source, cur: nat, sc: Scope, segments: seq<Token>)
    requires cur < |s.tokens| && segments != []
    ensures var spec := PathRest(s, cur, sc, segments);
      if Kind(s, cur) != Slash then
        spec == if PathDepth(sc, segments) > s.limits.maxPathDepth then Err(LimitExceeded)
                else Ok(FieldPath(segments, cur))
      else
        cur + 1 < |s.tokens| &&
        if !Touching(segments[|segments| - 1], s.tokens[cur]) || !Touching(s.tokens[cur], s.tokens[cur + 1]) then
          spec == Err(InvalidSyntax)
        else if Kind(s, cur + 1) == AnyToken || Kind(s, cur + 1) == AllToken
        then spec == Ok(QuantifierPath(segments, cur + 1))
        else if Kind(s, cur + 1) != Identifier then spec == Err(InvalidSyntax)
        else
          var longer := segments + [s.tokens[cur + 1]];
          if PathDepth(sc, longer) > s.limits.maxPathDepth then spec == Err(LimitExceeded)
          else cur + 2 < |s.tokens| && spec == PathRest(s, cur + 2, sc, longer)
  {}

  lemma TiledSpans(input: string, tokens: seq<Token>)
    requires Tiles(input, 0, tokens)
    ensures forall k :: 0 <= k < |tokens| ==> tokens[k].start <= tokens[k].end <= |input|
  {}

  /** parseFilter */
  method ParseFilterText(input: string, given: Limits) returns (result: Result<Expr>)
    ensures result == ParseFilter(input, given)
  {
    hide Chain;
    var limits := WithDefaults(given);
    if |input| > limits.maxFilterBytes {
      return Err(LimitExceeded);
    }
    var tokens :- LexFilter(input, limits);
    LexEndsWithEof(input, 0, 0, limits);
    LexTiles(input, 0, 0, limits);
    TiledSpans(input, tokens);
    var p := new FilterParser(RawSource(input, tokens, limits));
    var parsed :- p.ParseOr();
    if p.Peek().kind != EndOfInput {
      return Err(InvalidSyntax);
    }
    return Ok(parsed.expr);
  }
}
