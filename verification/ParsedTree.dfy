/** What a parsed tree carries over from its text: its literals are the literal tokens,
    all of them and in order, and its names are names the lexer admits. */
module ParsedTree {
  import opened Common
  import opened Strings
  import opened Ast
  import opened Lexer
  import opened Grammar
  import opened ParseLimits

  function LiteralsOf(e: Expr): seq<Literal> {
    match e
    case Comparison(_, _, literal, literals) => (if literal == NO_LITERAL then [] else [literal]) + literals
    case Logical(_, left, right) => LiteralsOf(left) + LiteralsOf(right)
    case Not(operand) => LiteralsOf(operand)
    case Quantifier(_, _, _, body) => LiteralsOf(body)
  }

  function LiteralAt(t: Token): seq<Literal> {
    if LiteralOf(t).Some? then [LiteralOf(t).value] else []
  }

  function TokenLiterals(tokens: seq<Token>, from: nat, to: nat): seq<Literal>
    requires from <= to <= |tokens|
    decreases |tokens| - from
  {
    if from == to then [] else LiteralAt(tokens[from]) + TokenLiterals(tokens, from + 1, to)
  }

  predicate IsWord(name: string) { IsValidIdentifier(name) && name !in KEYWORDS }

  ghost predicate IsWordPath(path: string) {
    forall k :: 0 <= k < |Split('/', path)| ==> IsWord(Split('/', path)[k])
  }

  predicate OperandShape(op: CompareOp, literal: Literal, literals: seq<Literal>) {
    if op == IsNull || op == IsNotNull then literal == NO_LITERAL && literals == []
    else if op == In || op == NotIn then literal == NO_LITERAL && literals != []
    else op != OtherCompare && literal != NO_LITERAL && literals == []
  }

  // Names, operator codes and operands as the grammar writes them.
  ghost predicate AsParsed(e: Expr) {
    match e
    case Comparison(field, op, literal, literals) =>
      IsWordPath(field) && OperandShape(op, literal, literals)
    case Logical(op, left, right) => op != OtherLogical && AsParsed(left) && AsParsed(right)
    case Not(operand) => AsParsed(operand)
    case Quantifier(relationship, quantifier, variable, body) =>
      IsWordPath(relationship) && quantifier != OtherQuantifier && IsWord(variable) && AsParsed(body)
  }

  // The tree r holds the literals of the tokens it was parsed from.
  ghost predicate Holds(s: Source, from: nat, r: Outcome)
    requires Delivers(s, from, r) && from < |s.tokens|
  {
    r.Ok? ==> LiteralsOf(r.value.0.expr) == TokenLiterals(s.tokens, from, r.value.1) && AsParsed(r.value.0.expr)
  }

  lemma {:induction false} LiteralsConcat(tokens: seq<Token>, a: nat, b: nat, c: nat)
    requires a <= b <= c <= |tokens|
    ensures TokenLiterals(tokens, a, b) + TokenLiterals(tokens, b, c) == TokenLiterals(tokens, a, c)
    decreases b - a
  {
    hide LiteralAt;
    if a < b {
      LiteralsConcat(tokens, a + 1, b, c);
    } else {
      assert TokenLiterals(tokens, a, b) == [];
    }
  }

  lemma NoLiterals(tokens: seq<Token>, at: nat)
    requires at <= |tokens|
    ensures TokenLiterals(tokens, at, at) == []
  {}

  // A token that is no literal adds none.
  lemma LiteralsSkip(tokens: seq<Token>, a: nat, b: nat)
    requires a < b <= |tokens| && LiteralOf(tokens[a]).None?
    ensures TokenLiterals(tokens, a, b) == TokenLiterals(tokens, a + 1, b)
  {
    assert [] + TokenLiterals(tokens, a + 1, b) == TokenLiterals(tokens, a + 1, b);
  }

  lemma LiteralsSkipLast(tokens: seq<Token>, a: nat, b: nat)
    requires a <= b < |tokens| && LiteralOf(tokens[b]).None?
    ensures TokenLiterals(tokens, a, b + 1) == TokenLiterals(tokens, a, b)
  {
    LiteralsConcat(tokens, a, b, b + 1);
    assert TokenLiterals(tokens, b, b + 1) == [] + [];
    assert TokenLiterals(tokens, a, b) + [] == TokenLiterals(tokens, a, b);
  }

  lemma LiteralsOne(tokens: seq<Token>, a: nat)
    requires a < |tokens|
    ensures TokenLiterals(tokens, a, a + 1) == LiteralAt(tokens[a])
  {
    assert LiteralAt(tokens[a]) + TokenLiterals(tokens, a + 1, a + 1) == LiteralAt(tokens[a]);
  }

  // ---- the pieces ----

  lemma WordPath(segments: seq<Token>)
    requires AllNames(segments)
    ensures IsWordPath(PathText(segments))
  {
    hide Split, Join;
    PathDepthOfText(TOP, segments);
    forall k | 0 <= k < |segments| ensures IsWord(segments[k].value) {
      assert IsName(segments[k]);
    }
  }

  lemma {:induction false} PathHasNoLiterals(s: Source, cur: nat, sc: Scope, segments: seq<Token>)
    requires cur < |s.tokens| && AllNames(segments) && NamesAreNames(s.tokens) && PathRest(s, cur, sc, segments).Ok?
    ensures var path := PathRest(s, cur, sc, segments).value;
      && AllNames(path.segments)
      && TokenLiterals(s.tokens, cur, if path.FieldPath? then path.next else path.operator) == []
    decreases |s.tokens| - cur
  {
    hide PathDepth, Touching;
    if Kind(s, cur) == Slash {
      LiteralIsNone(s.tokens[cur]);
      LiteralIsNone(s.tokens[cur + 1]);
      var path := PathRest(s, cur, sc, segments).value;
      if Kind(s, cur + 1) == Identifier {
        var longer := segments + [s.tokens[cur + 1]];
        assert IsName(s.tokens[cur + 1]);
        PathHasNoLiterals(s, cur + 2, sc, longer);
        var end := if path.FieldPath? then path.next else path.operator;
        LiteralsSkip(s.tokens, cur + 1, end);
        LiteralsSkip(s.tokens, cur, end);
      } else {
        LiteralsSkip(s.tokens, cur, cur + 1);
      }
    }
  }

  lemma LiteralIsNone(t: Token)
    ensures t.kind !in {StringToken, NumberToken, TrueToken, FalseToken} <==> LiteralOf(t).None?
    ensures LiteralOf(t).Some? ==> LiteralOf(t).value != NO_LITERAL
  {}

  lemma OperatorHasNoLiterals(s: Source, cur: nat)
    requires cur < |s.tokens| && Operator(s, cur).Ok?
    ensures Operator(s, cur).value.0 != OtherCompare && TokenLiterals(s.tokens, cur, Operator(s, cur).value.1) == []
  {
    hide RequiredSpacing;
    var next := Operator(s, cur).value.1;
    LiteralIsNone(s.tokens[cur]);
    LiteralIsNone(s.tokens[cur + 1]);
    LiteralsSkip(s.tokens, cur, next);
    if next > cur + 1 {
      LiteralsSkip(s.tokens, cur + 1, next);
    }
    if next > cur + 2 {
      LiteralIsNone(s.tokens[cur + 2]);
      LiteralsSkip(s.tokens, cur + 2, next);
    }
  }

  lemma {:induction false} ListHoldsLiterals(s: Source, cur: nat, literals: seq<Literal>)
    requires cur < |s.tokens| && ListItems(s, cur, literals).Ok?
    ensures var (all, next) := ListItems(s, cur, literals).value;
      all == literals + TokenLiterals(s.tokens, cur, next)
    decreases |s.tokens| - cur
  {
    hide LiteralOf, TokenLiterals;
    var literal := LiteralOf(s.tokens[cur]).value;
    var (all, next) := ListItems(s, cur, literals).value;
    LiteralIsNone(s.tokens[cur + 1]);
    LiteralsConcat(s.tokens, cur, cur + 1, next);
    LiteralsOne(s.tokens, cur);
    LiteralsSkip(s.tokens, cur + 1, next);
    if Kind(s, cur + 1) != RightParen {
      ListHoldsLiterals(s, cur + 2, literals + [literal]);
      assert all == (literals + [literal]) + TokenLiterals(s.tokens, cur + 2, next);
    } else {
      NoLiterals(s.tokens, next);
      assert TokenLiterals(s.tokens, cur, next) == [literal] + [];
    }
  }

  lemma OperandHoldsLiterals(s: Source, next: nat, op: CompareOp, field: string)
    requires 0 < next < |s.tokens| && Operand(s, next, op, field).Ok? && op != OtherCompare
    ensures var (e, end) := Operand(s, next, op, field).value;
      e.field == field && e.op == op && OperandShape(op, e.literal, e.literals)
        && LiteralsOf(e) == TokenLiterals(s.tokens, next, end)
  {
    hide LiteralOf, ListItems, RequiredSpacing;
    if op == IsNull || op == IsNotNull {
    } else if op == In || op == NotIn {
      LiteralIsNone(s.tokens[next]);
      LiteralsSkip(s.tokens, next, Operand(s, next, op, field).value.1);
      ListHoldsLiterals(s, next + 1, []);
    } else {
      LiteralIsNone(s.tokens[next]);
      LiteralsOne(s.tokens, next);
    }
  }

  lemma ComparisonHolds(s: Source, cur: nat, first: nat, segments: seq<Token>)
    requires first < cur < |s.tokens| && AllNames(segments) && ComparisonAt(s, cur, first, segments).Ok?
    requires TokenLiterals(s.tokens, first, cur) == []
    ensures Holds(s, first, ComparisonAt(s, cur, first, segments))
  {
    hide Operator, Operand, PathText, RequiredSpacing, LiteralsOf, TokenLiterals, IsWordPath;
    WordPath(segments);
    var (op, next) := Operator(s, cur).value;
    OperatorHasNoLiterals(s, cur);
    var (e, end) := Operand(s, next, op, PathText(segments)).value;
    OperandHoldsLiterals(s, next, op, PathText(segments));
    LiteralsConcat(s.tokens, first, cur, next);
    LiteralsConcat(s.tokens, first, next, end);
  }

  // ---- the recursive part ----

  lemma {:induction false} ChainHolds(s: Source, cur: nat, sc: Scope, op: LogicalOp)
    requires cur < |s.tokens| && op != OtherLogical && NamesAreNames(s.tokens)
    ensures Holds(s, cur, Chain(s, cur, sc, op))
    decreases |s.tokens| - cur, if op == Or then 5 else 3
  {
    hide Level, ChainRest, NamesAreNames, LiteralsOf, AsParsed;
    var left := Level(s, cur, sc, op);
    if Chain(s, cur, sc, op).Ok? {
      LevelHolds(s, cur, sc, op);
      RestHolds(s, cur, left.value.1, sc, op, left.value.0);
    }
  }

  lemma {:induction false} LevelHolds(s: Source, cur: nat, sc: Scope, op: LogicalOp)
    requires cur < |s.tokens| && op != OtherLogical && NamesAreNames(s.tokens)
    ensures Holds(s, cur, Level(s, cur, sc, op))
    decreases |s.tokens| - cur, if op == Or then 4 else 2
  {
    hide Chain, Primary, NamesAreNames;
    if op == Or {
      ChainHolds(s, cur, sc, And);
    } else {
      PrimaryHolds(s, cur, sc);
    }
  }

  lemma JoinedTree(op: LogicalOp, left: Expr, right: Expr)
    ensures LiteralsOf(Logical(op, left, right)) == LiteralsOf(left) + LiteralsOf(right)
    ensures op != OtherLogical && AsParsed(left) && AsParsed(right) ==> AsParsed(Logical(op, left, right))
  {}

  lemma {:induction false} RestHolds(s: Source, first: nat, cur: nat, sc: Scope, op: LogicalOp, left: Parsed)
    requires first < cur < |s.tokens| && op != OtherLogical && NamesAreNames(s.tokens)
    requires Delivers(s, first, Ok((left, cur))) && Holds(s, first, Ok((left, cur)))
    requires ChainRest(s, first, cur, sc, op, left).Ok?
    ensures Holds(s, first, ChainRest(s, first, cur, sc, op, left))
    decreases |s.tokens| - cur, 6
  {
    hide Level, SpacedAfter, NamesAreNames, TokenLiterals, LiteralOf, LiteralsOf, AsParsed;
    if Kind(s, cur) == BinaryKind(op) {
      var right := Level(s, cur + 1, sc, op).value;
      var joined := Joined(s, op, left, right.0).value;
      LevelHolds(s, cur + 1, sc, op);
      LiteralIsNone(s.tokens[cur]);
      LiteralsSkip(s.tokens, cur, right.1);
      LiteralsConcat(s.tokens, first, cur, right.1);
      JoinedTree(op, left.expr, right.0.expr);
      RestHolds(s, first, right.1, sc, op, joined);
    }
  }

  lemma {:induction false} PrimaryHolds(s: Source, cur: nat, sc: Scope)
    requires cur < |s.tokens| && NamesAreNames(s.tokens)
    ensures Holds(s, cur, Primary(s, cur, sc))
    decreases |s.tokens| - cur, 1
  {
    hide Chain, PathPredicate, SpacedAfter, NamesAreNames, TokenLiterals, LiteralOf;
    if Primary(s, cur, sc).Ok? {
      var next := Primary(s, cur, sc).value.1;
      if Kind(s, cur) == NotToken {
        PrimaryHolds(s, cur + 1, sc);
        LiteralIsNone(s.tokens[cur]);
        LiteralsSkip(s.tokens, cur, next);
      } else if Kind(s, cur) != LeftParen {
        PathPredicateHolds(s, cur, sc);
      } else {
        ChainHolds(s, cur + 1, sc.(paren := sc.paren + 1), Or);
        LiteralIsNone(s.tokens[cur]);
        LiteralsSkip(s.tokens, cur, next);
        LiteralIsNone(s.tokens[next - 1]);
        LiteralsSkipLast(s.tokens, cur + 1, next - 1);
      }
    }
  }

  lemma {:induction false} PathPredicateHolds(s: Source, cur: nat, sc: Scope)
    requires cur < |s.tokens| && NamesAreNames(s.tokens)
    ensures Holds(s, cur, PathPredicate(s, cur, sc))
    decreases |s.tokens| - cur, 0
  {
    hide ComparisonAt, QuantifierAt, PathRest, TokenLiterals, LiteralsOf, AsParsed;
    if Kind(s, cur) == Identifier && PathPredicate(s, cur, sc).Ok? {
      var path := PathRest(s, cur + 1, sc, [s.tokens[cur]]).value;
      PathHasNoLiterals(s, cur + 1, sc, [s.tokens[cur]]);
      LiteralsSkip(s.tokens, cur, if path.FieldPath? then path.next else path.operator);
      match path
      case FieldPath(segments, next) => ComparisonHolds(s, next, cur, segments);
      case QuantifierPath(segments, operator) => QuantifierHolds(s, cur, operator, sc, segments);
    }
  }

  lemma {:induction false} QuantifierHolds(s: Source, first: nat, operator: nat, sc: Scope, segments: seq<Token>)
    requires first < operator && operator + 1 < |s.tokens| && AllNames(segments) && NamesAreNames(s.tokens)
    requires Kind(s, operator) == AnyToken || Kind(s, operator) == AllToken
    requires TokenLiterals(s.tokens, first, operator) == [] && QuantifierAt(s, first, operator, sc, segments).Ok?
    ensures Holds(s, first, QuantifierAt(s, first, operator, sc, segments))
    decreases |s.tokens| - operator, 7
  {
    hide Chain, PathDepth, PathText, RequiredSpacing, TokenLiterals, LiteralOf, IsWordPath;
    WordPath(segments);
    var next := QuantifierAt(s, first, operator, sc, segments).value.1;
    var variable := s.tokens[operator + 2];
    assert IsName(variable);
    ChainHolds(s, operator + 4, BodyScope(sc, variable.value), Or);
    LiteralsConcat(s.tokens, first, operator, next);
    HeadHasNoLiterals(s, operator, next);
    LiteralIsNone(s.tokens[next - 1]);
    LiteralsSkipLast(s.tokens, operator + 4, next - 1);
  }

  lemma HeadHasNoLiterals(s: Source, operator: nat, next: nat)
    requires operator + 4 < next <= |s.tokens|
    requires Kind(s, operator) == AnyToken || Kind(s, operator) == AllToken
    requires Kind(s, operator + 1) == LeftParen && Kind(s, operator + 2) == Identifier && Kind(s, operator + 3) == Colon
    ensures TokenLiterals(s.tokens, operator, next) == TokenLiterals(s.tokens, operator + 4, next)
  {
    LiteralsSkip(s.tokens, operator, next);
    LiteralsSkip(s.tokens, operator + 1, next);
    LiteralsSkip(s.tokens, operator + 2, next);
    LiteralsSkip(s.tokens, operator + 3, next);
  }

  lemma OnlyLastEnds(input: string, limits: Limits)
    requires Lex(input, limits).Ok?
    ensures var tokens := Lex(input, limits).value;
      tokens != [] && forall k :: 0 <= k < |tokens| ==> (tokens[k].kind == EndOfInput <==> k == |tokens| - 1)
  {
    hide LexFrom, InPlace;
    LexTiles(input, 0, 0, limits);
  }

  /** The literals of a parsed filter are the literal tokens of its text, in order. */
  lemma ParsedLiterals(input: string, given: Limits)
    requires ParseFilter(input, given).Ok?
    ensures var tokens := Lex(input, WithDefaults(given)).value; var e := ParseFilter(input, given).value;
      LiteralsOf(e) == TokenLiterals(tokens, 0, |tokens|) && AsParsed(e)
  {
    hide Chain, LexFrom, LiteralsOf, AsParsed, TokenLiterals, NamesAreNames, WithDefaults;
    var l := WithDefaults(given);
    var tokens := Lex(input, l).value;
    LexEndsWithEof(input, 0, 0, l);
    OnlyLastEnds(input, l);
    LexedNames(input, 0, 0, l);
    var s := RawSource(input, tokens, l);
    ChainHolds(s, 0, TOP, Or);
    var next := Chain(s, 0, TOP, Or).value.1;
    assert tokens[next].kind == EndOfInput && next == |tokens| - 1;
    LiteralsSkipLast(tokens, 0, next);
  }
}
