/** What the limits mean to the parser: they never change the tree, they only decide,
    by measures of the finished tree, whether it is accepted. */
module ParseLimits {
  import opened Common
  import opened Strings
  import opened Ast
  import opened Lexer
  import opened Grammar

  // ---- measures of a tree ----

  /** Path segments, not counting a leading name of the innermost quantifier variable. */
  function ScopedDepth(path: string, variables: seq<string>): nat {
    var segments := Split('/', path);
    if variables != [] && segments[0] == variables[|variables| - 1] then |segments| - 1 else |segments|
  }

  predicate Admits(e: Expr, limits: Limits, quant: nat, variables: seq<string>) {
    match e
    case Comparison(field, op, _, literals) =>
      ScopedDepth(field, variables) <= limits.maxPathDepth
        && (op == In || op == NotIn ==> |literals| <= limits.maxInValues)
    case Logical(_, left, right) => Admits(left, limits, quant, variables) && Admits(right, limits, quant, variables)
    case Not(operand) => Admits(operand, limits, quant, variables)
    case Quantifier(relationship, _, variable, body) =>
      && ScopedDepth(relationship, variables) <= limits.maxPathDepth
      && quant + 1 <= limits.maxQuantifierDepth
      && Admits(body, limits, quant + 1, variables + [variable])
  }

  predicate Fits(e: Expr, limits: Limits, sc: Scope) {
    ExpressionFits(limits, Size(e), Height(e)) && Admits(e, limits, sc.quant, sc.variables)
  }

  // ---- tokens the lexer can produce ----

  predicate IsName(t: Token) { t.kind == Identifier && IsValidIdentifier(t.value) && t.value !in KEYWORDS }

  ghost predicate NamesAreNames(tokens: seq<Token>) {
    forall k :: 0 <= k < |tokens| ==> (tokens[k].kind == Identifier ==> IsName(tokens[k]))
  }

  ghost predicate AllNames(segments: seq<Token>) {
    segments != [] && forall k :: 0 <= k < |segments| ==> IsName(segments[k])
  }

  function Under(s: Source, limits: Limits): Source { RawSource(s.input, s.tokens, limits) }

  // ---- paths ----

  lemma PathDepthOfText(sc: Scope, segments: seq<Token>)
    requires AllNames(segments)
    ensures PathDepth(sc, segments) == ScopedDepth(PathText(segments), sc.variables)
    ensures Split('/', PathText(segments)) == seq(|segments|, i requires 0 <= i < |segments| => segments[i].value)
  {
    var names := seq(|segments|, i requires 0 <= i < |segments| => segments[i].value);
    forall i | 0 <= i < |names| ensures '/' !in names[i] {
      assert IsName(segments[i]);
    }
    SplitJoin('/', names);
  }

  lemma PathDepthGrows(sc: Scope, segments: seq<Token>, more: seq<Token>)
    requires segments != [] && segments <= more
    ensures PathDepth(sc, segments) <= PathDepth(sc, more)
  {
    assert segments[0] == more[0];
  }

  /** A path scanned under one limit is the same path under another that admits it. */
  lemma {:induction false} PathUnderOtherLimits(s: Source, other: Limits, cur: nat, sc: Scope, segments: seq<Token>)
    requires cur < |s.tokens| && AllNames(segments) && NamesAreNames(s.tokens)
    requires PathRest(s, cur, sc, segments).Ok?
    ensures var path := PathRest(s, cur, sc, segments); var again := PathRest(Under(s, other), cur, sc, segments);
      && AllNames(path.value.segments)
      && (if PathDepth(sc, path.value.segments) <= other.maxPathDepth then again == path
          else again == Err(LimitExceeded) || (path.value.QuantifierPath? && again == path))
    decreases |s.tokens| - cur
  {
    hide PathDepth, Touching, IsName;
    if Kind(s, cur) == Slash && Kind(s, cur + 1) == Identifier {
      var longer := segments + [s.tokens[cur + 1]];
      assert IsName(s.tokens[cur + 1]);
      PathUnderOtherLimits(s, other, cur + 2, sc, longer);
      PathDepthGrows(sc, longer, PathRest(s, cur, sc, segments).value.segments);
    }
  }

  // ---- comparisons ----

  lemma {:induction false} ListUnderOtherLimits(s: Source, other: Limits, cur: nat, literals: seq<Literal>)
    requires cur < |s.tokens| && ListItems(s, cur, literals).Ok?
    ensures ListItems(Under(s, other), cur, literals) ==
      if |ListItems(s, cur, literals).value.0| <= other.maxInValues then ListItems(s, cur, literals)
      else Err(LimitExceeded)
    decreases |s.tokens| - cur
  {
    hide LiteralOf;
    if Kind(s, cur + 1) != RightParen {
      ListUnderOtherLimits(s, other, cur + 2, literals + [LiteralOf(s.tokens[cur]).value]);
    }
  }

  lemma OperatorUnderOtherLimits(s: Source, other: Limits, cur: nat)
    requires cur < |s.tokens|
    ensures Operator(Under(s, other), cur) == Operator(s, cur)
  {
    hide SimpleOperator, RequiredSpacing;
    SpacingUnderOtherLimits(s, other);
  }

  lemma SpacingUnderOtherLimits(s: Source, other: Limits)
    ensures forall k: nat :: k + 1 < |s.tokens| ==> SpacedAfter(Under(s, other), k) == SpacedAfter(s, k)
  {}

  lemma OperandUnderOtherLimits(s: Source, other: Limits, next: nat, op: CompareOp, field: string)
    requires 0 < next < |s.tokens| && Operand(s, next, op, field).Ok?
    ensures var operand := Operand(s, next, op, field); var e := operand.value.0;
      && e.field == field && e.op == op
      && Operand(Under(s, other), next, op, field) ==
        if op == In || op == NotIn ==> |e.literals| <= other.maxInValues then operand else Err(LimitExceeded)
  {
    hide LiteralOf, ListItems, RequiredSpacing;
    SpacingUnderOtherLimits(s, other);
    if (op == In || op == NotIn) {
      ListUnderOtherLimits(s, other, next + 1, []);
    }
  }

  /** The tree was accepted under s; under other limits it comes out the same exactly
      when it fits them. */
  ghost predicate Relimited(s: Source, other: Limits, sc: Scope, here: Outcome, there: Outcome) {
    here.Ok? ==> there == if Fits(here.value.0.expr, other, sc) then here else Err(LimitExceeded)
  }

  lemma ComparisonUnderOtherLimits(s: Source, other: Limits, cur: nat, first: nat, sc: Scope, segments: seq<Token>)
    requires first < cur < |s.tokens| && AllNames(segments)
    requires PathDepth(sc, segments) <= other.maxPathDepth
    ensures Relimited(s, other, sc, ComparisonAt(s, cur, first, segments),
                      ComparisonAt(Under(s, other), cur, first, segments))
  {
    hide Operator, Operand, PathDepth, PathText, RequiredSpacing, ScopedDepth;
    var field := PathText(segments);
    PathDepthOfText(sc, segments);
    OperatorUnderOtherLimits(s, other, cur);
    SpacingUnderOtherLimits(s, other);
    if ComparisonAt(s, cur, first, segments).Ok? {
      var (op, next) := Operator(s, cur).value;
      OperandUnderOtherLimits(s, other, next, op, field);
    }
  }

  // ---- the recursive part ----

  lemma {:induction false} ChainUnderOtherLimits(s: Source, other: Limits, cur: nat, sc: Scope, op: LogicalOp)
    requires cur < |s.tokens| && op != OtherLogical && NamesAreNames(s.tokens)
    ensures Relimited(s, other, sc, Chain(s, cur, sc, op), Chain(Under(s, other), cur, sc, op))
    decreases |s.tokens| - cur, if op == Or then 5 else 3
  {
    hide Level, ChainRest, Fits, NamesAreNames;
    var left := Level(s, cur, sc, op);
    if Chain(s, cur, sc, op).Ok? {
      LevelUnderOtherLimits(s, other, cur, sc, op);
      RestUnderOtherLimits(s, other, cur, left.value.1, sc, op, left.value.0);
    }
  }

  lemma {:induction false} LevelUnderOtherLimits(s: Source, other: Limits, cur: nat, sc: Scope, op: LogicalOp)
    requires cur < |s.tokens| && op != OtherLogical && NamesAreNames(s.tokens)
    ensures Relimited(s, other, sc, Level(s, cur, sc, op), Level(Under(s, other), cur, sc, op))
    decreases |s.tokens| - cur, if op == Or then 4 else 2
  {
    hide Chain, Primary, Fits, Delivers, NamesAreNames;
    if op == Or {
      ChainUnderOtherLimits(s, other, cur, sc, And);
    } else {
      PrimaryUnderOtherLimits(s, other, cur, sc);
    }
  }

  lemma JoinFits(op: LogicalOp, left: Expr, right: Expr, limits: Limits, sc: Scope)
    ensures Fits(Logical(op, left, right), limits, sc) <==>
      && Fits(left, limits, sc) && Fits(right, limits, sc)
      && 1 + Size(left) + Size(right) <= limits.maxNodes
      && 1 + Max(Height(left), Height(right)) <= limits.maxExpressionDepth
  {}

  // Also: what fits as a whole fits in its left operand.
  lemma {:induction false} RestUnderOtherLimits(s: Source, other: Limits, first: nat, cur: nat, sc: Scope,
                                                op: LogicalOp, left: Parsed)
    requires first < cur < |s.tokens| && op != OtherLogical && NamesAreNames(s.tokens)
    requires Delivers(s, first, Ok((left, cur))) && ChainRest(s, first, cur, sc, op, left).Ok?
    ensures var here := ChainRest(s, first, cur, sc, op, left);
      && (Fits(here.value.0.expr, other, sc) ==> Fits(left.expr, other, sc))
      && (Delivers(Under(s, other), first, Ok((left, cur))) && Fits(left.expr, other, sc) ==>
            Relimited(s, other, sc, here, ChainRest(Under(s, other), first, cur, sc, op, left)))
    decreases |s.tokens| - cur, 6
  {
    hide Level, Fits, RequiredSpacing, NamesAreNames;
    SpacingUnderOtherLimits(s, other);
    if Kind(s, cur) == BinaryKind(op) {
      var right := Level(s, cur + 1, sc, op).value;
      var joined := Joined(s, op, left, right.0).value;
      LevelUnderOtherLimits(s, other, cur + 1, sc, op);
      RestUnderOtherLimits(s, other, first, right.1, sc, op, joined);
      JoinFits(op, left.expr, right.0.expr, other, sc);
    }
  }

  lemma {:induction false} PrimaryUnderOtherLimits(s: Source, other: Limits, cur: nat, sc: Scope)
    requires cur < |s.tokens| && NamesAreNames(s.tokens)
    ensures Relimited(s, other, sc, Primary(s, cur, sc), Primary(Under(s, other), cur, sc))
    decreases |s.tokens| - cur, 1
  {
    hide Chain, PathPredicate, RequiredSpacing, NamesAreNames;
    SpacingUnderOtherLimits(s, other);
    if Kind(s, cur) == NotToken {
      if SpacedAfter(s, cur) {
        PrimaryUnderOtherLimits(s, other, cur + 1, sc);
      }
    } else if Kind(s, cur) != LeftParen {
      PathPredicateUnderOtherLimits(s, other, cur, sc);
    } else {
      ChainUnderOtherLimits(s, other, cur + 1, sc.(paren := sc.paren + 1), Or);
    }
  }

  lemma {:induction false} PathPredicateUnderOtherLimits(s: Source, other: Limits, cur: nat, sc: Scope)
    requires cur < |s.tokens| && NamesAreNames(s.tokens)
    ensures Relimited(s, other, sc, PathPredicate(s, cur, sc), PathPredicate(Under(s, other), cur, sc))
    decreases |s.tokens| - cur, 0
  {
    hide ComparisonAt, QuantifierAt, PathRest, PathDepth, Delivers, Fits;
    if Kind(s, cur) == Identifier && PathPredicate(s, cur, sc).Ok? {
      var path := PathRest(s, cur + 1, sc, [s.tokens[cur]]).value;
      PathUnderOtherLimits(s, other, cur + 1, sc, [s.tokens[cur]]);
      match path
      case FieldPath(segments, next) =>
        ComparisonPathFits(s, other, next, cur, sc, segments);
        if PathDepth(sc, segments) <= other.maxPathDepth {
          ComparisonUnderOtherLimits(s, other, next, cur, sc, segments);
        }
      case QuantifierPath(segments, operator) =>
        QuantifierUnderOtherLimits(s, other, cur, operator, sc, segments);
        QuantifierPathFits(s, other, cur, operator, sc, segments);
    }
  }

  lemma ComparisonPathFits(s: Source, other: Limits, cur: nat, first: nat, sc: Scope, segments: seq<Token>)
    requires first < cur < |s.tokens| && AllNames(segments) && ComparisonAt(s, cur, first, segments).Ok?
    ensures Fits(ComparisonAt(s, cur, first, segments).value.0.expr, other, sc) ==>
      PathDepth(sc, segments) <= other.maxPathDepth
  {
    hide Operator, Operand, PathDepth, PathText, RequiredSpacing, ScopedDepth;
    PathDepthOfText(sc, segments);
    var (op, next) := Operator(s, cur).value;
    OperandUnderOtherLimits(s, other, next, op, PathText(segments));
  }

  lemma QuantifierPathFits(s: Source, other: Limits, first: nat, operator: nat, sc: Scope, segments: seq<Token>)
    requires first < operator && operator + 1 < |s.tokens| && AllNames(segments)
      && QuantifierAt(s, first, operator, sc, segments).Ok?
    ensures Fits(QuantifierAt(s, first, operator, sc, segments).value.0.expr, other, sc) ==>
      PathDepth(sc, segments) <= other.maxPathDepth
  {
    hide Chain, PathDepth, PathText, RequiredSpacing, ScopedDepth;
    PathDepthOfText(sc, segments);
  }

  lemma QuantifierFits(path: string, quantifier: QuantifierOp, variable: string, body: Expr, limits: Limits, sc: Scope)
    ensures Fits(Quantifier(path, quantifier, variable, body), limits, sc) <==>
      && ScopedDepth(path, sc.variables) <= limits.maxPathDepth && sc.quant + 1 <= limits.maxQuantifierDepth
      && Fits(body, limits, BodyScope(sc, variable)) && ExpressionFits(limits, 1 + Size(body), 1 + Height(body))
  {}

  lemma HeadUnderOtherLimits(s: Source, other: Limits, operator: nat, sc: Scope, segments: seq<Token>)
    requires operator + 1 < |s.tokens| && QuantifierHead(s, operator, sc, segments).Ok?
    ensures QuantifierHead(Under(s, other), operator, sc, segments) ==
      if PathDepth(sc, segments) <= other.maxPathDepth && sc.quant + 1 <= other.maxQuantifierDepth
      then QuantifierHead(s, operator, sc, segments) else Err(LimitExceeded)
  {
    hide RequiredSpacing, PathDepth;
    SpacingUnderOtherLimits(s, other);
  }

  lemma {:induction false} QuantifierUnderOtherLimits(s: Source, other: Limits, first: nat, operator: nat, sc: Scope,
                                                      segments: seq<Token>)
    requires first < operator && operator + 1 < |s.tokens| && AllNames(segments) && NamesAreNames(s.tokens)
    ensures Relimited(s, other, sc, QuantifierAt(s, first, operator, sc, segments),
                      QuantifierAt(Under(s, other), first, operator, sc, segments))
    decreases |s.tokens| - operator, 7
  {
    hide Chain, PathDepth, PathText, QuantifierHead, ScopedDepth, NamesAreNames, Fits, AllNames;
    PathDepthOfText(sc, segments);
    var head := QuantifierHead(s, operator, sc, segments);
    if QuantifierAt(s, first, operator, sc, segments).Ok? {
      HeadUnderOtherLimits(s, other, operator, sc, segments);
      var body := Chain(s, operator + 4, BodyScope(sc, head.value), Or).value.0.expr;
      var quantifier := if Kind(s, operator) == AllToken then All else Any;
      QuantifierFits(PathText(segments), quantifier, head.value, body, other, sc);
      ChainUnderOtherLimits(s, other, operator + 4, BodyScope(sc, head.value), Or);
    }
  }

  // ---- whole filters ----

  lemma {:induction false} LexedNames(input: string, pos: nat, count: nat, limits: Limits)
    requires pos <= |input| && LexFrom(input, pos, count, limits).Ok?
    ensures NamesAreNames(LexFrom(input, pos, count, limits).value)
    decreases |input| - pos
  {
    hide Next, IsName;
    NextName(input, pos);
    var t := Next(input, pos).value;
    if t.kind != EndOfInput {
      LexedNames(input, t.end, count + 1, limits);
    }
  }

  lemma NextName(input: string, pos: nat)
    requires pos <= |input| && Next(input, pos).Ok?
    ensures var t := Next(input, pos).value; t.kind == Identifier ==> IsName(t)
  {
    hide StringRest, NumberEnd;
    var t := Next(input, pos).value;
    WordKindIsKeyword(t.value);
  }

  /** Parsing depends on the limits only through what they admit: a filter accepted
      under some limits gives, under any others, the same tree exactly when its text,
      its tokens and its tree fit those, and a limit error otherwise. */
  lemma ParseUnderOtherLimits(input: string, given: Limits, other: Limits)
    requires ParseFilter(input, given).Ok?
    ensures var tokens := Lex(input, WithDefaults(given)).value; var o := WithDefaults(other);
      ParseFilter(input, other) ==
        if |input| <= o.maxFilterBytes && TokensFit(tokens, 0, o) && Fits(ParseFilter(input, given).value, o, TOP)
        then ParseFilter(input, given) else Err(LimitExceeded)
  {
    hide Chain, Fits, TokensFit, LexFrom;
    var l, o := WithDefaults(given), WithDefaults(other);
    var tokens := Lex(input, l).value;
    LexEndsWithEof(input, 0, 0, l);
    LexUnderOtherLimits(input, 0, 0, l, o);
    LexedNames(input, 0, 0, l);
    var s := RawSource(input, tokens, l);
    assert Under(s, o) == RawSource(input, tokens, o);
    ChainUnderOtherLimits(s, o, 0, TOP, Or);
  }

  predicate AtMost(a: Limits, b: Limits) {
    && a.maxFilterBytes <= b.maxFilterBytes && a.maxTokens <= b.maxTokens && a.maxLiteralBytes <= b.maxLiteralBytes
    && a.maxInValues <= b.maxInValues && a.maxExpressionDepth <= b.maxExpressionDepth && a.maxNodes <= b.maxNodes
    && a.maxPathDepth <= b.maxPathDepth && a.maxQuantifierDepth <= b.maxQuantifierDepth
  }

  lemma {:induction false} AdmitsMonotone(e: Expr, a: Limits, b: Limits, quant: nat, variables: seq<string>)
    requires AtMost(a, b) && Admits(e, a, quant, variables)
    ensures Admits(e, b, quant, variables)
  {
    match e
    case Comparison(_, _, _, _) =>
    case Logical(_, left, right) =>
      AdmitsMonotone(left, a, b, quant, variables);
      AdmitsMonotone(right, a, b, quant, variables);
    case Not(operand) => AdmitsMonotone(operand, a, b, quant, variables);
    case Quantifier(_, _, variable, body) => AdmitsMonotone(body, a, b, quant + 1, variables + [variable]);
  }

  /** Wider limits accept whatever narrower ones do, with the same tree. */
  lemma ParseMonotone(input: string, given: Limits, wider: Limits)
    requires ParseFilter(input, given).Ok? && AtMost(WithDefaults(given), WithDefaults(wider))
    ensures ParseFilter(input, wider) == ParseFilter(input, given)
  {
    ParseUnderOtherLimits(input, given, given);
    ParseUnderOtherLimits(input, given, wider);
    AdmitsMonotone(ParseFilter(input, given).value, WithDefaults(given), WithDefaults(wider), 0, []);
  }

  // ---- parentheses ----

  // Errors of a first operand are errors of the whole.
  lemma ErrorsPass(s: Source, cur: nat, sc: Scope, op: LogicalOp)
    requires cur < |s.tokens| && op != OtherLogical && Primary(s, cur, sc).Err?
    ensures Chain(s, cur, sc, op) == Primary(s, cur, sc)
  {
    hide ChainRest, Primary;
    assert Level(s, cur, sc, And) == Primary(s, cur, sc);
    assert Level(s, cur, sc, Or) == Chain(s, cur, sc, And);
  }

  /** Wherever more than 128 parentheses would be open at once, the parser refuses. */
  lemma {:induction false} TooDeepIsRefused(s: Source, cur: nat, sc: Scope, deep: nat, op: LogicalOp)
    requires cur + deep < |s.tokens| && deep > 0 && sc.paren + deep > 128 && op != OtherLogical
    requires forall k :: cur <= k < cur + deep ==> Kind(s, k) == LeftParen
    ensures Chain(s, cur, sc, op) == Err(LimitExceeded) && Primary(s, cur, sc) == Err(LimitExceeded)
    decreases deep
  {
    hide Chain;
    if sc.paren + 1 <= 128 {
      TooDeepIsRefused(s, cur + 1, sc.(paren := sc.paren + 1), deep - 1, Or);
    }
    ErrorsPass(s, cur, sc, op);
  }
}
