/** What parser.go accepts, as a function of the token list: precedence climbing with
    the required whitespace, node, depth, path and quantifier checks in their places. */
module Grammar {
  import opened Common
  import opened Strings
  import opened Ast
  import opened Lexer

  const MAX_PARENTHESIS_NESTING := 128

  datatype RawSource = RawSource(input: string, tokens: seq<Token>, limits: Limits)

  predicate EndsWithEof(s: RawSource) { s.tokens != [] && s.tokens[|s.tokens| - 1].kind == EndOfInput }

  // Tokens from the lexer: the last one, and it alone, marks the end.
  type Source = s: RawSource | EndsWithEof(s)
    witness RawSource("", [Token(EndOfInput, "", "", 0, 0)], Limits(1, 1, 1, 1, 1, 1, 1, 1, 1, 1, 1, 1, 1, 1))

  // parenDepth, quantDepth and variables of filterParser.
  datatype Scope = Scope(paren: nat, quant: nat, variables: seq<string>)

  datatype Parsed = Parsed(expr: Expr, syntaxStart: int, syntaxEnd: int, nodes: int, depth: int)

  // A parse result with the index of the next token.
  type Outcome = Result<(Parsed, nat)>

  // ---- tree measures ----

  function Size(e: Expr): nat {
    match e
    case Comparison(_, _, _, _) => 1
    case Logical(_, left, right) => 1 + Size(left) + Size(right)
    case Not(operand) => 1 + Size(operand)
    case Quantifier(_, _, _, body) => 1 + Size(body)
  }

  function Height(e: Expr): nat {
    match e
    case Comparison(_, _, _, _) => 1
    case Logical(_, left, right) => 1 + if Height(left) > Height(right) then Height(left) else Height(right)
    case Not(operand) => 1 + Height(operand)
    case Quantifier(_, _, _, body) => 1 + Height(body)
  }

  // ---- pieces ----

  function Kind(s: Source, cur: nat): TokenKind
    requires cur < |s.tokens|
  {
    s.tokens[cur].kind
  }

  predicate RequiredSpacing(s: Source, start: int, end: int) {
    0 <= start < end <= |s.input| && forall i :: start <= i < end ==> IsWhitespace(s.input[i])
  }

  predicate Touching(a: Token, b: Token) { a.end == b.start }

  // Whitespace is required between a token and the next one.
  predicate SpacedAfter(s: Source, cur: nat)
    requires cur + 1 < |s.tokens|
  {
    RequiredSpacing(s, s.tokens[cur].end, s.tokens[cur + 1].start)
  }

  function LiteralOf(t: Token): Option<Literal> {
    match t.kind
    case StringToken => Some(Literal(StringLiteral, t.lexeme, StringValue(t.value)))
    case NumberToken => Some(Literal(NumberLiteral, t.lexeme, StringValue(t.value)))
    case TrueToken => Some(Literal(BoolLiteral, t.lexeme, BoolValue(true)))
    case FalseToken => Some(Literal(BoolLiteral, t.lexeme, BoolValue(false)))
    case _ => None
  }

  function SimpleOperator(kind: TokenKind): Option<CompareOp> {
    match kind
    case EqToken => Some(Eq)
    case NeToken => Some(Ne)
    case GtToken => Some(Gt)
    case GteToken => Some(Gte)
    case LtToken => Some(Lt)
    case LteToken => Some(Lte)
    case ContainsToken => Some(Contains)
    case StartsWithToken => Some(StartsWith)
    case EndsWithToken => Some(EndsWith)
    case InToken => Some(In)
    case _ => None
  }

  /** parseComparisonOperator: the operator and the index after its last word. */
  function Operator(s: Source, cur: nat): (r: Result<(CompareOp, nat)>)
    requires cur < |s.tokens|
    ensures r.Ok? ==> cur < r.value.1 < |s.tokens|
  {
    var simple := SimpleOperator(Kind(s, cur));
    if simple.Some? then Ok((simple.value, cur + 1))
    else if Kind(s, cur) == NotToken then
      if Kind(s, cur + 1) != InToken || !SpacedAfter(s, cur) then Err(InvalidSyntax) else Ok((NotIn, cur + 2))
    else if Kind(s, cur) == IsToken then
      if !SpacedAfter(s, cur) then Err(InvalidSyntax)
      else if Kind(s, cur + 1) == NullToken then Ok((IsNull, cur + 2))
      else if Kind(s, cur + 1) != NotToken then Err(InvalidSyntax)
      else if Kind(s, cur + 2) != NullToken || !SpacedAfter(s, cur + 1) then Err(InvalidSyntax)
      else Ok((IsNotNull, cur + 3))
    else Err(InvalidSyntax)
  }

  /** The literals of an in list, from the first literal to the closing parenthesis. */
  function ListItems(s: Source, cur: nat, literals: seq<Literal>): (r: Result<(seq<Literal>, nat)>)
    requires cur < |s.tokens|
    ensures r.Ok? ==> cur < r.value.1 < |s.tokens| && |r.value.0| > |literals|
    decreases |s.tokens| - cur
  {
    var literal := LiteralOf(s.tokens[cur]);
    if literal.None? then Err(InvalidSyntax)
    else if |literals| + 1 > s.limits.maxInValues then Err(LimitExceeded)
    else if Kind(s, cur + 1) == RightParen then Ok((literals + [literal.value], cur + 2))
    else if Kind(s, cur + 1) != Comma then Err(InvalidSyntax)
    else if Kind(s, cur + 2) == RightParen then Err(InvalidSyntax)
    else ListItems(s, cur + 2, literals + [literal.value])
  }

  predicate ExpressionFits(limits: Limits, nodes: int, depth: int) {
    nodes <= limits.maxNodes && depth <= limits.maxExpressionDepth
  }

  function BinaryKind(op: LogicalOp): TokenKind { if op == Or then OrToken else AndToken }

  // What every successful parse step delivers: progress short of the end mark, exact
  // counts within the limits, and the text span of the tokens it consumed.
  predicate Delivers(s: Source, cur: nat, r: Outcome) {
    r.Ok? ==>
      var (p, next) := r.value;
      && cur < next < |s.tokens|
      && p.nodes == Size(p.expr) && p.depth == Height(p.expr) && ExpressionFits(s.limits, p.nodes, p.depth)
      && p.syntaxStart == s.tokens[cur].start && p.syntaxEnd == s.tokens[next - 1].end
  }

  // ---- paths ----

  datatype PathEnd =
    | FieldPath(segments: seq<Token>, next: nat)
    | QuantifierPath(segments: seq<Token>, operator: nat)

  function PathDepth(sc: Scope, segments: seq<Token>): int {
    if sc.variables != [] && segments != [] && segments[0].value == sc.variables[|sc.variables| - 1]
    then |segments| - 1 else |segments|
  }

  function PathText(segments: seq<Token>): string {
    Join('/', seq(|segments|, i requires 0 <= i < |segments| => segments[i].value))
  }

  /** The slash-separated rest of a path, up to its last segment or its quantifier word. */
  function PathRest(s: Source, cur: nat, sc: Scope, segments: seq<Token>): (r: Result<PathEnd>)
    requires cur < |s.tokens| && segments != []
    ensures r.Ok? ==> segments <= r.value.segments
    ensures r.Ok? && r.value.FieldPath? ==> cur <= r.value.next < |s.tokens|
    ensures r.Ok? && r.value.QuantifierPath? ==>
      cur < r.value.operator && r.value.operator + 1 < |s.tokens| && Kind(s, r.value.operator) in {AnyToken, AllToken}
    decreases |s.tokens| - cur
  {
    if Kind(s, cur) != Slash then
      if PathDepth(sc, segments) > s.limits.maxPathDepth then Err(LimitExceeded) else Ok(FieldPath(segments, cur))
    else if !Touching(segments[|segments| - 1], s.tokens[cur]) || !Touching(s.tokens[cur], s.tokens[cur + 1])
    then Err(InvalidSyntax)
    else if Kind(s, cur + 1) == AnyToken || Kind(s, cur + 1) == AllToken then Ok(QuantifierPath(segments, cur + 1))
    else if Kind(s, cur + 1) != Identifier then Err(InvalidSyntax)
    else if PathDepth(sc, segments + [s.tokens[cur + 1]]) > s.limits.maxPathDepth then Err(LimitExceeded)
    else PathRest(s, cur + 2, sc, segments + [s.tokens[cur + 1]])
  }

  // ---- comparisons ----

  /** parseComparison; cur is the token after the path, first the path's first token. */
  function ComparisonAt(s: Source, cur: nat, first: nat, segments: seq<Token>): (r: Outcome)
    requires first < cur < |s.tokens|
    ensures Delivers(s, first, r) && (r.Ok? ==> r.value.1 > cur)
  {
    var field := PathText(segments);
    if !SpacedAfter(s, cur - 1) then Err(InvalidSyntax)
    else
      var (op, next) :- Operator(s, cur);
      var parsed :- Operand(s, next, op, field);
      if !ExpressionFits(s.limits, 1, 1) then Err(LimitExceeded)
      else Ok((Parsed(parsed.0, s.tokens[first].start, s.tokens[parsed.1 - 1].end, 1, 1), parsed.1))
  }

  function Operand(s: Source, next: nat, op: CompareOp, field: string): (r: Result<(Expr, nat)>)
    requires 0 < next < |s.tokens|
    ensures r.Ok? ==> next <= r.value.1 < |s.tokens| && r.value.0.Comparison?
  {
    if op == IsNull || op == IsNotNull then Ok((Comparison(field, op, NO_LITERAL, []), next))
    else if op == In || op == NotIn then
      if !SpacedAfter(s, next - 1) || Kind(s, next) != LeftParen then Err(InvalidSyntax)
      else if Kind(s, next + 1) == RightParen then Err(InvalidSyntax)
      else
        var items :- ListItems(s, next + 1, []);
        Ok((Comparison(field, op, NO_LITERAL, items.0), items.1))
    else
      var literal := LiteralOf(s.tokens[next]);
      if literal.None? || !SpacedAfter(s, next - 1) then Err(InvalidSyntax)
      else Ok((Comparison(field, op, literal.value, []), next + 1))
  }

  // ---- the recursive part ----

  function Joined(s: Source, op: LogicalOp, left: Parsed, right: Parsed): Result<Parsed> {
    var nodes := 1 + left.nodes + right.nodes;
    var depth := 1 + Max(left.depth, right.depth);
    if !ExpressionFits(s.limits, nodes, depth) then Err(LimitExceeded)
    else Ok(Parsed(Logical(op, left.expr, right.expr), left.syntaxStart, right.syntaxEnd, nodes, depth))
  }

  /** parseOr and parseAnd: operands of the next tighter level, joined to the left. */
  function Chain(s: Source, cur: nat, sc: Scope, op: LogicalOp): (r: Outcome)
    requires cur < |s.tokens| && op != OtherLogical
    ensures Delivers(s, cur, r)
    decreases |s.tokens| - cur, if op == Or then 5 else 3
  {
    var left :- Level(s, cur, sc, op);
    ChainRest(s, cur, left.1, sc, op, left.0)
  }

  function Level(s: Source, cur: nat, sc: Scope, op: LogicalOp): (r: Outcome)
    requires cur < |s.tokens| && op != OtherLogical
    ensures Delivers(s, cur, r)
    decreases |s.tokens| - cur, if op == Or then 4 else 2
  {
    if op == Or then Chain(s, cur, sc, And) else Primary(s, cur, sc)
  }

  function ChainRest(s: Source, first: nat, cur: nat, sc: Scope, op: LogicalOp, left: Parsed): (r: Outcome)
    requires first < cur < |s.tokens| && op != OtherLogical && Delivers(s, first, Ok((left, cur)))
    ensures Delivers(s, first, r)
    decreases |s.tokens| - cur, 6
  {
    if Kind(s, cur) != BinaryKind(op) then Ok((left, cur))
    else if !SpacedAfter(s, cur - 1) then Err(InvalidSyntax)
    else
      var right :- Level(s, cur + 1, sc, op);
      if !SpacedAfter(s, cur) then Err(InvalidSyntax)
      else
        var joined :- Joined(s, op, left, right.0);
        ChainRest(s, first, right.1, sc, op, joined)
  }

  function Primary(s: Source, cur: nat, sc: Scope): (r: Outcome)
    requires cur < |s.tokens|
    ensures Delivers(s, cur, r)
    decreases |s.tokens| - cur, 1
  {
    if Kind(s, cur) == NotToken then
      if !SpacedAfter(s, cur) then Err(InvalidSyntax)
      else
        var inner :- Primary(s, cur + 1, sc);
        var (p, next) := inner;
        if !ExpressionFits(s.limits, p.nodes + 1, p.depth + 1) then Err(LimitExceeded)
        else Ok((Parsed(Not(p.expr), s.tokens[cur].start, p.syntaxEnd, p.nodes + 1, p.depth + 1), next))
    else if Kind(s, cur) != LeftParen then PathPredicate(s, cur, sc)
    else if sc.paren + 1 > MAX_PARENTHESIS_NESTING then Err(LimitExceeded)
    else
      var inner :- Chain(s, cur + 1, sc.(paren := sc.paren + 1), Or);
      var (p, next) := inner;
      if Kind(s, next) != RightParen then Err(InvalidSyntax)
      else Ok((p.(syntaxStart := s.tokens[cur].start, syntaxEnd := s.tokens[next].end), next + 1))
  }

  function PathPredicate(s: Source, cur: nat, sc: Scope): (r: Outcome)
    requires cur < |s.tokens|
    ensures Delivers(s, cur, r)
    decreases |s.tokens| - cur, 0
  {
    if Kind(s, cur) != Identifier then Err(InvalidSyntax)
    else
      var path :- PathRest(s, cur + 1, sc, [s.tokens[cur]]);
      match path
      case FieldPath(segments, next) => ComparisonAt(s, next, cur, segments)
      case QuantifierPath(segments, operator) => QuantifierAt(s, cur, operator, sc, segments)
  }

  // The scope a quantifier's body is parsed in.
  function BodyScope(sc: Scope, variable: string): Scope {
    Scope(sc.paren + 1, sc.quant + 1, sc.variables + [variable])
  }

  // parseQuantifier's checks before its body: operator '(' variable ':' and a space.
  function QuantifierHead(s: Source, operator: nat, sc: Scope, segments: seq<Token>): (r: Result<string>)
    requires operator + 1 < |s.tokens|
    ensures r.Ok? ==> operator + 4 < |s.tokens|
  {
    if PathDepth(sc, segments) > s.limits.maxPathDepth then Err(LimitExceeded)
    else if Kind(s, operator + 1) != LeftParen || !Touching(s.tokens[operator], s.tokens[operator + 1])
    then Err(InvalidSyntax)
    else if sc.paren + 1 > MAX_PARENTHESIS_NESTING then Err(LimitExceeded)
    else if sc.quant + 1 > s.limits.maxQuantifierDepth then Err(LimitExceeded)
    else if Kind(s, operator + 2) != Identifier then Err(InvalidSyntax)
    else if Kind(s, operator + 3) != Colon then Err(InvalidSyntax)
    else if !SpacedAfter(s, operator + 3) then Err(InvalidSyntax)
    else Ok(s.tokens[operator + 2].value)
  }

  function QuantifierAt(s: Source, first: nat, operator: nat, sc: Scope, segments: seq<Token>): (r: Outcome)
    requires first < operator && operator + 1 < |s.tokens|
    ensures Delivers(s, first, r)
    decreases |s.tokens| - operator, 7
  {
    var variable :- QuantifierHead(s, operator, sc, segments);
    var inner :- Chain(s, operator + 4, BodyScope(sc, variable), Or);
    var (p, next) := inner;
    if Kind(s, next) != RightParen then Err(InvalidSyntax)
    else if !ExpressionFits(s.limits, p.nodes + 1, p.depth + 1) then Err(LimitExceeded)
    else
      var quantifier := if Kind(s, operator) == AllToken then All else Any;
      Ok((Parsed(Quantifier(PathText(segments), quantifier, variable, p.expr),
                 s.tokens[first].start, s.tokens[next].end, p.nodes + 1, p.depth + 1), next + 1))
  }

  // ---- parseFilter ----

  const DEFAULT_LIMITS := Limits(16384, 8192, 512, 4096, 100, 100, 100000, 5, 256, 16, 100, 8, 4, 4096)

  // The limits a filter is parsed under, all positive: none of them is defaulted.
  predicate Positive(limits: Limits) {
    && limits.maxFilterBytes > 0 && limits.maxTokens > 0 && limits.maxLiteralBytes > 0 && limits.maxInValues > 0
    && limits.maxExpressionDepth > 0 && limits.maxNodes > 0 && limits.maxPathDepth > 0 && limits.maxQuantifierDepth > 0
  }

  function OrDefault(value: int, fallback: int): int { if value <= 0 then fallback else value }

  function WithDefaults(limits: Limits): Limits {
    limits.(maxFilterBytes := OrDefault(limits.maxFilterBytes, DEFAULT_LIMITS.maxFilterBytes),
            maxTokens := OrDefault(limits.maxTokens, DEFAULT_LIMITS.maxTokens),
            maxLiteralBytes := OrDefault(limits.maxLiteralBytes, DEFAULT_LIMITS.maxLiteralBytes),
            maxInValues := OrDefault(limits.maxInValues, DEFAULT_LIMITS.maxInValues),
            maxPathDepth := OrDefault(limits.maxPathDepth, DEFAULT_LIMITS.maxPathDepth),
            maxQuantifierDepth := OrDefault(limits.maxQuantifierDepth, DEFAULT_LIMITS.maxQuantifierDepth))
  }

  const TOP := Scope(0, 0, [])

  function ParseTokens(s: Source): Result<Expr> {
    var parsed :- Chain(s, 0, TOP, Or);
    if Kind(s, parsed.1) != EndOfInput then Err(InvalidSyntax) else Ok(parsed.0.expr)
  }

  lemma {:induction false} LexEndsWithEof(input: string, pos: nat, count: nat, limits: Limits)
    requires pos <= |input| && LexFrom(input, pos, count, limits).Ok?
    ensures EndsWithEof(RawSource(input, LexFrom(input, pos, count, limits).value, limits))
    decreases |input| - pos
  {
    hide Next;
    var t := Next(input, pos).value;
    if t.kind != EndOfInput {
      LexEndsWithEof(input, t.end, count + 1, limits);
    }
  }

  function ParseFilter(input: string, given: Limits): Result<Expr> {
    var limits := WithDefaults(given);
    if |input| > limits.maxFilterBytes then Err(LimitExceeded)
    else
      var tokens :- Lex(input, limits);
      LexEndsWithEof(input, 0, 0, limits);
      ParseTokens(RawSource(input, tokens, limits))
  }
}
