/** Filter trees back to text, with parentheses where precedence demands them and
    wherever else one likes: none gives the shortest text, all logical nodes the
    fully parenthesised one. */
module Printer {
  import opened Strings
  import opened Ast
  import opened Lexer
  import opened Numerals
  import opened Grammar
  import opened ParseLimits
  import opened ParsedTree
  import opened Rendering

  // Which nodes get parentheses they do not need.
  type Style = Expr -> bool

  const MINIMAL: Style := (e: Expr) => false
  const FULL: Style := (e: Expr) => e.Logical?

  // ---- what can be printed ----

  ghost predicate PrintableLiteral(l: Literal) {
    match l.kind
    case StringLiteral => l.value.StringValue? && l.raw == Quote(l.value.text) && Quotable(l.value.text)
    case NumberLiteral => l.value == StringValue(l.raw) && IsNumber(l.raw)
    case BoolLiteral => l.value.BoolValue? && l.raw == if l.value.flag then "true" else "false"
  }

  ghost predicate PrintableOperand(op: CompareOp, literal: Literal, literals: seq<Literal>) {
    && OperandShape(op, literal, literals)
    && (literal != NO_LITERAL ==> PrintableLiteral(literal))
    && forall k :: 0 <= k < |literals| ==> PrintableLiteral(literals[k])
  }

  /** The trees the language can express. */
  ghost predicate Printable(e: Expr) {
    match e
    case Comparison(field, op, literal, literals) => IsWordPath(field) && PrintableOperand(op, literal, literals)
    case Logical(op, left, right) => op != OtherLogical && Printable(left) && Printable(right)
    case Not(operand) => Printable(operand)
    case Quantifier(relationship, quantifier, variable, body) =>
      IsWordPath(relationship) && quantifier != OtherQuantifier && IsWord(variable) && Printable(body)
  }

  // ---- printing ----

  function Word(kind: TokenKind, text: string): Piece { Piece(kind, text, text) }

  function LiteralPiece(l: Literal): Piece {
    match l.kind
    case StringLiteral => Piece(StringToken, l.raw, if l.value.StringValue? then l.value.text else "")
    case NumberLiteral => Word(NumberToken, l.raw)
    case BoolLiteral => Word(if l.raw == "true" then TrueToken else FalseToken, l.raw)
  }

  function PathTail(names: seq<string>): seq<Piece> {
    if names == [] then [] else [Word(Slash, "/"), Word(Identifier, names[0])] + PathTail(names[1..])
  }

  function PathPieces(path: string): seq<Piece> {
    var names := Split('/', path);
    [Word(Identifier, names[0])] + PathTail(names[1..])
  }

  function OperatorPieces(op: CompareOp): seq<Piece> {
    match op
    case Eq => [Word(EqToken, "eq")]
    case Ne => [Word(NeToken, "ne")]
    case Gt => [Word(GtToken, "gt")]
    case Gte => [Word(GteToken, "gte")]
    case Lt => [Word(LtToken, "lt")]
    case Lte => [Word(LteToken, "lte")]
    case Contains => [Word(ContainsToken, "contains")]
    case StartsWith => [Word(StartsWithToken, "startswith")]
    case EndsWith => [Word(EndsWithToken, "endswith")]
    case In => [Word(InToken, "in")]
    case NotIn => [Word(NotToken, "not"), Word(InToken, "in")]
    case IsNull => [Word(IsToken, "is"), Word(NullToken, "null")]
    case IsNotNull => [Word(IsToken, "is"), Word(NotToken, "not"), Word(NullToken, "null")]
    case OtherCompare => []
  }

  const OPEN := Word(LeftParen, "(")
  const CLOSE := Word(RightParen, ")")

  // The literals of a list and its closing parenthesis.
  function ListPieces(literals: seq<Literal>): seq<Piece> {
    if literals == [] then [CLOSE]
    else if |literals| == 1 then [LiteralPiece(literals[0]), CLOSE]
    else [LiteralPiece(literals[0]), Word(Comma, ",")] + ListPieces(literals[1..])
  }

  function OperandPieces(op: CompareOp, literal: Literal, literals: seq<Literal>): seq<Piece> {
    if op == IsNull || op == IsNotNull then []
    else if op == In || op == NotIn then [OPEN] + ListPieces(literals)
    else [LiteralPiece(literal)]
  }

  // Binding strength: 0 for or, 1 for and, 2 for everything that stands alone.
  function Strength(op: LogicalOp): nat { if op == Or then 0 else 1 }

  predicate Parenthesised(e: Expr, strength: nat, style: Style) {
    style(e) || (e.Logical? && Strength(e.logical) < strength)
  }

  function Print(e: Expr, strength: nat, style: Style): (p: seq<Piece>)
    ensures p != []
    decreases e, 1
  {
    if Parenthesised(e, strength, style) then [OPEN] + Bare(e, style) + [CLOSE] else Bare(e, style)
  }

  function Bare(e: Expr, style: Style): (p: seq<Piece>)
    ensures p != []
    decreases e, 0
  {
    match e
    case Comparison(field, op, literal, literals) =>
      PathPieces(field) + OperatorPieces(op) + OperandPieces(op, literal, literals)
    case Logical(op, left, right) =>
      var word := if op == Or then Word(OrToken, "or") else Word(AndToken, "and");
      Print(left, Strength(op), style) + [word] + Print(right, Strength(op) + 1, style)
    case Not(operand) => [Word(NotToken, "not")] + Print(operand, 2, style)
    case Quantifier(relationship, quantifier, variable, body) =>
      PathPieces(relationship) + HeadPieces(quantifier, variable) + Print(body, 0, style) + [CLOSE]
  }

  function HeadPieces(quantifier: QuantifierOp, variable: string): seq<Piece> {
    [Word(Slash, "/"), if quantifier == All then Word(AllToken, "all") else Word(AnyToken, "any"),
     OPEN, Word(Identifier, variable), Word(Colon, ":")]
  }

  /** How deeply parentheses nest in the printed text, those of quantifiers included. */
  function Nesting(e: Expr, strength: nat, style: Style): nat
    decreases e, 1
  {
    BareNesting(e, style) + if Parenthesised(e, strength, style) then 1 else 0
  }

  function BareNesting(e: Expr, style: Style): nat
    decreases e, 0
  {
    match e
    case Comparison(_, _, _, _) => 0
    case Logical(op, left, right) =>
      var l, r := Nesting(left, Strength(op), style), Nesting(right, Strength(op) + 1, style);
      if l > r then l else r
    case Not(operand) => Nesting(operand, 2, style)
    case Quantifier(_, _, _, body) => 1 + Nesting(body, 0, style)
  }

  function PrintText(e: Expr, style: Style): string { Render(EndOfInput, Print(e, 0, style)) }

  // ---- pieces in a token list ----

  ghost function PieceOf(t: Token): Piece { Piece(t.kind, t.lexeme, t.value) }

  ghost function PiecesOf(s: Source): seq<Piece> {
    seq(|s.tokens|, k requires 0 <= k < |s.tokens| => PieceOf(s.tokens[k]))
  }

  // The tokens from cur on are these pieces, and not the last of the list.
  ghost predicate Reads(s: Source, cur: nat, pieces: seq<Piece>) {
    cur + |pieces| < |s.tokens| && PiecesOf(s)[cur..cur + |pieces|] == pieces
  }

  // Tokens are spaced the way the renderer spaces them.
  ghost predicate Spaced(s: Source) {
    forall k: nat :: k + 2 < |s.tokens| ==>
      if Gap(Kind(s, k), Kind(s, k + 1)) then SpacedAfter(s, k) else Touching(s.tokens[k], s.tokens[k + 1])
  }

  lemma ReadsSplit(s: Source, cur: nat, a: seq<Piece>, b: seq<Piece>)
    requires Reads(s, cur, a + b)
    ensures Reads(s, cur, a) && Reads(s, cur + |a|, b)
  {
    var all := PiecesOf(s);
    assert all[cur..cur + |a|] == (all[cur..cur + |a + b|])[..|a|];
    assert all[cur + |a|..cur + |a| + |b|] == (all[cur..cur + |a + b|])[|a|..];
  }

  lemma ReadsToken(s: Source, cur: nat, pieces: seq<Piece>, k: nat)
    requires Reads(s, cur, pieces) && k < |pieces|
    ensures PieceOf(s.tokens[cur + k]) == pieces[k]
  {
    assert PiecesOf(s)[cur..cur + |pieces|][k] == PiecesOf(s)[cur + k];
  }

  // ---- paths ----

  ghost function Values(segments: seq<Token>): seq<string> {
    seq(|segments|, i requires 0 <= i < |segments| => segments[i].value)
  }

  // What ends a path: anything but a slash, or a slash and a quantifier word.
  ghost predicate PathEndsAt(s: Source, cur: nat) {
    cur < |s.tokens| &&
    (Kind(s, cur) != Slash || (cur + 2 < |s.tokens| && Kind(s, cur + 1) in {AnyToken, AllToken}))
  }

  lemma PathTailSteps(names: seq<string>)
    ensures names == [] ==> PathTail(names) == []
    ensures names != [] ==> PathTail(names) == [Word(Slash, "/"), Word(Identifier, names[0])] + PathTail(names[1..])
  {}

  lemma ValuesGrow(segments: seq<Token>, t: Token)
    ensures Values(segments + [t]) == Values(segments) + [t.value]
  {}

  lemma {:induction false} PathIsRead(s: Source, cur: nat, sc: Scope, segments: seq<Token>, names: seq<string>)
    requires Spaced(s) && 0 < cur <= |s.tokens| && segments != [] && segments[|segments| - 1] == s.tokens[cur - 1]
    requires s.tokens[cur - 1].kind == Identifier
    requires Reads(s, cur, PathTail(names)) && PathEndsAt(s, cur + |PathTail(names)|)
    requires DepthOf(sc, Values(segments) + names) <= s.limits.maxPathDepth
    ensures var path := PathRest(s, cur, sc, segments); var end := cur + |PathTail(names)|;
      && path.Ok? && Values(path.value.segments) == Values(segments) + names
      && path.value == (if Kind(s, end) != Slash then FieldPath(path.value.segments, end)
                        else QuantifierPath(path.value.segments, end + 1))
    decreases |names|
  {
    hide Reads, PathDepth, Spaced, Touching, DepthOf, PathTail, Values;
    PathTailSteps(names);
    DepthOfValues(sc, segments);
    if names == [] {
      assert Values(segments) + [] == Values(segments);
      if Kind(s, cur) == Slash {
        TouchesSlash(s, cur);
      }
    } else {
      var longer := segments + [s.tokens[cur + 1]];
      ReadsToken(s, cur, PathTail(names), 0);
      ReadsToken(s, cur, PathTail(names), 1);
      ReadsSplit(s, cur, [Word(Slash, "/"), Word(Identifier, names[0])], PathTail(names[1..]));
      TouchesSlash(s, cur);
      ValuesGrow(segments, s.tokens[cur + 1]);
      assert Values(longer) + names[1..] == Values(segments) + names;
      DepthOfValues(sc, longer);
      DepthOfPrefix(sc, Values(longer), names[1..]);
      PathIsRead(s, cur + 2, sc, longer, names[1..]);
    }
  }

  function DepthOf(sc: Scope, names: seq<string>): int {
    if sc.variables != [] && names != [] && names[0] == sc.variables[|sc.variables| - 1] then |names| - 1 else |names|
  }

  lemma DepthOfValues(sc: Scope, segments: seq<Token>)
    ensures PathDepth(sc, segments) == DepthOf(sc, Values(segments))
  {}

  lemma DepthOfPrefix(sc: Scope, names: seq<string>, more: seq<string>)
    requires names != []
    ensures DepthOf(sc, names) <= DepthOf(sc, names + more)
  {}

  lemma TouchesSlash(s: Source, cur: nat)
    requires Spaced(s) && 0 < cur && cur + 2 < |s.tokens| && Kind(s, cur) == Slash
    ensures Touching(s.tokens[cur - 1], s.tokens[cur]) && Touching(s.tokens[cur], s.tokens[cur + 1])
  {
    assert !Gap(Kind(s, cur - 1), Kind(s, cur)) && !Gap(Kind(s, cur), Kind(s, cur + 1));
    assert (cur - 1) + 2 < |s.tokens|;
  }

  // A printed path is read as that path.
  lemma WholePathIsRead(s: Source, cur: nat, sc: Scope, path: string)
    requires Spaced(s) && Reads(s, cur, PathPieces(path)) && PathEndsAt(s, cur + |PathPieces(path)|)
    requires ScopedDepth(path, sc.variables) <= s.limits.maxPathDepth
    ensures Kind(s, cur) == Identifier
    ensures var end := cur + |PathPieces(path)|; var read := PathRest(s, cur + 1, sc, [s.tokens[cur]]);
      && read.Ok? && PathText(read.value.segments) == path
      && PathDepth(sc, read.value.segments) == ScopedDepth(path, sc.variables)
      && read.value == (if Kind(s, end) != Slash then FieldPath(read.value.segments, end)
                        else QuantifierPath(read.value.segments, end + 1))
  {
    hide Reads, PathDepth, Spaced, PathRest, PathTail, Split, Join, DepthOf, ScopedDepth;
    var names := Split('/', path);
    var tail := PathTail(names[1..]);
    ReadsToken(s, cur, PathPieces(path), 0);
    ReadsSplit(s, cur, [Word(Identifier, names[0])], tail);
    assert Values([s.tokens[cur]]) + names[1..] == names;
    DepthOfSplit(sc, path);
    PathIsRead(s, cur + 1, sc, [s.tokens[cur]], names[1..]);
    var segments := PathRest(s, cur + 1, sc, [s.tokens[cur]]).value.segments;
    DepthOfValues(sc, segments);
    assert Join('/', Values(segments)) == path;
  }

  lemma DepthOfSplit(sc: Scope, path: string)
    ensures DepthOf(sc, Split('/', path)) == ScopedDepth(path, sc.variables)
  {}
}
